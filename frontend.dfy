/**
 * The browser script: the email-format test, the email extraction from a submitted
 * form, and the three event handlers that decide whether to ask the server for the
 * contact cookie. The form is the list of its `input` elements in document order;
 * the AJAX call, the 500 ms timer and the console are left to the environment.
 */
module Frontend {
  import opened Text
  import opened BrowserCookies

  /** The characters JavaScript's `\s` class matches (WhiteSpace and LineTerminator of ECMAScript). */
  predicate IsJsSpace(c: char)
  {
    var n := c as int;
    (0x09 <= n <= 0x0D) || n == 0x20 || n == 0xA0 || n == 0x1680 || (0x2000 <= n <= 0x200A) ||
    n == 0x2028 || n == 0x2029 || n == 0x202F || n == 0x205F || n == 0x3000 || n == 0xFEFF
  }

  /** A character of the class `[^\s@]`. */
  predicate AtomChar(c: char)
  {
    !IsJsSpace(c) && c != '@'
  }

  predicate AllAtom(s: string)
  {
    forall i :: 0 <= i < |s| ==> AtomChar(s[i])
  }

  /**
   * The strings `/^[^\s@]+@[^\s@]+\.[^\s@]+$/` matches: a non-empty run of `[^\s@]`,
   * an '@', a non-empty run, a '.', and a non-empty run up to the end.
   */
  ghost predicate MatchesEmailPattern(s: string)
  {
    exists at, dot :: 0 < at && at + 1 < dot && dot + 1 < |s| && s[at] == '@' && s[dot] == '.' &&
      AllAtom(s[..at]) && AllAtom(s[at + 1..dot]) && AllAtom(s[dot + 1..])
  }

  /** The domain part has a '.' with at least one character on each side. */
  predicate HasInnerDot(d: string)
  {
    exists j :: 0 < j < |d| - 1 && d[j] == '.'
  }

  /** `isValidEmail`: the test of the pattern above, decided by a scan for the '@'. */
  predicate IsValidEmail(s: string)
    ensures IsValidEmail(s) ==> 5 <= |s| && s[0] != '@'
  {
    var at := IndexOf(s, '@');
    0 < at < |s| && AllAtom(s[..at]) && AllAtom(s[at + 1..]) && HasInnerDot(s[at + 1..])
  }

  lemma AllAtomSlice(s: string, i: nat, j: nat)
    requires i <= j <= |s| && AllAtom(s)
    ensures AllAtom(s[i..j])
  {
    assert forall k :: 0 <= k < j - i ==> s[i..j][k] == s[i + k];
  }

  lemma AllAtomJoin(a: string, c: char, b: string)
    requires AllAtom(a) && AtomChar(c) && AllAtom(b)
    ensures AllAtom(a + [c] + b)
  {
    var s := a + [c] + b;
    assert forall k :: 0 <= k < |s| ==> (k < |a| && s[k] == a[k]) || (k == |a| && s[k] == c) || (k > |a| && s[k] == b[k - |a| - 1]);
  }

  lemma ValidEmailMatches(s: string)
    requires IsValidEmail(s)
    ensures MatchesEmailPattern(s)
  {
    var at := IndexOf(s, '@');
    var d := s[at + 1..];
    var j :| 0 < j < |d| - 1 && d[j] == '.';
    var dot := at + 1 + j;
    assert s[at + 1..dot] == d[..j] && s[dot + 1..] == d[j + 1..];
    AllAtomSlice(d, 0, j);
    AllAtomSlice(d, j + 1, |d|);
    assert s[dot] == '.';
    assert 0 < at && at + 1 < dot && dot + 1 < |s| && s[at] == '@' && s[dot] == '.' &&
      AllAtom(s[..at]) && AllAtom(s[at + 1..dot]) && AllAtom(s[dot + 1..]);
  }

  lemma MatchesValidEmail(s: string, at: nat, dot: nat)
    requires 0 < at && at + 1 < dot && dot + 1 < |s| && s[at] == '@' && s[dot] == '.'
    requires AllAtom(s[..at]) && AllAtom(s[at + 1..dot]) && AllAtom(s[dot + 1..])
    ensures IsValidEmail(s)
  {
    assert forall i :: 0 <= i < at ==> s[i] != '@' by {
      forall i | 0 <= i < at ensures s[i] != '@' {
        assert s[..at][i] == s[i];
      }
    }
    IndexOfAt(s, '@', at);
    var d := s[at + 1..];
    assert d == s[at + 1..dot] + [s[dot]] + s[dot + 1..];
    AllAtomJoin(s[at + 1..dot], s[dot], s[dot + 1..]);
    assert d[dot - at - 1] == '.';
  }

  /** The recogniser accepts exactly the strings the regular expression matches. */
  lemma IsValidEmailMatchesPattern(s: string)
    ensures IsValidEmail(s) <==> MatchesEmailPattern(s)
  {
    if IsValidEmail(s) {
      ValidEmailMatches(s);
    }
    if MatchesEmailPattern(s) {
      var at, dot :| 0 < at && at + 1 < dot && dot + 1 < |s| && s[at] == '@' && s[dot] == '.' &&
        AllAtom(s[..at]) && AllAtom(s[at + 1..dot]) && AllAtom(s[dot + 1..]);
      MatchesValidEmail(s, at, dot);
    }
  }

  /** An accepted address has exactly one '@', no whitespace, and a local part before it. */
  lemma ValidEmailShape(s: string)
    requires IsValidEmail(s)
    ensures s != [] && s[0] != '@'
    ensures '@' in s
    ensures forall i :: 0 <= i < |s| ==> !IsJsSpace(s[i])
    ensures forall i, k :: 0 <= i < |s| && 0 <= k < |s| && s[i] == '@' && s[k] == '@' ==> i == k
  {
    var at := IndexOf(s, '@');
    assert forall i :: 0 <= i < at ==> s[..at][i] == s[i];
    assert forall i :: at < i < |s| ==> s[at + 1..][i - at - 1] == s[i];
  }

  /** A plain address is accepted. */
  lemma EmailAccepted()
    ensures IsValidEmail("a@b.co")
  {
    assert "a@b.co"[1] == '@' && "a@b.co"[..1] == "a" && "a@b.co"[2..] == "b.co";
    assert "b.co"[1] == '.';
  }

  lemma NoDotRejected()
    ensures !IsValidEmail("a@b")
  {
    IndexOfAt("a@b", '@', 1);
    assert "a@b"[2..] == "b";
  }

  lemma EmptyDomainLabelRejected()
    ensures !IsValidEmail("a@.co")
  {
    IndexOfAt("a@.co", '@', 1);
    assert "a@.co"[2..] == ".co";
    assert ".co"[1] == 'c' && ".co"[0] == '.';
  }

  lemma SpaceRejected()
    ensures !IsValidEmail("a b@c.de")
  {
    IndexOfAt("a b@c.de", '@', 3);
    assert "a b@c.de"[..3][1] == ' ';
  }

  /** An address without a dot after the '@', with nothing between them, or with a space is rejected. */
  lemma EmailsRejected()
    ensures !IsValidEmail("a@b")
    ensures !IsValidEmail("a@.co")
    ensures !IsValidEmail("a b@c.de")
  {
    NoDotRejected();
    EmptyDomainLabelRejected();
    SpaceRejected();
  }

  /** JavaScript's truthiness test `email && isValidEmail(email)`. */
  predicate Acceptable(v: string)
  {
    v != "" && IsValidEmail(v)
  }

  /** One `input` element of the form: its `type`, `id`, `name` attributes (absent reads as "") and its value. */
  datatype Input = Input(kind: string, id: string, name: string, value: string)

  /** The CSS selector the script builds: `input[type="email"]`, or `input[id*="p"], input[name*="p"]`. */
  datatype Selector = TypeEmail | AttrPattern(pattern: string)

  /** `[attr*="p"]`: a substring match, which an empty pattern never satisfies. */
  predicate AttrContains(attr: string, p: string)
  {
    p != "" && Contains(attr, p)
  }

  predicate Selects(sel: Selector, x: Input)
  {
    match sel
    case TypeEmail => x.kind == "email"
    case AttrPattern(p) => AttrContains(x.id, p) || AttrContains(x.name, p)
  }

  /** `$form.find(sel).first()`: the position of the first input in document order the selector matches. */
  function First(inputs: seq<Input>, sel: Selector): (r: Option<nat>)
    ensures r.Some? ==> r.value < |inputs| && Selects(sel, inputs[r.value]) &&
                        forall j :: 0 <= j < r.value ==> !Selects(sel, inputs[j])
    ensures r.None? ==> forall j :: 0 <= j < |inputs| ==> !Selects(sel, inputs[j])
    decreases |inputs|
  {
    if inputs == [] then None
    else if Selects(sel, inputs[0]) then Some(0)
    else
      match First(inputs[1..], sel)
      case None => None
      case Some(i) => Some(i + 1)
  }

  /** `.first().val()` of the selection, when it is non-empty. */
  function Candidate(inputs: seq<Input>, sel: Selector): (r: Option<string>)
    ensures r.None? <==> forall j :: 0 <= j < |inputs| ==> !Selects(sel, inputs[j])
    ensures r.Some? ==> exists j :: 0 <= j < |inputs| && Selects(sel, inputs[j]) && r.value == inputs[j].value &&
                                    forall i :: 0 <= i < j ==> !Selects(sel, inputs[i])
  {
    match First(inputs, sel)
    case None => None
    case Some(i) => Some(inputs[i].value)
  }

  /** The selection for this selector yields an address the script accepts. */
  predicate Hit(inputs: seq<Input>, sel: Selector)
    ensures Hit(inputs, sel) <==> exists j :: 0 <= j < |inputs| && Selects(sel, inputs[j]) && Acceptable(inputs[j].value) &&
                                            forall i :: 0 <= i < j ==> !Selects(sel, inputs[i])
  {
    var c := Candidate(inputs, sel);
    c.Some? && Acceptable(c.value)
  }

  /** The fallback list of id/name fragments, in the order they are tried. */
  const FormEmailPatterns: seq<string> := ["email", "your-email", "e-mail", "mail", "email_address", "billing_email"]

  /** The fallback loop: the candidate of the first pattern whose candidate is acceptable. */
  function ScanPatterns(inputs: seq<Input>, patterns: seq<string>): (r: Option<string>)
    ensures r.Some? ==> Acceptable(r.value)
    decreases |patterns|
  {
    if patterns == [] then None
    else if Hit(inputs, AttrPattern(patterns[0])) then Candidate(inputs, AttrPattern(patterns[0]))
    else ScanPatterns(inputs, patterns[1..])
  }

  /** `extractEmailFromForm`: the first typed email input if its value is acceptable, else the fallback loop. */
  function ExtractEmailFromForm(inputs: seq<Input>): (r: Option<string>)
    ensures r.Some? ==> Acceptable(r.value)
  {
    if Hit(inputs, TypeEmail) then Candidate(inputs, TypeEmail)
    else ScanPatterns(inputs, FormEmailPatterns)
  }

  /** The loop returns the candidate of pattern `k` when `k` is the first pattern that hits. */
  lemma {:induction false} ScanPatternsAt(inputs: seq<Input>, patterns: seq<string>, k: nat)
    requires k < |patterns| && Hit(inputs, AttrPattern(patterns[k]))
    requires forall j :: 0 <= j < k ==> !Hit(inputs, AttrPattern(patterns[j]))
    ensures ScanPatterns(inputs, patterns) == Candidate(inputs, AttrPattern(patterns[k]))
    decreases k
  {
    if k > 0 {
      assert !Hit(inputs, AttrPattern(patterns[0]));
      assert forall j :: 0 <= j < k - 1 ==> patterns[1..][j] == patterns[j + 1];
      ScanPatternsAt(inputs, patterns[1..], k - 1);
    }
  }

  /** The loop gives up exactly when no pattern hits. */
  lemma {:induction false} ScanPatternsNone(inputs: seq<Input>, patterns: seq<string>)
    ensures ScanPatterns(inputs, patterns) == None <==>
            forall k :: 0 <= k < |patterns| ==> !Hit(inputs, AttrPattern(patterns[k]))
    decreases |patterns|
  {
    if patterns != [] {
      ScanPatternsNone(inputs, patterns[1..]);
      assert forall k :: 1 <= k < |patterns| ==> patterns[k] == patterns[1..][k - 1];
    }
  }

  /**
   * A typed email input always takes precedence: when the first one holds an acceptable
   * address, it is returned whatever the other inputs contain; when nothing hits, the
   * result is null.
   */
  lemma ExtractEmailFromFormMeaning(inputs: seq<Input>)
    ensures Hit(inputs, TypeEmail) ==> ExtractEmailFromForm(inputs) == Candidate(inputs, TypeEmail)
    ensures ExtractEmailFromForm(inputs) == None <==>
            !Hit(inputs, TypeEmail) && forall k :: 0 <= k < |FormEmailPatterns| ==> !Hit(inputs, AttrPattern(FormEmailPatterns[k]))
  {
    ScanPatternsNone(inputs, FormEmailPatterns);
  }

  /** A result of the fallback loop is the first input some pattern selects. */
  lemma {:induction false} ScanPatternsSource(inputs: seq<Input>, patterns: seq<string>)
    ensures ScanPatterns(inputs, patterns).Some? ==>
            exists k :: 0 <= k < |patterns| && ScanPatterns(inputs, patterns) == Candidate(inputs, AttrPattern(patterns[k]))
    decreases |patterns|
  {
    if patterns != [] && !Hit(inputs, AttrPattern(patterns[0])) && ScanPatterns(inputs, patterns).Some? {
      ScanPatternsSource(inputs, patterns[1..]);
      var k :| 0 <= k < |patterns[1..]| &&
               ScanPatterns(inputs, patterns[1..]) == Candidate(inputs, AttrPattern(patterns[1..][k]));
      assert patterns[1..][k] == patterns[k + 1];
    }
  }

  /**
   * Only the first input a selector picks is ever examined: whatever the form returns is the
   * value of the first typed email input or of the first input some fallback pattern selects.
   */
  lemma ExtractedIsFirstCandidate(inputs: seq<Input>)
    ensures ExtractEmailFromForm(inputs).Some? ==>
            ExtractEmailFromForm(inputs) == Candidate(inputs, TypeEmail) ||
            exists k :: 0 <= k < |FormEmailPatterns| &&
                        ExtractEmailFromForm(inputs) == Candidate(inputs, AttrPattern(FormEmailPatterns[k]))
  {
    ScanPatternsSource(inputs, FormEmailPatterns);
  }

  /**
   * An instance: two inputs whose id is "mail", the first holding no address. Every pattern
   * that selects either of them picks the first, so the valid address in the second is never
   * returned. A later input can still win through a pattern that selects it first: see
   * LaterInputWinsThroughOtherPattern.
   */
  lemma LaterValidEmailIgnored()
    ensures ExtractEmailFromForm([Input("text", "mail", "", "nope"), Input("text", "mail", "", "a@b.co")]) == None
  {
    var inputs := [Input("text", "mail", "", "nope"), Input("text", "mail", "", "a@b.co")];
    assert !IsValidEmail("nope") by {
      assert IndexOf("nope", '@') == 4;
    }
    assert Contains("mail", "mail") by {
      ContainsAt("mail", "mail", 0);
    }
    forall k | 0 <= k < |FormEmailPatterns| ensures !Hit(inputs, AttrPattern(FormEmailPatterns[k])) {
      var c := Candidate(inputs, AttrPattern(FormEmailPatterns[k]));
      assert c.Some? ==> c.value == "nope";
    }
    ScanPatternsNone(inputs, FormEmailPatterns);
  }

  /** The fallback pattern "email" skips an input whose id is only "mail" and picks a later `billing_email` input. */
  lemma LaterInputWinsThroughOtherPattern()
    ensures ExtractEmailFromForm([Input("text", "mail", "", "nope"), Input("text", "x", "billing_email", "a@b.co")])
            == Some("a@b.co")
  {
    var inputs := [Input("text", "mail", "", "nope"), Input("text", "x", "billing_email", "a@b.co")];
    assert !Hit(inputs, TypeEmail) by {
      assert forall j :: 0 <= j < |inputs| ==> !Selects(TypeEmail, inputs[j]);
    }
    assert "billing_email"[8..8 + |"email"|] == "email";
    ContainsAt("billing_email", "email", 8);
    assert !Contains("x", "email");
    assert Selects(AttrPattern("email"), inputs[1]) && !Selects(AttrPattern("email"), inputs[0]);
    assert First(inputs, AttrPattern("email")) == Some(1);
    EmailAccepted();
    assert FormEmailPatterns[0] == "email";
  }

  /** The name of the cookie that carries the contact's uid. */
  const UidCookie := "_fk_contact_uid"

  lemma UidCookieNameOk()
    ensures NameOk(UidCookie)
  {
    assert forall i :: 0 <= i < |UidCookie| ==> UidCookie[i] != ';' && UidCookie[i] != '=';
  }


  /** The POST the script sends to the server. */
  datatype AjaxRequest = AjaxRequest(action: string, email: string, nonce: string)

  const SetCookieAction := "bwfan_elementor_set_contact_cookie"

  /** `setContactCookie(email)`: the request it sends, or nothing for a missing or invalid address. */
  function ContactCookieRequest(email: Option<string>, nonce: string): (r: Option<AjaxRequest>)
    ensures r.Some? <==> email.Some? && Acceptable(email.value)
    ensures r.Some? ==> r.value.action == SetCookieAction && r.value.email == email.value && r.value.nonce == nonce
  {
    if email.Some? && Acceptable(email.value) then Some(AjaxRequest(SetCookieAction, email.value, nonce)) else None
  }

  /** The `submit_success` handler: extract, and if something was found, request the cookie. */
  function OnSubmitSuccess(inputs: seq<Input>, nonce: string): (r: Option<AjaxRequest>)
    ensures r.Some? ==> r.value.action == SetCookieAction && r.value.nonce == nonce && Acceptable(r.value.email)
  {
    var email := ExtractEmailFromForm(inputs);
    if email.Some? && email.value != "" then ContactCookieRequest(email, nonce) else None
  }

  /** The second check inside `setContactCookie` never drops an address the extraction returned. */
  lemma SubmitRequestsExactlyWhenExtracted(inputs: seq<Input>, nonce: string)
    ensures OnSubmitSuccess(inputs, nonce).Some? <==> ExtractEmailFromForm(inputs).Some?
    ensures ExtractEmailFromForm(inputs).Some? ==>
            OnSubmitSuccess(inputs, nonce) == Some(AjaxRequest(SetCookieAction, ExtractEmailFromForm(inputs).value, nonce))
  {
  }

  /**
   * The `elementor/popup/hide` handler: the forms found in the popup are searched together,
   * so their inputs are taken in document order across all of them; no form means no request.
   */
  function OnPopupHide(forms: seq<seq<Input>>, nonce: string): (r: Option<AjaxRequest>)
    ensures forms == [] ==> r.None?
    ensures r.Some? ==> r.value.action == SetCookieAction && r.value.nonce == nonce && Acceptable(r.value.email)
  {
    if forms == [] then None else OnSubmitSuccess(Flatten(forms), nonce)
  }

  function Flatten(forms: seq<seq<Input>>): seq<Input>
    decreases |forms|
  {
    if forms == [] then [] else forms[0] + Flatten(forms[1..])
  }

  /** A popup holding one form behaves as that form's submission. */
  lemma PopupWithOneForm(inputs: seq<Input>, nonce: string)
    ensures OnPopupHide([inputs], nonce) == OnSubmitSuccess(inputs, nonce)
  {
    assert [inputs][1..] == [];
    assert Flatten([inputs]) == inputs;
  }

  /**
   * The `change`/`blur` handler on a typed email input: request the cookie only for an
   * acceptable address and only while `getCookie` finds no uid (null or "").
   */
  function OnEmailChange(value: string, documentCookie: string, nonce: string): (r: Option<AjaxRequest>)
    ensures var uid := GetCookie(documentCookie, UidCookie);
            r.Some? <==> Acceptable(value) && (uid.None? || uid.value == "")
    ensures r.Some? ==> r.value == AjaxRequest(SetCookieAction, value, nonce)
  {
    if Acceptable(value) then
      var uid := GetCookie(documentCookie, UidCookie);
      if uid.None? || uid.value == "" then ContactCookieRequest(Some(value), nonce) else None
    else None
  }

  /** A browser that already holds a non-empty uid cookie sends nothing when the email changes. */
  lemma EmailChangeSkipsKnownContact(pairs: seq<CookiePair>, value: string, uid: string, nonce: string)
    requires forall k :: 0 <= k < |pairs| ==> PairOk(pairs[k])
    requires CookieLookup(pairs, UidCookie) == Some(uid) && uid != ""
    ensures OnEmailChange(value, Rendered(pairs), nonce) == None
  {
    UidCookieNameOk();
    GetCookieRendered(pairs, UidCookie);
  }

  /** Without a uid cookie, an acceptable address typed into the field is sent. */
  lemma EmailChangeRequestsForNewVisitor(pairs: seq<CookiePair>, value: string, nonce: string)
    requires forall k :: 0 <= k < |pairs| ==> PairOk(pairs[k])
    requires CookieLookup(pairs, UidCookie) == None
    ensures OnEmailChange(value, Rendered(pairs), nonce).Some? <==> Acceptable(value)
    ensures Acceptable(value) ==> OnEmailChange(value, Rendered(pairs), nonce) == Some(AjaxRequest(SetCookieAction, value, nonce))
  {
    UidCookieNameOk();
    GetCookieRendered(pairs, UidCookie);
  }

  /** What the `success` callback reads off the server's reply. */
  datatype AjaxReply = AjaxReply(success: bool, uid: Option<string>)

  /** The cookie string the `success` callback writes: for a successful reply with a non-empty uid, valid for 3650 days. */
  function CookieWrite(reply: AjaxReply, utcDate: string): (w: Option<string>)
    ensures w.Some? <==> reply.success && reply.uid.Some? && reply.uid.value != ""
  {
    if reply.success && reply.uid.Some? && reply.uid.value != "" then
      Some(SetCookieString(UidCookie, reply.uid, 3650, utcDate))
    else None
  }

  /** The cookie the callback writes reads back as the uid the server sent. */
  lemma CookieWriteReadsBack(reply: AjaxReply, utcDate: string)
    requires CookieWrite(reply, utcDate).Some?
    requires ';' !in reply.uid.value && ';' !in utcDate
    ensures GetCookie(CookieWrite(reply, utcDate).value, UidCookie) == reply.uid
  {
    UidCookieNameOk();
    SetCookieParses(UidCookie, reply.uid, 3650, utcDate);
  }
}
