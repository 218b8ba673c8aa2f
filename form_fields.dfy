/**
 * Submitted form fields: normalisation of the entry shapes a form record may
 * deliver, the email extractor and the attribute-value extractor.
 * `is_email` and `sanitize_email` belong to the host and are parameters here.
 */
module FormFields {
  import opened Text
  import opened Php

  /** The array key a field entry is stored under. */
  datatype Key = IntKey(n: int) | StrKey(s: string)

  /** The optional members of an array- or object-shaped entry; None is "not set" (absent or null). */
  datatype Attrs = Attrs(id: Option<string>, title: Option<string>, name: Option<string>,
                         kind: Option<string>, value: Option<string>)

  /** A field entry: an associative array, an object, a bare string, or anything else. */
  datatype Entry =
    | ArrayEntry(attrs: Attrs)
    | ObjectEntry(attrs: Attrs)
    | StringEntry(text: string)
    | OtherEntry

  datatype Field = Field(key: Key, entry: Entry)

  /** The normalised record `{id, name, type, value}`. */
  datatype FieldData = FieldData(id: string, name: string, kind: string, value: string)

  const Blank := FieldData("", "", "", "")

  function LowerOr(o: Option<string>): string
  {
    match o
    case Some(s) => Lower(s)
    case None => ""
  }

  function ValueOr(o: Option<string>): string
  {
    match o
    case Some(s) => s
    case None => ""
  }

  /** `title` takes precedence over `name` as the field's display name. */
  function NameOf(a: Attrs): string
  {
    if a.title.Some? then Lower(a.title.value) else LowerOr(a.name)
  }

  /** The normalised record of one entry, as `parse_field` builds it. */
  function Parsed(f: Field, isEmail: string -> bool): (d: FieldData)
    ensures IsLowerCase(d.id) && IsLowerCase(d.name) && IsLowerCase(d.kind)
    ensures (f.entry.ArrayEntry? || f.entry.ObjectEntry?) ==>
              var a := f.entry.attrs;
              && d.value == ValueOr(a.value)
              && (a.id.Some? ==> d.id == Lower(a.id.value))
              && (a.id.None? ==> d.id == "")
              && (a.kind.Some? ==> d.kind == Lower(a.kind.value))
              && (a.kind.None? ==> d.kind == "")
              && (a.title.Some? ==> d.name == Lower(a.title.value))
              && (a.title.None? && a.name.Some? ==> d.name == Lower(a.name.value))
              && (a.title.None? && a.name.None? ==> d.name == "")
    ensures f.entry.StringEntry? ==>
              if f.key.StrKey? && isEmail(f.entry.text)
              then d.id == Lower(f.key.s) && d.value == f.entry.text && d.name == "" && d.kind == ""
              else d == Blank
    ensures f.entry.OtherEntry? ==> d == Blank
  {
    match f.entry
    case ArrayEntry(a) => FieldData(LowerOr(a.id), NameOf(a), LowerOr(a.kind), ValueOr(a.value))
    case StringEntry(t) =>
      if f.key.StrKey? && isEmail(t) then FieldData(Lower(f.key.s), "", "", t) else Blank
    case ObjectEntry(a) => FieldData(LowerOr(a.id), NameOf(a), LowerOr(a.kind), ValueOr(a.value))
    case OtherEntry => Blank
  }

  /** `parse_field`: starts from the blank record and fills it member by member. */
  method ParseField(entry: Entry, key: Key, isEmail: string -> bool) returns (data: FieldData)
    ensures data == Parsed(Field(key, entry), isEmail)
  {
    data := Blank;
    match entry {
      case ArrayEntry(a) =>
        data := data.(id := LowerOr(a.id));
        data := data.(name := NameOf(a));
        data := data.(kind := LowerOr(a.kind));
        data := data.(value := ValueOr(a.value));
      case StringEntry(t) =>
        if key.StrKey? && isEmail(t) {
          data := data.(id := Lower(key.s));
          data := data.(value := t);
        }
      case ObjectEntry(a) =>
        data := data.(id := LowerOr(a.id));
        data := data.(name := NameOf(a));
        data := data.(kind := LowerOr(a.kind));
        data := data.(value := ValueOr(a.value));
      case OtherEntry =>
    }
  }

  /** Normalisation is idempotent: feeding a normalised record back in as an array entry returns it unchanged. */
  lemma ParseFieldIdempotent(f: Field, k: Key, isEmail: string -> bool)
    ensures var d := Parsed(f, isEmail);
            Parsed(Field(k, ArrayEntry(Attrs(Some(d.id), Some(d.name), None, Some(d.kind), Some(d.value)))), isEmail) == d
  {
    var d := Parsed(f, isEmail);
    LowerFixes(d.id);
    LowerFixes(d.name);
    LowerFixes(d.kind);
  }

  // ---------------------------------------------------------------------------
  // extract_email_from_fields

  const DefaultEmailPatterns: seq<string> :=
    ["email", "your-email", "e-mail", "mail", "email_address", "emailaddress", "billing_email"]

  predicate PatternMatches(d: FieldData, p: string)
  {
    Contains(d.id, p) || Contains(d.name, p)
  }

  /** The pattern loop for one field: the first pattern found in the id or name, provided the value validates. */
  function PatternScan(d: FieldData, patterns: seq<string>, isEmail: string -> bool): (r: Option<string>)
    ensures r.Some? <==> isEmail(d.value) && exists k :: 0 <= k < |patterns| && PatternMatches(d, patterns[k])
    ensures r.Some? ==> r.value == d.value
  {
    if patterns == [] then None
    else if PatternMatches(d, patterns[0]) && isEmail(d.value) then Some(d.value)
    else
      var r := PatternScan(d, patterns[1..], isEmail);
      assert forall k :: 1 <= k < |patterns| ==> patterns[k] == patterns[1..][k - 1];
      r
  }

  /**
   * `extract_email_from_fields`: per field, in list order, first the declared type,
   * then the id/name patterns, then the value alone; the first hit is sanitised and returned.
   */
  function ExtractEmail(fields: seq<Field>, patterns: seq<string>,
                        isEmail: string -> bool, sanitize: string -> string): (r: Option<string>)
    ensures r.None? <==> forall i :: 0 <= i < |fields| ==> !isEmail(Parsed(fields[i], isEmail).value)
    ensures r.Some? ==> fields != [] && (isEmail(Parsed(fields[0], isEmail).value) ==>
                                           r.value == sanitize(Parsed(fields[0], isEmail).value))
  {
    if fields == [] then None
    else
      var d := Parsed(fields[0], isEmail);
      if d.kind == "email" && isEmail(d.value) then Some(sanitize(d.value))
      else match PatternScan(d, patterns, isEmail)
        case Some(v) => Some(sanitize(v))
        case None =>
          if isEmail(d.value) then Some(sanitize(d.value))
          else
            assert forall i :: 1 <= i < |fields| ==> fields[i] == fields[1..][i - 1];
            ExtractEmail(fields[1..], patterns, isEmail, sanitize)
  }

  function ValueAt(fields: seq<Field>, i: nat, isEmail: string -> bool): string
    requires i < |fields|
  {
    Parsed(fields[i], isEmail).value
  }

  /** Reference definition: the sanitised value of the first field whose value passes `is_email`. */
  function FirstValidEmail(fields: seq<Field>, isEmail: string -> bool, sanitize: string -> string): Option<string>
  {
    if fields == [] then None
    else if isEmail(ValueAt(fields, 0, isEmail)) then Some(sanitize(ValueAt(fields, 0, isEmail)))
    else FirstValidEmail(fields[1..], isEmail, sanitize)
  }

  /** The reference result is none exactly when no value validates, and otherwise comes from the first value that does. */
  lemma {:induction false} FirstValidEmailMeaning(fields: seq<Field>, isEmail: string -> bool, sanitize: string -> string)
    ensures var r := FirstValidEmail(fields, isEmail, sanitize);
            && (r.None? <==> forall i :: 0 <= i < |fields| ==> !isEmail(ValueAt(fields, i, isEmail)))
            && (r.Some? ==>
                  exists i :: 0 <= i < |fields| && isEmail(ValueAt(fields, i, isEmail))
                    && (forall j :: 0 <= j < i ==> !isEmail(ValueAt(fields, j, isEmail)))
                    && r.value == sanitize(ValueAt(fields, i, isEmail)))
  {
    if fields != [] && !isEmail(ValueAt(fields, 0, isEmail)) {
      FirstValidEmailMeaning(fields[1..], isEmail, sanitize);
      assert forall i :: 1 <= i < |fields| ==> ValueAt(fields, i, isEmail) == ValueAt(fields[1..], i - 1, isEmail);
      var r := FirstValidEmail(fields[1..], isEmail, sanitize);
      if r.Some? {
        var i :| 0 <= i < |fields[1..]| && isEmail(ValueAt(fields[1..], i, isEmail))
                 && (forall j :: 0 <= j < i ==> !isEmail(ValueAt(fields[1..], j, isEmail)))
                 && r.value == sanitize(ValueAt(fields[1..], i, isEmail));
        assert forall j :: 0 <= j < i + 1 ==> !isEmail(ValueAt(fields, j, isEmail));
        assert isEmail(ValueAt(fields, i + 1, isEmail));
      }
    }
  }

  /**
   * Every branch of the extractor also requires `is_email` on the same value, so the
   * declared type and the patterns never change which field wins.
   */
  lemma {:induction false} ExtractEmailIsFirstValid(fields: seq<Field>, patterns: seq<string>,
                                                    isEmail: string -> bool, sanitize: string -> string)
    ensures ExtractEmail(fields, patterns, isEmail, sanitize) == FirstValidEmail(fields, isEmail, sanitize)
  {
    if fields != [] {
      ExtractEmailIsFirstValid(fields[1..], patterns, isEmail, sanitize);
    }
  }

  /** Consequence: the configured pattern list has no effect on the result. */
  lemma PatternsNeverMatter(fields: seq<Field>, p1: seq<string>, p2: seq<string>,
                            isEmail: string -> bool, sanitize: string -> string)
    ensures ExtractEmail(fields, p1, isEmail, sanitize) == ExtractEmail(fields, p2, isEmail, sanitize)
  {
    ExtractEmailIsFirstValid(fields, p1, isEmail, sanitize);
    ExtractEmailIsFirstValid(fields, p2, isEmail, sanitize);
  }

  /** A field declared `type=email` loses to an earlier field whose value validates. */
  lemma TypedEmailFieldCanLose(isEmail: string -> bool, sanitize: string -> string)
    requires isEmail("a@example.com") && isEmail("b@example.com")
    ensures var fields := [
              Field(StrKey("contact"), ArrayEntry(Attrs(Some("contact"), None, None, Some("text"), Some("a@example.com")))),
              Field(StrKey("email"), ArrayEntry(Attrs(Some("email"), None, None, Some("email"), Some("b@example.com"))))];
            ExtractEmail(fields, DefaultEmailPatterns, isEmail, sanitize) == Some(sanitize("a@example.com"))
  {
    var fields := [
      Field(StrKey("contact"), ArrayEntry(Attrs(Some("contact"), None, None, Some("text"), Some("a@example.com")))),
      Field(StrKey("email"), ArrayEntry(Attrs(Some("email"), None, None, Some("email"), Some("b@example.com"))))];
    ExtractEmailIsFirstValid(fields, DefaultEmailPatterns, isEmail, sanitize);
    assert ValueAt(fields, 0, isEmail) == "a@example.com";
  }

  // ---------------------------------------------------------------------------
  // extract_field_value

  /** What `extract_field_value` reads from a raw entry: the lower-cased `id` and `title` and the `value`. */
  datatype Probe = Probe(id: string, title: string, value: string)

  function ProbeOf(e: Entry): (p: Probe)
    ensures IsLowerCase(p.id) && IsLowerCase(p.title)
    ensures !e.ArrayEntry? ==> p == Probe("", "", "")
    ensures e.ArrayEntry? ==> p.value == ValueOr(e.attrs.value) &&
                              (e.attrs.title.None? ==> p.title == "") &&
                              (e.attrs.id.None? ==> p.id == "")
    ensures e.ArrayEntry? && e.attrs.id.Some? ==> p.id == Lower(e.attrs.id.value)
    ensures e.ArrayEntry? && e.attrs.title.Some? ==> p.title == Lower(e.attrs.title.value)
  {
    match e
    case ArrayEntry(a) => Probe(LowerOr(a.id), LowerOr(a.title), ValueOr(a.value))
    case _ => Probe("", "", "")
  }

  predicate ProbeMatches(p: Probe, pattern: string)
  {
    Contains(p.id, pattern) || Contains(p.title, pattern)
  }

  /** One raw entry qualifies when some pattern is in its id or title and its value is not PHP-empty. */
  predicate Qualifies(e: Entry, patterns: seq<string>)
  {
    !IsEmpty(ProbeOf(e).value) && exists k :: 0 <= k < |patterns| && ProbeMatches(ProbeOf(e), patterns[k])
  }

  /** The pattern loop for one entry. */
  function ValueScan(p: Probe, patterns: seq<string>): (r: Option<string>)
    ensures r.Some? <==> !IsEmpty(p.value) && exists k :: 0 <= k < |patterns| && ProbeMatches(p, patterns[k])
    ensures r.Some? ==> r.value == p.value
  {
    if patterns == [] then None
    else if ProbeMatches(p, patterns[0]) && !IsEmpty(p.value) then Some(p.value)
    else
      var r := ValueScan(p, patterns[1..]);
      assert forall k :: 1 <= k < |patterns| ==> patterns[k] == patterns[1..][k - 1];
      r
  }

  /** `extract_field_value`: fields in list order, patterns in list order within each field. */
  function ExtractFieldValue(fields: seq<Field>, patterns: seq<string>): (r: Option<string>)
    ensures r.None? <==> forall i :: 0 <= i < |fields| ==> !Qualifies(fields[i].entry, patterns)
    ensures r.Some? ==> !IsEmpty(r.value)
  {
    if fields == [] then None
    else match ValueScan(ProbeOf(fields[0].entry), patterns)
      case Some(v) => Some(v)
      case None =>
        assert forall i :: 1 <= i < |fields| ==> fields[i] == fields[1..][i - 1];
        ExtractFieldValue(fields[1..], patterns)
  }

  /** The result is the value of the first qualifying field, and false when none qualifies. */
  lemma {:induction false} ExtractFieldValueFirstMatch(fields: seq<Field>, patterns: seq<string>)
    ensures var r := ExtractFieldValue(fields, patterns);
            && (r.None? <==> forall i :: 0 <= i < |fields| ==> !Qualifies(fields[i].entry, patterns))
            && (r.Some? ==>
                  !IsEmpty(r.value) &&
                  exists i :: 0 <= i < |fields| && Qualifies(fields[i].entry, patterns)
                    && (forall j :: 0 <= j < i ==> !Qualifies(fields[j].entry, patterns))
                    && r.value == ProbeOf(fields[i].entry).value)
  {
    if fields != [] {
      ExtractFieldValueFirstMatch(fields[1..], patterns);
      assert forall i :: 1 <= i < |fields| ==> fields[i] == fields[1..][i - 1];
      var r := ExtractFieldValue(fields, patterns);
      if !Qualifies(fields[0].entry, patterns) && r.Some? {
        var i :| 0 <= i < |fields[1..]| && Qualifies(fields[1..][i].entry, patterns)
                 && (forall j :: 0 <= j < i ==> !Qualifies(fields[1..][j].entry, patterns))
                 && r.value == ProbeOf(fields[1..][i].entry).value;
        assert forall j :: 0 <= j < i + 1 ==> !Qualifies(fields[j].entry, patterns);
      }
    }
  }

  /** Two entries that differ at most in their `name` member. */
  predicate SameButName(e: Entry, e': Entry)
  {
    e == e' ||
    (e.ArrayEntry? && e'.ArrayEntry? && e.attrs.(name := None) == e'.attrs.(name := None))
  }

  /** `extract_field_value` never consults the `name` member of an entry. */
  lemma {:induction false} ExtractFieldValueIgnoresName(fields: seq<Field>, fields': seq<Field>, patterns: seq<string>)
    requires |fields| == |fields'|
    requires forall i :: 0 <= i < |fields| ==> SameButName(fields[i].entry, fields'[i].entry)
    ensures ExtractFieldValue(fields, patterns) == ExtractFieldValue(fields', patterns)
  {
    if fields != [] {
      assert ProbeOf(fields[0].entry) == ProbeOf(fields'[0].entry);
      ExtractFieldValueIgnoresName(fields[1..], fields'[1..], patterns);
    }
  }

  const FirstNamePatterns: seq<string> := ["first_name", "firstname", "fname", "name"]

  /**
   * Fields are scanned before patterns: a "Last name" field placed before a
   * "First name" field supplies the first name, through the generic pattern "name".
   */
  lemma FieldOrderBeatsPatternOrder()
    ensures var fields := [
              Field(StrKey("lname"), ArrayEntry(Attrs(Some("last_name"), Some("Last Name"), None, Some("text"), Some("Doe")))),
              Field(StrKey("fname"), ArrayEntry(Attrs(Some("first_name"), Some("First Name"), None, Some("text"), Some("John"))))];
            ExtractFieldValue(fields, FirstNamePatterns) == Some("Doe")
  {
    var e := ArrayEntry(Attrs(Some("last_name"), Some("Last Name"), None, Some("text"), Some("Doe")));
    var p := ProbeOf(e);
    assert p.id == "last_name" by {
      assert forall i :: 0 <= i < |"last_name"| ==> LowerChar("last_name"[i]) == "last_name"[i];
    }
    assert p.id[5..5 + |"name"|] == "name";
    ContainsAt(p.id, "name", 5);
    assert ProbeMatches(p, FirstNamePatterns[3]);
  }
}
