/**
 * The browser script's cookie helpers: `getCookie` parses the `document.cookie`
 * string, a `; `-separated list of `name=value` pairs as in the Cookie header of
 * section 4.2.1 of RFC 6265; `setCookie` builds a `name=value; attr...` string in
 * the shape of the Set-Cookie header of section 4.1.1 of RFC 6265.
 */
module BrowserCookies {
  import opened Text

  /** JavaScript `s.split(sep)` for a one-character separator: there is always at least one piece. */
  function Split(s: string, sep: char): (parts: seq<string>)
    ensures |parts| >= 1
    ensures forall k :: 0 <= k < |parts| ==> sep !in parts[k]
    decreases |s|
  {
    if s == [] then [""]
    else
      var rest := Split(s[1..], sep);
      if s[0] == sep then [""] + rest
      else [[s[0]] + rest[0]] + rest[1..]
  }

  function Join(parts: seq<string>, sep: char): string
    requires |parts| >= 1
    decreases |parts|
  {
    if |parts| == 1 then parts[0] else parts[0] + [sep] + Join(parts[1..], sep)
  }

  /** Splitting a string that does not contain the separator gives the string back. */
  lemma {:induction false} SplitNoSep(a: string, sep: char)
    requires sep !in a
    ensures Split(a, sep) == [a]
    decreases |a|
  {
    if a != [] {
      SplitNoSep(a[1..], sep);
      assert [a[0]] + a[1..] == a;
    }
  }

  /** Splitting at the first separator: the piece before it, then the pieces of the rest. */
  lemma {:induction false} SplitFirst(a: string, b: string, sep: char)
    requires sep !in a
    ensures Split(a + [sep] + b, sep) == [a] + Split(b, sep)
    decreases |a|
  {
    var s := a + [sep] + b;
    if a == [] {
      assert s[1..] == b;
    } else {
      assert s[1..] == a[1..] + [sep] + b;
      SplitFirst(a[1..], b, sep);
      assert [a[0]] + a[1..] == a;
    }
  }

  /** Split undoes Join when no piece contains the separator. */
  lemma {:induction false} SplitJoin(parts: seq<string>, sep: char)
    requires |parts| >= 1
    requires forall k :: 0 <= k < |parts| ==> sep !in parts[k]
    ensures Split(Join(parts, sep), sep) == parts
    decreases |parts|
  {
    if |parts| == 1 {
      SplitNoSep(parts[0], sep);
    } else {
      SplitJoin(parts[1..], sep);
      SplitFirst(parts[0], Join(parts[1..], sep), sep);
      assert [parts[0]] + parts[1..] == parts;
    }
  }

  /** The `while (c.charAt(0) === ' ')` loop: drop leading spaces only. */
  function TrimLeadingSpaces(c: string): (t: string)
    ensures t == [] || t[0] != ' '
    decreases |c|
  {
    if c != [] && c[0] == ' ' then TrimLeadingSpaces(c[1..]) else c
  }

  /** What is stripped is a run of spaces at the front; the rest of the piece is kept as it was. */
  lemma {:induction false} TrimLeadingSpacesDropsSpaces(c: string)
    ensures var t := TrimLeadingSpaces(c);
            && |t| <= |c|
            && t == c[|c| - |t|..]
            && forall i :: 0 <= i < |c| - |t| ==> c[i] == ' '
    decreases |c|
  {
    if c != [] && c[0] == ' ' {
      TrimLeadingSpacesDropsSpaces(c[1..]);
      var t := TrimLeadingSpaces(c);
      assert c[1..][|c| - 1 - |t|..] == c[|c| - |t|..];
      assert forall i :: 1 <= i < |c| - |t| ==> c[i] == c[1..][i - 1];
    }
  }

  /** The scan over the pieces: the rest of the first trimmed piece that starts with `nameEq`. */
  function FindCookie(pieces: seq<string>, nameEq: string): (r: Option<string>)
    ensures r.None? <==> forall k :: 0 <= k < |pieces| ==> !StartsWith(TrimLeadingSpaces(pieces[k]), nameEq)
    decreases |pieces|
  {
    if pieces == [] then None
    else
      var c := TrimLeadingSpaces(pieces[0]);
      if StartsWith(c, nameEq) then Some(c[|nameEq|..])
      else
        assert forall k :: 1 <= k < |pieces| ==> pieces[k] == pieces[1..][k - 1];
        FindCookie(pieces[1..], nameEq)
  }

  /** A value found among pieces free of `sep` is free of `sep` too. */
  lemma {:induction false} FindCookieNoSep(pieces: seq<string>, nameEq: string, sep: char)
    requires forall k :: 0 <= k < |pieces| ==> sep !in pieces[k]
    ensures FindCookie(pieces, nameEq).Some? ==> sep !in FindCookie(pieces, nameEq).value
    decreases |pieces|
  {
    if pieces != [] {
      var c := TrimLeadingSpaces(pieces[0]);
      if StartsWith(c, nameEq) {
        TrimLeadingSpacesDropsSpaces(pieces[0]);
        assert forall i :: |nameEq| <= i < |c| ==> c[i] == pieces[0][|pieces[0]| - |c| + i];
      } else {
        FindCookieNoSep(pieces[1..], nameEq, sep);
      }
    }
  }

  /**
   * `getCookie(name)` over the given `document.cookie` string; None is JavaScript's null.
   * A value is found exactly when some piece starts with `name=` after its leading spaces,
   * and it holds no ';'.
   */
  function GetCookie(documentCookie: string, name: string): (r: Option<string>)
    ensures r.None? ==> forall k :: 0 <= k < |Split(documentCookie, ';')| ==> !StartsWith(TrimLeadingSpaces(Split(documentCookie, ';')[k]), name + "=")
    ensures r.Some? ==> exists k :: 0 <= k < |Split(documentCookie, ';')| && StartsWith(TrimLeadingSpaces(Split(documentCookie, ';')[k]), name + "=")
    ensures r.Some? ==> ';' !in r.value
  {
    var pieces := Split(documentCookie, ';');
    var nameEq := name + "=";
    FindCookieNoSep(pieces, nameEq, ';');
    FindCookie(pieces, nameEq)
  }

  /** The first piece that starts with `nameEq` after its leading spaces gives the value: the rest of that piece. */
  lemma {:induction false} FindCookieAt(pieces: seq<string>, nameEq: string, k: nat)
    requires k < |pieces| && StartsWith(TrimLeadingSpaces(pieces[k]), nameEq)
    requires forall j :: 0 <= j < k ==> !StartsWith(TrimLeadingSpaces(pieces[j]), nameEq)
    ensures FindCookie(pieces, nameEq) == Some(TrimLeadingSpaces(pieces[k])[|nameEq|..])
    decreases k
  {
    if k > 0 {
      assert !StartsWith(TrimLeadingSpaces(pieces[0]), nameEq);
      assert forall j :: 0 <= j < k - 1 ==> pieces[1..][j] == pieces[j + 1];
      FindCookieAt(pieces[1..], nameEq, k - 1);
    }
  }

  /** A stored cookie as the browser lists it. */
  datatype CookiePair = CookiePair(name: string, value: string)

  /** A cookie name as RFC 6265 allows it: no ';', no '=', and no leading space. */
  predicate NameOk(n: string)
  {
    ';' !in n && '=' !in n && (n == [] || n[0] != ' ')
  }

  predicate PairOk(p: CookiePair)
  {
    NameOk(p.name) && ';' !in p.value
  }

  function Piece(p: CookiePair): string
  {
    p.name + "=" + p.value
  }

  /** `document.cookie` as read back: the pairs joined by "; ". */
  function Rendered(pairs: seq<CookiePair>): string
  {
    if pairs == [] then "" else Join(RenderedPieces(pairs), ';')
  }

  function RenderedPieces(pairs: seq<CookiePair>): (r: seq<string>)
    ensures |r| == |pairs|
  {
    seq(|pairs|, k requires 0 <= k < |pairs| => (if k == 0 then "" else " ") + Piece(pairs[k]))
  }

  /** The value of the first stored pair with this name. */
  function CookieLookup(pairs: seq<CookiePair>, name: string): Option<string>
    decreases |pairs|
  {
    if pairs == [] then None
    else if pairs[0].name == name then Some(pairs[0].value)
    else CookieLookup(pairs[1..], name)
  }

  /** With no '=' in either name, the piece `n=v` starts with `name=` exactly when the names are equal. */
  lemma PieceStartsWith(n: string, v: string, name: string)
    requires '=' !in n && '=' !in name
    ensures StartsWith(n + "=" + v, name + "=") <==> n == name
  {
    var s := n + "=" + v;
    var p := name + "=";
    if n != name && |p| <= |s| {
      var i: nat;
      if |n| < |name| {
        i := |n|;
      } else if |n| > |name| {
        i := |name|;
      } else {
        i :| i < |n| && n[i] != name[i];
      }
      assert s[..|p|][i] != p[i];
    }
  }

  lemma {:induction false} FindCookieOverPairs(pieces: seq<string>, pairs: seq<CookiePair>, name: string)
    requires |pieces| == |pairs| && NameOk(name)
    requires forall k :: 0 <= k < |pairs| ==> PairOk(pairs[k]) && TrimLeadingSpaces(pieces[k]) == Piece(pairs[k])
    ensures FindCookie(pieces, name + "=") == CookieLookup(pairs, name)
    decreases |pairs|
  {
    if pairs != [] {
      PieceStartsWith(pairs[0].name, pairs[0].value, name);
      if pairs[0].name == name {
        assert Piece(pairs[0])[|name + "="|..] == pairs[0].value;
      } else {
        FindCookieOverPairs(pieces[1..], pairs[1..], name);
      }
    }
  }

  /** Reading a cookie back from `document.cookie` gives the value of the first stored pair with that name. */
  lemma GetCookieRendered(pairs: seq<CookiePair>, name: string)
    requires NameOk(name) && forall k :: 0 <= k < |pairs| ==> PairOk(pairs[k])
    ensures GetCookie(Rendered(pairs), name) == CookieLookup(pairs, name)
  {
    if pairs == [] {
      assert Split("", ';') == [""] && [""][1..] == [];
    } else {
      var pieces := RenderedPieces(pairs);
      forall k | 0 <= k < |pieces| ensures ';' !in pieces[k] && TrimLeadingSpaces(pieces[k]) == Piece(pairs[k]) {
        if k > 0 {
          assert pieces[k] == [' '] + Piece(pairs[k]);
          assert pieces[k][1..] == Piece(pairs[k]);
        }
      }
      SplitJoin(pieces, ';');
      FindCookieOverPairs(pieces, pairs, name);
    }
  }

  /** JavaScript `value || ''`: a missing value and "" both give "". */
  function OrEmpty(value: Option<string>): string
  {
    if value.Some? then value.value else ""
  }

  /** The string `setCookie` assigns; `utcDate` stands for `date.toUTCString()`, and `days` of 0 means no expiry. */
  function SetCookieString(name: string, value: Option<string>, days: int, utcDate: string): (r: string)
    ensures StartsWith(r, name + "=" + OrEmpty(value))
  {
    var expires := if days != 0 then "; expires=" + utcDate else "";
    name + "=" + OrEmpty(value) + expires + "; path=/; SameSite=Lax"
  }

  /** The attribute pieces after the cookie pair. */
  function SetCookieAttributes(days: int, utcDate: string): seq<string>
  {
    (if days != 0 then [" expires=" + utcDate] else []) + [" path=/", " SameSite=Lax"]
  }

  lemma Join3(a: string, b: string, c: string, sep: char)
    ensures Join([a, b, c], sep) == a + [sep] + b + [sep] + c
  {
    assert [a, b, c][1..] == [b, c];
    assert [b, c][1..] == [c];
    assert Join([c], sep) == c;
    assert Join([b, c], sep) == b + [sep] + c;
  }

  lemma Join4(a: string, b: string, c: string, d: string, sep: char)
    ensures Join([a, b, c, d], sep) == a + [sep] + b + [sep] + c + [sep] + d
  {
    assert [a, b, c, d][1..] == [b, c, d];
    Join3(b, c, d, sep);
  }

  /** Four joined pieces, regrouped as the first two and the separated last two. */
  lemma Join4Regrouped(a: string, b: string, c: string, d: string, sep: char)
    ensures Join([a, b, c, d], sep) == (a + ([sep] + b)) + ([sep] + c + [sep] + d)
  {
    Join4(a, b, c, d, sep);
    var head := a + [sep] + b;
    assert head + [sep] + c + [sep] + d == head + ([sep] + c + [sep] + d);
    assert head == a + ([sep] + b);
  }

  lemma AttributesTail()
    ensures "; path=/; SameSite=Lax" == [';'] + " path=/" + [';'] + " SameSite=Lax"
  {
  }

  lemma JoinedWithExpiry(pair: string, utcDate: string)
    ensures Join([pair, " expires=" + utcDate, " path=/", " SameSite=Lax"], ';')
            == pair + "; expires=" + utcDate + "; path=/; SameSite=Lax"
  {
    var e := " expires=" + utcDate;
    Join4Regrouped(pair, e, " path=/", " SameSite=Lax", ';');
    AttributesTail();
    assert "; expires=" + utcDate == [';'] + e;
    assert pair + "; expires=" + utcDate == pair + ([';'] + e);
  }

  lemma JoinedWithoutExpiry(pair: string)
    ensures Join([pair, " path=/", " SameSite=Lax"], ';') == pair + "; path=/; SameSite=Lax"
  {
    Join3(pair, " path=/", " SameSite=Lax", ';');
    AttributesTail();
  }

  lemma SetCookieJoined(name: string, value: Option<string>, days: int, utcDate: string)
    ensures Join([name + "=" + OrEmpty(value)] + SetCookieAttributes(days, utcDate), ';')
            == SetCookieString(name, value, days, utcDate)
  {
    var pair := name + "=" + OrEmpty(value);
    if days != 0 {
      assert [pair] + SetCookieAttributes(days, utcDate) == [pair, " expires=" + utcDate, " path=/", " SameSite=Lax"];
      JoinedWithExpiry(pair, utcDate);
    } else {
      assert [pair] + SetCookieAttributes(days, utcDate) == [pair, " path=/", " SameSite=Lax"];
      JoinedWithoutExpiry(pair);
    }
  }

  /**
   * The string `setCookie` builds splits into the cookie pair and its attributes, and
   * `getCookie` applied to it returns the value that was set.
   */
  lemma SetCookieParses(name: string, value: Option<string>, days: int, utcDate: string)
    requires NameOk(name) && ';' !in OrEmpty(value) && ';' !in utcDate
    ensures Split(SetCookieString(name, value, days, utcDate), ';') ==
            [name + "=" + OrEmpty(value)] + SetCookieAttributes(days, utcDate)
    ensures GetCookie(SetCookieString(name, value, days, utcDate), name) == Some(OrEmpty(value))
  {
    var pair := name + "=" + OrEmpty(value);
    var parts := [pair] + SetCookieAttributes(days, utcDate);
    SetCookieJoined(name, value, days, utcDate);
    SplitJoin(parts, ';');
    PieceStartsWith(name, OrEmpty(value), name);
    assert pair[|name + "="|..] == OrEmpty(value);
  }
}
