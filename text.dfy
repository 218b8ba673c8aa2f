/** String searching shared by the server-side controller and the browser script. */
module Text {

  datatype Option<+T> = None | Some(value: T)

  /** `p` is a prefix of `s` (JavaScript `s.indexOf(p) === 0`). */
  predicate StartsWith(s: string, p: string)
  {
    |p| <= |s| && s[..|p|] == p
  }

  /** `n` occurs somewhere in `h`: PHP 8 `false !== strpos(h, n)`; an empty `n` occurs at 0. */
  predicate Contains(h: string, n: string)
    ensures Contains(h, n) ==> |n| <= |h|
    decreases |h|
  {
    StartsWith(h, n) || (h != [] && Contains(h[1..], n))
  }

  /** Contains agrees with "there is a position where `n` sits in `h`". */
  lemma {:induction false} ContainsAt(h: string, n: string, i: nat)
    requires i + |n| <= |h| && h[i..i + |n|] == n
    ensures Contains(h, n)
    decreases i
  {
    if i == 0 {
      assert h[..|n|] == n;
    } else {
      assert h[1..][i - 1..i - 1 + |n|] == h[i..i + |n|];
      ContainsAt(h[1..], n, i - 1);
    }
  }

  /** Position of the first `c` in `s`, or `|s|` when there is none. */
  function IndexOf(s: string, c: char): (r: nat)
    ensures r <= |s|
    ensures r < |s| ==> s[r] == c
    ensures forall i :: 0 <= i < r ==> s[i] != c
    decreases |s|
  {
    if s == [] then 0 else if s[0] == c then 0 else 1 + IndexOf(s[1..], c)
  }

  /** `IndexOf` finds a `c` that no earlier character equals. */
  lemma {:induction false} IndexOfAt(s: string, c: char, at: nat)
    requires at < |s| && s[at] == c
    requires forall i :: 0 <= i < at ==> s[i] != c
    ensures IndexOf(s, c) == at
    decreases at
  {
    if at > 0 {
      assert s[0] != c;
      assert forall i :: 0 <= i < at - 1 ==> s[1..][i] == s[i + 1];
      IndexOfAt(s[1..], c, at - 1);
    }
  }
}
