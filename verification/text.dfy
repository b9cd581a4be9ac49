/** The string operations the ratio parser relies on. */
module Text {

  /** `s.indexOf(c)` for a character known to occur in `s`: the first position of `c`. */
  function IndexOf(s: string, c: char): (i: nat)
    requires c in s
    ensures i < |s| && s[i] == c
    ensures c !in s[..i]
  {
    if s[0] == c then 0
    else
      var j := IndexOf(s[1..], c);
      assert s[..j + 1] == [s[0]] + s[1..][..j];
      j + 1
  }

  /** `parts.join(c)`. */
  function Join(parts: seq<string>, c: char): string
    requires |parts| >= 1
  {
    if |parts| == 1 then parts[0] else parts[0] + [c] + Join(parts[1..], c)
  }

  /** `s.split(c)` for a one-character separator: the pieces between occurrences of
      `c`, none of which contains `c`, which `Join` puts back together into `s`. */
  function Split(s: string, c: char): (parts: seq<string>)
    ensures |parts| >= 1
    ensures forall i :: 0 <= i < |parts| ==> c !in parts[i]
    ensures Join(parts, c) == s
    ensures |parts| == 1 <==> c !in s
    decreases |s|
  {
    if c !in s then [s]
    else
      var i := IndexOf(s, c);
      var rest := Split(s[i + 1..], c);
      assert ([s[..i]] + rest)[1..] == rest;
      assert s == s[..i] + [c] + s[i + 1..];
      [s[..i]] + rest
  }

  /** In `a c t` with `c` absent from `a`, the first `c` sits right after `a`. */
  lemma IndexOfAfter(a: string, c: char, t: string)
    requires c !in a
    ensures IndexOf(a + [c] + t, c) == |a|
  {
    var s := a + [c] + t;
    assert s[|a|] == c;
    var i := IndexOf(s, c);
    assert i == |a|;
  }

  /** Splitting a string that starts with a separator-free piece and a separator
      yields that piece followed by the split of the remainder. */
  lemma SplitCons(a: string, c: char, t: string)
    requires c !in a
    ensures Split(a + [c] + t, c) == [a] + Split(t, c)
  {
    var s := a + [c] + t;
    IndexOfAfter(a, c, t);
    assert s[..|a|] == a;
    assert s[|a| + 1..] == t;
  }

  /** Splitting `a c b` where neither piece holds the separator gives exactly `[a, b]`. */
  lemma SplitPair(a: string, c: char, b: string)
    requires c !in a && c !in b
    ensures Split(a + [c] + b, c) == [a, b]
  {
    SplitCons(a, c, b);
  }
}
