/** The string primitives `telegram_send.py` relies on: `str.strip`, `str.lower`,
    `in`, `str.split(sep, 1)` and `str.rfind`, on strings as sequences of characters. */
module Text {
  import opened Results

  /** Python's `str.isspace` for a single character: the characters `str.strip()` removes. */
  predicate IsSpace(c: char) {
    || ('\t' <= c <= '\r')
    || ('\U{1C}' <= c <= '\U{1F}')
    || c == ' '
    || c == '\U{85}'
    || c == '\U{A0}'
    || c == '\U{1680}'
    || ('\U{2000}' <= c <= '\U{200A}')
    || c == '\U{2028}'
    || c == '\U{2029}'
    || c == '\U{202F}'
    || c == '\U{205F}'
    || c == '\U{3000}'
  }

  predicate AllSpace(s: string) {
    forall i :: 0 <= i < |s| ==> IsSpace(s[i])
  }

  /** True when `s` has no whitespace at either end (so stripping leaves it as it is). */
  predicate IsStripped(s: string) {
    s == [] || (!IsSpace(s[0]) && !IsSpace(s[|s| - 1]))
  }

  /** The number of whitespace characters `str.strip()` removes from the front of `s`. */
  function LeadingSpace(s: string): (n: nat)
    ensures n <= |s| && AllSpace(s[..n])
    ensures n < |s| ==> !IsSpace(s[n])
  {
    if |s| > 0 && IsSpace(s[0]) then
      var n := 1 + LeadingSpace(s[1..]);
      SpaceBefore(s, n);
      n
    else 0
  }

  lemma SpaceBefore(s: string, n: nat)
    requires 0 < n <= |s| && IsSpace(s[0]) && AllSpace(s[1..][..n - 1])
    ensures AllSpace(s[..n])
  {
    assert forall i :: 1 <= i < n ==> s[..n][i] == s[1..][..n - 1][i - 1];
  }

  /** `s` with its leading whitespace removed. */
  function TrimStart(s: string): (r: string)
    ensures |r| <= |s| && r == s[|s| - |r|..]
    ensures r == [] || !IsSpace(r[0])
    ensures AllSpace(s[..|s| - |r|])
  {
    s[LeadingSpace(s)..]
  }

  /** `s` with its trailing whitespace removed. */
  function TrimEnd(s: string): (r: string)
    ensures |r| <= |s| && r == s[..|r|]
    ensures r == [] || !IsSpace(r[|r| - 1])
    ensures AllSpace(s[|r|..])
  {
    if |s| > 0 && IsSpace(s[|s| - 1]) then
      var r := TrimEnd(s[..|s| - 1]);
      assert s[|r|..] == s[..|s| - 1][|r|..] + [s[|s| - 1]];
      r
    else s
  }

  /** Python's `str.strip()`: the longest slice of `s` that neither starts nor ends
      with whitespace, cut out of `s` by removing whitespace only. */
  function Strip(s: string): (r: string)
    ensures IsStripped(r)
    ensures LeadingSpace(s) + |r| <= |s|
    ensures r == s[LeadingSpace(s)..LeadingSpace(s) + |r|]
    ensures AllSpace(s[LeadingSpace(s) + |r|..])
  {
    var t := TrimStart(s);
    var r := TrimEnd(t);
    var n := |s| - |t|;
    assert LeadingSpace(s) == n;
    assert t == s[n..];
    SliceOfTail(s, n, |r|);
    r
  }

  lemma SliceOfTail(s: string, i: nat, n: nat)
    requires i + n <= |s|
    ensures s[i..][..n] == s[i..i + n]
    ensures s[i + n..] == s[i..][n..]
  {
  }

  /** Leading whitespace is removed exactly up to the first non-space character. */
  lemma TrimStartOf(a: string, u: string)
    requires AllSpace(a)
    requires u == [] || !IsSpace(u[0])
    ensures TrimStart(a + u) == u
  {
    var s := a + u;
    var r := TrimStart(s);
    assert |r| == |u|;
    assert r == s[|a|..] == u;
  }

  /** Trailing whitespace is removed exactly back to the last non-space character. */
  lemma TrimEndOf(u: string, b: string)
    requires AllSpace(b)
    requires u == [] || !IsSpace(u[|u| - 1])
    ensures TrimEnd(u + b) == u
  {
    var s := u + b;
    var r := TrimEnd(s);
    assert forall k :: |u| <= k < |s| ==> s[k] == b[k - |u|];
    assert u != [] ==> s[|u| - 1] == u[|u| - 1];
    assert |r| == |u|;
    assert r == s[..|u|] == u;
  }

  /** `Strip` is characterised by its result alone: whatever surrounds a stripped
      string, as long as it is whitespace, is exactly what `Strip` removes. */
  lemma StripOf(a: string, t: string, b: string)
    requires AllSpace(a) && AllSpace(b)
    requires IsStripped(t)
    ensures Strip(a + t + b) == t
  {
    if t == [] {
      assert a + t + b == a + b;
      assert AllSpace(a + b);
      TrimStartOf(a + b, []);
      assert a + b == (a + b) + [];
      TrimEndOf([], []);
    } else {
      assert a + t + b == a + (t + b);
      TrimStartOf(a, t + b);
      TrimEndOf(t, b);
    }
  }

  /** A string with no whitespace at either end is left as it is. */
  lemma StripStripped(s: string)
    requires IsStripped(s)
    ensures Strip(s) == s
  {
    assert [] + s + [] == s;
    StripOf([], s, []);
  }

  /** Python's `str.lower()` on one character. Only the characters whose lower case
      is plain ASCII are mapped: `A`..`Z` and the Kelvin sign, whose lower case is `k`. */
  function LowerChar(c: char): char {
    if 'A' <= c <= 'Z' then (c as int + 32) as char
    else if c == '\U{212A}' then 'k'
    else c
  }

  /** The lowering the model uses: `LowerChar` on every character. It agrees with
      Python's `str.lower()` on the characters it maps, but keeps the length and every
      position, which `str.lower()` need not (final sigma, `İ`). */
  function Lower(s: string): (r: string)
    ensures |r| == |s|
  {
    seq(|s|, i requires 0 <= i < |s| => LowerChar(s[i]))
  }

  /** Lowering commutes with slicing. */
  lemma LowerSlice(s: string, i: nat, j: nat)
    requires i <= j <= |s|
    ensures Lower(s)[i..j] == Lower(s[i..j])
  {
  }

  /** A character that lowering neither produces from nor turns into anything else. */
  predicate CaseFixed(c: char) {
    c == '.' || c == '/'
  }

  lemma LowerCharFixes(x: char, c: char)
    requires CaseFixed(c)
    ensures LowerChar(x) == c <==> x == c
  {
  }

  /** The position of the first `c` in `s`, as Python's `str.find`. */
  function IndexOf(s: string, c: char): (r: Option<nat>)
    ensures r.Some? ==> r.value < |s| && s[r.value] == c && c !in s[..r.value]
    ensures r.None? <==> c !in s
  {
    if |s| == 0 then None
    else if s[0] == c then Some(0)
    else match IndexOf(s[1..], c)
      case None => None
      case Some(i) =>
        assert s[..i + 1] == [s[0]] + s[1..][..i];
        Some(i + 1)
  }

  /** The position of the last `c` in `s`, as Python's `str.rfind`. */
  function LastIndexOf(s: string, c: char): (r: Option<nat>)
    ensures r.Some? ==> r.value < |s| && s[r.value] == c && c !in s[r.value + 1..]
    ensures r.None? <==> c !in s
  {
    if |s| == 0 then None
    else if s[|s| - 1] == c then Some(|s| - 1)
    else
      var r := LastIndexOf(s[..|s| - 1], c);
      assert s == s[..|s| - 1] + [s[|s| - 1]];
      match r
      case None => None
      case Some(i) =>
        assert s[i + 1..] == s[..|s| - 1][i + 1..] + [s[|s| - 1]];
        Some(i)
  }

  /** Any position holding the last `c` of `s` is the one `LastIndexOf` reports. */
  lemma LastIndexOfUnique(s: string, c: char, i: nat)
    requires i < |s| && s[i] == c && c !in s[i + 1..]
    ensures LastIndexOf(s, c) == Some(i)
  {
    var r := LastIndexOf(s, c);
    assert c in s;
    var j := r.value;
    assert j == i;
  }

  /** The modelled lowering does not move `.` and `/`, so their last position is kept. */
  lemma LastIndexOfLower(s: string, c: char)
    requires CaseFixed(c)
    ensures LastIndexOf(Lower(s), c) == LastIndexOf(s, c)
  {
    var l := Lower(s);
    match LastIndexOf(s, c)
    case None =>
      if c in l {
        var k :| 0 <= k < |l| && l[k] == c;
        LowerCharFixes(s[k], c);
      }
    case Some(i) =>
      LowerCharFixes(s[i], c);
      LastIndexOfUnique(l, c, i);
  }

  /** Python's `s.split(c, 1)` when `c` occurs in `s`: the text before the first `c`
      and everything after it, further `c`s included. */
  function SplitAtFirst(s: string, c: char): (r: Option<(string, string)>)
    ensures r.None? <==> c !in s
    ensures r.Some? ==> s == r.value.0 + [c] + r.value.1 && c !in r.value.0
  {
    match IndexOf(s, c)
    case None => None
    case Some(i) =>
      assert s == s[..i] + [c] + s[i + 1..];
      Some((s[..i], s[i + 1..]))
  }

  /** Splitting at the first separator undoes joining at a separator the left part lacks. */
  lemma {:induction false} SplitAtFirstJoin(a: string, c: char, b: string)
    requires c !in a
    ensures SplitAtFirst(a + [c] + b, c) == Some((a, b))
  {
    var s := a + [c] + b;
    assert s[|a|] == c;
    assert s[..|a|] == a;
    var r := SplitAtFirst(s, c);
    var a', b' := r.value.0, r.value.1;
    assert |a'| == |a|;
    assert a' == s[..|a|];
    assert b' == s[|a| + 1..] == b;
  }
}
