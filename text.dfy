/** Text helpers: ASCII lower-casing (stand-in for `toLowerCase`),
    decimal rendering of integers and booleans (stand-in for `toString`),
    and `indexOf`/substring occurrence. */
module Text {

  /** Lower-cases one ASCII letter; every other character is left as is. */
  function LowerChar(c: char): char
  {
    if 'A' <= c <= 'Z' then (c as int + 32) as char else c
  }

  /** Length-preserving lower-casing, character by character. */
  function Lower(s: string): (r: string)
    ensures |r| == |s|
    ensures forall i :: 0 <= i < |s| ==> r[i] == LowerChar(s[i])
  {
    if s == [] then [] else [LowerChar(s[0])] + Lower(s[1..])
  }

  /** A text that lower-casing does not change. */
  predicate LowerFixed(s: string)
  {
    forall i :: 0 <= i < |s| ==> LowerChar(s[i]) == s[i]
  }

  lemma LowerFixedIff(s: string)
    ensures LowerFixed(s) <==> Lower(s) == s
  {
    if LowerFixed(s) {
      assert forall i :: 0 <= i < |s| ==> Lower(s)[i] == s[i];
    }
  }

  /** Lower-casing is idempotent, and its result is lower-case fixed. */
  lemma LowerIsLowerFixed(s: string)
    ensures LowerFixed(Lower(s))
    ensures Lower(Lower(s)) == Lower(s)
  {
    LowerFixedIff(Lower(s));
  }

  function DigitChar(d: nat): (c: char)
    requires d < 10
    ensures '0' <= c <= '9'
  {
    ('0' as int + d) as char
  }

  /** Decimal digits of a natural number, most significant first. */
  function NatText(n: nat): (r: string)
    ensures |r| >= 1
    ensures forall i :: 0 <= i < |r| ==> '0' <= r[i] <= '9'
  {
    if n < 10 then [DigitChar(n)] else NatText(n / 10) + [DigitChar(n % 10)]
  }

  /** `Number.prototype.toString` on an integer. */
  function IntText(n: int): string
  {
    if n < 0 then "-" + NatText(-n) else NatText(n)
  }

  /** `Boolean.prototype.toString`. */
  function BoolText(b: bool): string
  {
    if b then "true" else "false"
  }

  lemma IntTextLowerFixed(n: int)
    ensures LowerFixed(IntText(n))
    ensures |IntText(n)| >= 1
  {
    var d := NatText(if n < 0 then -n else n);
    assert forall i :: 0 <= i < |d| ==> LowerChar(d[i]) == d[i];
  }

  /** `s` occurs in `t` starting at position `p`. */
  predicate OccursAt(s: string, t: string, p: nat)
  {
    p + |s| <= |t| && t[p..p + |s|] == s
  }

  ghost predicate IsSubstring(s: string, t: string)
  {
    exists p: nat :: OccursAt(s, t, p)
  }

  function IndexFrom(t: string, s: string, from: nat): (r: int)
    decreases |t| - from
    ensures r == -1 || (from <= r && OccursAt(s, t, r))
    ensures forall p: nat :: from <= p && (r == -1 || p < r) ==> !OccursAt(s, t, p)
  {
    if from + |s| > |t| then -1
    else if t[from..from + |s|] == s then from
    else IndexFrom(t, s, from + 1)
  }

  /** `t.indexOf(s)`: the first position where `s` occurs in `t`, or -1. */
  function IndexOf(t: string, s: string): (r: int)
    ensures r >= 0 <==> IsSubstring(s, t)
    ensures r >= 0 ==> OccursAt(s, t, r) && forall p: nat :: p < r ==> !OccursAt(s, t, p)
  {
    IndexFrom(t, s, 0)
  }

  /** `t.indexOf(s) > -1`. */
  predicate Contains(t: string, s: string)
  {
    IndexOf(t, s) >= 0
  }

  /** A substring of a lower-case fixed text is lower-case fixed. */
  lemma SubstringLowerFixed(s: string, t: string)
    requires IsSubstring(s, t) && LowerFixed(t)
    ensures LowerFixed(s)
  {
    var p: nat :| OccursAt(s, t, p);
    forall i | 0 <= i < |s| ensures LowerChar(s[i]) == s[i] {
      assert s[i] == t[p + i];
    }
  }

  /** Being a substring is transitive. */
  lemma SubstringTrans(a: string, b: string, c: string)
    requires IsSubstring(a, b) && IsSubstring(b, c)
    ensures IsSubstring(a, c)
  {
    var p: nat :| OccursAt(a, b, p);
    var q: nat :| OccursAt(b, c, q);
    forall i | 0 <= i < |a| ensures c[q + p + i] == a[i] {
      assert c[q..q + |b|][p + i] == b[p + i];
      assert b[p..p + |a|][i] == b[p + i];
    }
    assert c[q + p..q + p + |a|] == a;
    assert OccursAt(a, c, q + p);
  }
}
