/** The shingle cutter: `cut` (index.js:501-519) and `unique` (index.js:8-16). */
module Shingles {
  import opened Wrappers
  import opened Text
  import opened Sequences
  import opened Values

  /** Every length-`n` substring of `t`, left to right, repeats included: the
      `parts` that `cut` collects before de-duplicating. */
  function Windows(t: string, n: nat): seq<string>
    requires n >= 1
  {
    if |t| < n then [] else seq(|t| - n + 1, p requires 0 <= p < |t| - n + 1 => t[p..p + n])
  }

  /** What `cut(t, n)` returns for a string `t` and a level `n >= 1`. */
  function ShingleSeq(t: string, n: nat): seq<string>
    requires n >= 1
  {
    Dedup(Windows(t, n))
  }

  /** The shingles of `t` at level `n`, as a set. */
  function ShingleSet(t: string, n: nat): set<string>
    requires n >= 1
  {
    set s | s in ShingleSeq(t, n)
  }

  lemma WindowsMember(t: string, n: nat, s: string)
    requires n >= 1
    ensures s in Windows(t, n) <==> |s| == n && IsSubstring(s, t)
  {
    var w := Windows(t, n);
    if s in w {
      var p :| 0 <= p < |w| && w[p] == s;
      assert OccursAt(s, t, p);
    }
    if |s| == n && IsSubstring(s, t) {
      var p: nat :| OccursAt(s, t, p);
      assert w[p] == s;
    }
  }

  /** The parts a level receives: distinct, each of the level's length. */
  lemma CutParts(t: string, n: nat)
    requires n >= 1
    ensures NoDup(ShingleSeq(t, n))
    ensures forall j :: 0 <= j < |ShingleSeq(t, n)| ==> |ShingleSeq(t, n)[j]| == n
  {
    CutIsDistinctSubstrings(t, n);
    forall j | 0 <= j < |ShingleSeq(t, n)| ensures |ShingleSeq(t, n)[j]| == n {
      assert ShingleSeq(t, n)[j] in ShingleSeq(t, n);
    }
  }

  /** `cut(t, n)` is exactly the distinct length-`n` substrings of `t`, without
      repeats, in the order of their first occurrence, and empty when `n > |t|`. */
  lemma CutIsDistinctSubstrings(t: string, n: nat)
    requires n >= 1
    ensures NoDup(ShingleSeq(t, n))
    ensures forall s :: s in ShingleSeq(t, n) <==> |s| == n && IsSubstring(s, t)
    ensures forall i, j :: 0 <= i < j < |ShingleSeq(t, n)| ==>
      IndexOf(t, ShingleSeq(t, n)[i]) < IndexOf(t, ShingleSeq(t, n)[j])
    ensures n > |t| ==> ShingleSeq(t, n) == []
  {
    var w := Windows(t, n);
    var r := ShingleSeq(t, n);
    forall s ensures s in r <==> |s| == n && IsSubstring(s, t) {
      WindowsMember(t, n, s);
    }
    DedupFirstOccurrenceOrder(w);
    forall s | s in w ensures IndexOf(t, s) == FirstIndex(w, s) {
      FirstWindowIsIndexOf(t, n, s);
    }
  }

  lemma FirstWindowIsIndexOf(t: string, n: nat, s: string)
    requires n >= 1 && s in Windows(t, n)
    ensures IndexOf(t, s) == FirstIndex(Windows(t, n), s)
  {
    var w := Windows(t, n);
    var k := FirstIndex(w, s);
    assert OccursAt(s, t, k);
    forall p: nat | p < k ensures !OccursAt(s, t, p) {
      assert w[..k][p] == w[p];
    }
  }

  /** The source's `unique`: keep each element the first time it is seen. */
  method Unique(arr: seq<string>) returns (a: seq<string>)
    ensures a == Dedup(arr)
  {
    a := [];
    var i := 0;
    while i < |arr|
      invariant 0 <= i <= |arr|
      invariant a == Dedup(arr[..i])
    {
      assert arr[..i + 1][..i] == arr[..i];
      if arr[i] !in a {
        a := a + [arr[i]];
      }
      i := i + 1;
    }
    assert arr[..|arr|] == arr;
  }

  datatype CutError =
    | LevelBelowOne  // the requested level is below one
    | NotAString     // the text is not a string

  /** The source's `cut(text, level)`: both errors are checked before any work. */
  method Cut(text: Value, level: int) returns (r: Result<seq<string>, CutError>)
    ensures level < 1 ==> r == Failure(LevelBelowOne)
    ensures level >= 1 && !(text.Prim? && text.p.Str?) ==> r == Failure(NotAString)
    ensures level >= 1 && text.Prim? && text.p.Str? ==> r == Success(ShingleSeq(text.p.s, level))
  {
    if level < 1 {
      return Failure(LevelBelowOne);
    }
    if !(text.Prim? && text.p.Str?) {
      return Failure(NotAString);
    }
    var t := text.p.s;
    ghost var w := Windows(t, level);
    var parts: seq<string> := [];
    var i := 0;
    while i < |t|
      invariant 0 <= i <= |t| && i <= |w|
      invariant parts == w[..i]
    {
      if i + level > |t| {
        break;
      }
      parts := parts + [t[i..i + level]];
      i := i + 1;
    }
    assert parts == w;
    var u := Unique(parts);
    return Success(u);
  }

  // Examples from the source's tests (test/all.js:92-96 and test/all.js:110-113).

  lemma CutJoachim()
    ensures ShingleSeq("joachim", 1) == ["j", "o", "a", "c", "h", "i", "m"]
  {
    var t := "joachim";
    var w := Windows(t, 1);
    assert |w| == 7;
    assert w[0] == t[0..1] == "j" && w[1] == t[1..2] == "o" && w[2] == t[2..3] == "a";
    assert w[3] == t[3..4] == "c" && w[4] == t[4..5] == "h" && w[5] == t[5..6] == "i";
    assert w[6] == t[6..7] == "m";
    assert w == ["j", "o", "a", "c", "h", "i", "m"];
    DedupOfNoDup(w);
  }

  lemma CutHelloShort()
    ensures ShingleSeq("hello", 12) == []
  {
  }
}
