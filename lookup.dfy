/** What `search` (index.js:223-364) returns, as functions of the index and
    the record table, and what that result means for the records added. */
module Lookup {
  import opened Wrappers
  import opened Text
  import opened Sequences
  import opened Values
  import opened Shingles
  import opened IdLists
  import opened NGrams
  import opened IndexState

  /** Every id a list holds names a live slot. */
  predicate IdsLive(idx: Levels, data: Slots)
  {
    forall l, s, x :: 0 <= l < |idx| && s in idx[l] && x in idx[l][s] ==> Live(data, x)
  }

  lemma SoundIdsLive(idx: Levels, data: Slots, ignoreCase: bool)
    requires Sound(idx, data, ignoreCase)
    ensures IdsLive(idx, data)
  {
    forall l, s, x | 0 <= l < |idx| && s in idx[l] && x in idx[l][s] ensures Live(data, x) {
      assert LevelSound(idx[l], data, ignoreCase);
    }
  }

  /** The search term after `toString` and the optional `toLowerCase`
      (index.js:225-235); `undefined` and `null` read as the empty term. */
  function QueryText(q: Option<Primitive>, ignoreCase: bool): string
  {
    match q
    case None => ""
    case Some(p) => IndexText(p, ignoreCase)
  }

  /** The lists of the parts that are keys of `last`, concatenated in part order. */
  function Found(last: Level, parts: seq<string>): seq<nat>
  {
    if parts == [] then [] else Found(last, parts[..|parts| - 1]) + Get(last, parts[|parts| - 1])
  }

  /** How many parts are keys of `last`: `parts_found_counter`. */
  function FoundCount(last: Level, parts: seq<string>): (r: nat)
    ensures r <= |parts|
    ensures r == |parts| <==> forall p :: p in parts ==> p in last
  {
    if parts == [] then 0
    else
      var init := parts[..|parts| - 1];
      assert forall p :: p in parts <==> p in init || p == parts[|parts| - 1];
      FoundCount(last, init) + (if parts[|parts| - 1] in last then 1 else 0)
  }

  /** The ids below `bound` that occur exactly `n` times in `ids`, ascending:
      the `for (key in counter)` pass, whose integer keys come in ascending order. */
  function TrueMatches(ids: seq<nat>, n: nat, bound: nat): (r: seq<nat>)
    ensures forall x: nat :: x in r <==> x < bound && multiset(ids)[x] == n
    ensures forall i :: 0 <= i < |r| ==> r[i] < bound
    ensures forall i, j :: 0 <= i < j < |r| ==> r[i] < r[j]
  {
    if bound == 0 then []
    else TrueMatches(ids, n, bound - 1) + (if multiset(ids)[bound - 1] == n then [bound - 1] else [])
  }

  /** `traverseCheck(v, t)`: some leaf of `v`, rendered and lower-cased when
      ignore_case is set, contains `t` (index.js:122-149). */
  predicate CheckText(v: Value, t: string, ignoreCase: bool)
  {
    var texts := LeafTexts(Walk(v, None, []), ignoreCase);
    exists k :: 0 <= k < |texts| && Contains(texts[k], t)
  }

  /** The verification a candidate passes before it is returned
      (index.js:326-361). A string is always lower-cased, whatever ignore_case
      says; a number or boolean is kept when `indexOf` is truthy, that is when
      the term does NOT start its text. */
  predicate Keep(v: Value, t: string, ignoreCase: bool)
  {
    match v
    case Prim(Str(s)) => Contains(Lower(s), t)
    case Prim(p) => IndexOf(RawText(p), t) != 0
    case _ => CheckText(v, t, ignoreCase)
  }

  /** The candidates that pass the verification, in order. */
  function Verified(data: Slots, xs: seq<nat>, t: string, ignoreCase: bool): (r: seq<nat>)
    requires forall x: nat :: x in xs ==> Live(data, x)
    ensures forall x: nat :: x in r <==> x in xs && Live(data, x) && Keep(data[x].value, t, ignoreCase)
  {
    if xs == [] then []
    else
      var x := xs[|xs| - 1];
      assert x in xs && Live(data, x);
      assert forall y :: y in xs <==> y in xs[..|xs| - 1] || y == x;
      Verified(data, xs[..|xs| - 1], t, ignoreCase) + (if Keep(data[x].value, t, ignoreCase) then [x] else [])
  }

  /** The ids behind the records `search` returns for a term longer than the
      number of levels. */
  function IndirectIds(idx: Levels, data: Slots, ignoreCase: bool, t: string): seq<nat>
    requires |idx| >= 1 && IdsLive(idx, data)
  {
    var last := idx[|idx| - 1];
    var parts := ShingleSeq(t, |idx|);
    var ids := Found(last, parts);
    if ids == [] || FoundCount(last, parts) < |parts| then []
    else
      var candidates := TrueMatches(ids, |parts|, |data|);
      FoundListed(idx, data, parts, ids, candidates);
      Verified(data, candidates, t, ignoreCase)
  }

  /** The indirect search gives up when no list was found or a part is
      missing from the top level. */
  lemma IndirectIdsNone(idx: Levels, data: Slots, ignoreCase: bool, t: string, parts: seq<string>, ids: seq<nat>, found: nat)
    requires |idx| >= 1 && IdsLive(idx, data) && parts == ShingleSeq(t, |idx|)
    requires ids == Found(idx[|idx| - 1], parts) && found == FoundCount(idx[|idx| - 1], parts)
    requires |ids| == 0 || found < |parts|
    ensures Records(data, IndirectIds(idx, data, ignoreCase, t)) == []
  {
  }

  /** Otherwise it keeps the ids that every part lists, once checked. */
  lemma IndirectIdsSome(idx: Levels, data: Slots, ignoreCase: bool, t: string, parts: seq<string>, ids: seq<nat>, found: nat, candidates: seq<nat>)
    requires |idx| >= 1 && IdsLive(idx, data) && parts == ShingleSeq(t, |idx|)
    requires ids == Found(idx[|idx| - 1], parts) && found == FoundCount(idx[|idx| - 1], parts)
    requires |ids| != 0 && found >= |parts|
    requires candidates == TrueMatches(ids, |parts|, |data|)
    ensures forall x: nat :: x in candidates ==> Live(data, x)
    ensures IndirectIds(idx, data, ignoreCase, t) == Verified(data, candidates, t, ignoreCase)
  {
    FoundListed(idx, data, parts, ids, candidates);
  }

  lemma FoundListed(idx: Levels, data: Slots, parts: seq<string>, ids: seq<nat>, candidates: seq<nat>)
    requires |idx| >= 1 && IdsLive(idx, data)
    requires ids == Found(idx[|idx| - 1], parts) && ids != []
    requires forall x :: x in candidates ==> x in ids
    ensures forall x :: x in candidates ==> Live(data, x)
  {
    forall x: nat | x in candidates ensures Live(data, x) {
      var p := FoundPart(idx[|idx| - 1], parts, x);
      assert Has(idx[|idx| - 1], p, x);
    }
  }

  /** An id in `Found` comes from the list of one of the parts. */
  lemma {:induction false} FoundPartExists(last: Level, parts: seq<string>, x: nat)
    ensures x in Found(last, parts) <==> exists p :: p in parts && Has(last, p, x)
  {
    if parts != [] {
      var init := parts[..|parts| - 1];
      var lp := parts[|parts| - 1];
      FoundPartExists(last, init, x);
      assert forall p :: p in parts <==> p in init || p == lp;
      if x in Found(last, parts) {
        if x in Found(last, init) {
          var p :| p in init && Has(last, p, x);
          assert p in parts;
        } else {
          assert Has(last, lp, x);
        }
      }
      if exists p :: p in parts && Has(last, p, x) {
        var p :| p in parts && Has(last, p, x);
        if p == lp {
          assert x in Get(last, lp);
        } else {
          assert p in init;
        }
      }
    }
  }

  ghost function FoundPart(last: Level, parts: seq<string>, x: nat): (p: string)
    requires x in Found(last, parts)
    ensures p in parts && Has(last, p, x)
  {
    FoundPartExists(last, parts, x);
    var p :| p in parts && Has(last, p, x); p
  }

  /** The ids behind the records `search(q)` returns. */
  function SearchIds(idx: Levels, data: Slots, ignoreCase: bool, q: Option<Primitive>): (r: seq<nat>)
    requires |idx| >= 1 && IdsLive(idx, data)
    ensures QueryText(q, ignoreCase) == "" ==> r == []
    ensures forall x: nat :: x in r ==> Live(data, x)
  {
    var t := QueryText(q, ignoreCase);
    if t == "" then []
    else if |t| <= |idx| then Get(idx[|t| - 1], t)
    else IndirectIds(idx, data, ignoreCase, t)
  }

  function Records(data: Slots, xs: seq<nat>): (r: seq<Value>)
    requires forall x: nat :: x in xs ==> Live(data, x)
    ensures |r| == |xs| && forall k :: 0 <= k < |xs| ==> Live(data, xs[k]) && r[k] == data[xs[k]].value
  {
    seq(|xs|, k requires 0 <= k < |xs| => assert xs[k] in xs && Live(data, xs[k]); data[xs[k]].value)
  }

  /** What `search(q)` returns. */
  function SearchResult(idx: Levels, data: Slots, ignoreCase: bool, q: Option<Primitive>): seq<Value>
    requires |idx| >= 1 && IdsLive(idx, data)
  {
    Records(data, SearchIds(idx, data, ignoreCase, q))
  }

  // ---------------------------------------------------------------------------
  // The indirect search, characterised

  predicate Increasing(xs: seq<nat>)
  {
    forall i, j :: 0 <= i < j < |xs| ==> xs[i] < xs[j]
  }

  lemma {:induction false} NoDupCount(ids: seq<nat>, x: nat)
    requires NoDup(ids)
    ensures multiset(ids)[x] == if x in ids then 1 else 0
  {
    if ids != [] {
      var init := ids[..|ids| - 1];
      assert ids == init + [ids[|ids| - 1]];
      assert NoDup(init);
      NoDupCount(init, x);
      assert ids[|ids| - 1] !in init;
    }
  }

  /** With duplicate-free lists, an id occurs in `Found` once per part whose
      list holds it, so it is counted `|parts|` times exactly when every part
      lists it. */
  lemma {:induction false} CountIsAllParts(last: Level, parts: seq<string>, x: nat)
    requires forall p :: p in last ==> NoDup(last[p])
    ensures multiset(Found(last, parts))[x] <= |parts|
    ensures multiset(Found(last, parts))[x] == |parts| <==> forall p :: p in parts ==> Has(last, p, x)
  {
    if parts != [] {
      var init := parts[..|parts| - 1];
      var lp := parts[|parts| - 1];
      CountIsAllParts(last, init, x);
      assert forall p :: p in parts <==> p in init || p == lp;
      var one: nat := if Has(last, lp, x) then 1 else 0;
      if lp in last {
        NoDupCount(last[lp], x);
      }
      assert multiset(Get(last, lp))[x] == one;
      assert multiset(Found(last, parts)) == multiset(Found(last, init)) + multiset(Get(last, lp));
      assert multiset(Found(last, parts))[x] == multiset(Found(last, init))[x] + one;
      if forall p :: p in parts ==> Has(last, p, x) {
        assert forall p :: p in init ==> Has(last, p, x);
        assert Has(last, lp, x);
      }
    }
  }

  lemma {:induction false} VerifiedBelow(data: Slots, xs: seq<nat>, t: string, ignoreCase: bool, b: nat)
    requires forall x: nat :: x in xs ==> Live(data, x)
    requires forall i :: 0 <= i < |xs| ==> xs[i] < b
    ensures forall i :: 0 <= i < |Verified(data, xs, t, ignoreCase)| ==> Verified(data, xs, t, ignoreCase)[i] < b
  {
    if xs != [] {
      VerifiedBelow(data, xs[..|xs| - 1], t, ignoreCase, b);
    }
  }

  lemma {:induction false} VerifiedIncreasing(data: Slots, xs: seq<nat>, t: string, ignoreCase: bool)
    requires forall x: nat :: x in xs ==> Live(data, x)
    requires Increasing(xs)
    ensures Increasing(Verified(data, xs, t, ignoreCase))
  {
    if xs != [] {
      var init := xs[..|xs| - 1];
      VerifiedIncreasing(data, init, t, ignoreCase);
      VerifiedBelow(data, init, t, ignoreCase, xs[|xs| - 1]);
    }
  }

  /** A term longer than the number of levels is cut into shingles of the top
      level's length; a live record is returned exactly when the top level
      lists it under every shingle and it passes the verification. The ids
      come in ascending order. */
  lemma IndirectIdsSpec(idx: Levels, data: Slots, ignoreCase: bool, t: string)
    requires |idx| >= 1 && IdsLive(idx, data) && WellFormed(idx, ignoreCase)
    requires |t| > |idx|
    ensures forall x: nat :: x in IndirectIds(idx, data, ignoreCase, t) <==>
      Live(data, x)
      && AllListed(idx[|idx| - 1], ShingleSeq(t, |idx|), x)
      && Keep(data[x].value, t, ignoreCase)
    ensures Increasing(IndirectIds(idx, data, ignoreCase, t))
  {
    var last := idx[|idx| - 1];
    var parts := ShingleSeq(t, |idx|);
    var ids := Found(last, parts);
    assert LevelWellFormed(last, |idx| - 1, ignoreCase);
    WindowsMember(t, |idx|, t[..|idx|]);
    assert OccursAt(t[..|idx|], t, 0);
    assert t[..|idx|] in parts;
    if FoundCount(last, parts) == |parts| {
      var p0 := t[..|idx|];
      assert last[p0] != [] && last[p0][0] in last[p0];
      FoundPartExists(last, parts, last[p0][0]);
      assert ids != [];
      var candidates := TrueMatches(ids, |parts|, |data|);
      forall x: nat
        ensures x in candidates <==> Live(data, x) && forall p :: p in parts ==> Has(last, p, x)
      {
        CountIsAllParts(last, parts, x);
        if x in candidates {
          var m: multiset<nat> := multiset(ids);
          assert m[x] == |parts| && |parts| > 0;
          FoundPartExists(last, parts, x);
          var p :| p in parts && Has(last, p, x);
          assert Live(data, x);
        }
      }
      FoundListed(idx, data, parts, ids, candidates);
      VerifiedIncreasing(data, candidates, t, ignoreCase);
    } else {
      var p :| p in parts && p !in last;
    }
  }

  /** When the indirect search returns `x`: its slot is live, every shingle
      of the term lists it on the top level, and its record passes the
      final check. */
  predicate IndirectMember(idx: Levels, data: Slots, ignoreCase: bool, t: string, x: nat)
    requires |idx| >= 1
  {
    && Live(data, x)
    && (forall p :: p in ShingleSeq(t, |idx|) ==> Has(idx[|idx| - 1], p, x))
    && Keep(data[x].value, t, ignoreCase)
  }

  /** `IndirectIdsSpec` for one id. */
  lemma IndirectIdsAt(idx: Levels, data: Slots, ignoreCase: bool, t: string, x: nat)
    requires |idx| >= 1 && IdsLive(idx, data) && WellFormed(idx, ignoreCase)
    requires |t| > |idx|
    ensures x in IndirectIds(idx, data, ignoreCase, t) <==> IndirectMember(idx, data, ignoreCase, t, x)
  {
    IndirectIdsSpec(idx, data, ignoreCase, t);
  }

  /** Every shingle of a substring of `text` is a shingle of `text`. */
  lemma ShinglesOfSubstring(t: string, text: string, n: nat, p: string)
    requires n >= 1 && IsSubstring(t, text) && p in ShingleSeq(t, n)
    ensures ShingleOf(p, text, n - 1)
  {
    CutIsDistinctSubstrings(t, n);
    SubstringTrans(p, t, text);
  }

  // ---------------------------------------------------------------------------
  // What the invariant makes of a search

  /** A term no longer than the number of levels is looked up directly: every
      returned record mentions the term, every live primitive record whose
      text contains it is returned, and no record twice. */
  lemma DirectLookupSpec(idx: Levels, data: Slots, ignoreCase: bool, q: Option<Primitive>)
    requires |idx| >= 1 && Invariant(idx, data, ignoreCase)
    requires 1 <= |QueryText(q, ignoreCase)| <= |idx|
    ensures IdsLive(idx, data)
    ensures forall x: nat :: x in SearchIds(idx, data, ignoreCase, q) ==>
      Live(data, x) && Mentions(data[x].value, QueryText(q, ignoreCase), ignoreCase)
    ensures forall x: nat ::
      (Live(data, x) && data[x].value.Prim? && IsSubstring(QueryText(q, ignoreCase), IndexText(data[x].value.p, ignoreCase)))
      ==> x in SearchIds(idx, data, ignoreCase, q)
    ensures NoDup(SearchIds(idx, data, ignoreCase, q))
  {
    SoundIdsLive(idx, data, ignoreCase);
    var t := QueryText(q, ignoreCase);
    var l := |t| - 1;
    assert LevelWellFormed(idx[l], l, ignoreCase);
    assert LevelSound(idx[l], data, ignoreCase);
    forall x: nat | Live(data, x) && data[x].value.Prim? && IsSubstring(t, IndexText(data[x].value.p, ignoreCase))
      ensures x in SearchIds(idx, data, ignoreCase, q)
    {
      assert Covers(idx, IndexText(data[x].value.p, ignoreCase), x);
      assert ShingleOf(t, IndexText(data[x].value.p, ignoreCase), l);
    }
  }

  /** A longer term finds every live primitive record whose text contains it
      and that passes the verification. */
  lemma IndirectFindsPrimitive(idx: Levels, data: Slots, ignoreCase: bool, q: Option<Primitive>, x: nat)
    requires |idx| >= 1 && Invariant(idx, data, ignoreCase)
    requires |QueryText(q, ignoreCase)| > |idx|
    requires Live(data, x) && data[x].value.Prim?
    requires IsSubstring(QueryText(q, ignoreCase), IndexText(data[x].value.p, ignoreCase))
    requires Keep(data[x].value, QueryText(q, ignoreCase), ignoreCase)
    ensures IdsLive(idx, data)
    ensures x in SearchIds(idx, data, ignoreCase, q)
  {
    SoundIdsLive(idx, data, ignoreCase);
    var t := QueryText(q, ignoreCase);
    var text := IndexText(data[x].value.p, ignoreCase);
    var k := |idx|;
    forall p | p in ShingleSeq(t, k) ensures Has(idx[k - 1], p, x) {
      ShinglesOfSubstring(t, text, k, p);
      assert Covers(idx, text, x);
    }
    IndirectIdsSpec(idx, data, ignoreCase, t);
  }

  /** With ignore_case set, searching a string finds every live string record
      that contains the term, ignoring case, whatever the term's length. */
  lemma StringSearchComplete(idx: Levels, data: Slots, w: string, x: nat)
    requires |idx| >= 1 && Invariant(idx, data, true)
    requires w != [] && Live(data, x) && data[x].value.Prim? && data[x].value.p.Str?
    requires IsSubstring(Lower(w), Lower(data[x].value.p.s))
    ensures IdsLive(idx, data)
    ensures x in SearchIds(idx, data, true, Some(Str(w)))
  {
    SoundIdsLive(idx, data, true);
    var t := Lower(w);
    if |t| <= |idx| {
      DirectLookupSpec(idx, data, true, Some(Str(w)));
    } else {
      IndirectFindsPrimitive(idx, data, true, Some(Str(w)), x);
    }
  }

  /** The inverted check on numbers and booleans: a long term that starts the
      record's text is never returned for that record (`indexOf` is 0, which
      is falsy). */
  lemma LeadingTermDropped(idx: Levels, data: Slots, ignoreCase: bool, q: Option<Primitive>, x: nat)
    requires |idx| >= 1 && IdsLive(idx, data)
    requires |QueryText(q, ignoreCase)| > |idx|
    requires Live(data, x) && data[x].value.Prim? && !data[x].value.p.Str?
    requires IndexOf(RawText(data[x].value.p), QueryText(q, ignoreCase)) == 0
    ensures x !in SearchIds(idx, data, ignoreCase, q)
  {
  }

  /** The same check keeps a number or boolean whose text does not contain the
      term at all, once every shingle of the term occurs in its text. */
  lemma ScatteredShinglesFound(idx: Levels, data: Slots, ignoreCase: bool, q: Option<Primitive>, x: nat)
    requires |idx| >= 1 && Invariant(idx, data, ignoreCase)
    requires |QueryText(q, ignoreCase)| > |idx|
    requires Live(data, x) && data[x].value.Prim? && !data[x].value.p.Str?
    requires forall p :: p in ShingleSeq(QueryText(q, ignoreCase), |idx|) ==> IsSubstring(p, RawText(data[x].value.p))
    requires !IsSubstring(QueryText(q, ignoreCase), RawText(data[x].value.p))
    ensures IdsLive(idx, data)
    ensures x in SearchIds(idx, data, ignoreCase, q)
  {
    SoundIdsLive(idx, data, ignoreCase);
    var t := QueryText(q, ignoreCase);
    var p0 := data[x].value.p;
    var k := |idx|;
    assert IndexText(p0, ignoreCase) == RawText(p0);
    forall p | p in ShingleSeq(t, k) ensures Has(idx[k - 1], p, x) {
      CutIsDistinctSubstrings(t, k);
      assert ShingleOf(p, RawText(p0), k - 1);
      assert Covers(idx, RawText(p0), x);
    }
    IndirectIdsSpec(idx, data, ignoreCase, t);
  }

  /** With ignore_case off, the verification still lower-cases string records,
      so a long term holding an upper-case letter never returns a string record. */
  lemma UpperCaseTermMissesStrings(idx: Levels, data: Slots, q: Option<Primitive>, x: nat)
    requires |idx| >= 1 && IdsLive(idx, data)
    requires |QueryText(q, false)| > |idx| && !LowerFixed(QueryText(q, false))
    requires Live(data, x) && data[x].value.Prim? && data[x].value.p.Str?
    ensures x !in SearchIds(idx, data, false, q)
  {
    var s := data[x].value.p.s;
    if Contains(Lower(s), QueryText(q, false)) {
      LowerIsLowerFixed(s);
      SubstringLowerFixed(QueryText(q, false), Lower(s));
    }
  }
}
