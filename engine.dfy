/** The `FullTextSearchLight` object (index.js:18-33 and its prototype
    methods): a record table and `index_amount` levels of shingle indexes,
    updated in place by `add`, `remove` and `drop`. */
module Engine {
  import opened Wrappers
  import opened Text
  import opened Sequences
  import opened Values
  import opened Shingles
  import opened IdLists
  import opened NGrams
  import opened IndexState
  import opened Lookup

  /** The options a caller may pass; a missing option takes its default. */
  datatype Options = Options(indexAmount: Option<nat>, ignoreCase: Option<bool>)

  datatype Config = Config(indexAmount: nat, ignoreCase: bool)

  /** `merge(default_options, options)` (index.js:20-25): 12 levels, case ignored. */
  function Merge(options: Options): (c: Config)
    ensures options.indexAmount.Some? ==> c.indexAmount == options.indexAmount.value
    ensures options.indexAmount.None? ==> c.indexAmount == 12
    ensures options.ignoreCase.Some? ==> c.ignoreCase == options.ignoreCase.value
    ensures options.ignoreCase.None? ==> c.ignoreCase
  {
    Config(
      if options.indexAmount.Some? then options.indexAmount.value else 12,
      if options.ignoreCase.Some? then options.ignoreCase.value else true)
  }

  /** Why `remove` throws: the slot holds no record, or an index entry it
      reads is missing (the source then fails on `undefined.length`). */
  datatype RemoveError = MissingRecord | MissingEntry(text: string)

  /** Levels with no keys. */
  function EmptyLevels(k: nat): (r: Levels)
    ensures |r| == k && forall l :: 0 <= l < k ==> r[l] == map[]
  {
    seq(k, _ => map[])
  }

  /** Every shingle of every level of `t` is in the matching set of `acc`. */
  ghost predicate CoveredBy(t: string, acc: seq<set<string>>)
  {
    forall l :: 0 <= l < |acc| ==> ShingleSet(t, l + 1) <= acc[l]
  }

  lemma FirstShingle(t: string, n: nat)
    requires n >= 1
    ensures |t| >= n ==> t[..n] in ShingleSeq(t, n)
  {
    CutIsDistinctSubstrings(t, n);
    if |t| >= n {
      assert OccursAt(t[..n], t, 0);
    }
  }

  /** `AddText` carried out on the levels below `i` only. */
  ghost function AddTextBelow(idx: Levels, t: string, id: nat, i: nat): (r: Levels)
    ensures |r| == |idx|
  {
    seq(|idx|, l requires 0 <= l < |idx| => if l < i then AddShingles(idx[l], ShingleSeq(t, l + 1), id) else idx[l])
  }

  lemma AddTextBelowStep(idx: Levels, t: string, id: nat, i: nat)
    requires i < |idx|
    ensures AddTextBelow(idx, t, id, i)[i] == idx[i]
    ensures AddTextBelow(idx, t, id, i + 1) == AddTextBelow(idx, t, id, i)[i := AddShingles(idx[i], ShingleSeq(t, i + 1), id)]
  {
  }

  lemma AddTextBelowAll(idx: Levels, t: string, id: nat, i: nat)
    requires i >= |idx|
    ensures AddTextBelow(idx, t, id, i) == AddText(idx, t, id)
  {
  }

  /** Levels past the text's length receive no shingles, so stopping early
      leaves them as they are. */
  lemma ShinglesRunOut(idx: Levels, t: string, id: nat, i: nat)
    requires ShingleSeq(t, i + 1) == []
    ensures AddTextBelow(idx, t, id, i) == AddText(idx, t, id)
  {
    FirstShingle(t, i + 1);
    forall l | i <= l < |idx| ensures AddShingles(idx[l], ShingleSeq(t, l + 1), id) == idx[l] {
      CutIsDistinctSubstrings(t, l + 1);
    }
  }

  /** Indexing one more leaf text continues `AddTexts`. */
  lemma AddLeafStep(idx: Levels, leaves: seq<Leaf>, k: nat, ignoreCase: bool, id: nat)
    requires k < |leaves|
    ensures AddTexts(idx, LeafTexts(leaves[..k + 1], ignoreCase), id)
      == AddText(AddTexts(idx, LeafTexts(leaves[..k], ignoreCase), id), IndexText(leaves[k].value, ignoreCase), id)
  {
    var ts := LeafTexts(leaves[..k + 1], ignoreCase);
    assert ts[..k] == LeafTexts(leaves[..k], ignoreCase);
  }

  lemma RawTextLowered(p: Primitive, ignoreCase: bool)
    ensures (if ignoreCase then Lower(RawText(p)) else RawText(p)) == IndexText(p, ignoreCase)
  {
    if p.Num? {
      IntTextLowerFixed(p.n);
    }
    if !p.Str? {
      LowerFixedIff(RawText(p));
    }
  }

  // ---------------------------------------------------------------------------
  // Bookkeeping for `remove`: which keys of which level have lost the id.

  /** Every level `l` with `id` taken out of the lists under `done[l]`. */
  ghost function Purged(idx: Levels, done: seq<set<string>>, id: nat): (r: Levels)
    requires |done| == |idx|
    ensures |r| == |idx|
  {
    seq(|idx|, l requires 0 <= l < |idx| => PurgeKeys(idx[l], done[l], id))
  }

  /** The handled keys are keys of the levels. */
  ghost predicate Within(done: seq<set<string>>, idx: Levels)
  {
    |done| == |idx| && forall l :: 0 <= l < |idx| ==> done[l] <= idx[l].Keys
  }

  /** The shingles of `t` on the levels below `i`, nothing above. */
  ghost function ShinglesBelow(t: string, i: nat, k: nat): (r: seq<set<string>>)
    ensures |r| == k
  {
    seq(k, l requires 0 <= l < k => if l < i then ShingleSet(t, l + 1) else {})
  }

  ghost function Union(a: seq<set<string>>, b: seq<set<string>>): (r: seq<set<string>>)
    requires |a| == |b|
    ensures |r| == |a| && forall l :: 0 <= l < |a| ==> r[l] == a[l] + b[l]
  {
    seq(|a|, l requires 0 <= l < |a| => a[l] + b[l])
  }

  lemma PurgedNone(idx: Levels, t: string, id: nat)
    ensures Purged(idx, ShinglesBelow(t, 0, |idx|), id) == idx
    ensures Within(ShinglesBelow(t, 0, |idx|), idx)
  {
    forall l | 0 <= l < |idx| ensures Purged(idx, ShinglesBelow(t, 0, |idx|), id)[l] == idx[l] {
      PurgeKeysNone(idx[l], id);
    }
  }

  /** Handling the keys `removed` of level `i`, untouched so far. */
  lemma PurgedStep(idx: Levels, done: seq<set<string>>, i: nat, removed: set<string>, id: nat)
    requires Within(done, idx) && i < |idx| && done[i] == {}
    requires removed <= Purged(idx, done, id)[i].Keys
    ensures Purged(idx, done, id)[i := PurgeKeys(Purged(idx, done, id)[i], removed, id)] == Purged(idx, done[i := removed], id)
    ensures Within(done[i := removed], idx)
  {
    PurgeKeysNone(idx[i], id);
  }

  /** A second round of handled keys, on the levels the first round left. */
  lemma PurgedCompose(idx: Levels, acc: seq<set<string>>, done: seq<set<string>>, id: nat)
    requires Within(acc, idx) && Within(done, Purged(idx, acc, id))
    ensures Purged(Purged(idx, acc, id), done, id) == Purged(idx, Union(acc, done), id)
    ensures Within(Union(acc, done), idx)
  {
    forall l | 0 <= l < |idx|
      ensures Purged(Purged(idx, acc, id), done, id)[l] == Purged(idx, Union(acc, done), id)[l]
    {
      PurgeKeysCompose(idx[l], acc[l], done[l], id);
    }
  }

  /** Handled keys per level are a partial purge. */
  lemma PurgedIsPartial(idx: Levels, acc: seq<set<string>>, id: nat, ignoreCase: bool)
    requires WellFormed(idx, ignoreCase) && |acc| == |idx|
    ensures PartialPurgeAll(idx, Purged(idx, acc, id), id)
  {
    forall l | 0 <= l < |idx| ensures PartialPurge(idx[l], Purged(idx, acc, id)[l], id) {
      assert LevelWellFormed(idx[l], l, ignoreCase);
      PurgeKeysIsPartial(idx[l], acc[l], id);
    }
  }

  /** Handled keys that reach the whole level on every level are the full purge. */
  lemma PurgedAll(idx: Levels, done: seq<set<string>>, id: nat)
    requires |done| == |idx|
    requires forall l :: 0 <= l < |idx| ==> PurgeKeys(idx[l], done[l], id) == Purge(idx[l], id)
    ensures Purged(idx, done, id) == PurgeAll(idx, id)
  {
  }

  /** One more candidate extends the verified ids by itself when it passes. */
  lemma VerifiedStep(data: Slots, xs: seq<nat>, i: nat, t: string, ignoreCase: bool)
    requires i < |xs| && forall x: nat :: x in xs ==> Live(data, x)
    ensures Live(data, xs[i])
    ensures forall x: nat :: x in xs[..i] ==> Live(data, x)
    ensures Verified(data, xs[..i + 1], t, ignoreCase) ==
      Verified(data, xs[..i], t, ignoreCase) + (if Keep(data[xs[i]].value, t, ignoreCase) then [xs[i]] else [])
  {
    assert xs[i] in xs;
    assert forall y :: y in xs[..i] ==> y in xs;
    var ys := xs[..i + 1];
    assert ys[..|ys| - 1] == xs[..i];
  }

  /** One more live id adds its record at the end. */
  lemma RecordsSnoc(data: Slots, a: seq<nat>, x: nat)
    requires Live(data, x) && forall y: nat :: y in a ==> Live(data, y)
    ensures forall y: nat :: y in a + [x] ==> Live(data, y)
    ensures Records(data, a + [x]) == Records(data, a) + [data[x].value]
  {
    assert forall y :: y in a + [x] ==> y in a || y == x;
  }


  /** Removing all shingles of a primitive record's indexed text purges it. */
  lemma PrimitiveRemovalIsPurge(idx: Levels, data: Slots, ignoreCase: bool, id: nat)
    requires Invariant(idx, data, ignoreCase) && Live(data, id) && data[id].value.Prim?
    ensures Purged(idx, ShinglesBelow(IndexText(data[id].value.p, ignoreCase), |idx|, |idx|), id) == PurgeAll(idx, id)
  {
    var v := data[id].value;
    var text := IndexText(v.p, ignoreCase);
    var done := ShinglesBelow(text, |idx|, |idx|);
    assert RecordTexts(v, ignoreCase) == [text];
    SingleTextBelow(text, |idx|);
    CoveringRemovalIsPurge(idx, data, ignoreCase, id, done);
    PurgedAll(idx, done, id);
  }

  /** The shingles of all levels below `k` reach every shingle of a single text. */
  lemma SingleTextBelow(text: string, k: nat)
    ensures forall l, s :: 0 <= l < k && ShingleOfAny(s, [text], l) ==> s in ShinglesBelow(text, k, k)[l]
  {
    forall l, s | 0 <= l < k && ShingleOfAny(s, [text], l) ensures s in ShinglesBelow(text, k, k)[l] {
      assert ShingleOf(s, text, l);
      ShingleSetIsShingleOf(text, l, s);
    }
  }

  /** Removing, on every level, all shingles of every leaf's raw text, each
      of them an index key, purges a structured record. */
  lemma StructureRemovalIsPurge(idx: Levels, data: Slots, ignoreCase: bool, id: nat, acc: seq<set<string>>)
    requires Invariant(idx, data, ignoreCase) && Live(data, id) && !data[id].value.Prim?
    requires |idx| >= 1 && Within(acc, idx)
    requires forall j :: 0 <= j < |Walk(data[id].value, None, [])| ==>
      CoveredBy(RawText(Walk(data[id].value, None, [])[j].value), acc)
    ensures Purged(idx, acc, id) == PurgeAll(idx, id)
  {
    var leaves := Walk(data[id].value, None, []);
    forall l, s | 0 <= l < |idx| && ShingleOfAny(s, RecordTexts(data[id].value, ignoreCase), l)
      ensures s in acc[l]
    {
      LeafShingleRemoved(idx, leaves, acc, ignoreCase, s, l);
    }
    CoveringRemovalIsPurge(idx, data, ignoreCase, id, acc);
    PurgedAll(idx, acc, id);
  }

  /** When every leaf's raw text was handled on every level and the handled
      keys were index keys, every shingle of every leaf's indexed text was
      handled: with ignore_case set the single characters being keys forces
      the raw text to be in lower case already. */
  lemma LeafShingleRemoved(idx: Levels, leaves: seq<Leaf>, acc: seq<set<string>>, ignoreCase: bool, s: string, l: nat)
    requires WellFormed(idx, ignoreCase) && |idx| >= 1 && l < |idx| && Within(acc, idx)
    requires forall j :: 0 <= j < |leaves| ==> CoveredBy(RawText(leaves[j].value), acc)
    requires ShingleOfAny(s, LeafTexts(leaves, ignoreCase), l)
    ensures s in acc[l]
  {
    var texts := LeafTexts(leaves, ignoreCase);
    var k :| 0 <= k < |texts| && ShingleOf(s, texts[k], l);
    var raw := RawText(leaves[k].value);
    assert CoveredBy(raw, acc);
    if ignoreCase {
      assert ShingleSet(raw, 1) <= acc[0];
      LowerFixedFromKeys(idx, raw);
    }
    RawTextIsIndexText(leaves[k].value, ignoreCase);
    ShingleSetIsShingleOf(raw, l, s);
  }

  /** Level `i` handled with all of the text's shingles of that length. */
  lemma ShinglesBelowStep(t: string, i: nat, k: nat)
    requires i < k
    ensures ShinglesBelow(t, i, k)[i] == {}
    ensures ShinglesBelow(t, i, k)[i := ShingleSet(t, i + 1)] == ShinglesBelow(t, i + 1, k)
  {
  }

  /** A text the index covers for `id` has each level's shingles listing `id`. */
  lemma CoveredParts(idx: Levels, t: string, i: nat, id: nat)
    requires i < |idx| && Covers(idx, t, id)
    ensures AllListed(idx[i], ShingleSeq(t, i + 1), id)
  {
    forall s | s in ShingleSeq(t, i + 1) ensures Has(idx[i], s, id) {
      assert s in ShingleSet(t, i + 1);
      ShingleSetIsShingleOf(t, i, s);
    }
  }

  /** Every shingle of `t` of the first `i` levels' lengths is a key of its
      level: removing `t` on those levels meets no missing entry. */
  ghost predicate KeysBelow(idx: Levels, t: string, i: nat)
    requires i <= |idx|
  {
    forall l :: 0 <= l < i ==> AllKeys(idx[l], ShingleSeq(t, l + 1))
  }

  ghost predicate KeysPresent(idx: Levels, t: string)
  {
    KeysBelow(idx, t, |idx|)
  }

  /** One more level whose shingles are all keys extends `KeysBelow`; one
      that misses a shingle rules out `KeysPresent`. */
  lemma KeysBelowStep(idx: Levels, t: string, i: nat)
    requires i < |idx| && KeysBelow(idx, t, i)
    ensures AllKeys(idx[i], ShingleSeq(t, i + 1)) ==> KeysBelow(idx, t, i + 1)
    ensures !AllKeys(idx[i], ShingleSeq(t, i + 1)) ==> !KeysPresent(idx, t)
  {
  }

  /** The index after removing `t` on every level for `id`. */
  ghost function PurgedText(idx: Levels, t: string, id: nat): (r: Levels)
    ensures |r| == |idx|
  {
    Purged(idx, ShinglesBelow(t, |idx|, |idx|), id)
  }

  /** Removing the raw texts of `leaves` from `idx` one after the other meets
      no missing entry: the shingles of each text are keys when its turn comes,
      after the earlier texts were removed. */
  ghost predicate LeavesPass(idx: Levels, leaves: seq<Leaf>, id: nat)
    decreases |leaves|
  {
    leaves == [] ||
    (KeysPresent(idx, RawText(leaves[0].value)) &&
     LeavesPass(PurgedText(idx, RawText(leaves[0].value), id), leaves[1..], id))
  }

  lemma LeavesPassStep(idx: Levels, leaves: seq<Leaf>, k: nat, id: nat)
    requires k < |leaves|
    ensures LeavesPass(idx, leaves[k..], id) <==>
      KeysPresent(idx, RawText(leaves[k].value)) &&
      LeavesPass(PurgedText(idx, RawText(leaves[k].value), id), leaves[k + 1..], id)
  {
    assert leaves[k..][0] == leaves[k];
    assert leaves[k..][1..] == leaves[k + 1..];
  }

  /** A text the index covers for `id` has all its shingles as keys. */
  lemma CoversKeysPresent(idx: Levels, t: string, id: nat)
    requires Covers(idx, t, id)
    ensures KeysPresent(idx, t)
  {
    forall l | 0 <= l < |idx| ensures AllKeys(idx[l], ShingleSeq(t, l + 1)) {
      CoveredParts(idx, t, l, id);
    }
  }

  /** `t` and `u` share no shingle of length `1` to `k`. */
  ghost predicate NoSharedShingle(t: string, u: string, k: nat)
  {
    forall n :: 1 <= n <= k ==> ShingleSet(t, n) !! ShingleSet(u, n)
  }

  /** Removing a text leaves another text covered when the two share no
      shingle. */
  lemma CoversAfterSeparatePurge(idx: Levels, t: string, u: string, id: nat)
    requires Covers(idx, u, id)
    requires NoSharedShingle(t, u, |idx|)
    ensures Covers(PurgedText(idx, t, id), u, id)
  {
    var idx2 := PurgedText(idx, t, id);
    forall l, s | 0 <= l < |idx| && ShingleOf(s, u, l) ensures Has(idx2[l], s, id) {
      ShingleSetIsShingleOf(u, l, s);
      var shared := ShingleSet(t, l + 1);
      assert shared !! ShingleSet(u, l + 1) && s in ShingleSet(u, l + 1);
      var keys := ShinglesBelow(t, |idx|, |idx|)[l];
      ShinglesBelowAt(t, |idx|, |idx|, l);
      assert keys == shared && s !in shared;
      assert idx2[l] == PurgeKeys(idx[l], keys, id);
      assert Has(idx[l], s, id);
      PurgeKeysOutside(idx[l], keys, s, id);
    }
  }

  /** A structure whose leaf texts are each covered for `id` and pairwise share
      no shingle is removed without a missing entry. */
  lemma {:induction false} SeparateLeavesRemovable(idx: Levels, leaves: seq<Leaf>, id: nat)
    requires forall j :: 0 <= j < |leaves| ==> Covers(idx, RawText(leaves[j].value), id)
    requires forall j, k :: 0 <= j < k < |leaves| ==>
      NoSharedShingle(RawText(leaves[j].value), RawText(leaves[k].value), |idx|)
    decreases |leaves|
    ensures LeavesPass(idx, leaves, id)
  {
    if leaves != [] {
      var t := RawText(leaves[0].value);
      var rest := leaves[1..];
      CoversKeysPresent(idx, t, id);
      var idx2 := PurgedText(idx, t, id);
      forall j | 0 <= j < |rest| ensures Covers(idx2, RawText(rest[j].value), id) {
        assert rest[j] == leaves[j + 1];
        CoversAfterSeparatePurge(idx, t, RawText(rest[j].value), id);
      }
      forall j, k | 0 <= j < k < |rest|
        ensures NoSharedShingle(RawText(rest[j].value), RawText(rest[k].value), |idx2|)
      {
        assert rest[j] == leaves[j + 1] && rest[k] == leaves[k + 1];
      }
      SeparateLeavesRemovable(idx2, rest, id);
    }
  }

  /** A leaf reached twice whose first character lists only `id` blocks the
      removal: the first visit deletes that key, and the second misses it. */
  lemma RepeatedLeafBlocks(idx: Levels, leaf: Leaf, id: nat)
    requires |idx| >= 1 && |RawText(leaf.value)| >= 1
    requires Get(idx[0], RawText(leaf.value)[..1]) == [id]
    ensures !LeavesPass(idx, [leaf, leaf], id)
  {
    var t := RawText(leaf.value);
    var c := t[..1];
    FirstShingle(t, 1);
    assert c in ShingleSet(t, 1);
    var idx2 := PurgedText(idx, t, id);
    assert ShinglesBelow(t, |idx|, |idx|)[0] == ShingleSet(t, 1);
    assert Without([id], id) == [];
    assert c !in idx2[0];
    assert !AllKeys(idx2[0], ShingleSeq(t, 1));
    assert [leaf, leaf][1..] == [leaf];
  }

  lemma ShinglesBelowAt(t: string, i: nat, k: nat, l: nat)
    requires l < k
    ensures ShinglesBelow(t, i, k)[l] == if l < i then ShingleSet(t, l + 1) else {}
  {
  }

  /** All of a text's shingles handled is the text covered. */
  lemma ShinglesBelowCovered(t: string, k: nat, acc: seq<set<string>>)
    requires |acc| == k
    ensures CoveredBy(t, Union(acc, ShinglesBelow(t, k, k)))
  {
    var below := ShinglesBelow(t, k, k);
    var u := Union(acc, below);
    forall l | 0 <= l < k ensures ShingleSet(t, l + 1) <= u[l] {
      assert below[l] == ShingleSet(t, l + 1);
      assert u[l] == acc[l] + below[l];
    }
  }

  /** The leaves handled so far stay covered as more keys are handled, and
      the next leaf joins them once all its shingles were handled. */
  lemma CoveredStep(leaves: seq<Leaf>, k: nat, acc: seq<set<string>>, done: seq<set<string>>, pass: bool)
    requires k < |leaves| && |acc| == |done|
    requires forall j :: 0 <= j < k ==> CoveredBy(RawText(leaves[j].value), acc)
    requires pass ==> done == ShinglesBelow(RawText(leaves[k].value), |acc|, |acc|)
    ensures forall j :: 0 <= j < k ==> CoveredBy(RawText(leaves[j].value), Union(acc, done))
    ensures pass ==> forall j :: 0 <= j < k + 1 ==> CoveredBy(RawText(leaves[j].value), Union(acc, done))
  {
    forall j | 0 <= j < k ensures CoveredBy(RawText(leaves[j].value), Union(acc, done)) {
      CoveredByGrows(RawText(leaves[j].value), acc, done);
    }
    if pass {
      ShinglesBelowCovered(RawText(leaves[k].value), |acc|, acc);
    }
  }

  lemma CoveredByGrows(t: string, acc: seq<set<string>>, done: seq<set<string>>)
    requires |acc| == |done| && CoveredBy(t, acc)
    ensures CoveredBy(t, Union(acc, done))
  {
    var u := Union(acc, done);
    forall l | 0 <= l < |acc| ensures ShingleSet(t, l + 1) <= u[l] {
      assert u[l] == acc[l] + done[l];
    }
  }

  // ---------------------------------------------------------------------------
  // What `add` and `remove` mean for later searches.

  /** With case ignored, a string record just added is found by any
      non-empty term whose lower-case form occurs in the record's. */
  lemma AddedStringIsFound(idx: Levels, data: Slots, s: string, w: string, filter: Option<Filter>)
    requires |idx| >= 1 && Invariant(idx, data, true)
    requires w != [] && IsSubstring(Lower(w), Lower(s))
    ensures IdsLive(IndexRecord(idx, Prim(Str(s)), |data|, filter, true), data + [Some(Prim(Str(s)))])
    ensures |data| in SearchIds(IndexRecord(idx, Prim(Str(s)), |data|, filter, true), data + [Some(Prim(Str(s)))], true, Some(Str(w)))
  {
    var v := Prim(Str(s));
    AddRecordPreserves(idx, data, true, v, filter);
    StringSearchComplete(IndexRecord(idx, v, |data|, filter, true), data + [Some(v)], w, |data|);
  }

  /** A removed record is found by no search. */
  lemma RemovedIsNotFound(idx: Levels, data: Slots, ignoreCase: bool, id: nat, q: Option<Primitive>)
    requires |idx| >= 1 && Invariant(idx, data, ignoreCase) && id < |data|
    ensures IdsLive(PurgeAll(idx, id), data[id := None])
    ensures id !in SearchIds(PurgeAll(idx, id), data[id := None], ignoreCase, q)
  {
    PurgeAllPreserves(idx, data, ignoreCase, id);
    SoundIdsLive(PurgeAll(idx, id), data[id := None], ignoreCase);
  }

  /** Removing a record changes no other record's place in any search result. */
  lemma RemoveKeepsOthers(idx: Levels, data: Slots, ignoreCase: bool, id: nat, q: Option<Primitive>, x: nat)
    requires |idx| >= 1 && Invariant(idx, data, ignoreCase) && id < |data| && x != id
    ensures IdsLive(idx, data) && IdsLive(PurgeAll(idx, id), data[id := None])
    ensures x in SearchIds(PurgeAll(idx, id), data[id := None], ignoreCase, q) <==> x in SearchIds(idx, data, ignoreCase, q)
  {
    PurgedSearchable(idx, data, ignoreCase, id);
    PurgedSearch(idx, data, PurgeAll(idx, id), data[id := None], ignoreCase, id, q, x);
  }

  lemma PurgedSearch(idx: Levels, data: Slots, idx2: Levels, data2: Slots, ignoreCase: bool, id: nat, q: Option<Primitive>, x: nat)
    requires |idx| >= 1 && IdsLive(idx, data) && WellFormed(idx, ignoreCase)
    requires |idx2| == |idx| && IdsLive(idx2, data2) && WellFormed(idx2, ignoreCase)
    requires forall l :: 0 <= l < |idx| ==> idx2[l] == Purge(idx[l], id)
    requires id < |data| && data2 == data[id := None] && x != id
    ensures x in SearchIds(idx2, data2, ignoreCase, q) <==> x in SearchIds(idx, data, ignoreCase, q)
  {
    var t := QueryText(q, ignoreCase);
    if t != "" && |t| <= |idx| {
      PurgeHas(idx[|t| - 1], t, id, x);
    } else if |t| > |idx| {
      PurgedIndirect(idx, data, idx2, data2, ignoreCase, id, t, x);
    }
  }

  /** What a search needs holds before and after a removal. */
  lemma PurgedSearchable(idx: Levels, data: Slots, ignoreCase: bool, id: nat)
    requires Invariant(idx, data, ignoreCase) && id < |data|
    ensures IdsLive(idx, data) && WellFormed(idx, ignoreCase)
    ensures IdsLive(PurgeAll(idx, id), data[id := None]) && WellFormed(PurgeAll(idx, id), ignoreCase)
  {
    PurgeAllPreserves(idx, data, ignoreCase, id);
    SoundIdsLive(idx, data, ignoreCase);
    SoundIdsLive(PurgeAll(idx, id), data[id := None], ignoreCase);
  }

  lemma PurgedIndirect(idx: Levels, data: Slots, idx2: Levels, data2: Slots, ignoreCase: bool, id: nat, t: string, x: nat)
    requires |idx| >= 1 && IdsLive(idx, data) && WellFormed(idx, ignoreCase)
    requires |idx2| == |idx| && IdsLive(idx2, data2) && WellFormed(idx2, ignoreCase)
    requires idx2[|idx| - 1] == Purge(idx[|idx| - 1], id)
    requires id < |data| && data2 == data[id := None]
    requires |t| > |idx| && x != id
    ensures x in IndirectIds(idx2, data2, ignoreCase, t) <==> x in IndirectIds(idx, data, ignoreCase, t)
  {
    IndirectIdsAt(idx, data, ignoreCase, t, x);
    IndirectIdsAt(idx2, data2, ignoreCase, t, x);
    PurgedMember(idx, data, idx2, data2, ignoreCase, id, t, x);
  }

  /** Whether the indirect search returns `x` survives the purge of another id. */
  lemma PurgedMember(idx: Levels, data: Slots, idx2: Levels, data2: Slots, ignoreCase: bool, id: nat, t: string, x: nat)
    requires |idx| >= 1 && |idx2| == |idx| && idx2[|idx| - 1] == Purge(idx[|idx| - 1], id)
    requires id < |data| && data2 == data[id := None] && x != id
    ensures IndirectMember(idx2, data2, ignoreCase, t, x) <==> IndirectMember(idx, data, ignoreCase, t, x)
  {
    var m, m2 := idx[|idx| - 1], idx2[|idx2| - 1];
    var parts := ShingleSeq(t, |idx|);
    forall p | p in parts ensures Has(m2, p, x) <==> Has(m, p, x) {
      PurgeHas(m, p, id, x);
    }
    ListedAlike(parts, m, m2, x);
    assert Live(data2, x) <==> Live(data, x);
    if Live(data, x) {
      assert data2[x] == data[x];
    }
  }

  /** A purge of `id` leaves every other id's entries as they were. */
  lemma PurgeHas(m: Level, s: string, id: nat, x: nat)
    requires x != id
    ensures Has(Purge(m, id), s, x) <==> Has(m, s, x)
    ensures x in Get(Purge(m, id), s) <==> x in Get(m, s)
  {
    PurgeSpec(m, id);
  }

  lemma ListedAlike(parts: seq<string>, m: Level, m2: Level, x: nat)
    requires forall p :: p in parts ==> (Has(m2, p, x) <==> Has(m, p, x))
    ensures AllListed(m, parts, x) <==> AllListed(m2, parts, x)
  {
  }

  class FullTextSearchLight {
    var config: Config
    var indexes: Levels
    var data: Slots
    var dataPtr: nat
    var freeSlots: seq<nat>
    var singleDataCounter: nat

    /** One level per `index_amount`, the pointer at the end of the table,
        free slots emptied, and the index invariant. */
    ghost predicate Valid()
      reads this
    {
      && Searchable()
      && dataPtr == |data|
      && (forall x :: x in freeSlots ==> x < |data| && data[x].None?)
      && Invariant(indexes, data, config.ignoreCase)
    }

    /** What a search needs: the levels, and lists naming live slots only. */
    predicate Searchable()
      reads this
    {
      config.indexAmount >= 1 && |indexes| == config.indexAmount && IdsLive(indexes, data)
    }

    /** `new FullTextSearchLight(options)` (index.js:18-33). */
    constructor (options: Options)
      requires Merge(options).indexAmount >= 1
      ensures Valid()
      ensures config == Merge(options)
      ensures indexes == EmptyLevels(config.indexAmount)
      ensures data == [] && dataPtr == 0 && freeSlots == [] && singleDataCounter == 0
    {
      config := Merge(options);
      indexes := [];
      data := [];
      dataPtr := 0;
      freeSlots := [];
      singleDataCounter := 0;
      new;
      Init();
      EmptyInvariant(config.indexAmount, config.ignoreCase);
    }

    /** `init` (index.js:35-41): push one empty level per `index_amount`. */
    method Init()
      modifies this
      ensures indexes == old(indexes) + EmptyLevels(config.indexAmount)
      ensures config == old(config) && data == old(data) && dataPtr == old(dataPtr)
      ensures freeSlots == old(freeSlots) && singleDataCounter == old(singleDataCounter)
    {
      var i := 0;
      while i < config.indexAmount
        invariant 0 <= i <= config.indexAmount
        invariant indexes == old(indexes) + EmptyLevels(i)
        invariant config == old(config) && data == old(data) && dataPtr == old(dataPtr)
        invariant freeSlots == old(freeSlots) && singleDataCounter == old(singleDataCounter)
      {
        indexes := indexes + [map[]];
        i := i + 1;
      }
    }

    /** The `ignore_case` accessor (index.js:94-100): a boolean argument
        becomes the setting and nothing is returned; without one the setting
        is returned. The index is left as it is, so the invariant survives
        only a call that keeps the setting. */
    method IgnoreCase(b: Option<bool>) returns (r: Option<bool>)
      modifies this
      ensures b.Some? ==> r.None? && config == old(config).(ignoreCase := b.value)
      ensures b.None? ==> r == Some(old(config).ignoreCase) && config == old(config)
      ensures indexes == old(indexes) && data == old(data) && dataPtr == old(dataPtr)
      ensures freeSlots == old(freeSlots) && singleDataCounter == old(singleDataCounter)
      ensures old(Valid()) && config == old(config) ==> Valid()
    {
      if b.Some? {
        config := config.(ignoreCase := b.value);
        return None;
      }
      r := Some(config.ignoreCase);
    }

    /** `nextFreeIndex` (index.js:496-498): hand out the pointer, then advance it. */
    method NextFreeIndex() returns (id: nat)
      modifies this
      ensures id == old(dataPtr) && dataPtr == old(dataPtr) + 1
      ensures config == old(config) && indexes == old(indexes) && data == old(data)
      ensures freeSlots == old(freeSlots) && singleDataCounter == old(singleDataCounter)
    {
      id := dataPtr;
      dataPtr := dataPtr + 1;
    }

    /** `add(obj, filter)` (index.js:151-164): store the record in the next
        slot and index it; the slot number is returned. */
    method Add(obj: Value, filter: Option<Filter>) returns (id: nat)
      requires Valid()
      modifies this
      ensures Valid()
      ensures id == old(dataPtr) && data == old(data) + [Some(obj)]
      ensures indexes == IndexRecord(old(indexes), obj, id, filter, config.ignoreCase)
      ensures singleDataCounter == old(singleDataCounter) + PrimitiveCount(obj, filter)
      ensures config == old(config) && freeSlots == old(freeSlots)
    {
      id := NextFreeIndex();
      data := data + [Some(obj)];
      AddToIndex(obj, id, filter);
      AddRecordPreserves(old(indexes), old(data), config.ignoreCase, obj, filter);
      SoundIdsLive(indexes, data, config.ignoreCase);
    }

    /** `addToIndex(obj, index, filter)` (index.js:168-221): a primitive is
        indexed directly; a structure has each leaf the filter lets through
        indexed in turn. */
    method AddToIndex(obj: Value, id: nat, filter: Option<Filter>)
      requires |indexes| == config.indexAmount
      modifies this
      ensures indexes == IndexRecord(old(indexes), obj, id, filter, config.ignoreCase)
      ensures singleDataCounter == old(singleDataCounter) + PrimitiveCount(obj, filter)
      ensures config == old(config) && data == old(data) && dataPtr == old(dataPtr) && freeSlots == old(freeSlots)
    {
      if obj.Prim? {
        AddPrimitiveToIndex(obj.p, id);
        return;
      }
      AddLeaves(Walk(obj, filter, []), id);
    }

    /** The traversal of `addToIndex` (index.js:213-219): each leaf in turn. */
    method AddLeaves(leaves: seq<Leaf>, id: nat)
      requires |indexes| == config.indexAmount
      modifies this
      ensures indexes == AddTexts(old(indexes), LeafTexts(leaves, config.ignoreCase), id)
      ensures singleDataCounter == old(singleDataCounter) + |leaves|
      ensures config == old(config) && data == old(data) && dataPtr == old(dataPtr) && freeSlots == old(freeSlots)
    {
      ghost var start, ic := indexes, config.ignoreCase;
      var k := 0;
      while k < |leaves|
        invariant 0 <= k <= |leaves| && |indexes| == config.indexAmount
        invariant indexes == AddTexts(start, LeafTexts(leaves[..k], ic), id)
        invariant singleDataCounter == old(singleDataCounter) + k
        invariant config == old(config) && data == old(data) && dataPtr == old(dataPtr) && freeSlots == old(freeSlots)
      {
        AddLeafStep(start, leaves, k, ic, id);
        AddPrimitiveToIndex(leaves[k].value, id);
        k := k + 1;
      }
      assert leaves[..k] == leaves;
    }

    /** The primitive branch of `addToIndex` (index.js:172-211): on each level
        `i` the text's distinct shingles of length `i + 1` list `id`; the loop
        stops at the first level with no shingles. */
    method AddPrimitiveToIndex(p: Primitive, id: nat)
      requires |indexes| == config.indexAmount
      modifies this
      ensures indexes == AddText(old(indexes), IndexText(p, config.ignoreCase), id)
      ensures singleDataCounter == old(singleDataCounter) + 1
      ensures config == old(config) && data == old(data) && dataPtr == old(dataPtr) && freeSlots == old(freeSlots)
    {
      singleDataCounter := singleDataCounter + 1;
      var ignoreCase := config.ignoreCase;
      var text := match p
        case Str(s) => if ignoreCase then Lower(s) else s
        case Num(n) => IntText(n)
        case Bool(b) => BoolText(b);
      assert text == IndexText(p, ignoreCase);
      AddShinglesOf(text, id);
    }

    /** The level loop of `addToIndex` for one text (index.js:177-209). */
    method AddShinglesOf(text: string, id: nat)
      requires |indexes| == config.indexAmount
      modifies this
      ensures indexes == AddText(old(indexes), text, id)
      ensures config == old(config) && data == old(data) && dataPtr == old(dataPtr)
      ensures freeSlots == old(freeSlots) && singleDataCounter == old(singleDataCounter)
    {
      ghost var start := indexes;
      var i := 0;
      while i < |indexes|
        invariant 0 <= i <= |indexes| == |start| == config.indexAmount
        invariant indexes == AddTextBelow(start, text, id, i)
        invariant config == old(config) && data == old(data) && dataPtr == old(dataPtr)
        invariant freeSlots == old(freeSlots) && singleDataCounter == old(singleDataCounter)
      {
        ghost var before := indexes;
        var cut := Cut(Prim(Str(text)), i + 1);
        var parts := cut.value;
        assert indexes == before && parts == ShingleSeq(text, i + 1);
        if |parts| == 0 {
          ShinglesRunOut(start, text, id, i);
          return;
        }
        AddTextBelowStep(start, text, id, i);
        AddParts(i, parts, id);
        assert indexes == before[i := AddShingles(before[i], parts, id)];
        i := i + 1;
      }
      AddTextBelowAll(start, text, id, i);
    }

    /** The loop over `parts` on level `i` (index.js:198-208): create the entry
        when missing and push `id` unless it is listed. */
    method AddParts(i: nat, parts: seq<string>, id: nat)
      requires i < |indexes|
      modifies this
      ensures indexes == old(indexes)[i := AddShingles(old(indexes)[i], parts, id)]
      ensures config == old(config) && data == old(data) && dataPtr == old(dataPtr)
      ensures freeSlots == old(freeSlots) && singleDataCounter == old(singleDataCounter)
    {
      var j := 0;
      while j < |parts|
        invariant 0 <= j <= |parts|
        invariant indexes == old(indexes)[i := AddShingles(old(indexes)[i], parts[..j], id)]
        invariant config == old(config) && data == old(data) && dataPtr == old(dataPtr)
        invariant freeSlots == old(freeSlots) && singleDataCounter == old(singleDataCounter)
      {
        assert parts[..j + 1][..j] == parts[..j];
        var level := indexes[i];
        var ids := if parts[j] in level then level[parts[j]] else [];
        if id !in ids {
          ids := ids + [id];
        }
        indexes := indexes[i := level[parts[j] := ids]];
        j := j + 1;
      }
      assert parts[..j] == parts;
    }

    /** `search(text)` (index.js:223-364). */
    method Search(q: Option<Primitive>) returns (result: seq<Value>)
      requires Searchable()
      ensures result == SearchResult(indexes, data, config.ignoreCase, q)
    {
      if q.None? || q == Some(Str("")) {
        return [];
      }
      var text := RawText(q.value);
      if config.ignoreCase {
        text := Lower(text);
      }
      RawTextLowered(q.value, config.ignoreCase);
      assert text == QueryText(q, config.ignoreCase);
      if q.value.Str? {
        assert text != "";
      } else {
        IntTextLowerFixed(if q.value.Num? then q.value.n else 0);
      }
      ghost var idx, slots, ic := indexes, data, config.ignoreCase;
      if |text| <= config.indexAmount {
        result := DirectSearch(text);
      } else {
        result := IndirectSearch(indexes, data, config.ignoreCase, text);
      }
      assert indexes == idx && data == slots && config.ignoreCase == ic;
    }

    /** The direct lookup on level `|text| - 1` (index.js:239-257). */
    method DirectSearch(text: string) returns (result: seq<Value>)
      requires Searchable() && 1 <= |text| <= config.indexAmount
      ensures result == Records(data, Get(indexes[|text| - 1], text))
    {
      var level := indexes[|text| - 1];
      if text !in level || |level[text]| == 0 {
        return [];
      }
      var ids := level[text];
      result := [];
      var i := 0;
      while i < |ids|
        invariant 0 <= i <= |ids|
        invariant result == Records(data, ids[..i])
      {
        assert ids[i] in level[text];
        assert Live(data, ids[i]);
        result := result + [data[ids[i]].value];
        i := i + 1;
      }
      assert ids[..i] == ids;
    }

    /** The indirect search over the top level (index.js:260-363). */
    static method IndirectSearch(idx: Levels, slots: Slots, ignoreCase: bool, text: string) returns (result: seq<Value>)
      requires |idx| >= 1 && IdsLive(idx, slots) && |text| > |idx|
      ensures result == Records(slots, IndirectIds(idx, slots, ignoreCase, text))
    {
      var last := idx[|idx| - 1];
      var cut := Cut(Prim(Str(text)), |idx|);
      var parts := cut.value;
      var ids, found := FoundIds(last, parts);
      if |ids| == 0 || found < |parts| {
        IndirectIdsNone(idx, slots, ignoreCase, text, parts, ids, found);
        return [];
      }
      var trueIds := CountMatches(ids, |parts|, |slots|);
      IndirectIdsSome(idx, slots, ignoreCase, text, parts, ids, found, trueIds);
      result := VerifyCandidates(slots, trueIds, text, ignoreCase);
    }

    /** Collect the lists of the parts found on the top level and count the
        parts found (index.js:270-284). */
    static method FoundIds(last: Level, parts: seq<string>) returns (ids: seq<nat>, found: nat)
      ensures ids == Found(last, parts) && found == FoundCount(last, parts)
    {
      ids := [];
      found := 0;
      var i := 0;
      while i < |parts|
        invariant 0 <= i <= |parts|
        invariant ids == Found(last, parts[..i]) && found == FoundCount(last, parts[..i])
      {
        assert parts[..i + 1][..i] == parts[..i];
        if parts[i] in last {
          found := found + 1;
          var list := last[parts[i]];
          var j := 0;
          while j < |list|
            invariant 0 <= j <= |list|
            invariant ids == Found(last, parts[..i]) + list[..j]
          {
            assert list[..j + 1] == list[..j] + [list[j]];
            ids := ids + [list[j]];
            j := j + 1;
          }
          assert list[..j] == list;
        }
        i := i + 1;
      }
      assert parts[..i] == parts;
    }

    /** Count how often each id occurs and keep, in ascending order, the ids
        seen `n` times (index.js:300-318). */
    static method CountMatches(ids: seq<nat>, n: nat, bound: nat) returns (trueIds: seq<nat>)
      requires n >= 1
      ensures trueIds == TrueMatches(ids, n, bound)
    {
      var counter := CountIds(ids);
      trueIds := SelectCounted(ids, counter, n, bound);
    }

    /** The counter object of `search`: how often each id occurs. */
    static method CountIds(ids: seq<nat>) returns (counter: map<nat, nat>)
      ensures forall x: nat :: x in counter <==> x in ids
      ensures forall x: nat :: x in counter ==> counter[x] == multiset(ids)[x]
    {
      counter := map[];
      var i := 0;
      while i < |ids|
        invariant 0 <= i <= |ids|
        invariant forall x: nat :: x in counter <==> x in ids[..i]
        invariant forall x: nat :: x in counter ==> counter[x] == multiset(ids[..i])[x]
      {
        assert ids[..i + 1] == ids[..i] + [ids[i]];
        if ids[i] !in counter {
          counter := counter[ids[i] := 0];
        }
        counter := counter[ids[i] := counter[ids[i]] + 1];
        i := i + 1;
      }
      assert ids[..i] == ids;
    }

    /** The pass over the counter's keys, in ascending order below `bound`,
        keeping those counted `n` times. */
    static method SelectCounted(ids: seq<nat>, counter: map<nat, nat>, n: nat, bound: nat) returns (trueIds: seq<nat>)
      requires n >= 1
      requires forall x: nat :: x in counter <==> x in ids
      requires forall x: nat :: x in counter ==> counter[x] == multiset(ids)[x]
      ensures trueIds == TrueMatches(ids, n, bound)
    {
      trueIds := [];
      var key := 0;
      while key < bound
        invariant 0 <= key <= bound
        invariant trueIds == TrueMatches(ids, n, key)
      {
        if key in counter && counter[key] == n {
          trueIds := trueIds + [key];
        } else {
          assert multiset(ids)[key] != n;
        }
        key := key + 1;
      }
    }

    /** Check each candidate against the whole term (index.js:322-363). */
    static method VerifyCandidates(slots: Slots, trueIds: seq<nat>, text: string, ignoreCase: bool) returns (result: seq<Value>)
      requires forall x: nat :: x in trueIds ==> Live(slots, x)
      ensures result == Records(slots, Verified(slots, trueIds, text, ignoreCase))
    {
      result := [];
      ghost var kept: seq<nat> := [];
      var i := 0;
      while i < |trueIds|
        invariant 0 <= i <= |trueIds|
        invariant kept == Verified(slots, trueIds[..i], text, ignoreCase)
        invariant forall x: nat :: x in kept ==> Live(slots, x)
        invariant result == Records(slots, kept)
      {
        VerifiedStep(slots, trueIds, i, text, ignoreCase);
        var x := trueIds[i];
        var v := slots[x].value;
        var keep := VerifyCandidate(v, text, ignoreCase);
        ghost var next := kept + (if keep then [x] else []);
        assert next == Verified(slots, trueIds[..i + 1], text, ignoreCase);
        if keep {
          RecordsSnoc(slots, kept, x);
          result := result + [v];
        }
        kept := next;
        i := i + 1;
      }
      assert trueIds[..i] == trueIds;
    }

    /** The check of one candidate (index.js:328-361): a string is searched in
        lower case, a number or boolean passes when `indexOf` is truthy, a
        structure goes through `traverseCheck`. */
    static method VerifyCandidate(v: Value, text: string, ignoreCase: bool) returns (keep: bool)
      ensures keep == Keep(v, text, ignoreCase)
    {
      if v.Prim? && v.p.Str? {
        keep := IndexOf(Lower(v.p.s), text) > -1;
      } else if v.Prim? {
        keep := IndexOf(RawText(v.p), text) != 0;
      } else {
        keep := TraverseCheck(v, text, ignoreCase);
      }
    }

    /** `traverseCheck(obj, search, result)` (index.js:122-149): walk every
        leaf, no filter, until one contains the term; the `result.match` flag
        becomes the returned boolean. */
    static method TraverseCheck(obj: Value, search: string, ignoreCase: bool) returns (matched: bool)
      ensures matched == CheckText(obj, search, ignoreCase)
    {
      var leaves := Walk(obj, None, []);
      ghost var texts := LeafTexts(leaves, ignoreCase);
      matched := false;
      var k := 0;
      while k < |leaves|
        invariant 0 <= k <= |leaves|
        invariant matched <==> exists j :: 0 <= j < k && Contains(texts[j], search)
      {
        if !matched {
          var v := RawText(leaves[k].value);
          if ignoreCase {
            v := Lower(v);
          }
          RawTextLowered(leaves[k].value, ignoreCase);
          assert v == texts[k];
          if IndexOf(v, search) > -1 {
            matched := true;
          }
        }
        k := k + 1;
      }
    }

    /** `removeData(data_index)` (index.js:366-375): empty the slot and list
        it as free. */
    method RemoveData(id: nat)
      requires id < |data|
      modifies this
      ensures data == old(data)[id := None] && freeSlots == old(freeSlots) + [id]
      ensures config == old(config) && indexes == old(indexes) && dataPtr == old(dataPtr)
      ensures singleDataCounter == old(singleDataCounter)
    {
      data := data[id := None];
      freeSlots := freeSlots + [id];
    }

    /** `removePrimitve(text, data_index)` (index.js:429-476). A text no longer
        than `index_amount` has its own entry on level `|text| - 1`, which must
        exist (the source reads `.length` of it otherwise, and of level -1 for
        the empty text); a longer text is cut into shingles of the top level,
        and the ones that are keys there lose `id`. */
    method RemovePrimitive(text: string, id: nat) returns (r: Outcome<RemoveError>)
      requires config.indexAmount >= 1 && |indexes| == config.indexAmount
      modifies this
      ensures |indexes| == |old(indexes)|
      ensures |text| == 0 ==> r == Fail(MissingEntry(text)) && indexes == old(indexes)
      ensures 1 <= |text| <= |old(indexes)| && text in old(indexes)[|text| - 1] ==>
        r == Pass && indexes == old(indexes)[|text| - 1 := PurgeStep(old(indexes)[|text| - 1], text, id)]
      ensures 1 <= |text| <= |old(indexes)| && text !in old(indexes)[|text| - 1] ==>
        r == Fail(MissingEntry(text)) && indexes == old(indexes)
      ensures |text| > |old(indexes)| ==>
        r == Pass && indexes == old(indexes)[|indexes| - 1 := PurgeKeys(old(indexes)[|indexes| - 1], ShingleSet(text, |indexes|), id)]
      ensures config == old(config) && data == old(data) && dataPtr == old(dataPtr)
      ensures freeSlots == old(freeSlots) && singleDataCounter == old(singleDataCounter)
    {
      if |text| <= config.indexAmount {
        if |text| == 0 {
          return Fail(MissingEntry(text));
        }
        var l := |text| - 1;
        if text !in indexes[l] {
          return Fail(MissingEntry(text));
        }
        var ids := RemoveFromArray(indexes[l][text], id);
        if |ids| == 0 {
          indexes := indexes[l := indexes[l] - {text}];
        } else {
          indexes := indexes[l := indexes[l][text := ids]];
        }
        return Pass;
      }
      var top := |indexes| - 1;
      ghost var idx := indexes;
      var cut := Cut(Prim(Str(text)), |indexes|);
      var parts := cut.value;
      assert indexes == idx && parts == ShingleSeq(text, |indexes|);
      PurgeTop(parts, id);
      r := Pass;
    }

    /** The loop of `removePrimitve` over the shingles of a long text
        (index.js:455-472): a shingle that is a key of the top level loses
        `id`, one that is not is skipped. */
    method PurgeTop(parts: seq<string>, id: nat)
      requires |indexes| >= 1
      modifies this
      ensures |indexes| == |old(indexes)|
      ensures indexes == old(indexes)[|indexes| - 1 := PurgeKeys(old(indexes)[|indexes| - 1], (set s | s in parts), id)]
      ensures config == old(config) && data == old(data) && dataPtr == old(dataPtr)
      ensures freeSlots == old(freeSlots) && singleDataCounter == old(singleDataCounter)
    {
      var top := |indexes| - 1;
      ghost var seen: set<string> := {};
      PurgeKeysNone(old(indexes)[top], id);
      var i := 0;
      while i < |parts|
        invariant 0 <= i <= |parts| && |indexes| == |old(indexes)|
        invariant forall s :: s in seen <==> s in parts[..i]
        invariant indexes == old(indexes)[top := PurgeKeys(old(indexes)[top], seen, id)]
        invariant config == old(config) && data == old(data) && dataPtr == old(dataPtr)
        invariant freeSlots == old(freeSlots) && singleDataCounter == old(singleDataCounter)
      {
        assert parts[..i + 1] == parts[..i] + [parts[i]];
        PurgeKeysStep(old(indexes)[top], seen, parts[i], id);
        var level := indexes[top];
        if parts[i] in level {
          var ids := RemoveFromArray(level[parts[i]], id);
          if |ids| == 0 {
            indexes := indexes[top := level - {parts[i]}];
          } else {
            indexes := indexes[top := level[parts[i] := ids]];
          }
        }
        seen := seen + {parts[i]};
        i := i + 1;
      }
      assert parts[..i] == parts;
      assert seen == set s | s in parts;
    }

    /** The loop of `remove` over the parts of one level (index.js:397-402 and
        index.js:418-423): each part loses `id` until a part has no entry.
        `removed` is the set of parts handled. */
    method RemoveParts(i: nat, parts: seq<string>, id: nat) returns (r: Outcome<RemoveError>, ghost removed: set<string>)
      requires config.indexAmount >= 1 && |indexes| == config.indexAmount && i < |indexes|
      requires NoDup(parts) && forall j :: 0 <= j < |parts| ==> |parts[j]| == i + 1
      modifies this
      ensures |indexes| == |old(indexes)|
      ensures indexes == old(indexes)[i := PurgeKeys(old(indexes)[i], removed, id)]
      ensures removed <= old(indexes)[i].Keys
      ensures r.Pass? <==> AllKeys(old(indexes)[i], parts)
      ensures r.Pass? ==> removed == set s | s in parts
      ensures r.Fail? ==>
        && r.error.MissingEntry?
        && exists j :: 0 <= j < |parts| && parts[j] == r.error.text && parts[j] !in old(indexes)[i] && removed == set s | s in parts[..j]
      ensures config == old(config) && data == old(data) && dataPtr == old(dataPtr)
      ensures freeSlots == old(freeSlots) && singleDataCounter == old(singleDataCounter)
    {
      removed := {};
      PurgeKeysNone(old(indexes)[i], id);
      var j := 0;
      while j < |parts|
        invariant 0 <= j <= |parts| && |indexes| == |old(indexes)| == config.indexAmount
        invariant forall s :: s in removed <==> s in parts[..j]
        invariant removed <= old(indexes)[i].Keys && AllKeys(old(indexes)[i], parts[..j])
        invariant indexes == old(indexes)[i := PurgeKeys(old(indexes)[i], removed, id)]
        invariant config == old(config) && data == old(data) && dataPtr == old(dataPtr)
        invariant freeSlots == old(freeSlots) && singleDataCounter == old(singleDataCounter)
      {
        assert parts[..j + 1] == parts[..j] + [parts[j]];
        assert parts[j] !in parts[..j];
        r := RemovePrimitive(parts[j], id);
        if r.Fail? {
          assert parts[j] !in PurgeKeys(old(indexes)[i], removed, id);
          PurgeKeysOutside(old(indexes)[i], removed, parts[j], id);
          assert parts[j] in parts && parts[j] !in old(indexes)[i];
          assert removed == set s | s in parts[..j];
          return;
        }
        PurgeKeysOutside(old(indexes)[i], removed, parts[j], id);
        PurgeKeysStep(old(indexes)[i], removed, parts[j], id);
        removed := removed + {parts[j]};
        j := j + 1;
      }
      assert parts[..j] == parts;
      r := Pass;
    }

    /** One level of `remove` for one text (index.js:396-403): cut the text
        into its distinct shingles of length `i + 1` and remove each. */
    method RemoveLevel(text: string, i: nat, id: nat) returns (r: Outcome<RemoveError>, ghost removed: set<string>)
      requires config.indexAmount >= 1 && |indexes| == config.indexAmount && i < |indexes|
      modifies this
      ensures |indexes| == |old(indexes)|
      ensures indexes == old(indexes)[i := PurgeKeys(old(indexes)[i], removed, id)]
      ensures removed <= old(indexes)[i].Keys
      ensures r.Pass? <==> AllKeys(old(indexes)[i], ShingleSeq(text, i + 1))
      ensures r.Pass? ==> removed == ShingleSet(text, i + 1)
      ensures r.Fail? ==> r.error.MissingEntry? && r.error.text in ShingleSeq(text, i + 1) && r.error.text !in old(indexes)[i]
      ensures config == old(config) && data == old(data) && dataPtr == old(dataPtr)
      ensures freeSlots == old(freeSlots) && singleDataCounter == old(singleDataCounter)
    {
      ghost var idx := indexes;
      var cut := Cut(Prim(Str(text)), i + 1);
      var parts := cut.value;
      assert indexes == idx && parts == ShingleSeq(text, i + 1);
      CutParts(text, i + 1);
      r, removed := RemoveParts(i, parts, id);
    }

    /** The level loop of `remove` for one text: on every level, its distinct
        shingles of that length. `done` holds the keys handled per level. */
    method RemoveShingles(text: string, id: nat) returns (r: Outcome<RemoveError>, ghost done: seq<set<string>>)
      requires config.indexAmount >= 1 && |indexes| == config.indexAmount
      modifies this
      ensures Within(done, old(indexes)) && indexes == Purged(old(indexes), done, id)
      ensures r.Pass? <==> KeysPresent(old(indexes), text)
      ensures r.Pass? ==> done == ShinglesBelow(text, |old(indexes)|, |old(indexes)|)
      ensures r.Fail? ==>
        && r.error.MissingEntry?
        && exists l :: 0 <= l < |old(indexes)| && KeysBelow(old(indexes), text, l) &&
             r.error.text in ShingleSeq(text, l + 1) && r.error.text !in old(indexes)[l]
      ensures Covers(old(indexes), text, id) ==> r.Pass?
      ensures config == old(config) && data == old(data) && dataPtr == old(dataPtr)
      ensures freeSlots == old(freeSlots) && singleDataCounter == old(singleDataCounter)
    {
      if Covers(indexes, text, id) {
        CoversKeysPresent(indexes, text, id);
      }
      done := ShinglesBelow(text, 0, |indexes|);
      PurgedNone(indexes, text, id);
      var i := 0;
      while i < |indexes|
        invariant 0 <= i <= |indexes| == |old(indexes)| == config.indexAmount
        invariant done == ShinglesBelow(text, i, |indexes|)
        invariant Within(done, old(indexes)) && indexes == Purged(old(indexes), done, id)
        invariant KeysBelow(old(indexes), text, i)
        invariant config == old(config) && data == old(data) && dataPtr == old(dataPtr)
        invariant freeSlots == old(freeSlots) && singleDataCounter == old(singleDataCounter)
      {
        ShinglesBelowStep(text, i, |indexes|);
        PurgeKeysNone(old(indexes)[i], id);
        ghost var level := indexes[i];
        assert level == old(indexes)[i];
        ghost var removed;
        r, removed := RemoveLevel(text, i, id);
        PurgedStep(old(indexes), done, i, removed, id);
        done := done[i := removed];
        KeysBelowStep(old(indexes), text, i);
        if r.Fail? {
          return;
        }
        i := i + 1;
      }
      r := Pass;
    }

    /** `remove(data_index)` (index.js:377-426). A primitive record loses every
        entry and its slot; a structure has each leaf's raw text (not
        lower-cased) removed, and the source throws, with the index partly
        purged and the record kept, at the first entry that is missing. */
    method Remove(id: nat) returns (outcome: Outcome<RemoveError>)
      requires Valid()
      modifies this
      ensures Valid()
      ensures !Live(old(data), id) ==>
        outcome == Fail(MissingRecord) && indexes == old(indexes) && data == old(data) && freeSlots == old(freeSlots)
      ensures Live(old(data), id) && old(data)[id].value.Prim? ==> outcome == Pass
      ensures Live(old(data), id) && !old(data)[id].value.Prim? ==>
        (outcome.Pass? <==> LeavesPass(old(indexes), Walk(old(data)[id].value, None, []), id))
      ensures outcome == Pass ==>
        indexes == PurgeAll(old(indexes), id) && data == old(data)[id := None] && freeSlots == old(freeSlots) + [id]
      ensures Live(old(data), id) && outcome.Fail? ==>
        && outcome.error.MissingEntry?
        && PartialPurgeAll(old(indexes), indexes, id)
        && data == old(data) && freeSlots == old(freeSlots)
      ensures config == old(config) && dataPtr == old(dataPtr) && singleDataCounter == old(singleDataCounter)
    {
      if id >= |data| || data[id].None? {
        return Fail(MissingRecord);
      }
      if data[id].value.Prim? {
        RemoveRecordText(id);
        return Pass;
      }
      outcome := RemoveStructure(id);
    }

    /** The string branch of `remove` (index.js:386-406), which numbers and
        booleans reach after `toString`. */
    method RemoveRecordText(id: nat)
      requires Valid() && Live(data, id) && data[id].value.Prim?
      modifies this
      ensures Valid()
      ensures indexes == PurgeAll(old(indexes), id) && data == old(data)[id := None] && freeSlots == old(freeSlots) + [id]
      ensures config == old(config) && dataPtr == old(dataPtr) && singleDataCounter == old(singleDataCounter)
    {
      var p := data[id].value.p;
      var text := RawText(p);
      if config.ignoreCase {
        text := Lower(text);
      }
      RawTextLowered(p, config.ignoreCase);
      assert Covers(indexes, text, id);
      var r, done := RemoveShingles(text, id);
      PrimitiveRemovalIsPurge(old(indexes), old(data), config.ignoreCase, id);
      RemoveData(id);
      PurgeAllPreserves(old(indexes), old(data), config.ignoreCase, id);
      SoundIdsLive(indexes, data, config.ignoreCase);
    }

    /** The object branch of `remove` (index.js:408-425): every leaf, no filter. */
    method RemoveStructure(id: nat) returns (outcome: Outcome<RemoveError>)
      requires Valid() && Live(data, id) && !data[id].value.Prim?
      modifies this
      ensures Valid()
      ensures outcome.Pass? <==> LeavesPass(old(indexes), Walk(old(data)[id].value, None, []), id)
      ensures outcome == Pass ==>
        indexes == PurgeAll(old(indexes), id) && data == old(data)[id := None] && freeSlots == old(freeSlots) + [id]
      ensures outcome.Fail? ==>
        && outcome.error.MissingEntry?
        && PartialPurgeAll(old(indexes), indexes, id)
        && data == old(data) && freeSlots == old(freeSlots)
      ensures config == old(config) && dataPtr == old(dataPtr) && singleDataCounter == old(singleDataCounter)
    {
      ghost var acc;
      outcome, acc := RemoveLeaves(Walk(data[id].value, None, []), id);
      if outcome.Fail? {
        PurgedIsPartial(old(indexes), acc, id, config.ignoreCase);
        PartialPurgePreserves(old(indexes), indexes, data, config.ignoreCase, id);
        SoundIdsLive(indexes, data, config.ignoreCase);
        return;
      }
      StructureRemovalIsPurge(old(indexes), old(data), config.ignoreCase, id, acc);
      RemoveData(id);
      PurgeAllPreserves(old(indexes), old(data), config.ignoreCase, id);
      SoundIdsLive(indexes, data, config.ignoreCase);
    }

    /** The traversal of `remove` (index.js:410-424): the raw text of every
        leaf in turn, stopping at the first missing entry. `acc` holds the
        keys handled per level. */
    method RemoveLeaves(leaves: seq<Leaf>, id: nat) returns (r: Outcome<RemoveError>, ghost acc: seq<set<string>>)
      requires config.indexAmount >= 1 && |indexes| == config.indexAmount
      modifies this
      ensures Within(acc, old(indexes)) && indexes == Purged(old(indexes), acc, id)
      ensures r.Pass? <==> LeavesPass(old(indexes), leaves, id)
      ensures r.Pass? ==> forall j :: 0 <= j < |leaves| ==> CoveredBy(RawText(leaves[j].value), acc)
      ensures r.Fail? ==> r.error.MissingEntry?
      ensures config == old(config) && data == old(data) && dataPtr == old(dataPtr)
      ensures freeSlots == old(freeSlots) && singleDataCounter == old(singleDataCounter)
    {
      ghost var start := indexes;
      acc := ShinglesBelow([], 0, |indexes|);
      PurgedNone(indexes, [], id);
      var k := 0;
      while k < |leaves|
        invariant 0 <= k <= |leaves| && |indexes| == |start| == config.indexAmount
        invariant Within(acc, start) && indexes == Purged(start, acc, id)
        invariant forall j :: 0 <= j < k ==> CoveredBy(RawText(leaves[j].value), acc)
        invariant LeavesPass(start, leaves, id) <==> LeavesPass(indexes, leaves[k..], id)
        invariant config == old(config) && data == old(data) && dataPtr == old(dataPtr)
        invariant freeSlots == old(freeSlots) && singleDataCounter == old(singleDataCounter)
      {
        var text := RawText(leaves[k].value);
        ghost var before := indexes;
        LeavesPassStep(before, leaves, k, id);
        ghost var done;
        r, done := RemoveShingles(text, id);
        assert Within(done, before) && indexes == Purged(before, done, id);
        assert r.Pass? <==> KeysPresent(before, text);
        assert r.Pass? ==> indexes == PurgedText(before, text, id);
        PurgedCompose(start, acc, done, id);
        CoveredStep(leaves, k, acc, done, r.Pass?);
        acc := Union(acc, done);
        if r.Fail? {
          return;
        }
        k := k + 1;
      }
      assert leaves[k..] == [];
      r := Pass;
    }

    /** `drop()` (index.js:487-493): empty levels, table and free list; the
        configuration and the primitive counter are kept. */
    method Drop()
      requires Valid()
      modifies this
      ensures Valid()
      ensures indexes == EmptyLevels(config.indexAmount)
      ensures data == [] && dataPtr == 0 && freeSlots == []
      ensures config == old(config) && singleDataCounter == old(singleDataCounter)
    {
      indexes := [];
      data := [];
      dataPtr := 0;
      freeSlots := [];
      Init();
      EmptyInvariant(config.indexAmount, config.ignoreCase);
    }
  }
}
