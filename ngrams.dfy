/** The n-gram index: `indexes`, an array of levels where level `l` maps each
    shingle of length `l + 1` to the ids of the records holding it. */
module NGrams {
  import opened Text
  import opened Sequences
  import opened IdLists
  import opened Shingles

  type Level = map<string, seq<nat>>
  type Levels = seq<Level>

  /** The level lists `id` under key `s`. */
  predicate Has(m: Level, s: string, id: nat)
  {
    s in m && id in m[s]
  }

  /** Every part lists `id` on level `m`. */
  predicate AllListed(m: Level, parts: seq<string>, id: nat)
  {
    forall s :: s in parts ==> Has(m, s, id)
  }

  /** Every part is a key of level `m`. */
  predicate AllKeys(m: Level, parts: seq<string>)
  {
    forall s :: s in parts ==> s in m
  }

  /** The list a missing key reads as. */
  function Get(m: Level, s: string): seq<nat>
  {
    if s in m then m[s] else []
  }

  // ---------------------------------------------------------------------------
  // Insertion (index.js:198-208)

  /** Create the entry when missing, then push the id unless it is listed. */
  function AddShingle(m: Level, s: string, id: nat): Level
  {
    m[s := Insert(Get(m, s), id)]
  }

  /** The inner loop of `addToIndex` over `parts`. */
  function AddShingles(m: Level, parts: seq<string>, id: nat): Level
  {
    if parts == [] then m
    else AddShingle(AddShingles(m, parts[..|parts| - 1], id), parts[|parts| - 1], id)
  }

  lemma {:induction false} AddShinglesSpec(m: Level, parts: seq<string>, id: nat)
    ensures forall s :: s in AddShingles(m, parts, id) <==> s in m || s in parts
    ensures forall s :: s in parts ==> AddShingles(m, parts, id)[s] == Insert(Get(m, s), id)
    ensures forall s :: s in m && s !in parts ==> AddShingles(m, parts, id)[s] == m[s]
  {
    if parts != [] {
      var init := parts[..|parts| - 1];
      var last := parts[|parts| - 1];
      AddShinglesSpec(m, init, id);
      assert parts == init + [last];
      var r0 := AddShingles(m, init, id);
      var r := AddShingles(m, parts, id);
      assert r == r0[last := Insert(Get(r0, last), id)];
      forall s ensures s in r <==> s in m || s in parts {
        assert s in parts <==> s in init || s == last;
      }
      forall s | s in parts ensures r[s] == Insert(Get(m, s), id) {
        if s == last {
          if last in init {
            assert Get(r0, last) == Insert(Get(m, last), id);
            InsertSpec(Get(m, last), id);
          } else if last in m {
            assert Get(r0, last) == m[last];
          } else {
            assert last !in r0;
          }
        } else {
          assert s in init;
          assert r[s] == r0[s];
        }
      }
      forall s | s in m && s !in parts ensures r[s] == m[s] {
        assert s !in init && s != last;
      }
    }
  }

  /** The effect of indexing one primitive text for `id`: level `l` receives the
      shingles of length `l + 1` (levels past the text's length receive none,
      which is why the source may stop early). */
  function AddText(idx: Levels, t: string, id: nat): (r: Levels)
    ensures |r| == |idx|
  {
    seq(|idx|, l requires 0 <= l < |idx| => AddShingles(idx[l], ShingleSeq(t, l + 1), id))
  }

  /** Indexing the leaf texts of a record one after the other. */
  function AddTexts(idx: Levels, ts: seq<string>, id: nat): (r: Levels)
    ensures |r| == |idx|
  {
    if ts == [] then idx else AddText(AddTexts(idx, ts[..|ts| - 1], id), ts[|ts| - 1], id)
  }

  /** A shingle of `t` that belongs on level `l`. */
  ghost predicate ShingleOf(s: string, t: string, l: nat)
  {
    |s| == l + 1 && IsSubstring(s, t)
  }

  /** Adding a text lists `id` under every one of its shingles on every level,
      appends `id` to a list that lacked it, and changes nothing else. */
  lemma AddTextSpec(idx: Levels, t: string, id: nat)
    ensures forall l, s :: 0 <= l < |idx| ==>
      (s in AddText(idx, t, id)[l] <==> s in idx[l] || ShingleOf(s, t, l))
    ensures forall l, s :: 0 <= l < |idx| && ShingleOf(s, t, l) ==>
      AddText(idx, t, id)[l][s] == Insert(Get(idx[l], s), id)
    ensures forall l, s :: 0 <= l < |idx| && s in idx[l] && !ShingleOf(s, t, l) ==>
      AddText(idx, t, id)[l][s] == idx[l][s]
  {
    forall l | 0 <= l < |idx|
      ensures forall s :: s in AddText(idx, t, id)[l] <==> s in idx[l] || ShingleOf(s, t, l)
      ensures forall s :: ShingleOf(s, t, l) ==> AddText(idx, t, id)[l][s] == Insert(Get(idx[l], s), id)
      ensures forall s :: s in idx[l] && !ShingleOf(s, t, l) ==> AddText(idx, t, id)[l][s] == idx[l][s]
    {
      AddShinglesSpec(idx[l], ShingleSeq(t, l + 1), id);
      CutIsDistinctSubstrings(t, l + 1);
    }
  }

  /** Membership after adding a text: the old entries plus `id` under the text's shingles. */
  lemma AddTextHas(idx: Levels, t: string, id: nat)
    ensures forall l, s, x :: 0 <= l < |idx| ==>
      (Has(AddText(idx, t, id)[l], s, x) <==> Has(idx[l], s, x) || (x == id && ShingleOf(s, t, l)))
  {
    AddTextSpec(idx, t, id);
    forall l, s: string, x: nat | 0 <= l < |idx| {
      InsertSpec(Get(idx[l], s), id);
    }
  }

  /** Some text of `ts` has `s` as a shingle of level `l`. */
  ghost predicate ShingleOfAny(s: string, ts: seq<string>, l: nat)
  {
    exists k :: 0 <= k < |ts| && ShingleOf(s, ts[k], l)
  }

  /** The list under `s` after growing level `m` into `m2` is the old list or
      the old list with `id` inserted. */
  ghost predicate GrownBy(m: Level, m2: Level, id: nat)
  {
    && (forall s :: s in m ==> s in m2)
    && (forall s :: s in m2 ==> m2[s] == Get(m, s) || m2[s] == Insert(Get(m, s), id))
  }

  lemma {:induction false} AddTextsSpec(idx: Levels, ts: seq<string>, id: nat)
    ensures forall l, s :: 0 <= l < |idx| ==>
      (s in AddTexts(idx, ts, id)[l] <==> s in idx[l] || ShingleOfAny(s, ts, l))
    ensures forall l, s, x :: 0 <= l < |idx| ==>
      (Has(AddTexts(idx, ts, id)[l], s, x) <==> Has(idx[l], s, x) || (x == id && ShingleOfAny(s, ts, l)))
    ensures forall l :: 0 <= l < |idx| ==> GrownBy(idx[l], AddTexts(idx, ts, id)[l], id)
  {
    if ts != [] {
      var init := ts[..|ts| - 1];
      var last := ts[|ts| - 1];
      var mid := AddTexts(idx, init, id);
      var r := AddTexts(idx, ts, id);
      AddTextsSpec(idx, init, id);
      AddTextSpec(mid, last, id);
      AddTextHas(mid, last, id);
      forall l, s | 0 <= l < |idx|
        ensures ShingleOfAny(s, ts, l) <==> ShingleOfAny(s, init, l) || ShingleOf(s, last, l)
      {
        if ShingleOfAny(s, ts, l) {
          var k :| 0 <= k < |ts| && ShingleOf(s, ts[k], l);
          if k < |init| { assert ts[k] == init[k]; }
        }
        if ShingleOfAny(s, init, l) {
          var k :| 0 <= k < |init| && ShingleOf(s, init[k], l);
          assert ts[k] == init[k];
        }
        if ShingleOf(s, last, l) {
          assert ShingleOf(s, ts[|ts| - 1], l);
        }
      }
      forall l | 0 <= l < |idx| ensures GrownBy(idx[l], r[l], id) {
        forall s | s in r[l] ensures r[l][s] == Get(idx[l], s) || r[l][s] == Insert(Get(idx[l], s), id) {
          InsertSpec(Get(idx[l], s), id);
          InsertSpec(Get(mid[l], s), id);
        }
      }
    }
  }

  // ---------------------------------------------------------------------------
  // Removal (index.js:429-453 and index.js:478-484)

  /** `removeFromArray` on the list under `s`, then `delete` the key when the
      list became empty; a missing key is left alone. */
  function PurgeStep(m: Level, s: string, id: nat): Level
  {
    if s !in m then m
    else
      var l := Without(m[s], id);
      if l == [] then m - {s} else m[s := l]
  }

  /** Taking `id` out of the lists under `keys` and deleting the keys whose list
      became empty; every other key keeps its list. */
  function PurgeKeys(m: Level, keys: set<string>, id: nat): Level
  {
    map s | s in m && (s !in keys || Without(m[s], id) != []) :: if s in keys then Without(m[s], id) else m[s]
  }

  /** Taking `id` out of the whole level. */
  function Purge(m: Level, id: nat): Level
  {
    PurgeKeys(m, m.Keys, id)
  }

  /** Taking `id` out of every level. */
  function PurgeAll(idx: Levels, id: nat): (r: Levels)
    ensures |r| == |idx|
  {
    seq(|idx|, l requires 0 <= l < |idx| => Purge(idx[l], id))
  }

  /** After a purge no list holds `id`; a key survives exactly when another id
      remains in its list; every other id keeps every one of its entries. */
  lemma PurgeSpec(m: Level, id: nat)
    ensures forall s :: s in Purge(m, id) ==> id !in Purge(m, id)[s] && Purge(m, id)[s] == Without(m[s], id)
    ensures forall s :: s in Purge(m, id) <==> s in m && Without(m[s], id) != []
    ensures forall s, x :: x != id ==> (Has(Purge(m, id), s, x) <==> Has(m, s, x))
  {
  }

  lemma PurgeKeysNone(m: Level, id: nat)
    ensures PurgeKeys(m, {}, id) == m
  {
  }

  /** A key left out of the purge keeps its list. */
  lemma PurgeKeysOutside(m: Level, keys: set<string>, s: string, id: nat)
    requires s !in keys
    ensures s in PurgeKeys(m, keys, id) <==> s in m
    ensures s in m ==> PurgeKeys(m, keys, id)[s] == m[s]
  {
  }

  /** One more `removePrimitve` call continues a purge of the keys seen so far. */
  lemma PurgeKeysStep(m: Level, keys: set<string>, s: string, id: nat)
    ensures PurgeStep(PurgeKeys(m, keys, id), s, id) == PurgeKeys(m, keys + {s}, id)
  {
    var cur := PurgeKeys(m, keys, id);
    var lhs := PurgeStep(cur, s, id);
    var rhs := PurgeKeys(m, keys + {s}, id);
    if s in keys && s in cur {
      WithoutIdempotent(m[s], id);
    }
    assert forall k :: k in lhs <==> k in rhs;
  }

  /** Purging in two rounds is purging the union of the keys at once. */
  lemma PurgeKeysCompose(m: Level, a: set<string>, b: set<string>, id: nat)
    ensures PurgeKeys(PurgeKeys(m, a, id), b, id) == PurgeKeys(m, a + b, id)
  {
    var mid := PurgeKeys(m, a, id);
    var lhs := PurgeKeys(mid, b, id);
    var rhs := PurgeKeys(m, a + b, id);
    forall s | s in mid && s in a ensures Without(mid[s], id) == mid[s] {
      WithoutIdempotent(m[s], id);
    }
    assert forall k :: k in lhs <==> k in rhs;
  }

  /** A purge that reached every key listing `id` is the whole purge. */
  lemma PurgeKeysCovering(m: Level, keys: set<string>, id: nat)
    requires forall s :: s in m ==> m[s] != []
    requires forall s :: Has(m, s, id) ==> s in keys
    ensures PurgeKeys(m, keys, id) == Purge(m, id)
  {
    forall s | s in m && s !in keys ensures Without(m[s], id) == m[s] {
      WithoutAbsent(m[s], id);
    }
    assert forall k :: k in PurgeKeys(m, keys, id) <==> k in Purge(m, id);
  }

  /** Level `m2` is `m` with `id` taken out of some lists, and with keys deleted
      only where that left the list empty. */
  ghost predicate PartialPurge(m: Level, m2: Level, id: nat)
  {
    && (forall s :: s in m2 ==> s in m && m2[s] != [] && (m2[s] == m[s] || m2[s] == Without(m[s], id)))
    && (forall s :: s in m && s !in m2 ==> Without(m[s], id) == [])
  }

  ghost predicate PartialPurgeAll(idx: Levels, idx2: Levels, id: nat)
  {
    |idx2| == |idx| && forall l :: 0 <= l < |idx| ==> PartialPurge(idx[l], idx2[l], id)
  }

  lemma PurgeKeysIsPartial(m: Level, keys: set<string>, id: nat)
    requires forall s :: s in m ==> m[s] != []
    ensures PartialPurge(m, PurgeKeys(m, keys, id), id)
  {
  }

  /** A partial purge takes out nothing but `id`: every other id keeps its entries. */
  lemma PartialPurgeKeepsOthers(m: Level, m2: Level, id: nat)
    requires PartialPurge(m, m2, id)
    ensures forall s, x :: x != id ==> (Has(m2, s, x) <==> Has(m, s, x))
    ensures forall s, x :: Has(m2, s, x) ==> Has(m, s, x)
  {
  }
}
