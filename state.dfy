/** What the engine's index and record table promise about each other: the
    class invariant of `FullTextSearchLight`, stated over plain values, and
    the facts that `add` and `remove` keep it. */
module IndexState {
  import opened Wrappers
  import opened Text
  import opened Sequences
  import opened Values
  import opened Shingles
  import opened IdLists
  import opened NGrams

  /** The record table `data`: a slot holds a record or, once removed, `undefined`. */
  type Slots = seq<Option<Value>>

  predicate Live(data: Slots, x: nat)
  {
    x < |data| && data[x].Some?
  }

  /** The text `addToIndex` indexes a primitive under (index.js:179-187):
      strings are lower-cased when ignore_case is set, numbers and booleans
      are rendered with `toString` and never lower-cased. */
  function IndexText(p: Primitive, ignoreCase: bool): string
  {
    match p
    case Str(s) => if ignoreCase then Lower(s) else s
    case Num(n) => IntText(n)
    case Bool(b) => BoolText(b)
  }

  /** `toString` of a leaf as `remove` computes it for the leaves of an
      object (index.js:412-414): strings are NOT lower-cased there. */
  function RawText(p: Primitive): string
  {
    match p
    case Str(s) => s
    case Num(n) => IntText(n)
    case Bool(b) => BoolText(b)
  }

  lemma IndexTextLowerFixed(p: Primitive, ignoreCase: bool)
    ensures ignoreCase ==> LowerFixed(IndexText(p, ignoreCase))
  {
    match p
    case Str(s) => LowerIsLowerFixed(s);
    case Num(n) => IntTextLowerFixed(n);
    case Bool(b) =>
  }

  function LeafTexts(leaves: seq<Leaf>, ignoreCase: bool): seq<string>
  {
    seq(|leaves|, k requires 0 <= k < |leaves| => IndexText(leaves[k].value, ignoreCase))
  }

  /** The texts of all the record's primitive leaves, no filter applied. */
  function RecordTexts(v: Value, ignoreCase: bool): seq<string>
  {
    match v
    case Prim(p) => [IndexText(p, ignoreCase)]
    case _ => LeafTexts(Walk(v, None, []), ignoreCase)
  }

  /** The index after `addToIndex(v, id, filter)` (index.js:168-221). */
  function IndexRecord(idx: Levels, v: Value, id: nat, filter: Option<Filter>, ignoreCase: bool): Levels
  {
    match v
    case Prim(p) => AddText(idx, IndexText(p, ignoreCase), id)
    case _ => AddTexts(idx, LeafTexts(Walk(v, filter, []), ignoreCase), id)
  }

  /** How many times `addToIndex` takes its primitive branch for the record. */
  function PrimitiveCount(v: Value, filter: Option<Filter>): nat
  {
    match v
    case Prim(_) => 1
    case _ => |Walk(v, filter, [])|
  }

  /** `s` occurs in one of the record's leaf texts. */
  ghost predicate Mentions(v: Value, s: string, ignoreCase: bool)
  {
    exists k :: 0 <= k < |RecordTexts(v, ignoreCase)| && IsSubstring(s, RecordTexts(v, ignoreCase)[k])
  }

  /** Every key on level `l` has length `l + 1`, its list is non-empty and
      duplicate-free, and with ignore_case set the key is in lower case. */
  ghost predicate LevelWellFormed(m: Level, l: nat, ignoreCase: bool)
  {
    forall s :: s in m ==>
      && |s| == l + 1
      && m[s] != []
      && NoDup(m[s])
      && (ignoreCase ==> LowerFixed(s))
  }

  ghost predicate WellFormed(idx: Levels, ignoreCase: bool)
  {
    forall l :: 0 <= l < |idx| ==> LevelWellFormed(idx[l], l, ignoreCase)
  }

  /** Every id a level lists is a live slot whose record mentions the key. */
  ghost predicate LevelSound(m: Level, data: Slots, ignoreCase: bool)
  {
    forall s, x :: s in m && x in m[s] ==> Live(data, x) && Mentions(data[x].value, s, ignoreCase)
  }

  ghost predicate Sound(idx: Levels, data: Slots, ignoreCase: bool)
  {
    forall l :: 0 <= l < |idx| ==> LevelSound(idx[l], data, ignoreCase)
  }

  /** Every shingle of `t` on every level lists `x`. */
  ghost predicate Covers(idx: Levels, t: string, x: nat)
  {
    forall l, s :: 0 <= l < |idx| && ShingleOf(s, t, l) ==> Has(idx[l], s, x)
  }

  /** A live primitive record is listed under all of its shingles. */
  ghost predicate Complete(idx: Levels, data: Slots, ignoreCase: bool)
  {
    forall x: nat :: Live(data, x) && data[x].value.Prim? ==>
      Covers(idx, IndexText(data[x].value.p, ignoreCase), x)
  }

  ghost predicate Invariant(idx: Levels, data: Slots, ignoreCase: bool)
  {
    WellFormed(idx, ignoreCase) && Sound(idx, data, ignoreCase) && Complete(idx, data, ignoreCase)
  }

  // ---------------------------------------------------------------------------

  lemma EmptyInvariant(k: nat, ignoreCase: bool)
    ensures Invariant(seq(k, _ => map[]), [], ignoreCase)
  {
  }

  /** Every text indexed for a record under any filter is one of its texts. */
  lemma IndexedTextsAreRecordTexts(v: Value, filter: Option<Filter>, ignoreCase: bool, s: string, l: nat)
    requires !v.Prim?
    requires ShingleOfAny(s, LeafTexts(Walk(v, filter, []), ignoreCase), l)
    ensures Mentions(v, s, ignoreCase)
  {
    var ts := LeafTexts(Walk(v, filter, []), ignoreCase);
    var k :| 0 <= k < |ts| && ShingleOf(s, ts[k], l);
    var leaf := Walk(v, filter, [])[k];
    WalkSubset(v, filter, []);
    assert leaf in Walk(v, None, []);
    var all := Walk(v, None, []);
    var j :| 0 <= j < |all| && all[j] == leaf;
    assert RecordTexts(v, ignoreCase)[j] == ts[k];
  }

  /** `add` keeps the invariant: the new record takes the next slot and is
      listed under the shingles of the leaves the filter lets through. */
  lemma AddRecordPreserves(idx: Levels, data: Slots, ignoreCase: bool, v: Value, filter: Option<Filter>)
    requires Invariant(idx, data, ignoreCase)
    ensures Invariant(IndexRecord(idx, v, |data|, filter, ignoreCase), data + [Some(v)], ignoreCase)
  {
    match v {
      case Prim(p) =>
        AddPrimWellFormed(idx, data, ignoreCase, p);
        AddPrimSound(idx, data, ignoreCase, p);
        AddPrimComplete(idx, data, ignoreCase, p);
      case _ =>
        AddObjWellFormed(idx, data, ignoreCase, v, filter);
        AddObjSound(idx, data, ignoreCase, v, filter);
        AddObjComplete(idx, data, ignoreCase, v, filter);
    }
  }

  /** A level grown by insertions stays well formed when every new key has
      the right length and case. */
  lemma GrownLevelWellFormed(m: Level, m2: Level, id: nat, l: nat, ignoreCase: bool)
    requires LevelWellFormed(m, l, ignoreCase)
    requires GrownBy(m, m2, id)
    requires forall s :: s in m2 && s !in m ==> id in m2[s] && |s| == l + 1 && (ignoreCase ==> LowerFixed(s))
    ensures LevelWellFormed(m2, l, ignoreCase)
  {
    forall s | s in m2
      ensures |s| == l + 1 && m2[s] != [] && NoDup(m2[s]) && (ignoreCase ==> LowerFixed(s))
    {
      InsertSpec(Get(m, s), id);
    }
  }

  /** A level grown by listing `id` (the slot appended to `data`) under keys
      its record mentions stays sound. */
  lemma GrownLevelSound(m: Level, m2: Level, data: Slots, v: Value, ignoreCase: bool)
    requires LevelSound(m, data, ignoreCase)
    requires forall s, x :: Has(m2, s, x) ==> Has(m, s, x) || (x == |data| && Mentions(v, s, ignoreCase))
    ensures LevelSound(m2, data + [Some(v)], ignoreCase)
  {
    var data2 := data + [Some(v)];
    forall s, x | s in m2 && x in m2[s]
      ensures Live(data2, x) && Mentions(data2[x].value, s, ignoreCase)
    {
      assert Has(m2, s, x);
      if x == |data| && Mentions(v, s, ignoreCase) {
        assert data2[x] == Some(v);
      } else {
        assert Has(m, s, x);
        assert Live(data, x) && Mentions(data[x].value, s, ignoreCase);
        assert data2[x] == data[x];
      }
    }
  }

  lemma AddPrimWellFormed(idx: Levels, data: Slots, ignoreCase: bool, p: Primitive)
    requires WellFormed(idx, ignoreCase)
    ensures WellFormed(AddText(idx, IndexText(p, ignoreCase), |data|), ignoreCase)
  {
    var t := IndexText(p, ignoreCase);
    var idx2 := AddText(idx, t, |data|);
    AddTextSpec(idx, t, |data|);
    AddTextHas(idx, t, |data|);
    IndexTextLowerFixed(p, ignoreCase);
    forall l | 0 <= l < |idx2| ensures LevelWellFormed(idx2[l], l, ignoreCase) {
      forall s | s in idx2[l] && s !in idx[l]
        ensures |s| == l + 1 && (ignoreCase ==> LowerFixed(s))
      {
        if ignoreCase {
          SubstringLowerFixed(s, t);
        }
      }
      GrownLevelWellFormed(idx[l], idx2[l], |data|, l, ignoreCase);
    }
  }

  lemma AddPrimSound(idx: Levels, data: Slots, ignoreCase: bool, p: Primitive)
    requires Sound(idx, data, ignoreCase)
    ensures Sound(AddText(idx, IndexText(p, ignoreCase), |data|), data + [Some(Prim(p))], ignoreCase)
  {
    var t := IndexText(p, ignoreCase);
    var idx2 := AddText(idx, t, |data|);
    AddTextHas(idx, t, |data|);
    assert RecordTexts(Prim(p), ignoreCase)[0] == t;
    forall l | 0 <= l < |idx2| ensures LevelSound(idx2[l], data + [Some(Prim(p))], ignoreCase) {
      GrownLevelSound(idx[l], idx2[l], data, Prim(p), ignoreCase);
    }
  }

  lemma AddPrimComplete(idx: Levels, data: Slots, ignoreCase: bool, p: Primitive)
    requires Complete(idx, data, ignoreCase)
    ensures Complete(AddText(idx, IndexText(p, ignoreCase), |data|), data + [Some(Prim(p))], ignoreCase)
  {
    var t := IndexText(p, ignoreCase);
    var idx2 := AddText(idx, t, |data|);
    var data2 := data + [Some(Prim(p))];
    AddTextHas(idx, t, |data|);
    forall x: nat | Live(data2, x) && data2[x].value.Prim?
      ensures Covers(idx2, IndexText(data2[x].value.p, ignoreCase), x)
    {
      if x < |data| {
        assert Covers(idx, IndexText(data[x].value.p, ignoreCase), x);
      }
    }
  }

  lemma AddObjWellFormed(idx: Levels, data: Slots, ignoreCase: bool, v: Value, filter: Option<Filter>)
    requires WellFormed(idx, ignoreCase)
    ensures WellFormed(AddTexts(idx, LeafTexts(Walk(v, filter, []), ignoreCase), |data|), ignoreCase)
  {
    var ts := LeafTexts(Walk(v, filter, []), ignoreCase);
    var idx2 := AddTexts(idx, ts, |data|);
    AddTextsSpec(idx, ts, |data|);
    forall l | 0 <= l < |idx2| ensures LevelWellFormed(idx2[l], l, ignoreCase) {
      forall s | s in idx2[l] && s !in idx[l]
        ensures |data| in idx2[l][s] && |s| == l + 1 && (ignoreCase ==> LowerFixed(s))
      {
        assert Has(idx2[l], s, |data|);
        var k :| 0 <= k < |ts| && ShingleOf(s, ts[k], l);
        if ignoreCase {
          IndexTextLowerFixed(Walk(v, filter, [])[k].value, ignoreCase);
          SubstringLowerFixed(s, ts[k]);
        }
      }
      GrownLevelWellFormed(idx[l], idx2[l], |data|, l, ignoreCase);
    }
  }

  lemma AddObjSound(idx: Levels, data: Slots, ignoreCase: bool, v: Value, filter: Option<Filter>)
    requires !v.Prim?
    requires Sound(idx, data, ignoreCase)
    ensures Sound(AddTexts(idx, LeafTexts(Walk(v, filter, []), ignoreCase), |data|), data + [Some(v)], ignoreCase)
  {
    var ts := LeafTexts(Walk(v, filter, []), ignoreCase);
    var idx2 := AddTexts(idx, ts, |data|);
    AddTextsSpec(idx, ts, |data|);
    forall l | 0 <= l < |idx2| ensures LevelSound(idx2[l], data + [Some(v)], ignoreCase) {
      forall s, x | Has(idx2[l], s, x) && !Has(idx[l], s, x)
        ensures x == |data| && Mentions(v, s, ignoreCase)
      {
        IndexedTextsAreRecordTexts(v, filter, ignoreCase, s, l);
      }
      GrownLevelSound(idx[l], idx2[l], data, v, ignoreCase);
    }
  }

  lemma AddObjComplete(idx: Levels, data: Slots, ignoreCase: bool, v: Value, filter: Option<Filter>)
    requires !v.Prim?
    requires Complete(idx, data, ignoreCase)
    ensures Complete(AddTexts(idx, LeafTexts(Walk(v, filter, []), ignoreCase), |data|), data + [Some(v)], ignoreCase)
  {
    var ts := LeafTexts(Walk(v, filter, []), ignoreCase);
    var idx2 := AddTexts(idx, ts, |data|);
    var data2 := data + [Some(v)];
    AddTextsSpec(idx, ts, |data|);
    forall x: nat | Live(data2, x) && data2[x].value.Prim?
      ensures Covers(idx2, IndexText(data2[x].value.p, ignoreCase), x)
    {
      assert x < |data|;
      assert Covers(idx, IndexText(data[x].value.p, ignoreCase), x);
    }
  }

  // ---------------------------------------------------------------------------
  // Removal

  lemma ShingleSetIsShingleOf(t: string, l: nat, s: string)
    ensures s in ShingleSet(t, l + 1) <==> ShingleOf(s, t, l)
  {
    CutIsDistinctSubstrings(t, l + 1);
  }

  /** A level that lost some of its entries for `id` stays well formed and
      sound, also when the slot of `id` is emptied once no list holds it. */
  lemma PartialPurgeLevel(m: Level, m2: Level, data: Slots, data2: Slots, id: nat, l: nat, ignoreCase: bool)
    requires LevelWellFormed(m, l, ignoreCase) && LevelSound(m, data, ignoreCase)
    requires PartialPurge(m, m2, id)
    requires data2 == data || (id < |data| && data2 == data[id := None] && forall s :: s in m2 ==> id !in m2[s])
    ensures LevelWellFormed(m2, l, ignoreCase) && LevelSound(m2, data2, ignoreCase)
  {
    PartialPurgeWellFormed(m, m2, id, l, ignoreCase);
    PartialPurgeSound(m, m2, data, data2, id, ignoreCase);
  }

  lemma PartialPurgeWellFormed(m: Level, m2: Level, id: nat, l: nat, ignoreCase: bool)
    requires LevelWellFormed(m, l, ignoreCase) && PartialPurge(m, m2, id)
    ensures LevelWellFormed(m2, l, ignoreCase)
  {
    forall s | s in m2
      ensures |s| == l + 1 && m2[s] != [] && NoDup(m2[s]) && (ignoreCase ==> LowerFixed(s))
    {
      assert s in m && (m2[s] == m[s] || m2[s] == Without(m[s], id));
      WithoutNoDup(m[s], id);
    }
  }

  lemma PartialPurgeSound(m: Level, m2: Level, data: Slots, data2: Slots, id: nat, ignoreCase: bool)
    requires LevelSound(m, data, ignoreCase) && PartialPurge(m, m2, id)
    requires data2 == data || (id < |data| && data2 == data[id := None] && forall s :: s in m2 ==> id !in m2[s])
    ensures LevelSound(m2, data2, ignoreCase)
  {
    forall s, x | s in m2 && x in m2[s]
      ensures Live(data2, x) && Mentions(data2[x].value, s, ignoreCase)
    {
      assert s in m && (m2[s] == m[s] || m2[s] == Without(m[s], id));
      assert x in m[s];
      assert Live(data, x) && Mentions(data[x].value, s, ignoreCase);
      if data2 != data {
        assert x != id;
        assert data2[x] == data[x];
      }
    }
  }

  /** Taking `id` out of every list and emptying its slot keeps the invariant. */
  lemma PurgeAllPreserves(idx: Levels, data: Slots, ignoreCase: bool, id: nat)
    requires Invariant(idx, data, ignoreCase)
    requires id < |data|
    ensures Invariant(PurgeAll(idx, id), data[id := None], ignoreCase)
  {
    var idx2 := PurgeAll(idx, id);
    var data2 := data[id := None];
    forall l | 0 <= l < |idx| ensures LevelWellFormed(idx2[l], l, ignoreCase) && LevelSound(idx2[l], data2, ignoreCase) {
      PurgeSpec(idx[l], id);
      assert LevelWellFormed(idx[l], l, ignoreCase);
      PurgeKeysIsPartial(idx[l], idx[l].Keys, id);
      PartialPurgeLevel(idx[l], idx2[l], data, data2, id, l, ignoreCase);
    }
    forall x: nat | Live(data2, x) && data2[x].value.Prim?
      ensures Covers(idx2, IndexText(data2[x].value.p, ignoreCase), x)
    {
      assert Covers(idx, IndexText(data[x].value.p, ignoreCase), x);
      forall l | 0 <= l < |idx| {
        PurgeSpec(idx[l], id);
      }
    }
  }

  /** An interrupted removal of a structured record (some of its entries taken
      out, the record kept) keeps the invariant. */
  lemma PartialPurgePreserves(idx: Levels, idx2: Levels, data: Slots, ignoreCase: bool, id: nat)
    requires Invariant(idx, data, ignoreCase)
    requires PartialPurgeAll(idx, idx2, id)
    requires !(Live(data, id) && data[id].value.Prim?)
    ensures Invariant(idx2, data, ignoreCase)
  {
    forall l | 0 <= l < |idx| ensures LevelWellFormed(idx2[l], l, ignoreCase) && LevelSound(idx2[l], data, ignoreCase) {
      PartialPurgeLevel(idx[l], idx2[l], data, data, id, l, ignoreCase);
    }
    forall x: nat | Live(data, x) && data[x].value.Prim?
      ensures Covers(idx2, IndexText(data[x].value.p, ignoreCase), x)
    {
      assert Covers(idx, IndexText(data[x].value.p, ignoreCase), x);
      forall l | 0 <= l < |idx| {
        PartialPurgeKeepsOthers(idx[l], idx2[l], id);
      }
    }
  }

  /** A removal whose keys reach every shingle of every text of the record
      takes the record's id out of the whole index. */
  lemma {:induction false} CoveringRemovalIsPurge(idx: Levels, data: Slots, ignoreCase: bool, id: nat, done: seq<set<string>>)
    requires Invariant(idx, data, ignoreCase)
    requires Live(data, id)
    requires |done| == |idx|
    requires forall l, s :: 0 <= l < |idx| && ShingleOfAny(s, RecordTexts(data[id].value, ignoreCase), l) ==> s in done[l]
    ensures forall l :: 0 <= l < |idx| ==> PurgeKeys(idx[l], done[l], id) == Purge(idx[l], id)
  {
    var texts := RecordTexts(data[id].value, ignoreCase);
    forall l | 0 <= l < |idx| ensures PurgeKeys(idx[l], done[l], id) == Purge(idx[l], id) {
      forall s | Has(idx[l], s, id) ensures s in done[l] {
        assert LevelSound(idx[l], data, ignoreCase);
        assert Mentions(data[id].value, s, ignoreCase);
        var k :| 0 <= k < |texts| && IsSubstring(s, texts[k]);
        assert LevelWellFormed(idx[l], l, ignoreCase);
        assert ShingleOf(s, texts[k], l);
      }
      assert LevelWellFormed(idx[l], l, ignoreCase);
      PurgeKeysCovering(idx[l], done[l], id);
    }
  }

  /** With ignore_case set, a text whose single characters are all keys of the
      first level is already in lower case. */
  lemma LowerFixedFromKeys(idx: Levels, t: string)
    requires WellFormed(idx, true)
    requires |idx| >= 1
    requires ShingleSet(t, 1) <= idx[0].Keys
    ensures LowerFixed(t)
  {
    var m := idx[0];
    assert LevelWellFormed(m, 0, true);
    forall i | 0 <= i < |t| ensures LowerChar(t[i]) == t[i] {
      KeyCharLower(m, t, i);
    }
  }

  /** One character of such a text is a first-level key, hence lower case. */
  lemma KeyCharLower(m: Level, t: string, i: nat)
    requires LevelWellFormed(m, 0, true) && ShingleSet(t, 1) <= m.Keys && i < |t|
    ensures LowerChar(t[i]) == t[i]
  {
    var c := t[i..i + 1];
    assert OccursAt(c, t, i);
    ShingleSetIsShingleOf(t, 0, c);
    assert c in m;
    assert LowerFixed(c);
    assert c[0] == t[i];
  }

  /** The text `remove` computes for a leaf is the one it was indexed under
      whenever ignore_case is off or the raw text is already lower case. */
  lemma RawTextIsIndexText(p: Primitive, ignoreCase: bool)
    requires ignoreCase ==> LowerFixed(RawText(p))
    ensures RawText(p) == IndexText(p, ignoreCase)
  {
    if p.Str? {
      LowerFixedIff(p.s);
    }
  }
}
