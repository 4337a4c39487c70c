/** Id lists: the arrays of record ids an index entry holds. */
module IdLists {
  import opened Sequences

  /** Push `id` unless it is already listed (index.js:205-207). */
  function Insert(ids: seq<nat>, id: nat): seq<nat>
  {
    if id in ids then ids else ids + [id]
  }

  /** `ids` with every occurrence of `id` taken out, order kept. */
  function Without(ids: seq<nat>, id: nat): (r: seq<nat>)
    ensures forall x :: x in r <==> x in ids && x != id
  {
    if ids == [] then [] else (if ids[0] == id then [] else [ids[0]]) + Without(ids[1..], id)
  }

  /** Inserting keeps a list duplicate-free, adds exactly `id`, appends a new
      id at the end and leaves a list that already holds it alone. */
  lemma InsertSpec(ids: seq<nat>, id: nat)
    ensures NoDup(ids) ==> NoDup(Insert(ids, id))
    ensures forall x :: x in Insert(ids, id) <==> x in ids || x == id
    ensures id !in ids ==> Insert(ids, id) == ids + [id]
    ensures Insert(Insert(ids, id), id) == Insert(ids, id)
  {
  }

  lemma {:induction false} WithoutNoDup(ids: seq<nat>, id: nat)
    requires NoDup(ids)
    ensures NoDup(Without(ids, id))
  {
    if ids != [] {
      assert NoDup(ids[1..]);
      WithoutNoDup(ids[1..], id);
      assert ids[0] !in ids[1..];
    }
  }

  lemma {:induction false} WithoutAbsent(ids: seq<nat>, id: nat)
    requires id !in ids
    ensures Without(ids, id) == ids
  {
    if ids != [] {
      WithoutAbsent(ids[1..], id);
      assert [ids[0]] + ids[1..] == ids;
    }
  }

  /** Taking an id out twice is taking it out once. */
  lemma WithoutIdempotent(ids: seq<nat>, id: nat)
    ensures Without(Without(ids, id), id) == Without(ids, id)
  {
    WithoutAbsent(Without(ids, id), id);
  }

  lemma WithoutStep(ids: seq<nat>, id: nat, i: nat)
    requires i < |ids|
    ensures Without(ids[i..], id) == (if ids[i] == id then [] else [ids[i]]) + Without(ids[i + 1..], id)
  {
    assert ids[i..][0] == ids[i];
    assert ids[i..][1..] == ids[i + 1..];
  }

  /** The source's `removeFromArray` (index.js:478-484): walk from the end and
      splice out every element equal to `val`. */
  method RemoveFromArray(arr: seq<nat>, val: nat) returns (r: seq<nat>)
    ensures r == Without(arr, val)
  {
    r := arr;
    var i := |arr| - 1;
    while i > -1
      invariant -1 <= i < |arr|
      invariant r == arr[..i + 1] + Without(arr[i + 1..], val)
    {
      WithoutStep(arr, val, i);
      assert r[i] == arr[i];
      assert r[..i] == arr[..i];
      assert r[i + 1..] == Without(arr[i + 1..], val);
      if r[i] == val {
        r := r[..i] + r[i + 1..];
      }
      assert arr[..i + 1] == arr[..i] + [arr[i]];
      i := i - 1;
    }
    assert arr[0..] == arr;
  }
}
