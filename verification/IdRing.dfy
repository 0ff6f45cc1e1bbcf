/**
  The circular table of free request ids, used by both directions: ids are taken
  at one index and put back, in any order, at another. Places in the table are
  counted without wrapping, so the free ids are the places lo..hi-1.
 */
module IdRing {
  import opened Words
  import opened Tally

  /** The free ids in the order in which they will be taken. */
  function FreeIds(table: seq<nat>, lo: nat, hi: nat): (ids: seq<nat>)
    requires |table| > 0 && lo <= hi
    ensures |ids| == hi - lo
  {
    seq(hi - lo, k requires 0 <= k => table[Slot(|table|, lo + k)])
  }

  /** Places lo..hi-1 hold each unused id exactly once: `place` finds it there. */
  ghost predicate Partition(table: seq<nat>, lo: nat, hi: nat, used: seq<nat>, place: seq<nat>) {
    && |table| == |used| == |place| > 0
    && (forall p {:trigger Slot(|table|, p)} :: lo <= p < hi ==>
          var id := table[Slot(|table|, p)]; id < |table| && used[id] == 0 && place[id] == p)
    && (forall id :: 0 <= id < |table| && used[id] == 0 ==>
          lo <= place[id] < hi && table[Slot(|table|, place[id])] == id)
  }

  /** Free and used ids are exactly 0..size-1, each once. */
  lemma {:induction false} PartitionIsExact(table: seq<nat>, lo: nat, hi: nat, used: seq<nat>, place: seq<nat>)
    requires Partition(table, lo, hi, used, place) && lo <= hi
    ensures var ids := FreeIds(table, lo, hi);
            && (forall a, b :: 0 <= a < b < |ids| ==> ids[a] != ids[b])
            && (forall a :: 0 <= a < |ids| ==> ids[a] < |table|)
            && (forall id: nat :: id < |table| ==> (id in ids <==> used[id] == 0))
  {
    var ids := FreeIds(table, lo, hi);
    forall a | 0 <= a < |ids|
      ensures ids[a] < |table| && used[ids[a]] == 0 && place[ids[a]] == lo + a
    {
      assert ids[a] == table[Slot(|table|, lo + a)];
    }
    forall id: nat | id < |table| && used[id] == 0 ensures id in ids {
      assert ids[place[id] - lo] == id;
    }
  }

  /** Taking the first free id, which is unused, leaves the rest of the window free. */
  lemma {:induction false} TakeId(table: seq<nat>, lo: nat, hi: nat, used: seq<nat>, place: seq<nat>, w: nat)
    requires Partition(table, lo, hi, used, place) && lo < hi && w > 0
    ensures var id := table[Slot(|table|, lo)];
            && id < |table| && used[id] == 0
            && Partition(table, lo + 1, hi, used[id := w], place)
            && FreeIds(table, lo, hi) == [id] + FreeIds(table, lo + 1, hi)
  {
    var id := table[Slot(|table|, lo)];
    assert place[id] == lo;
  }

  /** An id that was in use is put back behind the free ones. */
  lemma {:induction false} PutId(table: seq<nat>, lo: nat, hi: nat, used: seq<nat>, place: seq<nat>, id: nat)
    requires Partition(table, lo, hi, used, place) && lo <= hi < lo + |table|
    requires id < |table| && used[id] > 0
    ensures var table' := table[Slot(|table|, hi) := id];
            && Partition(table', lo, hi + 1, used[id := 0], place[id := hi])
            && FreeIds(table', lo, hi + 1) == FreeIds(table, lo, hi) + [id]
  {
    var q := |table|;
    var table' := table[Slot(q, hi) := id];
    forall p {:trigger Slot(q, p)} | lo <= p < hi ensures table'[Slot(q, p)] == table[Slot(q, p)] {
      SlotsDistinct(q, p, hi);
    }
    assert FreeIds(table', lo, hi + 1) == FreeIds(table, lo, hi) + [id];
  }

  lemma {:induction false} FreshPartition(n: nat)
    requires n > 0
    ensures Partition(seq(n, i => i), 0, n, seq(n, _ => 0), seq(n, i => i))
  {
    forall p | 0 <= p < n ensures Slot(n, p) == p {
      FirstLap(n, p);
    }
  }

  /** Puts ids back, in order, at the places from `hi` on. */
  function PutIds(table: seq<nat>, hi: nat, ids: seq<nat>): (r: seq<nat>)
    requires |table| > 0
    ensures |r| == |table|
  {
    if ids == [] then table
    else var n := |ids| - 1; PutIds(table, hi, ids[..n])[Slot(|table|, hi + n) := ids[n]]
  }

  /** A slot that is written to forgets what it held. */
  lemma {:induction false} PutsAgree(t: seq<nat>, u: seq<nat>, hi: nat, ids: seq<nat>, i: nat)
    requires |t| == |u| > i
    requires t[i] == u[i] || exists p {:trigger Slot(|t|, p)} :: hi <= p < hi + |ids| && Slot(|t|, p) == i
    ensures PutIds(t, hi, ids)[i] == PutIds(u, hi, ids)[i]
  {
    if ids != [] {
      var n := |ids| - 1;
      if Slot(|t|, hi + n) != i {
        PutsAgree(t, u, hi, ids[..n], i);
      }
    }
  }

  /** Putting all ids back over a start of the same ids gives what putting them back once gives. */
  lemma {:induction false} PutAgain(table: seq<nat>, hi: nat, ids: seq<nat>, k: nat)
    requires |table| > 0 && k <= |ids|
    ensures PutIds(PutIds(table, hi, ids[..k]), hi, ids) == PutIds(table, hi, ids)
  {
    if k > 0 {
      var t, u := PutIds(table, hi, ids[..k - 1]), PutIds(table, hi, ids[..k]);
      assert ids[..k][..k - 1] == ids[..k - 1];
      forall i | 0 <= i < |table| ensures PutIds(u, hi, ids)[i] == PutIds(t, hi, ids)[i] {
        var j := k - 1;
        assert u == t[Slot(|table|, hi + j) := ids[j]];
        assert u[i] == t[i] || Slot(|table|, hi + j) == i;
        PutsAgree(u, t, hi, ids, i);
      }
      assert PutIds(u, hi, ids) == PutIds(t, hi, ids);
      PutAgain(table, hi, ids, k - 1);
    }
  }
}
