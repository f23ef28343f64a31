/** The queries the services run against the ledger table, as pure functions over
    the ledger sequence, and the current-balance rule built on the newest entry. */
module Repository {
  import opened Entity

  type Ledger = seq<Entry>

  /** `findLastTransaction`: the id of the entry with the highest id, deleted or not;
      nothing when the ledger is empty. */
  function LastId(l: Ledger): (r: Option<nat>)
    ensures r.None? <==> |l| == 0
    ensures r.Some? ==> r.value == |l| - 1  // positions are ids, so the last one is the highest
  {
    if |l| == 0 then None else Some(|l| - 1)
  }

  /** `getCurrentStatusBalance` / `calculateBalanceBefore`: the closing balance of the
      newest entry, or 0 for an empty ledger. */
  function Balance(l: Ledger): int
  {
    match LastId(l)
    case None => 0
    case Some(i) => l[i].balanceAfter
  }

  /** `findBySaleId`: the entry whose sale reference is `s`. A cleared reference is not
      found. When several entries carry the same reference the lowest id is returned. */
  function FindBySaleId(l: Ledger, s: SaleId): (r: Option<nat>)
    ensures r.Some? ==> r.value < |l| && l[r.value].saleRef == Some(s)
    ensures r.Some? ==> forall j :: 0 <= j < r.value ==> l[j].saleRef != Some(s)
    ensures r.None? ==> forall j :: 0 <= j < |l| ==> l[j].saleRef != Some(s)
  {
    if |l| == 0 then None
    else
      match FindBySaleId(l[..|l| - 1], s)
      case Some(j) => Some(j)
      case None => if l[|l| - 1].saleRef == Some(s) then Some(|l| - 1) else None
  }

  /** `findByDeletedFalse`: the ids of the entries not flagged deleted. The derived
      query fixes no order; this is the answer in ascending id order, and callers that
      depend on the order take any answer allowed by `ListsActive` instead. */
  function ActiveIds(l: Ledger): (r: seq<nat>)
    ensures forall k :: 0 <= k < |r| ==> r[k] < |l| && !l[r[k]].deleted
    ensures forall i :: 0 <= i < |l| && !l[i].deleted ==> i in r
    ensures forall a, b :: 0 <= a < b < |r| ==> r[a] < r[b]
  {
    if |l| == 0 then []
    else
      var rest := ActiveIds(l[..|l| - 1]);
      if l[|l| - 1].deleted then rest else rest + [|l| - 1]
  }

  /** `ids` is a possible answer of `findByDeletedFalse`: every active entry exactly
      once, in any order. */
  predicate ListsActive(l: Ledger, ids: seq<nat>)
  {
    && (forall k :: 0 <= k < |ids| ==> ids[k] < |l| && !l[ids[k]].deleted)
    && (forall a, b :: 0 <= a < b < |ids| ==> ids[a] != ids[b])
    && (forall j :: 0 <= j < |l| && !l[j].deleted ==> j in ids)
  }

  /** The ascending answer is one of the possible answers. */
  lemma ActiveIdsListsActive(l: Ledger)
    ensures ListsActive(l, ActiveIds(l))
  {
  }

  /** Page size of `getFirst20Transactions`. */
  const PageSize: nat := 20

  /** `findFirst20Transactions` with a page of `n`: the `n` newest entries, newest first. */
  function Recent(l: Ledger, n: nat): (r: seq<Entry>)
    ensures |r| == if n < |l| then n else |l|
    ensures forall k :: 0 <= k < |r| ==> r[k] == l[|l| - 1 - k]
  {
    if n == 0 || |l| == 0 then []
    else [l[|l| - 1]] + Recent(l[..|l| - 1], n - 1)
  }

  /** The stream sum `mapToInt(getAmount).sum()` over a list of entries given by id. */
  function AmountOf(l: Ledger, ids: seq<nat>): int
    requires forall k :: 0 <= k < |ids| ==> ids[k] < |l|
  {
    if |ids| == 0 then 0 else AmountOf(l, ids[..|ids| - 1]) + l[ids[|ids| - 1]].amount
  }

  /** The ids among `ids` whose entry has (`linked`) or lacks a sale reference, in order. */
  function Partition(l: Ledger, ids: seq<nat>, linked: bool): (r: seq<nat>)
    requires forall k :: 0 <= k < |ids| ==> ids[k] < |l|
    ensures forall k :: 0 <= k < |r| ==> r[k] in ids && r[k] < |l| && l[r[k]].saleRef.Some? == linked
    ensures forall k :: 0 <= k < |ids| && l[ids[k]].saleRef.Some? == linked ==> ids[k] in r
    ensures (forall a, b :: 0 <= a < b < |ids| ==> ids[a] != ids[b]) ==>
              forall a, b :: 0 <= a < b < |r| ==> r[a] != r[b]
  {
    if |ids| == 0 then []
    else
      var rest := Partition(l, ids[..|ids| - 1], linked);
      var last := ids[|ids| - 1];
      if l[last].saleRef.Some? == linked then rest + [last] else rest
  }

  /** The partition over one more id: the new id goes last or is dropped. With the
      empty input giving the empty list, this fixes the result and its order. */
  lemma PartitionSnoc(l: Ledger, ids: seq<nat>, x: nat, linked: bool)
    requires x < |l| && forall k :: 0 <= k < |ids| ==> ids[k] < |l|
    ensures Partition(l, ids + [x], linked) ==
              Partition(l, ids, linked) + (if l[x].saleRef.Some? == linked then [x] else [])
  {
    assert (ids + [x])[..|ids|] == ids;
  }

  /** `x` occurs in `ids` before an occurrence of `y`. */
  predicate Precedes(ids: seq<nat>, x: nat, y: nat)
  {
    exists i, j :: 0 <= i < j < |ids| && ids[i] == x && ids[j] == y
  }

  /** Any two elements of `r` occur in `ids` in the same order. */
  predicate OrderedWithin(r: seq<nat>, ids: seq<nat>)
  {
    forall a, b :: 0 <= a < b < |r| ==> Precedes(ids, r[a], r[b])
  }

  /** The partition keeps the input's order. */
  lemma {:induction false} PartitionKeepsOrder(l: Ledger, ids: seq<nat>, linked: bool)
    requires forall k :: 0 <= k < |ids| ==> ids[k] < |l|
    ensures OrderedWithin(Partition(l, ids, linked), ids)
    decreases |ids|
  {
    if |ids| > 0 {
      var n := |ids| - 1;
      var front := ids[..n];
      PartitionKeepsOrder(l, front, linked);
      assert front + [ids[n]] == ids;
      PartitionSnoc(l, front, ids[n], linked);
      OrderedWithinSnoc(Partition(l, front, linked), front, ids[n], l[ids[n]].saleRef.Some? == linked);
    }
  }

  /** Extending the input by one element, and the result by that element or by
      nothing, keeps the order. */
  lemma OrderedWithinSnoc(r: seq<nat>, ids: seq<nat>, x: nat, keep: bool)
    requires OrderedWithin(r, ids) && forall k :: 0 <= k < |r| ==> r[k] in ids
    ensures OrderedWithin(r + (if keep then [x] else []), ids + [x])
  {
    var r' := r + (if keep then [x] else []);
    var ids' := ids + [x];
    forall a, b | 0 <= a < b < |r'|
      ensures Precedes(ids', r'[a], r'[b])
    {
      assert r'[a] == r[a] && r[a] in ids;
      if b < |r| {
        assert r'[b] == r[b];
        var i, j :| 0 <= i < j < |ids| && ids[i] == r[a] && ids[j] == r[b];
        assert ids'[i] == r'[a] && ids'[j] == r'[b];
      } else {
        assert keep && r'[b] == x;
        var i :| 0 <= i < |ids| && ids[i] == r[a];
        assert ids'[i] == r'[a] && ids'[|ids|] == r'[b];
      }
    }
  }

  /** No two entries carry the same sale reference. */
  predicate UniqueRefs(l: Ledger)
  {
    forall i, j :: 0 <= i < |l| && 0 <= j < |l| && l[i].saleRef.Some? && l[i].saleRef == l[j].saleRef ==> i == j
  }
}
