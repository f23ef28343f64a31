/** The bulk removals compared with their one-at-a-time counterparts. On a well-formed
    state:
    - the loop of `deleteAllSales` writes exactly what `deleteSaleById` applied to each
      sale in turn writes;
    - `deleteAllTransactions` reverses every active entry, leaves no sale behind, and
      ends at a balance of zero. */
module Bulk {
  import opened Entity
  import opened Repository
  import opened Chain
  import opened SaleService
  import opened TransactionService
  import opened Invariants

  /** The ledger of a state-valued result, with the error passed through. */
  function LedgerOf(r: Result<State>): Result<Ledger>
  {
    match r
    case Ok(st) => Ok(st.ledger)
    case Err(e) => Err(e)
  }

  /** Removing sales one at a time keeps the invariant. */
  lemma {:induction false} DeleteSalesInOrderKeepsWellFormed(st: State, order: seq<SaleId>, actor: Option<UserId>)
    requires WellFormed(st)
    ensures DeleteSalesInOrder(st, order, actor).Ok? ==> WellFormed(DeleteSalesInOrder(st, order, actor).value)
    decreases |order|
  {
    if |order| > 0 {
      DeleteSaleKeepsWellFormed(st, order[0], actor);
      var r := DeleteSale(st, order[0], actor);
      if r.Ok? {
        DeleteSalesInOrderKeepsWellFormed(r.value, order[1..], actor);
      }
    }
  }

  /** Every stored sale's linked entry exists and is active. The invariant implies
      it, and unlike the invariant it is all that removing sales one by one needs. */
  predicate ActiveLinks(st: State)
  {
    && Linked(st)
    && forall s :: s in st.sales ==> !st.ledger[FindBySaleId(st.ledger, s).value].deleted
  }

  lemma WellFormedActiveLinks(st: State)
    requires WellFormed(st)
    ensures ActiveLinks(st)
  {
  }

  lemma DeleteSaleKeepsActiveLinks(st: State, id: SaleId, actor: Option<UserId>)
    requires ActiveLinks(st)
    ensures DeleteSale(st, id, actor).Ok? ==> ActiveLinks(DeleteSale(st, id, actor).value)
  {
    DeleteSaleKeepsLinked(st, id, actor);
    var r := DeleteSale(st, id, actor);
    if id in st.sales && r.Ok? {
      var l := st.ledger;
      var k := FindBySaleId(l, id).value;
      ReversedKeepsOtherFinds(l, r.value.ledger, k, -st.sales[id].amount);
      forall t | t in r.value.sales
        ensures !r.value.ledger[FindBySaleId(r.value.ledger, t).value].deleted
      {
        assert FindBySaleId(r.value.ledger, t) == FindBySaleId(l, t);
        assert FindBySaleId(l, t).value != k;
      }
    }
  }

  /** On stored sales with active linked entries, the loop of `deleteAllSales`, which
      reads the sale data from a snapshot `sales` and never looks at the deleted flag,
      writes the same ledger as `deleteSaleById` applied to each listed sale in turn,
      and fails exactly when that sequence fails. */
  lemma {:induction false} CompensateSalesAsDeletes(st: State, sales: map<SaleId, Sale>, order: seq<SaleId>,
                                                    actor: Option<UserId>)
    requires ActiveLinks(st)
    requires forall i :: 0 <= i < |order| ==> order[i] in st.sales
    requires forall t :: t in st.sales ==> t in sales && st.sales[t] == sales[t]
    requires forall i, j :: 0 <= i < j < |order| ==> order[i] != order[j]
    ensures CompensateSales(st.ledger, sales, order, actor) == LedgerOf(DeleteSalesInOrder(st, order, actor))
    decreases |order|
  {
    if |order| > 0 {
      var s := order[0];
      DeleteAgreesWithCompensate(st, sales, s, actor);
      DeleteSaleKeepsActiveLinks(st, s, actor);
      var d := DeleteSale(st, s, actor);
      if d.Ok? {
        var rest := order[1..];
        assert forall i :: 0 <= i < |rest| ==> rest[i] == order[i + 1] && order[i + 1] != s;
        CompensateSalesAsDeletes(d.value, sales, rest, actor);
      }
    }
  }

  /** One step of the comparison: when a sale's linked entry is active,
      `deleteSaleById` and one pass of the loop of `deleteAllSales` over the same sale
      write the same ledger. */
  lemma {:induction false} DeleteAgreesWithCompensate(st: State, sales: map<SaleId, Sale>, s: SaleId, actor: Option<UserId>)
    requires s in st.sales && s in sales && st.sales[s] == sales[s]
    requires FindBySaleId(st.ledger, s).Some? && !st.ledger[FindBySaleId(st.ledger, s).value].deleted
    ensures CompensateSale(st.ledger, sales, s, actor) == LedgerOf(DeleteSale(st, s, actor))
  {
  }

  /** `deleteAllSales`, when every sale's linked entry is active (as on a well-formed
      state), succeeds exactly when its pre-check passes and removing the sales one
      at a time succeeds, and then it ends in the same state. */
  lemma {:induction false} DeleteAllSalesIsSequential(st: State, order: seq<SaleId>, actor: Option<UserId>)
    requires ActiveLinks(st) && Enumerates(order, st.sales)
    ensures DeleteAllSales(st, order, actor).Ok? <==>
              SaleSum(st.sales, order) <= Balance(st.ledger) && DeleteSalesInOrder(st, order, actor).Ok?
    ensures DeleteAllSales(st, order, actor).Ok? ==>
              DeleteAllSales(st, order, actor).value.0 == DeleteSalesInOrder(st, order, actor).value
  {
    CompensateSalesAsDeletes(st, st.sales, order, actor);
    var d := DeleteSalesInOrder(st, order, actor);
    var c := CompensateSales(st.ledger, st.sales, order, actor);
    assert c == LedgerOf(d);
    InOrderRemovesAll(st, order, actor);
    if d.Ok? {
      assert d.value == State(c.value, map[], st.nextSaleId);
    }
  }

  /** Removing the sales of an enumeration one at a time leaves no sale. */
  lemma InOrderRemovesAll(st: State, order: seq<SaleId>, actor: Option<UserId>)
    requires Linked(st) && Enumerates(order, st.sales)
    ensures DeleteSalesInOrder(st, order, actor).Ok? ==> DeleteSalesInOrder(st, order, actor).value.sales == map[]
  {
    assert forall s :: s in st.sales ==> s in Listed(order);
  }

  lemma DeleteAllSalesKeepsWellFormed(st: State, order: seq<SaleId>, actor: Option<UserId>)
    requires WellFormed(st) && Enumerates(order, st.sales)
    ensures DeleteAllSales(st, order, actor).Ok? ==> WellFormed(DeleteAllSales(st, order, actor).value.0)
  {
    WellFormedActiveLinks(st);
    DeleteAllSalesIsSequential(st, order, actor);
    DeleteSalesInOrderKeepsWellFormed(st, order, actor);
  }

  /** Entry `i` is active, and when it is linked, its sale is stored with its amount
      and finds exactly this entry. */
  predicate Reversible(st: State, i: nat)
  {
    && i < |st.ledger| && !st.ledger[i].deleted
    && (st.ledger[i].saleRef.Some? ==>
          && st.ledger[i].saleRef.value in st.sales
          && FindBySaleId(st.ledger, st.ledger[i].saleRef.value) == Some(i)
          && st.sales[st.ledger[i].saleRef.value].amount == st.ledger[i].amount)
  }

  lemma WellFormedReversible(st: State, i: nat)
    requires WellFormed(st) && i < |st.ledger| && !st.ledger[i].deleted
    ensures Reversible(st, i)
  {
  }

  /** One pass of `deleteAllTransactions` over a reversible entry reverses exactly that
      entry, by the negation of its amount, and every other reversible entry stays
      reversible. A plain entry's pass always succeeds and leaves the sales alone. */
  lemma EntryPassReverses(st: State, i: nat, actor: Option<UserId>)
    requires Reversible(st, i)
    ensures EntryPass(st, i, actor).Ok? ==>
              && Reversed(st.ledger, EntryPass(st, i, actor).value.ledger, i, -st.ledger[i].amount)
              && forall j: nat :: j != i && Reversible(st, j) ==> Reversible(EntryPass(st, i, actor).value, j)
    ensures st.ledger[i].saleRef.None? ==>
              EntryPass(st, i, actor).Ok? && EntryPass(st, i, actor).value.sales == st.sales
    ensures EntryPass(st, i, actor).Err? ==> EntryPass(st, i, actor).error == InsufficientFunds
  {
    var l := st.ledger;
    var r := EntryPass(st, i, actor);
    if r.Ok? {
      var l' := r.value.ledger;
      ReversedKeepsOtherFinds(l, l', i, -l[i].amount);
      forall j: nat | j != i && Reversible(st, j)
        ensures Reversible(r.value, j)
      {
        if l[j].saleRef.Some? {
          assert l[j].saleRef != l[i].saleRef;
        }
      }
    }
  }

  /** One pass over an active entry keeps the invariant. */
  lemma EntryPassKeepsWellFormed(st: State, i: nat, actor: Option<UserId>)
    requires WellFormed(st) && i < |st.ledger| && !st.ledger[i].deleted
    ensures EntryPass(st, i, actor).Ok? ==> WellFormed(EntryPass(st, i, actor).value)
  {
    var r := EntryPass(st, i, actor);
    if st.ledger[i].saleRef.Some? {
      DeleteSaleKeepsWellFormed(st, st.ledger[i].saleRef.value, actor);
    } else {
      ReversalKeepsWellFormed(st, r.value, i);
    }
  }

  /** A loop of `deleteAllTransactions` over distinct reversible entries: when it
      succeeds, each listed entry is flagged deleted, every other old entry is
      untouched, and one deleted entry per listed id is appended. */
  lemma {:induction false} ActivePass(st: State, ids: seq<nat>, actor: Option<UserId>)
    requires forall k :: 0 <= k < |ids| ==> ids[k] < |st.ledger| && Reversible(st, ids[k])
    requires forall a, b :: 0 <= a < b < |ids| ==> ids[a] != ids[b]
    ensures var r := ProcessEntries(st, ids, actor);
            r.Ok? ==>
              && |r.value.ledger| == |st.ledger| + |ids|
              && (forall j :: 0 <= j < |st.ledger| && j !in ids ==> r.value.ledger[j] == st.ledger[j])
              && (forall k :: 0 <= k < |ids| ==> r.value.ledger[ids[k]].deleted)
              && (forall j :: |st.ledger| <= j < |r.value.ledger| ==> r.value.ledger[j].deleted)
              && (forall j: nat :: j !in ids && Reversible(st, j) ==> Reversible(r.value, j))
    ensures ProcessEntries(st, ids, actor).Err? ==> ProcessEntries(st, ids, actor).error == InsufficientFunds
    decreases |ids|
  {
    if |ids| > 0 {
      var l := st.ledger;
      var i := ids[0];
      EntryPassReverses(st, i, actor);
      var p := EntryPass(st, i, actor);
      if p.Ok? {
        var next := p.value;
        var rest := ids[1..];
        DistinctTail(ids);
        assert forall k :: 0 <= k < |rest| ==> rest[k] < |next.ledger| && Reversible(next, rest[k]) by {
          assert forall k :: 0 <= k < |rest| ==> rest[k] == ids[k + 1] && rest[k] != i;
        }
        ActivePass(next, rest, actor);
        var r := ProcessEntries(next, rest, actor);
        if r.Ok? {
          var e := r.value.ledger;
          forall k | 0 <= k < |ids|
            ensures e[ids[k]].deleted
          {
            if k > 0 {
              assert ids[k] == rest[k - 1];
            }
          }
          forall j | |l| <= j < |e|
            ensures e[j].deleted
          {
            if j == |l| {
              assert |l| !in rest;
            }
          }
        }
      }
    }
  }

  /** `e` reverses entry `i` of `l`: it is deleted, carries no sale, and its amount
      negates the original's. */
  predicate ReversalOf(l: Ledger, e: Entry, i: nat)
  {
    i < |l| && e.deleted && e.saleRef.None? && e.amount == -l[i].amount
  }

  /** Appended entry `base + k` of `r` is the reversal of entry `ids[k]` of `l`. */
  predicate ReversalsAt(l: Ledger, r: Ledger, base: nat, ids: seq<nat>)
  {
    && base + |ids| <= |r|
    && forall k :: 0 <= k < |ids| ==> ReversalOf(l, r[base + k], ids[k])
  }

  /** The pairing of `ActivePass`: the loop appends the reversals of the listed
      entries in the order it visits them. */
  lemma {:induction false} ActivePassPairs(st: State, ids: seq<nat>, actor: Option<UserId>)
    requires forall k :: 0 <= k < |ids| ==> ids[k] < |st.ledger| && Reversible(st, ids[k])
    requires forall a, b :: 0 <= a < b < |ids| ==> ids[a] != ids[b]
    ensures var r := ProcessEntries(st, ids, actor);
            r.Ok? ==> ReversalsAt(st.ledger, r.value.ledger, |st.ledger|, ids)
    decreases |ids|
  {
    if |ids| > 0 {
      var l := st.ledger;
      var i := ids[0];
      EntryPassReverses(st, i, actor);
      var p := EntryPass(st, i, actor);
      if p.Ok? {
        var next := p.value;
        var rest := ids[1..];
        DistinctTail(ids);
        assert forall k :: 0 <= k < |rest| ==> rest[k] == ids[k + 1] && rest[k] != i && rest[k] < |l|;
        assert forall k :: 0 <= k < |rest| ==> rest[k] < |next.ledger| && Reversible(next, rest[k]);
        ActivePassPairs(next, rest, actor);
        ActivePass(next, rest, actor);
        var r := ProcessEntries(next, rest, actor);
        if r.Ok? {
          PairsStep(l, next.ledger, r.value.ledger, ids);
        }
      }
    }
  }

  /** The step of `ActivePassPairs`: the first pass appended the first entry's
      reversal and left the later entries alone, and the rest of the loop appended
      their reversals after it without touching it. */
  lemma PairsStep(l: Ledger, next: Ledger, e: Ledger, ids: seq<nat>)
    requires |ids| > 0 && forall k :: 0 <= k < |ids| ==> ids[k] < |l|
    requires forall a, b :: 0 <= a < b < |ids| ==> ids[a] != ids[b]
    requires |next| == |l| + 1 && forall j :: 0 <= j < |l| && j != ids[0] ==> next[j] == l[j]
    requires next[|l|].deleted && next[|l|].saleRef.None? && next[|l|].amount == -l[ids[0]].amount
    requires ReversalsAt(next, e, |next|, ids[1..])
    requires |e| >= |next| && forall j :: 0 <= j < |next| && j !in ids[1..] ==> e[j] == next[j]
    ensures ReversalsAt(l, e, |l|, ids)
  {
    var rest := ids[1..];
    assert |l| !in rest;
    forall k | 0 <= k < |ids|
      ensures ReversalOf(l, e[|l| + k], ids[k])
    {
      if k > 0 {
        assert ids[k] == rest[k - 1] && ids[k] != ids[0];
        assert ReversalOf(next, e[|next| + (k - 1)], rest[k - 1]);
        assert next[ids[k]] == l[ids[k]];
      }
    }
  }



  /** Facts about the tail of a list without repetitions. */
  lemma DistinctTail(ids: seq<nat>)
    requires |ids| > 0 && forall a, b :: 0 <= a < b < |ids| ==> ids[a] != ids[b]
    ensures forall a, b :: 0 <= a < b < |ids[1..]| ==> ids[1..][a] != ids[1..][b]
    ensures forall j :: j in ids <==> j == ids[0] || j in ids[1..]
    ensures ids[0] !in ids[1..]
  {
    assert ids == [ids[0]] + ids[1..];
    forall a, b | 0 <= a < b < |ids[1..]|
      ensures ids[1..][a] != ids[1..][b]
    {
      assert ids[1..][a] == ids[a + 1] && ids[1..][b] == ids[b + 1];
    }
  }

  /** The same loop over plain entries only cannot fail (it checks no balance) and
      leaves the sales alone. */
  lemma {:induction false} PlainPass(st: State, ids: seq<nat>, actor: Option<UserId>)
    requires forall k :: 0 <= k < |ids| ==> ids[k] < |st.ledger| && st.ledger[ids[k]].saleRef.None?
    ensures ProcessEntries(st, ids, actor).Ok? && ProcessEntries(st, ids, actor).value.sales == st.sales
    decreases |ids|
  {
    if |ids| > 0 {
      var next := EntryPass(st, ids[0], actor).value;
      var rest := ids[1..];
      assert forall k :: 0 <= k < |rest| ==> rest[k] < |next.ledger| && next.ledger[rest[k]].saleRef.None? by {
        assert forall k :: 0 <= k < |rest| ==> rest[k] == ids[k + 1];
      }
      PlainPass(next, rest, actor);
    }
  }

  /** The same loop keeps the invariant. */
  lemma {:induction false} ProcessEntriesKeepsWellFormed(st: State, ids: seq<nat>, actor: Option<UserId>)
    requires WellFormed(st)
    requires forall k :: 0 <= k < |ids| ==> ids[k] < |st.ledger| && Reversible(st, ids[k])
    requires forall a, b :: 0 <= a < b < |ids| ==> ids[a] != ids[b]
    ensures ProcessEntries(st, ids, actor).Ok? ==> WellFormed(ProcessEntries(st, ids, actor).value)
    decreases |ids|
  {
    if |ids| > 0 {
      PassStep(st, ids, actor);
      var p := EntryPass(st, ids[0], actor);
      if p.Ok? {
        ProcessEntriesKeepsWellFormed(p.value, ids[1..], actor);
      }
    }
  }

  /** One pass of the loop, with what the rest of the loop needs. */
  lemma PassStep(st: State, ids: seq<nat>, actor: Option<UserId>)
    requires WellFormed(st) && |ids| > 0
    requires forall k :: 0 <= k < |ids| ==> ids[k] < |st.ledger| && Reversible(st, ids[k])
    requires forall a, b :: 0 <= a < b < |ids| ==> ids[a] != ids[b]
    ensures EntryPass(st, ids[0], actor).Ok? ==>
              var next := EntryPass(st, ids[0], actor).value;
              && WellFormed(next)
              && (forall k :: 0 <= k < |ids[1..]| ==> ids[1..][k] < |next.ledger| && Reversible(next, ids[1..][k]))
              && (forall a, b :: 0 <= a < b < |ids[1..]| ==> ids[1..][a] != ids[1..][b])
  {
    EntryPassReverses(st, ids[0], actor);
    EntryPassKeepsWellFormed(st, ids[0], actor);
    DistinctTail(ids);
    assert forall k :: 0 <= k < |ids[1..]| ==> ids[1..][k] == ids[k + 1] && ids[1..][k] != ids[0];
  }

  /** The amounts of a ledger whose every entry is deleted leave nothing active. */
  lemma {:induction false} AllDeletedHasNoActiveSum(l: Ledger)
    requires forall j :: 0 <= j < |l| ==> l[j].deleted
    ensures SumWhere(l, false) == 0
  {
    if |l| > 0 {
      AllDeletedHasNoActiveSum(l[..|l| - 1]);
    }
  }

  /** The two partitions of a list of ids together are as long as the list. */
  lemma {:induction false} PartitionSizes(l: Ledger, ids: seq<nat>)
    requires forall k :: 0 <= k < |ids| ==> ids[k] < |l|
    ensures |Partition(l, ids, false)| + |Partition(l, ids, true)| == |ids|
  {
    if |ids| > 0 {
      PartitionSizes(l, ids[..|ids| - 1]);
    }
  }

  /** `first` lists plain active entries and `second` linked active entries of `l`,
      each without repetition, and together they cover every active entry. */
  predicate Split(l: Ledger, first: seq<nat>, second: seq<nat>)
  {
    && (forall k :: 0 <= k < |first| ==> first[k] < |l| && !l[first[k]].deleted && l[first[k]].saleRef.None?)
    && (forall a, b :: 0 <= a < b < |first| ==> first[a] != first[b])
    && (forall k :: 0 <= k < |second| ==> second[k] < |l| && !l[second[k]].deleted && l[second[k]].saleRef.Some?)
    && (forall a, b :: 0 <= a < b < |second| ==> second[a] != second[b])
    && (forall j :: 0 <= j < |l| && !l[j].deleted ==> j in first || j in second)
  }

  /** The two parts of an answer of `findByDeletedFalse` split the active entries. */
  lemma {:induction false} PartitionFacts(l: Ledger, active: seq<nat>)
    requires ListsActive(l, active)
    ensures Split(l, Partition(l, active, false), Partition(l, active, true))
  {
    var plain := Partition(l, active, false);
    var linked := Partition(l, active, true);
    forall k | 0 <= k < |plain|
      ensures !l[plain[k]].deleted
    {
      var m :| 0 <= m < |active| && active[m] == plain[k];
    }
    forall k | 0 <= k < |linked|
      ensures !l[linked[k]].deleted
    {
      var m :| 0 <= m < |active| && active[m] == linked[k];
    }
    forall j | 0 <= j < |l| && !l[j].deleted
      ensures j in plain || j in linked
    {
      var m :| 0 <= m < |active| && active[m] == j;
    }
  }

  /** `deleteAllTransactions` on a well-formed state fails only for lack of funds, in
      the pass over the sale-linked entries: its pre-check never fires and the plain
      pass cannot fail. */
  lemma DeleteAllEntriesFailsOnlyOnFunds(st: State, active: seq<nat>, actor: Option<UserId>)
    requires WellFormed(st) && ListsActive(st.ledger, active)
    ensures DeleteAllEntries(st, active, actor).Err? ==> DeleteAllEntries(st, active, actor).error == InsufficientFunds
  {
    var l := st.ledger;
    PrecheckNeverFires(st, active);
    PartitionFacts(l, active);
    RunLoopsFacts(st, Partition(l, active, false), Partition(l, active, true), actor);
  }

  /** On success on a well-formed state, `deleteAllTransactions` has flagged every
      entry deleted and kept the invariant. It has appended the reversals of the plain
      active entries, in the order of `active`, and after them those of the linked
      ones, in the same order. */
  lemma DeleteAllEntriesFlagsAll(st: State, active: seq<nat>, actor: Option<UserId>)
    requires WellFormed(st) && ListsActive(st.ledger, active)
    ensures var r := DeleteAllEntries(st, active, actor);
            r.Ok? ==>
              && WellFormed(r.value.0)
              && (forall j :: 0 <= j < |r.value.0.ledger| ==> r.value.0.ledger[j].deleted)
              && |r.value.0.ledger| == |st.ledger| + r.value.1
              && var first := Partition(st.ledger, active, false);
              && ReversalsAt(st.ledger, r.value.0.ledger, |st.ledger|, first)
              && ReversalsAt(st.ledger, r.value.0.ledger, |st.ledger| + |first|, Partition(st.ledger, active, true))
  {
    var l := st.ledger;
    var first, second := Partition(l, active, false), Partition(l, active, true);
    PartitionFacts(l, active);
    PartitionSizes(l, active);
    RunLoopsFacts(st, first, second, actor);
    DeleteAllEntriesReverses(st, active, actor);
    var r := DeleteAllEntries(st, active, actor);
    if r.Ok? {
      assert r.value == (RunLoops(st, first, second, actor).value, |active|);
    }
  }

  /** The pairing part of `DeleteAllEntriesFlagsAll`. */
  lemma DeleteAllEntriesReverses(st: State, active: seq<nat>, actor: Option<UserId>)
    requires WellFormed(st) && ListsActive(st.ledger, active)
    ensures var r := DeleteAllEntries(st, active, actor);
            r.Ok? ==>
              && var first := Partition(st.ledger, active, false);
              && ReversalsAt(st.ledger, r.value.0.ledger, |st.ledger|, first)
              && ReversalsAt(st.ledger, r.value.0.ledger, |st.ledger| + |first|, Partition(st.ledger, active, true))
  {
    var l := st.ledger;
    var first, second := Partition(l, active, false), Partition(l, active, true);
    PartitionFacts(l, active);
    forall k | 0 <= k < |first|
      ensures Reversible(st, first[k])
    {
      WellFormedReversible(st, first[k]);
    }
    forall k | 0 <= k < |second|
      ensures Reversible(st, second[k])
    {
      WellFormedReversible(st, second[k]);
    }
    RunLoopsPairs(st, first, second, actor);
    var r := DeleteAllEntries(st, active, actor);
    if r.Ok? {
      assert r.value.0 == RunLoops(st, first, second, actor).value;
    }
  }

  /** After a successful `deleteAllTransactions` on a well-formed state no sale remains
      and the balance is zero. */
  lemma DeleteAllEntriesClears(st: State, active: seq<nat>, actor: Option<UserId>)
    requires WellFormed(st) && ListsActive(st.ledger, active)
    ensures var r := DeleteAllEntries(st, active, actor);
            r.Ok? ==> r.value.0.sales == map[] && Balance(r.value.0.ledger) == 0
  {
    DeleteAllEntriesFlagsAll(st, active, actor);
    var r := DeleteAllEntries(st, active, actor);
    if r.Ok? {
      ClearedState(r.value.0);
    }
  }

  /** Every active entry is reversible. */
  predicate AllReversible(st: State)
  {
    forall i: nat :: i < |st.ledger| && !st.ledger[i].deleted ==> Reversible(st, i)
  }

  lemma WellFormedAllReversible(st: State)
    requires WellFormed(st)
    ensures AllReversible(st)
  {
    forall i: nat | i < |st.ledger| && !st.ledger[i].deleted
      ensures Reversible(st, i)
    {
      WellFormedReversible(st, i);
    }
  }

  /** The first loop of `deleteAllTransactions` over distinct plain active entries of a
      well-formed state succeeds, keeps the invariant, flags exactly those entries,
      appends their reversals in list order, and leaves the linked active entries
      reversible. */
  lemma {:induction false} FirstLoop(st: State, first: seq<nat>, second: seq<nat>, actor: Option<UserId>)
    requires WellFormed(st)
    requires forall k :: 0 <= k < |first| ==>
               first[k] < |st.ledger| && !st.ledger[first[k]].deleted && st.ledger[first[k]].saleRef.None?
    requires forall a, b :: 0 <= a < b < |first| ==> first[a] != first[b]
    requires forall k :: 0 <= k < |second| ==>
               second[k] < |st.ledger| && !st.ledger[second[k]].deleted && st.ledger[second[k]].saleRef.Some?
    ensures var r := ProcessEntries(st, first, actor);
            && r.Ok? && WellFormed(r.value)
            && |r.value.ledger| == |st.ledger| + |first|
            && (forall j :: 0 <= j < |st.ledger| && j !in first ==> r.value.ledger[j] == st.ledger[j])
            && (forall k :: 0 <= k < |first| ==> r.value.ledger[first[k]].deleted)
            && (forall j :: |st.ledger| <= j < |r.value.ledger| ==> r.value.ledger[j].deleted)
            && (forall k :: 0 <= k < |second| ==> second[k] < |r.value.ledger| && Reversible(r.value, second[k]))
            && ReversalsAt(st.ledger, r.value.ledger, |st.ledger|, first)
  {
    WellFormedAllReversible(st);
    assert forall k :: 0 <= k < |first| ==> Reversible(st, first[k]);
    PlainPass(st, first, actor);
    ActivePass(st, first, actor);
    ActivePassPairs(st, first, actor);
    ProcessEntriesKeepsWellFormed(st, first, actor);
    assert forall k :: 0 <= k < |second| ==> second[k] !in first && Reversible(st, second[k]);
  }

  /** Both loops of `deleteAllTransactions` on a well-formed state, over the plain and
      then the linked active entries: a failure can only be for lack of funds, and on
      success every entry is deleted and the invariant holds. */
  lemma {:induction false} RunLoopsFacts(st: State, first: seq<nat>, second: seq<nat>, actor: Option<UserId>)
    requires WellFormed(st) && Split(st.ledger, first, second)
    ensures RunLoops(st, first, second, actor).Err? ==> RunLoops(st, first, second, actor).error == InsufficientFunds
    ensures var r := RunLoops(st, first, second, actor);
            r.Ok? ==>
              && WellFormed(r.value)
              && (forall j :: 0 <= j < |r.value.ledger| ==> r.value.ledger[j].deleted)
              && |r.value.ledger| == |st.ledger| + |first| + |second|
  {
    FirstLoop(st, first, second, actor);
    var mid := ProcessEntries(st, first, actor).value;
    SecondLoop(mid, second, actor);
    var r := ProcessEntries(mid, second, actor);
    if r.Ok? {
      BothPassesDeleteAll(st.ledger, mid.ledger, r.value.ledger, first, second);
    }
  }

  /** Both loops of `deleteAllTransactions` on a well-formed state, on success: the
      appended entries are the reversals of the plain entries, in list order,
      followed by those of the linked entries, in list order. */
  lemma RunLoopsPairs(st: State, first: seq<nat>, second: seq<nat>, actor: Option<UserId>)
    requires forall k :: 0 <= k < |first| ==>
               first[k] < |st.ledger| && Reversible(st, first[k]) && st.ledger[first[k]].saleRef.None?
    requires forall a, b :: 0 <= a < b < |first| ==> first[a] != first[b]
    requires forall k :: 0 <= k < |second| ==>
               second[k] < |st.ledger| && Reversible(st, second[k]) && st.ledger[second[k]].saleRef.Some?
    requires forall a, b :: 0 <= a < b < |second| ==> second[a] != second[b]
    ensures var r := RunLoops(st, first, second, actor);
            r.Ok? ==>
              && ReversalsAt(st.ledger, r.value.ledger, |st.ledger|, first)
              && ReversalsAt(st.ledger, r.value.ledger, |st.ledger| + |first|, second)
  {
    FirstLoopPairs(st, first, second, actor);
    var mid := ProcessEntries(st, first, actor).value;
    RunLoopsThen(st, first, second, actor);
    var r := ProcessEntries(mid, second, actor);
    SecondLoopPairs(st.ledger, mid, first, second, actor);
    if r.Ok? {
      var end := r.value.ledger;
      assert ReversalsAt(st.ledger, end, |st.ledger|, first);
      assert ReversalsAt(st.ledger, end, |st.ledger| + |first|, second);
    }
  }

  /** When the first loop succeeds, both loops are the second loop run from its result. */
  lemma RunLoopsThen(st: State, first: seq<nat>, second: seq<nat>, actor: Option<UserId>)
    requires forall k :: 0 <= k < |first| ==> first[k] < |st.ledger|
    requires forall k :: 0 <= k < |second| ==> second[k] < |st.ledger|
    requires ProcessEntries(st, first, actor).Ok?
    ensures RunLoops(st, first, second, actor) ==
              ProcessEntries(ProcessEntries(st, first, actor).value, second, actor)
  {
  }

  /** The first loop of `RunLoopsPairs`: it succeeds, appends the reversals of the
      plain entries and leaves the linked ones reversible. */
  lemma FirstLoopPairs(st: State, first: seq<nat>, second: seq<nat>, actor: Option<UserId>)
    requires forall k :: 0 <= k < |first| ==>
               first[k] < |st.ledger| && Reversible(st, first[k]) && st.ledger[first[k]].saleRef.None?
    requires forall a, b :: 0 <= a < b < |first| ==> first[a] != first[b]
    requires forall k :: 0 <= k < |second| ==>
               second[k] < |st.ledger| && Reversible(st, second[k]) && st.ledger[second[k]].saleRef.Some?
    requires forall a, b :: 0 <= a < b < |second| ==> second[a] != second[b]
    ensures var r := ProcessEntries(st, first, actor);
            && r.Ok?
            && |r.value.ledger| == |st.ledger| + |first| && ReversalsAt(st.ledger, r.value.ledger, |st.ledger|, first)
            && forall k :: 0 <= k < |second| ==>
                 && second[k] < |st.ledger| && Reversible(r.value, second[k])
                 && r.value.ledger[second[k]] == st.ledger[second[k]]
  {
    assert forall k :: 0 <= k < |second| ==> second[k] !in first;
    PlainPass(st, first, actor);
    ActivePass(st, first, actor);
    ActivePassPairs(st, first, actor);
  }


  /** The second loop of `RunLoopsPairs`, started from the state `mid` the first loop
      left. */
  lemma SecondLoopPairs(l: Ledger, mid: State, first: seq<nat>, second: seq<nat>, actor: Option<UserId>)
    requires |mid.ledger| == |l| + |first| && ReversalsAt(l, mid.ledger, |l|, first)
    requires forall k :: 0 <= k < |second| ==>
               second[k] < |l| && Reversible(mid, second[k]) && mid.ledger[second[k]] == l[second[k]]
    requires forall a, b :: 0 <= a < b < |second| ==> second[a] != second[b]
    ensures var r := ProcessEntries(mid, second, actor);
            r.Ok? ==>
              && ReversalsAt(l, r.value.ledger, |l|, first)
              && ReversalsAt(l, r.value.ledger, |l| + |first|, second)
  {
    ActivePass(mid, second, actor);
    ActivePassPairs(mid, second, actor);
    var r := ProcessEntries(mid, second, actor);
    if r.Ok? {
      forall j | |l| <= j < |mid.ledger|
        ensures r.value.ledger[j] == mid.ledger[j]
      {
        assert j !in second;
      }
      ReversalsCarry(l, mid.ledger, r.value.ledger, first, second);
    }
  }


  /** The reversals of the first loop survive the second, which appends the second
      list's reversals right after them; the second loop's entries were not touched
      by the first. */
  lemma ReversalsCarry(l: Ledger, mid: Ledger, end: Ledger, first: seq<nat>, second: seq<nat>)
    requires |mid| == |l| + |first| && ReversalsAt(l, mid, |l|, first)
    requires forall k :: 0 <= k < |second| ==> second[k] < |l| && mid[second[k]] == l[second[k]]
    requires |end| == |mid| + |second| && ReversalsAt(mid, end, |mid|, second)
    requires forall j :: |l| <= j < |mid| ==> end[j] == mid[j]
    ensures ReversalsAt(l, end, |l|, first)
    ensures ReversalsAt(l, end, |l| + |first|, second)
  {
    forall k | 0 <= k < |first|
      ensures ReversalOf(l, end[|l| + k], first[k])
    {
      assert ReversalOf(l, mid[|l| + k], first[k]);
    }
    forall k | 0 <= k < |second|
      ensures ReversalOf(l, end[|l| + |first| + k], second[k])
    {
      assert ReversalOf(mid, end[|mid| + k], second[k]);
    }
  }




  /** On a well-formed state the sale-linked branch of the first loop of
      `deleteAllTransactions` and the plain branch of the second are dead: the first
      loop only sees sale-less entries, it cannot fail, and every entry queued for
      the second loop still carries its sale reference when that loop starts. */
  lemma DeadBranches(st: State, active: seq<nat>, actor: Option<UserId>)
    requires WellFormed(st) && ListsActive(st.ledger, active)
    ensures var l := st.ledger;
            var first := Partition(l, active, false);
            var second := Partition(l, active, true);
            && (forall k :: 0 <= k < |first| ==> l[first[k]].saleRef.None?)
            && ProcessEntries(st, first, actor).Ok?
            && (forall k :: 0 <= k < |second| ==>
                  second[k] < |ProcessEntries(st, first, actor).value.ledger|
                  && ProcessEntries(st, first, actor).value.ledger[second[k]].saleRef.Some?)
  {
    var l := st.ledger;
    var first := Partition(l, active, false);
    var second := Partition(l, active, true);
    PartitionFacts(l, active);
    FirstLoop(st, first, second, actor);
    SecondStillLinked(l, ProcessEntries(st, first, actor).value.ledger, first, second);
  }

  /** Every pass of the second loop of `deleteAllTransactions` that is reached finds
      its entry still linked, so the plain branch of that loop is dead at each pass,
      not only when the loop starts. */
  lemma SaleLoopEachPass(st: State, active: seq<nat>, actor: Option<UserId>)
    requires WellFormed(st) && ListsActive(st.ledger, active)
    ensures var l := st.ledger;
            var first := Partition(l, active, false);
            var second := Partition(l, active, true);
            && ProcessEntries(st, first, actor).Ok?
            && var mid := ProcessEntries(st, first, actor).value;
            && (forall k :: 0 <= k < |second| ==> second[k] < |mid.ledger|)
            && forall k :: 0 <= k < |second| && ProcessEntries(mid, second[..k], actor).Ok? ==>
                 && second[k] < |ProcessEntries(mid, second[..k], actor).value.ledger|
                 && ProcessEntries(mid, second[..k], actor).value.ledger[second[k]].saleRef.Some?
  {
    var l := st.ledger;
    var first := Partition(l, active, false);
    var second := Partition(l, active, true);
    PartitionFacts(l, active);
    FirstLoop(st, first, second, actor);
    DeadBranches(st, active, actor);
    PassesStayLinked(ProcessEntries(st, first, actor).value, second, actor);
  }

  /** A loop over distinct reversible linked entries: each pass that is reached finds
      its entry as it was, still linked. */
  lemma PassesStayLinked(mid: State, linked: seq<nat>, actor: Option<UserId>)
    requires forall k :: 0 <= k < |linked| ==>
               linked[k] < |mid.ledger| && Reversible(mid, linked[k]) && mid.ledger[linked[k]].saleRef.Some?
    requires forall a, b :: 0 <= a < b < |linked| ==> linked[a] != linked[b]
    ensures forall k :: 0 <= k < |linked| && ProcessEntries(mid, linked[..k], actor).Ok? ==>
              && linked[k] < |ProcessEntries(mid, linked[..k], actor).value.ledger|
              && ProcessEntries(mid, linked[..k], actor).value.ledger[linked[k]].saleRef.Some?
  {
    forall k | 0 <= k < |linked| && ProcessEntries(mid, linked[..k], actor).Ok?
      ensures linked[k] < |ProcessEntries(mid, linked[..k], actor).value.ledger|
      ensures ProcessEntries(mid, linked[..k], actor).value.ledger[linked[k]].saleRef.Some?
    {
      PassReachesLinked(mid, linked, k, actor);
    }
  }

  /** One reached pass of `PassesStayLinked`: the passes before it left its entry
      alone. */
  lemma PassReachesLinked(mid: State, linked: seq<nat>, k: nat, actor: Option<UserId>)
    requires k < |linked|
    requires forall m :: 0 <= m < |linked| ==>
               linked[m] < |mid.ledger| && Reversible(mid, linked[m]) && mid.ledger[linked[m]].saleRef.Some?
    requires forall a, b :: 0 <= a < b < |linked| ==> linked[a] != linked[b]
    ensures var r := ProcessEntries(mid, linked[..k], actor);
            r.Ok? ==> linked[k] < |r.value.ledger| && r.value.ledger[linked[k]] == mid.ledger[linked[k]]
  {
    var before := linked[..k];
    assert forall m :: 0 <= m < |before| ==> before[m] == linked[m];
    assert linked[k] !in before;
    ActivePass(mid, before, actor);
  }

  /** Entries outside the first list keep their sale references across the first loop. */
  lemma SecondStillLinked(l: Ledger, mid: Ledger, first: seq<nat>, second: seq<nat>)
    requires Split(l, first, second)
    requires |mid| >= |l| && forall j :: 0 <= j < |l| && j !in first ==> mid[j] == l[j]
    ensures forall k :: 0 <= k < |second| ==> second[k] < |mid| && mid[second[k]].saleRef.Some?
  {
    assert forall k :: 0 <= k < |second| ==> second[k] !in first;
  }

  /** The second loop over reversible linked entries keeps the invariant, has the
      shape of `ActivePass` and appends the entries' reversals in list order. */
  lemma {:induction false} SecondLoop(mid: State, linked: seq<nat>, actor: Option<UserId>)
    requires WellFormed(mid)
    requires forall k :: 0 <= k < |linked| ==> linked[k] < |mid.ledger| && Reversible(mid, linked[k])
    requires forall a, b :: 0 <= a < b < |linked| ==> linked[a] != linked[b]
    ensures ProcessEntries(mid, linked, actor).Err? ==> ProcessEntries(mid, linked, actor).error == InsufficientFunds
    ensures var r := ProcessEntries(mid, linked, actor);
            r.Ok? ==>
              && WellFormed(r.value)
              && |r.value.ledger| == |mid.ledger| + |linked|
              && (forall j :: 0 <= j < |mid.ledger| && j !in linked ==> r.value.ledger[j] == mid.ledger[j])
              && (forall k :: 0 <= k < |linked| ==> r.value.ledger[linked[k]].deleted)
              && (forall j :: |mid.ledger| <= j < |r.value.ledger| ==> r.value.ledger[j].deleted)
              && ReversalsAt(mid.ledger, r.value.ledger, |mid.ledger|, linked)
  {
    ActivePass(mid, linked, actor);
    ActivePassPairs(mid, linked, actor);
    ProcessEntriesKeepsWellFormed(mid, linked, actor);
  }

  /** A well-formed state whose every entry is deleted holds no sale and a zero balance. */
  lemma ClearedState(st: State)
    requires WellFormed(st)
    requires forall j :: 0 <= j < |st.ledger| ==> st.ledger[j].deleted
    ensures st.sales == map[] && Balance(st.ledger) == 0
  {
    AllDeletedHasNoActiveSum(st.ledger);
    BalanceIsActiveSum(st);
    SaleKeepsEntryActive(st);
  }

  /** On a well-formed state a stored sale keeps its linked entry active. */
  lemma SaleKeepsEntryActive(st: State)
    requires WellFormed(st)
    ensures st.sales != map[] ==> exists j :: 0 <= j < |st.ledger| && !st.ledger[j].deleted
  {
    if st.sales != map[] {
      var s :| s in st.sales;
      var k := FindBySaleId(st.ledger, s).value;
      assert !st.ledger[k].deleted;
    }
  }

  /** Two passes that together flag every active entry of `l` and append only deleted
      entries leave no active entry. */
  lemma BothPassesDeleteAll(l: Ledger, mid: Ledger, end: Ledger, plain: seq<nat>, linked: seq<nat>)
    requires |l| <= |mid| <= |end|
    requires forall k :: 0 <= k < |plain| ==> plain[k] < |l|
    requires forall k :: 0 <= k < |linked| ==> linked[k] < |l|
    requires forall j :: 0 <= j < |l| && !l[j].deleted ==> j in plain || j in linked
    requires forall j :: 0 <= j < |l| && j !in plain ==> mid[j] == l[j]
    requires forall k :: 0 <= k < |plain| ==> mid[plain[k]].deleted
    requires forall j :: |l| <= j < |mid| ==> mid[j].deleted
    requires forall j :: 0 <= j < |mid| && j !in linked ==> end[j] == mid[j]
    requires forall k :: 0 <= k < |linked| ==> end[linked[k]].deleted
    requires forall j :: |mid| <= j < |end| ==> end[j].deleted
    ensures forall j :: 0 <= j < |end| ==> end[j].deleted
  {
  }
}
