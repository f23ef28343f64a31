/** Concrete runs of the services from an empty cash drawer, showing the behaviour
    the ledger rules produce on small inputs. */
module Scenarios {
  import opened Entity
  import opened Repository
  import opened SaleService
  import opened TransactionService

  /** A deposit of 500, a sale of 300, then the sale removed: the sale's entry and its
      reversal stay in the ledger and the balance is back at 500. */
  lemma SaleRemovedRestoresBalance()
    ensures var s1 := Deposit(Empty, 500, None).value;
            var (s2, id) := AddSale(s1, Sale(300, "pivo", None));
            var s3 := DeleteSale(s2, id, None);
            && id == 1
            && Balance(s2.ledger) == 800
            && s3.Ok? && Balance(s3.value.ledger) == 500
            && |s3.value.ledger| == 3 && s3.value.sales == map[]
            && s3.value.ledger[1].deleted && s3.value.ledger[1].saleRef == None
  {
    var s1 := Deposit(Empty, 500, None).value;
    var (s2, id) := AddSale(s1, Sale(300, "pivo", None));
    assert FindBySaleId(s1.ledger, 1) == None;
    assert s2.ledger[..|s2.ledger| - 1] == s1.ledger;
    assert FindBySaleId(s2.ledger, 1) == Some(1);
    assert Balance(s2.ledger) == 800;
    var s3 := DeleteSale(s2, id, None);
    assert !s2.ledger[1].deleted;
    assert s3.Ok?;
    assert Balance(s3.value.ledger) == 500;
    assert |s3.value.ledger| == 3;
    assert s3.value.sales == map[];
    assert s3.value.ledger[1].deleted;
  }

  /** A withdrawal of more than the balance is refused. */
  lemma OverdraftRefused()
    ensures var s1 := Deposit(Empty, 100, None).value;
            Withdraw(s1, 200, None) == Err(InsufficientFunds)
  {
  }

  /** `addSaleWithTransaction` validates nothing: a sale of -1000 is stored as given and
      takes the balance below zero. */
  lemma NegativeSaleAccepted()
    ensures var (st, id) := AddSale(Empty, Sale(-1000, "prkno", None));
            && st.sales[id].amount == -1000
            && Balance(st.ledger) == -1000
  {
  }

  /** After a deposit of 100 and a withdrawal of 50, removing everything succeeds and
      ends at 0 whichever order `findByDeletedFalse` answers in, but the order shows in
      the reversals: oldest first, the deposit is reversed first and that reversal
      closes at -50, because the loop does not check the balance; newest first, the
      reversals close at 100 and then 0. */
  lemma DeleteAllPassesThroughNegative()
    ensures var s1 := Deposit(Empty, 100, None).value;
            var s2 := Withdraw(s1, 50, None).value;
            && ListsActive(s2.ledger, [0, 1]) && ListsActive(s2.ledger, [1, 0])
            && var r := DeleteAllEntries(s2, [0, 1], None);
            && r.Ok? && r.value.1 == 2
            && |r.value.0.ledger| == 4
            && r.value.0.ledger[2].balanceAfter == -50
            && Balance(r.value.0.ledger) == 0
            && var q := DeleteAllEntries(s2, [1, 0], None);
            && q.Ok? && q.value.1 == 2
            && |q.value.0.ledger| == 4
            && q.value.0.ledger[2].balanceAfter == 100
            && Balance(q.value.0.ledger) == 0
  {
    var s1 := Deposit(Empty, 100, None).value;
    var s2 := Withdraw(s1, 50, None).value;
    assert |s2.ledger| == 2 && !s2.ledger[0].deleted && !s2.ledger[1].deleted;
    assert s2.ledger[0].saleRef.None? && s2.ledger[1].saleRef.None?;
    var end := DeleteAllOfTwoPlain(s2);
    var back := DeleteAllOfTwoPlainNewestFirst(s2);
  }

  /** `deleteAllTransactions`, oldest first, on a ledger holding an active deposit of
      100 and an active withdrawal of 50. */
  lemma DeleteAllOfTwoPlain(st: State) returns (end: State)
    requires |st.ledger| == 2 && !st.ledger[0].deleted && !st.ledger[1].deleted
    requires st.ledger[0].saleRef.None? && st.ledger[1].saleRef.None?
    requires st.ledger[0].amount == 100 && st.ledger[1].amount == -50 && Balance(st.ledger) == 50
    ensures ListsActive(st.ledger, [0, 1]) && ListsActive(st.ledger, [1, 0])
    ensures DeleteAllEntries(st, [0, 1], None) == Ok((end, 2))
    ensures |end.ledger| == 4 && end.ledger[2].balanceAfter == -50 && Balance(end.ledger) == 0
  {
    TwoPlainEntries(st.ledger);
    end := TwoPlainLoops(st);
  }

  /** `deleteAllTransactions`, newest first, on the same ledger. */
  lemma DeleteAllOfTwoPlainNewestFirst(st: State) returns (end: State)
    requires |st.ledger| == 2 && !st.ledger[0].deleted && !st.ledger[1].deleted
    requires st.ledger[0].saleRef.None? && st.ledger[1].saleRef.None?
    requires st.ledger[0].amount == 100 && st.ledger[1].amount == -50 && Balance(st.ledger) == 50
    ensures ListsActive(st.ledger, [1, 0])
    ensures DeleteAllEntries(st, [1, 0], None) == Ok((end, 2))
    ensures |end.ledger| == 4 && end.ledger[2].balanceAfter == 100 && Balance(end.ledger) == 0
  {
    TwoPlainEntries(st.ledger);
    end := TwoPlainLoopsNewestFirst(st);
  }

  /** Both loops of `deleteAllTransactions` on a ledger holding a deposit of 100 and
      a withdrawal of 50, oldest first: the deposit is reversed first, down to -50. */
  lemma TwoPlainLoops(st: State) returns (end: State)
    requires |st.ledger| == 2 && !st.ledger[0].deleted && !st.ledger[1].deleted
    requires st.ledger[0].saleRef.None? && st.ledger[1].saleRef.None?
    requires st.ledger[0].amount == 100 && st.ledger[1].amount == -50 && Balance(st.ledger) == 50
    ensures RunLoops(st, [0, 1], [], None) == Ok(end)
    ensures |end.ledger| == 4 && end.ledger[2].balanceAfter == -50 && Balance(end.ledger) == 0
  {
    var mid := EntryPass(st, 0, None).value;
    assert mid.ledger[2].balanceAfter == -50 && |mid.ledger| == 3;
    end := EntryPass(mid, 1, None).value;
    assert |end.ledger| == 4 && end.ledger[2] == mid.ledger[2] && Balance(end.ledger) == 0;
    assert [0, 1][1..] == [1] && [1][1..] == [];
    assert ProcessEntries(mid, [1], None) == Ok(end);
    assert ProcessEntries(st, [0, 1], None) == Ok(end);
  }

  /** The same loops newest first: the withdrawal is reversed first, up to 100. */
  lemma TwoPlainLoopsNewestFirst(st: State) returns (end: State)
    requires |st.ledger| == 2 && !st.ledger[0].deleted && !st.ledger[1].deleted
    requires st.ledger[0].saleRef.None? && st.ledger[1].saleRef.None?
    requires st.ledger[0].amount == 100 && st.ledger[1].amount == -50 && Balance(st.ledger) == 50
    ensures RunLoops(st, [1, 0], [], None) == Ok(end)
    ensures |end.ledger| == 4 && end.ledger[2].balanceAfter == 100 && Balance(end.ledger) == 0
  {
    var mid := EntryPass(st, 1, None).value;
    assert mid.ledger[2].balanceAfter == 100 && |mid.ledger| == 3;
    end := EntryPass(mid, 0, None).value;
    assert |end.ledger| == 4 && end.ledger[2] == mid.ledger[2] && Balance(end.ledger) == 0;
    assert [1, 0][1..] == [0] && [0][1..] == [];
    assert ProcessEntries(mid, [0], None) == Ok(end);
    assert ProcessEntries(st, [1, 0], None) == Ok(end);
  }

  /** The queries of `deleteAllTransactions` on a ledger of two active, sale-less
      entries, for both orders of its active ids. */
  lemma TwoPlainEntries(l: Ledger)
    requires |l| == 2 && !l[0].deleted && !l[1].deleted
    requires l[0].saleRef.None? && l[1].saleRef.None?
    ensures ListsActive(l, [0, 1]) && ListsActive(l, [1, 0])
    ensures Partition(l, [0, 1], false) == [0, 1] && Partition(l, [0, 1], true) == []
    ensures Partition(l, [1, 0], false) == [1, 0] && Partition(l, [1, 0], true) == []
    ensures AmountOf(l, [0, 1]) == l[0].amount + l[1].amount
    ensures AmountOf(l, [1, 0]) == l[0].amount + l[1].amount
  {
    TwoPlainInOrder(l, 0, 1);
    TwoPlainInOrder(l, 1, 0);
  }

  /** The same queries when `findByDeletedFalse` answers `[a, b]`. */
  lemma TwoPlainInOrder(l: Ledger, a: nat, b: nat)
    requires |l| == 2 && !l[0].deleted && !l[1].deleted
    requires l[0].saleRef.None? && l[1].saleRef.None?
    requires a < 2 && b < 2 && a != b
    ensures ListsActive(l, [a, b])
    ensures Partition(l, [a, b], false) == [a, b] && Partition(l, [a, b], true) == []
    ensures AmountOf(l, [a, b]) == l[0].amount + l[1].amount
  {
    BothActiveListed(l, [a, b]);
    PartitionOfTwo(l, a, b, false);
    AmountOfTwo(l, a, b);
  }

  /** Either order of both ids lists the active entries of a ledger of two active
      entries. */
  lemma BothActiveListed(l: Ledger, ids: seq<nat>)
    requires |l| == 2 && !l[0].deleted && !l[1].deleted
    requires |ids| == 2 && ids[0] < 2 && ids[1] < 2 && ids[0] != ids[1]
    ensures ListsActive(l, ids)
  {
    forall j | 0 <= j < |l| && !l[j].deleted
      ensures j in ids
    {
      if j == ids[0] {
        assert ids[0] in ids;
      } else {
        assert j == ids[1] && ids[1] in ids;
      }
    }
  }

  /** After a sale of 100 and a sale of -50, removing everything fails when
      `findByDeletedFalse` answers oldest first, since reversing the first sale would
      take the balance from 50 to -50, and succeeds newest first, through 100 to 0. */
  lemma DeleteAllOrderDecides()
    ensures var (s1, a) := AddSale(Empty, Sale(100, "pivo", None));
            var (s2, b) := AddSale(s1, Sale(-50, "vratka", None));
            && ListsActive(s2.ledger, [0, 1]) && ListsActive(s2.ledger, [1, 0])
            && DeleteAllEntries(s2, [0, 1], None) == Err(InsufficientFunds)
            && DeleteAllEntries(s2, [1, 0], None).Ok?
  {
    var (s1, a) := AddSale(Empty, Sale(100, "pivo", None));
    var (s2, b) := AddSale(s1, Sale(-50, "vratka", None));
    TwoSalesAdded(s1, s2);
    DeleteAllOfTwoSales(s2);
  }

  /** The state after the two sales, as the loops of `deleteAllTransactions` see it. */
  lemma TwoSalesAdded(s1: State, s2: State)
    requires s1 == AddSale(Empty, Sale(100, "pivo", None)).0
    requires s2 == AddSale(s1, Sale(-50, "vratka", None)).0
    ensures |s2.ledger| == 2 && !s2.ledger[0].deleted && !s2.ledger[1].deleted
    ensures s2.ledger[0].saleRef == Some(1) && s2.ledger[1].saleRef == Some(2)
    ensures FindBySaleId(s2.ledger, 1) == Some(0) && FindBySaleId(s2.ledger, 2) == Some(1)
    ensures 1 in s2.sales && 2 in s2.sales && s2.sales[1].amount == 100 && s2.sales[2].amount == -50
    ensures s2.ledger[0].amount == 100 && s2.ledger[1].amount == -50 && Balance(s2.ledger) == 50
  {
    assert FindBySaleId(s1.ledger, 1) == Some(0) && FindBySaleId(s1.ledger, 2) == None;
    assert s2.ledger[..|s2.ledger| - 1] == s1.ledger;
  }

  /** `deleteAllTransactions` on the two sales, in either order. */
  lemma DeleteAllOfTwoSales(st: State)
    requires |st.ledger| == 2 && !st.ledger[0].deleted && !st.ledger[1].deleted
    requires st.ledger[0].saleRef == Some(1) && st.ledger[1].saleRef == Some(2)
    requires FindBySaleId(st.ledger, 1) == Some(0) && FindBySaleId(st.ledger, 2) == Some(1)
    requires 1 in st.sales && 2 in st.sales && st.sales[1].amount == 100 && st.sales[2].amount == -50
    requires st.ledger[0].amount == 100 && st.ledger[1].amount == -50 && Balance(st.ledger) == 50
    ensures ListsActive(st.ledger, [0, 1]) && ListsActive(st.ledger, [1, 0])
    ensures DeleteAllEntries(st, [0, 1], None) == Err(InsufficientFunds)
    ensures DeleteAllEntries(st, [1, 0], None).Ok?
  {
    TwoLinkedEntries(st.ledger);
    TwoSalesOldestFirst(st);
    TwoSalesNewestFirst(st);
  }

  /** Both loops of `deleteAllTransactions` on the two sales, oldest first. */
  lemma TwoSalesOldestFirst(st: State)
    requires |st.ledger| == 2 && !st.ledger[0].deleted && !st.ledger[1].deleted
    requires st.ledger[0].saleRef == Some(1) && st.ledger[1].saleRef == Some(2)
    requires FindBySaleId(st.ledger, 1) == Some(0) && FindBySaleId(st.ledger, 2) == Some(1)
    requires 1 in st.sales && 2 in st.sales && st.sales[1].amount == 100 && st.sales[2].amount == -50
    requires Balance(st.ledger) == 50
    ensures RunLoops(st, [], [0, 1], None) == Err(InsufficientFunds)
  {
    assert EntryPass(st, 0, None) == Err(InsufficientFunds);
    assert ProcessEntries(st, [0, 1], None) == Err(InsufficientFunds);
  }

  /** Both loops of `deleteAllTransactions` on the two sales, newest first. */
  lemma TwoSalesNewestFirst(st: State)
    requires |st.ledger| == 2 && !st.ledger[0].deleted && !st.ledger[1].deleted
    requires st.ledger[0].saleRef == Some(1) && st.ledger[1].saleRef == Some(2)
    requires FindBySaleId(st.ledger, 1) == Some(0) && FindBySaleId(st.ledger, 2) == Some(1)
    requires 1 in st.sales && 2 in st.sales && st.sales[1].amount == 100 && st.sales[2].amount == -50
    requires Balance(st.ledger) == 50
    ensures RunLoops(st, [], [1, 0], None).Ok?
  {
    var mid := EntryPass(st, 1, None).value;
    assert Balance(mid.ledger) == 100 && mid.ledger[0] == st.ledger[0];
    assert FindBySaleId(mid.ledger, 1) == Some(0);
    assert mid.sales == st.sales - {2};
    var end := EntryPass(mid, 0, None).value;
    assert [1, 0][1..] == [0] && [0][1..] == [];
    assert ProcessEntries(mid, [0], None) == Ok(end);
    assert ProcessEntries(st, [1, 0], None) == Ok(end);
  }

  /** The queries of `deleteAllTransactions` on a ledger of two active entries, both
      linked to a sale, for both orders of its active ids. */
  lemma TwoLinkedEntries(l: Ledger)
    requires |l| == 2 && !l[0].deleted && !l[1].deleted
    requires l[0].saleRef.Some? && l[1].saleRef.Some?
    ensures ListsActive(l, [0, 1]) && ListsActive(l, [1, 0])
    ensures Partition(l, [0, 1], false) == [] && Partition(l, [0, 1], true) == [0, 1]
    ensures Partition(l, [1, 0], false) == [] && Partition(l, [1, 0], true) == [1, 0]
    ensures AmountOf(l, [0, 1]) == l[0].amount + l[1].amount
    ensures AmountOf(l, [1, 0]) == l[0].amount + l[1].amount
  {
    TwoLinkedInOrder(l, 0, 1);
    TwoLinkedInOrder(l, 1, 0);
  }

  /** The same queries when `findByDeletedFalse` answers `[a, b]`. */
  lemma TwoLinkedInOrder(l: Ledger, a: nat, b: nat)
    requires |l| == 2 && !l[0].deleted && !l[1].deleted
    requires l[0].saleRef.Some? && l[1].saleRef.Some?
    requires a < 2 && b < 2 && a != b
    ensures ListsActive(l, [a, b])
    ensures Partition(l, [a, b], false) == [] && Partition(l, [a, b], true) == [a, b]
    ensures AmountOf(l, [a, b]) == l[0].amount + l[1].amount
  {
    BothActiveListed(l, [a, b]);
    PartitionOfTwo(l, a, b, true);
    AmountOfTwo(l, a, b);
  }

  /** The partition of `deleteAllTransactions` of two ids whose entries are both
      linked (`linked`) or both plain: all go to one side. */
  lemma PartitionOfTwo(l: Ledger, a: nat, b: nat, linked: bool)
    requires a < |l| && b < |l|
    requires l[a].saleRef.Some? == linked && l[b].saleRef.Some? == linked
    ensures Partition(l, [a, b], linked) == [a, b] && Partition(l, [a, b], !linked) == []
  {
    var none: seq<nat> := [];
    assert [a] == none + [a] && [a, b] == [a] + [b];
    PartitionSnoc(l, none, a, linked);
    PartitionSnoc(l, [a], b, linked);
    PartitionSnoc(l, none, a, !linked);
    PartitionSnoc(l, [a], b, !linked);
  }

  /** The stream sum of two ids. */
  lemma AmountOfTwo(l: Ledger, a: nat, b: nat)
    requires a < |l| && b < |l|
    ensures AmountOf(l, [a, b]) == l[a].amount + l[b].amount
  {
    var ids: seq<nat> := [a, b];
    assert ids[..1] == [a] && [a][..0] == [];
    assert AmountOf(l, [a][..0]) == 0;
  }

  /** Deleting a deposit of 100 twice: the second attempt is refused for lack of funds
      (0 - 100 < 0) before the already-deleted flag is looked at. */
  lemma SecondDeleteReportsFunds()
    ensures var s1 := Deposit(Empty, 100, None).value;
            var s2 := DeleteEntry(s1, 0, None);
            && s2.Ok? && Balance(s2.value.ledger) == 0
            && DeleteEntry(s2.value, 0, None) == Err(InsufficientFunds)
  {
  }
}
