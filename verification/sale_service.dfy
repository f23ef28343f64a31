/** `SaleService`: recording a sale together with its ledger entry, and removing
    sales, one or all, with compensation of their entries. */
module SaleService {
  import opened Entity
  import opened Repository
  import opened Chain
  import opened Text

  /** Every stored sale still has its linked entry (otherwise the lookup in the
      service dereferences null). */
  predicate Linked(st: State)
  {
    forall s :: s in st.sales ==> FindBySaleId(st.ledger, s).Some?
  }

  /** `order` lists every stored sale exactly once. */
  predicate Enumerates(order: seq<SaleId>, sales: map<SaleId, Sale>)
  {
    && (forall i, j :: 0 <= i < j < |order| ==> order[i] != order[j])
    && (forall i :: 0 <= i < |order| ==> order[i] in sales)
    && (forall s :: s in sales ==> s in order)
  }

  /** The set of the listed sale ids. */
  function Listed(order: seq<SaleId>): (r: set<SaleId>)
    ensures forall s :: s in r <==> s in order
  {
    if |order| == 0 then {} else {order[0]} + Listed(order[1..])
  }

  /** Sum of the amounts of the listed sales. */
  function SaleSum(sales: map<SaleId, Sale>, order: seq<SaleId>): int
    requires forall i :: 0 <= i < |order| ==> order[i] in sales
  {
    if |order| == 0 then 0 else sales[order[0]].amount + SaleSum(sales, order[1..])
  }

  /** `addSaleWithTransaction`: stores the sale under the next identity value and
      appends one entry linked to it. Nothing is validated: neither the sign of the
      amount nor the resulting balance. */
  function AddSale(st: State, sale: Sale): (r: (State, SaleId))
    ensures r.1 == st.nextSaleId && r.0.nextSaleId > r.1
    ensures r.0.sales == st.sales[r.1 := sale]
    ensures |r.0.ledger| == |st.ledger| + 1 && r.0.ledger[..|st.ledger|] == st.ledger
    ensures var e := r.0.ledger[|st.ledger|];
              && e.amount == sale.amount && !e.deleted
              && e.saleRef == Some(r.1) && e.user == sale.user
              && e.balanceBefore == Balance(st.ledger)
              && e.balanceAfter == e.balanceBefore + sale.amount
    ensures Balance(r.0.ledger) == Balance(st.ledger) + sale.amount
  {
    var id := st.nextSaleId;
    var ledger := Append(st.ledger, SaleText(sale.soldGoods), sale.amount, false, Some(id), sale.user);
    (State(ledger, st.sales[id := sale], id + 1), id)
  }

  /** `deleteSaleById`. An unknown sale fails with NotFound. When the linked entry is
      already deleted the ledger is left alone and only the sale is removed. Otherwise
      the entry is reversed by the negated sale amount, unless that would take the
      balance below zero, which fails the whole unit of work. */
  function DeleteSale(st: State, id: SaleId, actor: Option<UserId>): (r: Result<State>)
    requires id in st.sales ==> FindBySaleId(st.ledger, id).Some?
    ensures r == Err(NotFound) <==> id !in st.sales
    ensures r.Err? ==> r.error == NotFound || r.error == InsufficientFunds
    ensures r.Ok? ==> r.value.sales == st.sales - {id} && r.value.nextSaleId == st.nextSaleId
    ensures id in st.sales && st.ledger[FindBySaleId(st.ledger, id).value].deleted ==>
              r == Ok(st.(sales := st.sales - {id}))
    ensures id in st.sales && !st.ledger[FindBySaleId(st.ledger, id).value].deleted ==>
              (r.Err? <==> Balance(st.ledger) - st.sales[id].amount < 0)
    ensures id in st.sales && !st.ledger[FindBySaleId(st.ledger, id).value].deleted && r.Ok? ==>
              var k := FindBySaleId(st.ledger, id).value;
              && Reversed(st.ledger, r.value.ledger, k, -st.sales[id].amount)
              && r.value.ledger[k].description == SaleReversedPrefix + st.ledger[k].description
              && r.value.ledger[|st.ledger|].user == actor
  {
    if id !in st.sales then Err(NotFound)
    else
      var sale := st.sales[id];
      var k := FindBySaleId(st.ledger, id).value;
      var entry := st.ledger[k];
      if entry.deleted then Ok(st.(sales := st.sales - {id}))
      // the service reads the tail after flagging the entry; flags leave balances alone
      else if Balance(st.ledger) - sale.amount < 0 then Err(InsufficientFunds)
      else
        var ledger := Compensate(st.ledger, k, SaleReversedPrefix + entry.description,
                                 SaleReversalText(k, sale.soldGoods), -sale.amount, actor);
        Ok(State(ledger, st.sales - {id}, st.nextSaleId))
  }

  /** Removing one sale keeps every other stored sale linked. */
  lemma DeleteSaleKeepsLinked(st: State, id: SaleId, actor: Option<UserId>)
    requires Linked(st)
    ensures DeleteSale(st, id, actor).Ok? ==> Linked(DeleteSale(st, id, actor).value)
  {
    if id in st.sales {
      var k := FindBySaleId(st.ledger, id).value;
      if !st.ledger[k].deleted && DeleteSale(st, id, actor).Ok? {
        ReversedKeepsOtherFinds(st.ledger, DeleteSale(st, id, actor).value.ledger, k, -st.sales[id].amount);
      }
    }
  }

  /** `deleteSaleById` applied to each listed sale in turn; the first failure fails
      all. This is the reference the bulk operations are compared with. */
  function DeleteSalesInOrder(st: State, order: seq<SaleId>, actor: Option<UserId>): (r: Result<State>)
    requires Linked(st)
    ensures r.Ok? ==> Linked(r.value) && r.value.nextSaleId == st.nextSaleId
    ensures r.Ok? ==> r.value.sales == st.sales - Listed(order)
    decreases |order|
  {
    if |order| == 0 then Ok(st)
    else
      match DeleteSale(st, order[0], actor)
      case Err(e) => Err(e)
      case Ok(next) =>
        DeleteSaleKeepsLinked(st, order[0], actor);
        DeleteSalesInOrder(next, order[1..], actor)
  }

  /** One pass of the loop of `deleteAllSales`: the sale's entry is unlinked and
      flagged WITHOUT checking whether it was already deleted, and one compensating
      entry is appended, unless the balance would go below zero. */
  function CompensateSale(l: Ledger, sales: map<SaleId, Sale>, s: SaleId, actor: Option<UserId>): (r: Result<Ledger>)
    requires s in sales && FindBySaleId(l, s).Some?
    ensures r.Err? <==> Balance(l) - sales[s].amount < 0
    ensures r.Err? ==> r.error == InsufficientFunds
    ensures r.Ok? ==> |r.value| == |l| + 1 && forall j :: 0 <= j < |l| && l[j].saleRef.None? ==> r.value[j] == l[j]
    ensures r.Ok? ==> var c := r.value[|l|];
              c.amount == -sales[s].amount && c.deleted && c.saleRef.None? && c.balanceAfter >= 0
    ensures r.Ok? ==> Balance(r.value) == Balance(l) - sales[s].amount
    ensures r.Ok? ==> var k := FindBySaleId(l, s).value;
              && Reversed(l, r.value, k, -sales[s].amount)
              && r.value[k].description == SaleReversedPrefix + l[k].description
    ensures r.Ok? ==> forall t: SaleId :: t != s ==> FindBySaleId(r.value, t) == FindBySaleId(l, t)
    ensures r.Ok? && Chained(l) ==> Chained(r.value)
  {
    var sale := sales[s];
    var k := FindBySaleId(l, s).value;
    var entry := l[k];
    if Balance(l) - sale.amount < 0 then Err(InsufficientFunds)
    else
      var next := Compensate(l, k, SaleReversedPrefix + entry.description,
                             SaleReversalText(k, sale.soldGoods), -sale.amount, actor);
      ReversedKeepsOtherFinds(l, next, k, -sale.amount);
      Ok(next)
  }

  /** The loop of `deleteAllSales` over the listed sales; a failing pass fails all. */
  function CompensateSales(l: Ledger, sales: map<SaleId, Sale>, order: seq<SaleId>,
                           actor: Option<UserId>): (r: Result<Ledger>)
    requires forall i :: 0 <= i < |order| ==> order[i] in sales && FindBySaleId(l, order[i]).Some?
    requires forall i, j :: 0 <= i < j < |order| ==> order[i] != order[j]
    ensures r.Err? ==> r.error == InsufficientFunds
    ensures r.Ok? ==> |r.value| == |l| + |order|
    ensures r.Ok? ==> forall j :: 0 <= j < |l| && l[j].saleRef.None? ==> r.value[j] == l[j]
    ensures r.Ok? ==> forall i :: |l| <= i < |r.value| ==>
              r.value[i].deleted && r.value[i].saleRef.None? && r.value[i].balanceAfter >= 0
    decreases |order|
  {
    if |order| == 0 then Ok(l)
    else
      match CompensateSale(l, sales, order[0], actor)
      case Err(e) => Err(e)
      case Ok(next) =>
        var rest := CompensateSales(next, sales, order[1..], actor);
        if rest.Err? then rest
        else
          assert rest.value[|l|] == next[|l|];
          rest
  }

  /** The loop lowers the balance by the sum of the listed sales. */
  lemma {:induction false} CompensateSalesBalance(l: Ledger, sales: map<SaleId, Sale>, order: seq<SaleId>,
                                                  actor: Option<UserId>)
    requires forall i :: 0 <= i < |order| ==> order[i] in sales && FindBySaleId(l, order[i]).Some?
    requires forall i, j :: 0 <= i < j < |order| ==> order[i] != order[j]
    ensures CompensateSales(l, sales, order, actor).Ok? ==>
              Balance(CompensateSales(l, sales, order, actor).value) == Balance(l) - SaleSum(sales, order)
    ensures CompensateSales(l, sales, order, actor).Ok? && Chained(l) ==>
              Chained(CompensateSales(l, sales, order, actor).value)
    decreases |order|
  {
    if |order| > 0 && CompensateSale(l, sales, order[0], actor).Ok? {
      CompensateSalesBalance(CompensateSale(l, sales, order[0], actor).value, sales, order[1..], actor);
    }
  }

  /** Entry `k` of `after` is entry `k` of `before` reversed as a sale's entry:
      flagged deleted, unlinked and renamed, its amount kept. */
  predicate SaleEntryReversed(before: Ledger, after: Ledger, k: nat)
  {
    && k < |before| && k < |after|
    && after[k].deleted && after[k].saleRef.None?
    && after[k].amount == before[k].amount
    && after[k].description == SaleReversedPrefix + before[k].description
  }

  /** Every listed sale's entry ends up reversed as a sale's entry. */
  lemma {:induction false} CompensateSalesFlags(l: Ledger, sales: map<SaleId, Sale>, order: seq<SaleId>,
                                                actor: Option<UserId>)
    requires forall i :: 0 <= i < |order| ==> order[i] in sales && FindBySaleId(l, order[i]).Some?
    requires forall i, j :: 0 <= i < j < |order| ==> order[i] != order[j]
    ensures var r := CompensateSales(l, sales, order, actor);
            r.Ok? ==> forall i :: 0 <= i < |order| ==>
              SaleEntryReversed(l, r.value, FindBySaleId(l, order[i]).value)
    decreases |order|
  {
    var r := CompensateSales(l, sales, order, actor);
    if |order| > 0 && r.Ok? {
      var next := CompensateSale(l, sales, order[0], actor).value;
      var k0 := FindBySaleId(l, order[0]).value;
      var rest := CompensateSales(next, sales, order[1..], actor);
      assert r == rest;
      TailStillFound(l, next, sales, order);
      CompensateSalesFlags(next, sales, order[1..], actor);
      LaterEntriesFlagged(l, next, rest.value, order, k0);
      FlagsAfterFirstPass(l, next, rest.value, order, k0);
    }
  }

  /** After the first pass the later sales are still found where they were. */
  lemma TailStillFound(l: Ledger, next: Ledger, sales: map<SaleId, Sale>, order: seq<SaleId>)
    requires |order| > 0
    requires forall i :: 0 <= i < |order| ==> order[i] in sales && FindBySaleId(l, order[i]).Some?
    requires forall i, j :: 0 <= i < j < |order| ==> order[i] != order[j]
    requires forall t: SaleId :: t != order[0] ==> FindBySaleId(next, t) == FindBySaleId(l, t)
    ensures forall i :: 0 <= i < |order[1..]| ==> order[1..][i] in sales && FindBySaleId(next, order[1..][i]).Some?
    ensures forall i, j :: 0 <= i < j < |order[1..]| ==> order[1..][i] != order[1..][j]
  {
    forall i | 0 <= i < |order[1..]|
      ensures order[1..][i] in sales && FindBySaleId(next, order[1..][i]).Some?
    {
      assert order[1..][i] == order[i + 1] != order[0];
    }
  }

  /** The later passes of `CompensateSalesFlags` reverse the later sales' entries,
      which the first pass does not move. */
  lemma LaterEntriesFlagged(l: Ledger, next: Ledger, r: Ledger, order: seq<SaleId>, k0: nat)
    requires |order| > 0 && FindBySaleId(l, order[0]) == Some(k0)
    requires forall i, j :: 0 <= i < j < |order| ==> order[i] != order[j]
    requires forall i :: 0 <= i < |order| ==> FindBySaleId(l, order[i]).Some?
    requires forall t: SaleId :: t != order[0] ==> FindBySaleId(next, t) == FindBySaleId(l, t)
    requires forall i :: 0 <= i < |order[1..]| ==>
               FindBySaleId(next, order[1..][i]).Some? &&
               SaleEntryReversed(next, r, FindBySaleId(next, order[1..][i]).value)
    ensures forall i :: 0 < i < |order| ==>
              && FindBySaleId(l, order[i]).Some?
              && l[FindBySaleId(l, order[i]).value].saleRef != l[k0].saleRef
              && SaleEntryReversed(next, r, FindBySaleId(l, order[i]).value)
  {
    forall i | 0 < i < |order|
      ensures l[FindBySaleId(l, order[i]).value].saleRef != l[k0].saleRef
      ensures SaleEntryReversed(next, r, FindBySaleId(l, order[i]).value)
    {
      assert order[1..][i - 1] == order[i] && order[i] != order[0];
    }
  }

  /** The step of `CompensateSalesFlags`: the first pass reversed the first sale's
      entry, which no later pass touches, and every later sale's entry, reversed by a
      later pass, was left alone by the first. */
  lemma FlagsAfterFirstPass(l: Ledger, next: Ledger, r: Ledger, order: seq<SaleId>, k0: nat)
    requires |order| > 0 && FindBySaleId(l, order[0]) == Some(k0)
    requires |next| > |l| && forall j :: 0 <= j < |l| && j != k0 ==> next[j] == l[j]
    requires SaleEntryReversed(l, next, k0)
    requires |r| >= |next| && forall j :: 0 <= j < |next| && next[j].saleRef.None? ==> r[j] == next[j]
    requires forall i :: 0 < i < |order| ==>
               && FindBySaleId(l, order[i]).Some?
               && l[FindBySaleId(l, order[i]).value].saleRef != l[k0].saleRef
               && SaleEntryReversed(next, r, FindBySaleId(l, order[i]).value)
    ensures forall i :: 0 <= i < |order| ==> SaleEntryReversed(l, r, FindBySaleId(l, order[i]).value)
  {
    forall i | 0 <= i < |order|
      ensures SaleEntryReversed(l, r, FindBySaleId(l, order[i]).value)
    {
      ReversedAt(l, next, r, k0, FindBySaleId(l, order[i]).value);
    }
  }

  /** One entry of `FlagsAfterFirstPass`: either the one the first pass reversed, or
      one of another sale that a later pass reversed. */
  lemma ReversedAt(l: Ledger, next: Ledger, r: Ledger, k0: nat, k: nat)
    requires k0 < |l| && k < |l|
    requires |next| > |l| && forall j :: 0 <= j < |l| && j != k0 ==> next[j] == l[j]
    requires SaleEntryReversed(l, next, k0)
    requires |r| >= |next| && forall j :: 0 <= j < |next| && next[j].saleRef.None? ==> r[j] == next[j]
    requires k == k0 || (l[k].saleRef != l[k0].saleRef && SaleEntryReversed(next, r, k))
    ensures SaleEntryReversed(l, r, k)
  {
    if k == k0 {
      assert r[k0] == next[k0];
    } else {
      assert next[k] == l[k];
    }
  }

  /** `deleteAllSales`: fails up front when the listed sales sum to more than the
      balance; otherwise compensates every sale's entry, removes all sales and
      returns how many there were. */
  function DeleteAllSales(st: State, order: seq<SaleId>, actor: Option<UserId>): (r: Result<(State, nat)>)
    requires Enumerates(order, st.sales) && Linked(st)
    ensures SaleSum(st.sales, order) > Balance(st.ledger) ==> r == Err(InsufficientFunds)
    ensures r.Err? ==> r.error == InsufficientFunds
    ensures r.Ok? ==> r.value.0.sales == map[] && r.value.0.nextSaleId == st.nextSaleId
    ensures r.Ok? ==> r.value.1 == |st.sales|
    ensures r.Ok? ==> |r.value.0.ledger| == |st.ledger| + |st.sales|
    ensures r.Ok? ==> forall j :: 0 <= j < |st.ledger| && st.ledger[j].saleRef.None? ==>
              r.value.0.ledger[j] == st.ledger[j]
    ensures r.Ok? ==> Balance(r.value.0.ledger) == Balance(st.ledger) - SaleSum(st.sales, order)
    ensures r.Ok? ==> forall i :: |st.ledger| <= i < |r.value.0.ledger| ==>
              r.value.0.ledger[i].deleted && r.value.0.ledger[i].balanceAfter >= 0
  {
    EnumerationSize(order, st.sales);
    if SaleSum(st.sales, order) > Balance(st.ledger) then Err(InsufficientFunds)
    else
      CompensateSalesBalance(st.ledger, st.sales, order, actor);
      match CompensateSales(st.ledger, st.sales, order, actor)
      case Err(e) => Err(e)
      case Ok(ledger) =>
        // `deleteAll(allSales)` removes exactly the listed sales, which are all of them
        Ok((State(ledger, map[], st.nextSaleId), |order|))
  }

  /** After `deleteAllSales` every sale's entry is flagged deleted, unlinked and
      renamed; an entry that was already deleted is reversed all the same. */
  lemma DeleteAllSalesFlagsEntries(st: State, order: seq<SaleId>, actor: Option<UserId>)
    requires Enumerates(order, st.sales) && Linked(st)
    ensures var r := DeleteAllSales(st, order, actor);
            r.Ok? ==> forall s :: s in st.sales ==>
              SaleEntryReversed(st.ledger, r.value.0.ledger, FindBySaleId(st.ledger, s).value)
  {
    CompensateSalesFlags(st.ledger, st.sales, order, actor);
    forall s | s in st.sales
      ensures s in order
    {
    }
  }

  /** Where the two removals part: for a sale whose entry is already deleted,
      `deleteSaleById` only drops the sale, while a pass of `deleteAllSales` appends a
      reversal anyway and lowers the balance by the sale amount once more. */
  lemma AlreadyDeletedReversedAgain(st: State, id: SaleId, actor: Option<UserId>)
    requires id in st.sales && FindBySaleId(st.ledger, id).Some?
    requires st.ledger[FindBySaleId(st.ledger, id).value].deleted
    requires Balance(st.ledger) - st.sales[id].amount >= 0
    ensures DeleteSale(st, id, actor) == Ok(st.(sales := st.sales - {id}))
    ensures var c := CompensateSale(st.ledger, st.sales, id, actor);
            && c.Ok? && |c.value| == |st.ledger| + 1
            && Balance(c.value) == Balance(st.ledger) - st.sales[id].amount
  {
  }

  /** An enumeration of the sale store is as long as the store is large. */
  lemma EnumerationSize(order: seq<SaleId>, sales: map<SaleId, Sale>)
    requires Enumerates(order, sales)
    ensures |order| == |sales|
  {
    var keys := set i | 0 <= i < |order| :: order[i];
    assert keys == sales.Keys;
    DistinctSize(order);
  }

  lemma {:induction false} DistinctSize(order: seq<SaleId>)
    requires forall i, j :: 0 <= i < j < |order| ==> order[i] != order[j]
    ensures |set i | 0 <= i < |order| :: order[i]| == |order|
  {
    if |order| > 0 {
      var p := order[..|order| - 1];
      DistinctSize(p);
      var sp := set i | 0 <= i < |p| :: p[i];
      var so := set i | 0 <= i < |order| :: order[i];
      assert so == sp + {order[|order| - 1]};
      assert order[|order| - 1] !in sp;
    }
  }
}
