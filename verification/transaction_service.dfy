/** `TransactionService`: deposits, withdrawals, and the reversal of one or all
    ledger entries, delegating sale-linked entries to the sale service. */
module TransactionService {
  import opened Entity
  import opened Repository
  import opened Chain
  import opened Text
  import opened SaleService

  /** `getCurrentStatusBalance`: the closing balance of the entry with the highest id,
      whatever its deleted flag, or 0 when there is none. */
  function CurrentBalance(st: State): (b: int)
    ensures |st.ledger| == 0 ==> b == 0
    ensures |st.ledger| > 0 ==> b == st.ledger[LastId(st.ledger).value].balanceAfter
  {
    Balance(st.ledger)
  }

  /** `getFirst20Transactions`: the twenty newest entries, newest first. */
  function First20(st: State): (r: seq<Entry>)
    ensures |r| == if |st.ledger| < PageSize then |st.ledger| else PageSize
    ensures forall k :: 0 <= k < |r| ==> r[k] == st.ledger[|st.ledger| - 1 - k]
  {
    Recent(st.ledger, PageSize)
  }

  /** `depositMoney`: a non-positive amount fails with InvalidAmount; otherwise one
      active, sale-less entry of `amount` is chained onto the tail. */
  function Deposit(st: State, amount: int, user: Option<UserId>): (r: Result<State>)
    ensures r.Err? <==> amount <= 0
    ensures r.Err? ==> r.error == InvalidAmount
    ensures r.Ok? ==> r.value.sales == st.sales && r.value.nextSaleId == st.nextSaleId
    ensures r.Ok? ==> |r.value.ledger| == |st.ledger| + 1 && r.value.ledger[..|st.ledger|] == st.ledger
    ensures r.Ok? ==> var e := r.value.ledger[|st.ledger|];
              && e.amount == amount && !e.deleted && e.saleRef.None? && e.user == user
              && e.balanceBefore == Balance(st.ledger)
    ensures r.Ok? ==> Balance(r.value.ledger) == Balance(st.ledger) + amount > Balance(st.ledger)
  {
    if amount <= 0 then Err(InvalidAmount)
    else Ok(st.(ledger := Append(st.ledger, DepositText, amount, false, None, user)))
  }

  /** `withdrawMoney`: a non-positive amount fails with InvalidAmount, more than the
      balance with InsufficientFunds; otherwise one active, sale-less entry of
      `-amount` is chained onto the tail, and the balance stays non-negative. */
  function Withdraw(st: State, amount: int, user: Option<UserId>): (r: Result<State>)
    ensures amount <= 0 ==> r == Err(InvalidAmount)
    ensures amount > 0 ==> (r == Err(InsufficientFunds) <==> amount > Balance(st.ledger))
    ensures r.Ok? <==> 0 < amount <= Balance(st.ledger)
    ensures r.Ok? ==> r.value.sales == st.sales && r.value.nextSaleId == st.nextSaleId
    ensures r.Ok? ==> |r.value.ledger| == |st.ledger| + 1 && r.value.ledger[..|st.ledger|] == st.ledger
    ensures r.Ok? ==> var e := r.value.ledger[|st.ledger|];
              && e.amount == -amount && !e.deleted && e.saleRef.None? && e.user == user
              && e.balanceBefore == Balance(st.ledger)
    ensures r.Ok? ==> Balance(r.value.ledger) == Balance(st.ledger) - amount >= 0
  {
    if amount <= 0 then Err(InvalidAmount)
    else if Balance(st.ledger) < amount then Err(InsufficientFunds)
    else Ok(st.(ledger := Append(st.ledger, WithdrawText, -amount, false, None, user)))
  }

  /** `deleteTransactionById`. The funds check runs BEFORE the already-deleted check.
      A sale-linked entry is handed to `deleteSaleById` for its sale; a plain entry is
      flagged, its description prefixed, and reversed by the negation of its amount. */
  function DeleteEntry(st: State, id: int, actor: Option<UserId>): (r: Result<State>)
    ensures !(0 <= id < |st.ledger|) ==> r == Err(NotFound)
    ensures 0 <= id < |st.ledger| && Balance(st.ledger) - st.ledger[id].amount < 0 ==>
              r == Err(InsufficientFunds)
    ensures 0 <= id < |st.ledger| && Balance(st.ledger) - st.ledger[id].amount >= 0 && st.ledger[id].deleted ==>
              r == Err(AlreadyDeleted)
    ensures 0 <= id < |st.ledger| && Balance(st.ledger) - st.ledger[id].amount >= 0 && !st.ledger[id].deleted
            && st.ledger[id].saleRef.Some? ==>
              r == DeleteSale(st, st.ledger[id].saleRef.value, actor)
    ensures 0 <= id < |st.ledger| && Balance(st.ledger) - st.ledger[id].amount >= 0 && !st.ledger[id].deleted
            && st.ledger[id].saleRef.None? ==>
              && r.Ok? && r.value.sales == st.sales && r.value.nextSaleId == st.nextSaleId
              && Reversed(st.ledger, r.value.ledger, id, -st.ledger[id].amount)
              && r.value.ledger[id].description == PlainReversedPrefix + st.ledger[id].description
              && r.value.ledger[|st.ledger|].user == actor
  {
    if !(0 <= id < |st.ledger|) then Err(NotFound)
    else
      var e := st.ledger[id];
      if Balance(st.ledger) - e.amount < 0 then Err(InsufficientFunds)
      else if e.deleted then Err(AlreadyDeleted)
      else if e.saleRef.Some? then DeleteSale(st, e.saleRef.value, actor)
      else
        Ok(st.(ledger := Compensate(st.ledger, id, PlainReversedPrefix + e.description,
                                    PlainReversalText(id, e.description), -e.amount, actor)))
  }

  /** One pass of either loop of `deleteAllTransactions` (both loops have the same
      body): an entry that currently has a sale goes to `deleteSaleById`; any other is
      flagged (description untouched) and reversed, with the entry's own user on the
      reversal and NO balance check. */
  function EntryPass(st: State, i: nat, actor: Option<UserId>): (r: Result<State>)
    requires i < |st.ledger|
    ensures st.ledger[i].saleRef.Some? ==> r == DeleteSale(st, st.ledger[i].saleRef.value, actor)
    ensures st.ledger[i].saleRef.None? ==>
              && r.Ok? && r.value.sales == st.sales && r.value.nextSaleId == st.nextSaleId
              && Reversed(st.ledger, r.value.ledger, i, -st.ledger[i].amount)
              && r.value.ledger[i].description == st.ledger[i].description
              && r.value.ledger[|st.ledger|].user == st.ledger[i].user
    ensures r.Ok? ==> |r.value.ledger| >= |st.ledger| && r.value.nextSaleId == st.nextSaleId
  {
    var e := st.ledger[i];
    if e.saleRef.Some? then DeleteSale(st, e.saleRef.value, actor)
    else
      Ok(st.(ledger := Compensate(st.ledger, i, e.description,
                                  PlainReversalText(i, e.description), -e.amount, e.user)))
  }

  /** One loop of `deleteAllTransactions` over the listed entry ids; a failing pass
      fails all. */
  function ProcessEntries(st: State, ids: seq<nat>, actor: Option<UserId>): (r: Result<State>)
    requires forall k :: 0 <= k < |ids| ==> ids[k] < |st.ledger|
    ensures r.Err? ==> r.error == NotFound || r.error == InsufficientFunds
    ensures r.Ok? ==> |r.value.ledger| >= |st.ledger| && r.value.nextSaleId == st.nextSaleId
    decreases |ids|
  {
    if |ids| == 0 then Ok(st)
    else
      match EntryPass(st, ids[0], actor)
      case Err(e) => Err(e)
      case Ok(next) => ProcessEntries(next, ids[1..], actor)
  }

  /** The two loops of `deleteAllTransactions`, over `first` and then `second`; a
      failure in either fails all. */
  function RunLoops(st: State, first: seq<nat>, second: seq<nat>, actor: Option<UserId>): (r: Result<State>)
    requires forall k :: 0 <= k < |first| ==> first[k] < |st.ledger|
    requires forall k :: 0 <= k < |second| ==> second[k] < |st.ledger|
    ensures r.Err? ==> r.error == NotFound || r.error == InsufficientFunds
    ensures r.Ok? ==> |r.value.ledger| >= |st.ledger| && r.value.nextSaleId == st.nextSaleId
  {
    match ProcessEntries(st, first, actor)
    case Err(e) => Err(e)
    case Ok(mid) => ProcessEntries(mid, second, actor)
  }

  /** `deleteAllTransactions`. `active` is the answer of `findByDeletedFalse`, whose
      query fixes no order; the order can decide the outcome. Fails up front when the
      active entries sum to more than the balance; otherwise reverses every plain
      active entry, then every sale-linked one, each group in the order of `active`,
      and returns how many entries were active. */
  function DeleteAllEntries(st: State, active: seq<nat>, actor: Option<UserId>): (r: Result<(State, nat)>)
    requires ListsActive(st.ledger, active)
    ensures AmountOf(st.ledger, active) > Balance(st.ledger) ==> r == Err(InsufficientFunds)
    ensures r.Err? ==> r.error == NotFound || r.error == InsufficientFunds
    ensures r.Ok? ==> r.value.1 == |active|
    ensures r.Ok? ==> |r.value.0.ledger| >= |st.ledger| && r.value.0.nextSaleId == st.nextSaleId
  {
    if AmountOf(st.ledger, active) > Balance(st.ledger) then Err(InsufficientFunds)
    else
      match RunLoops(st, Partition(st.ledger, active, false), Partition(st.ledger, active, true), actor)
      case Err(e) => Err(e)
      case Ok(end) => Ok((end, |active|))
  }
}
