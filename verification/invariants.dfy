/** The ledger invariants the services maintain together, and the facts that follow
    from them: the current balance equals the sum of the active amounts, so the
    pre-check of `deleteAllTransactions` can never fire. */
module Invariants {
  import opened Entity
  import opened Repository
  import opened Chain
  import opened SaleService
  import opened TransactionService

  /** An entry linked to a sale is active, and the sale is stored with the entry's amount. */
  predicate LinksConsistent(st: State)
  {
    forall i :: 0 <= i < |st.ledger| && st.ledger[i].saleRef.Some? ==>
      && st.ledger[i].saleRef.value in st.sales
      && st.sales[st.ledger[i].saleRef.value].amount == st.ledger[i].amount
      && !st.ledger[i].deleted
  }

  /** Stored sale ids lie below the next identity value. */
  predicate FreshIds(st: State)
  {
    forall s :: s in st.sales ==> s < st.nextSaleId
  }

  /** The state invariant:
      - the balances chain (every entry closes at opening plus amount);
      - every reversal pairs a flagged original with a flagged negation, so the
        deleted amounts cancel out;
      - each sale has exactly one linked entry, which is active and carries the
        sale's amount; and sale ids are fresh. */
  predicate WellFormed(st: State)
  {
    && Chained(st.ledger)
    && SumWhere(st.ledger, true) == 0
    && UniqueRefs(st.ledger)
    && LinksConsistent(st)
    && Linked(st)
    && FreshIds(st)
  }

  lemma EmptyIsWellFormed()
    ensures WellFormed(Empty)
  {
  }

  /** Balance equals the sum of the amounts of the entries that are not deleted. */
  lemma BalanceIsActiveSum(st: State)
    requires WellFormed(st)
    ensures Balance(st.ledger) == SumWhere(st.ledger, false)
  {
    BalanceIsTotal(st.ledger);
    TotalSplits(st.ledger);
  }

  lemma {:induction false} AmountOfPrefix(l: Ledger, n: nat, ids: seq<nat>)
    requires n <= |l| && forall k :: 0 <= k < |ids| ==> ids[k] < n
    ensures AmountOf(l, ids) == AmountOf(l[..n], ids)
  {
    if |ids| > 0 {
      AmountOfPrefix(l, n, ids[..|ids| - 1]);
    }
  }

  /** The stream sum splits over concatenation. */
  lemma {:induction false} AmountOfConcat(l: Ledger, a: seq<nat>, b: seq<nat>)
    requires forall k :: 0 <= k < |a| ==> a[k] < |l|
    requires forall k :: 0 <= k < |b| ==> b[k] < |l|
    ensures AmountOf(l, a + b) == AmountOf(l, a) + AmountOf(l, b)
    decreases |b|
  {
    if |b| > 0 {
      var b' := b[..|b| - 1];
      AmountOfConcat(l, a, b');
      assert (a + b)[..|a + b| - 1] == a + b';
      assert (a + b)[|a + b| - 1] == b[|b| - 1];
      assert AmountOf(l, b) == AmountOf(l, b') + l[b[|b| - 1]].amount;
    } else {
      assert a + b == a;
    }
  }

  /** Taking one id out of the list takes its amount out of the stream sum. */
  lemma AmountOfRemove(l: Ledger, ids: seq<nat>, i: nat)
    requires i < |ids| && forall k :: 0 <= k < |ids| ==> ids[k] < |l|
    ensures AmountOf(l, ids) == AmountOf(l, ids[..i] + ids[i + 1..]) + l[ids[i]].amount
  {
    var front, back := ids[..i], ids[i + 1..];
    assert ids == (front + [ids[i]]) + back;
    AmountOfConcat(l, front + [ids[i]], back);
    AmountOfConcat(l, front, [ids[i]]);
    AmountOfConcat(l, front, back);
    assert AmountOf(l, [ids[i]]) == l[ids[i]].amount by {
      assert [ids[i]][..0] == [];
    }
  }

  /** Removing the tail entry and its id from an answer of `findByDeletedFalse` leaves an
      answer for the shorter ledger. */
  lemma ListsActiveRemove(l: Ledger, ids: seq<nat>, i: nat)
    requires |l| > 0 && ListsActive(l, ids) && i < |ids| && ids[i] == |l| - 1
    ensures ListsActive(l[..|l| - 1], ids[..i] + ids[i + 1..])
  {
    var p, rest := l[..|l| - 1], ids[..i] + ids[i + 1..];
    forall k | 0 <= k < |rest|
      ensures rest[k] == ids[if k < i then k else k + 1]
    {
    }
    forall k | 0 <= k < |rest|
      ensures rest[k] < |p| && !p[rest[k]].deleted
    {
      var m := if k < i then k else k + 1;
      assert rest[k] == ids[m] && m != i;
    }
    forall a, b | 0 <= a < b < |rest|
      ensures rest[a] != rest[b]
    {
      var ma, mb := if a < i then a else a + 1, if b < i then b else b + 1;
      assert rest[a] == ids[ma] && rest[b] == ids[mb] && ma < mb;
    }
    forall j | 0 <= j < |p| && !p[j].deleted
      ensures j in rest
    {
      var m :| 0 <= m < |ids| && ids[m] == j;
      if m < i { assert rest[m] == j; } else { assert rest[m - 1] == j; }
    }
  }

  /** An answer of `findByDeletedFalse` for a ledger whose tail entry is deleted is an
      answer for the ledger without it. */
  lemma ListsActiveShrink(l: Ledger, ids: seq<nat>)
    requires |l| > 0 && ListsActive(l, ids) && l[|l| - 1].deleted
    ensures ListsActive(l[..|l| - 1], ids)
  {
    assert forall k :: 0 <= k < |ids| ==> ids[k] != |l| - 1;
  }

  /** Whatever order `findByDeletedFalse` answers in, its stream sum is the sum of the
      active amounts. */
  lemma {:induction false} ListedAmountIsActiveSum(l: Ledger, ids: seq<nat>)
    requires ListsActive(l, ids)
    ensures AmountOf(l, ids) == SumWhere(l, false)
    decreases |l|
  {
    if |l| == 0 {
      assert AmountOf(l, ids) == 0;
    } else {
      var n := |l| - 1;
      var p := l[..n];
      if l[n].deleted {
        ListsActiveShrink(l, ids);
        ListedAmountIsActiveSum(p, ids);
        AmountOfPrefix(l, n, ids);
      } else {
        var i :| 0 <= i < |ids| && ids[i] == n;
        var rest := ids[..i] + ids[i + 1..];
        ListsActiveRemove(l, ids, i);
        ListedAmountIsActiveSum(p, rest);
        AmountOfRemove(l, ids, i);
        AmountOfPrefix(l, n, rest);
      }
    }
  }

  /** On a well-formed state the active entries sum to exactly the balance, so the
      pre-check of `deleteAllTransactions` (sum greater than balance) never fires. */
  lemma PrecheckNeverFires(st: State, ids: seq<nat>)
    requires WellFormed(st) && ListsActive(st.ledger, ids)
    ensures AmountOf(st.ledger, ids) == Balance(st.ledger)
  {
    BalanceIsActiveSum(st);
    ListedAmountIsActiveSum(st.ledger, ids);
  }

  /** Appending an active or deleted entry without a sale link keeps the invariant,
      as long as the deleted amounts still cancel out. */
  lemma AppendUnlinkedKeepsWellFormed(st: State, st': State, e: Entry)
    requires WellFormed(st)
    requires st'.ledger == st.ledger + [e] && st'.sales == st.sales && st'.nextSaleId == st.nextSaleId
    requires e.saleRef.None? && !e.deleted
    requires e.balanceBefore == Balance(st.ledger) && e.balanceAfter == e.balanceBefore + e.amount
    ensures WellFormed(st')
  {
    var l := st.ledger;
    var l' := st'.ledger;
    assert l'[..|l|] == l;
    SumWhereAppend(l, e, true);
    forall s | s in st'.sales
      ensures FindBySaleId(l', s).Some?
    {
      AppendKeepsFind(l, l', s);
    }
  }

  lemma DepositKeepsWellFormed(st: State, amount: int, user: Option<UserId>)
    requires WellFormed(st)
    ensures Deposit(st, amount, user).Ok? ==> WellFormed(Deposit(st, amount, user).value)
  {
    var r := Deposit(st, amount, user);
    if r.Ok? {
      AppendUnlinkedKeepsWellFormed(st, r.value, r.value.ledger[|st.ledger|]);
    }
  }

  lemma WithdrawKeepsWellFormed(st: State, amount: int, user: Option<UserId>)
    requires WellFormed(st)
    ensures Withdraw(st, amount, user).Ok? ==> WellFormed(Withdraw(st, amount, user).value)
  {
    var r := Withdraw(st, amount, user);
    if r.Ok? {
      AppendUnlinkedKeepsWellFormed(st, r.value, r.value.ledger[|st.ledger|]);
    }
  }

  /** A new sale gets a fresh id, and its entry is the only one linked to it. */
  lemma AddSaleKeepsWellFormed(st: State, sale: Sale)
    requires WellFormed(st)
    ensures WellFormed(AddSale(st, sale).0)
    ensures FindBySaleId(AddSale(st, sale).0.ledger, AddSale(st, sale).1) == Some(|st.ledger|)
  {
    var (st', id) := AddSale(st, sale);
    var l := st.ledger;
    var l' := st'.ledger;
    assert l' == l + [l'[|l|]];
    NoLinkToFreshId(st);
    SumWhereAppend(l, l'[|l|], true);
    AppendLinkedKeepsUnique(l, l', id);
    AppendLinkedKeepsLinks(st, st', id);
    forall s | s in st'.sales
      ensures FindBySaleId(l', s).Some?
    {
      if s != id {
        AppendKeepsFind(l, l', s);
      }
    }
  }

  /** No entry is linked to the next identity value. */
  lemma NoLinkToFreshId(st: State)
    requires LinksConsistent(st) && FreshIds(st)
    ensures forall i :: 0 <= i < |st.ledger| ==> st.ledger[i].saleRef != Some(st.nextSaleId)
  {
  }

  lemma AppendLinkedKeepsUnique(l: Ledger, l': Ledger, id: SaleId)
    requires UniqueRefs(l) && |l'| == |l| + 1 && l'[..|l|] == l
    requires forall i :: 0 <= i < |l| ==> l[i].saleRef != Some(id)
    requires l'[|l|].saleRef == Some(id)
    ensures UniqueRefs(l')
  {
    assert forall i :: 0 <= i < |l| ==> l'[i] == l[i];
  }

  lemma AppendLinkedKeepsLinks(st: State, st': State, id: SaleId)
    requires LinksConsistent(st) && FreshIds(st) && id == st.nextSaleId
    requires |st'.ledger| == |st.ledger| + 1 && st'.ledger[..|st.ledger|] == st.ledger
    requires id in st'.sales && st'.sales == st.sales[id := st'.sales[id]]
    requires st'.ledger[|st.ledger|].saleRef == Some(id) && !st'.ledger[|st.ledger|].deleted
    requires st'.sales[id].amount == st'.ledger[|st.ledger|].amount
    requires st'.nextSaleId > id
    ensures LinksConsistent(st') && FreshIds(st')
  {
    assert forall i :: 0 <= i < |st.ledger| ==> st'.ledger[i] == st.ledger[i];
  }

  /** Removing a sale keeps the invariant; on a well-formed state its linked entry is
      always active, so the entry is reversed and the sale removed together. */
  lemma DeleteSaleKeepsWellFormed(st: State, id: SaleId, actor: Option<UserId>)
    requires WellFormed(st)
    ensures var r := DeleteSale(st, id, actor);
            && (r.Ok? ==> WellFormed(r.value))
            && (id in st.sales && r.Ok? ==> |r.value.ledger| == |st.ledger| + 1)
  {
    var r := DeleteSale(st, id, actor);
    if id in st.sales && r.Ok? {
      var l := st.ledger;
      var k := FindBySaleId(l, id).value;
      assert !l[k].deleted && st.sales[id].amount == l[k].amount;
      ReversalKeepsWellFormed(st, r.value, k);
    }
  }

  lemma DeleteEntryKeepsWellFormed(st: State, id: int, actor: Option<UserId>)
    requires WellFormed(st)
    ensures DeleteEntry(st, id, actor).Ok? ==> WellFormed(DeleteEntry(st, id, actor).value)
  {
    var r := DeleteEntry(st, id, actor);
    if r.Ok? {
      var e := st.ledger[id];
      if e.saleRef.Some? {
        DeleteSaleKeepsWellFormed(st, e.saleRef.value, actor);
      } else {
        ReversalKeepsWellFormed(st, r.value, id);
      }
    }
  }

  /** Reversing an active entry by the negation of its amount keeps the invariant,
      provided the entry's sale (if any) is removed from the store with it. */
  lemma ReversalKeepsWellFormed(st: State, st': State, k: nat)
    requires WellFormed(st) && k < |st.ledger| && !st.ledger[k].deleted
    requires Reversed(st.ledger, st'.ledger, k, -st.ledger[k].amount)
    requires st.ledger[k].saleRef.None? ==> st'.sales == st.sales
    requires st.ledger[k].saleRef.Some? ==> st'.sales == st.sales - {st.ledger[k].saleRef.value}
    requires st'.nextSaleId == st.nextSaleId
    ensures WellFormed(st')
  {
    ReversedKeepsLedger(st.ledger, st'.ledger, k);
    ReversedKeepsLinks(st, st', k);
  }

  /** The ledger-only part of the invariant survives the reversal of an active entry. */
  lemma {:induction false} ReversedKeepsLedger(l: Ledger, l': Ledger, k: nat)
    requires k < |l| && !l[k].deleted && Reversed(l, l', k, -l[k].amount)
    ensures Chained(l) ==> Chained(l')
    ensures SumWhere(l', true) == SumWhere(l, true)
    ensures UniqueRefs(l) ==> UniqueRefs(l')
    ensures forall s: SaleId :: l[k].saleRef != Some(s) ==> FindBySaleId(l', s) == FindBySaleId(l, s)
  {
    ReversedKeepsChained(l, l', k, -l[k].amount);
    ReversedKeepsDeletedSum(l, l', k);
    if UniqueRefs(l) {
      ReversedKeepsUnique(l, l', k, -l[k].amount);
    }
    ReversedKeepsOtherFinds(l, l', k, -l[k].amount);
  }

  lemma ReversedKeepsUnique(l: Ledger, l': Ledger, k: nat, amount: int)
    requires UniqueRefs(l) && Reversed(l, l', k, amount)
    ensures UniqueRefs(l')
    ensures forall j :: 0 <= j < |l'| && l'[j].saleRef.Some? ==> j < |l| && j != k && l'[j] == l[j]
  {
    forall j | 0 <= j < |l'| && l'[j].saleRef.Some?
      ensures j < |l| && j != k && l'[j] == l[j]
    {
    }
  }

  lemma ReversedKeepsLinks(st: State, st': State, k: nat)
    requires LinksConsistent(st) && FreshIds(st) && UniqueRefs(st.ledger) && k < |st.ledger|
    requires Reversed(st.ledger, st'.ledger, k, -st.ledger[k].amount)
    requires st.ledger[k].saleRef.None? ==> st'.sales == st.sales
    requires st.ledger[k].saleRef.Some? ==> st'.sales == st.sales - {st.ledger[k].saleRef.value}
    requires st'.nextSaleId == st.nextSaleId
    ensures LinksConsistent(st') && FreshIds(st')
  {
    ReversedKeepsUnique(st.ledger, st'.ledger, k, -st.ledger[k].amount);
  }

  /** Deleting the same entry twice: the second attempt never succeeds. Because the
      funds check runs first, it reports InsufficientFunds exactly when the balance
      is below twice the entry's amount, and AlreadyDeleted otherwise. */
  lemma DeleteEntryTwice(st: State, id: nat, actor: Option<UserId>, actor2: Option<UserId>)
    requires WellFormed(st) && DeleteEntry(st, id, actor).Ok?
    ensures var again := DeleteEntry(DeleteEntry(st, id, actor).value, id, actor2);
            && (again == Err(InsufficientFunds) <==> Balance(st.ledger) - 2 * st.ledger[id].amount < 0)
            && (again.Err? && again != Err(InsufficientFunds) ==> again == Err(AlreadyDeleted))
            && again.Err?
  {
    var l := st.ledger;
    var r := DeleteEntry(st, id, actor);
    if l[id].saleRef.Some? {
      var s := l[id].saleRef.value;
      assert FindBySaleId(l, s) == Some(id);
    }
    assert r.value.ledger[id].deleted && r.value.ledger[id].amount == l[id].amount;
    assert Balance(r.value.ledger) == Balance(l) - l[id].amount;
  }
}
