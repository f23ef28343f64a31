/** Balance chaining. Every write path appends an entry that opens at the current
    balance and closes at that balance plus its amount; a reversal additionally flags
    the reversed entry in place, without touching its amount or balances. */
module Chain {
  import opened Entity
  import opened Repository

  /** Sum of all amounts. */
  function Total(l: Ledger): int
  {
    if |l| == 0 then 0 else Total(l[..|l| - 1]) + l[|l| - 1].amount
  }

  /** Sum of the amounts of the entries whose deleted flag equals `deleted`. */
  function SumWhere(l: Ledger, deleted: bool): int
  {
    if |l| == 0 then 0
    else SumWhere(l[..|l| - 1], deleted) + (if l[|l| - 1].deleted == deleted then l[|l| - 1].amount else 0)
  }

  /** The chain invariant: each entry closes at its opening balance plus its amount, the
      first opens at 0, and each later one opens where its predecessor closed. */
  predicate Chained(l: Ledger)
  {
    && (forall i :: 0 <= i < |l| ==> l[i].balanceAfter == l[i].balanceBefore + l[i].amount)
    && (|l| > 0 ==> l[0].balanceBefore == 0)
    && (forall i :: 0 < i < |l| ==> l[i].balanceBefore == l[i - 1].balanceAfter)
  }

  /** The one way a new entry is written: opening balance read from the tail. */
  function Append(l: Ledger, description: string, amount: int, deleted: bool,
                  saleRef: Option<SaleId>, user: Option<UserId>): (r: Ledger)
    ensures |r| == |l| + 1 && r[..|l|] == l
    ensures r[|l|] == Entry(description, amount, Balance(l), Balance(l) + amount, deleted, saleRef, user)
    ensures Balance(r) == Balance(l) + amount
  {
    var before := Balance(l);
    l + [Entry(description, amount, before, before + amount, deleted, saleRef, user)]
  }

  /** Entry `k` is flagged deleted with its sale reference cleared and its description
      replaced; then a deleted, sale-less entry of `amount` is appended. */
  function Compensate(l: Ledger, k: nat, flaggedDescription: string,
                      reversalDescription: string, amount: int, user: Option<UserId>): (r: Ledger)
    requires k < |l|
    ensures Reversed(l, r, k, amount)
    ensures r[k].description == flaggedDescription
    ensures r[|l|].description == reversalDescription && r[|l|].user == user
    ensures Chained(l) ==> Chained(r)
  {
    var flagged := l[k := l[k].(deleted := true, saleRef := None, description := flaggedDescription)];
    assert Balance(flagged) == Balance(l);
    var r := Append(flagged, reversalDescription, amount, true, None, user);
    ReversedKeepsChained(l, r, k, amount);
    r
  }

  /** `r` is `l` with entry `k` reversed by a compensating entry of `amount`: entry `k`
      keeps its amount and balances but is flagged deleted and unlinked, every other
      entry is unchanged, and one deleted, unlinked entry is chained onto the tail. */
  ghost predicate Reversed(l: Ledger, r: Ledger, k: nat, amount: int)
  {
    && k < |l| && |r| == |l| + 1
    && r[k].deleted && r[k].saleRef == None
    && r[k].amount == l[k].amount
    && r[k].balanceBefore == l[k].balanceBefore && r[k].balanceAfter == l[k].balanceAfter
    && r[k].user == l[k].user
    && (forall j :: 0 <= j < |l| && j != k ==> r[j] == l[j])
    && r[|l|].amount == amount && r[|l|].deleted && r[|l|].saleRef == None
    && r[|l|].balanceBefore == Balance(l)
    && r[|l|].balanceAfter == Balance(l) + amount
    && Balance(r) == Balance(l) + amount
  }

  /** On a chained ledger the current balance is the sum of all amounts. */
  lemma {:induction false} BalanceIsTotal(l: Ledger)
    requires Chained(l)
    ensures Balance(l) == Total(l)
  {
    if |l| > 0 {
      var p := l[..|l| - 1];
      assert Chained(p) by {
        assert forall i :: 0 <= i < |p| ==> p[i] == l[i];
      }
      BalanceIsTotal(p);
      if |p| > 0 {
        assert l[|l| - 1].balanceBefore == p[|p| - 1].balanceAfter;
      }
    }
  }

  /** Every amount is counted exactly once, among the deleted or among the others. */
  lemma {:induction false} TotalSplits(l: Ledger)
    ensures Total(l) == SumWhere(l, false) + SumWhere(l, true)
  {
    if |l| > 0 {
      TotalSplits(l[..|l| - 1]);
    }
  }

  lemma {:induction false} SumWhereAppend(l: Ledger, e: Entry, deleted: bool)
    ensures SumWhere(l + [e], deleted) == SumWhere(l, deleted) + (if e.deleted == deleted then e.amount else 0)
  {
    assert (l + [e])[..|l|] == l;
  }

  /** Replacing entry `k` changes a flag-filtered sum by the difference of the two
      entries' contributions. */
  lemma {:induction false} SumWhereUpdate(l: Ledger, k: nat, e: Entry, deleted: bool)
    requires k < |l|
    ensures SumWhere(l[k := e], deleted)
         == SumWhere(l, deleted)
          - (if l[k].deleted == deleted then l[k].amount else 0)
          + (if e.deleted == deleted then e.amount else 0)
  {
    var u := l[k := e];
    if k == |l| - 1 {
      assert u[..|u| - 1] == l[..|l| - 1];
    } else {
      assert u[..|u| - 1] == l[..|l| - 1][k := e];
      SumWhereUpdate(l[..|l| - 1], k, e, deleted);
    }
  }

  lemma AppendKeepsChained(l: Ledger, description: string, amount: int, deleted: bool,
                           saleRef: Option<SaleId>, user: Option<UserId>)
    requires Chained(l)
    ensures Chained(Append(l, description, amount, deleted, saleRef, user))
  {
  }

  /** A reversal keeps the chain: the flagged entry's balances are untouched and the
      compensating entry is chained onto the tail. */
  lemma ReversedKeepsChained(l: Ledger, r: Ledger, k: nat, amount: int)
    requires Reversed(l, r, k, amount)
    ensures Chained(l) ==> Chained(r)
  {
    if !Chained(l) {
      return;
    }
    forall i | 0 < i < |r|
      ensures r[i].balanceBefore == r[i - 1].balanceAfter
    {
      if i == |l| {
        assert r[i - 1].balanceAfter == l[|l| - 1].balanceAfter;
      }
    }
  }

  /** A reversal of an entry that was not yet deleted, by the negation of its amount,
      leaves the sum of the deleted amounts unchanged. */
  lemma {:induction false} ReversedKeepsDeletedSum(l: Ledger, r: Ledger, k: nat)
    requires k < |l| && Reversed(l, r, k, -l[k].amount) && !l[k].deleted
    ensures SumWhere(r, true) == SumWhere(l, true)
    ensures SumWhere(r, false) == SumWhere(l, false) - l[k].amount
  {
    var u := l[k := r[k]];
    assert r == u + [r[|l|]];
    SumWhereUpdate(l, k, r[k], true);
    SumWhereUpdate(l, k, r[k], false);
    SumWhereAppend(u, r[|l|], true);
    SumWhereAppend(u, r[|l|], false);
  }

  /** Reversing an entry that carries no reference to sale `s` does not change which
      entry `findBySaleId(s)` returns. */
  lemma {:induction false} ReversedKeepsFind(l: Ledger, r: Ledger, k: nat, amount: int, s: SaleId)
    requires Reversed(l, r, k, amount) && l[k].saleRef != Some(s)
    ensures FindBySaleId(r, s) == FindBySaleId(l, s)
  {
    forall j | 0 <= j < |r|
      ensures r[j].saleRef == Some(s) <==> j < |l| && l[j].saleRef == Some(s)
    {
    }
  }

  lemma {:induction false} ReversedKeepsOtherFinds(l: Ledger, r: Ledger, k: nat, amount: int)
    requires Reversed(l, r, k, amount)
    ensures forall s: SaleId :: l[k].saleRef != Some(s) ==> FindBySaleId(r, s) == FindBySaleId(l, s)
  {
    forall s: SaleId | l[k].saleRef != Some(s)
      ensures FindBySaleId(r, s) == FindBySaleId(l, s)
    {
      ReversedKeepsFind(l, r, k, amount, s);
    }
  }

  /** Appending an entry that carries no reference to sale `s` does not change which
      entry `findBySaleId(s)` returns. */
  lemma {:induction false} AppendKeepsFind(l: Ledger, r: Ledger, s: SaleId)
    requires |r| == |l| + 1 && r[..|l|] == l && r[|l|].saleRef != Some(s)
    ensures FindBySaleId(r, s) == FindBySaleId(l, s)
  {
  }
}
