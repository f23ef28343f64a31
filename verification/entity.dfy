/** The two persistent records of the cash drawer and the outcome types of its services.

    A ledger entry (the `Transaction` entity) has no id field: its id is its position
    in the ledger sequence. A sale has no id field either: its id is its key in the
    sale store. Users are opaque: only an optional user id is kept, for audit. */
module Entity {

  /** A nullable reference. */
  datatype Option<+T> = None | Some(value: T)

  /** The exception kinds the services throw. */
  datatype Error =
    | NotFound           // EntityNotFoundException: unknown sale or entry id
    | InvalidAmount      // IllegalArgumentException: amount <= 0 for a deposit or withdrawal
    | InsufficientFunds  // IllegalStateException: the drawer would go negative
    | AlreadyDeleted     // IllegalStateException: the entry is already reversed

  /** Either the committed result or the exception that rolled the unit of work back. */
  datatype Result<+T> = Ok(value: T) | Err(error: Error)

  type SaleId = nat
  type UserId = nat

  /** One ledger entry. `deleted` starts false in both constructors of the entity. */
  datatype Entry = Entry(
    description: string,
    amount: int,
    balanceBefore: int,
    balanceAfter: int,
    deleted: bool,
    saleRef: Option<SaleId>,
    user: Option<UserId>)

  /** One sale; the amount is an unrestricted integer, so it may be negative. */
  datatype Sale = Sale(amount: int, soldGoods: string, user: Option<UserId>)

  /** The state of the drawer: the ledger (position = id), the sale store, and the
      next value of the sale identity generator (values are never reused). */
  datatype State = State(ledger: seq<Entry>, sales: map<SaleId, Sale>, nextSaleId: SaleId)

  /** An empty database; identity columns start at 1. */
  const Empty := State([], map[], 1)
}
