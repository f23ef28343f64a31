/** The descriptions the services write into ledger entries. Only the prefixes put in
    front of a reversed entry's description matter to the ledger rules; the rest is
    audit text, reproduced for completeness. */
module Text {

  /** Decimal rendering of a non-negative id, as Java's string concatenation does. */
  function NatToString(n: nat): (s: string)
    ensures |s| >= 1
    ensures forall i :: 0 <= i < |s| ==> '0' <= s[i] <= '9'
    decreases n
  {
    if n < 10 then ["0123456789"[n]] else NatToString(n / 10) + ["0123456789"[n % 10]]
  }

  const DepositText := "Vklad peněz do pokladny"
  const WithdrawText := "Výběr peněz z pokladny"

  /** Prefix put on a plain entry reversed by `deleteTransactionById`. */
  const PlainReversedPrefix := "(smazáno) - "
  /** Prefix put on a sale entry reversed by `deleteSaleById` / `deleteAllSales`. */
  const SaleReversedPrefix := "(smazáno) "

  function SaleText(soldGoods: string): string
  {
    "Nová tržba - prodané zboží: " + soldGoods
  }

  /** Description of the entry that reverses plain entry `id`. */
  function PlainReversalText(id: nat, original: string): string
  {
    "Zrušení transakce ID: " + NatToString(id) + " - " + original
  }

  /** Description of the entry that reverses the entry `id` of a sale. */
  function SaleReversalText(id: nat, soldGoods: string): string
  {
    "Zrušená transankce ID: " + NatToString(id) + " Tržba - " + soldGoods
  }
}
