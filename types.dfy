/**
  Records shared by the store and the screens: the `Transaction` row of the
  `transactions` table and the insert payload `Omit<Transaction, 'id'>`.
 */
module Types {

  datatype Option<+T> = None | Some(value: T) {
    /**
      The value, or `d` when absent. With `d` = 0 this is `total || 0` on a
      SUM result, which is NULL or a number; a SUM of 0 also gives 0 there.
     */
    function GetOr(default: T): T {
      match this
      case Some(v) => v
      case None => default
    }
  }

  /**
    One row of the `transactions` table. `kind` is the `type` column: a TEXT
    column, so the store keeps whatever string it is given. `amount` is the
    REAL column, modelled as an exact real.
   */
  datatype Transaction = Transaction(
    id: int,
    amount: real,
    kind: string,
    date: string,
    description: string,
    category: string)

  /** What `addTransaction` receives: a transaction without its id. */
  datatype NewTransaction = NewTransaction(
    amount: real,
    kind: string,
    date: string,
    description: string,
    category: string)

  /** The row the store writes for `t` once it has chosen the id. */
  function WithId(id: int, t: NewTransaction): (row: Transaction)
    ensures row.id == id && Payload(row) == t
  {
    Transaction(id, t.amount, t.kind, t.date, t.description, t.category)
  }

  /** Every column of a row except its id. */
  function Payload(row: Transaction): NewTransaction {
    NewTransaction(row.amount, row.kind, row.date, row.description, row.category)
  }

  /** The `date` column, the sort key of the listing. */
  function DateOf(row: Transaction): string {
    row.date
  }
}
