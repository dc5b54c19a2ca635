/**
  The transaction store (src/database/db.ts): one SQLite table, modelled as
  a sequence of rows plus the AUTOINCREMENT counter.

  Every store call catches the engine's exceptions, logs them and carries on.
  An engine failure the model cannot see (I/O error, locked file, ...) is the
  `fault` parameter of each operation; a table that was never created is
  `tableExists == false`, on which every statement fails the same way.
 */
module Store {
  import opened Types
  import opened Collation

  /** Largest rowid SQLite hands out; an AUTOINCREMENT insert beyond it fails. */
  const MaxRowId: int := 0x7FFF_FFFF_FFFF_FFFF

  const Income: string := "income"
  const Expense: string := "expense"

  datatype FinancialSummary = FinancialSummary(totalIncome: real, totalExpense: real, balance: real)

  const ZeroSummary := FinancialSummary(0.0, 0.0, 0.0)

  /** Row ids strictly increase along the table (insertion order). */
  ghost predicate IdsIncreasing(rows: seq<Transaction>) {
    forall i, j :: 0 <= i < j < |rows| ==> rows[i].id < rows[j].id
  }

  /** Some row has `type = kind`. */
  predicate HasKind(rows: seq<Transaction>, kind: string) {
    exists i :: 0 <= i < |rows| && rows[i].kind == kind
  }

  /** The mathematical sum of `amount` over the rows whose type is `kind`. */
  function Total(rows: seq<Transaction>, kind: string): real {
    if rows == [] then 0.0
    else (if rows[0].kind == kind then rows[0].amount else 0.0) + Total(rows[1..], kind)
  }

  lemma {:induction false} TotalWithoutKind(rows: seq<Transaction>, kind: string)
    requires !HasKind(rows, kind)
    ensures Total(rows, kind) == 0.0
  {
    if rows != [] {
      assert forall i :: 0 <= i < |rows| - 1 ==> rows[1..][i] == rows[i + 1];
      TotalWithoutKind(rows[1..], kind);
    }
  }

  /**
    `SELECT SUM(amount) FROM transactions WHERE type = kind`: SQL's SUM is
    NULL (here None) over no rows, and otherwise the sum of the matching amounts.
   */
  function SumWhere(rows: seq<Transaction>, kind: string): (r: Option<real>)
    ensures r.None? <==> !HasKind(rows, kind)
    ensures r.Some? ==> r.value == Total(rows, kind)
  {
    if rows == [] then None
    else
      var rest := SumWhere(rows[1..], kind);
      if rows[0].kind != kind then
        assert HasKind(rows, kind) ==> HasKind(rows[1..], kind) by {
          if HasKind(rows, kind) {
            var i :| 0 <= i < |rows| && rows[i].kind == kind;
            assert rows[1..][i - 1].kind == kind;
          }
        }
        rest
      else
        assert rest.None? ==> Total(rows[1..], kind) == 0.0 by {
          if rest.None? {
            TotalWithoutKind(rows[1..], kind);
          }
        }
        Some(rows[0].amount + rest.GetOr(0.0))
  }

  /**
    The summary over a readable table: the two SUM queries with NULL read
    as 0, and the balance as their difference.
   */
  function SummaryOf(rows: seq<Transaction>): (s: FinancialSummary)
    ensures s.totalIncome == Total(rows, Income)
    ensures s.totalExpense == Total(rows, Expense)
    ensures s.balance == s.totalIncome - s.totalExpense
  {
    assert forall kind :: !HasKind(rows, kind) ==> Total(rows, kind) == 0.0 by {
      forall kind | !HasKind(rows, kind) {
        TotalWithoutKind(rows, kind);
      }
    }
    var totalIncome := SumWhere(rows, Income).GetOr(0.0);
    var totalExpense := SumWhere(rows, Expense).GetOr(0.0);
    FinancialSummary(totalIncome, totalExpense, totalIncome - totalExpense)
  }

  /** `DELETE FROM transactions WHERE id = ?` applied to a row sequence. */
  function WithoutId(rows: seq<Transaction>, id: int): (r: seq<Transaction>)
    ensures forall t :: t in r <==> t in rows && t.id != id
  {
    if rows == [] then []
    else (if rows[0].id == id then [] else [rows[0]]) + WithoutId(rows[1..], id)
  }

  /** Deleting an id no row carries leaves the table as it was. */
  lemma {:induction false} DeleteAbsent(rows: seq<Transaction>, id: int)
    requires forall i :: 0 <= i < |rows| ==> rows[i].id != id
    ensures WithoutId(rows, id) == rows
  {
    if rows != [] {
      DeleteAbsent(rows[1..], id);
      assert rows == [rows[0]] + rows[1..];
    }
  }

  /** Deleting the id of row `k` removes exactly that row and keeps the others in order. */
  lemma {:induction false} DeletePresent(rows: seq<Transaction>, k: nat, id: int)
    requires IdsIncreasing(rows) && k < |rows| && rows[k].id == id
    ensures WithoutId(rows, id) == rows[..k] + rows[k + 1..]
  {
    IdsIncreasingTail(rows);
    if k == 0 {
      assert forall i :: 0 <= i < |rows| - 1 ==> rows[1..][i].id != id by {
        forall i | 0 <= i < |rows| - 1
          ensures rows[1..][i].id != id
        {
          assert rows[1..][i] == rows[i + 1];
        }
      }
      DeleteAbsent(rows[1..], id);
    } else {
      DeletePresent(rows[1..], k - 1, id);
      assert rows[..k] + rows[k + 1..] == [rows[0]] + (rows[1..][..k - 1] + rows[1..][k..]);
    }
  }

  lemma IdsIncreasingTail(rows: seq<Transaction>)
    requires IdsIncreasing(rows) && rows != []
    ensures IdsIncreasing(rows[1..])
  {
    forall i, j | 0 <= i < j < |rows| - 1
      ensures rows[1..][i].id < rows[1..][j].id
    {
      assert rows[1..][i] == rows[i + 1] && rows[1..][j] == rows[j + 1];
    }
  }

  lemma {:induction false} DeleteKeepsIdsIncreasing(rows: seq<Transaction>, id: int)
    requires IdsIncreasing(rows)
    ensures IdsIncreasing(WithoutId(rows, id))
  {
    if k :| 0 <= k < |rows| && rows[k].id == id {
      DeletePresent(rows, k, id);
      RemoveAtKeepsIdsIncreasing(rows, k);
    } else {
      DeleteAbsent(rows, id);
    }
  }

  lemma RemoveAtKeepsIdsIncreasing(rows: seq<Transaction>, k: nat)
    requires IdsIncreasing(rows) && k < |rows|
    ensures IdsIncreasing(rows[..k] + rows[k + 1..])
  {
    var r := rows[..k] + rows[k + 1..];
    forall i, j | 0 <= i < j < |r|
      ensures r[i].id < r[j].id
    {
      var i' := if i < k then i else i + 1;
      var j' := if j < k then j else j + 1;
      assert r[i] == rows[i'] && r[j] == rows[j'];
    }
  }

  lemma {:induction false} TotalConcat(a: seq<Transaction>, b: seq<Transaction>, kind: string)
    ensures Total(a + b, kind) == Total(a, kind) + Total(b, kind)
  {
    if a != [] {
      TotalConcat(a[1..], b, kind);
      assert (a + b)[1..] == a[1..] + b;
    } else {
      assert a + b == b;
    }
  }

  /** A sum does not depend on the order of the rows it adds. */
  lemma {:induction false} TotalPermutation(a: seq<Transaction>, b: seq<Transaction>, kind: string)
    requires multiset(a) == multiset(b)
    ensures Total(a, kind) == Total(b, kind)
  {
    if a != [] {
      var i := IndexIn(b, a[0]);
      var rest := b[..i] + b[i + 1..];
      PermutationWithout(a, b, i);
      TotalPermutation(a[1..], rest, kind);
      TotalRemoveAt(b, i, kind);
    } else {
      assert |b| == |multiset(b)| == 0;
    }
  }

  lemma IndexIn<T>(s: seq<T>, x: T) returns (i: nat)
    requires x in multiset(s)
    ensures i < |s| && s[i] == x
  {
    i :| i < |s| && s[i] == x;
  }

  /** Taking the first element off `a` and the same element off `b` keeps them permutations. */
  lemma PermutationWithout<T>(a: seq<T>, b: seq<T>, i: nat)
    requires multiset(a) == multiset(b) && a != [] && i < |b| && b[i] == a[0]
    ensures multiset(a[1..]) == multiset(b[..i] + b[i + 1..])
  {
    MultisetWithout(a, 0);
    MultisetWithout(b, i);
    assert a[..0] + a[1..] == a[1..];
  }

  lemma MultisetWithout<T>(s: seq<T>, i: nat)
    requires i < |s|
    ensures multiset(s[..i] + s[i + 1..]) == multiset(s) - multiset{s[i]}
  {
    assert s == s[..i] + [s[i]] + s[i + 1..];
  }

  /**
    Appending a row moves the total of its own type by its amount and leaves
    every other type's total alone; a row whose type is neither "income" nor
    "expense" therefore moves neither total.
   */
  lemma SummaryOfAppend(rows: seq<Transaction>, t: Transaction)
    ensures SummaryOf(rows + [t]).totalIncome
         == SummaryOf(rows).totalIncome + (if t.kind == Income then t.amount else 0.0)
    ensures SummaryOf(rows + [t]).totalExpense
         == SummaryOf(rows).totalExpense + (if t.kind == Expense then t.amount else 0.0)
  {
    TotalConcat(rows, [t], Income);
    TotalConcat(rows, [t], Expense);
  }

  /** Deleting row `k` takes its amount off the total of its own type only. */
  lemma SummaryOfDelete(rows: seq<Transaction>, k: nat)
    requires IdsIncreasing(rows) && k < |rows|
    ensures SummaryOf(WithoutId(rows, rows[k].id)).totalIncome
         == SummaryOf(rows).totalIncome - (if rows[k].kind == Income then rows[k].amount else 0.0)
    ensures SummaryOf(WithoutId(rows, rows[k].id)).totalExpense
         == SummaryOf(rows).totalExpense - (if rows[k].kind == Expense then rows[k].amount else 0.0)
  {
    DeletePresent(rows, k, rows[k].id);
    TotalRemoveAt(rows, k, Income);
    TotalRemoveAt(rows, k, Expense);
  }

  lemma TotalRemoveAt(rows: seq<Transaction>, k: nat, kind: string)
    requires k < |rows|
    ensures Total(rows, kind)
         == Total(rows[..k] + rows[k + 1..], kind) + (if rows[k].kind == kind then rows[k].amount else 0.0)
  {
    assert rows == rows[..k] + [rows[k]] + rows[k + 1..];
    TotalConcat(rows[..k] + [rows[k]], rows[k + 1..], kind);
    TotalConcat(rows[..k], [rows[k]], kind);
    TotalConcat(rows[..k], rows[k + 1..], kind);
    assert Total([rows[k]], kind) == (if rows[k].kind == kind then rows[k].amount else 0.0);
  }

  /**
    The in-memory image of `finance.db`: whether the `transactions` table
    exists, its rows in rowid order, and the AUTOINCREMENT counter (one more
    than the largest id ever handed out, as `sqlite_sequence` keeps it).
   */
  class TransactionStore {
    var tableExists: bool
    var rows: seq<Transaction>
    var nextId: int
    /** Every id the table has ever assigned, deleted rows included. */
    ghost var issued: set<int>

    ghost predicate Valid()
      reads this
    {
      && 1 <= nextId <= MaxRowId + 1
      && (forall id :: id in issued ==> 1 <= id < nextId)
      && (forall i :: 0 <= i < |rows| ==> rows[i].id in issued)
      && IdsIncreasing(rows)
      && (!tableExists ==> rows == [])
    }

    /** `openDatabaseSync('finance.db')` on a new file: no table yet. */
    constructor ()
      ensures Valid()
      ensures !tableExists && rows == [] && nextId == 1 && issued == {}
    {
      tableExists := false;
      rows := [];
      nextId := 1;
      issued := {};
    }

    /** A query runs (rather than raising) exactly when the table exists and the engine does not fail. */
    predicate Readable(fault: bool)
      reads this
    {
      tableExists && !fault
    }

    /** An insert also needs a rowid left to hand out. */
    predicate CanInsert(fault: bool)
      reads this
    {
      Readable(fault) && nextId <= MaxRowId
    }

    /**
      `initDatabase`: CREATE TABLE IF NOT EXISTS. Calling it again when the
      table exists changes nothing; a failure is swallowed.
     */
    method Init(fault: bool)
      requires Valid()
      modifies this
      ensures Valid()
      ensures tableExists == (old(tableExists) || !fault)
      ensures rows == old(rows) && nextId == old(nextId) && issued == old(issued)
    {
      if !fault {
        tableExists := true;
      }
    }

    /**
      `addTransaction`: INSERT one row with a fresh id, storing every field
      exactly as given (no validation). A failed insert is swallowed and
      changes nothing.
     */
    method Add(t: NewTransaction, fault: bool)
      requires Valid()
      modifies this
      ensures Valid()
      ensures tableExists == old(tableExists)
      ensures old(CanInsert(fault)) ==>
                && rows == old(rows) + [WithId(old(nextId), t)]
                && nextId == old(nextId) + 1
                && issued == old(issued) + {old(nextId)}
      ensures old(CanInsert(fault)) ==>
                forall id :: id in old(issued) ==> id < rows[|rows| - 1].id
      ensures !old(CanInsert(fault)) ==>
                rows == old(rows) && nextId == old(nextId) && issued == old(issued)
    {
      if CanInsert(fault) {
        rows := rows + [WithId(nextId, t)];
        issued := issued + {nextId};
        nextId := nextId + 1;
      }
    }

    /**
      `deleteTransaction`: DELETE WHERE id = ?. An id no row carries is a
      silent no-op, and so is a failure.
     */
    method Delete(id: int, fault: bool)
      requires Valid()
      modifies this
      ensures Valid()
      ensures tableExists == old(tableExists) && nextId == old(nextId) && issued == old(issued)
      ensures rows == if old(Readable(fault)) then WithoutId(old(rows), id) else old(rows)
    {
      if Readable(fault) {
        DeleteKeepsIdsIncreasing(rows, id);
        rows := WithoutId(rows, id);
      }
    }

    /**
      `getTransactions`: SELECT * ORDER BY date DESC. Every row exactly once,
      dates non-increasing; the empty list when the query fails.
     */
    function List(fault: bool): (r: seq<Transaction>)
      reads this
      ensures Readable(fault) ==> multiset(r) == multiset(rows) && SortedDescBy(r, DateOf)
      ensures !Readable(fault) ==> r == []
    {
      if Readable(fault) then SortDescBy(rows, DateOf) else []
    }

    /** `getFinancialSummary`; all zeros when a query fails. */
    function Summary(fault: bool): (s: FinancialSummary)
      reads this
      ensures s.balance == s.totalIncome - s.totalExpense
      ensures Readable(fault) ==>
                s.totalIncome == Total(rows, Income) && s.totalExpense == Total(rows, Expense)
      ensures !Readable(fault) ==> s == ZeroSummary
    {
      if Readable(fault) then SummaryOf(rows) else ZeroSummary
    }
  }

  /** The listing and the summary agree: summing the listed rows gives the summary's totals. */
  lemma ListAgreesWithSummary(store: TransactionStore, fault: bool, kind: string)
    requires store.Readable(fault)
    ensures Total(store.List(fault), kind) == Total(store.rows, kind)
  {
    TotalPermutation(store.List(fault), store.rows, kind);
  }

  /**
    Reads before the table exists fail soft; after `initDatabase` an empty
    table lists nothing and sums to zero; a second `initDatabase` keeps the
    row the first insert added, and the listing returns it.
   */
  method ClientFreshStore(t: NewTransaction)
  {
    var store := new TransactionStore();
    assert store.List(false) == [] && store.Summary(false) == ZeroSummary;
    store.Init(false);
    assert store.Summary(false) == ZeroSummary;
    store.Add(t, false);
    store.Init(false);
    var listed := store.List(false);
    assert |listed| == |multiset(listed)| == 1 && listed[0] in multiset(listed);
    assert listed == [WithId(1, t)];
  }

  /** Deleting an id no row carries does nothing. */
  method ClientDeleteMissing(store: TransactionStore, t: NewTransaction)
    requires store.Valid() && store.tableExists && store.rows == [WithId(1, t)]
    modifies store
  {
    DeleteAbsent(store.rows, 2);
    store.Delete(2, false);
    assert store.rows == [WithId(1, t)];
  }

  /** Deleting the only row empties the table but does not roll the counter back. */
  method ClientDeleteOnly(store: TransactionStore, t: NewTransaction)
    requires store.Valid() && store.tableExists && store.rows == [WithId(1, t)] && store.nextId == 2
    modifies store
  {
    DeletePresent(store.rows, 0, 1);
    store.Delete(1, false);
    assert store.rows == [] && store.nextId == 2;
  }

  /** After the only row is deleted, the next insert gets a new id, not the deleted one. */
  method ClientNoReuse(store: TransactionStore, t: NewTransaction)
    requires store.Valid() && store.tableExists && store.rows == [] && store.nextId == 2
    modifies store
  {
    store.Add(t, false);
    assert store.rows == [WithId(2, t)];
  }
}
