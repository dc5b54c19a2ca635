/**
  The save action of the add-transaction form (`handleSave`): check the
  amount, then the description, then build the record and hand it to the
  store exactly once.

  `Number(amountText)` is an input, `parsed`: `None` stands for NaN. The
  current time `new Date().toISOString()` is the input `now`.
 */
module AddTransaction {
  import opened Types
  import opened Text
  import Store

  /** The two segments of the type selector. */
  datatype TxType = Income | Expense {
    /** The value the segment carries, which becomes the stored `type`. */
    function Name(): (n: string)
      ensures n == Store.Income || n == Store.Expense
      ensures (n == Store.Income) == Income?
    {
      match this
      case Income => Store.Income
      case Expense => Store.Expense
    }
  }

  /** The selector starts on "expense". */
  const InitialType: TxType := Expense

  /** Stored when the category field is blank. */
  const DefaultCategory: string := "General"

  datatype SaveOutcome =
    | InvalidAmount        // alert "Invalid Amount", nothing stored
    | InvalidDescription   // alert "Invalid Description", nothing stored
    | Accepted(record: NewTransaction)

  /** The amount is rejected: empty text, not a number, or not positive. */
  predicate AmountRejected(amountText: string, parsed: Option<real>) {
    amountText == [] || parsed.None? || parsed.value <= 0.0
  }

  /**
    The checks of `handleSave`, in their order, and the record it builds.
   */
  function Validate(amountText: string, parsed: Option<real>, description: string,
                    category: string, kind: TxType, now: string): (o: SaveOutcome)
    ensures o.InvalidAmount? <==> AmountRejected(amountText, parsed)
    ensures o.InvalidDescription? <==> !AmountRejected(amountText, parsed) && Trim(description) == []
    ensures o.Accepted? ==>
              && parsed.Some? && o.record.amount == parsed.value && o.record.amount > 0.0
              && o.record.description == Trim(description)
              && o.record.category == (if Trim(category) == [] then DefaultCategory else Trim(category))
              && o.record.kind == kind.Name()
              && o.record.date == now
  {
    if AmountRejected(amountText, parsed) then InvalidAmount
    else if Trim(description) == [] then InvalidDescription
    else
      var cat := Trim(category);
      Accepted(NewTransaction(
        amount := parsed.value,
        kind := kind.Name(),
        date := now,
        description := Trim(description),
        category := if cat == [] then DefaultCategory else cat))
  }

  /**
    Every record the form accepts is well formed: a positive amount, a type
    that is "income" or "expense", a non-empty description and category with
    no whitespace at either end (unless the category is the default).
   */
  lemma {:induction false} AcceptedIsWellFormed(amountText: string, parsed: Option<real>, description: string,
                                                category: string, kind: TxType, now: string)
    requires Validate(amountText, parsed, description, category, kind, now).Accepted?
    ensures var t := Validate(amountText, parsed, description, category, kind, now).record;
            && t.amount > 0.0
            && (t.kind == Store.Income || t.kind == Store.Expense)
            && t.description != [] && !IsTrimmable(t.description[0]) && !IsTrimmable(t.description[|t.description| - 1])
            && t.category != []
            && (t.category == DefaultCategory || (!IsTrimmable(t.category[0]) && !IsTrimmable(t.category[|t.category| - 1])))
            && t.date == now
  {
  }

  /**
    A non-positive amount is rejected whatever else the form holds, before
    the description is looked at.
   */
  lemma RejectsNonPositive(amountText: string, x: real, description: string,
                           category: string, kind: TxType, now: string)
    requires x <= 0.0
    ensures Validate(amountText, Some(x), description, category, kind, now) == InvalidAmount
  {
  }

  /**
    `handleSave`: validate, then (only on acceptance) one `addTransaction`
    call with the built record. The store swallows its own failures, so the
    outcome is `Accepted` even when the insert did not happen.
   */
  method HandleSave(store: Store.TransactionStore, amountText: string, parsed: Option<real>,
                    description: string, category: string, kind: TxType, now: string, fault: bool)
    returns (o: SaveOutcome)
    requires store.Valid()
    modifies store
    ensures store.Valid()
    ensures o == Validate(amountText, parsed, description, category, kind, now)
    ensures store.tableExists == old(store.tableExists)
    ensures o.Accepted? && old(store.CanInsert(fault)) ==>
              && store.rows == old(store.rows) + [WithId(old(store.nextId), o.record)]
              && store.nextId == old(store.nextId) + 1
              && store.issued == old(store.issued) + {old(store.nextId)}
    ensures o.Accepted? && old(store.CanInsert(fault)) ==>
              forall id :: id in old(store.issued) ==> id < store.rows[|store.rows| - 1].id
    ensures !(o.Accepted? && old(store.CanInsert(fault))) ==>
              && store.rows == old(store.rows)
              && store.nextId == old(store.nextId)
              && store.issued == old(store.issued)
  {
    o := Validate(amountText, parsed, description, category, kind, now);
    if o.Accepted? {
      store.Add(o.record, fault);
    }
  }

  /**
    A fresh form: the selector on its initial segment, a valid amount and a
    blank category. The save stores an "expense" row filed under "General"
    with the next id; a second save with a blank description stores nothing.
   */
  method ClientDefaultSelection(store: Store.TransactionStore, now: string)
    requires store.Valid() && store.tableExists && store.rows == [] && store.nextId == 1
    modifies store
  {
    var o := HandleSave(store, "12.5", Some(12.5), " Lunch ", "  ", InitialType, now, false);
    assert o.Accepted? && o.record.kind == "expense" && o.record.category == "General";
    var saved := WithId(1, o.record);
    assert store.rows == [saved] && saved.amount == 12.5 && saved.date == now;
    o := HandleSave(store, "3", Some(3.0), "   ", "Food", InitialType, now, false);
    assert o == InvalidDescription;
    assert store.rows == [saved] && store.nextId == 2;
  }
}
