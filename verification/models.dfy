/** The three entities the application stores, and the referential
    integrity that ties expenses and categories together. Keys live in
    the repository's `Row`, not in the entities. */
module Models {
  import opened Basics
  import opened Calendar
  import opened Repository

  /** A spending category; names are stored lower-cased, `parent` is the
      key of the parent category or `None` for a top-level one. */
  datatype Category = Category(name: string, parent: Option<int>)

  /** One payment. `category` is `None` only after its category was
      deleted from under a top-level parent. Dates are timestamps. */
  datatype Expense = Expense(amount: int, category: Option<int>, expenseDate: int,
                             addedDate: int, comment: string)

  /** A spending limit of `amount` over a period of `length` days. */
  datatype Budget = Budget(amount: int, category: Option<int>, length: int,
                           startDate: int, endDate: int)

  /** The two buttons of the add/delete forms. */
  datatype Mode = Adding | Deleting

  /** What an edit did: applied; refused because a parent name is
      unknown or a typed value is not acceptable (it does not parse, or,
      in the corrected parent edit, names the edited category itself);
      or silently ignored because the target holds the protected
      category key. */
  datatype Status = Done | ParentMissing | WrongInput | RootProtected

  /** `Budget(amount, category, length, start_date, end_date)`: omitted
      start means now; omitted end means `length` days after the start. */
  function MakeBudget(amount: int, category: Option<int>, length: int,
                      startDate: Option<int>, endDate: Option<int>, now: int): (b: Budget)
    ensures b.amount == amount && b.category == category && b.length == length
    ensures startDate.Some? ==> b.startDate == startDate.value
    ensures startDate.None? ==> b.startDate == now
    ensures endDate.Some? ==> b.endDate == endDate.value
    ensures endDate.None? ==> b.endDate - b.startDate == length * SecondsPerDay
  {
    var start := if startDate.Some? then startDate.value else now;
    Budget(amount, category, length, start,
           if endDate.Some? then endDate.value else start + length * SecondsPerDay)
  }

  /** Every parent key names a stored category. */
  predicate ParentsResolve(cats: Repo<Category>) {
    forall i :: 0 <= i < |cats.rows| && cats.rows[i].item.parent.Some? ==>
      HasPk(cats.rows, cats.rows[i].item.parent.value)
  }

  /** Every parent key and every expense's category key names a stored
      category. */
  predicate Integrity(cats: Repo<Category>, exps: Repo<Expense>) {
    && ParentsResolve(cats)
    && (forall i :: 0 <= i < |exps.rows| && exps.rows[i].item.category.Some? ==>
          HasPk(cats.rows, exps.rows[i].item.category.value))
  }

  /** Nothing stored refers to the category key `pk`. */
  predicate Unreferenced(cats: Repo<Category>, exps: Repo<Expense>, pk: int) {
    && !HasPk(cats.rows, pk)
    && (forall i :: 0 <= i < |cats.rows| ==> cats.rows[i].item.parent != Some(pk))
    && (forall i :: 0 <= i < |exps.rows| ==> exps.rows[i].item.category != Some(pk))
  }
}
