/** Expense rules of the expenses tab: adding a payment, deleting the
    first payment matching the form, editing the history table's cells,
    and the table's row order. */
module Expenses {
  import opened Basics
  import opened Text
  import opened Repository
  import opened Models
  import opened Categories

  /** Some stored category is named `name.lower()`. */
  predicate Known(cats: Repo<Category>, name: string) {
    exists i :: 0 <= i < |cats.rows| && cats.rows[i].item.name == Lower(name)
  }

  /** `ExpenseManager.cat_to_pk(cat)`: the key of the earliest stored
      category named `cat.lower()`. Unlike `parent_to_pk`, `cat_to_pk`
      does not catch the missing case. */
  function CatToPk(cats: Repo<Category>, cat: string): (pk: int)
    requires Known(cats, cat)
    ensures exists k :: 0 <= k < |cats.rows| && cats.rows[k].pk == pk
                        && cats.rows[k].item.name == Lower(cat)
                        && forall j :: 0 <= j < k ==> cats.rows[j].item.name != Lower(cat)
  {
    ParentToPk(cats, cat).value
  }

  /** The delete form matches on amount, category and expense date only. */
  predicate MatchesForm(e: Expense, amount: int, category: Option<int>, date: int) {
    e.amount == amount && e.category == category && e.expenseDate == date
  }

  /** `ExpenseManager.edit_expense(mode, amount, cat, comm, date)`; `now`
      is the clock reading the new record takes as its added date. */
  function EditExpense(exps: Repo<Expense>, cats: Repo<Category>, mode: Mode, amount: int,
                       cat: string, comm: string, date: int, now: int): (res: Repo<Expense>)
    requires Valid(exps)
    // `edit_expense` indexes `[0]` into both lookups without a guard
    requires Known(cats, cat)
    requires mode == Deleting ==>
               exists i :: 0 <= i < |exps.rows| && MatchesForm(exps.rows[i].item, amount, Some(CatToPk(cats, cat)), date)
    ensures Valid(res)
    ensures mode == Adding ==>
              && |res.rows| == |exps.rows| + 1
              && res.rows[..|exps.rows|] == exps.rows
              && !HasPk(exps.rows, res.rows[|exps.rows|].pk)
              && res.rows[|exps.rows|].item == Expense(amount, Some(CatToPk(cats, cat)), date, now, comm)
    ensures mode == Deleting ==>
              exists k :: && FirstMatch(exps.rows, (e: Expense) => MatchesForm(e, amount, Some(CatToPk(cats, cat)), date), k)
                          && res.rows == exps.rows[..k] + exps.rows[k + 1..]
  {
    var catPk := CatToPk(cats, cat);
    match mode
    case Adding => Add(exps, Expense(amount, Some(catPk), date, now, comm)).0
    case Deleting => DeleteFirst(exps, (e: Expense) => MatchesForm(e, amount, Some(catPk), date))
  }

  /** The edited cell's new value for the field a column stands for, or
      `None` when the text does not parse. */
  function EditedField(before: Expense, cats: Repo<Category>, column: int, text: string,
                       parseDateTime: string -> Option<int>, dateField: Expense -> int -> Expense): (r: Option<Expense>)
    requires column == 2 ==> Known(cats, text)
  {
    if column == 0 then
      (match parseDateTime(text) case None => None case Some(t) => Some(dateField(before)(t)))
    else if column == 1 then
      (match ParseInt(text) case None => None case Some(n) => Some(before.(amount := n)))
    else if column == 2 then Some(before.(category := Some(CatToPk(cats, text))))
    else Some(before.(comment := text))
  }

  /** `ExpenseHistory.handle_cell_changed(row, column)` as written: the
      record on table line `row` gets, for column 0, the parsed text as its
      ADDED date; column 1, the parsed amount; column 2, the category the
      text names; any other column, the text as comment. Text that does not
      parse (`ValueError`) leaves the store untouched. `parseDateTime`
      stands for `strptime` with the table's date format. */
  function ExpenseCellEdit(exps: Repo<Expense>, cats: Repo<Category>, row: nat, column: int, text: string,
                           parseDateTime: string -> Option<int>): (res: (Repo<Expense>, Status))
    requires Valid(exps)
    requires row < |exps.rows|
    // a category name that does not resolve raises IndexError, which the handler does not catch
    requires column == 2 ==> Known(cats, text)
    ensures Valid(res.0)
    ensures var k := TableIndex(exps.rows, row);
            var before := exps.rows[k].item;
            && (column == 0 && parseDateTime(text).Some? ==>
                  res.1 == Done && OnlyRowChanged(exps, res.0, k, before.(addedDate := parseDateTime(text).value)))
            && (column == 1 && ParseInt(text).Some? ==>
                  res.1 == Done && OnlyRowChanged(exps, res.0, k, before.(amount := ParseInt(text).value)))
            && (column == 2 ==>
                  res.1 == Done && OnlyRowChanged(exps, res.0, k, before.(category := Some(CatToPk(cats, text)))))
            && (column !in {0, 1, 2} ==>
                  res.1 == Done && OnlyRowChanged(exps, res.0, k, before.(comment := text)))
            && ((column == 0 && parseDateTime(text).None?) || (column == 1 && ParseInt(text).None?) ==>
                  res.1 == WrongInput && res.0 == exps)
  {
    CellEdit(exps, cats, row, column, text, parseDateTime, (e: Expense) => (t: int) => e.(addedDate := t))
  }

  /** The date edit evidently intended: column 0 of the history table
      shows the expense date, so an edit of that cell sets the expense
      date. Every other column behaves as in `ExpenseCellEdit`. */
  function ExpenseCellEditCorrected(exps: Repo<Expense>, cats: Repo<Category>, row: nat, column: int, text: string,
                                    parseDateTime: string -> Option<int>): (res: (Repo<Expense>, Status))
    requires Valid(exps)
    requires row < |exps.rows|
    requires column == 2 ==> Known(cats, text)
    ensures Valid(res.0)
    ensures var k := TableIndex(exps.rows, row);
            var before := exps.rows[k].item;
            && (column == 0 && parseDateTime(text).Some? ==>
                  res.1 == Done && OnlyRowChanged(exps, res.0, k, before.(expenseDate := parseDateTime(text).value)))
            && (column == 0 && parseDateTime(text).None? ==> res.1 == WrongInput && res.0 == exps)
            && (column != 0 ==> res == ExpenseCellEdit(exps, cats, row, column, text, parseDateTime))
  {
    CellEdit(exps, cats, row, column, text, parseDateTime, (e: Expense) => (t: int) => e.(expenseDate := t))
  }

  /** Shared body of the two date variants: `dateField` says which date a
      column-0 edit writes. */
  function CellEdit(exps: Repo<Expense>, cats: Repo<Category>, row: nat, column: int, text: string,
                    parseDateTime: string -> Option<int>, dateField: Expense -> int -> Expense): (res: (Repo<Expense>, Status))
    requires Valid(exps)
    requires row < |exps.rows|
    requires column == 2 ==> Known(cats, text)
    ensures Valid(res.0)
    ensures var k := TableIndex(exps.rows, row);
            var edited := EditedField(exps.rows[k].item, cats, column, text, parseDateTime, dateField);
            && (edited.Some? ==> res.1 == Done && OnlyRowChanged(exps, res.0, k, edited.value))
            && (edited.None? ==> res.1 == WrongInput && res.0 == exps)
  {
    var k := TableIndex(exps.rows, row);
    var pk := Reverse(exps.rows)[row].pk;
    var changed := Get(exps, pk).value;
    assert changed == exps.rows[k].item;
    match EditedField(changed, cats, column, text, parseDateTime, dateField)
    case None => (exps, WrongInput)
    case Some(e) =>
      UpdateAt(exps, k, e);
      (Update(exps, pk, e), Done)
  }

  /** One line of the history table. */
  datatype ExpenseLine = ExpenseLine(date: int, amount: int, categoryName: string, comment: string)

  /** Every expense names a stored category, as the history table needs. */
  predicate CategoriesResolve(exps: Repo<Expense>, cats: Repo<Category>) {
    forall i :: 0 <= i < |exps.rows| ==>
      exps.rows[i].item.category.Some? && HasPk(cats.rows, exps.rows[i].item.category.value)
  }

  function HistoryLine(cats: Repo<Category>, e: Expense): ExpenseLine
    requires Valid(cats)
    requires e.category.Some? && HasPk(cats.rows, e.category.value)
  {
    ExpenseLine(e.expenseDate, e.amount, Get(cats, e.category.value).value.name, e.comment)
  }

  /** `ExpenseHistory.set_data`: one line per stored expense, newest
      first, showing its expense date, amount, category name and comment. */
  function ExpenseLines(exps: Repo<Expense>, cats: Repo<Category>): (lines: seq<ExpenseLine>)
    requires Valid(cats)
    requires CategoriesResolve(exps, cats)
    ensures |lines| == |exps.rows|
    ensures forall line :: 0 <= line < |lines| ==>
              var e := exps.rows[TableIndex(exps.rows, line)].item;
              && lines[line].date == e.expenseDate
              && lines[line].amount == e.amount
              && lines[line].comment == e.comment
              && exists j :: 0 <= j < |cats.rows| && Some(cats.rows[j].pk) == e.category
                             && lines[line].categoryName == cats.rows[j].item.name
  {
    var got := Reverse(exps.rows);
    seq(|got|, i requires 0 <= i < |got| => HistoryLine(cats, got[i].item))
  }

  /** Deleting a top-level category leaves its expenses with no
      category, and the history table can no longer be built: `int(None)`
      raises for each of them. */
  lemma TopLevelDeleteOrphans(exps: Repo<Expense>, exps': Repo<Expense>, cats': Repo<Category>, t: int, i: int)
    requires 0 <= i < |exps.rows| && exps.rows[i].item.category == Some(t)
    requires ExpensesAfterCascade(exps, exps', t, None)
    ensures exps'.rows[i].item.category == None
    ensures !CategoriesResolve(exps', cats')
  {
    assert exps'.rows[i] == Recategorize(exps.rows[i], t, None);
  }

  /** As written, an accepted edit of the date cell does not change what
      the table shows on that line: the date column displays the expense
      date while the edit writes the added date. */
  lemma DateEditNotShown(exps: Repo<Expense>, cats: Repo<Category>, row: nat, text: string,
                         parseDateTime: string -> Option<int>)
    requires Valid(exps) && Valid(cats)
    requires row < |exps.rows|
    requires CategoriesResolve(exps, cats)
    requires parseDateTime(text).Some?
    ensures var res := ExpenseCellEdit(exps, cats, row, 0, text, parseDateTime);
            && res.1 == Done
            && CategoriesResolve(res.0, cats)
            && ExpenseLines(res.0, cats) == ExpenseLines(exps, cats)
  {
    var res := ExpenseCellEdit(exps, cats, row, 0, text, parseDateTime);
    SameLines(exps, res.0, cats);
  }

  /** Two expenses agree on every field the history table shows. */
  predicate SameShown(a: Expense, b: Expense) {
    && a.expenseDate == b.expenseDate && a.amount == b.amount
    && a.category == b.category && a.comment == b.comment
  }

  /** Two stores that agree on every shown field list the same lines. */
  lemma SameLines(a: Repo<Expense>, b: Repo<Expense>, cats: Repo<Category>)
    requires Valid(cats) && CategoriesResolve(a, cats)
    requires |b.rows| == |a.rows|
    requires forall i :: 0 <= i < |a.rows| ==> SameShown(b.rows[i].item, a.rows[i].item)
    ensures CategoriesResolve(b, cats)
    ensures ExpenseLines(b, cats) == ExpenseLines(a, cats)
  {
    forall i | 0 <= i < |a.rows| ensures b.rows[i].item.category == a.rows[i].item.category {
      assert SameShown(b.rows[i].item, a.rows[i].item);
    }
    var la := ExpenseLines(a, cats);
    var lb := ExpenseLines(b, cats);
    forall line | 0 <= line < |la| ensures lb[line] == la[line] {
      var j := TableIndex(a.rows, line);
      assert SameShown(b.rows[j].item, a.rows[j].item);
    }
  }

  /** With the corrected edit the table line shows the date typed in. */
  lemma CorrectedDateEditShown(exps: Repo<Expense>, cats: Repo<Category>, row: nat, text: string,
                               parseDateTime: string -> Option<int>)
    requires Valid(exps) && Valid(cats)
    requires row < |exps.rows|
    requires CategoriesResolve(exps, cats)
    requires parseDateTime(text).Some?
    ensures var res := ExpenseCellEditCorrected(exps, cats, row, 0, text, parseDateTime);
            && res.1 == Done
            && CategoriesResolve(res.0, cats)
            && ExpenseLines(res.0, cats)[row].date == parseDateTime(text).value
  {
    var res := ExpenseCellEditCorrected(exps, cats, row, 0, text, parseDateTime);
    assert forall i :: 0 <= i < |exps.rows| ==> res.0.rows[i].item.category == exps.rows[i].item.category;
  }

  /** A concrete case of the discrepancy: one expense dated at timestamp
      100, its date cell edited to 200; the store accepts the edit and the
      table still shows 100. */
  lemma DateEditExample()
    ensures var cats := Repo([Row(1, Category("food", None))], 2);
            var exps := Repo([Row(1, Expense(5, Some(1), 100, 100, ""))], 2);
            var parse := (s: string) => if s == "200" then Some(200) else None;
            var res := ExpenseCellEdit(exps, cats, 0, 0, "200", parse);
            && res.1 == Done
            && CategoriesResolve(res.0, cats)
            && ExpenseLines(res.0, cats)[0].date == 100
  {
    var cats := Repo([Row(1, Category("food", None))], 2);
    var exps := Repo([Row(1, Expense(5, Some(1), 100, 100, ""))], 2);
    var parse := (s: string) => if s == "200" then Some(200) else None;
    assert HasPk(cats.rows, 1) by { assert cats.rows[0].pk == 1; }
    DateEditNotShown(exps, cats, 0, "200", parse);
  }

  /** A first match in a store that extends `rows` by one record, where
      nothing in `rows` matches, is the new record. */
  lemma NoEarlierMatch(rows: seq<Row<Expense>>, longer: seq<Row<Expense>>, m: Expense -> bool, k: int)
    requires |longer| == |rows| + 1 && longer[..|rows|] == rows
    requires forall i :: 0 <= i < |rows| ==> !m(rows[i].item)
    requires FirstMatch(longer, m, k)
    ensures k == |rows|
  {
    assert forall i :: 0 <= i < |rows| ==> longer[i] == rows[i];
  }

  /** An accepted edit of the amount cell is what the table then shows
      on that line. */
  lemma AmountEditShown(exps: Repo<Expense>, cats: Repo<Category>, row: nat, text: string,
                        parseDateTime: string -> Option<int>)
    requires Valid(exps) && Valid(cats)
    requires row < |exps.rows|
    requires CategoriesResolve(exps, cats)
    requires ParseInt(text).Some?
    ensures var res := ExpenseCellEdit(exps, cats, row, 1, text, parseDateTime);
            && res.1 == Done
            && CategoriesResolve(res.0, cats)
            && ExpenseLines(res.0, cats)[row].amount == ParseInt(text).value
  {
    var res := ExpenseCellEdit(exps, cats, row, 1, text, parseDateTime);
    assert forall i :: 0 <= i < |exps.rows| ==> res.0.rows[i].item.category == exps.rows[i].item.category;
  }

  /** Deleting with the same form right after adding removes the payment
      just added, when no older payment matches the form. */
  lemma AddThenDelete(exps: Repo<Expense>, cats: Repo<Category>, amount: int, cat: string,
                      comm: string, date: int, now: int)
    requires Valid(exps) && Known(cats, cat)
    requires forall i :: 0 <= i < |exps.rows| ==> !MatchesForm(exps.rows[i].item, amount, Some(CatToPk(cats, cat)), date)
    ensures var added := EditExpense(exps, cats, Adding, amount, cat, comm, date, now);
            && MatchesForm(added.rows[|exps.rows|].item, amount, Some(CatToPk(cats, cat)), date)
            && EditExpense(added, cats, Deleting, amount, cat, comm, date, now).rows == exps.rows
  {
    var added := EditExpense(exps, cats, Adding, amount, cat, comm, date, now);
    var n := |exps.rows|;
    var pk := CatToPk(cats, cat);
    assert added.rows[n].item == Expense(amount, Some(pk), date, now, comm);
    var res := EditExpense(added, cats, Deleting, amount, cat, comm, date, now);
    var m := (e: Expense) => MatchesForm(e, amount, Some(pk), date);
    var k :| FirstMatch(added.rows, m, k) && res.rows == added.rows[..k] + added.rows[k + 1..];
    NoEarlierMatch(exps.rows, added.rows, m, k);
    assert added.rows[..n] == exps.rows;
  }
}
