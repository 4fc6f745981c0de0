# Bookkeeper domain rules in Dafny

A model of the rules behind the three tabs of the bookkeeper desktop
application. The tabs are categories, expenses and budgets. The model
follows the widget code that holds the rules, not the Qt plumbing around it:

- **Categories**: resolving a typed parent name to a key. Adding a
  category under a lower-cased name. Deleting the earliest category that
  equals the typed name and parent, except the one stored under the
  protected key 255. The delete then moves the deleted category's
  expenses and child categories up to its parent. The module also covers
  editing the name or parent cell of the category table, and the table
  itself, newest first.
- **Expenses**: adding a payment under the category named in the form.
  Deleting the earliest payment with the same amount, category and
  expense date. Editing the four cells of the history table: date,
  amount, category and comment. Unparsable input leaves the store as it
  was. The module also covers the history table itself, newest first.
- **Budgets**: the start of the current day, week (Monday) and month
  (the 1st). The limit in force for a period, which is the most recently
  added budget of that length. The day, week and month totals that the
  budget tab shows next to the limits. Setting a new limit, and the
  default end date of a budget.

The repository every widget talks to is modelled as an insertion-ordered
table, `Repository.Repo`:

- `add` hands out the next key;
- `get_all(filter)` returns the exact matches in insertion order;
- `update` replaces one record by key;
- `delete` removes one record.

Moments in time are integer seconds. Day `n` starts at `n * 86400`. Days
are counted as proleptic Gregorian ordinals, with 0001-01-01 as day 1, a
Monday. "Today" is a parameter, not a clock reading. Parsing with `strptime`
is a parameter `parseDateTime: string -> Option<int>`. `int()` is modelled by
`Text.ParseInt`, an optional sign followed by ASCII digits. `str.lower()` is
modelled by `Text.Lower`, which folds the ASCII capitals A–Z and the capitals of the
basic Cyrillic block, U+0400–U+042F (Ѐ–Џ and А–Я). Other capitals are
kept as typed.

Where the application indexes `[0]` into a lookup that can come back empty, and
no handler catches the `IndexError`, the model makes a non-empty lookup a
precondition. Examples are the delete target, `cat_to_pk` and the budget
limits. Refusals that the application does handle are modelled as results:
`Status.ParentMissing`, `Status.WrongInput` and `Status.RootProtected`.

Files: `basics.dfy` (option type, sequence reversal), `text.dfy`
(lower-casing, integer parsing), `calendar.dfy` (dates, ordinals,
weekdays), `repository.dfy`, `models.dfy` (entities and referential
integrity), `categories.dfy`, `expenses.dfy`, `budgets.dfy`.

## Model

| member | source | states |
|---|---|---|
| Repository.Add | bookkeeper/view/categories.py:197-198 | `add` stores the entity last, under a key no stored record has, and keeps keys ascending and below the next key |
| Repository.AddThenGet | tests/test_models/test_budget.py:30-33 | the key `add` returns fetches the added entity back, and every other key answers `get` as before |
| Repository.Get | bookkeeper/view/categories.py:70-71 | `get(pk)` is absent exactly when no record has the key, else it is that record's entity |
| Repository.GetAll | bookkeeper/view/expense.py:190-192 | `get_all(filter)` returns only stored records that satisfy the filter and misses none of them |
| Repository.GetAllUnfiltered | bookkeeper/view/expense.py:75-77 | `get_all()` with no filter returns every stored record, in insertion order |
| Repository.GetAllFirst | bookkeeper/view/categories.py:200-201 | the first record of `get_all(filter)` is the earliest stored match: nothing stored before it matches |
| Repository.GetAllLast | bookkeeper/view/budget.py:94-95 | the last record of `get_all(filter)` is the latest stored match: nothing stored after it matches |
| Repository.GetAllOrdered | bookkeeper/view/categories.py:92-94 | on a valid store `get_all(filter)` keeps keys strictly ascending, i.e. insertion order |
| Repository.FirstPk | bookkeeper/view/expense.py:205 | `get_all(filter)[0].pk` is the key of the earliest stored record that matches |
| Repository.Update | bookkeeper/view/categories.py:81 | `update` replaces the entity under the key and leaves every other record, every key and the next key alone |
| Repository.UpdateThenGet | bookkeeper/view/categories.py:71-81 | after `update`, `get` on that key gives the new entity and every other key answers as before |
| Repository.Delete | bookkeeper/view/categories.py:204 | `delete` removes exactly the record with the key; the others keep their order and the next key is unchanged |
| Repository.DeleteThenGet | bookkeeper/view/categories.py:204 | after `delete`, `get` on that key is absent and every other key answers as before |
| Repository.DeleteFirst | bookkeeper/view/expense.py:190-193 | deleting `get_all(filter)[0]` removes the earliest matching record and keeps the rest in order |
| Repository.UpdateWhere | bookkeeper/view/categories.py:205-211 | updating every match of a filter rewrites exactly the matching records and keeps keys and order |
| Repository.TableIndex | bookkeeper/view/categories.py:70 | line `row` of a table built from `get_all()[::-1]` is the record at position `len - 1 - row` |
| Categories.ParentToPk | bookkeeper/view/categories.py:13-28 | `None` exactly when no stored name equals `name.lower()`; otherwise the key of the earliest such category |
| Categories.ParentToPkIgnoresCase | bookkeeper/view/categories.py:26 | a name resolves to the same key as its lower-cased form |
| Categories.DeleteTarget | bookkeeper/view/categories.py:200-201 | the key of the earliest stored category equal to the typed name and resolved parent |
| Categories.EditCategory | bookkeeper/view/categories.py:191-211 | an unresolved, non-empty parent is refused with nothing changed. Add appends the lower-cased name under the resolved parent. Delete is refused on key 255; otherwise it removes the target and moves its expenses and children to its parent |
| Categories.Cascade | bookkeeper/view/categories.py:204-211 | after the delete, every expense in the deleted category and every child of it points at the deleted category's parent, and nothing else changes |
| Categories.CascadeLeavesNoReference | bookkeeper/view/categories.py:204-211 | after the cascade no category or expense refers to the deleted key, unless the category was its own parent |
| Categories.CascadeKeepsIntegrity | bookkeeper/view/categories.py:204-211 | if every parent and expense category resolved before, and the new parent is stored or absent, every one resolves after |
| Categories.CascadeKeepsParents | bookkeeper/view/categories.py:204-211 | if every parent resolved before, and the new parent is stored and is not the deleted key, or is absent, every parent resolves after |
| Categories.CategoryCellEdit | bookkeeper/view/categories.py:58-82 | an edit of column 0 sets the name on that line to the lower-cased text. Any other column sets the parent when the text resolves, otherwise it is refused with nothing changed. Only that record changes |
| Categories.NameEditShown | bookkeeper/view/categories.py:69-73 | after an edit of a name cell the table line shows the lower-cased text, and every parent still resolves |
| Categories.ParentEditShown | bookkeeper/view/categories.py:74-77 | after an accepted edit of a parent cell every parent still resolves, and the table line shows the lower-cased name typed in as the parent |
| Categories.SelfParentEdit | bookkeeper/view/categories.py:75-77 | when the name on a line resolves to that line's own category, typing it into the parent cell is accepted and makes the category its own parent |
| Categories.SelfParentEditAccepted | bookkeeper/view/categories.py:75-77 | a concrete store where typing a category's own name into its parent cell is accepted and makes it its own parent |
| Categories.SelfParentDeleteDangles | bookkeeper/view/categories.py:200-211 | a concrete store where deleting a category that is its own parent leaves its child pointing at the deleted key |
| Categories.CategoryCellEditCorrected | bookkeeper/view/categories.py:75-80 | a parent edit that names the edited category itself is refused with nothing changed; every other edit behaves as `CategoryCellEdit` |
| Categories.CorrectedEditKeepsParents | bookkeeper/view/categories.py:69-81 | with the corrected edit no category becomes its own parent, and every parent still resolves |
| Categories.DeleteKeepsParents | bookkeeper/view/categories.py:199-211 | when no category is its own parent, the delete keeps every parent resolvable |
| Categories.CategoryLines | bookkeeper/view/categories.py:84-101 | one table line per category, newest first, with its name and its parent's name, or empty for none |
| Expenses.CatToPk | bookkeeper/view/expense.py:195-205 | the key of the earliest stored category named `cat.lower()` |
| Expenses.EditExpense | bookkeeper/view/expense.py:168-193 | add appends the payment with the resolved category, the given date and `now` as added date. Delete removes the earliest payment matching amount, category and expense date, and keeps the rest in order |
| Expenses.ExpenseCellEdit | bookkeeper/view/expense.py:39-65 | column 0 sets the added date, 1 the amount, 2 the category, others the comment. Text that does not parse is refused with nothing changed. Only that record changes |
| Expenses.ExpenseCellEditCorrected | bookkeeper/view/expense.py:54-55 | column 0 sets the expense date; every other column behaves as `ExpenseCellEdit` |
| Expenses.AddThenDelete | bookkeeper/view/expense.py:185-193 | deleting with the same form right after adding removes the payment just added, when no older payment matches |
| Expenses.AmountEditShown | bookkeeper/view/expense.py:56-57 | after an accepted edit of an amount cell the table line shows the parsed amount |
| Expenses.ExpenseLines | bookkeeper/view/expense.py:67-81 | one table line per expense, newest first, with its expense date, amount, category name and comment |
| Expenses.TopLevelDeleteOrphans | bookkeeper/view/categories.py:205-208 | deleting a top-level category leaves its expenses with no category, so the history table's precondition fails |
| Expenses.DateEditNotShown | bookkeeper/view/expense.py:55 | an accepted date-cell edit, as written, leaves every table line unchanged |
| Expenses.CorrectedDateEditShown | bookkeeper/view/expense.py:78 | with the corrected edit the line shows the date typed in |
| Expenses.DateEditExample | bookkeeper/view/expense.py:55 | a concrete store where editing the date cell to "200" reports success yet the line still shows 100 |
| Budgets.StartDate | bookkeeper/view/budget.py:12-33 | the anchor is a midnight no later than today's. For 7 it is a Monday less than a week back; for 28 to 31 it is the 1st of this month; otherwise it is today |
| Budgets.AnchorsFor | bookkeeper/view/budget.py:100-107 | the day anchor is today's midnight and is no earlier than the week and month anchors |
| Budgets.SplitWindow | bookkeeper/view/budget.py:98-108 | moving a window's start earlier adds exactly the expenses in the uncovered stretch |
| Budgets.WindowNonNegative | bookkeeper/view/budget.py:98-108 | without negative amounts every window total is non-negative |
| Budgets.Totals | bookkeeper/view/budget.py:96-108 | the day total is everything since midnight, the week total everything since Monday, the month total everything since the earlier of Monday and the 1st. Each total is the previous one plus its stretch, so with non-negative amounts day ≤ week ≤ month |
| Budgets.CurrentLimit | bookkeeper/view/budget.py:94-95 | the limit for a length is the amount of the most recently added budget of that length |
| Budgets.BudgetTable | bookkeeper/view/budget.py:85-113 | the table pairs each of the day, week and month totals with the current limit of length 1, 7 and 30 |
| Budgets.WarnsOnOpen | bookkeeper/view/budget.py:53-58 | the overspending warning appears exactly when the day, week or month total exceeds the newest limit of length 1, 7 or 30 |
| Budgets.PeriodLength | bookkeeper/view/budget.py:164-170 | "day" is 1, "month" is 30, and "week" or anything else is 7 |
| Budgets.NewBudget | bookkeeper/view/budget.py:150-172 | appends one budget for the chosen period with no category, starting at that period's anchor and ending that many days later |
| Budgets.NewBudgetSetsLimit | bookkeeper/view/budget.py:171-172 | after a new budget, the limit reported for its period is the new amount |
| Budgets.NewBudgetKeepsOtherLimits | bookkeeper/view/budget.py:171-172 | a new budget leaves the limit of every other period as it was |
| Budgets.WeekStraddlesMonth | bookkeeper/view/budget.py:104-107 | on Wednesday 1 March 2023 an expense at noon on Monday 27 February is counted in the month total |
| Models.MakeBudget | tests/test_models/test_budget.py:14-27 | a budget keeps amount, category and length; without an end date it ends `length` days after its start |
| Text.ParseShowRoundTrip | bookkeeper/view/expense.py:57 | `int()` reads back every integer written in decimal |
| Calendar.BackToMonday | bookkeeper/view/budget.py:25-27 | stepping back `weekday()` days from any day lands on a Monday |
| Calendar.YearLength | bookkeeper/view/budget.py:28-32 | the months of a year add up to 365 days, 366 in a leap year |
| Calendar.DaysBeforeNextYear | bookkeeper/view/budget.py:28-32 | the days before the next year are the days before this year plus this year's length |
| Calendar.MonthsAdjoin | bookkeeper/view/budget.py:28-32 | the 1st of a month is one day after the last day of the month before it |
| Calendar.YearsAdjoin | bookkeeper/view/budget.py:28-32 | 1 January is one day after the 31 December before it |

## Left out

- The Qt widgets are not modelled: layouts, tables, combo boxes, message boxes, the 0.5 s timer and signal wiring. A refused edit is a `Status` value instead of a dialog. The combo box lists built with `capitalize()` are display only and are not modelled.
- The `presenter.py` and `interface.py` wiring is not modelled; it only builds the tabs.
- The SQLite and in-memory repositories are not modelled; `Repository.Repo` stands for both. Filters compare fields exactly, so a `{'parent': None}` filter is an equality on `None` and SQL `NULL` semantics are not modelled.
- Clock readings are not modelled: `date.today()`, `datetime.now()` and `QDateTime.currentDateTime()` become parameters. So is the chance that two readings in one call fall on different days.
- Time-zone handling is not modelled, and neither is the string form of dates in the store; dates are integer seconds. `Expenses.EditExpense` therefore compares the expense date as a value where `edit_expense` compares `str(date)` with the stored text.
- `strptime` and `strftime` are not modelled. They are the parameter `parseDateTime`, which is assumed to give the same instant the stored text denotes.
- Text.ParseInt: does not accept the surrounding whitespace, underscores or non-ASCII digits that Python's `int()` accepts, because only the decimal form typed into the amount cell is modelled.
- Text.Lower: folds only A–Z and U+0400–U+042F. Other capitals, such as those of the Cyrillic supplement or of Greek, are kept as typed, where Python's `str.lower()` would fold them.
- `bookkeeper/models/budget.py`, `bookkeeper/models/expense.py` and `bookkeeper/models/category.py` are not part of this model.
- Models.MakeBudget: the default end, `length` days after the start, follows `tests/test_models/test_budget.py:22-27`. The default start, the current moment, is an assumption; the tests do not show it. A budget added from the budget tab is assumed to have no category.
- Repository.Update: requires a stored key, because every caller passes a key it has just read back and `update` does not handle a missing one.
- Budgets.BudgetTable and Budgets.CurrentLimit: require a stored budget of each length. With none, `[0]` raises `IndexError` in `set_data`, and nothing catches it.
- Expenses.ExpenseCellEdit: requires a resolvable name for a column 2 edit. An unknown name raises `IndexError`, which the handler does not catch (it catches only `TypeError` and `ValueError`).
- Expenses.ExpenseLines: requires every expense to name a stored category. An expense with no category makes `int(None)` raise `TypeError` (`bookkeeper/view/expense.py:79`), and nothing in `set_data` catches it. Such expenses arise when a top-level category is deleted (`Expenses.TopLevelDeleteOrphans`).
- Categories.CategoryLines: requires every parent key to be stored. A top-level category is handled: `int(None)` raises `TypeError`, which `set_data` catches and shows as an empty parent (`bookkeeper/view/categories.py:95-99`). A parent key that is not stored makes `get` return nothing, and reading `.name` from it is not caught (`bookkeeper/view/categories.py:97`). Such keys arise when a category that is its own parent is deleted (see Findings).
- Categories.EditCategory: a delete requires that the typed name and parent match a stored category, because the unguarded `[0]` raises otherwise. Protection compares the key with 255, not the name "Другое", so it protects whatever category holds that key.
- Categories.CategoryCellEditCorrected: refuses only a category named as its own parent. A longer cycle, such as x under y and y under x, is still accepted; deleting x then makes y its own parent, and `Categories.DeleteKeepsParents` covers only stores with no self-parent.

## Findings

| source | as written | input that shows it | evidently intended | confidence | as-written member | corrected member |
|---|---|---|---|---|---|---|
| bookkeeper/view/expense.py:55 | an edit of the history table's Date column writes `added_date`, while the column displays `expense_date` (line 78) | one expense with expense date 100; edit its Date cell to a text that parses as 200; the edit is accepted but the line still shows 100 | the edit sets `expense_date`, the value the column shows | not executed | Expenses.ExpenseCellEdit, Expenses.DateEditNotShown, Expenses.DateEditExample | Expenses.ExpenseCellEditCorrected, Expenses.CorrectedDateEditShown |
| bookkeeper/view/categories.py:75-77 | a parent-cell edit accepts any name that resolves, including the edited category's own name; deleting that category later moves its children to the deleted key (lines 209-211), and the next table refresh reads a missing parent (line 97) | "x" (key 2) with child "y" (key 3); type "x" into x's parent cell, then delete "x" with parent "x"; "y" is left with parent key 2, which is no longer stored | a category cannot be made its own parent, so deleting it moves its children to a stored category | medium, not executed | Categories.CategoryCellEdit, Categories.SelfParentEdit, Categories.SelfParentEditAccepted, Categories.SelfParentDeleteDangles | Categories.CategoryCellEditCorrected, Categories.CorrectedEditKeepsParents, Categories.DeleteKeepsParents |
