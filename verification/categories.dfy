/** Category rules of the categories tab: resolving a typed name to a
    key, adding a category, deleting one with its references moved up to
    its parent, editing the table cells, and the table's row order. */
module Categories {
  import opened Basics
  import opened Text
  import opened Repository
  import opened Models

  /** The key the delete guard refuses to delete. The guard compares keys,
      not names: whichever category holds key 255 is protected. */
  const RootPk: int := 255

  /** `parent_to_pk(repo, name)`: the key of the earliest stored category
      whose name equals `name.lower()`, or `None` when there is none. */
  function ParentToPk(cats: Repo<Category>, name: string): (r: Option<int>)
    ensures r.None? <==> forall i :: 0 <= i < |cats.rows| ==> cats.rows[i].item.name != Lower(name)
    ensures r.Some? ==> exists k :: 0 <= k < |cats.rows| && cats.rows[k].pk == r.value
                          && cats.rows[k].item.name == Lower(name)
                          && forall j :: 0 <= j < k ==> cats.rows[j].item.name != Lower(name)
  {
    var p := (c: Category) => c.name == Lower(name);
    var matches := GetAll(cats.rows, p);
    if |matches| == 0 then None
    else
      GetAllFirst(cats.rows, p);
      Some(matches[0].pk)
  }

  /** A name held by the first stored category resolves to its key. */
  lemma FirstResolves(cats: Repo<Category>, name: string)
    requires |cats.rows| > 0 && cats.rows[0].item.name == Lower(name)
    ensures ParentToPk(cats, name) == Some(cats.rows[0].pk)
  {
    var r := ParentToPk(cats, name);
    var k :| 0 <= k < |cats.rows| && cats.rows[k].pk == r.value
             && cats.rows[k].item.name == Lower(name)
             && forall j :: 0 <= j < k ==> cats.rows[j].item.name != Lower(name);
    assert k == 0;
  }

  /** Looking a name up is insensitive to case: an already lower-cased
      name resolves exactly as the name itself. */
  lemma ParentToPkIgnoresCase(cats: Repo<Category>, name: string)
    ensures ParentToPk(cats, Lower(name)) == ParentToPk(cats, name)
  {
    LowerIdempotent(name);
  }

  /** The parent field of the form is acceptable: empty, or a name that
      resolves. */
  predicate ParentAccepted(cats: Repo<Category>, parent: string) {
    parent == "" || ParentToPk(cats, parent).Some?
  }

  predicate Stored(cats: Repo<Category>, c: Category) {
    exists i :: 0 <= i < |cats.rows| && cats.rows[i].item == c
  }

  /** `get_all({'name': name, 'parent': parent})[0].pk`: the key of the
      earliest stored category equal to `c`. */
  function DeleteTarget(cats: Repo<Category>, c: Category): (pk: int)
    requires Stored(cats, c)
    ensures exists k :: 0 <= k < |cats.rows| && cats.rows[k].pk == pk && cats.rows[k].item == c
                        && forall j :: 0 <= j < k ==> cats.rows[j].item != c
  {
    FirstPk(cats.rows, (x: Category) => x == c)
  }

  /** A category row after its parent `from` was deleted: pointed at `to`
      when it was a child of `from`, untouched otherwise. */
  function Reparent(row: Row<Category>, from: int, to: Option<int>): Row<Category> {
    if row.item.parent == Some(from) then Row(row.pk, row.item.(parent := to)) else row
  }

  /** An expense row after its category `from` was deleted. */
  function Recategorize(row: Row<Expense>, from: int, to: Option<int>): Row<Expense> {
    if row.item.category == Some(from) then Row(row.pk, row.item.(category := to)) else row
  }

  /** The categories after the cascade: the record with key `t` is gone,
      every child of `t` now has parent `to`, everything else as before. */
  predicate CategoriesAfterCascade(cats: Repo<Category>, cats': Repo<Category>, t: int, to: Option<int>)
    requires HasPk(cats.rows, t)
  {
    var k := IndexOf(cats.rows, t);
    && cats'.nextPk == cats.nextPk
    && |cats'.rows| == |cats.rows| - 1
    && (forall i :: 0 <= i < k ==> cats'.rows[i] == Reparent(cats.rows[i], t, to))
    && (forall i :: k < i < |cats.rows| ==> cats'.rows[i - 1] == Reparent(cats.rows[i], t, to))
  }

  /** The expenses after the cascade: those in category `t` moved to
      `to` with every other field and the key kept, the rest untouched. */
  predicate ExpensesAfterCascade(exps: Repo<Expense>, exps': Repo<Expense>, t: int, to: Option<int>) {
    && exps'.nextPk == exps.nextPk
    && |exps'.rows| == |exps.rows|
    && (forall i :: 0 <= i < |exps.rows| ==> exps'.rows[i] == Recategorize(exps.rows[i], t, to))
  }

  /** `CategoryManager.edit_category(mode, name, parent)`. */
  method EditCategory(cats: Repo<Category>, exps: Repo<Expense>, mode: Mode, name: string, parent: string)
    returns (cats': Repo<Category>, exps': Repo<Expense>, status: Status)
    requires Valid(cats) && Valid(exps)
    // `edit_category` indexes `[0]` into the delete lookup without a guard
    requires mode == Deleting && ParentAccepted(cats, parent) ==>
               Stored(cats, Category(Lower(name), ParentToPk(cats, parent)))
    ensures Valid(cats') && Valid(exps')
    ensures status == ParentMissing <==> !ParentAccepted(cats, parent)
    ensures status != Done ==> cats' == cats && exps' == exps
    ensures mode == Adding && ParentAccepted(cats, parent) ==>
              && status == Done
              && exps' == exps
              && |cats'.rows| == |cats.rows| + 1
              && cats'.rows[..|cats.rows|] == cats.rows
              && !HasPk(cats.rows, cats'.rows[|cats.rows|].pk)
              && cats'.rows[|cats.rows|].item == Category(Lower(name), ParentToPk(cats, parent))
    ensures mode == Deleting && ParentAccepted(cats, parent) ==>
              var t := DeleteTarget(cats, Category(Lower(name), ParentToPk(cats, parent)));
              && (status == RootProtected <==> t == RootPk)
              && (t != RootPk ==>
                    && status == Done
                    && CategoriesAfterCascade(cats, cats', t, ParentToPk(cats, parent))
                    && ExpensesAfterCascade(exps, exps', t, ParentToPk(cats, parent)))
  {
    var parentPk := ParentToPk(cats, parent);
    var cat := Category(Lower(name), parentPk);
    if parent != "" && parentPk.None? {
      return cats, exps, ParentMissing;
    }
    match mode {
      case Adding =>
        cats' := Add(cats, cat).0;
        exps' := exps;
        status := Done;
      case Deleting =>
        var t := DeleteTarget(cats, cat);
        if t == RootPk {
          return cats, exps, RootProtected;
        }
        assert HasPk(cats.rows, t);
        cats', exps' := Cascade(cats, exps, t, parentPk);
        status := Done;
    }
  }

  /** The delete branch once the target key `t` is known: the record is
      removed, then every expense in it and every child of it is moved to
      `to`, the deleted category's parent. */
  method Cascade(cats: Repo<Category>, exps: Repo<Expense>, t: int, to: Option<int>)
    returns (cats': Repo<Category>, exps': Repo<Expense>)
    requires Valid(cats) && Valid(exps) && HasPk(cats.rows, t)
    ensures Valid(cats') && Valid(exps')
    ensures CategoriesAfterCascade(cats, cats', t, to)
    ensures ExpensesAfterCascade(exps, exps', t, to)
  {
    var remaining := Delete(cats, t);
    exps' := UpdateWhere(exps, (e: Expense) => e.category == Some(t),
                         (e: Expense) => e.(category := to));
    cats' := UpdateWhere(remaining, (c: Category) => c.parent == Some(t),
                         (c: Category) => c.(parent := to));
    CascadeShape(cats, remaining, cats', t, to);
  }

  lemma CascadeShape(cats: Repo<Category>, remaining: Repo<Category>, cats': Repo<Category>, t: int, to: Option<int>)
    requires Valid(cats) && HasPk(cats.rows, t)
    requires remaining == Delete(cats, t)
    requires cats'.nextPk == remaining.nextPk
    requires |cats'.rows| == |remaining.rows|
    requires forall i :: 0 <= i < |remaining.rows| ==>
               cats'.rows[i] == Reparent(remaining.rows[i], t, to)
    ensures CategoriesAfterCascade(cats, cats', t, to)
  {
  }

  /** After a delete, nothing refers to the deleted key any more, unless
      the deleted category was its own parent. */
  lemma CascadeLeavesNoReference(cats: Repo<Category>, exps: Repo<Expense>,
                                 cats': Repo<Category>, exps': Repo<Expense>, t: int, to: Option<int>)
    requires Valid(cats) && HasPk(cats.rows, t)
    requires CategoriesAfterCascade(cats, cats', t, to)
    requires ExpensesAfterCascade(exps, exps', t, to)
    requires to != Some(t)
    ensures Unreferenced(cats', exps', t)
  {
    var k := IndexOf(cats.rows, t);
    forall i | 0 <= i < |cats'.rows| ensures cats'.rows[i].pk != t && cats'.rows[i].item.parent != Some(t) {
      var j := if i < k then i else i + 1;
      assert cats'.rows[i] == Reparent(cats.rows[j], t, to);
      assert cats.rows[j].pk != t by {
        if cats.rows[j].pk == t { UniquePks(cats, j, k); }
      }
    }
  }

  /** The cascade keeps every parent resolvable when the new parent is a
      stored category other than the deleted one, or no parent at all. */
  lemma CascadeKeepsParents(cats: Repo<Category>, cats': Repo<Category>, t: int, to: Option<int>)
    requires Valid(cats) && HasPk(cats.rows, t)
    requires ParentsResolve(cats)
    requires to.Some? ==> HasPk(cats.rows, to.value) && to.value != t
    requires CategoriesAfterCascade(cats, cats', t, to)
    ensures ParentsResolve(cats')
  {
    forall i | 0 <= i < |cats'.rows| && cats'.rows[i].item.parent.Some?
      ensures HasPk(cats'.rows, cats'.rows[i].item.parent.value)
    {
      var k := IndexOf(cats.rows, t);
      var j := if i < k then i else i + 1;
      assert cats'.rows[i] == Reparent(cats.rows[j], t, to);
      SurvivingKey(cats, cats', t, to, cats'.rows[i].item.parent.value);
    }
  }

  /** The cascade keeps every reference resolvable when the new parent is
      a stored category other than the deleted one, or no parent at all. */
  lemma CascadeKeepsIntegrity(cats: Repo<Category>, exps: Repo<Expense>,
                              cats': Repo<Category>, exps': Repo<Expense>, t: int, to: Option<int>)
    requires Valid(cats) && HasPk(cats.rows, t)
    requires Integrity(cats, exps)
    requires to.Some? ==> HasPk(cats.rows, to.value) && to.value != t
    requires CategoriesAfterCascade(cats, cats', t, to)
    requires ExpensesAfterCascade(exps, exps', t, to)
    ensures Integrity(cats', exps')
  {
    CascadeKeepsParents(cats, cats', t, to);
    forall i | 0 <= i < |exps'.rows| && exps'.rows[i].item.category.Some?
      ensures HasPk(cats'.rows, exps'.rows[i].item.category.value)
    {
      assert exps'.rows[i] == Recategorize(exps.rows[i], t, to);
      SurvivingKey(cats, cats', t, to, exps'.rows[i].item.category.value);
    }
  }

  /** A stored key other than the deleted one survives the cascade. */
  lemma SurvivingKey(cats: Repo<Category>, cats': Repo<Category>, t: int, to: Option<int>, q: int)
    requires Valid(cats) && HasPk(cats.rows, t)
    requires CategoriesAfterCascade(cats, cats', t, to)
    requires HasPk(cats.rows, q) && q != t
    ensures HasPk(cats'.rows, q)
  {
    var k := IndexOf(cats.rows, t);
    var j :| 0 <= j < |cats.rows| && cats.rows[j].pk == q;
    assert j != k;
    var i := if j < k then j else j - 1;
    assert cats'.rows[i].pk == q;
  }

  /** `CategoriesExists.handle_cell_changed(row, column)`: the record on
      table line `row` gets the lower-cased text as its name (column 0)
      or, when the text names a stored category, that category as its
      parent (any other column). */
  function CategoryCellEdit(cats: Repo<Category>, row: nat, column: int, text: string): (res: (Repo<Category>, Status))
    requires Valid(cats)
    requires row < |cats.rows|
    ensures Valid(res.0)
    ensures var k := TableIndex(cats.rows, row);
            var before := cats.rows[k].item;
            && (column == 0 ==> res.1 == Done && OnlyRowChanged(cats, res.0, k, before.(name := Lower(text))))
            && (column != 0 && ParentToPk(cats, text).Some? ==>
                  res.1 == Done && OnlyRowChanged(cats, res.0, k, before.(parent := ParentToPk(cats, text))))
            && (column != 0 && ParentToPk(cats, text).None? ==> res.1 == ParentMissing && res.0 == cats)
  {
    var newVal := Lower(text);
    var k := TableIndex(cats.rows, row);
    var pk := Reverse(cats.rows)[row].pk;
    var changed := Get(cats, pk).value;
    assert changed == cats.rows[k].item;
    ParentToPkIgnoresCase(cats, text);
    if column == 0 then
      UpdateAt(cats, k, changed.(name := newVal));
      (Update(cats, pk, changed.(name := newVal)), Done)
    else
      var parentPk := ParentToPk(cats, newVal);
      if parentPk.Some? then
        UpdateAt(cats, k, changed.(parent := parentPk));
        (Update(cats, pk, changed.(parent := parentPk)), Done)
      else (cats, ParentMissing)
  }

  /** One line of the category table: the name and the parent's name
      (empty for a top-level category). */
  datatype CategoryLine = CategoryLine(name: string, parentName: string)

  function Line(cats: Repo<Category>, row: Row<Category>): CategoryLine
    requires Valid(cats)
    requires row.item.parent.Some? ==> HasPk(cats.rows, row.item.parent.value)
  {
    match row.item.parent
    case None => CategoryLine(row.item.name, "")
    case Some(p) => CategoryLine(row.item.name, Get(cats, p).value.name)
  }

  /** `CategoriesExists.set_data`: one line per stored category, newest
      first, naming each category and its parent. */
  function CategoryLines(cats: Repo<Category>): (lines: seq<CategoryLine>)
    requires Valid(cats)
    requires ParentsResolve(cats)
    ensures |lines| == |cats.rows|
    ensures forall line :: 0 <= line < |lines| ==>
              var c := cats.rows[TableIndex(cats.rows, line)].item;
              && lines[line].name == c.name
              && (c.parent.None? ==> lines[line].parentName == "")
              && (c.parent.Some? ==> exists j :: 0 <= j < |cats.rows| && cats.rows[j].pk == c.parent.value
                                                && lines[line].parentName == cats.rows[j].item.name)
  {
    var got := Reverse(cats.rows);
    seq(|got|, i requires 0 <= i < |got| => Line(cats, got[i]))
  }

  /** An edit of a name cell is what the table then shows on that line,
      lower-cased. */
  lemma NameEditShown(cats: Repo<Category>, row: nat, text: string)
    requires Valid(cats) && ParentsResolve(cats)
    requires row < |cats.rows|
    ensures var res := CategoryCellEdit(cats, row, 0, text);
            && res.1 == Done
            && Valid(res.0) && ParentsResolve(res.0)
            && CategoryLines(res.0)[row].name == Lower(text)
  {
    var res := CategoryCellEdit(cats, row, 0, text);
    var k := TableIndex(cats.rows, row);
    forall i | 0 <= i < |res.0.rows| && res.0.rows[i].item.parent.Some?
      ensures HasPk(res.0.rows, res.0.rows[i].item.parent.value)
    {
      assert res.0.rows[i].item.parent == cats.rows[i].item.parent;
      var j :| 0 <= j < |cats.rows| && cats.rows[j].pk == cats.rows[i].item.parent.value;
      assert res.0.rows[j].pk == cats.rows[j].pk;
    }
  }

  /** An accepted edit of a parent cell keeps every parent resolvable,
      and the table line then shows the name of the new parent. */
  lemma ParentEditShown(cats: Repo<Category>, row: nat, column: int, text: string)
    requires Valid(cats) && ParentsResolve(cats)
    requires row < |cats.rows| && column != 0
    requires ParentToPk(cats, text).Some?
    ensures var res := CategoryCellEdit(cats, row, column, text);
            && res.1 == Done
            && Valid(res.0) && ParentsResolve(res.0)
            && CategoryLines(res.0)[row].parentName == Lower(text)
  {
    var res := CategoryCellEdit(cats, row, column, text);
    var k := TableIndex(cats.rows, row);
    var p := ParentToPk(cats, text).value;
    var m :| 0 <= m < |cats.rows| && cats.rows[m].pk == p && cats.rows[m].item.name == Lower(text);
    assert res.0.rows[m].pk == p && res.0.rows[m].item.name == Lower(text);
    forall i | 0 <= i < |res.0.rows| && res.0.rows[i].item.parent.Some?
      ensures HasPk(res.0.rows, res.0.rows[i].item.parent.value)
    {
      if i != k {
        assert res.0.rows[i].item.parent == cats.rows[i].item.parent;
        var j :| 0 <= j < |cats.rows| && cats.rows[j].pk == cats.rows[i].item.parent.value;
        assert res.0.rows[j].pk == cats.rows[j].pk;
      }
    }
    var lines := CategoryLines(res.0);
    var j :| 0 <= j < |res.0.rows| && res.0.rows[j].pk == p && lines[row].parentName == res.0.rows[j].item.name;
    UniquePks(res.0, j, m);
  }

  // ---------------------------------------------------------------------
  // A category as its own parent
  // ---------------------------------------------------------------------

  /** No category is recorded as its own parent. */
  predicate NoSelfParent(cats: Repo<Category>) {
    forall i :: 0 <= i < |cats.rows| ==> cats.rows[i].item.parent != Some(cats.rows[i].pk)
  }

  /** As written, the parent cell accepts the category's own name: when
      the name on a line resolves to that line's category, the edit is
      applied and makes the category its own parent. */
  lemma SelfParentEdit(cats: Repo<Category>, row: nat, column: int)
    requires Valid(cats) && row < |cats.rows| && column != 0
    requires var c := cats.rows[TableIndex(cats.rows, row)];
             ParentToPk(cats, c.item.name) == Some(c.pk)
    ensures var res := CategoryCellEdit(cats, row, column, cats.rows[TableIndex(cats.rows, row)].item.name);
            res.1 == Done && !NoSelfParent(res.0)
  {
    var k := TableIndex(cats.rows, row);
    var res := CategoryCellEdit(cats, row, column, cats.rows[k].item.name);
    assert res.0.rows[k].item.parent == Some(res.0.rows[k].pk);
  }

  /** A concrete case: on a store holding "x" (key 2) and its child "y"
      (key 3), typing "x" into the parent cell of x's line makes x its
      own parent. */
  lemma SelfParentEditAccepted()
    ensures var cats := Repo([Row(2, Category("x", None)), Row(3, Category("y", Some(2)))], 4);
            var res := CategoryCellEdit(cats, 1, 1, "x");
            && Valid(cats) && ParentsResolve(cats) && NoSelfParent(cats)
            && res.1 == Done && !NoSelfParent(res.0)
            && res.0 == Repo([Row(2, Category("x", Some(2))), Row(3, Category("y", Some(2)))], 4)
  {
    var cats := Repo([Row(2, Category("x", None)), Row(3, Category("y", Some(2)))], 4);
    var after := Repo([Row(2, Category("x", Some(2))), Row(3, Category("y", Some(2)))], 4);
    assert Valid(cats) && ParentsResolve(cats) && NoSelfParent(cats) by {
      assert HasPk(cats.rows, 2) by { assert cats.rows[0].pk == 2; }
    }
    assert CategoryCellEdit(cats, 1, 1, "x") == (after, Done) by {
      assert TableIndex(cats.rows, 1) == 0;
      assert ParentToPk(cats, "x") == Some(2) by {
        assert Lower("x") == "x" by { assert LowerChar('x') == 'x'; }
        FirstResolves(cats, "x");
      }
      var res := CategoryCellEdit(cats, 1, 1, "x");
      assert res.1 == Done && OnlyRowChanged(cats, res.0, 0, Category("x", Some(2)));
      assert res.0.rows[0] == after.rows[0];
      assert res.0.rows[1] == after.rows[1];
      assert res.0.rows == after.rows;
    }
    assert !NoSelfParent(after) by {
      assert after.rows[0].item.parent == Some(after.rows[0].pk);
    }
  }

  /** Deleting a category that is its own parent moves its children to
      the deleted key: on the store `SelfParentEditAccepted` ends with,
      deleting "x" with parent "x" targets key 2 and leaves "y" pointing
      at it, so the next `set_data` looks up a missing key. */
  lemma SelfParentDeleteDangles(cats': Repo<Category>)
    ensures var cats := Repo([Row(2, Category("x", Some(2))), Row(3, Category("y", Some(2)))], 4);
            && Valid(cats) && ParentsResolve(cats)
            && ParentToPk(cats, "x") == Some(2)
            && Stored(cats, Category(Lower("x"), Some(2)))
            && DeleteTarget(cats, Category(Lower("x"), Some(2))) == 2
            && (CategoriesAfterCascade(cats, cats', 2, Some(2)) ==> !ParentsResolve(cats'))
  {
    var cats := Repo([Row(2, Category("x", Some(2))), Row(3, Category("y", Some(2)))], 4);
    assert Valid(cats) && ParentsResolve(cats) by {
      assert HasPk(cats.rows, 2) by { assert cats.rows[0].pk == 2; }
    }
    assert Lower("x") == "x" by { assert LowerChar('x') == 'x'; }
    FirstResolves(cats, "x");
    assert cats.rows[0].item == Category("x", Some(2));
    if CategoriesAfterCascade(cats, cats', 2, Some(2)) {
      assert IndexOf(cats.rows, 2) == 0;
      assert cats'.rows[0] == Row(3, Category("y", Some(2)));
      assert !HasPk(cats'.rows, 2);
    }
  }

  /** The corrected parent edit: as `CategoryCellEdit`, except that a
      parent naming the edited category itself is refused. */
  function CategoryCellEditCorrected(cats: Repo<Category>, row: nat, column: int, text: string): (res: (Repo<Category>, Status))
    requires Valid(cats)
    requires row < |cats.rows|
    ensures var k := TableIndex(cats.rows, row);
            if column != 0 && ParentToPk(cats, text) == Some(cats.rows[k].pk)
            then res.1 == WrongInput && res.0 == cats
            else res == CategoryCellEdit(cats, row, column, text)
  {
    var k := TableIndex(cats.rows, row);
    if column != 0 && ParentToPk(cats, Lower(text)) == Some(Reverse(cats.rows)[row].pk) then
      ParentToPkIgnoresCase(cats, text);
      (cats, WrongInput)
    else
      ParentToPkIgnoresCase(cats, text);
      CategoryCellEdit(cats, row, column, text)
  }

  /** The corrected edit never makes a category its own parent, and it
      keeps every parent resolvable. */
  lemma CorrectedEditKeepsParents(cats: Repo<Category>, row: nat, column: int, text: string)
    requires Valid(cats) && ParentsResolve(cats) && NoSelfParent(cats)
    requires row < |cats.rows|
    ensures var res := CategoryCellEditCorrected(cats, row, column, text);
            NoSelfParent(res.0) && ParentsResolve(res.0)
  {
    var res := CategoryCellEditCorrected(cats, row, column, text);
    if res.0 != cats {
      if column == 0 {
        NameEditShown(cats, row, text);
      } else {
        ParentEditShown(cats, row, column, text);
      }
    }
  }

  /** With no category its own parent, the delete of `edit_category`
      keeps every parent resolvable: the children of the target move to
      the target's own parent, which is stored and is not the target. */
  lemma DeleteKeepsParents(cats: Repo<Category>, cats': Repo<Category>, c: Category)
    requires Valid(cats) && ParentsResolve(cats) && NoSelfParent(cats)
    requires Stored(cats, c)
    requires CategoriesAfterCascade(cats, cats', DeleteTarget(cats, c), c.parent)
    ensures ParentsResolve(cats')
  {
    var t := DeleteTarget(cats, c);
    var k :| 0 <= k < |cats.rows| && cats.rows[k].pk == t && cats.rows[k].item == c;
    assert c.parent != Some(t);
    CascadeKeepsParents(cats, cats', t, c.parent);
  }
}
