/** The repository abstraction every widget talks to, modelled as an
    insertion-ordered table: `add` appends under a fresh primary key,
    `get_all(filter)` returns the exact matches in insertion order,
    `update` replaces one record by key, `delete` removes one. */
module Repository {
  import opened Basics

  /** A stored record: the entity together with the key the store gave it. */
  datatype Row<T> = Row(pk: int, item: T)

  /** The rows in insertion order and the key the next `add` will hand out. */
  datatype Repo<T> = Repo(rows: seq<Row<T>>, nextPk: int)

  /** Some stored record has key `pk`. */
  predicate HasPk<T>(rows: seq<Row<T>>, pk: int) {
    exists i :: 0 <= i < |rows| && rows[i].pk == pk
  }

  /** Keys strictly ascending: the order of insertion. */
  predicate Ascending<T>(rows: seq<Row<T>>) {
    forall i, j :: 0 <= i < j < |rows| ==> rows[i].pk < rows[j].pk
  }

  /** Keys are positive, ascending in insertion order and below the next
      key to be handed out. */
  predicate Valid<T>(r: Repo<T>) {
    && r.nextPk >= 1
    && (forall i :: 0 <= i < |r.rows| ==> 1 <= r.rows[i].pk < r.nextPk)
    && Ascending(r.rows)
  }

  /** An empty store. */
  function Empty<T>(): (r: Repo<T>)
    ensures Valid(r)
    ensures r.rows == []
  {
    Repo([], 1)
  }

  /** Position of the record with key `pk`. */
  function IndexOf<T>(rows: seq<Row<T>>, pk: int): (k: nat)
    requires HasPk(rows, pk)
    ensures k < |rows| && rows[k].pk == pk
    ensures forall j :: 0 <= j < k ==> rows[j].pk != pk
  {
    if rows[0].pk == pk then 0
    else
      assert HasPk(rows[1..], pk) by {
        var i :| 0 <= i < |rows| && rows[i].pk == pk;
        assert rows[1..][i - 1].pk == pk;
      }
      1 + IndexOf(rows[1..], pk)
  }

  /** Keys of a valid store identify one record each. */
  lemma UniquePks<T>(r: Repo<T>, i: int, j: int)
    requires Valid(r)
    requires 0 <= i < |r.rows| && 0 <= j < |r.rows|
    requires r.rows[i].pk == r.rows[j].pk
    ensures i == j
  {
  }

  /** `add(item)`: stores `item` under a fresh key and returns that key. */
  function Add<T>(r: Repo<T>, item: T): (res: (Repo<T>, int))
    requires Valid(r)
    ensures Valid(res.0)
    ensures !HasPk(r.rows, res.1)
    ensures res.0.rows == r.rows + [Row(res.1, item)]
  {
    (Repo(r.rows + [Row(r.nextPk, item)], r.nextPk + 1), r.nextPk)
  }

  /** `get(pk)`: the record stored under `pk`, if any. */
  function Get<T>(r: Repo<T>, pk: int): (res: Option<T>)
    requires Valid(r)
    ensures res.None? <==> !HasPk(r.rows, pk)
    ensures forall i :: 0 <= i < |r.rows| && r.rows[i].pk == pk ==> res == Some(r.rows[i].item)
  {
    if HasPk(r.rows, pk) then Some(r.rows[IndexOf(r.rows, pk)].item) else None
  }

  /** `get_all(filter)`: the records whose entity satisfies `p`, in
      insertion order. */
  function GetAll<T(==)>(rows: seq<Row<T>>, p: T -> bool): (res: seq<Row<T>>)
    ensures |res| <= |rows|
    ensures forall i :: 0 <= i < |res| ==> res[i] in rows && p(res[i].item)
    ensures forall i :: 0 <= i < |rows| && p(rows[i].item) ==> rows[i] in res
  {
    if rows == [] then []
    else (if p(rows[0].item) then [rows[0]] else []) + GetAll(rows[1..], p)
  }

  /** Position `k` holds the earliest stored record that satisfies `p`. */
  predicate FirstMatch<T>(rows: seq<Row<T>>, p: T -> bool, k: int) {
    && 0 <= k < |rows|
    && p(rows[k].item)
    && forall j :: 0 <= j < k ==> !p(rows[j].item)
  }

  /** `get_all(filter)[0].pk`: the key of the earliest stored record
      that matches. Callers index without a guard, so a match must
      exist. */
  function FirstPk<T(==)>(rows: seq<Row<T>>, p: T -> bool): (pk: int)
    requires exists i :: 0 <= i < |rows| && p(rows[i].item)
    ensures exists k :: FirstMatch(rows, p, k) && rows[k].pk == pk
  {
    var matches := GetAll(rows, p);
    assert |matches| > 0 by {
      var i :| 0 <= i < |rows| && p(rows[i].item);
      SomeMatch(rows, p, i);
    }
    GetAllFirst(rows, p);
    matches[0].pk
  }

  /** `update(item)` for the record with key `pk`: that record's entity is
      replaced and every other record stays as it was. The repository raises
      when no record has the key; every caller passes a key it has just
      read back, so that is a precondition here. */
  function Update<T>(r: Repo<T>, pk: int, item: T): (res: Repo<T>)
    requires Valid(r)
    requires HasPk(r.rows, pk)
    ensures Valid(res)
    ensures res.nextPk == r.nextPk
    ensures |res.rows| == |r.rows|
    ensures forall i :: 0 <= i < |r.rows| ==> res.rows[i].pk == r.rows[i].pk
    ensures forall i :: 0 <= i < |r.rows| && r.rows[i].pk != pk ==> res.rows[i] == r.rows[i]
    ensures forall i :: 0 <= i < |r.rows| && r.rows[i].pk == pk ==> res.rows[i].item == item
  {
    Repo(seq(|r.rows|, i requires 0 <= i < |r.rows| =>
               if r.rows[i].pk == pk then Row(pk, item) else r.rows[i]), r.nextPk)
  }

  /** `delete(pk)`: the record with key `pk` is removed, the rest keep
      their order. */
  function Delete<T>(r: Repo<T>, pk: int): (res: Repo<T>)
    requires Valid(r)
    requires HasPk(r.rows, pk)
    ensures Valid(res)
    ensures res.nextPk == r.nextPk
    ensures |res.rows| == |r.rows| - 1
    ensures forall q :: HasPk(res.rows, q) <==> HasPk(r.rows, q) && q != pk
    ensures var k := IndexOf(r.rows, pk);
            && (forall i :: 0 <= i < k ==> res.rows[i] == r.rows[i])
            && (forall i :: k < i < |r.rows| ==> res.rows[i - 1] == r.rows[i])
  {
    var k := IndexOf(r.rows, pk);
    var res := Repo(r.rows[..k] + r.rows[k + 1..], r.nextPk);
    DeleteKeys(r, pk, k, res);
    res
  }

  lemma DeleteKeys<T>(r: Repo<T>, pk: int, k: nat, res: Repo<T>)
    requires Valid(r)
    requires k < |r.rows| && r.rows[k].pk == pk
    requires res == Repo(r.rows[..k] + r.rows[k + 1..], r.nextPk)
    ensures forall i :: 0 <= i < |res.rows| ==> res.rows[i] == r.rows[if i < k then i else i + 1]
    ensures Valid(res)
    ensures forall q :: HasPk(res.rows, q) <==> HasPk(r.rows, q) && q != pk
  {
    DeleteShift(r.rows, k, res.rows);
    var rows := res.rows;
    forall q | HasPk(rows, q) ensures HasPk(r.rows, q) && q != pk {
      var i :| 0 <= i < |rows| && rows[i].pk == q;
      var j := if i < k then i else i + 1;
      assert r.rows[j].pk == q;
    }
    forall q | HasPk(r.rows, q) && q != pk ensures HasPk(rows, q) {
      var i :| 0 <= i < |r.rows| && r.rows[i].pk == q;
      var j := if i < k then i else i - 1;
      assert rows[j].pk == q;
    }
  }

  /** Removing position `k` shifts the later records down by one. */
  lemma DeleteShift<T>(rows: seq<Row<T>>, k: nat, out: seq<Row<T>>)
    requires k < |rows| && out == rows[..k] + rows[k + 1..]
    ensures |out| == |rows| - 1
    ensures forall i :: 0 <= i < |out| ==> out[i] == rows[if i < k then i else i + 1]
  {
  }

  /** `delete(get_all(filter)[0].pk)`: removes the earliest stored
      record that matches, keeping the others in order. */
  function DeleteFirst<T(==)>(r: Repo<T>, p: T -> bool): (res: Repo<T>)
    requires Valid(r)
    requires exists i :: 0 <= i < |r.rows| && p(r.rows[i].item)
    ensures Valid(res)
    ensures res.nextPk == r.nextPk
    ensures exists k :: FirstMatch(r.rows, p, k) && res.rows == r.rows[..k] + r.rows[k + 1..]
  {
    var t := FirstPk(r.rows, p);
    var res := Delete(r, t);
    DeleteFirstShape(r, p, t, res);
    res
  }

  lemma DeleteFirstShape<T>(r: Repo<T>, p: T -> bool, t: int, res: Repo<T>)
    requires Valid(r)
    requires exists k :: FirstMatch(r.rows, p, k) && r.rows[k].pk == t
    requires HasPk(r.rows, t) && res == Delete(r, t)
    ensures exists k :: FirstMatch(r.rows, p, k) && res.rows == r.rows[..k] + r.rows[k + 1..]
  {
    var k :| FirstMatch(r.rows, p, k) && r.rows[k].pk == t;
    UniquePks(r, k, IndexOf(r.rows, t));
    assert res.rows == r.rows[..k] + r.rows[k + 1..];
  }

  /** `r'` is `r` with only the record at position `k` replaced, keeping
      its key. */
  predicate OnlyRowChanged<T(==)>(r: Repo<T>, r': Repo<T>, k: int, item: T)
    requires 0 <= k < |r.rows|
  {
    && r'.nextPk == r.nextPk
    && |r'.rows| == |r.rows|
    && r'.rows[k] == Row(r.rows[k].pk, item)
    && forall i :: 0 <= i < |r.rows| && i != k ==> r'.rows[i] == r.rows[i]
  }

  /** `update` of the record at position `k` changes that record only. */
  lemma UpdateAt<T>(r: Repo<T>, k: int, item: T)
    requires Valid(r) && 0 <= k < |r.rows|
    ensures HasPk(r.rows, r.rows[k].pk)
    ensures OnlyRowChanged(r, Update(r, r.rows[k].pk, item), k, item)
  {
    var res := Update(r, r.rows[k].pk, item);
    forall i | 0 <= i < |r.rows| && i != k ensures res.rows[i] == r.rows[i] {
      if r.rows[i].pk == r.rows[k].pk { UniquePks(r, i, k); }
    }
  }

  /** Position in `rows` of the record a table shows on line `line`:
      tables list the newest record first. */
  function TableIndex<T>(rows: seq<Row<T>>, line: nat): (k: nat)
    requires line < |rows|
    ensures k < |rows|
    ensures Reverse(rows)[line] == rows[k]
  {
    |rows| - 1 - line
  }

  // ---------------------------------------------------------------------
  // Repository laws
  // ---------------------------------------------------------------------

  /** `add` then `get`: the record comes back under the key `add`
      returned, and every other key answers as before. */
  lemma AddThenGet<T>(r: Repo<T>, item: T, q: int)
    requires Valid(r)
    ensures Get(Add(r, item).0, Add(r, item).1) == Some(item)
    ensures q != Add(r, item).1 ==> Get(Add(r, item).0, q) == Get(r, q)
  {
    var (r', pk) := Add(r, item);
    var n := |r.rows|;
    assert r'.rows[n] == Row(pk, item);
    if q != pk && HasPk(r.rows, q) {
      var i :| 0 <= i < |r.rows| && r.rows[i].pk == q;
      assert r'.rows[i] == r.rows[i];
    }
  }

  /** `update` then `get`: the key now holds the new entity and every
      other key answers as before. */
  lemma UpdateThenGet<T>(r: Repo<T>, pk: int, item: T, q: int)
    requires Valid(r)
    requires HasPk(r.rows, pk)
    ensures Get(Update(r, pk, item), pk) == Some(item)
    ensures q != pk ==> Get(Update(r, pk, item), q) == Get(r, q)
  {
    var r' := Update(r, pk, item);
    var k := IndexOf(r.rows, pk);
    assert r'.rows[k].pk == pk;
    if q != pk && HasPk(r'.rows, q) {
      var i :| 0 <= i < |r'.rows| && r'.rows[i].pk == q;
      assert r.rows[i] == r'.rows[i];
    }
  }

  /** `delete` then `get`: the key is gone and every other key answers
      as before. */
  lemma DeleteThenGet<T>(r: Repo<T>, pk: int, q: int)
    requires Valid(r)
    requires HasPk(r.rows, pk)
    ensures Get(Delete(r, pk), pk) == None
    ensures q != pk ==> Get(Delete(r, pk), q) == Get(r, q)
  {
    var r' := Delete(r, pk);
    var k := IndexOf(r.rows, pk);
    if q != pk && HasPk(r.rows, q) {
      var i := IndexOf(r.rows, q);
      if i < k { assert r'.rows[i] == r.rows[i]; } else { assert r'.rows[i - 1] == r.rows[i]; }
    }
  }

  /** `get_all()` with no filter lists every record. */
  lemma {:induction false} GetAllUnfiltered<T>(rows: seq<Row<T>>)
    ensures GetAll(rows, (x: T) => true) == rows
  {
    if rows != [] {
      GetAllUnfiltered(rows[1..]);
      assert rows == [rows[0]] + rows[1..];
    }
  }

  /** The first record `get_all(filter)` returns is the earliest stored
      record that matches. */
  lemma {:induction false} GetAllFirst<T>(rows: seq<Row<T>>, p: T -> bool)
    requires |GetAll(rows, p)| > 0
    ensures exists k :: FirstMatch(rows, p, k) && rows[k] == GetAll(rows, p)[0]
  {
    if !p(rows[0].item) {
      var tail := GetAll(rows[1..], p);
      assert GetAll(rows, p) == tail;
      GetAllFirst(rows[1..], p);
      var k :| FirstMatch(rows[1..], p, k) && rows[1..][k] == tail[0];
      ShiftFirstMatch(rows, p, k);
    } else {
      assert FirstMatch(rows, p, 0);
    }
  }

  /** A first match in the tail, behind a head that does not match, is
      the first match of the whole. */
  lemma ShiftFirstMatch<T>(rows: seq<Row<T>>, p: T -> bool, k: int)
    requires rows != [] && !p(rows[0].item)
    requires FirstMatch(rows[1..], p, k)
    ensures FirstMatch(rows, p, k + 1) && rows[k + 1] == rows[1..][k]
  {
    forall j | 0 <= j < k + 1 ensures !p(rows[j].item) {
      if j > 0 { assert rows[j] == rows[1..][j - 1]; }
    }
  }

  /** A stored match makes `get_all(filter)` non-empty. */
  lemma SomeMatch<T>(rows: seq<Row<T>>, p: T -> bool, i: int)
    requires 0 <= i < |rows| && p(rows[i].item)
    ensures |GetAll(rows, p)| > 0
  {
    assert rows[i] in GetAll(rows, p);
  }

  /** The last record `get_all(filter)` returns is the most recently
      stored record that matches. */
  lemma GetAllLast<T>(rows: seq<Row<T>>, p: T -> bool)
    requires |GetAll(rows, p)| > 0
    ensures exists k :: LastMatch(rows, p, k) && rows[k] == GetAll(rows, p)[|GetAll(rows, p)| - 1]
  {
    var k := LastMatchOf(rows, p);
  }

  /** The position behind the last record of `get_all(filter)`. */
  lemma {:induction false} LastMatchOf<T>(rows: seq<Row<T>>, p: T -> bool) returns (k: int)
    requires |GetAll(rows, p)| > 0
    ensures LastMatch(rows, p, k) && rows[k] == GetAll(rows, p)[|GetAll(rows, p)| - 1]
  {
    assert rows != [];
    var tail := GetAll(rows[1..], p);
    if |tail| == 0 {
      LastIsHead(rows, p);
      k := 0;
    } else {
      LastOfTail(rows, p);
      var k' := LastMatchOf(rows[1..], p);
      ShiftLastMatch(rows, p, k');
      k := k' + 1;
    }
  }

  /** With no match after the head, the head is the last match. */
  lemma LastIsHead<T>(rows: seq<Row<T>>, p: T -> bool)
    requires |GetAll(rows, p)| > 0 && |GetAll(rows[1..], p)| == 0
    ensures LastMatch(rows, p, 0) && rows[0] == GetAll(rows, p)[|GetAll(rows, p)| - 1]
  {
    assert GetAll(rows, p) == (if p(rows[0].item) then [rows[0]] else []) + GetAll(rows[1..], p);
    forall j | 0 < j < |rows| ensures !p(rows[j].item) {
      assert rows[j] == rows[1..][j - 1];
    }
  }

  /** With a match after the head, `get_all` ends where the tail's does. */
  lemma LastOfTail<T>(rows: seq<Row<T>>, p: T -> bool)
    requires rows != [] && |GetAll(rows[1..], p)| > 0
    ensures |GetAll(rows, p)| > 0
    ensures GetAll(rows, p)[|GetAll(rows, p)| - 1] == GetAll(rows[1..], p)[|GetAll(rows[1..], p)| - 1]
  {
    assert GetAll(rows, p) == (if p(rows[0].item) then [rows[0]] else []) + GetAll(rows[1..], p);
  }

  /** Position `k` holds the most recently stored record that satisfies
      `p`. */
  predicate LastMatch<T>(rows: seq<Row<T>>, p: T -> bool, k: int) {
    && 0 <= k < |rows|
    && p(rows[k].item)
    && forall j :: k < j < |rows| ==> !p(rows[j].item)
  }

  /** The last match of the tail is the last match of the whole. */
  lemma ShiftLastMatch<T>(rows: seq<Row<T>>, p: T -> bool, k: int)
    requires rows != []
    requires LastMatch(rows[1..], p, k)
    ensures LastMatch(rows, p, k + 1) && rows[k + 1] == rows[1..][k]
  {
    forall j | k + 1 < j < |rows| ensures !p(rows[j].item) {
      assert rows[j] == rows[1..][j - 1];
    }
  }

  /** `get_all(filter)` keeps insertion order: on a valid store its keys
      are still strictly ascending. */
  lemma {:induction false} GetAllOrdered<T>(rows: seq<Row<T>>, p: T -> bool)
    requires Ascending(rows)
    ensures Ascending(GetAll(rows, p))
  {
    if rows != [] {
      var tail := GetAll(rows[1..], p);
      GetAllOrdered(rows[1..], p);
      if p(rows[0].item) {
        assert GetAll(rows, p) == [rows[0]] + tail;
        HeadBelowTail(rows, p);
        ConsAscending(rows[0], tail);
      } else {
        assert GetAll(rows, p) == tail;
      }
    }
  }

  /** In an ascending table the head's key is below every key `get_all`
      returns from the rest. */
  lemma HeadBelowTail<T>(rows: seq<Row<T>>, p: T -> bool)
    requires rows != [] && Ascending(rows)
    ensures forall i :: 0 <= i < |GetAll(rows[1..], p)| ==> rows[0].pk < GetAll(rows[1..], p)[i].pk
  {
    var tail := GetAll(rows[1..], p);
    forall i | 0 <= i < |tail| ensures rows[0].pk < tail[i].pk {
      assert tail[i] in rows[1..];
      var j :| 0 <= j < |rows[1..]| && rows[1..][j] == tail[i];
      assert rows[j + 1] == tail[i];
    }
  }

  lemma ConsAscending<T>(x: Row<T>, tail: seq<Row<T>>)
    requires Ascending(tail)
    requires forall i :: 0 <= i < |tail| ==> x.pk < tail[i].pk
    ensures Ascending([x] + tail)
  {
    var res := [x] + tail;
    forall i, j | 0 <= i < j < |res| ensures res[i].pk < res[j].pk {
      assert res[j] == tail[j - 1];
      if i > 0 { assert res[i] == tail[i - 1]; }
    }
  }

  // ---------------------------------------------------------------------
  // Bulk update: `for x in repo.get_all(filter): repo.update(f(x))`
  // ---------------------------------------------------------------------

  /** Every record whose entity satisfies `p` is rewritten to `f` of its
      entity, one `update` per record `get_all(p)` lists; keys, order and
      all other records are left alone. */
  method UpdateWhere<T(==)>(r: Repo<T>, p: T -> bool, f: T -> T) returns (res: Repo<T>)
    requires Valid(r)
    ensures Valid(res)
    ensures res.nextPk == r.nextPk
    ensures |res.rows| == |r.rows|
    ensures forall i :: 0 <= i < |r.rows| ==>
              res.rows[i] == Row(r.rows[i].pk, if p(r.rows[i].item) then f(r.rows[i].item) else r.rows[i].item)
  {
    var matches := GetAll(r.rows, p);
    res := r;
    for k := 0 to |matches|
      invariant Valid(res)
      invariant res.nextPk == r.nextPk
      invariant |res.rows| == |r.rows|
      invariant forall i :: 0 <= i < |r.rows| ==>
                  res.rows[i] == Row(r.rows[i].pk, if r.rows[i] in matches[..k] then f(r.rows[i].item) else r.rows[i].item)
    {
      var m := matches[k];
      assert HasPk(res.rows, m.pk) by {
        var j :| 0 <= j < |r.rows| && r.rows[j] == m;
        assert res.rows[j].pk == m.pk;
      }
      ghost var prev := res;
      res := Update(res, m.pk, f(m.item));
      UpdateWhereStep(r, matches, k, f, prev, res);
    }
    assert matches[..|matches|] == matches;
  }

  /** One iteration of `UpdateWhere`: updating the `k`-th listed record
      extends the rewritten prefix by that record and nothing else. */
  lemma UpdateWhereStep<T>(r: Repo<T>, matches: seq<Row<T>>, k: nat, f: T -> T, prev: Repo<T>, res: Repo<T>)
    requires Valid(r) && Valid(prev)
    requires k < |matches|
    requires matches[k] in r.rows
    requires |prev.rows| == |r.rows|
    requires forall i :: 0 <= i < |r.rows| ==>
               prev.rows[i] == Row(r.rows[i].pk, if r.rows[i] in matches[..k] then f(r.rows[i].item) else r.rows[i].item)
    requires HasPk(prev.rows, matches[k].pk)
    requires res == Update(prev, matches[k].pk, f(matches[k].item))
    ensures forall i :: 0 <= i < |r.rows| ==>
              res.rows[i] == Row(r.rows[i].pk, if r.rows[i] in matches[..k + 1] then f(r.rows[i].item) else r.rows[i].item)
  {
    var m := matches[k];
    assert matches[..k + 1] == matches[..k] + [m];
    var j :| 0 <= j < |r.rows| && r.rows[j] == m;
    forall i | 0 <= i < |r.rows|
      ensures res.rows[i] == Row(r.rows[i].pk, if r.rows[i] in matches[..k + 1] then f(r.rows[i].item) else r.rows[i].item)
    {
      if r.rows[i].pk == m.pk {
        UniquePks(r, i, j);
      } else {
        assert r.rows[i] != m;
        assert prev.rows[i].pk != m.pk;
      }
    }
  }
}
