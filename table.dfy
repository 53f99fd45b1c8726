/**
 * A table as the ORM session presents it: a sequence of rows in rowid order,
 * each row carrying an integer primary key given by `id`.
 * These are the query and write shapes the two repositories use; the
 * per-table modules instantiate them with their own row type.
 */
module Table {
  import opened Wrappers

  /** `query.filter(p).first()`, as an index: the first row that satisfies `p`. */
  function FindFirst<T>(rows: seq<T>, p: T -> bool): (r: Option<nat>)
    ensures r.Some? ==> r.value < |rows| && p(rows[r.value])
    ensures r.Some? ==> forall j :: 0 <= j < r.value ==> !p(rows[j])
    ensures r.None? <==> forall j :: 0 <= j < |rows| ==> !p(rows[j])
    decreases |rows|
  {
    if rows == [] then None
    else if p(rows[0]) then Some(0)
    else match FindFirst(rows[1..], p)
      case None => None
      case Some(k) => Some(k + 1)
  }

  /** `query.filter(p).first()`: the first row that satisfies `p`, or None. */
  function First<T>(rows: seq<T>, p: T -> bool): (r: Option<T>)
    ensures r.None? <==> forall j :: 0 <= j < |rows| ==> !p(rows[j])
    ensures r.Some? ==>
      exists i :: 0 <= i < |rows| && rows[i] == r.value && p(rows[i]) &&
        forall j :: 0 <= j < i ==> !p(rows[j])
  {
    match FindFirst(rows, p)
    case None => None
    case Some(i) => Some(rows[i])
  }

  /** Two conditions that agree on every row select the same first row. */
  lemma FirstPointwise<T>(rows: seq<T>, p: T -> bool, q: T -> bool)
    requires forall i :: 0 <= i < |rows| ==> p(rows[i]) == q(rows[i])
    ensures First(rows, p) == First(rows, q)
  {
    var a, b := FindFirst(rows, p), FindFirst(rows, q);
    assert a == b;
  }

  /**
   * A Python int the sqlite3 driver can bind as a query parameter; binding
   * any other int raises OverflowError.
   */
  function IsInteger(n: int): (b: bool)
    ensures b <==> -9223372036854775808 <= n <= 9223372036854775807
  {
    -MaxInteger - 1 <= n <= MaxInteger
  }

  /** The largest value of SQLite's INTEGER storage class, a signed 64-bit integer. */
  const MaxInteger: int := 0x7FFF_FFFF_FFFF_FFFF

  function Min(a: int, b: int): int
  {
    if a <= b then a else b
  }

  /** `query.offset(skip).limit(limit).all()`: at most `limit` rows, from position `skip` on, in table order. */
  function Window<T>(rows: seq<T>, skip: nat, limit: nat): (r: seq<T>)
    ensures |r| <= limit
    ensures |r| == if skip >= |rows| then 0 else Min(limit, |rows| - skip)
    ensures forall k :: 0 <= k < |r| ==> r[k] == rows[skip + k]
  {
    if skip >= |rows| then [] else rows[skip .. skip + Min(limit, |rows| - skip)]
  }

  /**
   * Rows kept in strictly ascending primary-key order: the order of a rowid
   * table, and the uniqueness of its primary key.
   */
  ghost predicate IdsAscending<T>(rows: seq<T>, id: T -> int)
  {
    forall i, j :: 0 <= i < j < |rows| ==> id(rows[i]) < id(rows[j])
  }

  ghost predicate HasId<T>(rows: seq<T>, id: T -> int, k: int)
  {
    exists i :: 0 <= i < |rows| && id(rows[i]) == k
  }

  /** Values of column `f` are pairwise different: a `unique=True` column. */
  ghost predicate Distinct<T, U>(rows: seq<T>, f: T -> U)
  {
    forall i, j :: 0 <= i < j < |rows| ==> f(rows[i]) != f(rows[j])
  }

  /** A row whose value in a column no row has keeps that column distinct, at any position. */
  lemma DistinctInsert<T, U>(rows: seq<T>, f: T -> U, p: nat, row: T)
    requires Distinct(rows, f)
    requires p <= |rows|
    requires forall i :: 0 <= i < |rows| ==> f(rows[i]) != f(row)
    ensures Distinct(rows[..p] + [row] + rows[p..], f)
  {
    var r := rows[..p] + [row] + rows[p..];
    forall a, b | 0 <= a < b < |r| ensures f(r[a]) != f(r[b]) {
      if a == p {
        assert r[b] == rows[b - 1];
      } else if b == p {
        assert r[a] == rows[a];
      } else {
        var a' := if a < p then a else a - 1;
        var b' := if b < p then b else b - 1;
        assert r[a] == rows[a'] && r[b] == rows[b'];
      }
    }
  }

  function MaxId<T>(rows: seq<T>, id: T -> int): (m: int)
    requires rows != []
    ensures forall i :: 0 <= i < |rows| ==> id(rows[i]) <= m
    ensures exists i :: 0 <= i < |rows| && id(rows[i]) == m
    decreases |rows|
  {
    if |rows| == 1 then id(rows[0])
    else
      var rest := MaxId(rows[1..], id);
      if id(rows[0]) >= rest then id(rows[0]) else rest
  }

  /**
   * The key SQLite assigns to a row inserted into an INTEGER PRIMARY KEY
   * table without the AUTOINCREMENT keyword: one more than the largest key
   * present, or 1 when the table is empty.
   */
  function NextId<T>(rows: seq<T>, id: T -> int): (r: int)
    ensures forall i :: 0 <= i < |rows| ==> id(rows[i]) < r
    ensures rows == [] ==> r == 1
    ensures rows != [] ==> HasId(rows, id, r - 1)
  {
    if rows == [] then 1 else MaxId(rows, id) + 1
  }

  /** An insert with `NextId` keeps the table in key order. */
  lemma AppendNextId<T>(rows: seq<T>, id: T -> int, row: T)
    requires IdsAscending(rows, id)
    requires id(row) == NextId(rows, id)
    ensures IdsAscending(rows + [row], id)
  {
    var r := rows + [row];
    forall i, j | 0 <= i < j < |r| ensures id(r[i]) < id(r[j]) {
      if j == |rows| {
        assert r[i] == rows[i];
      } else {
        assert r[i] == rows[i] && r[j] == rows[j];
      }
    }
  }

  /** Dropping one row keeps the rest in key order. */
  lemma RemoveAtAscending<T>(rows: seq<T>, id: T -> int, i: nat)
    requires IdsAscending(rows, id)
    requires i < |rows|
    ensures IdsAscending(rows[..i] + rows[i + 1..], id)
  {
    var r := rows[..i] + rows[i + 1..];
    forall a, b | 0 <= a < b < |r| ensures id(r[a]) < id(r[b]) {
      var a' := if a < i then a else a + 1;
      var b' := if b < i then b else b + 1;
      assert r[a] == rows[a'] && r[b] == rows[b'];
    }
  }

  /** The rows whose key is not `k`, in order: the table after `DELETE ... WHERE id = k`. */
  function Without<T(!new)>(rows: seq<T>, id: T -> int, k: int): (r: seq<T>)
    ensures |r| <= |rows|
    decreases |rows|
  {
    if rows == [] then []
    else (if id(rows[0]) == k then [] else [rows[0]]) + Without(rows[1..], id, k)
  }

  /** A delete by key keeps exactly the rows with another key. */
  lemma {:induction false} WithoutMembers<T(!new)>(rows: seq<T>, id: T -> int, k: int)
    ensures forall x :: x in Without(rows, id, k) <==> x in rows && id(x) != k
    decreases |rows|
  {
    if rows != [] {
      WithoutMembers(rows[1..], id, k);
      assert rows == [rows[0]] + rows[1..];
    }
  }

  lemma {:induction false} WithoutAbsent<T(!new)>(rows: seq<T>, id: T -> int, k: int)
    requires forall i :: 0 <= i < |rows| ==> id(rows[i]) != k
    ensures Without(rows, id, k) == rows
    decreases |rows|
  {
    if rows != [] {
      WithoutAbsent(rows[1..], id, k);
      assert [rows[0]] + rows[1..] == rows;
    }
  }

  /** The rows after the first of an ascending table are ascending. */
  lemma TailAscending<T>(rows: seq<T>, id: T -> int)
    requires IdsAscending(rows, id)
    requires rows != []
    ensures IdsAscending(rows[1..], id)
    ensures forall j :: 0 <= j < |rows[1..]| ==> id(rows[0]) < id(rows[1..][j])
  {
    var tail := rows[1..];
    forall a | 0 <= a < |tail| ensures tail[a] == rows[a + 1] {
    }
  }

  /** Deleting the key of the first row of an ascending table drops exactly that row. */
  lemma RemoveFirstIsWithout<T(!new)>(rows: seq<T>, id: T -> int)
    requires IdsAscending(rows, id)
    requires rows != []
    ensures rows[1..] == Without(rows, id, id(rows[0]))
  {
    TailAscending(rows, id);
    WithoutAbsent(rows[1..], id, id(rows[0]));
  }

  /**
   * Removing the one row found by key is the same as keeping every row with
   * another key: in a table with unique keys exactly one row goes.
   */
  lemma {:induction false} RemoveAtIsWithout<T(!new)>(rows: seq<T>, id: T -> int, i: nat)
    requires IdsAscending(rows, id)
    requires i < |rows|
    ensures rows[..i] + rows[i + 1..] == Without(rows, id, id(rows[i]))
    ensures |Without(rows, id, id(rows[i]))| == |rows| - 1
    decreases |rows|
  {
    var k := id(rows[i]);
    var tail := rows[1..];
    TailAscending(rows, id);
    if i == 0 {
      RemoveFirstIsWithout(rows, id);
      assert rows[..0] + rows[1..] == tail;
    } else {
      assert tail[i - 1] == rows[i];
      RemoveAtIsWithout(tail, id, i - 1);
      assert Without(rows, id, k) == [rows[0]] + Without(tail, id, k);
      assert rows[..i] + rows[i + 1..] == [rows[0]] + (tail[..i - 1] + tail[i..]);
    }
  }

  /** Insertion at the row's place in key order: where a rowid table puts a row with a given key. */
  function InsertById<T(!new)>(rows: seq<T>, id: T -> int, row: T): (r: seq<T>)
    ensures |r| == |rows| + 1
    decreases |rows|
  {
    if rows == [] || id(row) < id(rows[0]) then [row] + rows
    else [rows[0]] + InsertById(rows[1..], id, row)
  }

  /** An insert adds exactly the new row. */
  lemma {:induction false} InsertByIdMembers<T(!new)>(rows: seq<T>, id: T -> int, row: T)
    ensures forall x :: x in InsertById(rows, id, row) <==> x in rows || x == row
    decreases |rows|
  {
    if rows != [] && id(row) >= id(rows[0]) {
      InsertByIdMembers(rows[1..], id, row);
      assert rows == [rows[0]] + rows[1..];
    }
  }

  /** The inserted row goes in between two parts of the table, which stay as they were. */
  lemma {:induction false} InsertByIdSplits<T(!new)>(rows: seq<T>, id: T -> int, row: T)
    ensures exists i :: 0 <= i <= |rows| && InsertById(rows, id, row) == rows[..i] + [row] + rows[i..]
    decreases |rows|
  {
    if rows == [] || id(row) < id(rows[0]) {
      assert InsertById(rows, id, row) == rows[..0] + [row] + rows[0..];
    } else {
      InsertByIdSplits(rows[1..], id, row);
      var i :| 0 <= i <= |rows| - 1 &&
        InsertById(rows[1..], id, row) == rows[1..][..i] + [row] + rows[1..][i..];
      assert InsertById(rows, id, row) == rows[..i + 1] + [row] + rows[i + 1..];
    }
  }

  lemma {:induction false} InsertByIdAscending<T(!new)>(rows: seq<T>, id: T -> int, row: T)
    requires IdsAscending(rows, id)
    requires !HasId(rows, id, id(row))
    ensures IdsAscending(InsertById(rows, id, row), id)
    decreases |rows|
  {
    if rows != [] && id(row) >= id(rows[0]) {
      var tail := rows[1..];
      assert IdsAscending(tail, id) by {
        forall a, b | 0 <= a < b < |tail| ensures id(tail[a]) < id(tail[b]) {
          assert tail[a] == rows[a + 1] && tail[b] == rows[b + 1];
        }
      }
      assert !HasId(tail, id, id(row)) by {
        forall a | 0 <= a < |tail| ensures id(tail[a]) != id(row) {
          assert tail[a] == rows[a + 1];
        }
      }
      InsertByIdAscending(tail, id, row);
      InsertByIdMembers(tail, id, row);
      var rest := InsertById(tail, id, row);
      assert id(rows[0]) < id(row) by {
        assert id(rows[0]) != id(row);
      }
      forall j | 0 <= j < |rest| ensures id(rows[0]) < id(rest[j]) {
        assert rest[j] in rest;
        if rest[j] != row {
          var m :| 0 <= m < |tail| && tail[m] == rest[j];
          assert tail[m] == rows[m + 1];
        }
      }
      var r := [rows[0]] + rest;
      assert r == InsertById(rows, id, row);
      forall a, b | 0 <= a < b < |r| ensures id(r[a]) < id(r[b]) {
        assert r[b] == rest[b - 1];
        if a > 0 {
          assert r[a] == rest[a - 1];
        }
      }
    }
  }

  /**
   * `session.merge(row)` followed by a commit: the row with the same primary
   * key is overwritten in place; when there is none, the row is inserted at
   * its place in key order.
   */
  function Merge<T(!new)>(rows: seq<T>, id: T -> int, row: T): (r: seq<T>)
    ensures HasId(rows, id, id(row)) ==> |r| == |rows|
    ensures !HasId(rows, id, id(row)) ==> |r| == |rows| + 1
    ensures row in r
  {
    match FindFirst(rows, x => id(x) == id(row))
    case Some(i) =>
      assert rows[i := row][i] == row;
      rows[i := row]
    case None =>
      InsertByIdMembers(rows, id, row);
      InsertById(rows, id, row)
  }

  /** Merging a row whose key is present replaces exactly that row and keeps the key order. */
  lemma MergeExisting<T(!new)>(rows: seq<T>, id: T -> int, row: T, i: nat)
    requires IdsAscending(rows, id)
    requires i < |rows| && id(rows[i]) == id(row)
    ensures Merge(rows, id, row) == rows[i := row]
    ensures IdsAscending(rows[i := row], id)
  {
    var p := (x: T) => id(x) == id(row);
    assert p(rows[i]);
    var f := FindFirst(rows, p);
    assert f.Some?;
    assert f.value == i;
    var r := rows[i := row];
    forall a, b | 0 <= a < b < |r| ensures id(r[a]) < id(r[b]) {
      assert id(r[a]) == id(rows[a]) && id(r[b]) == id(rows[b]);
    }
  }

  /** Merging a row whose key is absent inserts it and keeps the key order. */
  lemma MergeAbsent<T(!new)>(rows: seq<T>, id: T -> int, row: T)
    requires IdsAscending(rows, id)
    requires !HasId(rows, id, id(row))
    ensures Merge(rows, id, row) == InsertById(rows, id, row)
    ensures IdsAscending(Merge(rows, id, row), id)
  {
    var p := (x: T) => id(x) == id(row);
    var f := FindFirst(rows, p);
    assert f.None?;
    InsertByIdAscending(rows, id, row);
  }

  /** A filter condition `column == value` as the ORM builds it; `holds` is its meaning in SQL. */
  datatype Clause<!T> = Equals(holds: T -> bool)

  /**
   * Python's truth value of such a condition. For `==` the ORM compares the
   * hashes of the column object and of the bound-parameter object, which are
   * distinct objects: the condition is falsy.
   */
  predicate Truthy<T>(c: Clause<T>)
  {
    false
  }

  /** Python's `a and b`: `b` when `a` is truthy, `a` itself otherwise. */
  function PyAnd<T>(a: Clause<T>, b: Clause<T>): (r: Clause<T>)
  {
    if Truthy(a) then b else a
  }

  /** A filter built with Python's `and` keeps only its first condition. */
  lemma PyAndKeepsFirst<T>(a: Clause<T>, b: Clause<T>, rows: seq<T>)
    ensures First(rows, PyAnd(a, b).holds) == First(rows, a.holds)
  {
  }
}
