/** Shared vocabulary of the route handlers: ids, optional values, the tRPC
    error codes, stored rows and the table queries every handler is built from. */
module Common {

  /** Row ids. The store hands them out from one monotone counter. */
  type Id = nat

  datatype Option<T> = None | Some(value: T)

  /** The tRPC error codes the handlers raise. BAD_REQUEST also stands for a
      rejected input schema; INTERNAL_SERVER_ERROR for a store error that a
      handler does not catch. */
  datatype ErrorCode = NotFound | Forbidden | Unauthorized | Conflict | BadRequest | InternalServerError

  /** A handler either returns a value or throws a TRPCError with a code. */
  datatype Result<T> = Ok(value: T) | Err(code: ErrorCode)

  /** The string checks the handlers delegate to libraries: zod's `email()`,
      `url()` and `datetime()`, and whether `new URL(s)` parses without throwing. */
  datatype Validators = Validators(
    isEmail: string -> bool,
    isUrl: string -> bool,
    isDatetime: string -> bool,
    parsesAsUrl: string -> bool)

  /** A stored row: the id and creation stamp every table carries, and the table's own columns. */
  datatype Row<T> = Row(id: Id, createdAt: nat, data: T)

  /** Rows kept in insertion order: ids and creation stamps grow strictly
      along the table, the last row's below the given bounds. */
  ghost predicate Below<T>(rows: seq<Row<T>>, idBound: nat, timeBound: nat)
    decreases |rows|
  {
    rows == [] ||
    var last := rows[|rows| - 1];
    last.id < idBound && last.createdAt < timeBound && Below(rows[..|rows| - 1], last.id, last.createdAt)
  }

  /** A table whose rows were stamped, in order, by a counter now at `clock`. */
  ghost predicate Stamped<T>(rows: seq<Row<T>>, clock: nat)
  {
    Below(rows, clock, clock)
  }

  /** In a stamped table ids and creation stamps grow strictly, and all lie below the clock. */
  lemma {:induction false} BelowOrdered<T>(rows: seq<Row<T>>, idBound: nat, timeBound: nat)
    requires Below(rows, idBound, timeBound)
    ensures forall i, j :: 0 <= i < j < |rows| ==> rows[i].id < rows[j].id && rows[i].createdAt < rows[j].createdAt
    ensures forall i :: 0 <= i < |rows| ==> rows[i].id < idBound && rows[i].createdAt < timeBound
    decreases |rows|
  {
    if rows != [] {
      var n := |rows| - 1;
      var front := rows[..n];
      BelowOrdered(front, rows[n].id, rows[n].createdAt);
      assert forall i :: 0 <= i < n ==> rows[i] == front[i];
    }
  }

  /** Some row has this id. */
  ghost predicate HasId<T>(rows: seq<Row<T>>, id: Id)
  {
    exists k :: 0 <= k < |rows| && rows[k].id == id
  }

  /** No two rows share an id (a primary key). */
  ghost predicate UniqueIds<T>(rows: seq<Row<T>>)
  {
    forall i, j :: 0 <= i < |rows| && 0 <= j < |rows| && rows[i].id == rows[j].id ==> i == j
  }

  /** Deleting the row at position `k` of a table with a primary key removes
      exactly the rows with that id: the row itself. */
  lemma RemoveAtMembers<T>(rows: seq<Row<T>>, k: nat)
    requires UniqueIds(rows) && k < |rows|
    ensures |rows[..k] + rows[k + 1..]| == |rows| - 1
    ensures forall x :: x in rows[..k] + rows[k + 1..] <==> x in rows && x.id != rows[k].id
  {
    var rest := rows[..k] + rows[k + 1..];
    assert forall i :: 0 <= i < |rest| ==> rest[i] == if i < k then rows[i] else rows[i + 1];
    forall x | x in rows && x.id != rows[k].id ensures x in rest {
      var i :| 0 <= i < |rows| && rows[i] == x;
      if i < k { assert rest[i] == x; } else { assert rest[i - 1] == x; }
    }
  }

  ghost predicate CreatedAscending<T>(rows: seq<Row<T>>)
  {
    forall i, j :: 0 <= i < j < |rows| ==> rows[i].createdAt < rows[j].createdAt
  }

  ghost predicate CreatedDescending<T>(rows: seq<Row<T>>)
  {
    forall i, j :: 0 <= i < j < |rows| ==> rows[i].createdAt > rows[j].createdAt
  }

  /** `findFirst`: the position of the first element satisfying `p`, if any. */
  function FirstIndex<T>(s: seq<T>, p: T -> bool): (r: Option<nat>)
    ensures r.Some? ==> r.value < |s| && p(s[r.value])
    ensures r.Some? ==> forall j :: 0 <= j < r.value ==> !p(s[j])
    ensures r.None? <==> forall j :: 0 <= j < |s| ==> !p(s[j])
  {
    if s == [] then None
    else if p(s[0]) then Some(0)
    else match FirstIndex(s[1..], p)
      case None => None
      case Some(k) => Some(k + 1)
  }

  /** `findUnique({ where: { id } })`: the position of the row with that id, if any. */
  function IndexOfId<T>(rows: seq<Row<T>>, id: Id): (r: Option<nat>)
    ensures r.Some? ==> r.value < |rows| && rows[r.value].id == id
    ensures r.None? <==> forall j :: 0 <= j < |rows| ==> rows[j].id != id
  {
    FirstIndex(rows, (row: Row<T>) => row.id == id)
  }

  /** `findMany({ where })` in insertion order: the elements satisfying `p`, order kept. */
  function Filter<T(!new)>(s: seq<T>, p: T -> bool): (r: seq<T>)
    ensures |r| <= |s|
    ensures forall x :: x in r <==> x in s && p(x)
  {
    if s == [] then [] else (if p(s[0]) then [s[0]] else []) + Filter(s[1..], p)
  }

  /** A condition no element meets filters everything out. */
  lemma {:induction false} FilterNone<T(!new)>(s: seq<T>, p: T -> bool)
    requires forall x :: x in s ==> !p(x)
    ensures Filter(s, p) == []
  {
    if s != [] {
      assert s[0] in s;
      assert forall x :: x in s[1..] ==> x in s;
      FilterNone(s[1..], p);
    }
  }

  /** `findMany({ where, orderBy: { createdAt: "desc" } })` over a table kept in
      insertion order: the elements satisfying `p`, last inserted first. */
  function NewestFirst<T(!new)>(s: seq<T>, p: T -> bool): (r: seq<T>)
    ensures |r| <= |s|
    ensures forall x :: x in r <==> x in s && p(x)
  {
    if s == [] then []
    else (if p(s[|s| - 1]) then [s[|s| - 1]] else []) + NewestFirst(s[..|s| - 1], p)
  }

  /** Filtering a table kept in creation order yields rows in ascending creation order. */
  lemma {:induction false} FilterAscending<T(!new)>(rows: seq<Row<T>>, p: Row<T> -> bool)
    requires CreatedAscending(rows)
    ensures CreatedAscending(Filter(rows, p))
  {
    if rows != [] {
      var tail := rows[1..];
      assert CreatedAscending(tail) by {
        forall i, j | 0 <= i < j < |tail| ensures tail[i].createdAt < tail[j].createdAt {
          assert tail[i] == rows[i + 1] && tail[j] == rows[j + 1];
        }
      }
      FilterAscending(tail, p);
      var rest := Filter(tail, p);
      forall x | x in rest ensures rows[0].createdAt < x.createdAt {
        var k :| 0 <= k < |tail| && tail[k] == x;
        assert x == rows[k + 1];
      }
    }
  }

  /** Listing newest first from a table kept in creation order yields rows in
      descending creation order. */
  lemma {:induction false} NewestFirstDescending<T(!new)>(rows: seq<Row<T>>, p: Row<T> -> bool)
    requires CreatedAscending(rows)
    ensures CreatedDescending(NewestFirst(rows, p))
  {
    if rows != [] {
      var n := |rows| - 1;
      var front := rows[..n];
      assert CreatedAscending(front) by {
        forall i, j | 0 <= i < j < |front| ensures front[i].createdAt < front[j].createdAt {
          assert front[i] == rows[i] && front[j] == rows[j];
        }
      }
      NewestFirstDescending(front, p);
      var rest := NewestFirst(front, p);
      if p(rows[n]) {
        forall x | x in rest ensures x.createdAt < rows[n].createdAt {
          var k :| 0 <= k < |front| && front[k] == x;
          assert x == rows[k];
        }
        DescendingPrepend(rows[n], rest);
      }
    }
  }

  /** A row newer than every row of a descending list can head it. */
  lemma DescendingPrepend<T>(x: Row<T>, rest: seq<Row<T>>)
    requires CreatedDescending(rest)
    requires forall y :: y in rest ==> y.createdAt < x.createdAt
    ensures CreatedDescending([x] + rest)
  {
    var r := [x] + rest;
    forall i, j | 0 <= i < j < |r| ensures r[i].createdAt > r[j].createdAt {
      assert r[j] == rest[j - 1];
      if i > 0 {
        assert r[i] == rest[i - 1];
      } else {
        assert rest[j - 1] in rest;
      }
    }
  }

  /** Prisma's `take`: at most the first `limit` elements. */
  function Take<T>(s: seq<T>, limit: nat): (r: seq<T>)
    ensures |r| <= limit && |r| <= |s|
    ensures r <= s
    ensures |r| == limit || r == s
  {
    if limit < |s| then s[..limit] else s
  }
}
