/**
 * The activities table and the queries the handlers run on it: the owner's
 * rows newest first, the UPDATE and DELETE scoped by id and owner, and the
 * SUM / COUNT / MAX / MIN aggregates. The table is a sequence of rows in
 * insertion order; `created` is the creation counter standing for `created_at`.
 */
module Ledger {
  import opened Outcomes
  import opened Validation

  /** An activity as the add and edit handlers send it back. */
  datatype Record = Record(id: int, userId: int, fields: Fields)

  /** A row of the activities table. */
  datatype Row = Row(rec: Record, created: int)

  /** The fixed goal the remaining points count down to. */
  const Goal := 100

  /** Rows in insertion order: ids (AUTOINCREMENT) and creation times both increase. */
  predicate OldestFirst(rows: seq<Row>)
  {
    forall i, j :: 0 <= i < j < |rows| ==> rows[i].rec.id < rows[j].rec.id && rows[i].created < rows[j].created
  }

  predicate NewestFirst(rows: seq<Row>)
  {
    forall i, j :: 0 <= i < j < |rows| ==> rows[i].created > rows[j].created
  }

  /**
   * The table's invariant: ids and creation times below the next ones to be
   * handed out, rows in insertion order, every row's fields as the handlers
   * sanitise them.
   */
  predicate LedgerValid(rows: seq<Row>, nextId: int, clock: int)
  {
    && 1 <= nextId
    && (forall i :: 0 <= i < |rows| ==>
          1 <= rows[i].rec.id < nextId && rows[i].created < clock && WellFormed(rows[i].rec.fields))
    && OldestFirst(rows)
  }

  /** `WHERE user_id = ?`, in table order. */
  function Owned(rows: seq<Row>, owner: int): (r: seq<Row>)
    ensures |r| <= |rows|
    ensures forall x :: x in r <==> x in rows && x.rec.userId == owner
  {
    if rows == [] then []
    else
      var rest := Owned(rows[1..], owner);
      assert forall x :: x in rows <==> x == rows[0] || x in rows[1..];
      (if rows[0].rec.userId == owner then [rows[0]] else []) + rest
  }

  function Reverse<T>(s: seq<T>): (r: seq<T>)
    ensures |r| == |s|
    ensures forall i :: 0 <= i < |s| ==> r[i] == s[|s| - 1 - i]
  {
    if s == [] then [] else Reverse(s[1..]) + [s[0]]
  }

  /** `SELECT * FROM activities WHERE user_id = ? ORDER BY created_at DESC` */
  function ListFor(rows: seq<Row>, owner: int): (r: seq<Row>)
    ensures |r| == |Owned(rows, owner)|
    ensures forall x :: x in r <==> x in rows && x.rec.userId == owner
  {
    var o := Owned(rows, owner);
    var l := Reverse(o);
    assert forall x :: x in l <==> x in o by {
      forall x | x in o
        ensures x in l
      {
        var k :| 0 <= k < |o| && o[k] == x;
        assert l[|o| - 1 - k] == x;
      }
    }
    l
  }

  lemma {:induction false} OwnedAppend(a: seq<Row>, b: seq<Row>, owner: int)
    ensures Owned(a + b, owner) == Owned(a, owner) + Owned(b, owner)
  {
    if a == [] {
      assert a + b == b;
    } else {
      assert (a + b)[0] == a[0] && (a + b)[1..] == a[1..] + b;
      OwnedAppend(a[1..], b, owner);
    }
  }

  /** A row older than all of an ordered tail can head it. */
  lemma ConsKeepsOrder(x: Row, rest: seq<Row>)
    requires OldestFirst(rest)
    requires forall y :: y in rest ==> x.rec.id < y.rec.id && x.created < y.created
    ensures OldestFirst([x] + rest)
  {
    var r := [x] + rest;
    forall i, j | 0 <= i < j < |r|
      ensures r[i].rec.id < r[j].rec.id && r[i].created < r[j].created
    {
      assert r[j] == rest[j - 1];
      if i > 0 {
        assert r[i] == rest[i - 1];
      } else {
        assert rest[j - 1] in rest;
      }
    }
  }

  lemma {:induction false} OwnedKeepsOrder(rows: seq<Row>, owner: int)
    requires OldestFirst(rows)
    ensures OldestFirst(Owned(rows, owner))
  {
    if rows != [] {
      OwnedKeepsOrder(rows[1..], owner);
      var rest := Owned(rows[1..], owner);
      if rows[0].rec.userId == owner {
        forall y | y in rest
          ensures rows[0].rec.id < y.rec.id && rows[0].created < y.created
        {
          var k :| 1 <= k < |rows| && rows[k] == y;
        }
        ConsKeepsOrder(rows[0], rest);
      } else {
        assert Owned(rows, owner) == rest;
      }
    }
  }

  /** From a table in insertion order, the listing puts the most recently created first. */
  lemma ListForMeaning(rows: seq<Row>, owner: int)
    requires OldestFirst(rows)
    ensures NewestFirst(ListFor(rows, owner))
  {
    OwnedKeepsOrder(rows, owner);
  }

  lemma {:induction false} ReverseAppend<T>(a: seq<T>, b: seq<T>)
    ensures Reverse(a + b) == Reverse(b) + Reverse(a)
  {
    if a != [] {
      assert (a + b)[1..] == a[1..] + b;
      ReverseAppend(a[1..], b);
    }
  }

  /** A new row heads its owner's listing; every other user's listing is unchanged. */
  lemma ListAfterAppend(rows: seq<Row>, row: Row, owner: int)
    ensures ListFor(rows + [row], owner) ==
              if row.rec.userId == owner then [row] + ListFor(rows, owner) else ListFor(rows, owner)
  {
    OwnedAppend(rows, [row], owner);
    ReverseAppend(Owned(rows, owner), Owned([row], owner));
  }

  /** The row `id` and `owner` select: `WHERE id = ? AND user_id = ?` */
  predicate Targets(id: IdText, owner: int, row: Row)
  {
    id == Key(row.rec.id) && row.rec.userId == owner
  }

  /** The number of rows `WHERE id = ? AND user_id = ?` selects: `this.changes`. */
  function Matches(rows: seq<Row>, id: IdText, owner: int): (n: nat)
    ensures n <= |rows|
    ensures n == 0 <==> forall x :: x in rows ==> !Targets(id, owner, x)
  {
    if rows == [] then 0
    else
      var rest := Matches(rows[1..], id, owner);
      assert forall x :: x in rows <==> x == rows[0] || x in rows[1..];
      (if Targets(id, owner, rows[0]) then 1 else 0) + rest
  }

  /** The row after `UPDATE activities SET name = ?, points = ?, date = ?, host = ?, description = ?` */
  function Edited(row: Row, f: Fields): Row
  {
    Row(row.rec.(fields := f), row.created)
  }

  /** `UPDATE ... WHERE id = ? AND user_id = ?` */
  function UpdateWhere(rows: seq<Row>, id: IdText, owner: int, f: Fields): (r: seq<Row>)
    ensures |r| == |rows|
    ensures forall i :: 0 <= i < |rows| ==>
              r[i] == if Targets(id, owner, rows[i]) then Edited(rows[i], f) else rows[i]
  {
    if rows == [] then []
    else [if Targets(id, owner, rows[0]) then Edited(rows[0], f) else rows[0]] + UpdateWhere(rows[1..], id, owner, f)
  }

  /** `DELETE FROM activities WHERE id = ? AND user_id = ?` */
  function DeleteWhere(rows: seq<Row>, id: IdText, owner: int): (r: seq<Row>)
    ensures |r| == |rows| - Matches(rows, id, owner)
    ensures forall x :: x in r <==> x in rows && !Targets(id, owner, x)
  {
    if rows == [] then []
    else
      var rest := DeleteWhere(rows[1..], id, owner);
      assert forall x :: x in rows <==> x == rows[0] || x in rows[1..];
      (if Targets(id, owner, rows[0]) then [] else [rows[0]]) + rest
  }

  /** Ids are unique, so an id and owner select at most one row. */
  lemma {:induction false} MatchesAtMostOne(rows: seq<Row>, id: IdText, owner: int)
    requires OldestFirst(rows)
    ensures Matches(rows, id, owner) <= 1
  {
    if rows != [] {
      MatchesAtMostOne(rows[1..], id, owner);
      if Targets(id, owner, rows[0]) {
        forall x | x in rows[1..]
          ensures !Targets(id, owner, x)
        {
          var k :| 1 <= k < |rows| && rows[k] == x;
        }
      }
    }
  }

  /** Only a numeric id selects a row. */
  lemma MatchNeedsKey(rows: seq<Row>, id: IdText, owner: int)
    requires Matches(rows, id, owner) > 0
    ensures id.Key? && exists x :: x in rows && x.rec.id == id.n && x.rec.userId == owner
  {
    var x :| x in rows && Targets(id, owner, x);
  }

  /** An update with no matching row changes nothing. */
  lemma UpdateWithoutMatch(rows: seq<Row>, id: IdText, owner: int, f: Fields)
    requires Matches(rows, id, owner) == 0
    ensures UpdateWhere(rows, id, owner, f) == rows
  {
    var r := UpdateWhere(rows, id, owner, f);
    forall i | 0 <= i < |rows|
      ensures r[i] == rows[i]
    {
      assert rows[i] in rows;
    }
  }

  /** A delete with no matching row changes nothing. */
  lemma {:induction false} DeleteWithoutMatch(rows: seq<Row>, id: IdText, owner: int)
    requires Matches(rows, id, owner) == 0
    ensures DeleteWhere(rows, id, owner) == rows
  {
    if rows != [] {
      assert rows[0] in rows;
      DeleteWithoutMatch(rows[1..], id, owner);
      assert [rows[0]] + rows[1..] == rows;
    }
  }

  /** Appending a row with the next id, the next creation time and well-formed fields keeps the invariant. */
  lemma AppendKeepsValid(rows: seq<Row>, row: Row, nextId: int, clock: int)
    requires LedgerValid(rows, nextId, clock)
    requires row.rec.id == nextId && row.created == clock && WellFormed(row.rec.fields)
    ensures LedgerValid(rows + [row], nextId + 1, clock + 1)
  {
    var r := rows + [row];
    forall i, j | 0 <= i < j < |r|
      ensures r[i].rec.id < r[j].rec.id && r[i].created < r[j].created
    {
      assert r[i] == rows[i];
    }
  }

  /** An update keeps every row's owner, so owners stay within any set they were in. */
  lemma UpdateKeepsOwners(rows: seq<Row>, id: IdText, owner: int, f: Fields, owners: set<int>)
    requires forall x :: x in rows ==> x.rec.userId in owners
    ensures forall x :: x in UpdateWhere(rows, id, owner, f) ==> x.rec.userId in owners
  {
    var r := UpdateWhere(rows, id, owner, f);
    forall x | x in r
      ensures x.rec.userId in owners
    {
      var k :| 0 <= k < |r| && r[k] == x;
      assert rows[k] in rows;
    }
  }

  /** Updating with well-formed fields keeps the table's invariant. */
  lemma UpdateKeepsValid(rows: seq<Row>, id: IdText, owner: int, f: Fields, nextId: int, clock: int)
    requires LedgerValid(rows, nextId, clock) && WellFormed(f)
    ensures LedgerValid(UpdateWhere(rows, id, owner, f), nextId, clock)
  {
    var r := UpdateWhere(rows, id, owner, f);
    forall i | 0 <= i < |r|
      ensures r[i].rec.id == rows[i].rec.id && r[i].created == rows[i].created
      ensures WellFormed(r[i].rec.fields)
    {
    }
    forall i, j | 0 <= i < j < |r|
      ensures r[i].rec.id < r[j].rec.id && r[i].created < r[j].created
    {
    }
  }

  lemma {:induction false} DeleteKeepsOrder(rows: seq<Row>, id: IdText, owner: int)
    requires OldestFirst(rows)
    ensures OldestFirst(DeleteWhere(rows, id, owner))
  {
    if rows != [] {
      DeleteKeepsOrder(rows[1..], id, owner);
      var rest := DeleteWhere(rows[1..], id, owner);
      if !Targets(id, owner, rows[0]) {
        forall y | y in rest
          ensures rows[0].rec.id < y.rec.id && rows[0].created < y.created
        {
          var k :| 1 <= k < |rows| && rows[k] == y;
        }
        ConsKeepsOrder(rows[0], rest);
      } else {
        assert DeleteWhere(rows, id, owner) == rest;
      }
    }
  }

  /** Deleting keeps the table's invariant. */
  lemma DeleteKeepsValid(rows: seq<Row>, id: IdText, owner: int, nextId: int, clock: int)
    requires LedgerValid(rows, nextId, clock)
    ensures LedgerValid(DeleteWhere(rows, id, owner), nextId, clock)
  {
    DeleteKeepsOrder(rows, id, owner);
    var r := DeleteWhere(rows, id, owner);
    forall i | 0 <= i < |r|
      ensures 1 <= r[i].rec.id < nextId && r[i].created < clock && WellFormed(r[i].rec.fields)
    {
      assert r[i] in rows;
    }
  }

  /** An update by one user leaves every other user's rows as they were. */
  lemma {:induction false} UpdateLeavesOthers(rows: seq<Row>, id: IdText, owner: int, f: Fields, other: int)
    requires other != owner
    ensures Owned(UpdateWhere(rows, id, owner, f), other) == Owned(rows, other)
  {
    if rows != [] {
      var r := UpdateWhere(rows, id, owner, f);
      UpdateLeavesOthers(rows[1..], id, owner, f, other);
      assert r[1..] == UpdateWhere(rows[1..], id, owner, f);
      assert r[0].rec.userId == rows[0].rec.userId;
      assert r[0].rec.userId == other ==> r[0] == rows[0];
    }
  }

  /** A delete by one user leaves every other user's rows as they were. */
  lemma {:induction false} DeleteLeavesOthers(rows: seq<Row>, id: IdText, owner: int, other: int)
    requires other != owner
    ensures Owned(DeleteWhere(rows, id, owner), other) == Owned(rows, other)
  {
    if rows != [] {
      var rest := DeleteWhere(rows[1..], id, owner);
      DeleteLeavesOthers(rows[1..], id, owner, other);
      if Targets(id, owner, rows[0]) {
        assert DeleteWhere(rows, id, owner) == rest;
      } else {
        var r := [rows[0]] + rest;
        assert DeleteWhere(rows, id, owner) == r;
        assert r[0] == rows[0] && r[1..] == rest;
      }
    }
  }

  // Aggregates

  /** `SUM(points)` over the given rows (0 for none, as COALESCE makes it). */
  function Sum(rows: seq<Row>): int
  {
    if rows == [] then 0 else rows[0].rec.fields.points + Sum(rows[1..])
  }

  /** `SELECT COALESCE(SUM(points), 0) FROM activities WHERE user_id = ?` */
  function Total(rows: seq<Row>, owner: int): (t: int)
    ensures (forall x :: x in rows ==> x.rec.userId != owner) ==> t == 0
    ensures (forall x :: x in rows && x.rec.userId == owner ==> x.rec.fields.points >= 0) ==> t >= 0
  {
    var mine := Owned(rows, owner);
    assert mine != [] ==> mine[0] in mine;
    SumNonNegative(mine);
    Sum(mine)
  }

  lemma {:induction false} SumNonNegative(rows: seq<Row>)
    ensures (forall x :: x in rows ==> x.rec.fields.points >= 0) ==> Sum(rows) >= 0
  {
    if rows != [] {
      SumNonNegative(rows[1..]);
      assert forall x :: x in rows[1..] ==> x in rows;
    }
  }

  /** `Math.max(0, 100 - total)` */
  function Remaining(total: int): (r: int)
    ensures r >= 0 && r >= Goal - total
    ensures r == 0 || r == Goal - total
  {
    if Goal - total > 0 then Goal - total else 0
  }

  /** `MAX(points)` over a non-empty set of rows. */
  function MaxOf(rows: seq<Row>): (m: int)
    requires rows != []
    ensures forall x :: x in rows ==> x.rec.fields.points <= m
    ensures exists x :: x in rows && x.rec.fields.points == m
  {
    if |rows| == 1 then rows[0].rec.fields.points
    else
      var rest := MaxOf(rows[1..]);
      assert forall x :: x in rows <==> x == rows[0] || x in rows[1..];
      if rows[0].rec.fields.points >= rest then rows[0].rec.fields.points else rest
  }

  /** `MIN(points)` over a non-empty set of rows. */
  function MinOf(rows: seq<Row>): (m: int)
    requires rows != []
    ensures forall x :: x in rows ==> m <= x.rec.fields.points
    ensures exists x :: x in rows && x.rec.fields.points == m
  {
    if |rows| == 1 then rows[0].rec.fields.points
    else
      var rest := MinOf(rows[1..]);
      assert forall x :: x in rows <==> x == rows[0] || x in rows[1..];
      if rows[0].rec.fields.points <= rest then rows[0].rec.fields.points else rest
  }

  /** The body of GET /stats, without `averagePoints`. */
  datatype Stats = Stats(totalActivities: nat, totalPoints: int, maxPoints: int, minPoints: int, remaining: int)

  /** `COUNT(*)`, `COALESCE(SUM(points), 0)`, `COALESCE(MAX(points), 0)`, `COALESCE(MIN(points), 0)` and the remaining points. */
  function StatsFor(rows: seq<Row>, owner: int): (s: Stats)
    ensures s.totalActivities == |ListFor(rows, owner)|
    ensures s.totalPoints == Total(rows, owner)
    ensures s.remaining == Remaining(s.totalPoints)
    ensures s.totalActivities == 0 ==> s.totalPoints == 0 && s.maxPoints == 0 && s.minPoints == 0 && s.remaining == Goal
    ensures s.totalActivities > 0 ==>
              && (forall x :: x in rows && x.rec.userId == owner ==> s.minPoints <= x.rec.fields.points <= s.maxPoints)
              && (exists x :: x in rows && x.rec.userId == owner && x.rec.fields.points == s.maxPoints)
              && (exists x :: x in rows && x.rec.userId == owner && x.rec.fields.points == s.minPoints)
  {
    var mine := Owned(rows, owner);
    var total := Sum(mine);
    Stats(|mine|, total,
          if mine == [] then 0 else MaxOf(mine),
          if mine == [] then 0 else MinOf(mine),
          Remaining(total))
  }

  lemma {:induction false} SumAppend(a: seq<Row>, b: seq<Row>)
    ensures Sum(a + b) == Sum(a) + Sum(b)
  {
    if a == [] {
      assert a + b == b;
    } else {
      assert (a + b)[0] == a[0] && (a + b)[1..] == a[1..] + b;
      SumAppend(a[1..], b);
    }
  }

  /** With points between 1 and 1000 on every row, the sum lies between the count and 1000 times it. */
  lemma {:induction false} SumBounds(rows: seq<Row>)
    requires forall x :: x in rows ==> 1 <= x.rec.fields.points <= MaxPoints
    ensures |rows| <= Sum(rows) <= MaxPoints * |rows|
  {
    if rows != [] {
      assert rows[0] in rows;
      SumBounds(rows[1..]);
    }
  }

  /** Adding a row adds its points to its owner's total and to no one else's. */
  lemma TotalAfterAppend(rows: seq<Row>, row: Row, owner: int)
    ensures Total(rows + [row], owner) ==
              Total(rows, owner) + (if row.rec.userId == owner then row.rec.fields.points else 0)
  {
    OwnedAppend(rows, [row], owner);
    SumAppend(Owned(rows, owner), Owned([row], owner));
  }

  /** The total is never negative and is 0 exactly when the owner has no rows, so 0 <= remaining <= 100. */
  lemma TotalRange(rows: seq<Row>, owner: int, nextId: int, clock: int)
    requires LedgerValid(rows, nextId, clock)
    ensures 0 <= Total(rows, owner)
    ensures Total(rows, owner) == 0 <==> ListFor(rows, owner) == []
    ensures 0 <= Remaining(Total(rows, owner)) <= Goal
  {
    var mine := Owned(rows, owner);
    forall x | x in mine
      ensures 1 <= x.rec.fields.points <= MaxPoints
    {
      var k :| 0 <= k < |rows| && rows[k] == x;
    }
    SumBounds(mine);
  }

  /**
   * GET /stats: the count is the number of the owner's rows, the total their
   * points; with no rows every figure is 0, otherwise 1 <= min <= max <= 1000
   * and both are points of some row; remaining is in 0..100.
   */
  lemma StatsMeaning(rows: seq<Row>, owner: int, nextId: int, clock: int)
    requires LedgerValid(rows, nextId, clock)
    ensures var s := StatsFor(rows, owner);
      && s.totalActivities == |ListFor(rows, owner)|
      && s.totalPoints == Total(rows, owner)
      && s.remaining == Remaining(s.totalPoints) && 0 <= s.remaining <= Goal
      && (s.totalActivities == 0 ==> s.totalPoints == 0 && s.maxPoints == 0 && s.minPoints == 0 && s.remaining == Goal)
      && (s.totalActivities > 0 ==>
            && 1 <= s.minPoints <= s.maxPoints <= MaxPoints
            && s.totalActivities <= s.totalPoints <= MaxPoints * s.totalActivities
            && (exists x :: x in rows && x.rec.userId == owner && x.rec.fields.points == s.maxPoints)
            && (exists x :: x in rows && x.rec.userId == owner && x.rec.fields.points == s.minPoints))
  {
    TotalRange(rows, owner, nextId, clock);
    var mine := Owned(rows, owner);
    forall x | x in mine
      ensures 1 <= x.rec.fields.points <= MaxPoints
    {
      var k :| 0 <= k < |rows| && rows[k] == x;
    }
    SumBounds(mine);
    if mine != [] {
      var lo := MinOf(mine);
      var hi := MaxOf(mine);
      assert mine[0] in mine;
    }
  }
}
