/**
 * How the dashboard's local list follows the server. After each successful
 * add, edit or delete, the dashboard updates `this.activities` itself
 * instead of reloading it; these lemmas show that, from a list equal to the
 * server's listing, each update yields the server's new listing (records
 * compared without their creation time, which the add and edit responses
 * do not carry).
 */
module Sync {
  import opened Outcomes
  import opened Text
  import opened Validation
  import opened Ledger
  import opened Client

  /** What the dashboard keeps of a row: the record without its creation time. */
  function Views(rows: seq<Row>): (r: seq<Record>)
    ensures |r| == |rows|
    ensures forall i :: 0 <= i < |rows| ==> r[i] == rows[i].rec
  {
    if rows == [] then [] else [rows[0].rec] + Views(rows[1..])
  }

  /** After an add, the server's listing is the old one with the new record in front: `unshift`. */
  lemma MirrorAfterAdd(rows: seq<Row>, row: Row)
    ensures Views(ListFor(rows + [row], row.rec.userId)) == [row.rec] + Views(ListFor(rows, row.rec.userId))
  {
    ListAfterAppend(rows, row, row.rec.userId);
    var l := ListFor(rows, row.rec.userId);
    assert Views([row] + l) == [row.rec] + Views(l);
  }

  lemma ViewsAppend(a: seq<Row>, b: seq<Row>)
    ensures Views(a + b) == Views(a) + Views(b)
  {
    assert forall i :: 0 <= i < |a + b| ==> (a + b)[i] == if i < |a| then a[i] else b[i - |a|];
  }

  lemma ViewsReverse(s: seq<Row>)
    ensures Views(Reverse(s)) == Reverse(Views(s))
  {
  }

  /** The table with one more row in front, seen through `WHERE user_id = ?`. */
  lemma OwnedCons(head: Row, tail: seq<Row>, owner: int)
    ensures Owned([head] + tail, owner) == (if head.rec.userId == owner then [head] else []) + Owned(tail, owner)
  {
    assert ([head] + tail)[0] == head && ([head] + tail)[1..] == tail;
  }

  lemma DeleteCons(head: Row, tail: seq<Row>, id: int, owner: int)
    ensures DeleteWhere([head] + tail, Key(id), owner) ==
              (if Targets(Key(id), owner, head) then [] else [head]) + DeleteWhere(tail, Key(id), owner)
  {
    assert ([head] + tail)[0] == head && ([head] + tail)[1..] == tail;
  }

  // Delete

  /** One row: the server's delete and the dashboard's filter agree on it. */
  lemma DeleteOne(head: Row, id: int, owner: int)
    ensures Views(Owned(if Targets(Key(id), owner, head) then [] else [head], owner)) ==
              WithoutId(Views(if head.rec.userId == owner then [head] else []), id)
  {
    OwnedCons(head, [], owner);
    assert [head] + [] == [head];
    assert Views([head]) == [head.rec];
    assert WithoutId([head.rec], id) == (if head.rec.id == id then [] else [head.rec]) + WithoutId([], id);
  }

  lemma {:induction false} OwnedAfterDelete(rows: seq<Row>, id: int, owner: int)
    ensures Views(Owned(DeleteWhere(rows, Key(id), owner), owner)) == WithoutId(Views(Owned(rows, owner)), id)
  {
    if rows != [] {
      var head, tail := rows[0], rows[1..];
      assert rows == [head] + tail;
      OwnedAfterDelete(tail, id, owner);
      var d := if Targets(Key(id), owner, head) then [] else [head];
      var o := if head.rec.userId == owner then [head] else [];
      var rest := DeleteWhere(tail, Key(id), owner);
      DeleteCons(head, tail, id, owner);
      OwnedAppend(d, rest, owner);
      ViewsAppend(Owned(d, owner), Owned(rest, owner));
      OwnedCons(head, tail, owner);
      ViewsAppend(o, Owned(tail, owner));
      WithoutIdAppend(Views(o), Views(Owned(tail, owner)), id);
      DeleteOne(head, id, owner);
    }
  }

  lemma WithoutIdOne(a: Record, id: int)
    ensures WithoutId([a], id) == if a.id == id then [] else [a]
  {
    assert [a][1..] == [];
  }

  lemma {:induction false} WithoutIdReverse(s: seq<Record>, id: int)
    ensures WithoutId(Reverse(s), id) == Reverse(WithoutId(s, id))
  {
    if s != [] {
      var w := if s[0].id == id then [] else [s[0]];
      var t := WithoutId(s[1..], id);
      assert Reverse(w) == w;
      calc {
        WithoutId(Reverse(s), id);
        WithoutId(Reverse(s[1..]) + [s[0]], id);
        { WithoutIdAppend(Reverse(s[1..]), [s[0]], id); }
        WithoutId(Reverse(s[1..]), id) + WithoutId([s[0]], id);
        { WithoutIdReverse(s[1..], id); WithoutIdOne(s[0], id); }
        Reverse(t) + Reverse(w);
        { ReverseAppend(w, t); }
        Reverse(w + t);
        Reverse(WithoutId(s, id));
      }
    }
  }

  /** After a delete, the server's listing is the old one filtered by id: the dashboard's `filter`. */
  lemma MirrorAfterDelete(rows: seq<Row>, id: int, owner: int)
    ensures Views(ListFor(DeleteWhere(rows, Key(id), owner), owner)) == WithoutId(Views(ListFor(rows, owner)), id)
  {
    var before := Owned(rows, owner);
    var after := Owned(DeleteWhere(rows, Key(id), owner), owner);
    OwnedAfterDelete(rows, id, owner);
    ViewsReverse(after);
    ViewsReverse(before);
    WithoutIdReverse(Views(before), id);
  }

  // Update

  /** Every element carrying `id` replaced by `x`. */
  function ReplaceAll(s: seq<Record>, id: int, x: Record): (r: seq<Record>)
    ensures |r| == |s|
    ensures forall i :: 0 <= i < |s| ==> r[i] == if s[i].id == id then x else s[i]
  {
    if s == [] then [] else [if s[0].id == id then x else s[0]] + ReplaceAll(s[1..], id, x)
  }

  lemma ReplaceAllAppend(a: seq<Record>, b: seq<Record>, id: int, x: Record)
    ensures ReplaceAll(a + b, id, x) == ReplaceAll(a, id, x) + ReplaceAll(b, id, x)
  {
    assert forall i :: 0 <= i < |a + b| ==> (a + b)[i] == if i < |a| then a[i] else b[i - |a|];
  }

  lemma ReplaceAllReverse(s: seq<Record>, id: int, x: Record)
    ensures ReplaceAll(Reverse(s), id, x) == Reverse(ReplaceAll(s, id, x))
  {
  }

  /** How many elements carry `id`. */
  function CountId(s: seq<Record>, id: int): (n: nat)
    ensures n == 0 <==> forall i :: 0 <= i < |s| ==> s[i].id != id
  {
    if s == [] then 0 else (if s[0].id == id then 1 else 0) + CountId(s[1..], id)
  }

  lemma {:induction false} CountIdAppend(a: seq<Record>, b: seq<Record>, id: int)
    ensures CountId(a + b, id) == CountId(a, id) + CountId(b, id)
  {
    if a == [] {
      assert a + b == b;
    } else {
      assert (a + b)[0] == a[0] && (a + b)[1..] == a[1..] + b;
      CountIdAppend(a[1..], b, id);
    }
  }

  lemma {:induction false} CountIdOwned(rows: seq<Row>, id: int, owner: int)
    ensures CountId(Views(Owned(rows, owner)), id) == Matches(rows, Key(id), owner)
  {
    if rows != [] {
      var head, tail := rows[0], rows[1..];
      assert rows == [head] + tail;
      CountIdOwned(tail, id, owner);
      var o := if head.rec.userId == owner then [head] else [];
      OwnedCons(head, tail, owner);
      ViewsAppend(o, Owned(tail, owner));
      CountIdAppend(Views(o), Views(Owned(tail, owner)), id);
      if o != [] {
        assert Views(o) == [head.rec];
        assert CountId([head.rec], id) == (if head.rec.id == id then 1 else 0) + CountId([], id);
      }
    }
  }

  lemma {:induction false} CountIdReverse(s: seq<Record>, id: int)
    ensures CountId(Reverse(s), id) == CountId(s, id)
  {
    if s != [] {
      CountIdReverse(s[1..], id);
      CountIdAppend(Reverse(s[1..]), [s[0]], id);
      assert CountId([s[0]], id) == (if s[0].id == id then 1 else 0) + CountId([], id);
    }
  }

  /** When at most one element carries the id, replacing all of them is replacing the first. */
  lemma {:induction false} ReplaceAllIsFirst(s: seq<Record>, id: int, x: Record)
    requires CountId(s, id) <= 1
    ensures ReplaceAll(s, id, x) == ReplaceFirst(s, id, x)
  {
    if s != [] {
      if s[0].id == id {
        assert CountId(s[1..], id) == 0;
        assert ReplaceAll(s[1..], id, x) == s[1..];
      } else {
        ReplaceAllIsFirst(s[1..], id, x);
      }
    }
  }

  lemma UpdateCons(head: Row, tail: seq<Row>, id: int, owner: int, f: Fields)
    ensures UpdateWhere([head] + tail, Key(id), owner, f) ==
              [if Targets(Key(id), owner, head) then Edited(head, f) else head] + UpdateWhere(tail, Key(id), owner, f)
  {
    assert ([head] + tail)[0] == head && ([head] + tail)[1..] == tail;
  }

  /** One row: the server's update and the dashboard's replacement agree on it. */
  lemma UpdateOne(head: Row, id: int, owner: int, f: Fields)
    ensures Views(Owned([if Targets(Key(id), owner, head) then Edited(head, f) else head], owner)) ==
              ReplaceAll(Views(if head.rec.userId == owner then [head] else []), id, Record(id, owner, f))
  {
    var e := if Targets(Key(id), owner, head) then Edited(head, f) else head;
    OwnedCons(e, [], owner);
    OwnedCons(head, [], owner);
    assert [e] + [] == [e] && [head] + [] == [head];
    assert Views([head]) == [head.rec];
  }

  lemma {:induction false} OwnedAfterUpdate(rows: seq<Row>, id: int, owner: int, f: Fields)
    ensures Views(Owned(UpdateWhere(rows, Key(id), owner, f), owner)) ==
              ReplaceAll(Views(Owned(rows, owner)), id, Record(id, owner, f))
  {
    if rows != [] {
      var head, tail := rows[0], rows[1..];
      assert rows == [head] + tail;
      var x := Record(id, owner, f);
      OwnedAfterUpdate(tail, id, owner, f);
      var e := if Targets(Key(id), owner, head) then Edited(head, f) else head;
      var o := if head.rec.userId == owner then [head] else [];
      var rest := UpdateWhere(tail, Key(id), owner, f);
      UpdateCons(head, tail, id, owner, f);
      OwnedAppend([e], rest, owner);
      ViewsAppend(Owned([e], owner), Owned(rest, owner));
      OwnedCons(head, tail, owner);
      ViewsAppend(o, Owned(tail, owner));
      ReplaceAllAppend(Views(o), Views(Owned(tail, owner)), id, x);
      UpdateOne(head, id, owner, f);
    }
  }

  /**
   * After an edit, the server's listing is the old one with the edited
   * record in place of the first with that id: the dashboard's
   * `findIndex` and assignment. Ids are unique, so the first is the only one.
   */
  lemma MirrorAfterUpdate(rows: seq<Row>, id: int, owner: int, f: Fields)
    requires OldestFirst(rows)
    ensures Views(ListFor(UpdateWhere(rows, Key(id), owner, f), owner)) ==
              ReplaceFirst(Views(ListFor(rows, owner)), id, Record(id, owner, f))
  {
    var x := Record(id, owner, f);
    var before := Owned(rows, owner);
    var after := Owned(UpdateWhere(rows, Key(id), owner, f), owner);
    OwnedAfterUpdate(rows, id, owner, f);
    ViewsReverse(after);
    ViewsReverse(before);
    ReplaceAllReverse(Views(before), id, x);
    CountIdOwned(rows, id, owner);
    MatchesAtMostOne(rows, Key(id), owner);
    CountIdReverse(Views(before), id);
    ReplaceAllIsFirst(Reverse(Views(before)), id, x);
  }

  // The forms and the goal

  /**
   * What the dashboard's form check lets through, the server's name check
   * accepts; its points pass the server's check exactly when they are at
   * most 1000, a bound the form does not test.
   */
  lemma FormThenServer(rawName: string, pointsText: string)
    requires FormAccepts(rawName, pointsText)
    ensures NameAccepted(Str(Trim(rawName)))
    ensures PointsAccepted(Num(ParseInt(pointsText).value)) <==> ParseInt(pointsText).value <= MaxPoints
  {
    TrimIdempotent(rawName);
    TrimEmptyIffBlank(rawName);
  }

  /** Points above 1000 pass the form's check and are refused by the server. */
  lemma FormAllowsOverLimit()
    ensures FormAccepts("Run", DecimalText(1001))
    ensures !PointsAccepted(Num(ParseInt(DecimalText(1001)).value))
  {
    ParseIntDecimalText(1001);
    assert !IsWhitespace("Run"[0]);
  }

  /**
   * The edit form shows a stored activity (its points written by `String`)
   * and sends it back unchanged: the form's check accepts it and reads the
   * same points.
   */
  lemma EditFormRoundTrip(f: Fields)
    requires WellFormed(f)
    ensures ParseInt(DecimalText(f.points)) == Some(f.points)
    ensures FormAccepts(f.name, DecimalText(f.points))
  {
    ParseIntDecimalText(f.points);
    NotBlankAtStart(f.name);
  }

  /**
   * The achievement shows, the badge reads "Goal Achieved" and the server's
   * remaining reaches 0 all at the same totals; the displayed remaining is
   * the server's.
   */
  lemma AchievementAtGoal(totalPoints: int)
    ensures ShowsAchievement(totalPoints) <==> Remaining(totalPoints) == 0
    ensures ShowsAchievement(totalPoints) <==> BadgeFor(totalPoints) == GoalAchieved
    ensures DisplayedRemaining(Remaining(totalPoints)) == Remaining(totalPoints)
  {
  }

  /**
   * From 90 points, adding a 20-point activity brings the server's total to
   * 110, yet the dashboard as written does not show the achievement.
   */
  method MissedAchievement() returns (show: bool, total: int)
    ensures total == 110 && total >= Goal
    ensures !show
  {
    var d := new Dashboard();
    d.TotalLoaded(90);
    var run := Record(1, 1, Fields("Run", 20, Str("2024-01-01"), [], []));
    show := d.AddedAsWritten(run, 110);
    total := d.totalPoints;
  }

  /** With the refresh awaited, the same add shows the achievement. */
  method ShownWhenAwaited() returns (show: bool, total: int)
    ensures total == 110
    ensures show
  {
    var d := new Dashboard();
    d.TotalLoaded(90);
    var run := Record(1, 1, Fields("Run", 20, Str("2024-01-01"), [], []));
    show := d.AddedThenChecked(run, 110);
    total := d.totalPoints;
  }
}
