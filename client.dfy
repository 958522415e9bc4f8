/**
 * The dashboard page: its check of the activity forms, its local copy of
 * the activity list (`this.activities`), the goal badge and the
 * achievement trigger.
 */
module Client {
  import opened Outcomes
  import opened Text
  import opened Ledger

  // parseInt, as the forms use it (no radix argument)

  /** The value of `c` as a digit of the radix (10 or 16), or -1. */
  function DigitValue(c: char, radix: nat): int
  {
    if '0' <= c <= '9' && (c as int - '0' as int) < radix then c as int - '0' as int
    else if radix == 16 && 'a' <= c <= 'f' then c as int - 'a' as int + 10
    else if radix == 16 && 'A' <= c <= 'F' then c as int - 'A' as int + 10
    else -1
  }

  predicate IsDigit(c: char, radix: nat)
  {
    DigitValue(c, radix) >= 0
  }

  /** How many characters at the front of `s` are digits of the radix. */
  function DigitRun(s: string, radix: nat): (n: nat)
    ensures n <= |s|
    ensures forall i :: 0 <= i < n ==> IsDigit(s[i], radix)
    ensures n < |s| ==> !IsDigit(s[n], radix)
  {
    if s == [] || !IsDigit(s[0], radix) then 0 else 1 + DigitRun(s[1..], radix)
  }

  /** The value of a string of digits, most significant first. */
  function DigitsValue(s: string, radix: nat): nat
    requires forall i :: 0 <= i < |s| ==> IsDigit(s[i], radix)
  {
    if s == [] then 0
    else
      assert IsDigit(s[|s| - 1], radix);
      DigitsValue(s[..|s| - 1], radix) * radix + DigitValue(s[|s| - 1], radix)
  }

  /** The value of the digits at the front of `s`, or None when `s` does not start with one. */
  function LeadingNumber(s: string, radix: nat): Option<nat>
  {
    var n := DigitRun(s, radix);
    if n == 0 then None else Some(DigitsValue(s[..n], radix))
  }

  /** An unsigned number: "0x" or "0X" in front selects hexadecimal. */
  function UnsignedNumber(s: string): Option<nat>
  {
    if |s| >= 2 && s[0] == '0' && (s[1] == 'x' || s[1] == 'X') then LeadingNumber(s[2..], 16)
    else LeadingNumber(s, 10)
  }

  /**
   * `parseInt(text)`: leading whitespace is skipped, then an optional sign;
   * the longest run of digits that follows is the value. None is NaN (no
   * digit at all).
   */
  function ParseInt(text: string): (r: Option<int>)
    ensures TrimStart(text) == [] ==> r.None?
    ensures r.Some? && r.value < 0 ==> TrimStart(text)[0] == '-'
    ensures var s := TrimStart(text);
            s != [] && IsDigit(s[0], 10) && !(|s| >= 2 && s[0] == '0' && (s[1] == 'x' || s[1] == 'X')) ==>
              r.Some? && r.value >= 0
  {
    var s := TrimStart(text);
    if s != [] && s[0] == '-' then
      match UnsignedNumber(s[1..])
      case None => None
      case Some(v) => Some(-(v as int))
    else if s != [] && s[0] == '+' then
      match UnsignedNumber(s[1..])
      case None => None
      case Some(v) => Some(v)
    else
      match UnsignedNumber(s)
      case None => None
      case Some(v) => Some(v)
  }

  /** `String(n)` for a non-negative integer: its decimal digits. */
  function DecimalText(n: nat): (s: string)
    ensures s != []
    ensures forall i :: 0 <= i < |s| ==> '0' <= s[i] <= '9'
  {
    if n < 10 then [('0' as int + n) as char]
    else DecimalText(n / 10) + [('0' as int + n % 10) as char]
  }

  lemma {:induction false} DecimalTextValue(n: nat)
    ensures forall i :: 0 <= i < |DecimalText(n)| ==> IsDigit(DecimalText(n)[i], 10)
    ensures DigitsValue(DecimalText(n), 10) == n
  {
    var s := DecimalText(n);
    if n >= 10 {
      DecimalTextValue(n / 10);
      assert s[..|s| - 1] == DecimalText(n / 10);
    }
  }

  /** The digits `String` writes are read back whole, in decimal. */
  lemma DecimalTextUnsigned(n: nat)
    ensures UnsignedNumber(DecimalText(n)) == Some(n)
  {
    var s := DecimalText(n);
    DecimalTextValue(n);
    assert s[..DigitRun(s, 10)] == s;
  }

  /** A number written by `String` is read back by `parseInt`: the edit form's round trip. */
  lemma ParseIntDecimalText(n: nat)
    ensures ParseInt(DecimalText(n)) == Some(n)
  {
    var s := DecimalText(n);
    DecimalTextUnsigned(n);
    assert '0' <= s[0] <= '9';
    assert LeadingBlanks(s) == 0;
    assert TrimStart(s) == s;
  }

  /** A minus sign in front negates what follows. */
  lemma ParseIntNegative(n: nat)
    ensures ParseInt("-" + DecimalText(n)) == Some(-(n as int))
  {
    var s := "-" + DecimalText(n);
    DecimalTextUnsigned(n);
    assert s[0] == '-' && !IsWhitespace(s[0]);
    assert TrimStart(s) == s;
    assert s[1..] == DecimalText(n);
  }

  // The form check

  /**
   * The check in `handleFormSubmit` and `handleEditActivity`:
   * `!(!activityName || !activityPoints || activityPoints <= 0)` on the
   * trimmed name and the parsed points; NaN and 0 are falsy.
   */
  function FormAccepts(rawName: string, pointsText: string): (ok: bool)
    ensures ok <==> !IsBlank(rawName) && ParseInt(pointsText).Some? && ParseInt(pointsText).value >= 1
  {
    var name := Trim(rawName);
    var points := ParseInt(pointsText);
    TrimEmptyIffBlank(rawName);
    !(name == [] || points.None? || points.value == 0 || points.value <= 0)
  }

  // The goal badge and the achievement

  datatype Badge = KeepGoing | GreatProgress | AlmostThere | GoalAchieved

  /** The badge `updateProgressBar` shows for a total. */
  function BadgeFor(totalPoints: int): (b: Badge)
    ensures Rank(b) == ThresholdsReached(totalPoints)
  {
    if totalPoints >= 100 then GoalAchieved
    else if totalPoints >= 75 then AlmostThere
    else if totalPoints >= 50 then GreatProgress
    else KeepGoing
  }

  /** The badges in order of progress. */
  function Rank(b: Badge): nat
  {
    match b
    case KeepGoing => 0
    case GreatProgress => 1
    case AlmostThere => 2
    case GoalAchieved => 3
  }

  /** How many of the thresholds 50, 75 and 100 a total reaches. */
  function ThresholdsReached(totalPoints: int): nat
  {
    (if totalPoints >= 50 then 1 else 0) + (if totalPoints >= 75 then 1 else 0) + (if totalPoints >= 100 then 1 else 0)
  }

  /** The badge never goes down as the total grows. */
  lemma BadgeMonotone(a: int, b: int)
    requires a <= b
    ensures Rank(BadgeFor(a)) <= Rank(BadgeFor(b))
  {
  }

  /** `checkAchievement`: the modal opens only at 100 points or more. */
  function ShowsAchievement(totalPoints: int): (show: bool)
    ensures show <==> BadgeFor(totalPoints) == GoalAchieved
  {
    totalPoints >= 100
  }

  /** `Math.max(0, data.remaining)`: the remaining points as displayed. */
  function DisplayedRemaining(remaining: int): (shown: int)
    ensures shown >= 0 && shown >= remaining
    ensures remaining >= 0 ==> shown == remaining
    ensures shown == 0 || shown == remaining
  {
    if remaining > 0 then remaining else 0
  }

  // The local list

  /** `s.findIndex(a => a.id == id)` */
  function FindIndex(s: seq<Record>, id: int): (i: int)
    ensures -1 <= i < |s|
    ensures i == -1 <==> forall k :: 0 <= k < |s| ==> s[k].id != id
    ensures 0 <= i ==> s[i].id == id && forall k :: 0 <= k < i ==> s[k].id != id
  {
    if s == [] then -1
    else if s[0].id == id then 0
    else
      var i := FindIndex(s[1..], id);
      if i == -1 then -1 else i + 1
  }

  /** `s` with its first element carrying `id` replaced by `x`. */
  function ReplaceFirst(s: seq<Record>, id: int, x: Record): (r: seq<Record>)
    ensures |r| == |s|
  {
    if s == [] then []
    else if s[0].id == id then [x] + s[1..]
    else [s[0]] + ReplaceFirst(s[1..], id, x)
  }

  /** `s.filter(a => a.id != id)` */
  function WithoutId(s: seq<Record>, id: int): (r: seq<Record>)
    ensures |r| <= |s|
    ensures forall a :: a in r <==> a in s && a.id != id
  {
    if s == [] then []
    else
      var rest := WithoutId(s[1..], id);
      assert forall a :: a in s <==> a == s[0] || a in s[1..];
      (if s[0].id == id then [] else [s[0]]) + rest
  }

  /** ReplaceFirst replaces the element FindIndex finds, and only that one. */
  lemma {:induction false} ReplaceFirstAt(s: seq<Record>, id: int, x: Record)
    ensures FindIndex(s, id) == -1 ==> ReplaceFirst(s, id, x) == s
    ensures FindIndex(s, id) >= 0 ==> ReplaceFirst(s, id, x) == s[FindIndex(s, id) := x]
  {
    if s != [] && s[0].id != id {
      ReplaceFirstAt(s[1..], id, x);
      if FindIndex(s, id) == -1 {
        assert [s[0]] + s[1..] == s;
      } else {
        assert [s[0]] + s[1..][FindIndex(s[1..], id) := x] == s[FindIndex(s, id) := x];
      }
    } else if s != [] {
      assert [x] + s[1..] == s[0 := x];
    }
  }

  /** The filter distributes over concatenation, so the survivors keep their order. */
  lemma {:induction false} WithoutIdAppend(a: seq<Record>, b: seq<Record>, id: int)
    ensures WithoutId(a + b, id) == WithoutId(a, id) + WithoutId(b, id)
  {
    if a == [] {
      assert a + b == b;
    } else {
      assert (a + b)[0] == a[0] && (a + b)[1..] == a[1..] + b;
      WithoutIdAppend(a[1..], b, id);
    }
  }

  /** The state of the dashboard that the activity handlers change. */
  class Dashboard {
    /** The local copy of the user's activities, newest first. */
    var activities: seq<Record>
    /** The total from the last GET /total. */
    var totalPoints: int

    constructor ()
      ensures activities == [] && totalPoints == 0
    {
      activities, totalPoints := [], 0;
    }

    /** After a successful add: `this.activities.unshift(newActivity)`. */
    method ActivityAdded(newActivity: Record)
      modifies this`activities
      ensures activities == [newActivity] + old(activities)
    {
      activities := [newActivity] + activities;
    }

    /** After a successful edit: the first element with the id is replaced by the server's record. */
    method ActivityEdited(id: int, updatedActivity: Record)
      modifies this`activities
      ensures activities == ReplaceFirst(old(activities), id, updatedActivity)
      ensures |activities| == |old(activities)|
      ensures forall k :: 0 <= k < |activities| && k != FindIndex(old(activities), id) ==>
                activities[k] == old(activities)[k]
    {
      var index := FindIndex(activities, id);
      ReplaceFirstAt(activities, id, updatedActivity);
      if index != -1 {
        activities := activities[index := updatedActivity];
      }
    }

    /** After a successful delete: `this.activities = this.activities.filter(a => a.id != activityId)`. */
    method ActivityDeleted(id: int)
      modifies this`activities
      ensures activities == WithoutId(old(activities), id)
      ensures forall a :: a in activities <==> a in old(activities) && a.id != id
    {
      activities := WithoutId(activities, id);
    }

    /** `updateStats` keeps the total it received. */
    method TotalLoaded(total: int)
      modifies this`totalPoints
      ensures totalPoints == total
    {
      totalPoints := total;
    }

    /** `checkAchievement` */
    method CheckAchievement() returns (show: bool)
      ensures show <==> totalPoints >= 100
    {
      show := ShowsAchievement(totalPoints);
    }

    /**
     * The end of `handleFormSubmit` as written: `updateStats` is started but
     * not awaited, so `checkAchievement` runs before the refreshed total
     * arrives and reads the previous one; `refreshedTotal` is what the
     * refresh stores afterwards.
     */
    method AddedAsWritten(newActivity: Record, refreshedTotal: int) returns (show: bool)
      modifies this`activities, this`totalPoints
      ensures activities == [newActivity] + old(activities)
      ensures totalPoints == refreshedTotal
      ensures show <==> old(totalPoints) >= 100
    {
      ActivityAdded(newActivity);
      show := CheckAchievement();
      TotalLoaded(refreshedTotal);
    }

    /**
     * The same with the refresh awaited before the check: the achievement
     * shows exactly when the total after the add reaches the goal.
     */
    method AddedThenChecked(newActivity: Record, refreshedTotal: int) returns (show: bool)
      modifies this`activities, this`totalPoints
      ensures activities == [newActivity] + old(activities)
      ensures totalPoints == refreshedTotal
      ensures show <==> refreshedTotal >= 100
    {
      ActivityAdded(newActivity);
      TotalLoaded(refreshedTotal);
      show := CheckAchievement();
    }
  }
}
