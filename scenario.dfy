/**
 * A short session against the server: two users register, the first logs
 * an activity, the second cannot delete it, and the first's total reflects it.
 */
module Scenario {
  import opened Outcomes
  import opened Text
  import opened Validation
  import opened Users
  import opened Ledger
  import opened Server

  /** `bcrypt.hash` stand-in that always succeeds. */
  function Hash(password: string): Option<string>
  {
    Some("hash:" + password)
  }

  /** The body `{ name: "Run ", points: 30 }`. */
  function RunInput(): ActivityInput
  {
    ActivityInput(Str("Run "), Num(30), Undefined, Undefined, Undefined)
  }

  /** The name is trimmed, the date defaults to today, host and description to "". */
  lemma RunSanitized(today: string)
    requires today != []
    ensures Sanitize(RunInput(), today) == Ok(Fields("Run", 30, Str(today), [], []))
  {
    assert LeadingBlanks("Run ") == 0;
    assert TrimStart("Run ") == "Run ";
    assert "Run "[..3] == "Run";
    assert TrimEnd("Run ") == TrimEnd("Run");
    assert TrimEnd("Run") == "Run";
    assert NameAccepted(Str("Run "));
  }

  /** Two registrations with distinct names and emails both succeed, with distinct ids. */
  method TwoUsers() returns (store: Store, a: int, b: int)
    ensures fresh(store) && store.Valid() && store.activities == []
    ensures a != b && a in UserIds(store.users) && b in UserIds(store.users)
  {
    store := new Store();
    assert Present(Some("alice")) && Present(Some("alice@example.org")) && |"secret1"| >= 6;
    assert !Clash([], "alice@example.org", "alice");
    var alice := store.Register(Some("alice"), Some("alice@example.org"), Some("secret1"), Hash);
    assert alice.Ok?;
    a := alice.value.id;
    assert store.users == [User(a, "alice", "alice@example.org", Hash("secret1").value)];
    assert Present(Some("bob")) && Present(Some("bob@example.org")) && |"secret2"| >= 6;
    assert "alice@example.org" != "bob@example.org" && "alice" != "bob";
    assert !Clash(store.users, "bob@example.org", "bob");
    var bob := store.Register(Some("bob"), Some("bob@example.org"), Some("secret2"), Hash);
    assert bob.Ok?;
    b := bob.value.id;
    assert store.users[1] == User(b, "bob", "bob@example.org", Hash("secret2").value);
  }

  /** The first user logs the run: it is stored as their only activity. */
  method AddRun(store: Store, a: int) returns (added: Result<Record>)
    requires store.Valid() && a in UserIds(store.users) && store.activities == []
    modifies store`activities, store`nextActivityId, store`clock
    ensures store.Valid() && store.users == old(store.users)
    ensures added.Ok? && added.value.userId == a
    ensures added.value.fields == Fields("Run", 30, Str("2024-01-01"), [], [])
    ensures |store.activities| == 1 && store.activities[0].rec == added.value
  {
    RunSanitized("2024-01-01");
    added := store.AddActivity(Key(a), RunInput(), "2024-01-01");
  }

  /** A table with one row of the owner's: the total is that row's points. */
  lemma OneRowTotal(row: Row, owner: int)
    requires row.rec.userId == owner
    ensures Total([row], owner) == row.rec.fields.points
  {
    assert [row][1..] == [];
    assert Owned([row], owner) == [row] + Owned([], owner);
    assert Sum([row]) == row.rec.fields.points + Sum([]);
  }

  method Session() returns (added: Result<Record>, denied: Result<()>, anonymous: Result<Totals>, totals: Result<Totals>)
    ensures added.Ok? && added.value.fields == Fields("Run", 30, Str("2024-01-01"), [], [])
    ensures denied == Err(ActivityNotFound)
    ensures anonymous == Err(UserIdRequired)
    ensures totals == Ok(Totals(30, 70))
  {
    var store, a, b := TwoUsers();
    added := AddRun(store, a);
    var row := store.activities[0];
    assert store.activities == [row];
    assert Matches([row], Key(added.value.id), b) == 0;
    denied := store.DeleteActivity(Key(b), Key(added.value.id));
    anonymous := store.GetTotal(Blank);
    OneRowTotal(row, a);
    totals := store.GetTotal(Key(a));
  }
}
