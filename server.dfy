/**
 * The activity server's handlers over its two tables. The tables are fields
 * of `Store` that the handlers change; each handler's result is the response
 * body or the error it sends.
 */
module Server {
  import opened Outcomes
  import opened Validation
  import opened Users
  import opened Ledger

  /** The body of GET /total. */
  datatype Totals = Totals(total: int, remaining: int)

  class Store {
    var users: seq<User>
    var activities: seq<Row>
    /** The next AUTOINCREMENT id of each table. */
    var nextUserId: int
    var nextActivityId: int
    /** The creation counter: `created` of the next activity. */
    var clock: int

    /** Both tables keep their invariants, and every activity belongs to a registered user. */
    ghost predicate Valid()
      reads this
    {
      && UsersValid(users, nextUserId)
      && LedgerValid(activities, nextActivityId, clock)
      && (forall x :: x in activities ==> x.rec.userId in UserIds(users))
    }

    /** Two empty tables. */
    constructor ()
      ensures Valid()
      ensures users == [] && activities == []
    {
      users, activities := [], [];
      nextUserId, nextActivityId, clock := 1, 1, 0;
    }

    /**
     * POST /register. `hashOf` stands for `bcrypt.hash(password, 10)` and
     * gives None when hashing fails. The duplicate check and the insert are
     * one step here.
     */
    method Register(username: Option<string>, email: Option<string>, password: Option<string>,
                    hashOf: string -> Option<string>) returns (r: Result<PublicUser>)
      requires Valid()
      modifies this`users, this`nextUserId
      ensures Valid()
      ensures !Present(username) || !Present(email) || !Present(password) ==> r == Err(MissingFields)
      ensures Present(username) && Present(email) && Present(password) && |password.value| < 6 ==>
                r == Err(ShortPassword)
      ensures Present(username) && Present(email) && Present(password) && |password.value| >= 6 ==>
                && (Clash(old(users), email.value, username.value) ==> r == Err(UserExists))
                && (!Clash(old(users), email.value, username.value) && hashOf(password.value).None? ==>
                      r == Err(InternalError))
      ensures r.Err? ==> users == old(users) && nextUserId == old(nextUserId)
      ensures r.Ok? <==> && Present(username) && Present(email) && Present(password) && |password.value| >= 6
                         && !Clash(old(users), email.value, username.value) && hashOf(password.value).Some?
      ensures r.Ok? ==>
                && Present(username) && Present(email) && Present(password) && |password.value| >= 6
                && !Clash(old(users), email.value, username.value) && hashOf(password.value).Some?
                && r.value.id !in UserIds(old(users))
                && users == old(users) + [User(r.value.id, username.value, email.value, hashOf(password.value).value)]
                && r.value == PublicUser(r.value.id, username.value, email.value)
    {
      if !Present(username) || !Present(email) || !Present(password) {
        return Err(MissingFields);
      }
      if |password.value| < 6 {
        return Err(ShortPassword);
      }
      if Clash(users, email.value, username.value) {
        return Err(UserExists);
      }
      var hash := hashOf(password.value);
      if hash.None? {
        return Err(InternalError);
      }
      var user := User(nextUserId, username.value, email.value, hash.value);
      users := users + [user];
      nextUserId := nextUserId + 1;
      r := Ok(Public(user));
    }

    /**
     * POST /login. `matches` stands for `bcrypt.compare` and is false both on
     * a wrong password and on an error, which the handler treats alike.
     */
    method Login(email: Option<string>, password: Option<string>, matches: (string, string) -> bool)
      returns (r: Result<PublicUser>)
      requires Valid()
      ensures !Present(email) || !Present(password) ==> r == Err(MissingFields)
      ensures r.Err? ==> r.failure in {MissingFields, InvalidCredentials}
      ensures Present(email) && Present(password) && r.Err? ==> r == Err(InvalidCredentials)
      ensures r.Ok? <==> && Present(email) && Present(password)
                         && exists u :: u in users && u.email == email.value && matches(password.value, u.passwordHash)
      ensures r.Ok? ==> exists u :: u in users && u.email == email.value && r.value == Public(u)
    {
      if !Present(email) || !Present(password) {
        return Err(MissingFields);
      }
      var found := FindByEmail(users, email.value);
      if found.None? {
        return Err(InvalidCredentials);
      }
      var user := found.value;
      if !matches(password.value, user.passwordHash) {
        r := Err(InvalidCredentials);
        forall u | u in users && u.email == email.value
          ensures !matches(password.value, u.passwordHash)
        {
          FindByEmailUnique(users, nextUserId, u);
        }
        return;
      }
      r := Ok(Public(user));
    }

    /**
     * POST /activities: the `User-ID` gate, then the body's checks; the
     * accepted activity is inserted with a fresh id and returned.
     */
    method AddActivity(header: IdText, input: ActivityInput, today: string) returns (r: Result<Record>)
      requires Valid() && today != []
      modifies this`activities, this`nextActivityId, this`clock
      ensures Valid()
      ensures Gate(users, header).Err? ==> r == Err(Gate(users, header).failure)
      ensures Gate(users, header).Ok? && Sanitize(input, today).Err? ==> r == Err(Sanitize(input, today).failure)
      ensures r.Err? ==> activities == old(activities) && nextActivityId == old(nextActivityId) && clock == old(clock)
      ensures r.Ok? <==> Gate(users, header).Ok? && Sanitize(input, today).Ok?
      ensures r.Ok? ==>
                && r.value == Record(old(nextActivityId), header.n, Sanitize(input, today).value)
                && (forall x :: x in old(activities) ==> x.rec.id < r.value.id)
                && activities == old(activities) + [Row(r.value, old(clock))]
    {
      var who := Gate(users, header);
      if who.Err? {
        return Err(who.failure);
      }
      var fields := Sanitize(input, today);
      if fields.Err? {
        return Err(fields.failure);
      }
      var record := Record(nextActivityId, who.value.id, fields.value);
      AppendKeepsValid(activities, Row(record, clock), nextActivityId, clock);
      activities := activities + [Row(record, clock)];
      nextActivityId := nextActivityId + 1;
      clock := clock + 1;
      r := Ok(record);
    }

    /** GET /activities: the caller's activities, newest first. */
    method ListActivities(header: IdText) returns (r: Result<seq<Row>>)
      requires Valid()
      ensures Gate(users, header).Err? ==> r == Err(Gate(users, header).failure)
      ensures r.Ok? <==> Gate(users, header).Ok?
      ensures r.Ok? ==> && r.value == ListFor(activities, header.n)
                        && (forall x :: x in r.value <==> x in activities && x.rec.userId == header.n)
                        && NewestFirst(r.value)
    {
      var who := Gate(users, header);
      if who.Err? {
        return Err(who.failure);
      }
      ListForMeaning(activities, who.value.id);
      r := Ok(ListFor(activities, who.value.id));
    }

    /**
     * PUT /activities/:id: the gate, the id check, the body's checks, then the
     * UPDATE scoped by id and owner; no row changed means not found.
     */
    method UpdateActivity(header: IdText, id: IdText, input: ActivityInput, today: string)
      returns (r: Result<Record>)
      requires Valid() && today != []
      modifies this`activities
      ensures Valid()
      ensures Gate(users, header).Err? ==> r == Err(Gate(users, header).failure)
      ensures Gate(users, header).Ok? && !IdAccepted(id) ==> r == Err(InvalidActivityId)
      ensures Gate(users, header).Ok? && IdAccepted(id) && Sanitize(input, today).Err? ==>
                r == Err(Sanitize(input, today).failure)
      ensures Gate(users, header).Ok? && IdAccepted(id) && Sanitize(input, today).Ok? ==>
                (r == Err(ActivityNotFound) <==> Matches(old(activities), id, header.n) == 0)
      ensures r.Err? ==> activities == old(activities)
      ensures r.Ok? <==> && Gate(users, header).Ok? && IdAccepted(id) && Sanitize(input, today).Ok?
                         && Matches(old(activities), id, header.n) > 0
      ensures r.Ok? ==>
                && Gate(users, header).Ok? && Sanitize(input, today).Ok?
                && Matches(old(activities), id, header.n) == 1
                && r.value == Record(id.n, header.n, Sanitize(input, today).value)
                && activities == UpdateWhere(old(activities), id, header.n, Sanitize(input, today).value)
    {
      var who := Gate(users, header);
      if who.Err? {
        return Err(who.failure);
      }
      if !IdAccepted(id) {
        return Err(InvalidActivityId);
      }
      var fields := Sanitize(input, today);
      if fields.Err? {
        return Err(fields.failure);
      }
      var owner, f := who.value.id, fields.value;
      var changes := Matches(activities, id, owner);
      if changes == 0 {
        UpdateWithoutMatch(activities, id, owner, f);
        return Err(ActivityNotFound);
      }
      MatchesAtMostOne(activities, id, owner);
      MatchNeedsKey(activities, id, owner);
      UpdateKeepsValid(activities, id, owner, f, nextActivityId, clock);
      UpdateKeepsOwners(activities, id, owner, f, UserIds(users));
      activities := UpdateWhere(activities, id, owner, f);
      r := Ok(Record(id.n, owner, f));
    }

    /**
     * DELETE /activities/:id: the gate, the id check, then the DELETE scoped
     * by id and owner; no row removed means not found.
     */
    method DeleteActivity(header: IdText, id: IdText) returns (r: Result<()>)
      requires Valid()
      modifies this`activities
      ensures Valid()
      ensures Gate(users, header).Err? ==> r == Err(Gate(users, header).failure)
      ensures Gate(users, header).Ok? && !IdAccepted(id) ==> r == Err(InvalidActivityId)
      ensures Gate(users, header).Ok? && IdAccepted(id) ==>
                (r == Err(ActivityNotFound) <==> Matches(old(activities), id, header.n) == 0)
      ensures r.Err? ==> activities == old(activities)
      ensures r.Ok? <==> Gate(users, header).Ok? && IdAccepted(id) && Matches(old(activities), id, header.n) > 0
      ensures r.Ok? ==>
                && Gate(users, header).Ok? && Matches(old(activities), id, header.n) == 1
                && |activities| == |old(activities)| - 1
                && activities == DeleteWhere(old(activities), id, header.n)
    {
      var who := Gate(users, header);
      if who.Err? {
        return Err(who.failure);
      }
      if !IdAccepted(id) {
        return Err(InvalidActivityId);
      }
      var owner := who.value.id;
      var before := activities;
      DeleteKeepsValid(activities, id, owner, nextActivityId, clock);
      MatchesAtMostOne(activities, id, owner);
      activities := DeleteWhere(activities, id, owner);
      var changes := |before| - |activities|;
      if changes == 0 {
        DeleteWithoutMatch(before, id, owner);
        return Err(ActivityNotFound);
      }
      r := Ok(());
    }

    /** GET /total: the caller's points and what is left to the goal. */
    method GetTotal(header: IdText) returns (r: Result<Totals>)
      requires Valid()
      ensures Gate(users, header).Err? ==> r == Err(Gate(users, header).failure)
      ensures r.Ok? <==> Gate(users, header).Ok?
      ensures r.Ok? ==> && r.value.total == Total(activities, header.n)
                        && r.value.remaining == Remaining(r.value.total)
                        && 0 <= r.value.total
                        && 0 <= r.value.remaining <= Goal
                        && (r.value.total == 0 <==> ListFor(activities, header.n) == [])
    {
      var who := Gate(users, header);
      if who.Err? {
        return Err(who.failure);
      }
      TotalRange(activities, who.value.id, nextActivityId, clock);
      var total := Total(activities, who.value.id);
      r := Ok(Totals(total, Remaining(total)));
    }

    /** GET /stats (without the average). */
    method GetStats(header: IdText) returns (r: Result<Stats>)
      requires Valid()
      ensures Gate(users, header).Err? ==> r == Err(Gate(users, header).failure)
      ensures r.Ok? <==> Gate(users, header).Ok?
      ensures r.Ok? ==> && r.value == StatsFor(activities, header.n)
                        && r.value.totalActivities == |ListFor(activities, header.n)|
                        && r.value.totalPoints == Total(activities, header.n)
                        && 0 <= r.value.remaining <= Goal
                        && (r.value.totalActivities == 0 ==> r.value.maxPoints == 0 && r.value.minPoints == 0)
                        && (r.value.totalActivities > 0 ==> 1 <= r.value.minPoints <= r.value.maxPoints <= MaxPoints)
    {
      var who := Gate(users, header);
      if who.Err? {
        return Err(who.failure);
      }
      StatsMeaning(activities, who.value.id, nextActivityId, clock);
      r := Ok(StatsFor(activities, who.value.id));
    }
  }
}
