/** The request handlers of sql_app/main.py. The bearer token reaches a handler already
    decoded: `subject` is its `sub` claim, or `None` when decoding failed or the claim is
    absent. Every protected handler first resolves the caller, as its dependency does. */
module Main {
  import opened Wrappers
  import opened Query
  import opened Crud

  const BadRequest := 400
  const Unauthorized := 401
  const Forbidden := 403
  const NotFound := 404
  /** The toggle endpoint's not-found status, as the source writes it. */
  const ToggleNotFound := 44

  /** The login response: the access token, modelled by its subject claim, and its type. */
  datatype TokenResponse = TokenResponse(subject: string, tokenType: string)

  /** The user a decoded token names, or 401. */
  function GetCurrentUser(db: Store, subject: Option<string>): (r: Result<User>)
    reads db
    ensures r.Err? ==> r.code == Unauthorized
    ensures r.Ok? <==> subject.Some? && exists u :: u in db.users && u.username == subject.value
    ensures r.Ok? ==> r.value in db.users && r.value.username == subject.value
  {
    match subject
    case None => Err(Unauthorized)
    case Some(username) =>
      match db.GetUserByUsername(username)
      case None => Err(Unauthorized)
      case Some(user) => Ok(user)
  }

  /** Registration: refuses a taken username with 400, otherwise stores the new user. */
  method CreateUser(db: Store, username: string, password: string, hash: string -> string)
    returns (r: Result<User>)
    requires db.Valid()
    modifies db
    ensures db.Valid() && db.habits == old(db.habits)
    ensures old(db.GetUserByUsername(username)).Some? ==> r == Err(BadRequest) && db.users == old(db.users)
    ensures old(db.GetUserByUsername(username)).None? ==>
      && r.Ok? && db.users == old(db.users) + [r.value]
      && r.value.username == username && r.value.hashedPassword == hash(password)
    ensures r.Ok? ==> db.GetUserByUsername(username) == Some(r.value)
    ensures old(UniqueUsernames(db.users)) ==> UniqueUsernames(db.users)
  {
    var existing := db.GetUserByUsername(username);
    if existing.Some? {
      return Err(BadRequest);
    }
    ghost var before := db.users;
    var user := db.CreateUser(username, password, hash);
    FirstAppend(before, [user], HasUsername(username));
    assert forall i :: 0 <= i < |before| ==> before[i] in before;
    r := Ok(user);
  }

  /** Login: 401 unless the username is known and the password verifies against the
      stored hash; otherwise a bearer token whose subject is that username. */
  function LoginForAccessToken(db: Store, username: string, password: string,
                               verifyPassword: (string, string) -> bool): (r: Result<TokenResponse>)
    reads db
    ensures r.Err? ==> r.code == Unauthorized
    ensures r.Ok? <==>
      && (exists u :: u in db.users && u.username == username)
      && verifyPassword(password, db.GetUserByUsername(username).value.hashedPassword)
    ensures r.Ok? ==> r.value.subject == username && r.value.tokenType == "bearer"
  {
    match db.GetUserByUsername(username)
    case None => Err(Unauthorized)
    case Some(user) =>
      if !verifyPassword(password, user.hashedPassword) then Err(Unauthorized)
      else Ok(TokenResponse(user.username, "bearer"))
  }

  /** A token issued at login resolves to the very user whose password was checked. */
  lemma IssuedTokenResolves(db: Store, username: string, password: string,
                            verifyPassword: (string, string) -> bool)
    requires LoginForAccessToken(db, username, password, verifyPassword).Ok?
    ensures var token := LoginForAccessToken(db, username, password, verifyPassword).value;
      GetCurrentUser(db, Some(token.subject)) == Ok(db.GetUserByUsername(username).value)
  {
  }

  method CreateHabitForUser(db: Store, subject: Option<string>, habit: HabitCreate)
    returns (r: Result<Habit>)
    requires db.Valid()
    modifies db
    ensures db.Valid() && db.users == old(db.users)
    ensures old(GetCurrentUser(db, subject)).Err? ==> r == Err(Unauthorized) && db.habits == old(db.habits)
    ensures old(GetCurrentUser(db, subject)).Ok? ==>
      && r.Ok? && db.habits == old(db.habits) + [r.value]
      && r.value.ownerId == old(GetCurrentUser(db, subject)).value.id
      && r.value.fields == habit.fields && r.value.lastCompletedAt == None
  {
    var caller := GetCurrentUser(db, subject);
    if caller.Err? {
      return Err(caller.code);
    }
    var h := db.CreateUserHabit(habit, caller.value.id);
    r := Ok(h);
  }

  /** The caller's habits, paginated; `skip` and `limit` default to 0 and 100. */
  function ReadHabits(db: Store, subject: Option<string>, skip: nat := 0, limit: nat := 100)
    : (r: Result<seq<Habit>>)
    reads db
    ensures r.Err? <==> GetCurrentUser(db, subject).Err?
    ensures r.Err? ==> r.code == Unauthorized
    ensures r.Ok? ==> r.value == db.GetHabits(GetCurrentUser(db, subject).value.id, skip, limit)
    ensures r.Ok? ==> forall h :: h in r.value ==> h in db.habits && h.ownerId == GetCurrentUser(db, subject).value.id
  {
    match GetCurrentUser(db, subject)
    case Err(code) => Err(code)
    case Ok(caller) => Ok(Page(Filter(db.habits, OwnedBy(caller.id)), skip, limit))
  }

  /** The checks every habit endpoint makes, in their fixed order: the caller must
      resolve (401), the habit must exist (`notFoundCode`, whoever asks), and only then
      must the caller own it (403). */
  function CheckAccess(db: Store, subject: Option<string>, habitId: int, notFoundCode: int)
    : (r: Result<Habit>)
    reads db
    ensures GetCurrentUser(db, subject).Err? ==> r == Err(Unauthorized)
    ensures GetCurrentUser(db, subject).Ok? && db.GetHabit(habitId).None? ==> r == Err(notFoundCode)
    ensures
      && GetCurrentUser(db, subject).Ok? && db.GetHabit(habitId).Some?
      && db.GetHabit(habitId).value.ownerId != GetCurrentUser(db, subject).value.id
      ==> r == Err(Forbidden)
    ensures r.Ok? <==>
      && GetCurrentUser(db, subject).Ok? && db.GetHabit(habitId).Some?
      && db.GetHabit(habitId).value.ownerId == GetCurrentUser(db, subject).value.id
    ensures r.Ok? ==> r.value in db.habits && r.value.id == habitId && r.value == db.GetHabit(habitId).value
  {
    match GetCurrentUser(db, subject)
    case Err(code) => Err(code)
    case Ok(caller) =>
      match db.GetHabit(habitId)
      case None => Err(notFoundCode)
      case Some(habit) =>
        if habit.ownerId != caller.id then Err(Forbidden) else Ok(habit)
  }

  /** The completion date after a toggle on day `today`: cleared if it was `today`,
      set to `today` otherwise. */
  function ToggleDate(last: Option<int>, today: int): (r: Option<int>)
    ensures r.None? <==> last == Some(today)
    ensures r.Some? ==> r.value == today
  {
    if last == Some(today) then None else Some(today)
  }

  /** Two toggles on the same day give back an absent date or today's date. */
  lemma ToggleTwiceRestores(last: Option<int>, today: int)
    requires last == None || last == Some(today)
    ensures ToggleDate(ToggleDate(last, today), today) == last
  {
  }

  /** A date from another day is not restored: two toggles leave the date absent. */
  lemma ToggleTwiceFromOtherDay(last: Option<int>, today: int)
    requires last.Some? && last.value != today
    ensures ToggleDate(ToggleDate(last, today), today) == None
  {
  }

  method ToggleHabitCompletion(db: Store, subject: Option<string>, habitId: int, today: int)
    returns (r: Result<Habit>)
    requires db.Valid()
    modifies db
    ensures db.Valid() && db.users == old(db.users)
    ensures var access := old(CheckAccess(db, subject, habitId, ToggleNotFound));
      && (access.Err? ==> r == access && db.habits == old(db.habits))
      && (access.Ok? ==> r == Ok(access.value.(lastCompletedAt := ToggleDate(access.value.lastCompletedAt, today))))
    ensures |db.habits| == |old(db.habits)|
    ensures forall j :: 0 <= j < |db.habits| ==>
      db.habits[j] == if r.Ok? && old(db.habits)[j].id == habitId then r.value else old(db.habits)[j]
  {
    var access := CheckAccess(db, subject, habitId, ToggleNotFound);
    if access.Err? {
      return access;
    }
    var habit := access.value;
    if habit.lastCompletedAt == Some(today) {
      habit := habit.(lastCompletedAt := None);
    } else {
      habit := habit.(lastCompletedAt := Some(today));
    }
    var i := db.HabitIndex(habitId).value;
    db.habits := db.habits[i := habit];
    r := Ok(habit);
  }

  method DeleteHabit(db: Store, subject: Option<string>, habitId: int) returns (r: Result<Habit>)
    requires db.Valid()
    modifies db
    ensures db.Valid() && db.users == old(db.users)
    ensures r == old(CheckAccess(db, subject, habitId, NotFound))
    ensures r.Err? ==> db.habits == old(db.habits)
    ensures r.Ok? ==>
      exists i :: 0 <= i < |old(db.habits)| && old(db.habits)[i] == r.value &&
        db.habits == old(db.habits)[..i] + old(db.habits)[i + 1..]
    ensures r.Ok? ==> forall g :: g in db.habits <==> g in old(db.habits) && g.id != habitId
  {
    r := CheckAccess(db, subject, habitId, NotFound);
    if r.Err? {
      return;
    }
    var deleted := db.DeleteHabit(habitId);
    r := Ok(deleted.value);
  }

  method UpdateHabitDetails(db: Store, subject: Option<string>, habitId: int, habitUpdate: HabitUpdate)
    returns (r: Result<Habit>)
    requires db.Valid() && habitUpdate.WellFormed()
    modifies db
    ensures db.Valid() && db.users == old(db.users)
    ensures var access := old(CheckAccess(db, subject, habitId, NotFound));
      && (access.Err? ==> r == access && db.habits == old(db.habits))
      && (access.Ok? ==> r == Ok(Updated(access.value, habitUpdate)))
    ensures |db.habits| == |old(db.habits)|
    ensures forall j :: 0 <= j < |db.habits| ==>
      db.habits[j] == if r.Ok? && old(db.habits)[j].id == habitId then r.value else old(db.habits)[j]
  {
    var access := CheckAccess(db, subject, habitId, NotFound);
    if access.Err? {
      return access;
    }
    var updated := db.UpdateHabit(habitId, habitUpdate);
    r := Ok(updated.value);
  }
}
