/** The data-access layer of sql_app/crud.py over an in-memory store: users and habits
    are kept as sequences in insertion order, and each operation is one atomic update
    of them (the session's add, delete, commit and refresh). */
module Crud {
  import opened Wrappers
  import opened Query

  /** A value of one of a habit's descriptive columns; `Null` is an explicit None. */
  datatype Value = Null | Text(text: string) | Number(number: int) | Flag(flag: bool)

  datatype User = User(id: int, username: string, hashedPassword: string)

  /** A habit row: its descriptive columns by name, its owner and the day number it was
      last completed on, if any. */
  datatype Habit = Habit(id: int, ownerId: int, fields: map<string, Value>, lastCompletedAt: Option<int>)

  /** The creation payload: the descriptive columns of the new habit. */
  datatype HabitCreate = HabitCreate(fields: map<string, Value>)

  /** The update payload as the client sent it: a value for every column it declares
      (the default where the client was silent) and the set of columns the client set. */
  datatype HabitUpdate = HabitUpdate(values: map<string, Value>, fieldsSet: set<string>) {
    /** Only declared columns can be marked as set. */
    predicate WellFormed() {
      fieldsSet <= values.Keys
    }
  }

  function HasUserId(userId: int): User -> bool { (u: User) => u.id == userId }
  function HasUsername(username: string): User -> bool { (u: User) => u.username == username }
  function HasHabitId(habitId: int): Habit -> bool { (h: Habit) => h.id == habitId }
  function OwnedBy(userId: int): Habit -> bool { (h: Habit) => h.ownerId == userId }

  ghost predicate UniqueUserIds(users: seq<User>) {
    forall i, j :: 0 <= i < j < |users| ==> users[i].id != users[j].id
  }

  ghost predicate UniqueHabitIds(habits: seq<Habit>) {
    forall i, j :: 0 <= i < j < |habits| ==> habits[i].id != habits[j].id
  }

  /** No two users share a username; the registration endpoint keeps this. */
  ghost predicate UniqueUsernames(users: seq<User>) {
    forall i, j :: 0 <= i < j < |users| ==> users[i].username != users[j].username
  }

  /** An id above every id in `s`: one the database may assign to a new row. */
  function NextId<T(!new)>(s: seq<T>, id: T -> int): (r: int)
    ensures forall x :: x in s ==> id(x) < r
  {
    if s == [] then 1
    else
      var rest := NextId(s[1..], id);
      if id(s[0]) < rest then rest else id(s[0]) + 1
  }

  /** `dict(exclude_unset=True)`: the values of exactly the columns the client set. */
  function UpdateData(u: HabitUpdate): (data: map<string, Value>)
    requires u.WellFormed()
    ensures data.Keys == u.fieldsSet
    ensures forall k :: k in data ==> data[k] == u.values[k]
  {
    map k | k in u.fieldsSet :: u.values[k]
  }

  /** A habit after a partial update: every column the client set takes its new value,
      an explicit `Null` included; every other column, the id, the owner and the
      completion date keep theirs. */
  function Updated(h: Habit, u: HabitUpdate): (r: Habit)
    requires u.WellFormed()
    ensures r.id == h.id && r.ownerId == h.ownerId && r.lastCompletedAt == h.lastCompletedAt
    ensures forall k :: k in u.fieldsSet ==> k in r.fields && r.fields[k] == u.values[k]
    ensures forall k :: k !in u.fieldsSet ==> (k in r.fields <==> k in h.fields)
    ensures forall k :: k !in u.fieldsSet && k in h.fields ==> r.fields[k] == h.fields[k]
  {
    h.(fields := h.fields + UpdateData(u))
  }

  /** The `setattr` loop of update_habit: writes the set columns one at a time. Each key
      is written once, so the order the dictionary yields them in does not matter. */
  method ApplyUpdate(h: Habit, u: HabitUpdate) returns (r: Habit)
    requires u.WellFormed()
    ensures r == Updated(h, u)
  {
    var updateData := UpdateData(u);
    r := h;
    var pending := updateData.Keys;
    while pending != {}
      invariant pending <= updateData.Keys
      invariant r == h.(fields := r.fields)
      invariant r.fields.Keys == h.fields.Keys + (updateData.Keys - pending)
      invariant forall k :: k in r.fields ==>
        r.fields[k] == if k in updateData && k !in pending then updateData[k] else h.fields[k]
      decreases pending
    {
      var key :| key in pending;
      r := r.(fields := r.fields[key := updateData[key]]);
      pending := pending - {key};
    }
    assert r.fields == h.fields + updateData;
  }

  /** The database behind a session. */
  class Store {
    var users: seq<User>
    var habits: seq<Habit>

    /** Primary keys are unique. */
    ghost predicate Valid()
      reads this
    {
      UniqueUserIds(users) && UniqueHabitIds(habits)
    }

    constructor ()
      ensures Valid() && users == [] && habits == []
    {
      users := [];
      habits := [];
    }

    function GetUser(userId: int): (r: Option<User>)
      reads this
      ensures r.Some? ==> r.value in users && r.value.id == userId
      ensures r.None? <==> forall u :: u in users ==> u.id != userId
    {
      First(users, HasUserId(userId))
    }

    function GetUserByUsername(username: string): (r: Option<User>)
      reads this
      ensures r.Some? ==> r.value in users && r.value.username == username
      ensures r.Some? ==>
        exists i :: 0 <= i < |users| && users[i] == r.value &&
          forall j :: 0 <= j < i ==> users[j].username != username
      ensures r.None? <==> forall u :: u in users ==> u.username != username
    {
      First(users, HasUsername(username))
    }

    /** The habit with id `habitId`, or `None`. */
    function GetHabit(habitId: int): (r: Option<Habit>)
      reads this
      ensures r.Some? ==> r.value in habits && r.value.id == habitId
      ensures r.None? <==> forall h :: h in habits ==> h.id != habitId
    {
      First(habits, HasHabitId(habitId))
    }

    /** Where the row `GetHabit` finds sits in the store. */
    function HabitIndex(habitId: int): (r: Option<nat>)
      reads this
      ensures r.Some? <==> GetHabit(habitId).Some?
      ensures r.Some? ==> r.value < |habits| && GetHabit(habitId) == Some(habits[r.value])
    {
      FirstIndex(habits, HasHabitId(habitId))
    }

    /** The user's habits in store order, from the `skip`-th on, at most `limit` of them. */
    function GetHabits(userId: int, skip: nat := 0, limit: nat := 100): (r: seq<Habit>)
      reads this
      ensures forall h :: h in r ==> h in habits && h.ownerId == userId
      ensures var owned := Filter(habits, OwnedBy(userId));
        && |r| == (if skip >= |owned| then 0 else if limit < |owned| - skip then limit else |owned| - skip)
        && forall i :: 0 <= i < |r| ==> r[i] == owned[skip + i]
    {
      Page(Filter(habits, OwnedBy(userId)), skip, limit)
    }

    method CreateUser(username: string, password: string, hash: string -> string) returns (u: User)
      requires Valid()
      modifies this
      ensures Valid()
      ensures users == old(users) + [u] && habits == old(habits)
      ensures u.username == username && u.hashedPassword == hash(password)
      ensures forall v :: v in old(users) ==> v.id != u.id
      ensures GetUser(u.id) == Some(u)
    {
      var id := NextId(users, (v: User) => v.id);
      u := User(id, username, hash(password));
      assert forall i :: 0 <= i < |users| ==> users[i] in users;
      FirstAppend(users, [u], HasUserId(id));
      users := users + [u];
    }

    method CreateUserHabit(habit: HabitCreate, userId: int) returns (h: Habit)
      requires Valid()
      modifies this
      ensures Valid()
      ensures habits == old(habits) + [h] && users == old(users)
      ensures h.ownerId == userId && h.fields == habit.fields && h.lastCompletedAt == None
      ensures forall g :: g in old(habits) ==> g.id != h.id
      ensures GetHabit(h.id) == Some(h)
      ensures Filter(habits, OwnedBy(userId)) == Filter(old(habits), OwnedBy(userId)) + [h]
      ensures forall other :: other != userId ==>
        Filter(habits, OwnedBy(other)) == Filter(old(habits), OwnedBy(other))
    {
      var id := NextId(habits, (g: Habit) => g.id);
      h := Habit(id, userId, habit.fields, None);
      assert forall i :: 0 <= i < |habits| ==> habits[i] in habits;
      var before := habits;
      FirstAppend(before, [h], HasHabitId(id));
      habits := habits + [h];
      FilterAppend(before, [h], OwnedBy(userId));
      forall other | other != userId
        ensures Filter(habits, OwnedBy(other)) == Filter(before, OwnedBy(other))
      {
        FilterAppend(before, [h], OwnedBy(other));
      }
    }

    method DeleteHabit(habitId: int) returns (r: Option<Habit>)
      requires Valid()
      modifies this
      ensures Valid() && users == old(users)
      ensures r == old(GetHabit(habitId))
      ensures r.None? ==> habits == old(habits)
      ensures r.Some? ==>
        exists i :: 0 <= i < |old(habits)| && old(habits)[i] == r.value &&
          habits == old(habits)[..i] + old(habits)[i + 1..]
      ensures forall g :: g in habits <==> g in old(habits) && g.id != habitId
      ensures GetHabit(habitId) == None
    {
      r := GetHabit(habitId);
      if r.Some? {
        var i := HabitIndex(habitId).value;
        habits := habits[..i] + habits[i + 1..];
      }
    }

    method UpdateHabit(habitId: int, habitUpdate: HabitUpdate) returns (r: Option<Habit>)
      requires Valid() && habitUpdate.WellFormed()
      modifies this
      ensures Valid() && users == old(users)
      ensures old(GetHabit(habitId)).None? ==> r.None?
      ensures old(GetHabit(habitId)).Some? ==> r == Some(Updated(old(GetHabit(habitId)).value, habitUpdate))
      ensures |habits| == |old(habits)|
      ensures forall j :: 0 <= j < |habits| ==>
        habits[j] == if old(habits)[j].id == habitId then Updated(old(habits)[j], habitUpdate) else old(habits)[j]
      ensures GetHabit(habitId) == r
    {
      r := GetHabit(habitId);
      if r.Some? {
        var i := HabitIndex(habitId).value;
        var h := ApplyUpdate(habits[i], habitUpdate);
        habits := habits[i := h];
        r := Some(h);
      }
    }
  }
}
