/**
 * `SetupController.Init`: seeds three users and four rooms, each only when it
 * is not there yet, so that running it again adds nothing.
 */
module Setup {
  import opened Wrappers
  import opened Text
  import opened Models
  import opened Users
  import Repository

  datatype SeedUser = SeedUser(login: string, role: string)
  datatype SeedRoom = SeedRoom(name: string, capacity: int32)

  /** The users `Init` adds or gets, in call order. */
  const SeedUsers: seq<SeedUser> := [SeedUser("admin", "Admin"), SeedUser("alice", "User"), SeedUser("bob", "User")]

  /** The rooms `Init` adds when missing, in call order. */
  const SeedRooms: seq<SeedRoom> :=
    [SeedRoom("Boardroom", 10), SeedRoom("Huddle", 4), SeedRoom("Lecture Hall", 30), SeedRoom("Studio", 8)]

  /** A seed user `AddOrGetUser` accepts: neither login nor role is blank. */
  predicate Addable(s: SeedUser) {
    !IsBlank(s.login) && !IsBlank(s.role)
  }

  /** Some user's login equals `login` up to case. */
  predicate HasLogin(users: seq<AppUser>, login: string) {
    exists u :: u in users && EqualsIgnoreCase(u.login, login)
  }

  /** The user list after one `AddOrGetUser` call. The `Err` case stands for a
      seed with a blank login or role, which none of `SeedUsers` has
      (`SeedUsersWellFormed`); it leaves the list as it was. */
  function SeedOne(users: seq<AppUser>, s: SeedUser): seq<AppUser> {
    match AddOrGet(users, s.login, s.role)
    case Ok((_, users')) => users'
    case Err(_) => users
  }

  /** The user list after `AddOrGetUser` for each seed in turn. */
  function SeedAllUsers(users: seq<AppUser>, seeds: seq<SeedUser>): seq<AppUser>
    decreases |seeds|
  {
    if seeds == [] then users else SeedAllUsers(SeedOne(users, seeds[0]), seeds[1..])
  }

  /** One `AddOrGet` step: the list only grows, an addable seed's login is
      present afterwards, and a user is appended only when none matched. */
  lemma SeedUserStep(users: seq<AppUser>, s: SeedUser)
    ensures var next := SeedOne(users, s);
            && users <= next
            && (Addable(s) ==> HasLogin(next, Trim(s.login)))
            && (next == users || (next == users + [AppUser(Trim(s.login), s.role)] && !HasLogin(users, Trim(s.login))))
  {
    var r := AddOrGet(users, s.login, s.role);
    if r.Ok? {
      AddOrGetReturnsMatch(users, s.login, s.role);
      var (u, users') := r.value;
      if users' != users {
        assert u == AppUser(Trim(s.login), s.role);
      }
    }
  }

  /** `u` is the user some seed adds when no user of `users` has its login. */
  predicate NewSeedUser(users: seq<AppUser>, seeds: seq<SeedUser>, u: AppUser) {
    exists i :: 0 <= i < |seeds| && u == AppUser(Trim(seeds[i].login), seeds[i].role)
                                 && !HasLogin(users, Trim(seeds[i].login))
  }

  /** Seeding only appends, and every appended user is a seed whose login no
      user had before. */
  lemma {:induction false} SeedAllUsersOnlyAppendsMissing(users: seq<AppUser>, seeds: seq<SeedUser>)
    ensures var r := SeedAllUsers(users, seeds);
            && users <= r
            && forall k :: |users| <= k < |r| ==> NewSeedUser(users, seeds, r[k])
    decreases |seeds|
  {
    if seeds != [] {
      var next := SeedOne(users, seeds[0]);
      SeedUserStep(users, seeds[0]);
      assert SeedAllUsers(users, seeds) == SeedAllUsers(next, seeds[1..]);
      SeedAllUsersOnlyAppendsMissing(next, seeds[1..]);
      var r := SeedAllUsers(users, seeds);
      forall k | |users| <= k < |r| ensures NewSeedUser(users, seeds, r[k]) {
        if k < |next| {
          assert next == users + [AppUser(Trim(seeds[0].login), seeds[0].role)];
          assert r[k] == next[k];
          assert r[k] == AppUser(Trim(seeds[0].login), seeds[0].role);
        } else {
          assert NewSeedUser(next, seeds[1..], r[k]);
          var i :| 0 <= i < |seeds[1..]| && r[k] == AppUser(Trim(seeds[1..][i].login), seeds[1..][i].role)
                                         && !HasLogin(next, Trim(seeds[1..][i].login));
          assert seeds[1..][i] == seeds[i + 1];
        }
      }
      assert users <= next <= r;
    }
  }

  /** After seeding, the login of every addable seed is present. */
  lemma {:induction false} SeedAllUsersCovers(users: seq<AppUser>, seeds: seq<SeedUser>)
    ensures forall i :: 0 <= i < |seeds| && Addable(seeds[i]) ==> HasLogin(SeedAllUsers(users, seeds), Trim(seeds[i].login))
    decreases |seeds|
  {
    if seeds != [] {
      var next := SeedOne(users, seeds[0]);
      SeedUserStep(users, seeds[0]);
      assert SeedAllUsers(users, seeds) == SeedAllUsers(next, seeds[1..]);
      SeedAllUsersCovers(next, seeds[1..]);
      SeedAllUsersOnlyAppendsMissing(next, seeds[1..]);
      var r := SeedAllUsers(users, seeds);
      forall i | 0 <= i < |seeds| && Addable(seeds[i]) ensures HasLogin(r, Trim(seeds[i].login)) {
        if i == 0 {
          var u :| u in next && EqualsIgnoreCase(u.login, Trim(seeds[0].login));
          assert next <= r;
          assert u in r;
        } else {
          assert seeds[1..][i - 1] == seeds[i];
        }
      }
    }
  }

  /** Seeding a list that already holds every addable seed's login changes nothing. */
  lemma {:induction false} SeedAllUsersNoop(users: seq<AppUser>, seeds: seq<SeedUser>)
    requires forall i :: 0 <= i < |seeds| && Addable(seeds[i]) ==> HasLogin(users, Trim(seeds[i].login))
    ensures SeedAllUsers(users, seeds) == users
    decreases |seeds|
  {
    if seeds != [] {
      SeedUserStep(users, seeds[0]);
      assert SeedAllUsers(users, seeds) == SeedAllUsers(users, seeds[1..]);
      forall i | 0 <= i < |seeds[1..]| && Addable(seeds[1..][i]) ensures HasLogin(users, Trim(seeds[1..][i].login)) {
        assert seeds[1..][i] == seeds[i + 1];
      }
      SeedAllUsersNoop(users, seeds[1..]);
    }
  }

  /** Seeding users twice adds nothing the first run did not. */
  lemma SeedAllUsersIdempotent(users: seq<AppUser>, seeds: seq<SeedUser>)
    ensures SeedAllUsers(SeedAllUsers(users, seeds), seeds) == SeedAllUsers(users, seeds)
  {
    SeedAllUsersCovers(users, seeds);
    SeedAllUsersNoop(SeedAllUsers(users, seeds), seeds);
  }

  /** The seed logins and roles are non-blank and trimmed. */
  lemma SeedUsersWellFormed()
    ensures forall i :: 0 <= i < |SeedUsers| ==> Addable(SeedUsers[i]) && Trim(SeedUsers[i].login) == SeedUsers[i].login
  {
    forall i | 0 <= i < |SeedUsers|
      ensures Addable(SeedUsers[i]) && Trim(SeedUsers[i].login) == SeedUsers[i].login
    {
      var s := SeedUsers[i];
      assert !IsWhiteSpace(s.login[0]) && !IsWhiteSpace(s.login[|s.login| - 1]) && !IsWhiteSpace(s.role[0]);
      TrimOfTrimmed(s.login);
    }
  }

  /** After seeding, `admin`, `alice` and `bob` are present up to case; each
      was appended with its seed role when no user had its login before. */
  lemma SeededUsersPresent(users: seq<AppUser>)
    ensures forall s :: s in SeedUsers ==> HasLogin(SeedAllUsers(users, SeedUsers), s.login)
  {
    SeedUsersWellFormed();
    SeedAllUsersCovers(users, SeedUsers);
    forall s | s in SeedUsers ensures HasLogin(SeedAllUsers(users, SeedUsers), s.login) {
      var i :| 0 <= i < |SeedUsers| && SeedUsers[i] == s;
    }
  }

  /** `names.Contains(name)` for the name set built from a room snapshot with
      an ignore-case comparer. */
  predicate NameTaken(snapshot: seq<Room>, name: string) {
    exists r :: r in snapshot && EqualsIgnoreCase(r.name, name)
  }

  /** The room one guarded `AddRoom` adds: none when the snapshot has the name. */
  function PlannedRoom(snapshot: seq<Room>, seed: SeedRoom, id: Guid, now: int): seq<Room> {
    if NameTaken(snapshot, seed.name) then [] else [Room(id, seed.name, seed.capacity, now)]
  }

  /** The rooms the guarded `AddRoom` calls append, all checked against the
      same snapshot; `ids[i]` and `nows[i]` are the id and the creation time
      the i-th seed gets if it is added. */
  function PlannedRooms(snapshot: seq<Room>, seeds: seq<SeedRoom>, ids: seq<Guid>, nows: seq<int>): seq<Room>
    requires |ids| == |seeds| && |nows| == |seeds|
    decreases |seeds|
  {
    if seeds == [] then []
    else PlannedRoom(snapshot, seeds[0], ids[0], nows[0]) + PlannedRooms(snapshot, seeds[1..], ids[1..], nows[1..])
  }

  /** A seed room is added exactly when no room of the snapshot has its name
      up to case, and nothing but seed rooms is added. */
  lemma {:induction false} PlannedRoomsExactly(snapshot: seq<Room>, seeds: seq<SeedRoom>, ids: seq<Guid>, nows: seq<int>)
    requires |ids| == |seeds| && |nows| == |seeds|
    ensures forall i :: 0 <= i < |seeds| ==>
              (Room(ids[i], seeds[i].name, seeds[i].capacity, nows[i]) in PlannedRooms(snapshot, seeds, ids, nows)
               <== !NameTaken(snapshot, seeds[i].name))
    ensures forall r :: r in PlannedRooms(snapshot, seeds, ids, nows) ==>
              exists i :: 0 <= i < |seeds| && r == Room(ids[i], seeds[i].name, seeds[i].capacity, nows[i])
                                           && !NameTaken(snapshot, seeds[i].name)
    decreases |seeds|
  {
    if seeds != [] {
      var head := PlannedRoom(snapshot, seeds[0], ids[0], nows[0]);
      var tail := PlannedRooms(snapshot, seeds[1..], ids[1..], nows[1..]);
      PlannedRoomsExactly(snapshot, seeds[1..], ids[1..], nows[1..]);
      forall i | 0 <= i < |seeds| && !NameTaken(snapshot, seeds[i].name)
        ensures Room(ids[i], seeds[i].name, seeds[i].capacity, nows[i]) in head + tail
      {
        if i > 0 {
          assert seeds[1..][i - 1] == seeds[i] && ids[1..][i - 1] == ids[i] && nows[1..][i - 1] == nows[i];
        }
      }
      forall r | r in head + tail
        ensures exists i :: 0 <= i < |seeds| && r == Room(ids[i], seeds[i].name, seeds[i].capacity, nows[i])
                                             && !NameTaken(snapshot, seeds[i].name)
      {
        if r !in head {
          var i :| 0 <= i < |seeds[1..]| && r == Room(ids[1..][i], seeds[1..][i].name, seeds[1..][i].capacity, nows[1..][i])
                                         && !NameTaken(snapshot, seeds[1..][i].name);
          assert seeds[1..][i] == seeds[i + 1] && ids[1..][i] == ids[i + 1] && nows[1..][i] == nows[i + 1];
        }
      }
    }
  }

  /** Planning again against a snapshot that every seed name is already taken
      in adds nothing. */
  lemma {:induction false} PlannedRoomsNone(snapshot: seq<Room>, seeds: seq<SeedRoom>, ids: seq<Guid>, nows: seq<int>)
    requires |ids| == |seeds| && |nows| == |seeds|
    requires forall i :: 0 <= i < |seeds| ==> NameTaken(snapshot, seeds[i].name)
    ensures PlannedRooms(snapshot, seeds, ids, nows) == []
    decreases |seeds|
  {
    if seeds != [] {
      forall i | 0 <= i < |seeds[1..]| ensures NameTaken(snapshot, seeds[1..][i].name) {
        assert seeds[1..][i] == seeds[i + 1];
      }
      PlannedRoomsNone(snapshot, seeds[1..], ids[1..], nows[1..]);
      assert NameTaken(snapshot, seeds[0].name);
    }
  }

  /** Seeding rooms a second time, against the rooms the first run left, adds
      none, whatever ids and clock readings the second run would use. */
  lemma SeedRoomsIdempotent(snapshot: seq<Room>, seeds: seq<SeedRoom>, ids: seq<Guid>, ids2: seq<Guid>, nows: seq<int>, nows2: seq<int>)
    requires |ids| == |seeds| && |ids2| == |seeds| && |nows| == |seeds| && |nows2| == |seeds|
    ensures var after := snapshot + PlannedRooms(snapshot, seeds, ids, nows);
            PlannedRooms(after, seeds, ids2, nows2) == []
  {
    var after := snapshot + PlannedRooms(snapshot, seeds, ids, nows);
    PlannedRoomsExactly(snapshot, seeds, ids, nows);
    forall i | 0 <= i < |seeds| ensures NameTaken(after, seeds[i].name) {
      if NameTaken(snapshot, seeds[i].name) {
        var r :| r in snapshot && EqualsIgnoreCase(r.name, seeds[i].name);
        assert r in after;
      } else {
        var r := Room(ids[i], seeds[i].name, seeds[i].capacity, nows[i]);
        assert r in after;
      }
    }
    PlannedRoomsNone(after, seeds, ids2, nows2);
  }

  /** The seed room names are non-blank and trimmed, and the capacities positive. */
  lemma SeedRoomsWellFormed()
    ensures forall i :: 0 <= i < |SeedRooms| ==>
              !IsBlank(SeedRooms[i].name) && Trim(SeedRooms[i].name) == SeedRooms[i].name && SeedRooms[i].capacity > 0
  {
    forall i | 0 <= i < |SeedRooms|
      ensures !IsBlank(SeedRooms[i].name) && Trim(SeedRooms[i].name) == SeedRooms[i].name && SeedRooms[i].capacity > 0
    {
      var n := SeedRooms[i].name;
      assert !IsWhiteSpace(n[0]) && !IsWhiteSpace(n[|n| - 1]);
      TrimOfTrimmed(n);
    }
  }

  /** The room plan over the four seed rooms, one guarded call at a time. */
  lemma SeedRoomsUnrolled(snapshot: seq<Room>, ids: seq<Guid>, nows: seq<int>)
    requires |ids| == |SeedRooms| && |nows| == |SeedRooms|
    ensures snapshot + PlannedRooms(snapshot, SeedRooms, ids, nows)
         == snapshot + PlannedRoom(snapshot, SeedRooms[0], ids[0], nows[0]) + PlannedRoom(snapshot, SeedRooms[1], ids[1], nows[1])
                     + PlannedRoom(snapshot, SeedRooms[2], ids[2], nows[2]) + PlannedRoom(snapshot, SeedRooms[3], ids[3], nows[3])
  {
    var p0, p1 := PlannedRoom(snapshot, SeedRooms[0], ids[0], nows[0]), PlannedRoom(snapshot, SeedRooms[1], ids[1], nows[1]);
    var p2, p3 := PlannedRoom(snapshot, SeedRooms[2], ids[2], nows[2]), PlannedRoom(snapshot, SeedRooms[3], ids[3], nows[3]);
    assert PlannedRooms(snapshot, SeedRooms[3..], ids[3..], nows[3..]) == p3;
    assert SeedRooms[2..][1..] == SeedRooms[3..] && ids[2..][1..] == ids[3..] && nows[2..][1..] == nows[3..];
    assert SeedRooms[1..][1..] == SeedRooms[2..] && ids[1..][1..] == ids[2..] && nows[1..][1..] == nows[2..];
    assert PlannedRooms(snapshot, SeedRooms, ids, nows) == p0 + (p1 + (p2 + p3));
  }

  /** The user fold over the three seed users, one call at a time. */
  lemma SeedUsersUnrolled(users: seq<AppUser>)
    ensures SeedAllUsers(users, SeedUsers) == SeedOne(SeedOne(SeedOne(users, SeedUsers[0]), SeedUsers[1]), SeedUsers[2])
  {
    assert SeedUsers[1..][1..] == [SeedUsers[2]];
  }

  /** One `AddOrGetUser` call of `Init`, the returned user discarded. For the
      seeds the call cannot throw (`SeedUsersWellFormed`). */
  method AddOrGetSeedUser(repo: Repository.InMemoryRepository, s: SeedUser)
    requires repo.Valid()
    modifies repo
    ensures repo.Valid()
    ensures repo.users == SeedOne(old(repo.users), s)
    ensures repo.rooms == old(repo.rooms) && repo.bookings == old(repo.bookings) && repo.roomLocks == old(repo.roomLocks)
    ensures repo.issued == old(repo.issued)
  {
    var _ := repo.AddOrGetUser(s.login, s.role);
  }

  /** The `k`-th guarded `AddRoom` of `Init`: the seed room is appended, with
      id `ids[k]`, exactly when the snapshot lacks its name; the ids of the
      later seeds stay unused. */
  method AddRoomIfMissing(repo: Repository.InMemoryRepository, snapshot: seq<Room>, ids: seq<Guid>, k: nat, now: int)
    requires repo.Valid()
    requires k < |ids| == |SeedRooms|
    requires forall i, j :: k <= i < j < |ids| ==> ids[i] != ids[j]
    requires forall i :: k <= i < |ids| ==> ids[i] !in repo.issued
    modifies repo
    ensures repo.Valid()
    ensures repo.rooms == old(repo.rooms) + PlannedRoom(snapshot, SeedRooms[k], ids[k], now)
    ensures forall i :: k < i < |ids| ==> ids[i] !in repo.issued
    ensures repo.users == old(repo.users) && repo.bookings == old(repo.bookings) && repo.roomLocks == old(repo.roomLocks)
  {
    SeedRoomsWellFormed();
    var seed := SeedRooms[k];
    if !NameTaken(snapshot, seed.name) {
      var _ := repo.AddRoom(seed.name, seed.capacity, ids[k], now);
    }
  }

  /** `Init`: add or get the three seed users, snapshot the rooms, then add
      each seed room whose name the snapshot lacks. Rooms and users are only
      appended to; bookings and locks are untouched. `ids[i]` and `nows[i]` are
      the id and the `DateTime.UtcNow` reading the i-th seed room receives if
      it is added. */
  method Init(repo: Repository.InMemoryRepository, ids: seq<Guid>, nows: seq<int>)
    requires repo.Valid()
    requires |ids| == |SeedRooms| && |nows| == |SeedRooms|
    requires forall i, j :: 0 <= i < j < |ids| ==> ids[i] != ids[j]
    requires forall i :: 0 <= i < |ids| ==> ids[i] !in repo.issued
    modifies repo
    ensures repo.Valid()
    ensures repo.users == SeedAllUsers(old(repo.users), SeedUsers)
    ensures repo.rooms == old(repo.rooms) + PlannedRooms(old(repo.rooms), SeedRooms, ids, nows)
    ensures repo.bookings == old(repo.bookings) && repo.roomLocks == old(repo.roomLocks)
  {
    SeedUsersUnrolled(repo.users);
    AddOrGetSeedUser(repo, SeedUsers[0]);
    AddOrGetSeedUser(repo, SeedUsers[1]);
    AddOrGetSeedUser(repo, SeedUsers[2]);

    SeedRoomsUnrolled(repo.rooms, ids, nows);
    var existing := repo.GetRooms();
    AddRoomIfMissing(repo, existing, ids, 0, nows[0]);
    AddRoomIfMissing(repo, existing, ids, 1, nows[1]);
    AddRoomIfMissing(repo, existing, ids, 2, nows[2]);
    AddRoomIfMissing(repo, existing, ids, 3, nows[3]);
  }

  /** `Init` run twice in a row, with nothing in between, adds no user and no
      room the first run did not. */
  lemma InitIdempotent(users: seq<AppUser>, rooms: seq<Room>, ids: seq<Guid>, ids2: seq<Guid>, nows: seq<int>, nows2: seq<int>)
    requires |ids| == |SeedRooms| && |ids2| == |SeedRooms| && |nows| == |SeedRooms| && |nows2| == |SeedRooms|
    ensures var users1 := SeedAllUsers(users, SeedUsers);
            var rooms1 := rooms + PlannedRooms(rooms, SeedRooms, ids, nows);
            && SeedAllUsers(users1, SeedUsers) == users1
            && rooms1 + PlannedRooms(rooms1, SeedRooms, ids2, nows2) == rooms1
  {
    SeedAllUsersIdempotent(users, SeedUsers);
    SeedRoomsIdempotent(rooms, SeedRooms, ids, ids2, nows, nows2);
  }
}
