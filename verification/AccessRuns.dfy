/**
 * Whole runs of use cases, and what they mean for access: which requests succeed, and which
 * permissions a user ends up with.
 */
module AccessRuns {
  import opened Wrappers
  import opened AccessState
  import opened AccessInvariant

  // ---------- runs ----------

  datatype Step =
    | CreatePermission(raw: string, id: Id)
    | UpdatePermission(permission: Id, rename: Option<string>, mark: Option<Option<Time>>)
    | DeletePermission(permission: Id, now: Time)
    | CreateRole(raw: string, id: Id)
    | UpdateRole(role: Id, rename: Option<string>)
    | DeleteRole(role: Id, now: Time)
    | AddToRole(role: Id, names: seq<string>, uuids: seq<Id>)
    | RemoveFromRole(role: Id, names: seq<string>)
    | CreateUser(name: string, email: string, roleNames: seq<string>, id: Id)
    | UpdateUser(user: Id, userName: Option<string>, userEmail: Option<string>, userRoles: Option<seq<string>>)
    | DeleteUser(user: Id, now: Time)

  /**
   * What a run asks of its steps: generated ids are unused, and an update does not mark a
   * permission deleted that a role holds (see PermissionUpdateKeepsIff).
   */
  ghost predicate Admissible(s: State, step: Step) {
    match step
    case CreatePermission(_, id) => id !in s.permissions
    case UpdatePermission(id, _, mark) => !(SetsMark(mark) && IsHeld(s, id))
    case CreateRole(_, id) => id !in s.roles
    case AddToRole(_, names, uuids) => |uuids| == |names| && Unused(s, uuids)
    case CreateUser(_, _, _, id) => id !in s.users
    case _ => true
  }

  ghost function Next(s: State, step: Step, cascade: bool): (State, Outcome)
    requires Admissible(s, step)
  {
    match step
    case CreatePermission(raw, id) => PermissionCreate(s, raw, id)
    case UpdatePermission(id, raw, mark) => PermissionUpdate(s, id, raw, mark)
    case DeletePermission(id, now) => PermissionDelete(s, id, now)
    case CreateRole(raw, id) => RoleCreate(s, raw, id)
    case UpdateRole(id, raw) => RoleUpdate(s, id, raw)
    case DeleteRole(id, now) => RoleDelete(s, id, now)
    case AddToRole(id, names, uuids) => RoleAddPermission(s, id, names, uuids, cascade)
    case RemoveFromRole(id, names) => RoleDeletePermission(s, id, names, cascade)
    case CreateUser(name, email, roles, id) => UserCreate(s, name, email, roles, id)
    case UpdateUser(id, name, email, roles) => UserUpdate(s, id, name, email, roles)
    case DeleteUser(id, now) => UserDelete(s, id, now)
  }

  ghost predicate AdmissibleRun(s: State, steps: seq<Step>, cascade: bool)
    decreases steps
  {
    steps == [] || (Admissible(s, steps[0]) && AdmissibleRun(Next(s, steps[0], cascade).0, steps[1..], cascade))
  }

  ghost function Run(s: State, steps: seq<Step>, cascade: bool): State
    requires AdmissibleRun(s, steps, cascade)
    decreases steps
  {
    if steps == [] then s else Run(Next(s, steps[0], cascade).0, steps[1..], cascade)
  }

  /** Every step keeps the invariant, and a refused step changes nothing. */
  lemma StepKeeps(s: State, step: Step, cascade: bool)
    requires Inv(s) && Admissible(s, step)
    ensures Inv(Next(s, step, cascade).0)
    ensures Next(s, step, cascade).1.Some? ==> Next(s, step, cascade).0 == s
  {
    hide Inv;
    match step
    case CreatePermission(raw, id) => PermissionCreateKeeps(s, raw, id);
    case UpdatePermission(id, raw, mark) => PermissionUpdateKeepsIff(s, id, raw, mark);
    case DeletePermission(id, now) => PermissionDeleteKeeps(s, id, now);
    case CreateRole(raw, id) => RoleCreateKeeps(s, raw, id);
    case UpdateRole(id, raw) => RoleUpdateKeeps(s, id, raw);
    case DeleteRole(id, now) => RoleDeleteKeeps(s, id, now);
    case AddToRole(id, names, uuids) => RoleAddKeeps(s, id, names, uuids, cascade);
    case RemoveFromRole(id, names) => RoleRemoveKeeps(s, id, names, cascade);
    case CreateUser(name, email, roles, id) => UserCreateKeeps(s, name, email, roles, id);
    case UpdateUser(id, name, email, roles) => UserUpdateKeeps(s, id, name, email, roles);
    case DeleteUser(id, now) => UserDeleteKeeps(s, id, now);
  }

  /** The invariant holds after every run, whichever way the store cascades. */
  lemma {:induction false} RunKeeps(s: State, steps: seq<Step>, cascade: bool)
    requires Inv(s) && AdmissibleRun(s, steps, cascade)
    ensures Inv(Run(s, steps, cascade))
    decreases steps
  {
    hide Inv, Next, Admissible;
    if steps != [] {
      StepKeeps(s, steps[0], cascade);
      RunKeeps(Next(s, steps[0], cascade).0, steps[1..], cascade);
    }
  }

  /** In particular the empty store reaches only good states. */
  lemma EmptyStoreIsGood()
    ensures Inv(State(map[], map[], map[]))
  {
  }

  // ---------- user steps ----------

  lemma UserCreateKeeps(s: State, name: string, email: string, roles: seq<string>, id: Id)
    requires Inv(s) && id !in s.users
    ensures Inv(UserCreate(s, name, email, roles, id).0)
  {
  }

  lemma UserUpdateKeeps(s: State, id: Id, name: Option<string>, email: Option<string>, roles: Option<seq<string>>)
    requires Inv(s)
    ensures Inv(UserUpdate(s, id, name, email, roles).0)
  {
  }

  lemma UserDeleteKeeps(s: State, id: Id, now: Time)
    requires Inv(s)
    ensures Inv(UserDelete(s, id, now).0)
  {
  }

  // ---------- the role's permission names ----------

  ghost function NamesOfRole(s: State, r: Id): set<string>
    requires r in s.roles
  {
    Names(LoadedPermissions(s, r))
  }

  ghost function Normalised(names: seq<string>): set<string> {
    set n | n in names :: PermissionName(n)
  }

  /** Adding permissions: the role's names become the old ones plus the request; no other role changes. */
  lemma RoleAddKeeps(s: State, id: Id, names: seq<string>, uuids: seq<Id>, cascade: bool)
    requires Inv(s) && |uuids| == |names| && Unused(s, uuids)
    ensures var (s', e) := RoleAddPermission(s, id, names, uuids, cascade);
            && Inv(s')
            && (e.Some? ==> s' == s)
            && (e.None? ==>
                  LiveRole(s, id) && LiveRole(s', id) && NamesOfRole(s', id) == NamesOfRole(s, id) + Normalised(names))
            && (e.None? ==> OnlyRoleChanged(s, s', id))
            && (e.None? ==> OnlyRequestedRows(s, s', id, names, uuids))
  {
    hide Inv, SaveRoleEntity, GoodEntity;
    if LiveRole(s, id) {
      var held := LoadedPermissions(s, id);
      LoadedIsGood(s, id);
      var r := AddNames(s, held, names, uuids);
      if r.Ok? {
        AddNamesAddsExactly(s, held, names, uuids);
        SaveEntityKeeps(s, id, r.value, cascade);
        AddedFrom(s, held, names, uuids);
        SavedRows(s, id, r.value, cascade);
      }
    }
  }

  /** Removing permissions: the role's names become the old ones minus the request. */
  lemma RoleRemoveKeeps(s: State, id: Id, names: seq<string>, cascade: bool)
    requires Inv(s)
    ensures var (s', e) := RoleDeletePermission(s, id, names, cascade);
            && Inv(s')
            && (e.Some? ==> s' == s)
            && (e.None? ==>
                  LiveRole(s, id) && LiveRole(s', id) && NamesOfRole(s', id) == NamesOfRole(s, id) - set n | n in names)
            && (e.None? ==> OnlyRoleChanged(s, s', id) && s'.permissions == s.permissions)
            && (e == if LiveRole(s, id) then None else Some(RoleNotFound))
  {
    hide Inv, SaveRoleEntity;
    if LiveRole(s, id) {
      var held := LoadedPermissions(s, id);
      LoadedIsGood(s, id);
      RemoveNamesRemovesExactly(s, held, names);
      assert GoodEntity(s, RemoveNames(s, held, names));
      SaveEntityKeeps(s, id, RemoveNames(s, held, names), cascade);
      SavesIffStorable(s, id, RemoveNames(s, held, names), cascade);
      SavedRows(s, id, RemoveNames(s, held, names), cascade);
    }
  }

  /** Users, the other roles, this role's name, and the rows of known permissions are as before. */
  ghost predicate OnlyRoleChanged(s: State, s': State, id: Id) {
    && s'.users == s.users
    && s'.roles.Keys == s.roles.Keys
    && (id in s.roles ==> s'.roles[id].name == s.roles[id].name && s'.roles[id].deletedAt == s.roles[id].deletedAt)
    && (forall r :: r in s.roles && r != id ==> s'.roles[r] == s.roles[r])
    && (forall p :: p in s.permissions ==> p in s'.permissions && s'.permissions[p] == s.permissions[p])
  }

  /** A permission row that was not there before is a requested one, new, and held by the role. */
  ghost predicate OnlyRequestedRows(s: State, s': State, id: Id, names: seq<string>, uuids: seq<Id>) {
    forall p :: p in s'.permissions && p !in s.permissions ==>
      && p in uuids && id in s'.roles && p in s'.roles[id].permissions
      && s'.permissions[p].deletedAt.None? && s'.permissions[p].name in Normalised(names)
  }

  /** What a save adds to the permission table is what the entity holds. */
  lemma SavedRows(s: State, id: Id, held: set<Held>, cascade: bool)
    requires Inv(s) && LiveRole(s, id) && GoodEntity(s, held)
    ensures var (s', e) := SaveRoleEntity(s, id, s.roles[id].name, held, cascade);
            e.None? ==>
              && s'.roles[id].permissions == Ids(held)
              && forall p :: p in s'.permissions && p !in s.permissions ==>
                   exists h :: h in held && h.id == p && s'.permissions[p] == Permission(h.name, None)
  {
    hide WithNewRows, NewRowsClash;
    var (s', e) := SaveRoleEntity(s, id, s.roles[id].name, held, cascade);
    if e.None? && cascade {
      NewRows(s, held);
      forall p | p in s'.permissions && p !in s.permissions
        ensures exists h :: h in held && h.id == p && s'.permissions[p] == Permission(h.name, None)
      {
        assert p in Ids(held);
      }
    }
  }

  /** What the add loop puts in is an existing row, or a new id for a normalised request. */
  lemma {:induction false} AddedFrom(s: State, held: set<Held>, names: seq<string>, uuids: seq<Id>)
    requires Inv(s) && |uuids| == |names| && AddNames(s, held, names, uuids).Ok?
    ensures forall h :: h in AddNames(s, held, names, uuids).value && h !in held ==>
              h.id in s.permissions || (h.id in uuids && h.name in Normalised(names))
    decreases names
  {
    hide PermissionName, Inv;
    if names != [] {
      var p := Resolve(s, names[0], uuids[0]).value;
      assert names == [names[0]] + names[1..] && uuids == [uuids[0]] + uuids[1..];
      assert p.id in s.permissions || (p.id == uuids[0] && p.name == PermissionName(names[0]));
      AddedFrom(s, AddHeld(held, p), names[1..], uuids[1..]);
    }
  }

  // ---------- when an add request succeeds ----------

  predicate AnyPermissionNamed(s: State, name: string) {
    exists id :: id in s.permissions && s.permissions[id].name == name
  }

  /**
   * Request i can be met: its normalised name has a colon, and is held by the role, or was asked
   * for before, or is spelled as a live permission's name, or, with cascade, is no row's.
   */
  predicate Addable(s: State, held: set<Held>, names: seq<string>, i: nat, cascade: bool)
    requires i < |names|
  {
    var name := PermissionName(names[i]);
    && ValidPermissionName(name)
    && (|| name in Names(held)
        || AskedBefore(names, i)
        || FoundOrFree(s, names[i], cascade))
  }

  predicate AskedBefore(names: seq<string>, i: nat)
    requires i < |names|
  {
    exists j :: 0 <= j < i && PermissionName(names[j]) == PermissionName(names[i])
  }

  predicate FoundOrFree(s: State, raw: string, cascade: bool) {
    PermissionNamed(s, raw, None) || (cascade && !AnyPermissionNamed(s, PermissionName(raw)))
  }

  predicate AllAddable(s: State, held: set<Held>, names: seq<string>, cascade: bool) {
    forall i :: 0 <= i < |names| ==> Addable(s, held, names, i, cascade)
  }

  /** What is new in the entity can be stored: a live row, or, with cascade, a row of a free name. */
  ghost predicate Storable(s: State, held: set<Held>, cascade: bool) {
    forall h :: h in held ==> h.id in s.permissions || (cascade && !AnyPermissionNamed(s, h.name))
  }

  lemma OneAddable(s: State, held: set<Held>, name: string, uuid: Id, cascade: bool)
    requires Inv(s) && uuid !in s.permissions && Storable(s, held, cascade)
    ensures Resolve(s, name, uuid).Ok? <==> ValidPermissionName(PermissionName(name))
    ensures Resolve(s, name, uuid).Ok? ==>
              (Storable(s, AddHeld(held, Resolve(s, name, uuid).value), cascade) <==>
                 PermissionName(name) in Names(held) || FoundOrFree(s, name, cascade))
    ensures Resolve(s, name, uuid).Ok? ==>
              Names(AddHeld(held, Resolve(s, name, uuid).value)) == Names(held) + {PermissionName(name)}
  {
    hide PermissionName, RoleName, ValidPermissionName, StoredPermissionName, StoredRoleName;
    NamesAreFixedPoints(name);
  }

  lemma {:induction false} UnstorableStays(s: State, held: set<Held>, names: seq<string>, uuids: seq<Id>, cascade: bool)
    requires |uuids| == |names| && AddNames(s, held, names, uuids).Ok? && !Storable(s, held, cascade)
    ensures !Storable(s, AddNames(s, held, names, uuids).value, cascade)
    decreases names
  {
    hide Resolve;
    if names != [] {
      var next := AddHeld(held, Resolve(s, names[0], uuids[0]).value);
      assert held <= next;
      UnstorableStays(s, next, names[1..], uuids[1..], cascade);
    }
  }

  /** The loop ends with a storable entity exactly when every request can be met. */
  lemma {:induction false} AddNamesStorableIff(
    s: State, held: set<Held>, names: seq<string>, uuids: seq<Id>, cascade: bool)
    requires Inv(s) && |uuids| == |names| && Unused(s, uuids) && Storable(s, held, cascade)
    ensures var r := AddNames(s, held, names, uuids);
            (r.Ok? && Storable(s, r.value, cascade)) <==> AllAddable(s, held, names, cascade)
    decreases names
  {
    if names != [] {
      hide Resolve, AddHeld, Names, Storable, Inv, FoundOrFree;
      assert uuids[0] in uuids && uuids == [uuids[0]] + uuids[1..];
      OneAddable(s, held, names[0], uuids[0], cascade);
      if Resolve(s, names[0], uuids[0]).Ok? {
        var next := AddHeld(held, Resolve(s, names[0], uuids[0]).value);
        AddableSplits(s, held, next, names, cascade);
        if Storable(s, next, cascade) {
          AddNamesStorableIff(s, next, names[1..], uuids[1..], cascade);
        } else if AddNames(s, next, names[1..], uuids[1..]).Ok? {
          UnstorableStays(s, next, names[1..], uuids[1..], cascade);
        }
      } else {
        assert !Addable(s, held, names, 0, cascade);
      }
    }
  }

  /** The loop stops exactly at a name without a colon. */
  lemma {:induction false} AddNamesInvalidIff(s: State, held: set<Held>, names: seq<string>, uuids: seq<Id>)
    requires Inv(s) && |uuids| == |names|
    ensures AddNames(s, held, names, uuids).Err? <==> exists n :: n in names && ':' !in PermissionName(n)
    ensures AddNames(s, held, names, uuids).Err? ==> AddNames(s, held, names, uuids).error == Invalid
    decreases names
  {
    if names != [] {
      assert forall n :: n in names <==> n == names[0] || n in names[1..];
      ResolvesIff(s, names[0], uuids[0]);
      hide Inv, PermissionName, Resolve;
      var p := Resolve(s, names[0], uuids[0]);
      if p.Ok? {
        AddNamesInvalidIff(s, AddHeld(held, p.value), names[1..], uuids[1..]);
      }
    }
  }

  lemma ResolvesIff(s: State, name: string, uuid: Id)
    requires Inv(s)
    ensures Resolve(s, name, uuid).Ok? <==> ':' in PermissionName(name)
    ensures Resolve(s, name, uuid).Err? ==> Resolve(s, name, uuid).error == Invalid
  {
    hide PermissionName, RoleName, StoredRoleName;
    NamesAreFixedPoints(name);
  }

  lemma AddableSplits(s: State, held: set<Held>, next: set<Held>, names: seq<string>, cascade: bool)
    requires names != [] && Names(next) == Names(held) + {PermissionName(names[0])}
    ensures AllAddable(s, held, names, cascade) <==>
            && ValidPermissionName(PermissionName(names[0]))
            && (PermissionName(names[0]) in Names(held) || FoundOrFree(s, names[0], cascade))
            && AllAddable(s, next, names[1..], cascade)
  {
    hide Names, FoundOrFree;
    var rest := names[1..];
    forall i | 0 <= i < |rest| ensures Addable(s, next, rest, i, cascade) <==> Addable(s, held, names, i + 1, cascade) {
      assert rest[i] == names[i + 1];
      AskedShift(names, i);
    }
    assert Addable(s, held, names, 0, cascade) <==>
           ValidPermissionName(PermissionName(names[0])) &&
           (PermissionName(names[0]) in Names(held) || FoundOrFree(s, names[0], cascade));
    if AllAddable(s, next, rest, cascade) {
      forall i | 0 < i < |names| ensures Addable(s, held, names, i, cascade) {
        assert Addable(s, next, rest, i - 1, cascade);
      }
    }
  }

  lemma AskedShift(names: seq<string>, i: nat)
    requires i + 1 < |names|
    ensures AskedBefore(names, i + 1) <==>
            AskedBefore(names[1..], i) || PermissionName(names[i + 1]) == PermissionName(names[0])
  {
    var rest := names[1..];
    if j :| 0 <= j < i && PermissionName(rest[j]) == PermissionName(rest[i]) {
      assert names[j + 1] == rest[j];
    }
    if j :| 0 < j < i + 1 && PermissionName(names[j]) == PermissionName(names[i + 1]) {
      assert rest[j - 1] == names[j];
    }
  }

  /** The request goes through exactly when the role is live and each of its names can be met. */
  lemma AddSucceedsIff(s: State, id: Id, names: seq<string>, uuids: seq<Id>, cascade: bool)
    requires Inv(s) && |uuids| == |names| && Unused(s, uuids)
    ensures RoleAddPermission(s, id, names, uuids, cascade).1.None? <==>
            LiveRole(s, id) && AllAddable(s, LoadedPermissions(s, id), names, cascade)
    ensures RoleAddPermission(s, id, names, uuids, cascade).1 == Some(RoleNotFound) <==> !LiveRole(s, id)
    ensures RoleAddPermission(s, id, names, uuids, cascade).1 == Some(Invalid) <==>
            LiveRole(s, id) && exists n :: n in names && ':' !in PermissionName(n)
    ensures RoleAddPermission(s, id, names, uuids, cascade).1 in {None, Some(RoleNotFound), Some(Invalid),
            Some(DatabaseError)}
  {
    hide AllAddable, AddNames;
    if LiveRole(s, id) {
      var held := LoadedPermissions(s, id);
      LoadedIsGood(s, id);
      AddNamesStorableIff(s, held, names, uuids, cascade);
      AddNamesInvalidIff(s, held, names, uuids);
      var r := AddNames(s, held, names, uuids);
      if r.Ok? {
        AddNamesAddsExactly(s, held, names, uuids);
        SavesIffStorable(s, id, r.value, cascade);
      }
    }
  }

  /** A well-formed entity is saved exactly when what is new in it can be stored. */
  lemma SavesIffStorable(s: State, id: Id, held: set<Held>, cascade: bool)
    requires Inv(s) && LiveRole(s, id) && GoodEntity(s, held)
    ensures SaveRoleEntity(s, id, s.roles[id].name, held, cascade).1.None? <==> Storable(s, held, cascade)
  {
    hide WithNewRows;
    if Storable(s, held, cascade) {
      assert cascade ==> !NewRowsClash(s, held);
      if cascade {
        NewRows(s, held);
      }
    } else {
      var h :| h in held && h.id !in s.permissions && !(cascade && !AnyPermissionNamed(s, h.name));
      assert h.id in Ids(held);
      if cascade {
        assert PermissionNameClash(s, h.id, h.name);
      }
    }
  }

  // ---------- counting roles ----------

  predicate NoRepeats(names: seq<string>) {
    forall i, j :: 0 <= i < j < |names| ==> names[i] != names[j]
  }

  function NameSet(names: seq<string>): set<string> { set n | n in names }

  ghost function RoleNamesOf(s: State, rows: set<Id>): set<string>
    requires rows <= s.roles.Keys
  {
    set r | r in rows :: s.roles[r].name
  }

  lemma {:induction false} NameSetSize(names: seq<string>)
    ensures |NameSet(names)| <= |names|
    ensures |NameSet(names)| == |names| <==> NoRepeats(names)
  {
    if names != [] {
      var front, last := names[..|names| - 1], names[|names| - 1];
      NameSetSize(front);
      assert names == front + [last];
      if last in front {
        assert NameSet(names) == NameSet(front);
        var i :| 0 <= i < |front| && front[i] == last;
        assert names[i] == names[|names| - 1];
      } else {
        assert NameSet(names) == NameSet(front) + {last};
        assert NoRepeats(front) ==> NoRepeats(names);
        assert NoRepeats(names) ==> NoRepeats(front) by {
          assert forall i :: 0 <= i < |front| ==> front[i] == names[i];
        }
      }
    }
  }

  lemma {:induction false} RowsHaveDistinctNames(s: State, rows: set<Id>)
    requires UniqueNames(s) && rows <= s.roles.Keys
    ensures |RoleNamesOf(s, rows)| == |rows|
    decreases |rows|
  {
    if rows != {} {
      var r :| r in rows;
      RowsHaveDistinctNames(s, rows - {r});
      assert RoleNamesOf(s, rows) == RoleNamesOf(s, rows - {r}) + {s.roles[r].name};
    }
  }

  lemma {:induction false} SubsetSize(a: set<string>, b: set<string>)
    requires a <= b
    ensures |a| <= |b|
    ensures |a| == |b| ==> a == b
  {
    if a != {} {
      var x :| x in a;
      SubsetSize(a - {x}, b - {x});
    }
  }

  /**
   * The length check of user create and update passes exactly when every requested role is
   * live and none is repeated, and then the rows found have exactly the requested names.
   */
  lemma LengthCheckIsExact(s: State, names: seq<string>)
    requires UniqueNames(s)
    ensures var rows := RolesNamed(s, names);
            && (|rows| >= |names| <==>
                NoRepeats(names) && forall n :: n in names ==>
                  exists r :: r in s.roles && LiveRole(s, r) && s.roles[r].name == n)
            && (|rows| >= |names| ==> RoleNamesOf(s, rows) == NameSet(names) && |rows| == |names|)
  {
    var rows := RolesNamed(s, names);
    var found := RoleNamesOf(s, rows);
    RowsHaveDistinctNames(s, rows);
    NameSetSize(names);
    SubsetSize(found, NameSet(names));
    if |rows| >= |names| {
      assert found == NameSet(names);
      forall n | n in names ensures exists r :: r in s.roles && LiveRole(s, r) && s.roles[r].name == n {
        assert n in found;
      }
    }
    if forall n :: n in names ==> exists r :: r in s.roles && LiveRole(s, r) && s.roles[r].name == n {
      forall n | n in names ensures n in found {
        var r :| r in s.roles && LiveRole(s, r) && s.roles[r].name == n;
        assert r in rows;
      }
      assert found == NameSet(names);
    }
  }

  // ---------- what a user may do ----------

  ghost predicate RoleGrants(s: State, r: Id, permission: string) {
    && LiveRole(s, r)
    && exists p :: p in s.roles[r].permissions && p in s.permissions && s.permissions[p].name == permission
  }

  /** Some live role of the user holds the permission, read off the stored rows. */
  ghost predicate Grants(s: State, u: Id, permission: string) {
    LiveUser(s, u) && exists r :: r in s.users[u].roles && RoleGrants(s, r, permission)
  }

  /** The names the guard gathers from the roles and permissions it reads. */
  function GatheredNames(s: State, u: Id): set<string>
    requires u in s.users
  {
    set r, h | r in LoadedRoles(s, u) && h in LoadedPermissions(s, r) :: h.name
  }

  /** In a reachable state the guard's list is exactly what the stored rows grant. */
  lemma GuardSeesGrants(s: State, u: Id, permission: string)
    requires Consistent(s) && LiveUser(s, u)
    ensures permission in GatheredNames(s, u) <==> Grants(s, u, permission)
  {
    if Grants(s, u, permission) {
      var r :| r in s.users[u].roles && RoleGrants(s, r, permission);
      var p :| p in s.roles[r].permissions && p in s.permissions && s.permissions[p].name == permission;
      assert Held(p, permission) in LoadedPermissions(s, r);
    }
  }

  lemma RoleGrantsItsNames(s: State, r: Id, permission: string)
    requires Consistent(s)
    ensures RoleGrants(s, r, permission) <==> LiveRole(s, r) && permission in NamesOfRole(s, r)
  {
    if RoleGrants(s, r, permission) {
      var p :| p in s.roles[r].permissions && p in s.permissions && s.permissions[p].name == permission;
      assert Held(p, permission) in LoadedPermissions(s, r);
    }
  }

  /** A successful add gives the request to the live users of the role, and changes nothing else. */
  lemma AddingGrants(s: State, id: Id, names: seq<string>, uuids: seq<Id>, cascade: bool, u: Id, permission: string)
    requires Inv(s) && |uuids| == |names| && Unused(s, uuids)
    requires RoleAddPermission(s, id, names, uuids, cascade).1.None?
    ensures var s' := RoleAddPermission(s, id, names, uuids, cascade).0;
            Grants(s', u, permission) <==>
            Grants(s, u, permission) || (LiveUser(s, u) && id in s.users[u].roles && permission in Normalised(names))
  {
    hide RoleAddPermission, Consistent, NormalNames, RoleGrants, NamesOfRole;
    RoleAddKeeps(s, id, names, uuids, cascade);
    var s' := RoleAddPermission(s, id, names, uuids, cascade).0;
    OtherRolesGrantTheSame(s, s', id, permission);
    RoleGrantsItsNames(s, id, permission);
    RoleGrantsItsNames(s', id, permission);
  }

  /** A successful removal takes the request away, unless another live role of the user holds it. */
  lemma RemovingGrants(s: State, id: Id, names: seq<string>, cascade: bool, u: Id, permission: string)
    requires Inv(s)
    requires RoleDeletePermission(s, id, names, cascade).1.None?
    ensures var s' := RoleDeletePermission(s, id, names, cascade).0;
            Grants(s', u, permission) <==>
            LiveUser(s, u) && exists r ::
              r in s.users[u].roles && RoleGrants(s, r, permission) && (r != id || permission !in names)
  {
    hide RoleDeletePermission, Consistent, NormalNames, RoleGrants, NamesOfRole;
    RoleRemoveKeeps(s, id, names, cascade);
    var s' := RoleDeletePermission(s, id, names, cascade).0;
    OtherRolesGrantTheSame(s, s', id, permission);
    RoleGrantsItsNames(s, id, permission);
    RoleGrantsItsNames(s', id, permission);
  }

  lemma OtherRolesGrantTheSame(s: State, s': State, id: Id, permission: string)
    requires Consistent(s) && OnlyRoleChanged(s, s', id)
    ensures forall r :: r != id ==> (RoleGrants(s', r, permission) <==> RoleGrants(s, r, permission))
  {
    forall r | r != id ensures RoleGrants(s', r, permission) <==> RoleGrants(s, r, permission) {
      if r in s.roles {
        assert s'.roles[r] == s.roles[r];
        assert s.roles[r].permissions <= s.permissions.Keys;
      }
    }
  }
}
