/**
 * When each use case goes through and whose access it changes, in any consistent state. Adding to
 * and removing from a role are in AccessRuns.
 */
module AccessEffects {
  import opened Wrappers
  import opened AccessState
  import opened AccessInvariant
  import opened AccessRuns

  /** Nobody's access changes. */
  ghost predicate SameGrants(s: State, s': State) {
    forall u, permission :: Grants(s', u, permission) <==> Grants(s, u, permission)
  }

  /** A live role holds a permission row, whatever its name. */
  ghost predicate Reaches(s: State, u: Id, p: Id) {
    LiveUser(s, u) && exists r :: r in s.users[u].roles && LiveRole(s, r) && p in s.roles[r].permissions
  }

  lemma GrantsIsReaching(s: State, u: Id, permission: string)
    requires Consistent(s)
    ensures Grants(s, u, permission) <==>
            exists p :: p in s.permissions && s.permissions[p].name == permission && Reaches(s, u, p)
  {
    if Grants(s, u, permission) {
      var r :| r in s.users[u].roles && RoleGrants(s, r, permission);
      var p :| p in s.roles[r].permissions && p in s.permissions && s.permissions[p].name == permission;
      assert Reaches(s, u, p);
    }
    if p :| p in s.permissions && s.permissions[p].name == permission && Reaches(s, u, p) {
      var r :| r in s.users[u].roles && LiveRole(s, r) && p in s.roles[r].permissions;
      assert RoleGrants(s, r, permission);
    }
  }

  predicate LivePermissionNamed(s: State, name: string) {
    exists p :: p in s.permissions && s.permissions[p].deletedAt.None? && s.permissions[p].name == name
  }

  /** No permission row but this one, deleted or not, has the name. */
  predicate FreePermissionName(s: State, id: Id, name: string) {
    forall p :: p in s.permissions && p != id ==> s.permissions[p].name != name
  }

  predicate FreeRoleName(s: State, id: Id, name: string) {
    forall r :: r in s.roles && r != id ==> s.roles[r].name != name
  }

  /** No live user but this one has the e-mail. */
  predicate FreeEmail(s: State, id: Id, email: string) {
    forall u :: u in s.users && u != id && s.users[u].deletedAt.None? ==> s.users[u].email != email
  }

  /**
   * A permission is created exactly when its normalised name has a colon and no row, deleted or
   * not, has it; the name of a deleted permission passes the use case's own check and is refused
   * by the table.
   */
  lemma PermissionCreateIff(s: State, raw: string, id: Id)
    requires Consistent(s) && id !in s.permissions
    ensures var name := PermissionName(raw);
            var (s', e) := PermissionCreate(s, raw, id);
            && (e.None? <==> ':' in name && FreePermissionName(s, id, name))
            && (e == Some(Invalid) <==> ':' !in name)
            && (e == Some(PermissionExists) <==> ':' in name && LivePermissionNamed(s, name))
            && (e == Some(DatabaseError) <==>
                  ':' in name && !FreePermissionName(s, id, name) && !LivePermissionNamed(s, name))
            && (s' == if e.None? then s.(permissions := s.permissions[id := Permission(name, None)]) else s)
            && SameGrants(s, s')
  {
    hide PermissionName;
    var (s', e) := PermissionCreate(s, raw, id);
    if e.None? {
      forall u, permission ensures Grants(s', u, permission) <==> Grants(s, u, permission) {
        UnheldRowChanges(s, s', id, u, permission);
      }
    }
  }

  /** Changing a row that no role holds changes no access. */
  lemma UnheldRowChanges(s: State, s': State, id: Id, u: Id, permission: string)
    requires Consistent(s) && s'.roles == s.roles && s'.users == s.users && !IsHeld(s, id)
    requires forall p :: p != id ==> (p in s'.permissions <==> p in s.permissions)
    requires forall p :: p != id && p in s.permissions ==> s'.permissions[p] == s.permissions[p]
    ensures Grants(s', u, permission) <==> Grants(s, u, permission)
  {
    forall r ensures RoleGrants(s', r, permission) <==> RoleGrants(s, r, permission) {
      if LiveRole(s, r) {
        assert id !in s.roles[r].permissions;
      }
    }
  }

  /** A permission is deleted exactly when it is live and no role at all holds it; nobody loses access. */
  lemma PermissionDeleteIff(s: State, id: Id, now: Time)
    requires Consistent(s)
    ensures var (s', e) := PermissionDelete(s, id, now);
            && (e.None? <==> LivePermission(s, id) && !IsHeld(s, id))
            && (e == Some(PermissionNotFound) <==> !LivePermission(s, id))
            && (e == Some(HasAssociation) <==> LivePermission(s, id) && IsHeld(s, id))
            && (s' == if e.None? then s.(permissions := s.permissions[id := Permission(s.permissions[id].name,
                  Some(now))]) else s)
            && SameGrants(s, s')
  {
    var (s', e) := PermissionDelete(s, id, now);
    if LivePermission(s, id) {
      if IsHeld(s, id) {
        var r :| r in s.roles && id in s.roles[r].permissions;
        assert r in HoldersOf(s, id);
      } else {
        assert HoldersOf(s, id) == {};
        forall u, permission ensures Grants(s', u, permission) <==> Grants(s, u, permission) {
          UnheldRowChanges(s, s', id, u, permission);
        }
      }
    }
  }

  /**
   * An accepted rename moves access with the row: who reached the row under the old name has the
   * new one instead, and every other name is granted as before.
   */
  lemma RenamingMovesGrants(s: State, id: Id, raw: string, u: Id, permission: string)
    requires Consistent(s) && PermissionUpdate(s, id, Some(raw), None).1.None?
    ensures var s' := PermissionUpdate(s, id, Some(raw), None).0;
            Grants(s', u, permission) <==>
            if permission == PermissionName(raw) then Reaches(s, u, id)
            else permission != s.permissions[id].name && Grants(s, u, permission)
  {
    var s' := PermissionUpdate(s, id, Some(raw), None).0;
    HarmlessUpdateConsistent(s, id, Some(raw), None);
    GrantsIsReaching(s, u, permission);
    GrantsIsReaching(s', u, permission);
    assert forall p :: Reaches(s', u, p) <==> Reaches(s, u, p);
    assert s'.permissions[id].name == PermissionName(raw);
    assert forall p :: p in s.permissions && p != id ==> s'.permissions[p] == s.permissions[p];
  }

  /**
   * A permission is updated exactly when it is live and the new name, if there is one, has a
   * colon and is no other row's, deleted or not; again a deleted row's name is refused only by
   * the table. What is not given stays.
   */
  lemma PermissionUpdateIff(s: State, id: Id, raw: Option<string>, mark: Option<Option<Time>>)
    requires Consistent(s)
    ensures var (s', e) := PermissionUpdate(s, id, raw, mark);
            var wellNamed := raw.Some? ==> ':' in PermissionName(raw.value);
            && (e.None? <==>
                  LivePermission(s, id) && wellNamed
                    && (raw.Some? ==> FreePermissionName(s, id, PermissionName(raw.value))))
            && (e == Some(Invalid) <==> !wellNamed)
            && (e == Some(PermissionNotFound) <==> wellNamed && !LivePermission(s, id))
            && (e == Some(PermissionExists) <==>
                  LivePermission(s, id) && wellNamed && raw.Some? && exists p ::
                    p != id && p in s.permissions && s.permissions[p].deletedAt.None?
                    && s.permissions[p].name == PermissionName(raw.value))
            && (e.Some? ==> e.value in {Invalid, PermissionNotFound, PermissionExists, DatabaseError} && s' == s)
            && (e.None? ==>
                  var row := Permission(
                    if raw.Some? then PermissionName(raw.value) else s.permissions[id].name,
                    if mark.Some? then mark.value else None);
                  s' == s.(permissions := s.permissions[id := row]))
  {
    hide PermissionName;
  }

  /** A role is created exactly when no role row has its name; it starts without permissions. */
  lemma RoleCreateIff(s: State, raw: string, id: Id)
    requires Consistent(s) && id !in s.roles
    ensures var (s', e) := RoleCreate(s, raw, id);
            && (e.None? <==> FreeRoleName(s, id, RoleName(raw)))
            && (e.Some? ==> e == Some(DatabaseError))
            && (s' == if e.None? then s.(roles := s.roles[id := Role(RoleName(raw), {}, None)]) else s)
            && SameGrants(s, s')
  {
    hide RoleName;
    var (s', e) := RoleCreate(s, raw, id);
    if e.None? {
      forall u, permission ensures Grants(s', u, permission) <==> Grants(s, u, permission) {
        if LiveUser(s, u) {
          assert s.users[u].roles <= s.roles.Keys;
        }
        forall r | r in s.roles ensures RoleGrants(s', r, permission) <==> RoleGrants(s, r, permission) {
        }
      }
    }
  }

  /** A role is deleted exactly when it is live and its row holds no permission; nobody loses access. */
  lemma RoleDeleteIff(s: State, id: Id, now: Time)
    requires Consistent(s)
    ensures var (s', e) := RoleDelete(s, id, now);
            && (e.None? <==> LiveRole(s, id) && s.roles[id].permissions == {})
            && (e == Some(RoleNotFound) <==> !LiveRole(s, id))
            && (e == Some(HasAssociation) <==> LiveRole(s, id) && s.roles[id].permissions != {})
            && (s' == if e.None? then s.(roles := s.roles[id := Role(s.roles[id].name, {}, Some(now))]) else s)
            && SameGrants(s, s')
  {
    if LiveRole(s, id) {
      LoadsAll(s, id);
      var (s', e) := RoleDelete(s, id, now);
      assert LoadedPermissions(s, id) == {} <==> s.roles[id].permissions == {} by {
        if h :| h in LoadedPermissions(s, id) {
          assert h.id in Ids(LoadedPermissions(s, id));
        }
      }
      if e.None? {
        forall u, permission ensures Grants(s', u, permission) <==> Grants(s, u, permission) {
          forall r ensures RoleGrants(s', r, permission) <==> RoleGrants(s, r, permission) {
          }
        }
      }
    }
  }

  /** Updating a role stores the new name, if there is one, and nothing else; nobody's access changes. */
  lemma RoleUpdateKeepsGrants(s: State, id: Id, raw: Option<string>)
    requires Consistent(s)
    ensures var (s', e) := RoleUpdate(s, id, raw);
            && (e.None? <==> LiveRole(s, id) && (raw.Some? ==> FreeRoleName(s, id, RoleName(raw.value))))
            && (e == Some(RoleNotFound) <==> !LiveRole(s, id))
            && (e.Some? ==> e.value in {RoleNotFound, DatabaseError} && s' == s)
            && (e.None? ==>
                  var row := Role(if raw.Some?
                    then RoleName(raw.value) else s.roles[id].name, s.roles[id].permissions, None);
                  s' == s.(roles := s.roles[id := row]))
            && SameGrants(s, s')
  {
    hide RoleName;
    if LiveRole(s, id) {
      LoadsAll(s, id);
      var (s', e) := RoleUpdate(s, id, raw);
      if e.None? {
        forall u, permission ensures Grants(s', u, permission) <==> Grants(s, u, permission) {
          forall r ensures RoleGrants(s', r, permission) <==> RoleGrants(s, r, permission) {
          }
        }
      }
    }
  }

  predicate NamesLive(s: State, names: seq<string>) {
    forall n :: n in names ==> exists r :: r in s.roles && LiveRole(s, r) && s.roles[r].name == n
  }

  /** The roles a user may be given by name. */
  predicate KnownRole(name: string) { name == "USER" || name == "BACKOFFICE" }

  predicate AllKnown(names: seq<string>) { forall n :: n in names ==> KnownRole(n) }

  /** The live roles that have one of the names. */
  function LiveRolesNamed(s: State, names: seq<string>): set<Id> {
    set r | r in s.roles && s.roles[r].deletedAt.None? && s.roles[r].name in names
  }

  /**
   * A user is created exactly for a non-empty list of distinct known role names, all live, and
   * an e-mail no live user has; the row is what was asked for, and then the user may do exactly
   * what the named roles grant.
   */
  lemma UserCreateIff(s: State, name: string, email: string, roles: seq<string>, id: Id, permission: string)
    requires Consistent(s) && id !in s.users
    ensures var (s', e) := UserCreate(s, name, email, roles, id);
            var found := NoRepeats(roles) && NamesLive(s, roles);
            && (e.None? <==> roles != [] && AllKnown(roles) && found && FreeEmail(s, id, email))
            && (e == Some(Invalid) <==> roles == [] || !AllKnown(roles))
            && (e == Some(RoleNotFound) <==> roles != [] && AllKnown(roles) && !found)
            && (e == Some(UserExists) <==> roles != [] && AllKnown(roles) && found && !FreeEmail(s, id, email))
            && (s' == if e.None? then s.(users := s.users[id := User(name, email, LiveRolesNamed(s, roles),
                  None)]) else s)
            && (e.None? ==> (Grants(s', id, permission) <==> RolesNamedGrant(s, roles, permission)))
            && (forall u :: u != id ==> (Grants(s', u, permission) <==> Grants(s, u, permission)))
  {
    LengthCheckIsExact(s, roles);
    assert RolesNamed(s, roles) == LiveRolesNamed(s, roles);
    var (s', e) := UserCreate(s, name, email, roles, id);
    forall r ensures RoleGrants(s', r, permission) <==> RoleGrants(s, r, permission) {
    }
    if e.None? {
      NamedRolesGrant(s, roles, permission);
    }
  }

  /** Some live role with one of the names grants the permission. */
  ghost predicate RolesNamedGrant(s: State, names: seq<string>, permission: string) {
    exists r :: r in s.roles && s.roles[r].name in names && RoleGrants(s, r, permission)
  }

  lemma NamedRolesGrant(s: State, names: seq<string>, permission: string)
    ensures (exists r :: r in RolesNamed(s, names) && RoleGrants(s, r, permission)) <==>
            RolesNamedGrant(s, names, permission)
  {
    if r :| r in s.roles && s.roles[r].name in names && RoleGrants(s, r, permission) {
      assert r in RolesNamed(s, names);
    }
  }

  /** The row takes the name, e-mail and roles that are given and keeps the others, but for deleted roles. */
  function UpdatedUser(
    s: State, was: User, name: Option<string>, email: Option<string>, roles: Option<seq<string>>): User
  {
    User(
      if name.Some? then name.value else was.name,
      if email.Some? then email.value else was.email,
      if roles.Some? then LiveRolesNamed(s, roles.value)
      else (set r | r in was.roles && r in s.roles && s.roles[r].deletedAt.None?),
      None)
  }

  /**
   * An update with a role list succeeds under the same conditions as a creation, save that the
   * list may be empty, and replaces the user's access; without one the user's access stays.
   */
  lemma UserUpdateIff(
    s: State, id: Id, name: Option<string>, email: Option<string>, roles: Option<seq<string>>, permission: string)
    requires Consistent(s)
    ensures var (s', e) := UserUpdate(s, id, name, email, roles);
            var known := roles.Some? ==> AllKnown(roles.value);
            var found := roles.Some? ==> NoRepeats(roles.value) && NamesLive(s, roles.value);
            var free := email.Some? ==> FreeEmail(s, id, email.value);
            && (e.None? <==> known && LiveUser(s, id) && found && free)
            && (e == Some(Invalid) <==> !known)
            && (e == Some(UserNotFound) <==> known && !LiveUser(s, id))
            && (e == Some(RoleNotFound) <==> known && LiveUser(s, id) && !found)
            && (e == Some(UserExists) <==> known && LiveUser(s, id) && found && !free)
            && (e.Some? ==> s' == s)
            && (e.None? ==> s' == s.(users := s.users[id := UpdatedUser(s, s.users[id], name, email, roles)]))
            && (e.None? && roles.Some? ==>
                  (Grants(s', id, permission) <==> RolesNamedGrant(s, roles.value, permission)))
            && (roles.None? ==> (Grants(s', id, permission) <==> Grants(s, id, permission)))
            && (forall u :: u != id ==> (Grants(s', u, permission) <==> Grants(s, u, permission)))
  {
    if LiveUser(s, id) {
      assert FreeEmail(s, id, s.users[id].email);
      assert LoadedRoles(s, id) == set r | r in s.users[id].roles && r in s.roles && s.roles[r].deletedAt.None?;
    }
    if roles.Some? {
      LengthCheckIsExact(s, roles.value);
      assert RolesNamed(s, roles.value) == LiveRolesNamed(s, roles.value);
    }
    var (s', e) := UserUpdate(s, id, name, email, roles);
    if e.None? {
      assert s'.users[id].roles == UpdatedUser(s, s.users[id], name, email, roles).roles;
      assert s'.users[id] == UpdatedUser(s, s.users[id], name, email, roles);
    }
    if e.None? {
      UpdatedUserMay(s, s', id, name, email, roles, permission);
    }
  }

  lemma UpdatedUserMay(
    s: State, s': State, id: Id, name: Option<string>, email: Option<string>, roles: Option<seq<string>>,
    permission: string)
    requires LiveUser(s, id) && s' == s.(users := s.users[id := UpdatedUser(s, s.users[id], name, email, roles)])
    ensures roles.Some? ==> (Grants(s', id, permission) <==> RolesNamedGrant(s, roles.value, permission))
    ensures roles.None? ==> (Grants(s', id, permission) <==> Grants(s, id, permission))
    ensures forall u :: u != id ==> (Grants(s', u, permission) <==> Grants(s, u, permission))
  {
    forall r ensures RoleGrants(s', r, permission) <==> RoleGrants(s, r, permission) {
    }
    if roles.Some? {
      assert RolesNamed(s, roles.value) == LiveRolesNamed(s, roles.value);
      NamedRolesGrant(s, roles.value, permission);
    }
  }

  /** A deleted user may do nothing; nobody else is affected, and the e-mail is free again. */
  lemma UserDeleteEffect(s: State, id: Id, now: Time, u: Id, permission: string)
    requires Consistent(s)
    ensures var (s', e) := UserDelete(s, id, now);
            && (e == if LiveUser(s, id) then None else Some(UserNotFound))
            && (s' == if e.None? then s.(users := s.users[id := s.users[id].(deletedAt := Some(now))]) else s)
            && !Grants(s', id, permission)
            && (u != id ==> (Grants(s', u, permission) <==> Grants(s, u, permission)))
            && (e.None? ==> FreeEmail(s', id, s.users[id].email) && !LiveUser(s', id))
  {
    var (s', e) := UserDelete(s, id, now);
    forall r ensures RoleGrants(s', r, permission) <==> RoleGrants(s, r, permission) {
    }
  }

  /** What the check of a deletion reads, in any state whatever: the live roles and no others. */
  lemma DeletionAsksLiveRoles(s: State, id: Id, now: Time)
    ensures PermissionDelete(s, id, now).1 == Some(HasAssociation) <==>
            LivePermission(s, id) && exists r ::
              r in s.roles && s.roles[r].deletedAt.None? && id in s.roles[r].permissions
  {
    if LivePermission(s, id) {
      if r :| r in s.roles && s.roles[r].deletedAt.None? && id in s.roles[r].permissions {
        assert r in HoldersOf(s, id);
      }
      if HoldersOf(s, id) != {} {
        var r :| r in HoldersOf(s, id);
      }
    }
  }

  /** An accepted step of a run has done what it says. */
  lemma AcceptedStepActs(s: State, step: Step, cascade: bool)
    requires Inv(s) && Admissible(s, step) && Next(s, step, cascade).1.None?
    ensures var s' := Next(s, step, cascade).0;
            match step
            case CreatePermission(raw, id) => LivePermission(s', id) && s'.permissions[id].name == PermissionName(raw)
            case UpdatePermission(id, rename, mark) =>
              && id in s'.permissions
              && (rename.Some? ==> s'.permissions[id].name == PermissionName(rename.value))
              && (mark.Some? ==> s'.permissions[id].deletedAt == mark.value)
            case DeletePermission(id, _) => LivePermission(s, id) && !LivePermission(s', id)
            case CreateRole(raw, id) => LiveRole(s', id) && s'.roles[id].name == RoleName(raw)
            case UpdateRole(id, rename) => LiveRole(s', id)
              && (rename.Some? ==> s'.roles[id].name == RoleName(rename.value))
            case DeleteRole(id, _) => LiveRole(s, id) && !LiveRole(s', id)
            case AddToRole(id, names, _) =>
              LiveRole(s, id) && LiveRole(s', id) && NamesOfRole(s', id) == NamesOfRole(s, id) + Normalised(names)
            case RemoveFromRole(id, names) =>
              LiveRole(s, id) && LiveRole(s', id) && NamesOfRole(s', id) == NamesOfRole(s, id) - set n | n in names
            case CreateUser(name, email, _, id) =>
              LiveUser(s', id) && s'.users[id].name == name && s'.users[id].email == email
            case UpdateUser(id, name, email, _) =>
              && LiveUser(s', id)
              && (name.Some? ==> s'.users[id].name == name.value)
              && (email.Some? ==> s'.users[id].email == email.value)
            case DeleteUser(id, _) => LiveUser(s, id) && !LiveUser(s', id)
  {
    hide PermissionName, RoleName, NamesOfRole, Normalised, Consistent, NormalNames;
    hide PermissionCreate, PermissionUpdate, PermissionDelete, RoleCreate, RoleUpdate, RoleDelete;
    hide RoleAddPermission, RoleDeletePermission, UserCreate, UserUpdate, UserDelete;
    match step
    case CreatePermission(raw, id) => PermissionCreateIff(s, raw, id);
    case UpdatePermission(id, raw, mark) => PermissionUpdateIff(s, id, raw, mark);
    case DeletePermission(id, now) => PermissionDeleteIff(s, id, now);
    case CreateRole(raw, id) => RoleCreateIff(s, raw, id);
    case UpdateRole(id, raw) => RoleUpdateKeepsGrants(s, id, raw);
    case DeleteRole(id, now) => RoleDeleteIff(s, id, now);
    case AddToRole(id, names, uuids) => RoleAddKeeps(s, id, names, uuids, cascade);
    case RemoveFromRole(id, names) => RoleRemoveKeeps(s, id, names, cascade);
    case CreateUser(name, email, roles, id) => UserCreateIff(s, name, email, roles, id, "");
    case UpdateUser(id, name, email, roles) => UserUpdateIff(s, id, name, email, roles, "");
    case DeleteUser(id, now) => UserDeleteEffect(s, id, now, id, "");
  }
}
