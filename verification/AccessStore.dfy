/**
 * The use cases as the program runs them: entities whose fields change, and a store whose
 * tables change, each use case proved to take exactly its step of AccessState.
 */
module AccessStore {
  import opened Wrappers
  import opened AccessState
  import opened AccessInvariant
  import opened AccessRuns

  /** A role entity in memory: `permissions` is an array the methods push to and reassign. */
  class RoleEntity {
    const id: Id
    var name: string
    var permissions: seq<Held>

    ghost function Contents(): set<Held>
      reads this
    {
      set h | h in permissions
    }

    constructor (id: Id, name: string, permissions: seq<Held>)
      ensures this.id == id && this.name == name && this.permissions == permissions
    {
      this.id, this.name, this.permissions := id, name, permissions;
    }

    method AddPermission(permission: Held)
      modifies this`permissions
      ensures permissions == if exists h :: h in old(permissions) && h.name == permission.name then old(permissions)
                             else old(permissions) + [permission]
      ensures Contents() == AddHeld(old(Contents()), permission)
    {
      if exists h :: h in permissions && h.name == permission.name {
        return;
      }
      permissions := permissions + [permission];
    }

    method RemovePermissionByName(name: string)
      modifies this`permissions
      ensures Contents() == set h | h in old(Contents()) && h.name != name
      ensures permissions == WithoutName(old(permissions), name)
    {
      WithoutNameMembers(permissions, name);
      permissions := WithoutName(permissions, name);
    }
  }

  function WithoutName(held: seq<Held>, name: string): seq<Held> {
    if held == [] then []
    else (if held[0].name != name then [held[0]] else []) + WithoutName(held[1..], name)
  }

  lemma {:induction false} WithoutNameMembers(held: seq<Held>, name: string)
    ensures forall h :: h in WithoutName(held, name) <==> h in held && h.name != name
  {
    if held != [] {
      WithoutNameMembers(held[1..], name);
      assert held == [held[0]] + held[1..];
    }
  }

  /** In order, and every one of them: filtering two lists in a row filters each. */
  lemma {:induction false} WithoutNameInOrder(a: seq<Held>, b: seq<Held>, name: string)
    ensures WithoutName(a + b, name) == WithoutName(a, name) + WithoutName(b, name)
  {
    if a == [] {
      assert a + b == b && WithoutName(a, name) == [];
    } else {
      hide *;
      var h, rest := a[0], a[1..];
      WithoutNameInOrder(rest, b, name);
      WithoutNameStep(h, rest, name);
      WithoutNameStep(h, rest + b, name);
      assert a == [h] + rest;
      Regroup([h], rest, b);
      Regroup([h], WithoutName(rest, name), WithoutName(b, name));
    }
  }

  lemma Regroup(x: seq<Held>, y: seq<Held>, z: seq<Held>)
    ensures (x + y) + z == x + (y + z)
  {
  }

  lemma WithoutNameStep(h: Held, rest: seq<Held>, name: string)
    ensures WithoutName([h] + rest, name) == if h.name == name then WithoutName(rest, name) else [h] + WithoutName(rest, name)
    ensures WithoutName([], name) == []
  {
    assert ([h] + rest)[1..] == rest;
    assert [] + WithoutName(rest, name) == WithoutName(rest, name);
  }

  class Store {
    var permissions: map<Id, Permission>
    var roles: map<Id, Role>
    var users: map<Id, User>
    /** Whether saving a role inserts the permissions it brings that have no row. */
    const cascade: bool

    ghost function View(): State
      reads this
    {
      State(permissions, roles, users)
    }

    constructor (cascade: bool)
      ensures this.cascade == cascade && View() == State(map[], map[], map[])
    {
      this.cascade := cascade;
      permissions, roles, users := map[], map[], map[];
    }

    // ---------- repository ----------

    method SavePermissionRow(id: Id, row: Permission) returns (e: Outcome)
      modifies this`permissions
      ensures (View(), e) == SavePermission(old(View()), id, row)
    {
      if exists other :: other in permissions && other != id && permissions[other].name == row.name {
        return Some(DatabaseError);
      }
      permissions := permissions[id := row];
      return None;
    }

    method SaveRoleRow(id: Id, row: Role) returns (e: Outcome)
      modifies this`roles
      ensures (View(), e) == SaveRole(old(View()), id, row)
    {
      if (exists other :: other in roles && other != id && roles[other].name == row.name)
         || !(row.permissions <= permissions.Keys) {
        return Some(DatabaseError);
      }
      roles := roles[id := row];
      return None;
    }

    /** A role read with its eager relation, as an entity; the rows come back in some order. */
    method LoadRole(id: Id) returns (entity: RoleEntity)
      requires id in roles
      ensures fresh(entity) && entity.id == id && entity.name == roles[id].name
      ensures entity.Contents() == LoadedPermissions(View(), id)
    {
      var held: seq<Held> := [];
      var rest := roles[id].permissions;
      while rest != {}
        invariant rest <= roles[id].permissions
        invariant forall h :: h in held <==>
                    h.id in roles[id].permissions - rest && LivePermission(View(), h.id)
                      && h.name == permissions[h.id].name
        decreases |rest|
      {
        var p :| p in rest;
        rest := rest - {p};
        if p in permissions && permissions[p].deletedAt.None? {
          held := held + [Held(p, permissions[p].name)];
        }
      }
      entity := new RoleEntity(id, roles[id].name, held);
    }

    /** Inserts one row per permission; `target` is the table this leads to. */
    method InsertRows(added: set<Held>, ghost target: map<Id, Permission>)
      requires forall p :: p in permissions ==> p in target && permissions[p] == target[p]
      requires forall h :: h in added ==> h.id in target && target[h.id] == Permission(h.name, None)
      requires target.Keys == permissions.Keys + Ids(added)
      modifies this`permissions
      ensures permissions == target
    {
      ghost var before := permissions;
      var rest := added;
      while rest != {}
        invariant rest <= added
        invariant forall p :: p in before ==> p in permissions
        invariant forall p :: p in permissions ==> p in target && permissions[p] == target[p]
        invariant forall h :: h in added && h !in rest ==> h.id in permissions
      {
        var h :| h in rest;
        rest := rest - {h};
        permissions := permissions[h.id := Permission(h.name, None)];
      }
      assert forall p :: p in target ==> p in before || p in Ids(added);
    }

    /** Saving a role entity writes its row and its association; all or nothing. */
    method SaveEntity(entity: RoleEntity) returns (e: Outcome)
      modifies this`permissions, this`roles
      ensures (View(), e) == SaveRoleEntity(old(View()), entity.id, entity.name, entity.Contents(), cascade)
    {
      hide WithNewRows, NewRowsClash;
      var held := set h | h in entity.permissions;
      var ids := set h | h in held :: h.id;
      assert held == entity.Contents() && ids == Ids(held);
      var before := permissions;
      if cascade {
        var clash := NewRowsClash(State(permissions, roles, users), held);
        if clash {
          return Some(DatabaseError);
        }
        NewRows(View(), held);
        var added := set h | h in held && h.id !in permissions;
        assert permissions.Keys + Ids(held) == permissions.Keys + Ids(added);
        InsertRows(added, WithNewRows(View(), held).permissions);
      }
      e := SaveRoleRow(entity.id, Role(entity.name, ids, None));
      if e.Some? {
        permissions := before;
      }
    }

    /** `findIn({ name })` on permissions: the live rows whose name is listed. */
    function PermissionsNamed(names: seq<string>): set<Id>
      reads this
    {
      set id | id in permissions && permissions[id].deletedAt.None? && permissions[id].name in names
    }

    // ---------- permission use cases ----------

    method CreatePermission(raw: string, uuid: Id) returns (e: Outcome)
      modifies this`permissions
      ensures (View(), e) == PermissionCreate(old(View()), raw, uuid)
    {
      var name := PermissionName(raw);
      if ':' !in name {
        return Some(Invalid);
      }
      if exists id :: id in permissions && permissions[id].deletedAt.None? && permissions[id].name == name {
        assert PermissionNamed(View(), name, None);
        return Some(PermissionExists);
      }
      e := SavePermissionRow(uuid, Permission(name, None));
    }

    method UpdatePermission(id: Id, raw: Option<string>, mark: Option<Option<Time>>) returns (e: Outcome)
      modifies this`permissions
      ensures (View(), e) == PermissionUpdate(old(View()), id, raw, mark)
    {
      if raw.Some? && ':' !in PermissionName(raw.value) {
        return Some(Invalid);
      }
      if id !in permissions || permissions[id].deletedAt.Some? {
        return Some(PermissionNotFound);
      }
      var row := permissions[id];
      if raw.Some? {
        var name := PermissionName(raw.value);
        var others := set p | p in permissions && permissions[p].deletedAt.None? && p != id;
        if exists other :: other in others && permissions[other].name == name {
          assert PermissionNamed(View(), name, Some(id));
          return Some(PermissionExists);
        }
        row := row.(name := name);
      }
      if mark.Some? {
        row := row.(deletedAt := mark.value);
      }
      e := SavePermissionRow(id, row);
    }

    method DeletePermission(id: Id, now: Time) returns (e: Outcome)
      modifies this`permissions
      ensures (View(), e) == PermissionDelete(old(View()), id, now)
    {
      if id !in permissions || permissions[id].deletedAt.Some? {
        return Some(PermissionNotFound);
      }
      var holders := set r | r in roles && roles[r].deletedAt.None? && id in roles[r].permissions;
      assert holders == HoldersOf(View(), id);
      if holders != {} {
        return Some(HasAssociation);
      }
      e := SavePermissionRow(id, permissions[id].(deletedAt := Some(now)));
    }

    // ---------- role use cases ----------

    method CreateRole(raw: string, uuid: Id) returns (e: Outcome)
      modifies this`roles
      ensures (View(), e) == RoleCreate(old(View()), raw, uuid)
    {
      e := SaveRoleRow(uuid, Role(RoleName(raw), {}, None));
    }

    method UpdateRole(id: Id, raw: Option<string>) returns (e: Outcome)
      modifies this`roles
      ensures (View(), e) == RoleUpdate(old(View()), id, raw)
    {
      if id !in roles || roles[id].deletedAt.Some? {
        return Some(RoleNotFound);
      }
      var entity: RoleEntity := LoadRole(id);
      if raw.Some? {
        entity.name := RoleName(raw.value);
      }
      var ids := set h | h in entity.permissions :: h.id;
      assert ids == Ids(entity.Contents());
      e := SaveRoleRow(id, Role(entity.name, ids, None));
    }

    method DeleteRole(id: Id, now: Time) returns (e: Outcome)
      modifies this`roles
      ensures (View(), e) == RoleDelete(old(View()), id, now)
    {
      if id !in roles || roles[id].deletedAt.Some? {
        return Some(RoleNotFound);
      }
      var entity: RoleEntity := LoadRole(id);
      assert entity.permissions != [] ==> entity.permissions[0] in entity.Contents();
      if entity.permissions != [] {
        return Some(HasAssociation);
      }
      e := SaveRoleRow(id, Role(entity.name, {}, Some(now)));
    }

    /** The add loop; the uuids are what the generator hands out, one per requested name. */
    method AddPermissionsToRole(id: Id, names: seq<string>, uuids: seq<Id>) returns (e: Outcome)
      requires |uuids| == |names|
      requires UniqueNames(View())
      modifies this`permissions, this`roles
      ensures (View(), e) == RoleAddPermission(old(View()), id, names, uuids, cascade)
    {
      if id !in roles || roles[id].deletedAt.Some? {
        return Some(RoleNotFound);
      }
      var entity: RoleEntity := LoadRole(id);
      var found := PermissionsNamed(names);
      var i := 0;
      while i < |names|
        modifies entity`permissions
        invariant 0 <= i <= |names|
        invariant entity.name == roles[id].name
        invariant AddNames(View(), entity.Contents(), names[i..], uuids[i..])
                  == AddNames(View(), LoadedPermissions(View(), id), names, uuids)
      {
        ghost var p := Resolve(View(), names[i], uuids[i]);
        assert names[i..][0] == names[i] && names[i..][1..] == names[i + 1..];
        assert uuids[i..][0] == uuids[i] && uuids[i..][1..] == uuids[i + 1..];
        if exists row :: row in found && permissions[row].name == names[i] {
          var row :| row in found && permissions[row].name == names[i];
          assert LivePermission(View(), row);
          entity.AddPermission(Held(row, names[i]));
        } else {
          assert forall row ::
              LivePermission(View(), row) && permissions[row].name == names[i] ==> row in found;
          var name := PermissionName(names[i]);
          if ':' !in name {
            return Some(Invalid);
          }
          entity.AddPermission(Held(uuids[i], name));
        }
        i := i + 1;
      }
      e := SaveEntity(entity);
    }

    method RemovePermissionsFromRole(id: Id, names: seq<string>) returns (e: Outcome)
      modifies this`permissions, this`roles
      ensures (View(), e) == RoleDeletePermission(old(View()), id, names, cascade)
    {
      if id !in roles || roles[id].deletedAt.Some? {
        return Some(RoleNotFound);
      }
      var entity: RoleEntity := LoadRole(id);
      var found := PermissionsNamed(names);
      var i := 0;
      while i < |names|
        modifies entity`permissions
        invariant 0 <= i <= |names|
        invariant entity.name == roles[id].name
        invariant RemoveNames(View(), entity.Contents(), names[i..])
                  == RemoveNames(View(), LoadedPermissions(View(), id), names)
      {
        assert names[i..][0] == names[i] && names[i..][1..] == names[i + 1..];
        assert PermissionNamed(View(), names[i], None) <==>
          exists row :: row in found && permissions[row].name == names[i];
        if exists row :: row in found && permissions[row].name == names[i] {
          entity.RemovePermissionByName(names[i]);
        }
        i := i + 1;
      }
      e := SaveEntity(entity);
    }

    // ---------- user use cases ----------

    function RolesNamedIn(names: seq<string>): set<Id>
      reads this
    {
      set id | id in roles && roles[id].deletedAt.None? && roles[id].name in names
    }

    method CreateUser(name: string, email: string, roleNames: seq<string>, uuid: Id) returns (e: Outcome)
      modifies this`users
      ensures (View(), e) == UserCreate(old(View()), name, email, roleNames, uuid)
    {
      if roleNames == [] || exists r :: r in roleNames && r !in ROLE_ENUM {
        return Some(Invalid);
      }
      var found := RolesNamedIn(roleNames);
      assert found == RolesNamed(View(), roleNames);
      if |found| < |roleNames| {
        return Some(RoleNotFound);
      }
      if exists id :: id in users && users[id].deletedAt.None? && users[id].email == email {
        assert EmailTaken(View(), email, None);
        return Some(UserExists);
      }
      users := users[uuid := User(name, email, found, None)];
      return None;
    }

    method UpdateUser(
      id: Id, name: Option<string>, email: Option<string>, roleNames: Option<seq<string>>) returns (e: Outcome)
      modifies this`users
      ensures (View(), e) == UserUpdate(old(View()), id, name, email, roleNames)
    {
      if roleNames.Some? && exists r :: r in roleNames.value && r !in ROLE_ENUM {
        return Some(Invalid);
      }
      if id !in users || users[id].deletedAt.Some? {
        return Some(UserNotFound);
      }
      var found := set r | r in users[id].roles && r in roles && roles[r].deletedAt.None?;
      assert found == LoadedRoles(View(), id);
      if roleNames.Some? {
        found := RolesNamedIn(roleNames.value);
        assert found == RolesNamed(View(), roleNames.value);
        if |found| < |roleNames.value| {
          return Some(RoleNotFound);
        }
      }
      var entity := users[id].(roles := found);
      if name.Some? {
        entity := entity.(name := name.value);
      }
      if email.Some? {
        entity := entity.(email := email.value);
      }
      var others := set u | u in users && users[u].deletedAt.None? && u != id;
      if exists other :: other in others && users[other].email == entity.email {
        assert EmailTaken(View(), entity.email, Some(id));
        return Some(UserExists);
      }
      users := users[id := entity];
      return None;
    }

    method DeleteUser(id: Id, now: Time) returns (e: Outcome)
      modifies this`users
      ensures (View(), e) == UserDelete(old(View()), id, now)
    {
      if id !in users || users[id].deletedAt.Some? {
        return Some(UserNotFound);
      }
      users := users[id := users[id].(deletedAt := Some(now))];
      return None;
    }

    // ---------- serving requests ----------

    /** One request after the other; the store goes through the states of the run. */
    method Serve(steps: seq<Step>)
      requires Inv(View()) && AdmissibleRun(View(), steps, cascade)
      modifies this
      ensures View() == Run(old(View()), steps, cascade) && Inv(View())
    {
      hide Inv, Next, Admissible;
      ghost var start := View();
      RunKeeps(start, steps, cascade);
      for i := 0 to |steps|
        invariant Inv(View()) && AdmissibleRun(View(), steps[i..], cascade)
        invariant Run(View(), steps[i..], cascade) == Run(start, steps, cascade)
      {
        assert steps[i..][0] == steps[i] && steps[i..][1..] == steps[i + 1..];
        StepKeeps(View(), steps[i], cascade);
        var _ := Take(steps[i]);
      }
    }

    method Take(step: Step) returns (e: Outcome)
      requires Inv(View()) && Admissible(View(), step)
      modifies this
      ensures (View(), e) == Next(old(View()), step, cascade)
    {
      match step
      case CreatePermission(raw, uuid) => e := CreatePermission(raw, uuid);
      case UpdatePermission(id, raw, mark) => e := UpdatePermission(id, raw, mark);
      case DeletePermission(id, now) => e := DeletePermission(id, now);
      case CreateRole(raw, uuid) => e := CreateRole(raw, uuid);
      case UpdateRole(id, raw) => e := UpdateRole(id, raw);
      case DeleteRole(id, now) => e := DeleteRole(id, now);
      case AddToRole(id, names, uuids) => e := AddPermissionsToRole(id, names, uuids);
      case RemoveFromRole(id, names) => e := RemovePermissionsFromRole(id, names);
      case CreateUser(name, email, roleNames, uuid) => e := CreateUser(name, email, roleNames, uuid);
      case UpdateUser(id, name, email, roleNames) => e := UpdateUser(id, name, email, roleNames);
      case DeleteUser(id, now) => e := DeleteUser(id, now);
    }
  }
}
