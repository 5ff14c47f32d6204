/**
 * What every use case keeps, over every run: the rules that no single use case could keep alone.
 */
module AccessInvariant {
  import opened Wrappers
  import opened AccessState

  // ---------- the invariant ----------

  ghost predicate UniqueNames(s: State) {
    && (forall p, q ::
          p in s.permissions && q in s.permissions && s.permissions[p].name == s.permissions[q].name ==> p == q)
    && (forall r, t :: r in s.roles && t in s.roles && s.roles[r].name == s.roles[t].name ==> r == t)
  }

  ghost predicate References(s: State) {
    && (forall r :: r in s.roles ==> s.roles[r].permissions <= s.permissions.Keys)
    && (forall u :: u in s.users ==> s.users[u].roles <= s.roles.Keys)
  }

  ghost predicate NormalNames(s: State) {
    && (forall p :: p in s.permissions ==> StoredPermissionName(s.permissions[p].name))
    && (forall r :: r in s.roles ==> StoredRoleName(s.roles[r].name))
  }

  ghost predicate DistinctEmails(s: State) {
    forall u, v :: (u in s.users && v in s.users && LiveUser(s, u) && LiveUser(s, v)
                    && s.users[u].email == s.users[v].email) ==> u == v
  }

  /** No deleted role holds a permission. */
  ghost predicate DeletedRolesHoldNothing(s: State) {
    forall r :: r in s.roles && !LiveRole(s, r) ==> s.roles[r].permissions == {}
  }

  /** No role holds a deleted permission. */
  ghost predicate HeldPermissionsLive(s: State) {
    forall r, p {:trigger p in s.roles[r].permissions} ::
      r in s.roles && p in s.roles[r].permissions ==> LivePermission(s, p)
  }

  /** The rules between rows. */
  ghost predicate Consistent(s: State) {
    && UniqueNames(s) && References(s) && DistinctEmails(s)
    && DeletedRolesHoldNothing(s) && HeldPermissionsLive(s)
  }

  ghost predicate Inv(s: State) { Consistent(s) && NormalNames(s) }

  /** Consequence: within a role, permission names are pairwise distinct. */
  lemma RoleNamesDistinct(s: State, r: Id, h: Held, h': Held)
    requires Consistent(s) && r in s.roles
    requires h in LoadedPermissions(s, r) && h' in LoadedPermissions(s, r) && h.name == h'.name
    ensures h == h'
  {
  }

  /** In such a state a role read loses nothing: every stored id comes back. */
  lemma LoadsAll(s: State, r: Id)
    requires Consistent(s) && r in s.roles
    ensures Ids(LoadedPermissions(s, r)) == s.roles[r].permissions
  {
    forall p | p in s.roles[r].permissions ensures p in Ids(LoadedPermissions(s, r)) {
      assert Held(p, s.permissions[p].name) in LoadedPermissions(s, r);
    }
  }

  // ---------- permission steps ----------

  lemma PermissionCreateKeeps(s: State, raw: string, id: Id)
    requires Inv(s) && id !in s.permissions
    ensures Inv(PermissionCreate(s, raw, id).0)
  {
    hide PermissionName, RoleName, ValidPermissionName, StoredPermissionName, StoredRoleName;
    NamesAreFixedPoints(raw);
  }

  lemma PermissionDeleteKeeps(s: State, id: Id, now: Time)
    requires Inv(s)
    ensures Inv(PermissionDelete(s, id, now).0)
  {
    if LivePermission(s, id) && HoldersOf(s, id) == {} {
      forall r | r in s.roles ensures id !in s.roles[r].permissions {
        assert r !in HoldersOf(s, id);
      }
    }
  }

  /** Some role, deleted or not, holds the permission. */
  ghost predicate IsHeld(s: State, id: Id) {
    exists r :: r in s.roles && id in s.roles[r].permissions
  }

  predicate SetsMark(mark: Option<Option<Time>>) { mark.Some? && mark.value.Some? }

  /**
   * An accepted update keeps the invariant exactly when it does not put a deletion mark on a
   * permission that a role holds: the delete use case checks that, the update does not.
   */
  lemma PermissionUpdateKeepsIff(s: State, id: Id, raw: Option<string>, mark: Option<Option<Time>>)
    requires Inv(s)
    ensures PermissionUpdate(s, id, raw, mark).1.Some? ==> PermissionUpdate(s, id, raw, mark).0 == s
    ensures PermissionUpdate(s, id, raw, mark).1.None? ==>
              (Inv(PermissionUpdate(s, id, raw, mark).0) <==> !(SetsMark(mark) && IsHeld(s, id)))
  {
    var (s', e) := PermissionUpdate(s, id, raw, mark);
    if e.None? {
      if SetsMark(mark) && IsHeld(s, id) {
        var r :| r in s.roles && id in s.roles[r].permissions;
        assert s'.roles == s.roles && !LivePermission(s', id);
        assert !HeldPermissionsLive(s');
      } else {
        HarmlessUpdateKeeps(s, id, raw, mark);
      }
    }
  }

  lemma HarmlessUpdateKeeps(s: State, id: Id, raw: Option<string>, mark: Option<Option<Time>>)
    requires Inv(s) && PermissionUpdate(s, id, raw, mark).1.None?
    requires !(SetsMark(mark) && IsHeld(s, id))
    ensures Inv(PermissionUpdate(s, id, raw, mark).0)
  {
    hide PermissionName, RoleName, ValidPermissionName, StoredPermissionName, StoredRoleName;
    hide Consistent;
    if raw.Some? {
      NamesAreFixedPoints(raw.value);
    }
    HarmlessUpdateConsistent(s, id, raw, mark);
  }

  lemma HarmlessUpdateConsistent(s: State, id: Id, raw: Option<string>, mark: Option<Option<Time>>)
    requires Consistent(s) && PermissionUpdate(s, id, raw, mark).1.None?
    requires !(SetsMark(mark) && IsHeld(s, id))
    ensures Consistent(PermissionUpdate(s, id, raw, mark).0)
  {
    var s' := PermissionUpdate(s, id, raw, mark).0;
    assert s' == s.(permissions := s.permissions[id := s'.permissions[id]]);
    assert !PermissionNameClash(s, id, s'.permissions[id].name);
    hide PermissionUpdate;
    assert UniqueNames(s');
    assert HeldPermissionsLive(s');
  }

  lemma SampleNames()
    ensures StoredPermissionName("a:b") && StoredRoleName("R")
  {
    var name := "a:b";
    assert name[1] == ':';
  }

  /** A live permission, a live role that holds it, and nobody else. */
  const ONE_ROLE_ONE_PERMISSION: State :=
    State(map[0 := Permission("a:b", None)], map[1 := Role("R", {0}, None)], map[])

  /** Updating this permission with nothing but a deletion mark leaves a role holding a deleted permission. */
  lemma PermissionUpdateCanBreak(now: Time)
    ensures Inv(ONE_ROLE_ONE_PERMISSION)
    ensures PermissionUpdate(ONE_ROLE_ONE_PERMISSION, 0, None, Some(Some(now))) ==
            (ONE_ROLE_ONE_PERMISSION.(permissions := map[0 := Permission("a:b", Some(now))]), None)
    ensures !HeldPermissionsLive(PermissionUpdate(ONE_ROLE_ONE_PERMISSION, 0, None, Some(Some(now))).0)
  {
    SampleNames();
    var s := ONE_ROLE_ONE_PERMISSION;
    assert s.permissions[0 := Permission("a:b", Some(now))] == map[0 := Permission("a:b", Some(now))];
    assert 0 in s.roles[1].permissions;
  }

  // ---------- role steps ----------

  lemma SaveRoleKeeps(s: State, id: Id, row: Role)
    requires Inv(s)
    requires StoredRoleName(row.name)
    requires forall p :: p in row.permissions && p in s.permissions ==> LivePermission(s, p)
    requires row.deletedAt.Some? ==> row.permissions == {}
    ensures Inv(SaveRole(s, id, row).0)
  {
  }

  lemma RoleCreateKeeps(s: State, raw: string, id: Id)
    requires Inv(s) && id !in s.roles
    ensures Inv(RoleCreate(s, raw, id).0)
  {
    NamesAreFixedPoints(raw);
    SaveRoleKeeps(s, id, Role(RoleName(raw), {}, None));
  }

  lemma RoleUpdateKeeps(s: State, id: Id, raw: Option<string>)
    requires Inv(s)
    ensures Inv(RoleUpdate(s, id, raw).0)
  {
    if LiveRole(s, id) {
      LoadsAll(s, id);
      if raw.Some? {
        NamesAreFixedPoints(raw.value);
      }
      var name := if raw.Some? then RoleName(raw.value) else s.roles[id].name;
      SaveRoleKeeps(s, id, Role(name, Ids(LoadedPermissions(s, id)), None));
    }
  }

  lemma RoleDeleteKeeps(s: State, id: Id, now: Time)
    requires Inv(s)
    ensures Inv(RoleDelete(s, id, now).0)
  {
    if LiveRole(s, id) {
      SaveRoleKeeps(s, id, Role(s.roles[id].name, {}, Some(now)));
    }
  }

  // ---------- adding and removing permissions ----------

  /** The new ids are ids of nothing yet, and no two are equal. */
  ghost predicate Unused(s: State, uuids: seq<Id>) {
    && (forall u :: u in uuids ==> u !in s.permissions)
    && (forall i, j :: 0 <= i < j < |uuids| ==> uuids[i] != uuids[j])
  }

  /** An entity whose permissions are live rows under their own names, or new ones. */
  ghost predicate GoodEntity(s: State, held: set<Held>) {
    && (forall h :: h in held && h.id in s.permissions ==>
          LivePermission(s, h.id) && s.permissions[h.id].name == h.name)
    && (forall h :: h in held ==> StoredPermissionName(h.name))
    && (forall h, h' :: h in held && h' in held && (h.id == h'.id || h.name == h'.name) ==> h == h')
  }

  lemma ResolveIsGood(s: State, name: string, uuid: Id)
    requires Inv(s) && Resolve(s, name, uuid).Ok?
    ensures var p := Resolve(s, name, uuid).value;
            && p.name == PermissionName(name)
            && StoredPermissionName(p.name)
            && (p.id in s.permissions && p.id != uuid ==> LivePermission(s, p.id) && s.permissions[p.id].name == p.name)
            && (p.id in s.permissions || p.id == uuid)
  {
    NamesAreFixedPoints(name);
  }

  /**
   * The add loop: afterwards the names are the old ones plus the normalised request, and the
   * entity is fit to be saved.
   */
  lemma {:induction false} AddNamesAddsExactly(s: State, held: set<Held>, names: seq<string>, uuids: seq<Id>)
    requires Inv(s) && |uuids| == |names| && Unused(s, uuids)
    requires GoodEntity(s, held) && forall h :: h in held ==> h.id !in uuids
    requires AddNames(s, held, names, uuids).Ok?
    ensures var after := AddNames(s, held, names, uuids).value;
            && GoodEntity(s, after)
            && held <= after
            && Names(after) == Names(held) + set n | n in names :: PermissionName(n)
    decreases names
  {
    hide PermissionName, RoleName, ValidPermissionName, StoredPermissionName, StoredRoleName;
    if names != [] {
      hide Inv, GoodEntity, Resolve, AddHeld, Names;
      var p := Resolve(s, names[0], uuids[0]).value;
      var next := AddHeld(held, p);
      assert uuids[0] in uuids && uuids[0] !in s.permissions;
      AddOneIsGood(s, held, names[0], uuids[0]);
      assert forall u :: u in uuids[1..] ==> u in uuids && u != uuids[0];
      AddNamesAddsExactly(s, next, names[1..], uuids[1..]);
      assert (set n | n in names :: PermissionName(n)) ==
             {PermissionName(names[0])} + set n | n in names[1..] :: PermissionName(n) by {
        assert names == [names[0]] + names[1..];
      }
    }
  }

  lemma AddOneIsGood(s: State, held: set<Held>, name: string, uuid: Id)
    requires Inv(s) && GoodEntity(s, held) && uuid !in s.permissions && forall h :: h in held ==> h.id != uuid
    requires Resolve(s, name, uuid).Ok?
    ensures var next := AddHeld(held, Resolve(s, name, uuid).value);
            && GoodEntity(s, next) && held <= next
            && Names(next) == Names(held) + {PermissionName(name)}
            && forall h :: h in next ==> h in held || h.id in s.permissions || h.id == uuid
  {
    hide Inv, Resolve;
    var p := Resolve(s, name, uuid).value;
    ResolveIsGood(s, name, uuid);
    var next := AddHeld(held, p);
    assert next == held || next == held + {p};
  }

  lemma LoadedIsGood(s: State, r: Id)
    requires Inv(s) && r in s.roles
    ensures GoodEntity(s, LoadedPermissions(s, r))
  {
  }

  /** Saving a good entity keeps the invariant and stores exactly that entity. */
  lemma SaveEntityKeeps(s: State, id: Id, held: set<Held>, cascade: bool)
    requires Inv(s) && LiveRole(s, id) && GoodEntity(s, held)
    ensures var (s', e) := SaveRoleEntity(s, id, s.roles[id].name, held, cascade);
            && Inv(s')
            && (e.Some? ==> s' == s)
            && (e.None? ==> LiveRole(s', id) && LoadedPermissions(s', id) == held)
            && (e.None? ==> s'.users == s.users && s'.roles == s.roles[id := Role(s.roles[id].name, Ids(held), None)])
            && (e.None? ==> forall p :: p in s.permissions ==>
                  p in s'.permissions && s'.permissions[p] == s.permissions[p])
  {
    hide WithNewRows, NewRowsClash;
    var name := s.roles[id].name;
    var (s', e) := SaveRoleEntity(s, id, name, held, cascade);
    if e.None? {
      var mid := if cascade then WithNewRows(s, held) else s;
      if cascade {
        NewRows(s, held);
        NewRowsKeep(s, held);
      }
      assert Ids(held) <= mid.permissions.Keys;
      forall h | h in held ensures LivePermission(mid, h.id) && mid.permissions[h.id].name == h.name {
        assert h.id in Ids(held);
      }
      SaveRoleKeeps(mid, id, Role(name, Ids(held), None));
      assert forall h :: h in held ==> h.id in Ids(held);
      assert LoadedPermissions(s', id) == held;
    }
  }

  /** Which rows are new, and what is in them. */
  lemma NewRows(s: State, held: set<Held>)
    requires !NewRowsClash(s, held)
    ensures var s' := WithNewRows(s, held);
            && s' == s.(permissions := s'.permissions)
            && s'.permissions.Keys == s.permissions.Keys + Ids(held)
            && (forall p :: p in s.permissions ==> s'.permissions[p] == s.permissions[p])
            && (forall h :: h in held && h.id !in s.permissions ==> s'.permissions[h.id] == Permission(h.name, None))
  {
    var s' := WithNewRows(s, held);
    forall h | h in held && h.id !in s.permissions ensures s'.permissions[h.id] == Permission(h.name, None) {
      assert NameOf(held, h.id) == h.name;
    }
  }

  lemma NewRowsUnique(s: State, held: set<Held>)
    requires Inv(s) && GoodEntity(s, held) && !NewRowsClash(s, held)
    ensures UniqueNames(WithNewRows(s, held))
  {
    hide WithNewRows, NormalNames, References, DistinctEmails, DeletedRolesHoldNothing, HeldPermissionsLive;
    NewRows(s, held);
    var s' := WithNewRows(s, held);
    forall p | p in s'.permissions && p !in s.permissions
      ensures exists h :: h in held && h.id == p && s'.permissions[p] == Permission(h.name, None)
    {
      assert p in Ids(held);
    }
  }

  lemma NewRowsKeep(s: State, held: set<Held>)
    requires Inv(s) && GoodEntity(s, held) && !NewRowsClash(s, held)
    ensures var s' := WithNewRows(s, held);
            && Inv(s')
            && (forall h :: h in held ==> LivePermission(s', h.id) && s'.permissions[h.id].name == h.name)
  {
    hide PermissionName, RoleName, ValidPermissionName, StoredPermissionName, StoredRoleName;
    hide WithNewRows;
    NewRows(s, held);
    var s' := WithNewRows(s, held);
    forall p | p in s'.permissions && p !in s.permissions
      ensures exists h :: h in held && h.id == p && s'.permissions[p] == Permission(h.name, None)
    {
      assert p in Ids(held);
    }
    assert forall h :: h in held ==> h.id in Ids(held);
    assert UniqueNames(s') by {
      NewRowsUnique(s, held);
    }
    assert NormalNames(s');
    assert HeldPermissionsLive(s');
  }

  lemma {:induction false} RemoveNamesRemovesExactly(s: State, held: set<Held>, names: seq<string>)
    requires forall h :: h in held ==> LivePermission(s, h.id) && s.permissions[h.id].name == h.name
    ensures RemoveNames(s, held, names) == set h | h in held && h.name !in names
    decreases names
  {
    if names != [] {
      var rest := if PermissionNamed(s, names[0], None) then set h | h in held && h.name != names[0] else held;
      assert rest == set h | h in held && h.name != names[0] by {
        assert forall h :: h in held && h.name == names[0] ==> PermissionNamed(s, names[0], None);
      }
      RemoveNamesRemovesExactly(s, rest, names[1..]);
      assert names == [names[0]] + names[1..];
    }
  }
}
