/**
 * Permissions, roles and users as the rows a relational store keeps, and each use case as one
 * step on those rows. A row with a deletion mark stays in its table; reads skip it.
 */
module AccessState {
  import opened Wrappers
  import opened JsString

  type Id = nat
  type Time = int

  datatype Permission = Permission(name: string, deletedAt: Option<Time>)
  datatype Role = Role(name: string, permissions: set<Id>, deletedAt: Option<Time>)
  datatype User = User(name: string, email: string, roles: set<Id>, deletedAt: Option<Time>)

  datatype State = State(
    permissions: map<Id, Permission>,
    roles: map<Id, Role>,
    users: map<Id, User>)

  datatype Error =
    | Invalid
    | PermissionNotFound | RoleNotFound | UserNotFound
    | PermissionExists | UserExists
    | HasAssociation
    | DatabaseError

  type Outcome = Option<Error>

  // ---------- names ----------

  function SpaceToUnderscore(c: char): char { if c == ' ' then '_' else c }

  /** The name transform of the permission schema. */
  function PermissionName(raw: string): string {
    ToLower(Map(SpaceToUnderscore, Trim(raw)))
  }

  /** The name transform of the role schema. */
  function RoleName(raw: string): string {
    ToUpper(Map(SpaceToUnderscore, Trim(raw)))
  }

  predicate ValidPermissionName(name: string) { ':' in name }

  /** No white space at the ends and no spaces inside. */
  predicate CleanName(name: string) { Trimmed(name) && ' ' !in name }

  predicate StoredPermissionName(name: string) {
    CleanName(name) && ValidPermissionName(name) && forall c :: c in name ==> !IsUpper(c)
  }

  predicate StoredRoleName(name: string) {
    CleanName(name) && forall c :: c in name ==> !IsLower(c)
  }

  /**
   * The transforms give exactly the names that are clean and of one case: what comes out is such
   * a name, and such a name, parsed again, comes out unharmed.
   */
  lemma NamesAreFixedPoints(raw: string)
    ensures ValidPermissionName(PermissionName(raw)) ==> StoredPermissionName(PermissionName(raw))
    ensures StoredRoleName(RoleName(raw))
    ensures StoredPermissionName(raw) <==> PermissionName(raw) == raw && ValidPermissionName(raw)
    ensures StoredRoleName(raw) <==> RoleName(raw) == raw
  {
    hide *;
    PermissionNameIsFixed(raw);
    RoleNameIsFixed(raw);
  }

  /** Letter by letter: the trimmed text, spaces as underscores, in small letters or in capitals. */
  lemma NamesLetterByLetter(raw: string, i: nat)
    ensures |PermissionName(raw)| == |RoleName(raw)| == |Trim(raw)|
    ensures i < |Trim(raw)| && Trim(raw)[i] == ' ' ==> PermissionName(raw)[i] == '_' && RoleName(raw)[i] == '_'
    ensures i < |Trim(raw)| && Trim(raw)[i] != ' ' ==>
              PermissionName(raw)[i] == LowerChar(Trim(raw)[i]) && RoleName(raw)[i] == UpperChar(Trim(raw)[i])
    ensures ValidPermissionName(raw) <==> exists k :: 0 <= k < |raw| && raw[k] == ':'
  {
    hide Trim;
  }

  lemma PermissionNameIsFixed(raw: string)
    ensures ValidPermissionName(PermissionName(raw)) ==> StoredPermissionName(PermissionName(raw))
    ensures StoredPermissionName(raw) <==> PermissionName(raw) == raw && ValidPermissionName(raw)
  {
    hide Trim, Map;
    TransformsClean(raw, LowerChar);
    if StoredPermissionName(raw) {
      CleanIsFixed(raw, LowerChar);
    }
    var p := PermissionName(raw);
    forall c | c in p ensures !IsUpper(c) {
      var i :| 0 <= i < |p| && p[i] == c;
    }
  }

  lemma RoleNameIsFixed(raw: string)
    ensures StoredRoleName(RoleName(raw))
    ensures StoredRoleName(raw) <==> RoleName(raw) == raw
  {
    hide Trim, Map;
    TransformsClean(raw, UpperChar);
    if StoredRoleName(raw) {
      CleanIsFixed(raw, UpperChar);
    }
    var r := RoleName(raw);
    forall c | c in r ensures !IsLower(c) {
      var i :| 0 <= i < |r| && r[i] == c;
    }
  }

  lemma TransformsClean(raw: string, letters: char -> char)
    requires forall c :: (IsSpace(letters(c)) <==> IsSpace(c)) && (letters(c) == ' ' <==> c == ' ')
    ensures CleanName(Map(letters, Map(SpaceToUnderscore, Trim(raw))))
  {
    hide Trim;
    var t := Trim(raw);
    TrimIsTrimmed(raw);
    var u := Map(SpaceToUnderscore, t);
    var name := Map(letters, u);
    if t != [] {
      assert u[0] == t[0] && u[|t| - 1] == t[|t| - 1];
    }
    forall i | 0 <= i < |name| ensures name[i] != ' ' {
      assert u[i] != ' ';
    }
  }

  lemma CleanIsFixed(name: string, letters: char -> char)
    requires CleanName(name) && forall c :: c in name ==> letters(c) == c
    ensures Map(letters, Map(SpaceToUnderscore, Trim(name))) == name
  {
    hide Trim;
    TrimIsTrimmed(name);
    assert forall i :: 0 <= i < |name| ==> name[i] in name;
    MapFixed(SpaceToUnderscore, name);
    MapFixed(letters, name);
  }

  lemma MapFixed(f: char -> char, s: string)
    requires forall i :: 0 <= i < |s| ==> f(s[i]) == s[i]
    ensures Map(f, s) == s
  {
  }

  // ---------- reads ----------

  predicate LivePermission(s: State, id: Id) {
    id in s.permissions && s.permissions[id].deletedAt.None?
  }

  predicate LiveRole(s: State, id: Id) {
    id in s.roles && s.roles[id].deletedAt.None?
  }

  predicate LiveUser(s: State, id: Id) {
    id in s.users && s.users[id].deletedAt.None?
  }

  /** A live permission other than `except` has this name. */
  predicate PermissionNamed(s: State, name: string, except: Option<Id>) {
    exists id :: id in s.permissions && LivePermission(s, id) && s.permissions[id].name == name && Some(id) != except
  }

  predicate EmailTaken(s: State, email: string, except: Option<Id>) {
    exists id :: id in s.users && LiveUser(s, id) && s.users[id].email == email && Some(id) != except
  }

  /** A permission as it sits in a role entity: its id and its name. */
  datatype Held = Held(id: Id, name: string)

  /** The eager relation of a role read: its live permissions. */
  function LoadedPermissions(s: State, role: Id): set<Held>
    requires role in s.roles
  {
    set id | id in s.roles[role].permissions && LivePermission(s, id) :: Held(id, s.permissions[id].name)
  }

  /** `findIn({ name })` on roles: the live rows whose name is listed. */
  function RolesNamed(s: State, names: seq<string>): set<Id> {
    set id | id in s.roles && LiveRole(s, id) && s.roles[id].name in names
  }

  /** The relation of a user read: the live roles of the user. */
  function LoadedRoles(s: State, user: Id): set<Id>
    requires user in s.users
  {
    set id | id in s.users[user].roles && LiveRole(s, id)
  }

  function Ids(held: set<Held>): set<Id> { set h | h in held :: h.id }

  function Names(held: set<Held>): set<string> { set h | h in held :: h.name }

  // ---------- writes, with the constraints the tables declare ----------

  /** Another permission row, deleted or not, already has the name: the column is unique. */
  predicate PermissionNameClash(s: State, id: Id, name: string) {
    exists other :: other in s.permissions && other != id && s.permissions[other].name == name
  }

  predicate RoleNameClash(s: State, id: Id, name: string) {
    exists other :: other in s.roles && other != id && s.roles[other].name == name
  }

  function SavePermission(s: State, id: Id, row: Permission): (State, Outcome) {
    if PermissionNameClash(s, id, row.name) then (s, Some(DatabaseError))
    else (s.(permissions := s.permissions[id := row]), None)
  }

  /** Saves a role with its association; a permission id without a row breaks the foreign key. */
  function SaveRole(s: State, id: Id, row: Role): (State, Outcome) {
    if RoleNameClash(s, id, row.name) || !(row.permissions <= s.permissions.Keys) then (s, Some(DatabaseError))
    else (s.(roles := s.roles[id := row]), None)
  }

  predicate NewRowsClash(s: State, held: set<Held>) {
    || (exists h :: h in held && h.id !in s.permissions && PermissionNameClash(s, h.id, h.name))
    || (exists h, h' :: (h in held && h' in held && h.id !in s.permissions && h'.id !in s.permissions
                         && h != h' && (h.name == h'.name || h.id == h'.id)))
  }

  /** The rows of held permissions the store has not seen yet. */
  ghost function WithNewRows(s: State, held: set<Held>): State
    requires !NewRowsClash(s, held)
  {
    var added := set h | h in held && h.id !in s.permissions :: h.id;
    s.(permissions := s.permissions + map id | id in added :: Permission(NameOf(held, id), None))
  }

  ghost function NameOf(held: set<Held>, id: Id): string
    requires exists h :: h in held && h.id == id
    requires forall h, h' :: h in held && h' in held && h.id == h'.id == id ==> h == h'
  {
    var h :| h in held && h.id == id;
    h.name
  }

  /**
   * Saves a role entity. `cascade` says whether the store inserts permissions it has no row
   * for; without it such a permission is a dangling reference.
   */
  ghost function SaveRoleEntity(s: State, id: Id, name: string, held: set<Held>, cascade: bool): (State, Outcome) {
    if cascade && NewRowsClash(s, held) then (s, Some(DatabaseError))
    else
      var s' := if cascade then WithNewRows(s, held) else s;
      var (s'', e) := SaveRole(s', id, Role(name, Ids(held), None));
      if e.Some? then (s, e) else (s'', None)
  }

  // ---------- use cases ----------

  function PermissionCreate(s: State, raw: string, id: Id): (State, Outcome) {
    var name := PermissionName(raw);
    if !ValidPermissionName(name) then (s, Some(Invalid))
    else if PermissionNamed(s, name, None) then (s, Some(PermissionExists))
    else SavePermission(s, id, Permission(name, None))
  }

  /** Besides the name, the update schema lets the caller set the deletion mark itself. */
  function PermissionUpdate(s: State, id: Id, raw: Option<string>, mark: Option<Option<Time>>): (State, Outcome) {
    if raw.Some? && !ValidPermissionName(PermissionName(raw.value)) then (s, Some(Invalid))
    else if !LivePermission(s, id) then (s, Some(PermissionNotFound))
    else
      var row := s.permissions[id];
      var name := if raw.Some? then PermissionName(raw.value) else row.name;
      if raw.Some? && PermissionNamed(s, name, Some(id)) then (s, Some(PermissionExists))
      else SavePermission(s, id, Permission(name, if mark.Some? then mark.value else row.deletedAt))
  }

  /** The live roles that hold a permission: the relation read before deleting it. */
  function HoldersOf(s: State, id: Id): set<Id> {
    set r | r in s.roles && LiveRole(s, r) && id in s.roles[r].permissions
  }

  function PermissionDelete(s: State, id: Id, now: Time): (State, Outcome) {
    if !LivePermission(s, id) then (s, Some(PermissionNotFound))
    else if HoldersOf(s, id) != {} then (s, Some(HasAssociation))
    else SavePermission(s, id, s.permissions[id].(deletedAt := Some(now)))
  }

  function RoleCreate(s: State, raw: string, id: Id): (State, Outcome) {
    SaveRole(s, id, Role(RoleName(raw), {}, None))
  }

  function RoleUpdate(s: State, id: Id, raw: Option<string>): (State, Outcome) {
    if !LiveRole(s, id) then (s, Some(RoleNotFound))
    else
      var name := if raw.Some? then RoleName(raw.value) else s.roles[id].name;
      SaveRole(s, id, Role(name, Ids(LoadedPermissions(s, id)), None))
  }

  function RoleDelete(s: State, id: Id, now: Time): (State, Outcome) {
    if !LiveRole(s, id) then (s, Some(RoleNotFound))
    else if LoadedPermissions(s, id) != {} then (s, Some(HasAssociation))
    else SaveRole(s, id, Role(s.roles[id].name, {}, Some(now)))
  }

  /** What one requested name stands for: the live row of exactly that name, or a new entity. */
  ghost function Resolve(s: State, name: string, uuid: Id): Result<Held, Error> {
    if exists id :: id in s.permissions && LivePermission(s, id) && s.permissions[id].name == name then
      var id :| id in s.permissions && LivePermission(s, id) && s.permissions[id].name == name;
      Ok(Held(id, name))
    else if ValidPermissionName(PermissionName(name)) then Ok(Held(uuid, PermissionName(name)))
    else Err(Invalid)
  }

  /** `addPermission`: a name the role holds already is not added again. */
  function AddHeld(held: set<Held>, p: Held): set<Held> {
    if exists h :: h in held && h.name == p.name then held else held + {p}
  }

  ghost function AddNames(s: State, held: set<Held>, names: seq<string>, uuids: seq<Id>): Result<set<Held>, Error>
    requires |uuids| == |names|
    decreases names
  {
    if names == [] then Ok(held)
    else
      var p := Resolve(s, names[0], uuids[0]);
      if p.Err? then Err(p.error)
      else AddNames(s, AddHeld(held, p.value), names[1..], uuids[1..])
  }

  ghost function RoleAddPermission(
    s: State, id: Id, names: seq<string>, uuids: seq<Id>, cascade: bool): (State, Outcome)
    requires |uuids| == |names|
  {
    if !LiveRole(s, id) then (s, Some(RoleNotFound))
    else
      var held := AddNames(s, LoadedPermissions(s, id), names, uuids);
      if held.Err? then (s, Some(held.error))
      else SaveRoleEntity(s, id, s.roles[id].name, held.value, cascade)
  }

  /** A requested name that no live permission has is skipped; the others are filtered out. */
  function RemoveNames(s: State, held: set<Held>, names: seq<string>): set<Held>
    decreases names
  {
    if names == [] then held
    else
      var rest := if PermissionNamed(s, names[0], None) then set h | h in held && h.name != names[0] else held;
      RemoveNames(s, rest, names[1..])
  }

  ghost function RoleDeletePermission(s: State, id: Id, names: seq<string>, cascade: bool): (State, Outcome) {
    if !LiveRole(s, id) then (s, Some(RoleNotFound))
    else SaveRoleEntity(s, id, s.roles[id].name, RemoveNames(s, LoadedPermissions(s, id), names), cascade)
  }

  const ROLE_ENUM: set<string> := {"USER", "BACKOFFICE"}

  function UserCreate(s: State, name: string, email: string, roles: seq<string>, id: Id): (State, Outcome) {
    if roles == [] || exists r :: r in roles && r !in ROLE_ENUM then (s, Some(Invalid))
    else if |RolesNamed(s, roles)| < |roles| then (s, Some(RoleNotFound))
    else if EmailTaken(s, email, None) then (s, Some(UserExists))
    else (s.(users := s.users[id := User(name, email, RolesNamed(s, roles), None)]), None)
  }

  function UserUpdate(
    s: State, id: Id, name: Option<string>, email: Option<string>, roles: Option<seq<string>>): (State, Outcome)
  {
    if roles.Some? && exists r :: r in roles.value && r !in ROLE_ENUM then (s, Some(Invalid))
    else if !LiveUser(s, id) then (s, Some(UserNotFound))
    else if roles.Some? && |RolesNamed(s, roles.value)| < |roles.value| then (s, Some(RoleNotFound))
    else
      var row := s.users[id];
      var row' := User(
        if name.Some? then name.value else row.name,
        if email.Some? then email.value else row.email,
        if roles.Some? then RolesNamed(s, roles.value) else LoadedRoles(s, id),
        None);
      if EmailTaken(s, row'.email, Some(id)) then (s, Some(UserExists))
      else (s.(users := s.users[id := row']), None)
  }

  function UserDelete(s: State, id: Id, now: Time): (State, Outcome) {
    if !LiveUser(s, id) then (s, Some(UserNotFound))
    else (s.(users := s.users[id := s.users[id].(deletedAt := Some(now))]), None)
  }
}
