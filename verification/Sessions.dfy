/**
 * Access tokens over time: how long a signed token is accepted, how long a logged-out one stays
 * on the blacklist, and the decision of the authorization guard. Times are milliseconds; the
 * claims of a token are in whole seconds.
 */
module Sessions {
  import opened Wrappers
  import opened JsString
  import opened AccessState
  import opened AccessInvariant
  import opened AccessRuns
  import opened AccessStore

  // ---------- expiry, as issued and as checked ----------

  /**
   * The TOKEN_EXPIRATION setting: a bare numeric string (the signer reads milliseconds), a
   * string with a unit such as `1h`, or a number (the signer reads seconds).
   */
  datatype Expiration = Millis(ms: int) | Units(total: int) | Seconds(s: int)

  /** The `exp` claim of a token signed at some time. */
  function ExpiresAt(e: Expiration, signedAt: Time): int {
    signedAt / 1000 + match e
                      case Millis(ms) => ms / 1000
                      case Units(ms) => ms / 1000
                      case Seconds(s) => s
  }

  /** The cache takes the same setting as a count of milliseconds, and only a positive integer. */
  function TimeToLive(e: Expiration): Option<int> {
    match e
    case Millis(ms) => if ms > 0 then Some(ms) else None
    case Units(_) => None
    case Seconds(s) => if s > 0 then Some(s) else None
  }

  /** Section 4.1.4 of RFC 7519: not accepted on or after the expiration time. */
  predicate NotExpired(exp: int, now: Time) { now / 1000 < exp }

  // ---------- logout ----------

  type Blacklist = map<string, Time>

  predicate Blacklisted(b: Blacklist, token: string, now: Time) {
    token in b && now < b[token]
  }

  datatype LogoutError = TooShort | CacheRejected

  function Logout(b: Blacklist, e: Expiration, raw: string, now: Time): Result<Blacklist, LogoutError> {
    var token := Trim(raw);
    if |token| < 10 then Err(TooShort)
    else if TimeToLive(e).None? then Err(CacheRejected)
    else Ok(b[token := now + TimeToLive(e).value])
  }

  /** The milliseconds a setting keeps a token out, and whether the cache takes it at all. */
  predicate KeptFor(e: Expiration, millis: int) {
    millis > 0 && (e == Millis(millis) || e == Seconds(millis))
  }

  /**
   * A logout goes through exactly for a token of ten or more characters under a setting the cache
   * takes; then the token is kept out until that many milliseconds from now, and no other entry
   * is touched.
   */
  lemma LogoutIff(b: Blacklist, e: Expiration, raw: string, now: Time)
    ensures var r, token := Logout(b, e, raw, now), Trim(raw);
            && (r.Ok? <==> |token| >= 10 && exists millis :: KeptFor(e, millis))
            && (r == Err(TooShort) <==> |token| < 10)
            && (r == Err(CacheRejected) <==> |token| >= 10 && !exists millis :: KeptFor(e, millis))
            && (r.Ok? ==> exists millis :: KeptFor(e, millis) && r.value == b[token := now + millis])
  {
    match e
    case Millis(n) => assert n > 0 ==> KeptFor(e, n);
    case Seconds(n) => assert n > 0 ==> KeptFor(e, n);
    case Units(_) =>
  }

  /** A token signed earlier and logged out now gets past blacklist and expiry at time t. */
  predicate AcceptedAt(e: Expiration, signedAt: Time, logoutAt: Time, t: Time) {
    && (TimeToLive(e).Some? ==> logoutAt + TimeToLive(e).value <= t)
    && NotExpired(ExpiresAt(e, signedAt), t)
  }

  /**
   * When a logged-out token can come back: never with a millisecond string; with a unit string
   * as long as the token lives, since the cache refuses the setting; with a number whenever the
   * token outlives that many milliseconds.
   */
  lemma AcceptedAgainIff(e: Expiration, signedAt: Time, logoutAt: Time)
    requires signedAt <= logoutAt
    ensures (exists t :: logoutAt <= t && AcceptedAt(e, signedAt, logoutAt, t)) <==>
            match e
            case Millis(_) => false
            case Units(ms) => logoutAt / 1000 - signedAt / 1000 < ms / 1000
            case Seconds(s) => s > 0 && (logoutAt + s) / 1000 - signedAt / 1000 < s
  {
    var from := if TimeToLive(e).Some? then logoutAt + TimeToLive(e).value else logoutAt;
    assert NotExpired(ExpiresAt(e, signedAt), from) ==> AcceptedAt(e, signedAt, logoutAt, from);
    if e.Millis? {
      FloorsAdd(logoutAt, e.ms);
      FloorsMonotone(signedAt, logoutAt);
    }
    forall t | logoutAt <= t && AcceptedAt(e, signedAt, logoutAt, t) ensures NotExpired(ExpiresAt(e, signedAt), from) {
      FloorsMonotone(from, t);
    }
  }

  lemma FloorsAdd(a: int, b: int)
    ensures a / 1000 + b / 1000 <= (a + b) / 1000
  {
  }

  lemma FloorsMonotone(a: int, b: int)
    requires a <= b
    ensures a / 1000 <= b / 1000
  {
  }

  // ---------- the guard ----------

  datatype Claims = Claims(user: Option<Id>, exp: Option<int>)

  datatype Decision =
    | Allowed | NoToken | LoggedOut | InvalidToken | NoUserId | UserUnknown | Forbidden

  /** The second of the pieces between spaces, or nothing. */
  function TokenOf(header: string): string {
    var parts := Split(header, ' ');
    if |parts| > 1 then parts[1] else ""
  }

  /**
   * The token is what stands between the first space of the header and the next one or the end;
   * a header without a space has none.
   */
  lemma TokenStandsAfterTheScheme(scheme: string, token: string, rest: string)
    requires Free(scheme, ' ') && Free(token, ' ')
    ensures TokenOf(scheme) == ""
    ensures TokenOf(scheme + " " + token) == token
    ensures TokenOf(scheme + " " + (token + " " + rest)) == token
  {
    SplitFree(scheme, ' ');
    SplitFree(token, ' ');
    SplitFirst(scheme, token, ' ');
    SplitFirst(token, rest, ' ');
    SplitFirst(scheme, token + " " + rest, ' ');
  }

  predicate Verifies(decode: string -> Option<Claims>, token: string, now: Time) {
    && decode(token).Some?
    && (decode(token).value.exp.Some? ==> NotExpired(decode(token).value.exp.value, now))
  }

  predicate Asked(required: Option<string>) { required.Some? && required.value != "" }

  /** The order in which the guard asks its questions. `decode` is the signature check. */
  function Decide(
    b: Blacklist, decode: string -> Option<Claims>, s: State,
    isPublic: bool, required: Option<string>, header: Option<string>, now: Time): Decision
  {
    if isPublic then Allowed
    else if header.None? || header.value == "" then NoToken
    else
      var token := TokenOf(header.value);
      if Blacklisted(b, token, now) then LoggedOut
      else if !Verifies(decode, token, now) then InvalidToken
      else if !Asked(required) then Allowed
      else
        var user := decode(token).value.user;
        if user.None? then NoUserId
        else if !LiveUser(s, user.value) then UserUnknown
        else if required.value in GatheredNames(s, user.value) then Allowed
        else Forbidden
  }

  /** The token is on the blacklist, its time not yet over. */
  predicate KeptOut(b: Blacklist, token: string, now: Time) {
    token in b && b[token] > now
  }

  /** The claims of a token that is signed and, if it has an expiration time, before it. */
  ghost predicate HasClaims(decode: string -> Option<Claims>, token: string, now: Time, claims: Claims) {
    decode(token) == Some(claims) && (claims.exp.Some? ==> now / 1000 < claims.exp.value)
  }

  predicate IsPermission(required: Option<string>, permission: string) {
    required == Some(permission) && permission != ""
  }

  /**
   * In a reachable store, a request to a protected route with the header `scheme token` is let
   * in exactly when the token is neither blacklisted nor stale nor forged and the permission, if
   * one is asked for, is granted by a live role of the live user the token names; it is forbidden
   * exactly when only the grant is missing.
   */
  lemma AllowedIff(
    b: Blacklist, decode: string -> Option<Claims>, s: State, required: Option<string>,
    scheme: string, token: string, now: Time)
    requires Consistent(s) && Free(scheme, ' ') && Free(token, ' ')
    ensures Decide(b, decode, s, false, required, Some(scheme + " " + token), now) == Allowed <==>
            && !KeptOut(b, token, now)
            && exists claims :: HasClaims(decode, token, now, claims)
                 && forall permission :: IsPermission(required, permission) ==>
                      claims.user.Some? && Grants(s, claims.user.value, permission)
    ensures Decide(b, decode, s, false, required, Some(scheme + " " + token), now) == Forbidden <==>
            && !KeptOut(b, token, now)
            && exists claims, permission :: HasClaims(decode, token, now, claims)
                 && IsPermission(required, permission)
                 && claims.user.Some? && LiveUser(s, claims.user.value) && !Grants(s, claims.user.value, permission)
  {
    hide Consistent, TokenOf, GatheredNames, Grants, Free;
    TokenStandsAfterTheScheme(scheme, token, "");
    RefusedIff(b, decode, s, required, scheme, token, now);
    if Verifies(decode, token, now) {
      var claims := decode(token).value;
      assert HasClaims(decode, token, now, claims);
      if Asked(required) {
        assert IsPermission(required, required.value);
        if claims.user.Some? && LiveUser(s, claims.user.value) {
          GuardSeesGrants(s, claims.user.value, required.value);
        }
        GrantsOnlyToLive(s, claims.user, required.value);
      }
    }
  }

  lemma GrantsOnlyToLive(s: State, user: Option<Id>, permission: string)
    ensures user.Some? && Grants(s, user.value, permission) ==> LiveUser(s, user.value)
  {
  }

  /** The other answers: why a request is refused before its grants are looked at. */
  lemma RefusedIff(
    b: Blacklist, decode: string -> Option<Claims>, s: State, required: Option<string>,
    scheme: string, token: string, now: Time)
    requires Free(scheme, ' ') && Free(token, ' ')
    ensures var d := Decide(b, decode, s, false, required, Some(scheme + " " + token), now);
            && d != NoToken
            && (d == LoggedOut <==> KeptOut(b, token, now))
            && (d == InvalidToken <==>
                  !KeptOut(b, token, now) && !exists claims :: HasClaims(decode, token, now, claims))
            && (d == NoUserId <==>
                  !KeptOut(b, token, now) && exists claims, permission ::
                    HasClaims(decode, token, now, claims) && IsPermission(required, permission) && claims.user.None?)
            && (d == UserUnknown <==>
                  !KeptOut(b, token, now) && exists claims, permission ::
                    HasClaims(decode, token, now, claims) && IsPermission(required, permission)
                    && claims.user.Some? && !LiveUser(s, claims.user.value))
  {
    hide TokenOf, GatheredNames, Free, LiveUser;
    TokenStandsAfterTheScheme(scheme, token, "");
    if Verifies(decode, token, now) {
      assert HasClaims(decode, token, now, decode(token).value);
      assert Asked(required) ==> IsPermission(required, required.value);
    }
  }

  /** A public route asks nothing; a protected one asks for a header first. */
  lemma WithoutHeader(
    b: Blacklist, decode: string -> Option<Claims>, s: State, required: Option<string>, header: Option<string>,
      now: Time)
    ensures Decide(b, decode, s, true, required, header, now) == Allowed
    ensures Decide(b, decode, s, false, required, header, now) == NoToken <==> header in {None, Some("")}
  {
  }

  // ---------- runs of the session part ----------

  datatype Session = Session(blacklist: Blacklist, now: Time)

  datatype Event = Elapse(millis: nat) | LogoutOf(raw: string)

  function After(m: Session, e: Expiration, event: Event): Session {
    match event
    case Elapse(millis) => m.(now := m.now + millis)
    case LogoutOf(raw) =>
      var r := Logout(m.blacklist, e, raw, m.now);
      if r.Ok? then m.(blacklist := r.value) else m
  }

  function AfterAll(m: Session, e: Expiration, events: seq<Event>): Session
    decreases events
  {
    if events == [] then m else AfterAll(After(m, e, events[0]), e, events[1..])
  }

  /** The blacklist entry outlives the token. */
  predicate Outlived(m: Session, token: string, exp: int) {
    token in m.blacklist && exp <= m.blacklist[token] / 1000
  }

  lemma OutlivedIsRefused(m: Session, token: string, exp: int)
    requires Outlived(m, token, exp)
    ensures Blacklisted(m.blacklist, token, m.now) || !NotExpired(exp, m.now)
  {
    if m.blacklist[token] <= m.now {
      FloorsMonotone(m.blacklist[token], m.now);
    }
  }

  /** Time passing and further logouts, of this token or of others, never weaken the entry. */
  lemma {:induction false} OutlivedStays(m: Session, ms: int, events: seq<Event>, token: string, exp: int)
    requires ms > 0
    requires Outlived(m, token, exp) && exp <= (m.now + ms) / 1000
    ensures Outlived(AfterAll(m, Millis(ms), events), token, exp)
    decreases events
  {
    hide Trim;
    if events != [] {
      var m' := After(m, Millis(ms), events[0]);
      FloorsMonotone(m.now + ms, m'.now + ms);
      OutlivedStays(m', ms, events[1..], token, exp);
    }
  }

  function Elapsed(events: seq<Event>): nat {
    if events == [] then 0 else (if events[0].Elapse? then events[0].millis else 0) + Elapsed(events[1..])
  }

  lemma {:induction false} ClockGoesBy(m: Session, e: Expiration, events: seq<Event>)
    ensures AfterAll(m, e, events).now == m.now + Elapsed(events)
    decreases events
  {
    if events != [] {
      ClockGoesBy(After(m, e, events[0]), e, events[1..]);
    }
  }

  /** A token that nobody logs out keeps its standing. */
  lemma {:induction false} OthersUntouched(m: Session, e: Expiration, events: seq<Event>, token: string)
    requires forall raw :: LogoutOf(raw) in events ==> Trim(raw) != token
    ensures token in AfterAll(m, e, events).blacklist <==> token in m.blacklist
    ensures token in m.blacklist ==> AfterAll(m, e, events).blacklist[token] == m.blacklist[token]
    decreases events
  {
    hide Trim;
    if events != [] {
      assert events[0] in events && forall x :: x in events[1..] ==> x in events;
      OthersUntouched(After(m, e, events[0]), e, events[1..], token);
    }
  }

  /**
   * A token of ten or more characters, signed at or before its logout, is refused in every state
   * any run leads to from there, on every protected route, whatever the store holds.
   */
  lemma LoggedOutStaysOut(
    m: Session, ms: int, decode: string -> Option<Claims>, raw: string, signedAt: Time,
    events: seq<Event>, s: State, required: Option<string>, scheme: string)
    requires ms > 0 && signedAt <= m.now
    requires |Trim(raw)| >= 10
    requires decode(Trim(raw)).Some? ==> decode(Trim(raw)).value.exp == Some(ExpiresAt(Millis(ms), signedAt))
    requires Free(scheme, ' ') && Free(Trim(raw), ' ')
    ensures var end := AfterAll(m, Millis(ms), [LogoutOf(raw)] + events);
            var header := Some(scheme + " " + Trim(raw));
            Decide(end.blacklist, decode, s, false, required, header, end.now) in {LoggedOut, InvalidToken}
  {
    hide Trim, TokenOf, Free;
    var exp := ExpiresAt(Millis(ms), signedAt);
    var out := After(m, Millis(ms), LogoutOf(raw));
    assert ([LogoutOf(raw)] + events)[1..] == events;
    FloorsAdd(m.now, ms);
    FloorsMonotone(signedAt, m.now);
    OutlivedStays(out, ms, events, Trim(raw), exp);
    OutlivedIsRefused(AfterAll(out, Millis(ms), events), Trim(raw), exp);
    TokenStandsAfterTheScheme(scheme, Trim(raw), "");
  }

  // ---------- the running program ----------

  class Request {
    const authorization: Option<string>
    var traceId: Option<string>
    var id: string
    var user: Option<Claims>

    constructor (authorization: Option<string>, traceId: Option<string>, id: string)
      ensures this.authorization == authorization && this.traceId == traceId && this.id == id && user == None
    {
      this.authorization, this.traceId, this.id, this.user := authorization, traceId, id, None;
    }
  }

  class Gate {
    var blacklist: Blacklist
    const expiration: Expiration
    const decode: string -> Option<Claims>

    constructor (expiration: Expiration, decode: string -> Option<Claims>)
      ensures this.expiration == expiration && this.decode == decode && blacklist == map[]
    {
      this.expiration, this.decode, this.blacklist := expiration, decode, map[];
    }

    method ExecuteLogout(raw: string, now: Time) returns (error: Option<LogoutError>)
      modifies this`blacklist
      ensures match Logout(old(blacklist), expiration, raw, now)
              case Ok(b) => error == None && blacklist == b
              case Err(e) => error == Some(e) && blacklist == old(blacklist)
      ensures |Trim(raw)| < 10 <==> error == Some(TooShort)
      ensures forall millis :: KeptFor(expiration, millis) && |Trim(raw)| >= 10 ==>
                error == None && blacklist == old(blacklist)[Trim(raw) := now + millis]
      ensures |Trim(raw)| >= 10 && (forall millis :: !KeptFor(expiration, millis)) ==> error == Some(CacheRejected)
    {
      var token := Trim(raw);
      if |token| < 10 {
        return Some(TooShort);
      }
      match TimeToLive(expiration)
      case None => return Some(CacheRejected);
      case Some(ttl) =>
        assert KeptFor(expiration, ttl);
        blacklist := blacklist[token := now + ttl];
        return None;
    }

    /** `uuid` is the trace id to fall back on. The user is recorded once the token verifies. */
    method CanActivate(
      request: Request, store: Store, isPublic: bool, required: Option<string>, now: Time, uuid: string)
      returns (d: Decision)
      modifies request
      ensures d == Decide(blacklist, decode, store.View(), isPublic, required, request.authorization, now)
      ensures isPublic ==> unchanged(request)
      ensures !isPublic ==> request.traceId == Some(request.id)
      ensures !isPublic ==>
                request.id == if old(request.traceId.Some? && request.traceId.value != "")
                  then old(request.traceId).value
                              else if old(request.id) != "" then old(request.id) else uuid
      ensures !isPublic && d !in {NoToken, LoggedOut, InvalidToken} ==>
                request.user == decode(TokenOf(request.authorization.value))
      ensures d in {NoToken, LoggedOut, InvalidToken} ==> request.user == old(request.user)
    {
      if isPublic {
        return Allowed;
      }
      if request.traceId.None? || request.traceId.value == "" {
        request.traceId := Some(if request.id != "" then request.id else uuid);
      }
      request.id := request.traceId.value;
      if request.authorization.None? || request.authorization.value == "" {
        return NoToken;
      }
      var token := TokenOf(request.authorization.value);
      if token in blacklist && now < blacklist[token] {
        return LoggedOut;
      }
      if !Verifies(decode, token, now) {
        return InvalidToken;
      }
      request.user := decode(token);
      if required.None? || required.value == "" {
        return Allowed;
      }
      if request.user.value.user.None? {
        return NoUserId;
      }
      var id := request.user.value.user.value;
      if id !in store.users || store.users[id].deletedAt.Some? {
        return UserUnknown;
      }
      var permissions := GatherPermissions(store, id);
      if required.value in permissions {
        return Allowed;
      }
      return Forbidden;
    }
  }

  /** The loop over the user's roles that pushes the names of their permissions. */
  method GatherPermissions(store: Store, id: Id) returns (permissions: set<string>)
    requires id in store.users
    ensures permissions == GatheredNames(store.View(), id)
  {
    ghost var s := store.View();
    permissions := {};
    var rest := set r | r in store.users[id].roles && r in store.roles && store.roles[r].deletedAt.None?;
    assert rest == LoadedRoles(s, id);
    while rest != {}
      invariant rest <= LoadedRoles(s, id)
      invariant permissions == set r, h | r in LoadedRoles(s, id) - rest && h in LoadedPermissions(s, r) :: h.name
    {
      var r :| r in rest;
      rest := rest - {r};
      var names := set p | p in store.roles[r].permissions && p in store.permissions
        && store.permissions[p].deletedAt.None?
        :: store.permissions[p].name;
      NamesRead(s, r, names);
      permissions := permissions + names;
    }
    assert LoadedRoles(s, id) - rest == LoadedRoles(s, id);
  }

  lemma NamesRead(s: State, r: Id, names: set<string>)
    requires r in s.roles
    requires names == set p | p in s.roles[r].permissions && p in s.permissions
             && s.permissions[p].deletedAt.None? :: s.permissions[p].name
    ensures names == set h | h in LoadedPermissions(s, r) :: h.name
  {
    forall p | p in s.roles[r].permissions && LivePermission(s, p)
      ensures Held(p, s.permissions[p].name) in LoadedPermissions(s, r)
    {
    }
  }
}
