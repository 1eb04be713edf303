/** Registration, login, logout and verification over time: the session half of
    crates/qa-svc/src/application/app.rs and crates/qa-svc/src/core/user.rs as a timed state
    machine. A run is any sequence of steps; a step that is not enabled changes nothing. */
module Sessions {
  import Aes
  import Cbc
  import Gateway
  import Token
  import Utf8
  import opened Integers
  import opened Wrappers

  const SESSION_SECONDS := 86400

  /** Milliseconds on the clock shared by the service and the session store. */
  type clock = x: int | 0 <= x <= I64_MAX

  function Seconds(now: clock): i64 {
    now / 1000
  }

  datatype Service = Service(cipher: Cbc.BlockCipher, key: string, iv: string, md5: string -> string) {
    predicate Valid() {
      Aes.New(key, iv, Aes.Size256).Ok?
    }

    function Crypto(): Aes.AesCBCCrypto
      requires Valid()
    {
      Aes.New(key, iv, Aes.Size256).value
    }

    function Check(token: string, now: clock): Result<string, Token.TokenError>
      requires Valid()
    {
      Token.CheckToken(cipher, Crypto(), token, Seconds(now))
    }

    function Issue(loginId: string, openid: string, issuedAt: clock): string
      requires Valid()
    {
      var token := Crypto().Encrypt(cipher, Token.Payload(loginId, openid, Seconds(issuedAt) + SESSION_SECONDS));
      token.value
    }
  }

  datatype User = User(username: string, password: string, openid: string)

  datatype Session = Session(username: string, openid: string)

  datatype Entry = Entry(session: Session, deadline: int)

  /** Whether one access to the session store succeeds, or fails with some text. */
  datatype Store = Up | Down(text: string)

  function Key(openid: string): string {
    "user_login:" + openid
  }

  lemma KeyInjective(a: string, b: string)
    requires Key(a) == Key(b)
    ensures a == b
  {
    assert a == Key(a)[11..] && b == Key(b)[11..];
  }

  predicate Live(sessions: map<string, Entry>, key: string, now: clock) {
    key in sessions && now < sessions[key].deadline
  }

  const NOT_FOUND := "user session not found"

  function Get(sessions: map<string, Entry>, key: string, now: clock, store: Store): Result<Session, string> {
    if store.Down? then Err(store.text)
    else if Live(sessions, key, now) then Ok(sessions[key].session)
    else Err(NOT_FOUND)
  }

  predicate ContainsAt(s: string, sub: string, i: int) {
    0 <= i <= |s| - |sub| && s[i..i + |sub|] == sub
  }

  predicate Contains(s: string, sub: string) {
    exists i :: 0 <= i <= |s| - |sub| && ContainsAt(s, sub, i)
  }

  /** `str::contains`. */
  lemma ContainsIff(s: string, sub: string)
    ensures Contains(s, sub) <==> exists before, after :: s == before + sub + after
  {
    if i :| 0 <= i <= |s| - |sub| && ContainsAt(s, sub, i) {
      assert s == s[..i] + sub + s[i + |sub|..];
    }
    if before, after :| s == before + sub + after {
      assert ContainsAt(s, sub, |before|);
    }
  }

  lemma NotFoundIsNotFound()
    ensures Contains(NOT_FOUND, "session not found")
  {
    assert ContainsAt(NOT_FOUND, "session not found", 5);
  }

  datatype VerifyReply = Refused(code: Gateway.GrpcCode) | Answer(state: int, reason: string, username: string)

  /** The token is checked at `checkedAt`, the session looked up at `now`. */
  function Verify(service: Service, sessions: map<string, Entry>, token: string,
                  checkedAt: clock, now: clock, store: Store): VerifyReply
    requires service.Valid()
  {
    match service.Check(token, checkedAt)
    case Err(Expired) => Refused(Gateway.Unauthenticated)
    case Err(_) => Refused(Gateway.InvalidArgument)
    case Ok(openid) =>
      match Get(sessions, Key(openid), now, store)
      case Ok(session) => Answer(1, "", session.username)
      case Err(text) =>
        if Contains(text, "session not found") then Answer(0, "login session not found", "")
        else Answer(1, "Unkown error: " + text, "")
  }

  // The machine

  datatype Login =
    | Checked(user: User)
    | Stamped(user: User, loginId: string, issuedAt: clock)
    | Saved(user: User)

  datatype World = World(now: clock, users: map<string, User>, sessions: map<string, Entry>, logins: seq<Login>)

  datatype Step =
    | Tick(ms: nat)
    | Register(username: string, password: string, openid: string)
    | BeginLogin(username: string, password: string, store: Store)
    | Stamp(i: nat, loginId: string)
    | Save(i: nat, store: Store)
    | Logout(token: string, checkedAt: clock, store: Store)
    | Evict(openid: string)

  predicate IsLoginId(loginId: string) {
    ':' !in loginId && Utf8.Ascii(loginId) && |loginId| == 32
  }

  predicate FreshOpenid(users: map<string, User>, openid: string) {
    Token.IsOpenid(openid) && forall name :: name in users ==> users[name].openid != openid
  }

  predicate MayBeginLogin(service: Service, users: map<string, User>, sessions: map<string, Entry>,
                          username: string, password: string, now: clock, store: Store) {
    && username in users && users[username].password == service.md5(password)
    && Get(sessions, Key(users[username].openid), now, store).Err?
  }

  function SetSession(sessions: map<string, Entry>, user: User, now: clock): map<string, Entry> {
    sessions[Key(user.openid) := Entry(Session(user.username, user.openid), now + SESSION_SECONDS * 1000)]
  }

  function Next(service: Service, w: World, step: Step): World
    requires service.Valid()
  {
    match step
    case Tick(ms) =>
      if w.now + ms <= I64_MAX then w.(now := w.now + ms) else w
    case Register(username, password, openid) =>
      if username in w.users || !FreshOpenid(w.users, openid) then w
      else w.(users := w.users[username := User(username, service.md5(password), openid)])
    case BeginLogin(username, password, store) =>
      if !MayBeginLogin(service, w.users, w.sessions, username, password, w.now, store) then w
      else w.(logins := w.logins + [Checked(w.users[username])])
    case Stamp(i, loginId) =>
      if i < |w.logins| && w.logins[i].Checked? && IsLoginId(loginId)
      then w.(logins := w.logins[i := Stamped(w.logins[i].user, loginId, w.now)])
      else w
    case Save(i, store) =>
      if i < |w.logins| && w.logins[i].Stamped? && store.Up?
      then
        var user := w.logins[i].user;
        w.(logins := w.logins[i := Saved(user)], sessions := SetSession(w.sessions, user, w.now))
      else w
    case Logout(token, checkedAt, store) =>
      var openid := service.Check(token, checkedAt);
      if checkedAt <= w.now && openid.Ok? && store.Up? then w.(sessions := w.sessions - {Key(openid.value)}) else w
    case Evict(openid) =>
      w.(sessions := w.sessions - {Key(openid)})
  }

  function Run(service: Service, w: World, steps: seq<Step>): World
    requires service.Valid()
    decreases |steps|
  {
    if steps == [] then w else Run(service, Next(service, w, steps[0]), steps[1..])
  }

  const INITIAL := World(0, map[], map[], [])

  /** A login takes its steps in order and once: only a checked one is stamped, only a stamped one saved, and
      no other login is touched. */
  lemma LoginStepsInOrder(service: Service, w: World, i: nat, loginId: string, store: Store)
    requires service.Valid()
    ensures Next(service, w, Stamp(i, loginId)) != w ==> i < |w.logins| && w.logins[i].Checked?
    ensures Next(service, w, Save(i, store)) != w ==> i < |w.logins| && w.logins[i].Stamped?
    ensures var stamped, saved := Next(service, w, Stamp(i, loginId)).logins, Next(service, w, Save(i, store)).logins;
            && |stamped| == |saved| == |w.logins|
            && forall j :: 0 <= j < |w.logins| && j != i ==> stamped[j] == saved[j] == w.logins[j]
  {
  }

  // The invariant

  predicate Registered(users: map<string, User>, user: User) {
    user.username in users && users[user.username] == user
  }

  /** `username` is the one user registered with `openid`. */
  ghost predicate Owner(users: map<string, User>, openid: string, username: string) {
    && username in users && users[username].openid == openid
    && forall name :: name in users && users[name].openid == openid ==> name == username
  }

  ghost predicate UsersInv(users: map<string, User>) {
    && (forall name :: name in users ==> users[name].username == name && Token.IsOpenid(users[name].openid))
    && (forall a, b :: a in users && b in users && users[a].openid == users[b].openid ==> a == b)
  }

  ghost predicate SessionsInv(users: map<string, User>, sessions: map<string, Entry>) {
    forall key :: key in sessions ==>
      var session := sessions[key].session;
      key == Key(session.openid) && Owner(users, session.openid, session.username)
  }

  ghost predicate LoginInv(w: World, login: Login) {
    && Registered(w.users, login.user)
    && (login.Stamped? ==> login.issuedAt <= w.now && IsLoginId(login.loginId))
  }

  ghost predicate Inv(w: World) {
    && UsersInv(w.users) && SessionsInv(w.users, w.sessions)
    && forall i :: 0 <= i < |w.logins| ==> LoginInv(w, w.logins[i])
  }

  lemma RegisterKeepsTables(users: map<string, User>, sessions: map<string, Entry>, user: User)
    requires UsersInv(users) && SessionsInv(users, sessions)
    requires user.username !in users && FreshOpenid(users, user.openid)
    ensures UsersInv(users[user.username := user]) && SessionsInv(users[user.username := user], sessions)
  {
  }

  lemma SaveKeepsSessions(users: map<string, User>, sessions: map<string, Entry>, user: User, now: clock)
    requires UsersInv(users) && SessionsInv(users, sessions) && Registered(users, user)
    ensures SessionsInv(users, SetSession(sessions, user, now))
  {
  }

  lemma LoginsKept(w: World, w': World)
    requires Inv(w) && w.now <= w'.now && w'.logins == w.logins
    requires forall user :: Registered(w.users, user) ==> Registered(w'.users, user)
    ensures forall i :: 0 <= i < |w'.logins| ==> LoginInv(w', w'.logins[i])
  {
    forall i | 0 <= i < |w'.logins|
      ensures LoginInv(w', w'.logins[i])
    {
      assert LoginInv(w, w.logins[i]);
    }
  }

  function PutLogin(logins: seq<Login>, i: nat, login: Login): seq<Login>
    requires i <= |logins|
  {
    if i < |logins| then logins[i := login] else logins + [login]
  }

  lemma LoginPut(w: World, i: nat, login: Login)
    requires Inv(w) && i <= |w.logins| && LoginInv(w, login)
    ensures Inv(w.(logins := PutLogin(w.logins, i, login)))
  {
    var w' := w.(logins := PutLogin(w.logins, i, login));
    forall j | 0 <= j < |w'.logins|
      ensures LoginInv(w', w'.logins[j])
    {
      if j != i {
        assert LoginInv(w, w.logins[j]);
      }
    }
  }

  lemma NextKeepsInv(service: Service, w: World, step: Step)
    requires service.Valid() && Inv(w)
    ensures Inv(Next(service, w, step))
  {
    var w' := Next(service, w, step);
    if w' != w {
      match step
      case Tick(ms) =>
        LoginsKept(w, w');
      case Register(username, password, openid) =>
        RegisterKeepsTables(w.users, w.sessions, User(username, service.md5(password), openid));
        LoginsKept(w, w');
      case BeginLogin(username, _, _) =>
        LoginPut(w, |w.logins|, Checked(w.users[username]));
      case Stamp(i, _) =>
        assert LoginInv(w, w.logins[i]);
        LoginPut(w, i, w'.logins[i]);
      case Save(i, _) =>
        assert LoginInv(w, w.logins[i]);
        SaveKeepsSessions(w.users, w.sessions, w.logins[i].user, w.now);
        LoginPut(w.(sessions := w'.sessions), i, w'.logins[i]);
      case Logout(_, _, _) =>
        LoginsKept(w, w');
      case Evict(_) =>
        LoginsKept(w, w');
    }
  }

  lemma {:induction false} RunKeepsInv(service: Service, w: World, steps: seq<Step>)
    requires service.Valid() && Inv(w)
    ensures Inv(Run(service, w, steps))
    decreases |steps|
  {
    if steps != [] {
      NextKeepsInv(service, w, steps[0]);
      RunKeepsInv(service, Next(service, w, steps[0]), steps[1..]);
    }
  }

  lemma NamedReply(service: Service, sessions: map<string, Entry>, token: string, checkedAt: clock, now: clock,
                   store: Store)
    requires service.Valid()
    ensures var reply := Verify(service, sessions, token, checkedAt, now, store);
            reply.Answer? && reply.state == 1 && reply.username != "" ==>
              var openid := service.Check(token, checkedAt);
              && openid.Ok? && Live(sessions, Key(openid.value), now)
              && sessions[Key(openid.value)].session.username == reply.username
  {
  }

  lemma SessionOwner(w: World, openid: string)
    requires Inv(w) && Key(openid) in w.sessions
    ensures Owner(w.users, openid, w.sessions[Key(openid)].session.username)
  {
    KeyInjective(openid, w.sessions[Key(openid)].session.openid);
  }

  /** The openid's session is live and `username` is its registered owner. */
  ghost predicate Vouched(w: World, openid: string, username: string) {
    && Owner(w.users, openid, username)
    && Key(openid) in w.sessions && w.now < w.sessions[Key(openid)].deadline
  }

  /** Safety. In every reachable world, whatever the token, whenever it was checked and however the
      store behaves: a reply of state 1 with a name gives the one registered owner of the token's
      openid, the token was unexpired when checked and the openid's session is live. */
  lemma VerifiedNameOwnsOpenid(service: Service, steps: seq<Step>, token: string, checkedAt: clock, store: Store)
    requires service.Valid()
    ensures var w := Run(service, INITIAL, steps);
            var reply := Verify(service, w.sessions, token, checkedAt, w.now, store);
            reply.Answer? && reply.state == 1 && reply.username != "" ==>
              var openid := service.Check(token, checkedAt);
              openid.Ok? && Vouched(w, openid.value, reply.username)
  {
    var w := Run(service, INITIAL, steps);
    RunKeepsInv(service, INITIAL, steps);
    NamedReply(service, w.sessions, token, checkedAt, w.now, store);
    var openid := service.Check(token, checkedAt);
    if openid.Ok? && Key(openid.value) in w.sessions {
      SessionOwner(w, openid.value);
    }
  }

  /** Exactly when a token is refused, and how. */
  lemma VerifyRefusesIff(service: Service, sessions: map<string, Entry>, token: string, checkedAt: clock, now: clock,
                         store: Store)
    requires service.Valid()
    ensures var reply, openid := Verify(service, sessions, token, checkedAt, now, store),
            service.Check(token, checkedAt);
            && (reply == Refused(Gateway.Unauthenticated) <==> openid == Err(Token.Expired))
            && (reply == Refused(Gateway.InvalidArgument) <==> openid.Err? && openid != Err(Token.Expired))
            && (reply.Answer? <==> openid.Ok?)
  {
  }

  /** Exactly when the reply has state 1: the token checks and its session is live, or the store fails
      with any text but "session not found". */
  lemma StateOneIff(service: Service, sessions: map<string, Entry>, token: string, checkedAt: clock, now: clock,
                    store: Store)
    requires service.Valid()
    ensures var reply := Verify(service, sessions, token, checkedAt, now, store);
            var openid := service.Check(token, checkedAt);
            reply.Answer? && reply.state == 1 <==>
            openid.Ok? && if store.Up? then Live(sessions, Key(openid.value), now)
                else !Contains(store.text, "session not found")
  {
    NotFoundIsNotFound();
  }

  /** So exactly when state 1 can be relied on. In every reachable world it means that the named user
      owns a live session of the token's openid, unless the store fails in that way; the reply then
      names nobody, which is right only for a user registered under the empty name. */
  lemma StateOneVouchesIff(service: Service, steps: seq<Step>, token: string, checkedAt: clock, store: Store)
    requires service.Valid()
    ensures var w := Run(service, INITIAL, steps);
            var reply := Verify(service, w.sessions, token, checkedAt, w.now, store);
            var openid := service.Check(token, checkedAt);
            (reply.Answer? && reply.state == 1 ==> openid.Ok? && Vouched(w, openid.value, reply.username)) <==>
            || openid.Err? || store.Up? || Contains(store.text, "session not found")
            || Vouched(w, openid.value, "")
  {
    var w := Run(service, INITIAL, steps);
    RunKeepsInv(service, INITIAL, steps);
    StateOneIff(service, w.sessions, token, checkedAt, w.now, store);
    var openid := service.Check(token, checkedAt);
    if openid.Ok? && Key(openid.value) in w.sessions {
      SessionOwner(w, openid.value);
    }
  }

  lemma RunFive(service: Service, w: World, steps: seq<Step>)
    requires service.Valid() && |steps| == 5
    ensures Run(service, w, steps) ==
            Next(service, Next(service, Next(service,
              Next(service, Next(service, w, steps[0]), steps[1]), steps[2]), steps[3]), steps[4])
  {
    var w1 := Next(service, w, steps[0]);
    var w2 := Next(service, w1, steps[1]);
    var w3 := Next(service, w2, steps[2]);
    var w4 := Next(service, w3, steps[3]);
    var w5 := Next(service, w4, steps[4]);
    assert Run(service, w5, steps[1..][1..][1..][1..][1..]) == w5;
    assert Run(service, w4, steps[1..][1..][1..][1..]) == w5;
    assert Run(service, w3, steps[1..][1..][1..]) == w5;
    assert Run(service, w2, steps[1..][1..]) == w5;
    assert Run(service, w1, steps[1..]) == w5;
  }

  /** A user has registered and is logged in. */
  lemma LogIn(service: Service, user: User, password: string, loginId: string)
    requires service.Valid() && Token.IsOpenid(user.openid) && IsLoginId(loginId)
    requires user.password == service.md5(password)
    ensures var w := Next(service, Next(service, INITIAL, Register(user.username, password, user.openid)),
                          BeginLogin(user.username, password, Up));
            Next(service, Next(service, w, Stamp(0, loginId)), Save(0, Up)) ==
            World(0, map[user.username := user], SetSession(map[], user, 0), [Saved(user)])
  {
    var users := map[user.username := user];
    assert Next(service, INITIAL, Register(user.username, password, user.openid)) == World(0, users, map[], []);
    assert Next(service, World(0, users, map[], []), BeginLogin(user.username, password, Up)) ==
           World(0, users, map[], [Checked(user)]);
  }

  lemma LogOut(service: Service, user: User, token: string)
    requires service.Valid() && service.Check(token, 0) == Ok(user.openid)
    ensures var users := map[user.username := user];
            Next(service, World(0, users, SetSession(map[], user, 0), [Saved(user)]), Logout(token, 0, Up)) ==
            World(0, users, map[], [Saved(user)])
  {
    assert SetSession(map[], user, 0) - {Key(user.openid)} == map[];
  }

  /** A user registers, logs in and logs out with `token`. */
  lemma LogInAndOut(service: Service, user: User, password: string, loginId: string, token: string)
    returns (steps: seq<Step>)
    requires service.Valid() && Token.IsOpenid(user.openid) && IsLoginId(loginId)
    requires user.password == service.md5(password) && service.Check(token, 0) == Ok(user.openid)
    ensures Run(service, INITIAL, steps) == World(0, map[user.username := user], map[], [Saved(user)])
  {
    steps := [Register(user.username, password, user.openid), BeginLogin(user.username, password, Up),
              Stamp(0, loginId), Save(0, Up), Logout(token, 0, Up)];
    LogIn(service, user, password, loginId);
    LogOut(service, user, token);
    RunFive(service, INITIAL, steps);
  }

  lemma IssuedAtStart(service: Service, loginId: string, openid: string) returns (token: string)
    requires service.Valid() && Token.IsOpenid(openid) && IsLoginId(loginId)
    ensures service.Check(token, 0) == Ok(openid)
  {
    token := service.Issue(loginId, openid, 0);
    Token.IssuedTokenChecks(service.cipher, service.key, service.iv, Aes.Size256, loginId, openid, SESSION_SECONDS, 0);
  }

  lemma TimeoutIsNoNotFound()
    ensures !Contains("timed out", "session not found")
  {
    assert |"timed out"| < |"session not found"|;
  }

  lemma NoSession(service: Service, w: World, token: string, openid: string)
    requires service.Valid() && service.Check(token, w.now) == Ok(openid) && w.sessions == map[]
    ensures Verify(service, w.sessions, token, w.now, w.now, Down("timed out")) ==
            Answer(1, "Unkown error: timed out", "")
  {
    TimeoutIsNoNotFound();
  }

  /** Such a reply is reachable: the token of a user who has logged out, verified while the store
      times out, gets state 1 although no session is left. */
  lemma LoggedOutTokenGetsStateOne(service: Service, username: string, password: string, openid: string,
                                   loginId: string)
    returns (steps: seq<Step>, token: string)
    requires service.Valid() && Token.IsOpenid(openid) && IsLoginId(loginId)
    ensures var w := Run(service, INITIAL, steps);
            && service.Check(token, w.now) == Ok(openid) && Key(openid) !in w.sessions
            && Verify(service, w.sessions, token, w.now, w.now, Down("timed out")) ==
               Answer(1, "Unkown error: timed out", "")
  {
    token := IssuedAtStart(service, loginId, openid);
    var user := User(username, service.md5(password), openid);
    steps := LogInAndOut(service, user, password, loginId, token);
    NoSession(service, World(0, map[username := user], map[], [Saved(user)]), token, openid);
  }

  /** The step saves a session for `openid`. */
  predicate Saves(w: World, step: Step, openid: string) {
    step.Save? && step.store.Up? && step.i < |w.logins| && w.logins[step.i].Stamped?
    && w.logins[step.i].user.openid == openid
  }

  predicate SavesFor(service: Service, w: World, steps: seq<Step>, openid: string)
    requires service.Valid()
    decreases |steps|
  {
    steps != [] && (Saves(w, steps[0], openid) || SavesFor(service, Next(service, w, steps[0]), steps[1..], openid))
  }

  lemma {:induction false} AbsentUntilSaved(service: Service, w: World, steps: seq<Step>, openid: string)
    requires service.Valid()
    requires Key(openid) !in w.sessions && !SavesFor(service, w, steps, openid)
    ensures Key(openid) !in Run(service, w, steps).sessions
    decreases |steps|
  {
    if steps != [] {
      if steps[0].Save? && steps[0].i < |w.logins| && w.logins[steps[0].i].Stamped?
         && Key(w.logins[steps[0].i].user.openid) == Key(openid) {
        KeyInjective(w.logins[steps[0].i].user.openid, openid);
      }
      AbsentUntilSaved(service, Next(service, w, steps[0]), steps[1..], openid);
    }
  }

  /** Logout revokes every token of its openid until the next session is saved: none of them is
      verified with a name, whenever it was checked, and with the store up each one is answered "not
      found". */
  lemma LogoutRevokesEveryToken(service: Service, w: World, logout: Step, steps: seq<Step>,
                                token: string, checkedAt: clock, store: Store)
    requires service.Valid() && logout.Logout? && logout.store.Up? && logout.checkedAt <= w.now
    requires service.Check(logout.token, logout.checkedAt).Ok?
    requires !SavesFor(service, Next(service, w, logout), steps, service.Check(logout.token, logout.checkedAt).value)
    ensures var after := Run(service, Next(service, w, logout), steps);
            service.Check(token, checkedAt) == service.Check(logout.token, logout.checkedAt) ==>
              var reply := Verify(service, after.sessions, token, checkedAt, after.now, store);
              && reply.Answer? && reply.username == ""
              && (store.Up? ==> reply == Answer(0, "login session not found", ""))
  {
    var openid := service.Check(logout.token, logout.checkedAt).value;
    AbsentUntilSaved(service, Next(service, w, logout), steps, openid);
    AbsentReply(service, Run(service, Next(service, w, logout), steps), token, checkedAt, store, openid);
  }

  lemma AbsentReply(service: Service, w: World, token: string, checkedAt: clock, store: Store, openid: string)
    requires service.Valid() && Key(openid) !in w.sessions
    ensures service.Check(token, checkedAt) == Ok(openid) ==>
              var reply := Verify(service, w.sessions, token, checkedAt, w.now, store);
              && reply.Answer? && reply.username == ""
              && (store.Up? ==> reply == Answer(0, "login session not found", ""))
  {
    NotFoundIsNotFound();
  }

  /** The step removes the session of `openid`. */
  predicate Removes(service: Service, w: World, step: Step, openid: string)
    requires service.Valid()
  {
    || (step.Logout? && step.checkedAt <= w.now && step.store.Up?
       && service.Check(step.token, step.checkedAt) == Ok(openid))
    || step == Evict(openid)
  }

  predicate RemovesFor(service: Service, w: World, steps: seq<Step>, openid: string)
    requires service.Valid()
    decreases |steps|
  {
    steps != []
        && (Removes(service, w, steps[0], openid)
           || RemovesFor(service, Next(service, w, steps[0]), steps[1..], openid))
  }

  /** The session of `user` is in the store, kept at least until a token issued at `issuedAt`
      has expired. */
  predicate HeldIn(sessions: map<string, Entry>, user: User, issuedAt: clock) {
    && Key(user.openid) in sessions
    && sessions[Key(user.openid)].session == Session(user.username, user.openid)
    && issuedAt + 86_400_000 <= sessions[Key(user.openid)].deadline
  }

  ghost predicate Held(w: World, user: User, issuedAt: clock) {
    Inv(w) && Registered(w.users, user) && issuedAt <= w.now && HeldIn(w.sessions, user, issuedAt)
  }

  lemma SaveKeepsHeld(w: World, saved: User, user: User, issuedAt: clock)
    requires Held(w, user, issuedAt) && Registered(w.users, saved)
    ensures HeldIn(SetSession(w.sessions, saved, w.now), user, issuedAt)
  {
    if Key(saved.openid) == Key(user.openid) {
      KeyInjective(saved.openid, user.openid);
      assert saved == user;
    }
  }

  lemma RemoveKeepsHeld(sessions: map<string, Entry>, removed: string, user: User, issuedAt: clock)
    requires HeldIn(sessions, user, issuedAt) && removed != user.openid
    ensures HeldIn(sessions - {Key(removed)}, user, issuedAt)
  {
    if Key(removed) == Key(user.openid) {
      KeyInjective(removed, user.openid);
    }
  }

  lemma NextKeepsHeld(service: Service, w: World, step: Step, user: User, issuedAt: clock)
    requires service.Valid() && Held(w, user, issuedAt)
    requires !Removes(service, w, step, user.openid)
    ensures Held(Next(service, w, step), user, issuedAt)
  {
    NextKeepsInv(service, w, step);
    match step
    case Save(i, store) =>
      if i < |w.logins| {
        assert LoginInv(w, w.logins[i]);
        SaveKeepsHeld(w, w.logins[i].user, user, issuedAt);
      }
    case Logout(token, checkedAt, store) =>
      var openid := service.Check(token, checkedAt);
      if checkedAt <= w.now && openid.Ok? && store.Up? {
        RemoveKeepsHeld(w.sessions, openid.value, user, issuedAt);
      }
    case Evict(openid) =>
      RemoveKeepsHeld(w.sessions, openid, user, issuedAt);
    case _ =>
  }

  lemma {:induction false} RunKeepsHeld(service: Service, w: World, steps: seq<Step>, user: User, issuedAt: clock)
    requires service.Valid() && Held(w, user, issuedAt)
    requires !RemovesFor(service, w, steps, user.openid)
    ensures Held(Run(service, w, steps), user, issuedAt)
    decreases |steps|
  {
    if steps != [] {
      NextKeepsHeld(service, w, steps[0], user, issuedAt);
      RunKeepsHeld(service, Next(service, w, steps[0]), steps[1..], user, issuedAt);
    }
  }

  /** A login in hand, stamped now, carries a token that is good for 86400 whole seconds from now. */
  lemma TokenLastsADay(service: Service, before: seq<Step>, i: nat, loginId: string, checkedAt: clock)
    requires service.Valid() && IsLoginId(loginId)
    requires var w := Run(service, INITIAL, before); i < |w.logins| && w.logins[i].Checked?
    ensures var w := Run(service, INITIAL, before);
            var login := Next(service, w, Stamp(i, loginId)).logins[i];
            && login.Stamped? && login.user == w.logins[i].user && login.loginId == loginId
            && service.Check(service.Issue(login.loginId, login.user.openid, login.issuedAt), checkedAt) ==
               if checkedAt / 1000 < w.now / 1000 + 86_400 then Ok(login.user.openid) else Err(Token.Expired)
  {
    var w := Run(service, INITIAL, before);
    RunKeepsInv(service, INITIAL, before);
    assert LoginInv(w, w.logins[i]);
    Token.IssuedTokenChecks(service.cipher, service.key, service.iv, Aes.Size256, loginId,
                            w.logins[i].user.openid, Seconds(w.now) + SESSION_SECONDS, Seconds(checkedAt));
  }

  // How long a session lasts

  /** If the session of `user` is in the store, it is the one saved at `saved`. */
  ghost predicate SavedAt(w: World, user: User, saved: clock) {
    && Inv(w) && Registered(w.users, user)
    && (Key(user.openid) in w.sessions ==>
          w.sessions[Key(user.openid)] == Entry(Session(user.username, user.openid), saved + 86_400_000))
  }

  lemma OtherSave(sessions: map<string, Entry>, other: User, now: clock, openid: string)
    requires other.openid != openid
    ensures Key(openid) in SetSession(sessions, other, now) <==> Key(openid) in sessions
    ensures Key(openid) in sessions ==> SetSession(sessions, other, now)[Key(openid)] == sessions[Key(openid)]
  {
    if Key(other.openid) == Key(openid) {
      KeyInjective(other.openid, openid);
    }
  }

  lemma AnyRemoval(sessions: map<string, Entry>, removed: string, openid: string)
    ensures Key(openid) in sessions - {Key(removed)} <==> Key(openid) in sessions && removed != openid
  {
    if Key(removed) == Key(openid) {
      KeyInjective(removed, openid);
    }
  }

  /** What a step that saves no session of the openid does to its entry. */
  lemma NextEntry(service: Service, w: World, step: Step, openid: string)
    requires service.Valid() && !Saves(w, step, openid)
    ensures var sessions := Next(service, w, step).sessions;
            && (Key(openid) in sessions <==> Key(openid) in w.sessions && !Removes(service, w, step, openid))
            && (Key(openid) in sessions ==> sessions[Key(openid)] == w.sessions[Key(openid)])
  {
    match step
    case Save(i, store) =>
      if i < |w.logins| && w.logins[i].Stamped? && store.Up? {
        OtherSave(w.sessions, w.logins[i].user, w.now, openid);
      }
    case Logout(token, checkedAt, store) =>
      var checked := service.Check(token, checkedAt);
      if checked.Ok? {
        AnyRemoval(w.sessions, checked.value, openid);
      }
    case Evict(removed) =>
      AnyRemoval(w.sessions, removed, openid);
    case _ =>
  }

  lemma NextKeepsSavedAt(service: Service, w: World, step: Step, user: User, saved: clock)
    requires service.Valid() && SavedAt(w, user, saved) && !Saves(w, step, user.openid)
    ensures SavedAt(Next(service, w, step), user, saved)
    ensures Key(user.openid) in Next(service, w, step).sessions <==>
            Key(user.openid) in w.sessions && !Removes(service, w, step, user.openid)
  {
    NextKeepsInv(service, w, step);
    NextEntry(service, w, step, user.openid);
  }

  lemma {:induction false} RunKeepsSavedAt(service: Service, w: World, steps: seq<Step>, user: User, saved: clock)
    requires service.Valid() && SavedAt(w, user, saved) && !SavesFor(service, w, steps, user.openid)
    ensures SavedAt(Run(service, w, steps), user, saved)
    ensures Key(user.openid) in Run(service, w, steps).sessions <==>
            Key(user.openid) in w.sessions && !RemovesFor(service, w, steps, user.openid)
    decreases |steps|
  {
    if steps != [] {
      NextKeepsSavedAt(service, w, steps[0], user, saved);
      RunKeepsSavedAt(service, Next(service, w, steps[0]), steps[1..], user, saved);
    }
  }

  lemma SaveSavesAt(service: Service, before: seq<Step>, i: nat)
    requires service.Valid()
    requires var w := Run(service, INITIAL, before); i < |w.logins| && w.logins[i].Stamped?
    ensures var w := Run(service, INITIAL, before);
            var w1 := Next(service, w, Save(i, Up));
            SavedAt(w1, w.logins[i].user, w.now) && Key(w.logins[i].user.openid) in w1.sessions && w1.now == w.now
  {
    var w := Run(service, INITIAL, before);
    RunKeepsInv(service, INITIAL, before);
    NextKeepsInv(service, w, Save(i, Up));
    assert LoginInv(w, w.logins[i]);
  }

  /** How long a session lasts. Until the next one is saved for its openid, a session saved at some time is
      found exactly for 86400 seconds from then, unless it is removed; a token of the openid that is
      unexpired when checked is answered state 1 with the user's name exactly as long, and state 0 from
      then on. */
  lemma SessionLastsADay(service: Service, before: seq<Step>, i: nat, after: seq<Step>, token: string, checkedAt: clock)
    requires service.Valid()
    requires var w := Run(service, INITIAL, before); i < |w.logins| && w.logins[i].Stamped?
    requires var w := Run(service, INITIAL, before);
             !SavesFor(service, Next(service, w, Save(i, Up)), after, w.logins[i].user.openid)
    ensures var w0 := Run(service, INITIAL, before);
            var w1 := Next(service, w0, Save(i, Up));
            var w := Run(service, w1, after);
            var user := w0.logins[i].user;
            var lasts := w.now < w0.now + 86_400_000 && !RemovesFor(service, w1, after, user.openid);
            && Get(w.sessions, "user_login:" + user.openid, w.now, Up) ==
               (if lasts then Ok(Session(user.username, user.openid)) else Err("user session not found"))
            && (service.Check(token, checkedAt) == Ok(user.openid) ==>
                  Verify(service, w.sessions, token, checkedAt, w.now, Up) ==
                  if lasts then Answer(1, "", user.username) else Answer(0, "login session not found", ""))
  {
    var w0 := Run(service, INITIAL, before);
    SaveSavesAt(service, before, i);
    RunKeepsSavedAt(service, Next(service, w0, Save(i, Up)), after, w0.logins[i].user, w0.now);
    NotFoundIsNotFound();
  }

  /** Logging in again. In any reachable world a user's right password begins a login exactly if no session
      of hers is found, and the login then saves one that is. */
  lemma LoginAgainIff(service: Service, steps: seq<Step>, username: string, password: string, loginId: string)
    requires service.Valid() && IsLoginId(loginId)
    requires username in Run(service, INITIAL, steps).users
    ensures var w := Run(service, INITIAL, steps);
            var user, n := w.users[username], |w.logins|;
            var begun := Next(service, w, BeginLogin(username, password, Up));
            var saved := Next(service, Next(service, begun, Stamp(n, loginId)), Save(n, Up));
            if user.password == service.md5(password) && Get(w.sessions, "user_login:" + user.openid, w.now, Up).Err?
            then
              && begun == w.(logins := w.logins + [Checked(user)]) && saved.logins == w.logins + [Saved(user)]
              && Get(saved.sessions, "user_login:" + user.openid, saved.now, Up) == Ok(Session(username, user.openid))
            else begun == w
  {
    RunKeepsInv(service, INITIAL, steps);
    var w := Run(service, INITIAL, steps);
    var begun := Next(service, w, BeginLogin(username, password, Up));
    if begun != w {
      var user, n := w.users[username], |w.logins|;
      var stamped := Next(service, begun, Stamp(n, loginId));
      assert stamped.logins == w.logins + [Stamped(user, loginId, w.now)];
      assert Next(service, stamped, Save(n, Up)).logins == w.logins + [Saved(user)];
    }
  }

  /** Whether the token is unexpired when it is checked. */
  predicate Unexpired(login: Login, checkedAt: clock)
    requires login.Stamped?
  {
    checkedAt / 1000 < login.issuedAt / 1000 + 86_400
  }

  /** What the reply to an issued token is, by its expiry and its session; and a held session is live
      as long as the token is unexpired, and for any look-up less than its lifetime after issuing:
      it outlives the token, because its lifetime starts no earlier than the expiry was computed. */
  ghost predicate Answers(service: Service, w: World, login: Login, checkedAt: clock)
    requires service.Valid() && login.Stamped?
  {
    var token := service.Issue(login.loginId, login.user.openid, login.issuedAt);
    var live := Live(w.sessions, Key(login.user.openid), w.now);
    && Verify(service, w.sessions, token, checkedAt, w.now, Up) ==
       (if !Unexpired(login, checkedAt) then Refused(Gateway.Unauthenticated)
        else if live then Answer(1, "", login.user.username)
        else Answer(0, "login session not found", ""))
    && (Unexpired(login, w.now) ==> live)
    && (w.now < login.issuedAt + 86_400_000 ==> live)
  }

  lemma HeldAnswers(service: Service, w: World, login: Login, checkedAt: clock)
    requires service.Valid() && login.Stamped? && IsLoginId(login.loginId)
    requires Held(w, login.user, login.issuedAt)
    ensures Answers(service, w, login, checkedAt)
  {
    NotFoundIsNotFound();
    Token.IssuedTokenChecks(service.cipher, service.key, service.iv, Aes.Size256, login.loginId,
                            login.user.openid, Seconds(login.issuedAt) + SESSION_SECONDS, Seconds(checkedAt));
  }

  /** Availability. After a login is saved, and unless its session is removed, the issued token
      verifies to the user's name at every second before its expiry, and no later; looked up later
      than it was checked, it still does until the session's own deadline. */
  lemma IssuedTokenStaysUsable(service: Service, before: seq<Step>, i: nat, after: seq<Step>, checkedAt: clock)
    requires service.Valid()
    requires var w := Run(service, INITIAL, before); i < |w.logins| && w.logins[i].Stamped?
    requires var w := Run(service, INITIAL, before);
             !RemovesFor(service, Next(service, w, Save(i, Up)), after, w.logins[i].user.openid)
    ensures var login := Run(service, INITIAL, before).logins[i];
            var w := Run(service, Next(service, Run(service, INITIAL, before), Save(i, Up)), after);
            Answers(service, w, login, checkedAt)
  {
    var w0 := Run(service, INITIAL, before);
    RunKeepsInv(service, INITIAL, before);
    var login := w0.logins[i];
    assert LoginInv(w0, login);
    var w1 := Next(service, w0, Save(i, Up));
    NextKeepsInv(service, w0, Save(i, Up));
    RunKeepsHeld(service, w1, after, login.user, login.issuedAt);
    HeldAnswers(service, Run(service, w1, after), login, checkedAt);
  }

  // Through the gateway

  function AsVerification(reply: VerifyReply): Gateway.Verification {
    match reply
    case Refused(code) => Gateway.Failed(code)
    case Answer(state, _, username) => Gateway.Verified(state, username)
  }

  /** The gateway admits a request to a protected path with principal `username`. */
  predicate Admits(service: Service, w: World, authorization: Option<string>, checkedAt: clock, store: Store,
                   username: string)
    requires service.Valid()
  {
    var token := Gateway.AuthorizationToken(authorization);
    && token.Ok?
    && AsVerification(Verify(service, w.sessions, token.value, checkedAt, w.now, store)) ==
       Gateway.Verified(1, username)
    && Gateway.AuthenticatedUsername(1, username).Ok?
  }

  /** End to end: a principal the gateway admits, even while the store misbehaves, is the owner of
      a live session whose openid the presented token carries. */
  lemma AdmittedPrincipalOwnsSession(service: Service, steps: seq<Step>, authorization: Option<string>,
                                     checkedAt: clock, store: Store, username: string)
    requires service.Valid()
    requires Admits(service, Run(service, INITIAL, steps), authorization, checkedAt, store, username)
    ensures var openid := service.Check(Gateway.AuthorizationToken(authorization).value, checkedAt);
            openid.Ok? && Vouched(Run(service, INITIAL, steps), openid.value, username)
  {
    VerifiedNameOwnsOpenid(service, steps, Gateway.AuthorizationToken(authorization).value, checkedAt, store);
  }

  lemma AdmittedByReply(service: Service, w: World, token: string, checkedAt: clock, username: string,
                        reply: VerifyReply)
    requires service.Valid() && Gateway.AuthorizationToken(Some("Bearer " + token)) == Ok(token)
    requires reply == Verify(service, w.sessions, token, checkedAt, w.now, Up)
    ensures Admits(service, w, Some("Bearer " + token), checkedAt, Up, username) <==>
            reply.Answer? && reply.state == 1 && reply.username == username && 1 <= |Utf8.Encode(username)| <= 64
  {
  }

  lemma AnsweredAdmitted(service: Service, w: World, login: Login, checkedAt: clock)
    requires service.Valid() && login.Stamped? && IsLoginId(login.loginId) && Token.IsOpenid(login.user.openid)
    requires Answers(service, w, login, checkedAt)
    ensures var token := service.Issue(login.loginId, login.user.openid, login.issuedAt);
            Admits(service, w, Some("Bearer " + token), checkedAt, Up, login.user.username) <==>
            && Unexpired(login, checkedAt) && Live(w.sessions, Key(login.user.openid), w.now)
            && 1 <= |Utf8.Encode(login.user.username)| <= 64
  {
    var token := service.Issue(login.loginId, login.user.openid, login.issuedAt);
    Gateway.IssuedTokenPasses(service.cipher, service.Crypto(), login.loginId, login.user.openid,
                              Seconds(login.issuedAt) + SESSION_SECONDS);
    AdmittedByReply(service, w, token, checkedAt, login.user.username,
                    Verify(service, w.sessions, token, checkedAt, w.now, Up));
  }

  /** End to end: until its expiry or the removal of its session, the token of a saved login is
      admitted under the user's name, exactly if that name has 1 to 64 bytes. */
  lemma IssuedTokenAdmitted(service: Service, before: seq<Step>, i: nat, after: seq<Step>, checkedAt: clock)
    requires service.Valid()
    requires var w := Run(service, INITIAL, before); i < |w.logins| && w.logins[i].Stamped?
    requires var w := Run(service, INITIAL, before);
             !RemovesFor(service, Next(service, w, Save(i, Up)), after, w.logins[i].user.openid)
    ensures var login := Run(service, INITIAL, before).logins[i];
            var w := Run(service, Next(service, Run(service, INITIAL, before), Save(i, Up)), after);
            var token := service.Issue(login.loginId, login.user.openid, login.issuedAt);
            && (Admits(service, w, Some("Bearer " + token), checkedAt, Up, login.user.username) <==>
                  && Unexpired(login, checkedAt) && Live(w.sessions, Key(login.user.openid), w.now)
                  && 1 <= |Utf8.Encode(login.user.username)| <= 64)
            && (Unexpired(login, w.now) ==> Live(w.sessions, Key(login.user.openid), w.now))
  {
    var w0 := Run(service, INITIAL, before);
    var login := w0.logins[i];
    RunKeepsInv(service, INITIAL, before);
    assert LoginInv(w0, login);
    IssuedTokenStaysUsable(service, before, i, after, checkedAt);
    AnsweredAdmitted(service, Run(service, Next(service, w0, Save(i, Up)), after), login, checkedAt);
  }
}
