/** The user and session calls of the service, changing the user table and the session store in
    place. Each is one uninterrupted pass of the matching steps of the Sessions machine. */
module UserService {
  import Gateway
  import Sessions
  import Token
  import opened Wrappers

  class UserService {
    const service: Sessions.Service
    var users: map<string, Sessions.User>
    var sessions: map<string, Sessions.Entry>

    constructor (service: Sessions.Service)
      ensures this.service == service && users == map[] && sessions == map[]
    {
      this.service, users, sessions := service, map[], map[];
    }

    ghost function World(now: Sessions.clock): Sessions.World
      reads this
    {
      Sessions.World(now, users, sessions, [])
    }

    // crates/qa-svc/src/core/user.rs

    method Get(key: string, now: Sessions.clock, store: Sessions.Store) returns (r: Result<Sessions.Session, string>)
      ensures r.Ok? <==> store.Up? && key in sessions && now < sessions[key].deadline
      ensures r.Ok? ==> r.value == sessions[key].session
      ensures r.Err? ==> r.error == if store.Up? then "user session not found" else store.text
    {
      r := Sessions.Get(sessions, key, now, store);
    }

    method Set(key: string, session: Sessions.Session, seconds: nat, now: Sessions.clock, store: Sessions.Store)
      returns (r: Result<(), string>)
      modifies this`sessions
      ensures r.Ok? <==> store.Up?
      ensures sessions == if store.Up? then old(sessions)[key := Sessions.Entry(session, now + seconds * 1000)]
              else old(sessions)
    {
      if store.Down? {
        return Err(store.text);
      }
      sessions := sessions[key := Sessions.Entry(session, now + seconds * 1000)];
      return Ok(());
    }

    method Del(key: string, store: Sessions.Store) returns (r: Result<(), string>)
      modifies this`sessions
      ensures r.Ok? <==> store.Up?
      ensures sessions == if store.Up? then old(sessions) - {key} else old(sessions)
    {
      if store.Down? {
        return Err(store.text);
      }
      sessions := sessions - {key};
      return Ok(());
    }

    // crates/qa-svc/src/application/app.rs

    /** `openid` is the fresh identifier drawn for the new user; either statement may fail. */
    method UserRegister(username: string, password: string, openid: string, now: Sessions.clock, lookupFails: bool,
                        insertFails: bool)
      returns (r: Result<(), Gateway.GrpcCode>)
      requires service.Valid() && Sessions.FreshOpenid(users, openid)
      modifies this`users
      ensures r.Ok? <==> !lookupFails && username !in old(users) && !insertFails
      ensures users == if r.Ok?
              then Sessions.Next(service, old(World(now)), Sessions.Register(username, password, openid)).users
                       else old(users)
      ensures r == Err(Gateway.Internal) <==> lookupFails
      ensures r == Err(Gateway.AlreadyExists) <==> !lookupFails && username in old(users)
      ensures r == Err(Gateway.Unknown) <==> !lookupFails && username !in old(users) && insertFails
    {
      if lookupFails {
        return Err(Gateway.Internal);
      }
      if username in users {
        return Err(Gateway.AlreadyExists);
      }
      if insertFails {
        return Err(Gateway.Unknown);
      }
      users := users[username := Sessions.User(username, service.md5(password), openid)];
      return Ok(());
    }

    /** The clock is read at `issuedAt`, between the session lookup and the session write. Fetching
        the user may fail too. */
    method UserLogin(username: string, password: string, loginId: string, fetchFails: bool,
                     readAt: Sessions.clock, issuedAt: Sessions.clock, savedAt: Sessions.clock,
                     lookup: Sessions.Store, write: Sessions.Store)
      returns (r: Result<string, Gateway.GrpcCode>)
      requires service.Valid() && Sessions.IsLoginId(loginId)
      requires readAt <= issuedAt <= savedAt
      modifies this`sessions
      ensures var steps := LoginSteps(username, password, loginId, readAt, issuedAt, savedAt, lookup, write);
              var w := Sessions.Run(service, old(World(readAt)), if fetchFails then [] else steps);
              && sessions == w.sessions
              && (r.Ok? <==> |w.logins| == 1 && w.logins[0].Saved?)
      ensures r.Ok? ==> username in users && r.value == service.Issue(loginId, users[username].openid, issuedAt)
      ensures r.Err? ==> sessions == old(sessions)
      ensures var refusal := Refusal(service, users, old(sessions), username, password, fetchFails, readAt, lookup,
              write);
              r.Ok? <==> refusal.None?
      ensures r.Err? ==>
              Refusal(service, users, old(sessions), username, password, fetchFails, readAt, lookup, write) ==
                  Some(r.error)
    {
      if fetchFails {
        return Err(Gateway.Internal);
      }
      LoginRun(service, World(readAt), username, password, loginId, issuedAt, savedAt, lookup, write);
      if username !in users {
        return Err(Gateway.Unknown);
      }
      var user := users[username];
      if user.password != service.md5(password) {
        return Err(Gateway.InvalidArgument);
      }
      var key := Sessions.Key(user.openid);
      var present := Get(key, readAt, lookup);
      if present.Ok? {
        return Err(Gateway.AlreadyExists);
      }
      var token := service.Issue(loginId, user.openid, issuedAt);
      var saved := Set(key, Sessions.Session(user.username, user.openid), Sessions.SESSION_SECONDS, savedAt, write);
      if saved.Err? {
        return Err(Gateway.Internal);
      }
      return Ok(token);
    }

    /** The token is checked at `checkedAt`, the session removed at `now`. */
    method UserLogout(token: string, checkedAt: Sessions.clock, now: Sessions.clock, store: Sessions.Store)
      returns (r: Result<(), Gateway.GrpcCode>)
      requires service.Valid() && checkedAt <= now
      modifies this`sessions
      ensures sessions == Sessions.Next(service, old(World(now)), Sessions.Logout(token, checkedAt, store)).sessions
      ensures r.Ok? <==> service.Check(token, checkedAt).Ok? && store.Up?
      ensures r == Err(Gateway.Unauthenticated) <==> service.Check(token, checkedAt) == Err(Token.Expired)
      ensures r == Err(Gateway.InvalidArgument) <==>
                service.Check(token, checkedAt).Err? && service.Check(token, checkedAt) != Err(Token.Expired)
      ensures r == Err(Gateway.Aborted) <==> service.Check(token, checkedAt).Ok? && store.Down?
    {
      var openid := service.Check(token, checkedAt);
      match openid
      case Err(Expired) =>
        return Err(Gateway.Unauthenticated);
      case Err(_) =>
        return Err(Gateway.InvalidArgument);
      case Ok(id) =>
        var removed := Del(Sessions.Key(id), store);
        return if removed.Err? then Err(Gateway.Aborted) else Ok(());
    }
  }

  // Which logins are refused

  /** The refusal of a login, if it is refused. */
  function Refusal(service: Sessions.Service, users: map<string, Sessions.User>, sessions: map<string, Sessions.Entry>,
                   username: string, password: string, fetchFails: bool,
                   now: Sessions.clock, lookup: Sessions.Store, write: Sessions.Store): Option<Gateway.GrpcCode>
  {
    if fetchFails then Some(Gateway.Internal)
    else if username !in users then Some(Gateway.Unknown)
    else if users[username].password != service.md5(password) then Some(Gateway.InvalidArgument)
    else if lookup.Up? && Sessions.Live(sessions, Sessions.Key(users[username].openid), now)
        then Some(Gateway.AlreadyExists)
    else if write.Down? then Some(Gateway.Internal)
    else None
  }

  /** A login is let through exactly if the machine may begin it and its session can be written; and the
      refusals tell its reasons apart, but for the two failures answered `Internal`. */
  lemma RefusalIff(service: Sessions.Service, users: map<string, Sessions.User>, sessions: map<string, Sessions.Entry>,
                   username: string, password: string, fetchFails: bool,
                   now: Sessions.clock, lookup: Sessions.Store, write: Sessions.Store)
    ensures var refusal := Refusal(service, users, sessions, username, password, fetchFails, now, lookup, write);
            var mayBegin := Sessions.MayBeginLogin(service, users, sessions, username, password, now, lookup);
            && (refusal.None? <==> !fetchFails && mayBegin && write.Up?)
            && (refusal == Some(Gateway.Internal) <==> fetchFails || (mayBegin && write.Down?))
            && (refusal == Some(Gateway.Unknown) <==> !fetchFails && username !in users)
            && (refusal == Some(Gateway.InvalidArgument) <==>
                  !fetchFails && username in users && users[username].password != service.md5(password))
            && (refusal == Some(Gateway.AlreadyExists) <==>
                  && !fetchFails && username in users && users[username].password == service.md5(password)
                  && lookup.Up? && Sessions.Live(sessions, Sessions.Key(users[username].openid), now))
  {
  }

  function LoginSteps(username: string, password: string, loginId: string,
                      readAt: Sessions.clock, issuedAt: Sessions.clock, savedAt: Sessions.clock,
                      lookup: Sessions.Store, write: Sessions.Store): seq<Sessions.Step>
    requires readAt <= issuedAt <= savedAt
  {
    [Sessions.BeginLogin(username, password, lookup), Sessions.Tick(issuedAt - readAt),
     Sessions.Stamp(0, loginId), Sessions.Tick(savedAt - issuedAt), Sessions.Save(0, write)]
  }

  /** The five steps of one login, from a world with no other login under way. */
  lemma LoginRun(service: Sessions.Service, w: Sessions.World, username: string, password: string, loginId: string,
                 issuedAt: Sessions.clock, savedAt: Sessions.clock, lookup: Sessions.Store, write: Sessions.Store)
    requires service.Valid() && Sessions.IsLoginId(loginId) && w.logins == []
    requires w.now <= issuedAt <= savedAt
    ensures var steps := LoginSteps(username, password, loginId, w.now, issuedAt, savedAt, lookup, write);
            var w' := Sessions.Run(service, w, steps);
            if Sessions.MayBeginLogin(service, w.users, w.sessions, username, password, w.now, lookup) then
              && w'.sessions ==
                 (if write.Up? then Sessions.SetSession(w.sessions, w.users[username], savedAt) else w.sessions)
              && |w'.logins| == 1 && (w'.logins[0].Saved? <==> write.Up?)
            else
              w'.sessions == w.sessions && w'.logins == []
  {
    Sessions.RunFive(service, w, LoginSteps(username, password, loginId, w.now, issuedAt, savedAt, lookup, write));
  }
}
