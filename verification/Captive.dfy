/** The captive portal: a successful login registers a session for the client address. */
module Captive {
  import opened Wrappers
  import opened Cidr
  import opened Identity

  datatype UserInfo = UserInfo(userID: int, groupID: int)

  datatype StaticUser = StaticUser(password: string, userID: int, groupID: int)

  /** StaticCredentials: succeeds exactly for a known user with the right password. */
  method Authenticate(users: map<string, StaticUser>, username: string, password: string) returns (r: Option<UserInfo>)
    ensures r.Some? <==> username in users && users[username].password == password
    ensures r.Some? ==> r.value == UserInfo(users[username].userID, users[username].groupID)
  {
    if username !in users || users[username].password != password {
      return None;
    }
    return Some(UserInfo(users[username].userID, users[username].groupID));
  }

  datatype LoginOutcome = NotPost | BadCredentials | NoClientAddress | LoggedIn

  /** The group a login gives: that of the range, or the user's own when that is 0. */
  function LoginGroup(s: IdentityState, a: Address, user: UserInfo): int {
    var group := s.RangeIdentity(a).groupID;
    if group == 0 then user.groupID else group
  }

  function WithLogin(s: IdentityState, a: Address, username: string, user: UserInfo, expiresAt: int): IdentityState {
    s.(sessions := s.sessions[a := Session(a, user.userID, username, LoginGroup(s, a, user), expiresAt)])
  }

  class Server {
    const resolver: Resolver
    const sessionTTL: int

    constructor (resolver: Resolver, sessionTTL: int)
      ensures this.resolver == resolver && this.sessionTTL == sessionTTL
    {
      this.resolver := resolver;
      this.sessionTTL := sessionTTL;
    }

    /** The session part of handleAuth. user is what the authenticator answered, remote the client
        address, None when the remote address does not split into host and port. */
    method HandleAuth(isPost: bool, username: string, user: Option<UserInfo>, remote: Option<Address>, now: int)
      returns (outcome: LoginOutcome)
      modifies resolver`sessions
      ensures outcome.LoggedIn? <==> isPost && user.Some? && remote.Some?
      ensures !outcome.LoggedIn? ==> resolver.State() == old(resolver.State())
      ensures outcome.LoggedIn? ==>
                resolver.State() == WithLogin(old(resolver.State()), remote.value, username, user.value,
                                              now + sessionTTL)
    {
      if !isPost {
        return NotPost;
      }
      if user.None? {
        return BadCredentials;
      }
      if remote.None? {
        return NoClientAddress;
      }
      var clientIP := remote.value;
      var groupID := resolver.GetRangeGroupID(clientIP);
      if groupID == 0 {
        groupID := user.value.groupID;
      }
      resolver.AddSession(Session(clientIP, user.value.userID, username, groupID, now + sessionTTL));
      return LoggedIn;
    }
  }

  // ---------- after a login ----------

  /** What can happen to the sessions later, the ranges being left alone. */
  datatype Event = Login(client: Address, username: string, user: UserInfo, expiresAt: int) | Evict(at: int)

  function Happen(s: IdentityState, e: Event): IdentityState {
    match e
    case Login(a, username, user, expiresAt) => WithLogin(s, a, username, user, expiresAt)
    case Evict(at) => s.(sessions := Unexpired(s.sessions, at))
  }

  function HappenAll(s: IdentityState, events: seq<Event>): IdentityState {
    if events == [] then s else Happen(HappenAll(s, events[..|events| - 1]), events[|events| - 1])
  }

  lemma {:induction false} SessionKept(s: IdentityState, session: Session, events: seq<Event>, t: int)
    requires session.clientIP in s.sessions && s.sessions[session.clientIP] == session
    requires forall i :: 0 <= i < |events| ==>
               if events[i].Login? then events[i].client != session.clientIP else events[i].at <= t
    ensures var s', a := HappenAll(s, events), session.clientIP;
            && s'.ranges == s.ranges && s'.defaultGroupID == s.defaultGroupID
            && (a in s'.sessions ==> s'.sessions[a] == session)
            && (a !in s'.sessions ==> session.expiresAt < t)
  {
    if events != [] {
      SessionKept(s, session, events[..|events| - 1], t);
    }
  }

  /** The group of a login is the one that its range or the default gives, or the user's own when
      that is 0. */
  lemma LoginGroupMeaning(s: IdentityState, a: Address, user: UserInfo, group: int)
    requires GroupAt(s, a, group)
    ensures LoginGroup(s, a, user) == if group == 0 then user.groupID else group
  {
    RangesDecide(s, a);
  }

  /** Whatever other clients' logins and evictions follow, until it expires a login answers with
      the user, in the login's group and free of the portal; from then on the client is again what
      its range makes it, login requirement included. */
  lemma {:induction false} LoginLifecycle(s: IdentityState, a: Address, username: string, user: UserInfo,
                                          expiresAt: int, events: seq<Event>, t: int)
    requires forall i :: 0 <= i < |events| ==> if events[i].Login? then events[i].client != a else events[i].at <= t
    ensures var id := HappenAll(WithLogin(s, a, username, user, expiresAt), events).Resolved(a, t);
            && (t < expiresAt ==> id == Identity(user.userID, username, LoginGroup(s, a, user), 0))
            && (expiresAt <= t ==> FollowsRanges(s, a, id))
  {
    var session := Session(a, user.userID, username, LoginGroup(s, a, user), expiresAt);
    SessionKept(WithLogin(s, a, username, user, expiresAt), session, events, t);
    RangesDecide(s, a);
  }

  /** A login keeps the group of the client's range exactly when that is not 0, or is the user's
      group anyway. */
  lemma LoginKeepsGroupIff(s: IdentityState, a: Address, username: string, user: UserInfo, expiresAt: int, t: int,
                           group: int)
    requires t < expiresAt && GroupAt(s, a, group)
    ensures WithLogin(s, a, username, user, expiresAt).Resolved(a, t).groupID == group <==>
            group != 0 || user.groupID == 0
  {
    LoginGroupMeaning(s, a, user, group);
  }
}
