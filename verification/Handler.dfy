/** The query pipeline: identity, captive portal, policy, cache, upstream, log. */
module Handler {
  import opened Wrappers
  import opened DnsMessages
  import opened Cidr
  import opened Identity
  import opened Store
  import opened Engine
  import opened Reload
  import Cache
  import CacheRuns
  import Upstream
  import Log = LogPipeline

  const BLOCK_TTL := 60
  const PORTAL_TTL := 10
  const IPV6_ZERO := "::"

  // ---------- what one query gets ----------

  /** A query: the request, the client it came from, and when its handling started. */
  datatype Query = Query(request: Message, client: Address, start: int)
  {
    predicate Asks() {
      request.question != []
    }

    function Name(): string
      requires Asks()
    {
      request.question[0].name
    }

    function Type(): nat
      requires Asks()
    {
      request.question[0].qtype
    }
  }

  /** What a query reads of the resolver and of the filter. */
  datatype Settings = Settings(identity: IdentityState, filter: Config)

  datatype Setup = Setup(blockIP: string, portalIP: string, cache: CacheRuns.Env)

  datatype Origin = FromPortal | FromPolicy | FromCache | FromUpstream | FromFailure

  datatype Reply = Reply(origin: Origin, message: Message, entry: Option<Log.Entry>)

  /** The answer given instead of the true one: an address for A, the zero address for AAAA, no
      record for any other type; never an error code. */
  function Refusal(request: Message, address: string, ttl: nat): Message
    requires request.question != []
  {
    var name, qtype := request.question[0].name, request.question[0].qtype;
    var reply := AsReply(EMPTY_MESSAGE, request);
    reply.(
    header := reply.header.(authoritative := true),
    answer := if qtype == TYPE_A then [RR(name, TYPE_A, ttl, address)]
              else if qtype == TYPE_AAAA then [RR(name, TYPE_AAAA, ttl, IPV6_ZERO)]
              else [])
  }

  function ServerFailure(request: Message): Message {
    var reply := AsReply(EMPTY_MESSAGE, request);
    reply.(header := reply.header.(rcode := RCODE_SERVER_FAILURE))
  }

  function NewEntry(q: Query, id: Identity, action: Log.LogAction, reason: Log.BlockReason, ip: Option<string>,
                   upstream: string): Log.Entry
    requires q.Asks()
  {
    Log.Entry(q.start, q.client, if id.userID != 0 then Some(id.userID) else None, id.groupID, q.Name(), q.Type(),
              action, reason, ip, upstream)
  }

  ghost function VerdictOf(c: Config, domain: string, group: int): Verdict {
    Decide(c.white, c.black, c.categories, c.policies, domain, group)
  }

  /** The reply of the portal or of the policy, if they do not let the query through. */
  ghost function PolicyReply(setup: Setup, seen: Settings, q: Query, now: int): Option<Reply>
    requires q.Asks()
  {
    var id := seen.identity.Resolved(q.client, now);
    if id.authMode == AUTH_CAPTIVE_PORTAL then
      Some(Reply(FromPortal, Refusal(q.request, setup.portalIP, PORTAL_TTL),
                 Some(NewEntry(q, id, Log.ActionBlocked, Log.ReasonPolicy, None, "captive"))))
    else if VerdictOf(seen.filter, q.Name(), id.groupID).action == Action.Block then
      Some(Reply(FromPolicy, Refusal(q.request, setup.blockIP, BLOCK_TTL),
                 Some(NewEntry(q, id, Log.ActionBlocked, Log.ReasonBlacklist, None, "blocked"))))
    else None
  }

  function CachedReply(q: Query, id: Identity, m: Message): Reply
    requires q.Asks()
  {
    Reply(FromCache, AsReply(m, q.request),
          Some(NewEntry(q, id, Log.ActionCached, Log.ReasonNone, FirstA(m.answer), "cache")))
  }

  function UpstreamReply(q: Query, id: Identity, m: Message): Reply
    requires q.Asks()
  {
    Reply(FromUpstream, AsReply(m, q.request),
          Some(NewEntry(q, id, Log.ActionAllowed, Log.ReasonNone, FirstA(m.answer), "upstream")))
  }

  function FailureReply(q: Query): Reply {
    Reply(FromFailure, ServerFailure(q.request), None)
  }

  function KeyFor(setup: Setup, q: Query): string
    requires q.Asks()
  {
    Cache.Key(setup.cache.types, q.Name(), q.Type())
  }

  /** The upstream stage: what is answered, and what the cache becomes. */
  function Forwarded(setup: Setup, c: Cache.CacheState, q: Query, id: Identity, upstreams: seq<Upstream.Exchange>,
                     now: int, io: Cache.RedisIO): (Reply, Cache.CacheState)
    requires q.Asks()
  {
    match Upstream.FirstAnswer(upstreams)
    case None => (FailureReply(q), c)
    case Some(m) => (UpstreamReply(q, id, m), Cache.SetState(setup.cache.config, c, KeyFor(setup, q), m, now, io))
  }

  /** The instants at which the stages of one query read the clock, and what Redis does in them. */
  datatype Clock = Clock(start: int, resolve: int, lookup: int, store: int)

  datatype Redis = Redis(lookup: Cache.RedisIO, store: Cache.RedisIO)

  /** The cache stage, and the upstream stage when it misses, with no other query between them. */
  function Answered(setup: Setup, c: Cache.CacheState, q: Query, id: Identity, clock: Clock, redis: Redis,
                    upstreams: seq<Upstream.Exchange>): (Reply, Cache.CacheState)
    requires q.Asks()
  {
    var c' := Cache.GetState(setup.cache.config, c, KeyFor(setup, q), clock.lookup, redis.lookup);
    match Cache.GetResult(c, KeyFor(setup, q), clock.lookup, redis.lookup)
    case Some(m) => (CachedReply(q, id, m), c')
    case None => Forwarded(setup, c', q, id, upstreams, clock.store, redis.store)
  }

  /** The whole handling of one query. */
  ghost function Served(setup: Setup, seen: Settings, c: Cache.CacheState, q: Query, clock: Clock, redis: Redis,
                        upstreams: seq<Upstream.Exchange>): (Reply, Cache.CacheState)
    requires q.Asks()
  {
    match PolicyReply(setup, seen, q, clock.resolve)
    case Some(reply) => (reply, c)
    case None => Answered(setup, c, q, seen.identity.Resolved(q.client, clock.resolve), clock, redis, upstreams)
  }

  /** When what a query reads of the filter indexes the tables, the policy refuses it exactly when
      the tables block the name for the group; and the portal answers exactly the clients that have
      to log in first. */
  lemma PolicyFollowsTables(setup: Setup, seen: Settings, q: Query, now: int, db: Tables,
                            fileBlack: set<string>, fileWhite: set<string>)
    requires q.Asks() && OneCategoryEach(db)
    requires var c := seen.filter; Indexes(db, fileBlack, fileWhite, c.white, c.black, c.categories, c.policies)
    ensures var id, reply := seen.identity.Resolved(q.client, now), PolicyReply(setup, seen, q, now);
            && (reply.Some? && reply.value.origin.FromPortal? <==> id.authMode == AUTH_CAPTIVE_PORTAL)
            && (reply.Some? && reply.value.origin.FromPolicy? <==>
                id.authMode != AUTH_CAPTIVE_PORTAL
                && exists r :: TableVerdict(db, fileBlack, fileWhite, q.Name(), id.groupID, r)
                     && r.action == Action.Block)
  {
    var c, group := seen.filter, seen.identity.Resolved(q.client, now).groupID;
    var r := VerdictOf(c, q.Name(), group);
    IndexedVerdict(db, fileBlack, fileWhite, c.white, c.black, c.categories, c.policies, q.Name(), group);
    forall r' | TableVerdict(db, fileBlack, fileWhite, q.Name(), group, r') ensures r' == r {
      TableVerdictUnique(db, fileBlack, fileWhite, q.Name(), group, r, r');
    }
  }

  // ---------- what a client receives, and what is logged ----------

  /** An answer of this program instead of the true one: authoritative and without an error; for A
      and AAAA one record of the name and the type asked for, with this TTL. */
  predicate Refuses(m: Message, request: Message, address: string, ttl: nat)
    requires request.question != []
  {
    && Fits(m, request) && m.header.authoritative && m.header.rcode == 0
    && var Question(name, qtype) := request.question[0];
    && (qtype == 1 ==> m.answer == [RR(name, 1, ttl, address)])
    && (qtype == 28 ==> m.answer == [RR(name, 28, ttl, "::")])
    && (qtype != 1 && qtype != 28 ==> m.answer == [])
  }

  /** A failure: no record, and the error code for it. */
  predicate Fails(m: Message, request: Message)
    requires request.question != []
  {
    Fits(m, request) && m.answer == [] && m.header.rcode == 2 && !m.header.authoritative
  }

  /** The log entry of a query: who asked what and when, what became of it, and the first address
      answered; a user only when there is one. */
  ghost predicate Records(entry: Option<Log.Entry>, q: Query, id: Identity, action: Log.LogAction,
                          reason: Log.BlockReason,
                    answer: seq<RR>, upstream: string)
    requires q.Asks()
  {
    && entry.Some? && var e := entry.value;
    && e.queriedAt == q.start && e.clientIP == q.client
    && e.domain == q.request.question[0].name && e.queryType == q.request.question[0].qtype
    && e.groupID == id.groupID && e.userID == (if id.userID == 0 then None else Some(id.userID))
    && e.action == action && e.blockReason == reason && e.upstream == upstream
    && (forall i :: FirstAAt(answer, i) ==> e.responseIP == Some(answer[i].data))
    && ((forall i :: 0 <= i < |answer| ==> answer[i].rrtype != 1) ==> e.responseIP == None)
  }

  lemma FirstAFound(answer: seq<RR>)
    ensures forall i :: FirstAAt(answer, i) ==> FirstA(answer) == Some(answer[i].data)
    ensures (forall i :: 0 <= i < |answer| ==> answer[i].rrtype != 1) ==> FirstA(answer) == None
  {
    forall i | FirstAAt(answer, i) ensures FirstA(answer) == Some(answer[i].data) {
      FirstAIff(answer, answer[i].data);
    }
    if FirstA(answer).Some? {
      FirstAIff(answer, FirstA(answer).value);
    }
  }

  /** The reply that a stage gives, for the message that it found or was given. */
  ghost predicate Replies(setup: Setup, reply: Reply, q: Query, id: Identity, found: Message)
    requires q.Asks()
  {
    var m, r := reply.message, q.request;
    match reply.origin
    case FromPortal =>
      && Refuses(m, r, setup.portalIP, 10)
      && Records(reply.entry, q, id, Log.ActionBlocked, Log.ReasonPolicy, [], "captive")
    case FromPolicy =>
      && Refuses(m, r, setup.blockIP, 60)
      && Records(reply.entry, q, id, Log.ActionBlocked, Log.ReasonBlacklist, [], "blocked")
    case FromCache =>
      && RepliesWith(m, found, r)
      && Records(reply.entry, q, id, Log.ActionCached, Log.ReasonNone, found.answer, "cache")
    case FromUpstream =>
      && RepliesWith(m, found, r)
      && Records(reply.entry, q, id, Log.ActionAllowed, Log.ReasonNone, found.answer, "upstream")
    case FromFailure => Fails(m, r) && reply.entry == None
  }

  lemma PolicyReplies(setup: Setup, seen: Settings, q: Query, now: int, found: Message)
    requires q.Asks()
    ensures var id, reply := seen.identity.Resolved(q.client, now), PolicyReply(setup, seen, q, now);
            reply.Some? ==> Replies(setup, reply.value, q, id, found)
  {
    FirstAFound([]);
    ReplyMeaning(EMPTY_MESSAGE, q.request);
  }

  lemma StagesReply(setup: Setup, q: Query, id: Identity, m: Message)
    requires q.Asks()
    ensures Replies(setup, CachedReply(q, id, m), q, id, m) && Replies(setup, UpstreamReply(q, id, m), q, id, m)
    ensures Replies(setup, FailureReply(q), q, id, m)
  {
    FirstAFound(m.answer);
    ReplyMeaning(m, q.request);
    ReplyMeaning(EMPTY_MESSAGE, q.request);
  }

  /** What the cache had for the question, or else what the upstreams gave. */
  ghost function Found(setup: Setup, c: Cache.CacheState, q: Query, clock: Clock, redis: Redis,
                       upstreams: seq<Upstream.Exchange>): Option<Message>
    requires q.Asks()
  {
    var cached := Cache.GetResult(c, KeyFor(setup, q), clock.lookup, redis.lookup);
    if cached.Some? then cached else Upstream.FirstAnswer(upstreams)
  }

  /** Which path a query takes: the portal for who has to log in, then the policy for what it blocks,
      then the cache if it answers, then the first upstream that does, and the failure if none does. */
  lemma PathTaken(setup: Setup, seen: Settings, c: Cache.CacheState, q: Query, clock: Clock, redis: Redis,
                  upstreams: seq<Upstream.Exchange>)
    requires q.Asks()
    ensures var origin, id := Served(setup, seen, c, q, clock, redis, upstreams).0.origin,
            seen.identity.Resolved(q.client, clock.resolve);
            var blocked := VerdictOf(seen.filter, q.Name(), id.groupID).action.Block?;
            var hit := Cache.GetResult(c, KeyFor(setup, q), clock.lookup, redis.lookup).Some?;
            var answered := exists i :: 0 <= i < |upstreams| && upstreams[i].Answered?;
            && (origin.FromPortal? <==> id.authMode == 1)
            && (origin.FromPolicy? <==> id.authMode != 1 && blocked)
            && (origin.FromCache? <==> id.authMode != 1 && !blocked && hit)
            && (origin.FromUpstream? <==> id.authMode != 1 && !blocked && !hit && answered)
            && (origin.FromFailure? <==> id.authMode != 1 && !blocked && !hit && !answered)
  {
    Upstream.AnsweredIff(upstreams);
  }

  /** On every path the client receives one reply that fits its request, of the content that the
      path is for, and the log what happened. */
  lemma EveryPathReplies(setup: Setup, seen: Settings, c: Cache.CacheState, q: Query, clock: Clock, redis: Redis,
                         upstreams: seq<Upstream.Exchange>)
    requires q.Asks()
    ensures var reply := Served(setup, seen, c, q, clock, redis, upstreams).0;
            var found := Found(setup, c, q, clock, redis, upstreams);
            && Fits(reply.message, q.request)
            && (reply.origin.FromCache? || reply.origin.FromUpstream? ==> found.Some?)
            && Replies(setup, reply, q, seen.identity.Resolved(q.client, clock.resolve),
                       if found.Some? then found.value else EMPTY_MESSAGE)
  {
    var id, found := seen.identity.Resolved(q.client, clock.resolve), Found(setup, c, q, clock, redis, upstreams);
    var m := if found.Some? then found.value else EMPTY_MESSAGE;
    PolicyReplies(setup, seen, q, clock.resolve, m);
    StagesReply(setup, q, id, m);
  }

  // ---------- the objects ----------

  class ResponseWriter {
    var written: seq<Message>

    constructor ()
      ensures written == []
    {
      written := [];
    }

    method WriteMsg(msg: Msg)
      modifies this
      ensures written == old(written) + [msg.Value()]
    {
      written := written + [msg.Value()];
    }
  }

  class Handler {
    const cache: Cache.Cache
    const filter: Engine
    const identity: Resolver
    const logger: Log.Pipeline?
    const blockIP: string
    const portalIP: string
    var queryCount: nat

    constructor (cache: Cache.Cache, filter: Engine, identity: Resolver, logger: Log.Pipeline?,
                 blockIP: string, portalIP: string)
      ensures this.cache == cache && this.filter == filter && this.identity == identity && this.logger == logger
      ensures this.blockIP == blockIP && this.portalIP == portalIP && queryCount == 0
    {
      this.cache, this.filter, this.identity, this.logger := cache, filter, identity, logger;
      this.blockIP, this.portalIP := blockIP, portalIP;
      queryCount := 0;
    }

    ghost function Made(): Setup {
      Setup(blockIP, portalIP, CacheRuns.Env(cache.Settings(), cache.types))
    }

    ghost function Seen(): Settings
      reads identity, filter, filter.whitelist, filter.blacklist
    {
      Settings(identity.State(),
               Config(Names(filter.whitelist), Names(filter.blacklist), filter.domainCategories, filter.groupPolicies))
    }

    ghost predicate LogOpen()
      reads logger, if logger == null then {} else {logger.batch}
    {
      logger != null ==> logger.Valid() && !logger.closed
    }

    ghost function LogState(): Option<Log.PipelineState>
      reads logger, if logger == null then {} else {logger.batch}
      requires LogOpen()
    {
      if logger == null then None else Some(logger.State())
    }

    ghost function Logged(l: Option<Log.PipelineState>, entry: Option<Log.Entry>,
                          waiting: bool): Option<Log.PipelineState> {
      if l.Some? && entry.Some? then Some(Log.Step(l.value, Log.Event.Send(entry.value, waiting))) else l
    }

    /** One query, answered once, counted once and logged at most once; a message without a
        question is ignored. waiting says whether the log consumer is at its select. */
    method ServeDNS(w: ResponseWriter, r: Msg, client: Address, clock: Clock, redis: Redis,
                    upstreams: seq<Upstream.Exchange>,
                    waiting: bool)
      requires cache.Valid() && LogOpen() && r !in cache.Repr
      modifies w, this`queryCount
      modifies cache, cache.l2
      modifies logger, if logger == null then {} else {logger.batch}
      ensures cache.Valid() && LogOpen() && fresh(cache.Repr - old(cache.Repr))
      ensures old(r.question) == [] ==>
                && w.written == old(w.written) && queryCount == old(queryCount)
                && cache.State() == old(cache.State()) && LogState() == old(LogState())
      ensures old(r.question) != [] ==>
                var (reply, c) := old(Served(Made(), Seen(), cache.State(), Query(r.Value(), client, clock.start),
                                             clock, redis, upstreams));
                && w.written == old(w.written) + [reply.message] && queryCount == old(queryCount) + 1
                && cache.State() == c && LogState() == Logged(old(LogState()), reply.entry, waiting)
    {
      if |r.question| == 0 {
        return;
      }
      var q := Query(r.Value(), client, clock.start);
      ServeQuestion(w, r, q, clock, redis, upstreams, waiting);
      queryCount := queryCount + 1;
    }

    method ServeQuestion(w: ResponseWriter, r: Msg, q: Query, clock: Clock, redis: Redis,
                         upstreams: seq<Upstream.Exchange>,
                         waiting: bool)
      requires cache.Valid() && LogOpen() && r !in cache.Repr && q.request == r.Value() && q.Asks()
      modifies w, cache, cache.l2
      modifies logger, if logger == null then {} else {logger.batch}
      ensures cache.Valid() && LogOpen() && fresh(cache.Repr - old(cache.Repr))
      ensures var (reply, c) := old(Served(Made(), Seen(), cache.State(), q, clock, redis, upstreams));
              && w.written == old(w.written) + [reply.message]
              && cache.State() == c && LogState() == Logged(old(LogState()), reply.entry, waiting)
    {
      var entry := HandleQuestion(w, r, q, clock, redis, upstreams);
      SendEntry(entry, waiting);
    }

    /** The log call that ends every path but that of the failure. */
    method SendEntry(entry: Option<Log.Entry>, waiting: bool)
      requires LogOpen() && cache.Valid()
      modifies logger, if logger == null then {} else {logger.batch}
      ensures LogOpen() && LogState() == Logged(old(LogState()), entry, waiting)
      ensures logger != null ==>
                logger.State() == if entry.None? then old(logger.State())
                                  else Log.Step(old(logger.State()), Log.Event.Send(entry.value, waiting))
      ensures cache.Valid() && cache.State() == old(cache.State()) && cache.Repr == old(cache.Repr)
    {
      if logger != null && entry.Some? {
        logger.Send(entry.value, waiting);
      }
    }

    method HandleQuestion(w: ResponseWriter, r: Msg, q: Query, clock: Clock, redis: Redis,
                          upstreams: seq<Upstream.Exchange>)
      returns (entry: Option<Log.Entry>)
      requires cache.Valid() && r !in cache.Repr && q.request == r.Value() && q.Asks()
      modifies w, cache, cache.l2
      ensures cache.Valid() && fresh(cache.Repr - old(cache.Repr))
      ensures var (reply, c) := old(Served(Made(), Seen(), cache.State(), q, clock, redis, upstreams));
              w.written == old(w.written) + [reply.message] && cache.State() == c && entry == reply.entry
    {
      var id, refused;
      id, refused, entry := ApplyPolicy(w, r, q, clock.resolve);
      if !refused {
        entry := Answer(w, r, q, id, clock, redis, upstreams);
      }
    }

    /** Identity, portal and policy: nothing but the refusal itself is written. */
    method ApplyPolicy(w: ResponseWriter, r: Msg, q: Query, now: int)
      returns (id: Identity, refused: bool, entry: Option<Log.Entry>)
      requires q.request == r.Value() && q.Asks()
      modifies w
      ensures id == identity.State().Resolved(q.client, now)
      ensures var reply := PolicyReply(Made(), Seen(), q, now);
              && (refused <==> reply.Some?)
              && (refused ==> w.written == old(w.written) + [reply.value.message] && entry == reply.value.entry)
      ensures !refused ==> w.written == old(w.written)
    {
      id := identity.Resolve(q.client, now);
      if id.authMode == AUTH_CAPTIVE_PORTAL {
        SendCaptiveResponse(w, r, q.Name(), q.Type());
        return id, true, Some(NewEntry(q, id, Log.ActionBlocked, Log.ReasonPolicy, None, "captive"));
      }
      var result := filter.EvaluateForGroup(q.Name(), id.groupID);
      if result.action == Action.Block {
        SendBlockResponse(w, r, q.Name(), q.Type());
        return id, true, Some(NewEntry(q, id, Log.ActionBlocked, Log.ReasonBlacklist, None, "blocked"));
      }
      return id, false, None;
    }

    /** The cache stage, and the upstream stage when it misses. What is sent is changed into the
        reply after the cache took or gave a copy, so what is cached is what the upstream sent. */
    method Answer(w: ResponseWriter, r: Msg, q: Query, id: Identity, clock: Clock, redis: Redis,
                  upstreams: seq<Upstream.Exchange>)
      returns (entry: Option<Log.Entry>)
      requires cache.Valid() && r !in cache.Repr && q.request == r.Value() && q.Asks()
      modifies w, cache, cache.l2
      ensures cache.Valid() && fresh(cache.Repr - old(cache.Repr))
      ensures var (reply, c) := old(Answered(Made(), cache.State(), q, id, clock, redis, upstreams));
              w.written == old(w.written) + [reply.message] && cache.State() == c && entry == reply.entry
    {
      var cached := cache.Get(q.Name(), q.Type(), clock.lookup, redis.lookup);
      if cached != null {
        var responseIP := Deliver(w, r, cached);
        return Some(NewEntry(q, id, Log.ActionCached, Log.ReasonNone, responseIP, "cache"));
      }
      entry := Forward(w, r, q, id, clock.store, redis.store, upstreams);
    }

    method Forward(w: ResponseWriter, r: Msg, q: Query, id: Identity, now: int, io: Cache.RedisIO,
                   upstreams: seq<Upstream.Exchange>)
      returns (entry: Option<Log.Entry>)
      requires cache.Valid() && r !in cache.Repr && q.request == r.Value() && q.Asks()
      modifies w, cache, cache.l2
      ensures cache.Valid() && fresh(cache.Repr - old(cache.Repr))
      ensures var (reply, c) := old(Forwarded(Made(), cache.State(), q, id, upstreams, now, io));
              w.written == old(w.written) + [reply.message] && cache.State() == c && entry == reply.entry
    {
      var resp, asked := Upstream.Resolve(upstreams);
      if resp == null {
        SendFailure(w, r);
        return None;
      }
      cache.Set(q.Name(), q.Type(), resp, now, io);
      var responseIP := Deliver(w, r, resp);
      return Some(NewEntry(q, id, Log.ActionAllowed, Log.ReasonNone, responseIP, "upstream"));
    }

    method SendFailure(w: ResponseWriter, r: Msg)
      modifies w
      ensures w.written == old(w.written) + [ServerFailure(r.Value())]
    {
      var failure := new Msg(EMPTY_MESSAGE);
      failure.SetReply(r);
      failure.header := failure.header.(rcode := RCODE_SERVER_FAILURE);
      w.WriteMsg(failure);
    }

    /** Turns the message into a reply and sends it. */
    method Deliver(w: ResponseWriter, r: Msg, msg: Msg) returns (responseIP: Option<string>)
      requires msg != r
      modifies w, msg
      ensures w.written == old(w.written) + [AsReply(old(msg.Value()), r.Value())]
      ensures responseIP == FirstA(old(msg.answer))
    {
      msg.SetReply(r);
      w.WriteMsg(msg);
      responseIP := ExtractAnswerIP(msg.answer);
    }

    method SendBlockResponse(w: ResponseWriter, r: Msg, qName: string, qType: nat)
      requires r.question != [] && r.question[0] == Question(qName, qType)
      modifies w
      ensures w.written == old(w.written) + [Refusal(r.Value(), blockIP, BLOCK_TTL)]
    {
      var msg := new Msg(EMPTY_MESSAGE);
      msg.SetReply(r);
      msg.header := msg.header.(authoritative := true);
      if qType == TYPE_A {
        msg.answer := msg.answer + [RR(qName, TYPE_A, BLOCK_TTL, blockIP)];
      } else if qType == TYPE_AAAA {
        msg.answer := msg.answer + [RR(qName, TYPE_AAAA, BLOCK_TTL, IPV6_ZERO)];
      }
      assert msg.Value() == Refusal(r.Value(), blockIP, BLOCK_TTL);
      w.WriteMsg(msg);
    }

    method SendCaptiveResponse(w: ResponseWriter, r: Msg, qName: string, qType: nat)
      requires r.question != [] && r.question[0] == Question(qName, qType)
      modifies w
      ensures w.written == old(w.written) + [Refusal(r.Value(), portalIP, PORTAL_TTL)]
    {
      var msg := new Msg(EMPTY_MESSAGE);
      msg.SetReply(r);
      msg.header := msg.header.(authoritative := true);
      if qType == TYPE_A {
        msg.answer := msg.answer + [RR(qName, TYPE_A, PORTAL_TTL, portalIP)];
      } else if qType == TYPE_AAAA {
        msg.answer := msg.answer + [RR(qName, TYPE_AAAA, PORTAL_TTL, IPV6_ZERO)];
      }
      assert msg.Value() == Refusal(r.Value(), portalIP, PORTAL_TTL);
      w.WriteMsg(msg);
    }
  }
}
