/** Whole runs of the query pipeline: any number of queries in progress at once, their stages
    interleaved with each other, with invalidations and with evictions, each query reading whatever
    sessions, ranges and filter configuration were there when it arrived. */
module HandlerRuns {
  import opened Wrappers
  import opened DnsMessages
  import opened Identity
  import opened Handler
  import opened Cache
  import CacheRuns
  import Upstream

  /** Where a query stands: let through by the policy, missed in the cache, answered by an upstream
      whose message is still to be stored and sent, answered, or ignored for want of a question. */
  datatype Stage =
    | Passed(q: Query, id: Identity)
    | Missed(q: Query, id: Identity)
    | Replied(q: Query, id: Identity, m: Message)
    | Done
    | Ignored
  {
    predicate InProgress() {
      Passed? || Missed? || Replied?
    }
  }

  datatype Answer = Answer(query: nat, reply: Reply)

  datatype ServerState = ServerState(stages: map<nat, Stage>, cache: CacheState, answers: seq<Answer>, queryCount: nat)

  datatype Event =
    | Arrive(query: nat, q: Query, seen: Settings, now: int)
    | Lookup(query: nat, now: int, io: RedisIO)
    | Exchange(query: nat, upstreams: seq<Upstream.Exchange>, now: int)
    | Store(query: nat, now: int, io: RedisIO)
    | Invalidate(name: string, now: int)
    | Evict(now: int)

  function WithAnswer(s: ServerState, n: nat, reply: Reply): ServerState {
    s.(stages := s.stages[n := Done], answers := s.answers + [Answer(n, reply)], queryCount := s.queryCount + 1)
  }

  predicate Asking(s: ServerState, n: nat) {
    n in s.stages && s.stages[n].Passed? && s.stages[n].q.Asks()
  }

  predicate Forwarding(s: ServerState, n: nat) {
    n in s.stages && s.stages[n].Missed? && s.stages[n].q.Asks()
  }

  predicate Storing(s: ServerState, n: nat) {
    n in s.stages && s.stages[n].Replied? && s.stages[n].q.Asks()
  }

  ghost function Step(setup: Setup, s: ServerState, e: Event): ServerState {
    match e
    case Arrive(n, q, seen, now) =>
      if n in s.stages then s
      else if !q.Asks() then s.(stages := s.stages[n := Ignored])
      else (match PolicyReply(setup, seen, q, now)
            case Some(reply) => WithAnswer(s, n, reply)
            case None => s.(stages := s.stages[n := Passed(q, seen.identity.Resolved(q.client, now))]))
    case Lookup(n, now, io) =>
      if !Asking(s, n) then s
      else
        var q, id := s.stages[n].q, s.stages[n].id;
        var s' := s.(cache := GetState(setup.cache.config, s.cache, KeyFor(setup, q), now, io));
        (match GetResult(s.cache, KeyFor(setup, q), now, io)
         case Some(m) => WithAnswer(s', n, CachedReply(q, id, m))
         case None => s'.(stages := s.stages[n := Missed(q, id)]))
    case Exchange(n, upstreams, now) =>
      if !Forwarding(s, n) then s
      else
        var q, id := s.stages[n].q, s.stages[n].id;
        (match Upstream.FirstAnswer(upstreams)
         case None => WithAnswer(s, n, FailureReply(q))
         case Some(m) => s.(stages := s.stages[n := Replied(q, id, m)]))
    case Store(n, now, io) =>
      if !Storing(s, n) then s
      else
        var q, id, m := s.stages[n].q, s.stages[n].id, s.stages[n].m;
        WithAnswer(s.(cache := SetState(setup.cache.config, s.cache, KeyFor(setup, q), m, now, io)), n,
                   UpstreamReply(q, id, m))
    case Invalidate(name, _) => s.(cache := InvalidateState(s.cache, name))
    case Evict(now) => s.(cache := EvictState(s.cache, now))
  }

  ghost function Run(setup: Setup, s: ServerState, events: seq<Event>): ServerState {
    if events == [] then s else Step(setup, Run(setup, s, events[..|events| - 1]), events[|events| - 1])
  }

  function NewServer(l2: Option<map<string, RedisItem>>): ServerState {
    ServerState(map[], CacheRuns.NewCache(l2), [], 0)
  }

  lemma Arrives(setup: Setup, s: ServerState, n: nat, q: Query, seen: Settings, now: int)
    requires n !in s.stages && q.Asks()
    ensures var refused := PolicyReply(setup, seen, q, now);
            Step(setup, s, Arrive(n, q, seen, now)) ==
            if refused.Some? then WithAnswer(s, n, refused.value)
            else s.(stages := s.stages[n := Passed(q, seen.identity.Resolved(q.client, now))])
  {
  }

  lemma LooksPassed(setup: Setup, s: ServerState, n: nat, q: Query, id: Identity, now: int, io: RedisIO)
    requires q.Asks()
    ensures var found, c := GetResult(s.cache, KeyFor(setup, q), now, io),
            GetState(setup.cache.config, s.cache, KeyFor(setup, q), now, io);
            Step(setup, s.(stages := s.stages[n := Passed(q, id)]), Lookup(n, now, io)) ==
            if found.Some? then WithAnswer(s.(cache := c), n, CachedReply(q, id, found.value))
            else s.(cache := c, stages := s.stages[n := Missed(q, id)])
  {
    assert s.stages[n := Passed(q, id)][n := Done] == s.stages[n := Done];
    assert s.stages[n := Passed(q, id)][n := Missed(q, id)] == s.stages[n := Missed(q, id)];
  }

  lemma NothingWhenDone(setup: Setup, s: ServerState, n: nat, e: Event)
    requires n in s.stages && s.stages[n].Done? && (e.Lookup? || e.Exchange? || e.Store?) && e.query == n
    ensures Step(setup, s, e) == s
  {
  }

  lemma ExchangesMissed(setup: Setup, s: ServerState, n: nat, q: Query, id: Identity, upstreams: seq<Upstream.Exchange>,
                        now: int)
    requires q.Asks()
    ensures Step(setup, s.(stages := s.stages[n := Missed(q, id)]), Exchange(n, upstreams, now)) ==
            match Upstream.FirstAnswer(upstreams)
            case None => WithAnswer(s, n, FailureReply(q))
            case Some(m) => s.(stages := s.stages[n := Replied(q, id, m)])
  {
    assert s.stages[n := Missed(q, id)][n := Done] == s.stages[n := Done];
    forall m ensures s.stages[n := Missed(q, id)][n := Replied(q, id, m)] == s.stages[n := Replied(q, id, m)] {
    }
  }

  lemma StoresReplied(setup: Setup, s: ServerState, n: nat, q: Query, id: Identity, m: Message, now: int, io: RedisIO)
    requires q.Asks()
    ensures Step(setup, s.(stages := s.stages[n := Replied(q, id, m)]), Store(n, now, io)) ==
            WithAnswer(s.(cache := SetState(setup.cache.config, s.cache, KeyFor(setup, q), m, now, io)), n,
                       UpstreamReply(q, id, m))
  {
    assert s.stages[n := Replied(q, id, m)][n := Done] == s.stages[n := Done];
  }

  lemma FourInTurn(e1: Event, e2: Event, e3: Event, e4: Event)
    ensures [e1, e2, e3, e4] == [] + [e1] + [e2] + [e3] + [e4]
  {
  }

  lemma RunOfFour(setup: Setup, s: ServerState, e1: Event, e2: Event, e3: Event, e4: Event)
    ensures Run(setup, s, [e1, e2, e3, e4]) == Step(setup, Step(setup, Step(setup, Step(setup, s, e1), e2), e3), e4)
  {
    FourInTurn(e1, e2, e3, e4);
    RunOfTwo(setup, s, [], e1, e2);
    RunOfTwo(setup, s, [] + [e1] + [e2], e3, e4);
  }

  lemma RunOfTwo(setup: Setup, s: ServerState, events: seq<Event>, e: Event, e': Event)
    ensures Run(setup, s, events + [e] + [e']) == Step(setup, Step(setup, Run(setup, s, events), e), e')
  {
    RunSnoc(setup, s, events, e);
    RunSnoc(setup, s, events + [e], e');
  }

  lemma RunSnoc(setup: Setup, s: ServerState, events: seq<Event>, e: Event)
    ensures Run(setup, s, events + [e]) == Step(setup, Run(setup, s, events), e)
  {
    assert (events + [e])[..|events|] == events;
  }

  lemma ForwardsInTwo(setup: Setup, s: ServerState, n: nat, q: Query, id: Identity, upstreams: seq<Upstream.Exchange>,
                      gave: int, now: int, io: RedisIO)
    requires q.Asks()
    ensures var (reply, c) := Forwarded(setup, s.cache, q, id, upstreams, now, io);
            Step(setup, Step(setup, s.(stages := s.stages[n := Missed(q, id)]), Exchange(n, upstreams, gave)),
                 Store(n, now, io)) ==
            WithAnswer(s.(cache := c), n, reply)
  {
    ExchangesMissed(setup, s, n, q, id, upstreams, gave);
    match Upstream.FirstAnswer(upstreams)
    case None => NothingWhenDone(setup, WithAnswer(s, n, FailureReply(q)), n, Store(n, now, io));
    case Some(m) => StoresReplied(setup, s, n, q, id, m, now, io);
  }

  /** The handler's method, which runs the stages of one query back to back, is the run of those
      stages with nothing between them, whenever the upstream gave its answer. */
  lemma ServedIsARun(setup: Setup, s: ServerState, n: nat, q: Query, seen: Settings, clock: Clock, redis: Redis,
                     upstreams: seq<Upstream.Exchange>, gave: int)
    requires n !in s.stages && q.Asks()
    ensures var (reply, c) := Served(setup, seen, s.cache, q, clock, redis, upstreams);
            Run(setup, s, [Arrive(n, q, seen, clock.resolve), Lookup(n, clock.lookup, redis.lookup),
                           Exchange(n, upstreams, gave), Store(n, clock.store, redis.store)])
            == WithAnswer(s.(cache := c), n, reply)
  {
    var arrive, look := Arrive(n, q, seen, clock.resolve), Lookup(n, clock.lookup, redis.lookup);
    var exchange, store := Exchange(n, upstreams, gave), Store(n, clock.store, redis.store);
    RunOfFour(setup, s, arrive, look, exchange, store);
    Arrives(setup, s, n, q, seen, clock.resolve);
    var s1 := Step(setup, s, arrive);
    var s2 := Step(setup, s1, look);
    if PolicyReply(setup, seen, q, clock.resolve).Some? {
      NothingWhenDone(setup, s1, n, look);
      NothingWhenDone(setup, s1, n, exchange);
      NothingWhenDone(setup, s1, n, store);
    } else {
      var id := seen.identity.Resolved(q.client, clock.resolve);
      var c := GetState(setup.cache.config, s.cache, KeyFor(setup, q), clock.lookup, redis.lookup);
      LooksPassed(setup, s, n, q, id, clock.lookup, redis.lookup);
      if GetResult(s.cache, KeyFor(setup, q), clock.lookup, redis.lookup).Some? {
        NothingWhenDone(setup, s2, n, exchange);
        NothingWhenDone(setup, s2, n, store);
      } else {
        ForwardsInTwo(setup, s.(cache := c), n, q, id, upstreams, gave, clock.store, redis.store);
      }
    }
  }

  // ---------- one answer, one count ----------

  function AnswersTo(answers: seq<Answer>, n: nat): nat {
    if answers == [] then 0
    else AnswersTo(answers[..|answers| - 1], n) + (if answers[|answers| - 1].query == n then 1 else 0)
  }

  lemma AnswersToAppend(answers: seq<Answer>, a: Answer, n: nat)
    ensures AnswersTo(answers + [a], n) == AnswersTo(answers, n) + (if a.query == n then 1 else 0)
  {
    assert (answers + [a])[..|answers|] == answers;
  }

  predicate IsDone(s: ServerState, n: nat) {
    n in s.stages && s.stages[n].Done?
  }

  predicate Ignores(s: ServerState, n: nat) {
    n in s.stages && s.stages[n].Ignored?
  }

  /** How far a query is. */
  function Progress(s: ServerState, n: nat): nat {
    if n !in s.stages then 0
    else match s.stages[n]
         case Passed(_, _) => 1
         case Missed(_, _) => 2
         case Replied(_, _, _) => 3
         case _ => 4
  }

  predicate InProgressAsks(s: ServerState, n: nat) {
    n in s.stages && s.stages[n].InProgress() ==> s.stages[n].q.Asks()
  }

  /** What one step can do to query n: move it forward, and answer it only if it was not done. */
  predicate Moved(s: ServerState, s': ServerState, n: nat) {
    && Progress(s, n) <= Progress(s', n)
    && (Progress(s, n) > 0 && !Ignores(s, n) ==> !Ignores(s', n))
    && (InProgressAsks(s, n) ==> InProgressAsks(s', n))
    && if s'.answers == s.answers then s'.queryCount == s.queryCount && (IsDone(s', n) <==> IsDone(s, n))
       else
         && |s'.answers| == |s.answers| + 1 && s'.answers[..|s.answers|] == s.answers
              && s'.queryCount == s.queryCount + 1
         && (if s'.answers[|s.answers|].query == n then IsDone(s', n) && !IsDone(s, n)
             else IsDone(s', n) == IsDone(s, n))
  }

  lemma StepMoves(setup: Setup, s: ServerState, e: Event, n: nat)
    ensures Moved(s, Step(setup, s, e), n)
  {
    var s' := Step(setup, s, e);
    if s'.answers != s.answers {
      assert s'.answers == s.answers + [s'.answers[|s.answers|]];
    }
  }

  /** Query n has one answer when it is done and none before, and the count is that of the answers. */
  predicate Counted(s: ServerState, n: nat) {
    && AnswersTo(s.answers, n) == (if IsDone(s, n) then 1 else 0)
    && s.queryCount == |s.answers|
    && InProgressAsks(s, n)
  }

  lemma CountedOn(s: ServerState, s': ServerState, n: nat)
    requires Moved(s, s', n) && Counted(s, n)
    ensures Counted(s', n)
  {
    if s'.answers != s.answers {
      assert s'.answers == s.answers + [s'.answers[|s.answers|]];
      AnswersToAppend(s.answers, s'.answers[|s.answers|], n);
    }
  }

  /** In every run, whatever the queries and however their stages interleave. */
  lemma {:induction false} OneAnswerEach(setup: Setup, l2: Option<map<string, RedisItem>>, events: seq<Event>, n: nat)
    ensures Counted(Run(setup, NewServer(l2), events), n)
  {
    if events != [] {
      var s := Run(setup, NewServer(l2), events[..|events| - 1]);
      OneAnswerEach(setup, l2, events[..|events| - 1], n);
      StepMoves(setup, s, events[|events| - 1], n);
      CountedOn(s, Step(setup, s, events[|events| - 1]), n);
    }
  }

  lemma AfterStep(setup: Setup, s: ServerState, events: seq<Event>, i: nat)
    requires i < |events|
    ensures Run(setup, s, events[..i + 1]) == Step(setup, Run(setup, s, events[..i]), events[i])
  {
    assert events[..i + 1][..i] == events[..i];
  }

  /** From one state to the other the query only moved forward, and was not ignored on the way. */
  predicate Forward(s: ServerState, s': ServerState, n: nat) {
    && Progress(s, n) <= Progress(s', n)
    && (Progress(s, n) > 0 && !Ignores(s, n) ==> !Ignores(s', n))
  }

  lemma ForwardOn(s: ServerState, s': ServerState, s'': ServerState, n: nat)
    requires Forward(s, s', n) && Moved(s', s'', n)
    ensures Forward(s, s'', n)
  {
  }

  lemma MovedAt(setup: Setup, s: ServerState, events: seq<Event>, i: nat, n: nat)
    requires i < |events|
    ensures Moved(Run(setup, s, events[..i]), Run(setup, s, events[..i + 1]), n)
  {
    AfterStep(setup, s, events, i);
    StepMoves(setup, Run(setup, s, events[..i]), events[i], n);
  }

  lemma {:induction false} NotArrived(setup: Setup, l2: Option<map<string, RedisItem>>, events: seq<Event>, n: nat)
    requires forall h :: 0 <= h < |events| && events[h].Arrive? ==> events[h].query != n
    ensures n !in Run(setup, NewServer(l2), events).stages
  {
    if events != [] {
      NotArrived(setup, l2, events[..|events| - 1], n);
    }
  }

  /** What the step of query n at its own stage reaches. */
  predicate OwnStep(s: ServerState, e: Event, s': ServerState, n: nat) {
    && (e.Arrive? && e.query == n && n !in s.stages && e.q.Asks() ==> Progress(s', n) >= 1 && !Ignores(s', n))
    && (OwnStage(e, n, Progress(s, n)) ==> Progress(s', n) > Progress(s, n))
  }

  /** The event is the query's own step from its stage p on. */
  predicate OwnStage(e: Event, n: nat, p: nat) {
    && (e.Lookup? || e.Exchange? || e.Store?) && e.query == n
    && p == (if e.Lookup? then 1 else if e.Exchange? then 2 else 3)
  }

  lemma StepIsOwn(setup: Setup, s: ServerState, e: Event, n: nat)
    requires InProgressAsks(s, n)
    ensures OwnStep(s, e, Step(setup, s, e), n)
  {
  }

  /** The states of a run, as far as query n is concerned. */
  predicate Path(states: seq<ServerState>, events: seq<Event>, n: nat) {
    && |states| == |events| + 1
    && forall i :: 0 <= i < |events| ==>
         Moved(states[i], states[i + 1], n) && OwnStep(states[i], events[i], states[i + 1], n)
  }

  lemma StepOnPath(setup: Setup, l2: Option<map<string, RedisItem>>, events: seq<Event>, i: nat, n: nat)
    requires i < |events|
    ensures var s, s' := Run(setup, NewServer(l2), events[..i]), Run(setup, NewServer(l2), events[..i + 1]);
            Moved(s, s', n) && OwnStep(s, events[i], s', n)
  {
    MovedAt(setup, NewServer(l2), events, i, n);
    AfterStep(setup, NewServer(l2), events, i);
    OneAnswerEach(setup, l2, events[..i], n);
    StepIsOwn(setup, Run(setup, NewServer(l2), events[..i]), events[i], n);
  }

  lemma RunIsPath(setup: Setup, l2: Option<map<string, RedisItem>>, events: seq<Event>, n: nat)
      returns (states: seq<ServerState>)
    ensures Path(states, events, n)
    ensures forall i :: 0 <= i <= |events| ==> states[i] == Run(setup, NewServer(l2), events[..i])
  {
    states := seq(|events| + 1, i requires 0 <= i <= |events| => Run(setup, NewServer(l2), events[..i]));
    forall i | 0 <= i < |events|
      ensures Moved(states[i], states[i + 1], n) && OwnStep(states[i], events[i], states[i + 1], n)
    {
      StepOnPath(setup, l2, events, i, n);
    }
  }

  lemma {:induction false} PathForward(states: seq<ServerState>, events: seq<Event>, n: nat, i: nat, j: nat)
    requires Path(states, events, n) && i <= j <= |events|
    ensures Forward(states[i], states[j], n)
    decreases j
  {
    if i < j {
      PathForward(states, events, n, i, j - 1);
      ForwardOn(states[i], states[j - 1], states[j], n);
    }
  }

  /** The query has come to its stage p, and was not ignored. */
  predicate Came(s: ServerState, n: nat, p: nat) {
    Progress(s, n) >= p && !Ignores(s, n)
  }

  lemma CameOn(states: seq<ServerState>, events: seq<Event>, n: nat, i: nat, j: nat, p: nat)
    requires Path(states, events, n) && i <= j < |events| && 0 < p && Came(states[i], n, p) && OwnStage(events[j], n, p)
    ensures Came(states[j + 1], n, p + 1)
  {
    PathForward(states, events, n, i, j);
    PathForward(states, events, n, i, j + 1);
    PathForward(states, events, n, j, j + 1);
  }

  lemma PathEnds(states: seq<ServerState>, events: seq<Event>, i: nat, j: nat, k: nat, l: nat, n: nat)
    requires Path(states, events, n) && i < j < k < l < |events|
    requires events[i].Arrive? && events[i].query == n && events[i].q.Asks() && n !in states[i].stages
    requires OwnStage(events[j], n, 1) && OwnStage(events[k], n, 2) && OwnStage(events[l], n, 3)
    ensures Came(states[|events|], n, 4)
  {
    CameOn(states, events, n, i + 1, j, 1);
    CameOn(states, events, n, j + 1, k, 2);
    CameOn(states, events, n, k + 1, l, 3);
    PathForward(states, events, n, l + 1, |events|);
  }

  /** A query that goes through its stages in order is answered exactly once, whatever is
      interleaved with them. */
  lemma EveryQueryAnswered(setup: Setup, l2: Option<map<string, RedisItem>>, events: seq<Event>,
                           i: nat, j: nat, k: nat, l: nat, n: nat)
    requires i < j < k < l < |events|
    requires events[i].Arrive? && events[i].query == n && events[i].q.Asks()
    requires OwnStage(events[j], n, 1) && OwnStage(events[k], n, 2) && OwnStage(events[l], n, 3)
    requires forall h :: 0 <= h < i && events[h].Arrive? ==> events[h].query != n
    ensures AnswersTo(Run(setup, NewServer(l2), events).answers, n) == 1
  {
    NotArrived(setup, l2, events[..i], n);
    var states := RunIsPath(setup, l2, events, n);
    PathEnds(states, events, i, j, k, l, n);
    assert events[..|events|] == events;
    OneAnswerEach(setup, l2, events, n);
  }

  lemma DoneStays(setup: Setup, l2: Option<map<string, RedisItem>>, events: seq<Event>, i: nat, k: nat, n: nat)
    requires i <= k <= |events| && IsDone(Run(setup, NewServer(l2), events[..i]), n)
    ensures IsDone(Run(setup, NewServer(l2), events[..k]), n)
  {
    var states := RunIsPath(setup, l2, events, n);
    PathForward(states, events, n, i, k);
  }

  // ---------- every answer fits its request ----------

  /** The event is the first arrival of query n, with a question. */
  predicate FirstArrival(events: seq<Event>, h: int, n: nat) {
    && 0 <= h < |events| && events[h].Arrive? && events[h].query == n && events[h].q.Asks()
    && forall i :: 0 <= i < h && events[i].Arrive? ==> events[i].query != n
  }

  /** All answers to query n go back to this request. */
  predicate AllFit(answers: seq<Answer>, n: nat, request: Message)
    requires request.question != []
  {
    forall a :: a in answers && a.query == n ==> Fits(a.reply.message, request)
  }

  /** Query n has arrived as q, and its answers so far fit. */
  predicate Serves(s: ServerState, n: nat, q: Query)
    requires q.Asks()
  {
    && n in s.stages && (s.stages[n].InProgress() ==> s.stages[n].q == q)
    && AllFit(s.answers, n, q.request)
  }

  lemma StagesFit(setup: Setup, q: Query, id: Identity, m: Message)
    requires q.Asks()
    ensures Fits(CachedReply(q, id, m).message, q.request) && Fits(UpstreamReply(q, id, m).message, q.request)
    ensures Fits(FailureReply(q).message, q.request)
  {
    StagesReply(setup, q, id, m);
  }

  lemma FitsOther(s: ServerState, c: CacheState, n: nat, reply: Reply, n': nat, q: Query)
    requires q.Asks() && Serves(s, n, q) && n' != n
    ensures Serves(WithAnswer(s.(cache := c), n', reply), n, q)
  {
  }

  lemma ServesOther(setup: Setup, s: ServerState, e: Event, n: nat, q: Query)
    requires q.Asks() && Serves(s, n, q)
    requires e.Invalidate? || e.Evict? || e.query != n
    ensures Serves(Step(setup, s, e), n, q)
  {
    if !(e.Invalidate? || e.Evict?) {
      var s' := Step(setup, s, e);
      if s'.answers != s.answers {
        var reply := s'.answers[|s.answers|].reply;
        FitsOther(s, s'.cache, n, reply, e.query, q);
      }
    }
  }

  lemma ServesOwn(setup: Setup, s: ServerState, e: Event, n: nat, q: Query)
    requires q.Asks() && Serves(s, n, q)
    requires !e.Invalidate? && !e.Evict? && e.query == n
    ensures Serves(Step(setup, s, e), n, q)
  {
    var stage := s.stages[n];
    if stage.InProgress() {
      var none := EMPTY_MESSAGE;
      match e
      case Lookup(_, now, io) =>
        if Asking(s, n) {
          var found := GetResult(s.cache, KeyFor(setup, q), now, io);
          StagesFit(setup, q, stage.id, if found.Some? then found.value else none);
        }
      case Exchange(_, upstreams, _) =>
        if Forwarding(s, n) {
          StagesFit(setup, q, stage.id, none);
        }
      case Store(_, _, _) =>
        if Storing(s, n) {
          StagesFit(setup, q, stage.id, stage.m);
        }
      case _ =>
    }
  }

  lemma {:induction false} NoAnswerYet(setup: Setup, l2: Option<map<string, RedisItem>>, events: seq<Event>, n: nat)
    requires n !in Run(setup, NewServer(l2), events).stages
    ensures forall a :: a in Run(setup, NewServer(l2), events).answers ==> a.query != n
  {
    if events != [] {
      var init, e := events[..|events| - 1], events[|events| - 1];
      StepMoves(setup, Run(setup, NewServer(l2), init), e, n);
      NoAnswerYet(setup, l2, init, n);
    }
  }

  lemma ServesFromArrival(setup: Setup, s: ServerState, e: Event)
    requires e.Arrive? && e.q.Asks() && e.query !in s.stages && AllFit(s.answers, e.query, e.q.request)
    ensures Serves(Step(setup, s, e), e.query, e.q)
  {
    Arrives(setup, s, e.query, e.q, e.seen, e.now);
    PolicyReplies(setup, e.seen, e.q, e.now, EMPTY_MESSAGE);
  }

  lemma {:induction false} ServesFrom(setup: Setup, l2: Option<map<string, RedisItem>>, events: seq<Event>, h: nat,
                                      n: nat)
    requires FirstArrival(events, h, n)
    ensures Serves(Run(setup, NewServer(l2), events), n, events[h].q)
    decreases |events|
  {
    var last := |events| - 1;
    var s := Run(setup, NewServer(l2), events[..last]);
    if h == last {
      NotArrived(setup, l2, events[..last], n);
      NoAnswerYet(setup, l2, events[..last], n);
      ServesFromArrival(setup, s, events[last]);
    } else {
      ServesFrom(setup, l2, events[..last], h, n);
      if events[last].Invalidate? || events[last].Evict? || events[last].query != n {
        ServesOther(setup, s, events[last], n, events[h].q);
      } else {
        ServesOwn(setup, s, events[last], n, events[h].q);
      }
    }
  }

  /** In every interleaving, whatever the query is answered with carries the identifier and the
      operation of the request it arrived with, and that request's first question. */
  lemma EveryAnswerFits(setup: Setup, l2: Option<map<string, RedisItem>>, events: seq<Event>, h: nat, a: Answer)
    requires FirstArrival(events, h, a.query) && a in Run(setup, NewServer(l2), events).answers
    ensures Fits(a.reply.message, events[h].q.request)
  {
    ServesFrom(setup, l2, events, h, a.query);
  }
}
