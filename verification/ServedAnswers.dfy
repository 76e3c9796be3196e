/** What the answers of a run of the query pipeline are worth: answers from the cache are recent
    upstream answers to the same question, and policy answers depend on nothing but policy. */
module ServedAnswers {
  import opened Wrappers
  import opened DomainNames
  import opened DnsMessages
  import opened Cidr
  import opened Identity
  import Captive
  import opened Handler
  import opened Cache
  import CacheRuns
  import CacheSteps
  import Upstream
  import opened HandlerRuns

  // ---------- the cache of a run ----------

  /** What a step does to the cache. */
  ghost function CacheEvent(setup: Setup, s: ServerState, e: Event): CacheRuns.Event {
    match e
    case Arrive(_, _, _, now) => CacheRuns.Elsewhere(now)
    case Lookup(n, now, io) =>
      if Asking(s, n) then CacheRuns.Get(s.stages[n].q.Name(), s.stages[n].q.Type(), now, io)
        else CacheRuns.Elsewhere(now)
    case Exchange(_, _, now) => CacheRuns.Elsewhere(now)
    case Store(n, now, io) =>
      if Storing(s, n) then CacheRuns.Set(s.stages[n].q.Name(), s.stages[n].q.Type(), s.stages[n].m, now, io)
      else CacheRuns.Elsewhere(now)
    case Invalidate(name, now) => CacheRuns.Invalidate(name, now)
    case Evict(now) => CacheRuns.Evict(now)
  }

  /** What step i of a run does to the cache. */
  ghost function CacheEventAt(setup: Setup, l2: Option<map<string, RedisItem>>, events: seq<Event>, i: nat)
      : CacheRuns.Event
    requires i < |events|
  {
    CacheEvent(setup, Run(setup, NewServer(l2), events[..i]), events[i])
  }

  ghost function CacheTrace(setup: Setup, l2: Option<map<string, RedisItem>>, events: seq<Event>)
      : seq<CacheRuns.Event>
  {
    seq(|events|, i requires 0 <= i < |events| => CacheEventAt(setup, l2, events, i))
  }

  lemma StepOnCache(setup: Setup, s: ServerState, e: Event)
    ensures Step(setup, s, e).cache == CacheRuns.Step(setup.cache, s.cache, CacheEvent(setup, s, e))
    ensures CacheEvent(setup, s, e).now == e.now
  {
  }

  lemma SameEventBefore(setup: Setup, l2: Option<map<string, RedisItem>>, events: seq<Event>, n: nat, i: nat)
    requires i < n <= |events|
    ensures CacheEventAt(setup, l2, events[..n], i) == CacheEventAt(setup, l2, events, i)
  {
    assert events[..n][..i] == events[..i];
  }

  lemma TraceOfPrefix(setup: Setup, l2: Option<map<string, RedisItem>>, events: seq<Event>, n: nat)
    requires n <= |events|
    ensures CacheTrace(setup, l2, events[..n]) == CacheTrace(setup, l2, events)[..n]
  {
    forall i | 0 <= i < n
      ensures CacheTrace(setup, l2, events[..n])[i] == CacheTrace(setup, l2, events)[..n][i]
    {
      SameEventBefore(setup, l2, events, n, i);
    }
  }

  /** The cache of a run is the run of the cache over what the steps do to it. */
  lemma {:induction false} CacheProjects(setup: Setup, l2: Option<map<string, RedisItem>>, events: seq<Event>)
    ensures Run(setup, NewServer(l2), events).cache ==
            CacheRuns.Run(setup.cache, CacheRuns.NewCache(l2), CacheTrace(setup, l2, events))
  {
    if events != [] {
      var init := events[..|events| - 1];
      CacheProjects(setup, l2, init);
      StepOnCache(setup, Run(setup, NewServer(l2), init), events[|events| - 1]);
      TraceOfPrefix(setup, l2, events, |events| - 1);
    }
  }

  lemma CacheTraceAt(setup: Setup, l2: Option<map<string, RedisItem>>, events: seq<Event>, i: nat)
    requires i < |events|
    ensures CacheTrace(setup, l2, events)[i] == CacheEventAt(setup, l2, events, i)
  {
  }

  // ---------- answers from the cache ----------

  /** Same question: the same name but for its case, and the same type text. */
  predicate SameQuestion(setup: Setup, q: Query, q': Query)
    requires q.Asks() && q'.Asks()
  {
    && SameButCase(q.Name(), q'.Name())
    && TypeText(setup.cache.types, q.Type()) == TypeText(setup.cache.types, q'.Type())
  }

  predicate PlainTypes(types: TypeTable) {
    forall t :: t in types ==> NoBar(types[t])
  }

  /** Every type in the table has a name, and each its own. */
  predicate OwnNames(types: TypeTable) {
    && (forall t :: t in types ==> types[t] != "")
    && forall t, t' :: t in types && t' in types && types[t] == types[t'] ==> t == t'
  }

  /** For types that have a name, each its own, the same question means the same type. */
  lemma SameQuestionSameType(setup: Setup, q: Query, q': Query)
    requires q.Asks() && q'.Asks() && SameQuestion(setup, q, q') && q.Type() in setup.cache.types
    requires OwnNames(setup.cache.types)
    ensures q.Type() == q'.Type()
  {
    assert setup.cache.types[q.Type()] == TypeText(setup.cache.types, q'.Type()) != "";
  }

  /** Step j stores what an upstream answered to some query asking the same, with records to keep. */
  ghost predicate Kept(setup: Setup, events: seq<Event>, j: int, q: Query, m: Message)
    requires q.Asks()
  {
    && 0 <= j < |events| && events[j].Store?
    && var s := Run(setup, NewServer(None), events[..j]);
    && Storing(s, events[j].query) && SameQuestion(setup, s.stages[events[j].query].q, q)
    && s.stages[events[j].query].m == m && m.answer != []
  }

  /** Which invalidations reach a question: those of its name; and those of a name that its own
      name continues with a bar. */
  predicate Reaches(name: string, q: Query)
    requires q.Asks()
  {
    SameButCase(q.Name(), Fqdn(name)) || CacheRuns.ContinuesWithBar(q.Name(), Fqdn(name))
  }

  /** For a question whose name has no bar, and a name without backslashes, they are those of its
      name, with or without the final dot and in any case. */
  lemma ReachesItsNameOnly(name: string, q: Query)
    requires q.Asks() && NoBar(q.Name()) && forall i :: 0 <= i < |name| ==> name[i] != '\\'
    ensures Reaches(name, q) <==> SameButCase(q.Name(), WithDot(name))
  {
    var stem := if EndsWithDot(name) then name[..|name| - 1] else name;
    CacheRuns.FqdnMeaning(stem, 0);
    assert stem + CacheRuns.Slashes(0) == stem;
  }

  /** Step k overwrites or invalidates what the cache holds for the question. */
  ghost predicate Superseded(setup: Setup, events: seq<Event>, k: int, q: Query)
    requires q.Asks()
  {
    && 0 <= k < |events|
    && ((exists m :: Kept(setup, events, k, q, m))
        || (events[k].Invalidate? && Reaches(events[k].name, q)))
  }

  lemma WritesIffKept(setup: Setup, events: seq<Event>, j: nat, q: Query, m: Message)
    requires q.Asks() && j < |events| && PlainTypes(setup.cache.types)
    ensures var e := CacheTrace(setup, None, events)[j];
            CacheRuns.Writes(setup.cache, e, KeyFor(setup, q)) && e.msg == m <==> Kept(setup, events, j, q, m)
  {
    CacheTraceAt(setup, None, events, j);
    var s := Run(setup, NewServer(None), events[..j]);
    if events[j].Store? && Storing(s, events[j].query) {
      var q' := s.stages[events[j].query].q;
      CacheRuns.KeySeparates(q'.Name(), TypeText(setup.cache.types, q'.Type()), q.Name(),
                             TypeText(setup.cache.types, q.Type()));
    }
  }

  lemma DropsIff(setup: Setup, events: seq<Event>, k: nat, q: Query)
    requires q.Asks() && k < |events| && PlainTypes(setup.cache.types)
    ensures CacheRuns.Drops(CacheTrace(setup, None, events)[k], KeyFor(setup, q)) <==>
            events[k].Invalidate? && Reaches(events[k].name, q)
  {
    CacheTraceAt(setup, None, events, k);
    if events[k].Invalidate? {
      CacheRuns.InvalidatedIff(q.Name(), TypeText(setup.cache.types, q.Type()), events[k].name);
    }
  }

  lemma SupersededIff(setup: Setup, events: seq<Event>, k: nat, q: Query)
    requires q.Asks() && k < |events| && PlainTypes(setup.cache.types)
    ensures var e := CacheTrace(setup, None, events)[k];
            CacheRuns.Writes(setup.cache, e, KeyFor(setup, q)) || CacheRuns.Drops(e, KeyFor(setup, q)) <==>
            Superseded(setup, events, k, q)
  {
    var e := CacheTrace(setup, None, events)[k];
    DropsIff(setup, events, k, q);
    if CacheRuns.Writes(setup.cache, e, KeyFor(setup, q)) {
      WritesIffKept(setup, events, k, q, e.msg);
    }
    if m :| Kept(setup, events, k, q, m) {
      WritesIffKept(setup, events, k, q, m);
    }
  }

  /** Step j stored the message, and no later step supersedes it. */
  ghost predicate StillKept(setup: Setup, events: seq<Event>, j: int, q: Query, m: Message)
    requires q.Asks()
  {
    Kept(setup, events, j, q, m) && forall k :: j < k < |events| ==> !Superseded(setup, events, k, q)
  }

  lemma LatestWriteIff(setup: Setup, events: seq<Event>, j: nat, q: Query, m: Message)
    requires q.Asks() && j < |events| && PlainTypes(setup.cache.types)
    ensures var trace := CacheTrace(setup, None, events);
            CacheRuns.LatestWrite(setup.cache, trace, j, KeyFor(setup, q)) && trace[j].msg == m <==>
            StillKept(setup, events, j, q, m)
  {
    var trace := CacheTrace(setup, None, events);
    WritesIffKept(setup, events, j, q, m);
    forall k | j < k < |events|
      ensures !CacheRuns.Writes(setup.cache, trace[k], KeyFor(setup, q)) && !CacheRuns.Drops(trace[k], KeyFor(setup, q))
              <==> !Superseded(setup, events, k, q)
    {
      SupersededIff(setup, events, k, q);
    }
  }

  predicate Earlier(events: seq<Event>, now: int) {
    forall i :: 0 <= i < |events| ==> events[i].now <= now
  }

  lemma TraceTimes(setup: Setup, events: seq<Event>)
    ensures forall j :: 0 <= j < |events| ==> CacheTrace(setup, None, events)[j].now == events[j].now
  {
    forall j | 0 <= j < |events| ensures CacheTrace(setup, None, events)[j].now == events[j].now {
      CacheTraceAt(setup, None, events, j);
      StepOnCache(setup, Run(setup, NewServer(None), events[..j]), events[j]);
    }
  }

  lemma FoundIff(setup: Setup, events: seq<Event>, q: Query, now: int, io: RedisIO, m: Message)
    requires q.Asks() && PlainTypes(setup.cache.types) && Earlier(events, now)
    ensures GetResult(Run(setup, NewServer(None), events).cache, KeyFor(setup, q), now, io) == Some(m) <==>
            exists j :: StillKept(setup, events, j, q, m)
              && now < events[j].now + Lifetime(setup.cache.config.limits, m)
  {
    var s := Run(setup, NewServer(None), events);
    var k, trace := KeyFor(setup, q), CacheTrace(setup, None, events);
    CacheProjects(setup, None, events);
    TraceTimes(setup, events);
    CacheRuns.ServedIff(setup.cache, trace, k, now, io, m);
    forall j | 0 <= j < |events|
      ensures CacheRuns.LatestWrite(setup.cache, trace, j, k) && trace[j].msg == m <==>
              StillKept(setup, events, j, q, m)
    {
      LatestWriteIff(setup, events, j, q, m);
    }
    if GetResult(s.cache, k, now, io) == Some(m) {
      var j :| CacheRuns.LatestWrite(setup.cache, trace, j, k) && trace[j].msg == m
        && now < CacheRuns.Deadline(setup.cache, trace[j]);
      assert StillKept(setup, events, j, q, m);
    }
  }

  // ---------- only allowed queries fill the cache ----------

  /** The event is the arrival of query n, let through by the policy as it read it. */
  ghost predicate LetThrough(setup: Setup, e: Event, n: nat, q: Query) {
    e.Arrive? && e.query == n && e.q == q && q.Asks() && PolicyReply(setup, e.seen, q, e.now).None?
  }

  lemma {:induction false} InProgressWasLetThrough(setup: Setup, l2: Option<map<string, RedisItem>>, events: seq<Event>,
                                                   n: nat)
    ensures var s := Run(setup, NewServer(l2), events);
            n in s.stages && s.stages[n].InProgress() ==>
              exists h :: 0 <= h < |events| && LetThrough(setup, events[h], n, s.stages[n].q)
  {
    if events != [] {
      var init, e := events[..|events| - 1], events[|events| - 1];
      InProgressWasLetThrough(setup, l2, init, n);
      var s, s' := Run(setup, NewServer(l2), init), Run(setup, NewServer(l2), events);
      if n in s'.stages && s'.stages[n].InProgress() {
        if n in s.stages {
          StageKeepsQuery(setup, s, e, n);
          var h :| 0 <= h < |init| && LetThrough(setup, init[h], n, s.stages[n].q);
          assert events[h] == init[h];
        } else {
          StageBegins(setup, s, e, n);
          assert LetThrough(setup, events[|events| - 1], n, s'.stages[n].q);
        }
      }
    }
  }

  lemma StageKeepsQuery(setup: Setup, s: ServerState, e: Event, n: nat)
    requires n in s.stages && n in Step(setup, s, e).stages && Step(setup, s, e).stages[n].InProgress()
    ensures s.stages[n].InProgress() && s.stages[n].q == Step(setup, s, e).stages[n].q
  {
  }

  lemma StageBegins(setup: Setup, s: ServerState, e: Event, n: nat)
    requires n !in s.stages && n in Step(setup, s, e).stages && Step(setup, s, e).stages[n].InProgress()
    ensures LetThrough(setup, e, n, Step(setup, s, e).stages[n].q)
  {
  }

  /** Step x: an upstream gives the message to query n, which asks q. */
  ghost predicate Gave(setup: Setup, l2: Option<map<string, RedisItem>>, events: seq<Event>, x: int, n: nat, q: Query,
                       m: Message) {
    && 0 <= x < |events| && events[x].Exchange? && events[x].query == n
    && Upstream.FirstAnswer(events[x].upstreams) == Some(m)
    && var s := Run(setup, NewServer(l2), events[..x]);
    && Forwarding(s, n) && s.stages[n].q == q
  }

  lemma {:induction false} RepliedWasGiven(setup: Setup, l2: Option<map<string, RedisItem>>, events: seq<Event>, j: nat,
                                           n: nat)
      returns (x: nat)
    requires j <= |events| && Storing(Run(setup, NewServer(l2), events[..j]), n)
    ensures var stage := Run(setup, NewServer(l2), events[..j]).stages[n];
            x < j && Gave(setup, l2, events, x, n, stage.q, stage.m)
    decreases j
  {
    var s := Run(setup, NewServer(l2), events[..j - 1]);
    AfterStep(setup, NewServer(l2), events, j - 1);
    ReplyComesFrom(setup, s, events[j - 1], n);
    if Storing(s, n) {
      x := RepliedWasGiven(setup, l2, events, j - 1, n);
    } else {
      x := j - 1;
    }
  }

  lemma ReplyComesFrom(setup: Setup, s: ServerState, e: Event, n: nat)
    requires Storing(Step(setup, s, e), n)
    ensures var stage := Step(setup, s, e).stages[n];
            if Storing(s, n) then s.stages[n] == stage
            else e.Exchange? && e.query == n && Forwarding(s, n) && s.stages[n].q == stage.q
                 && Upstream.FirstAnswer(e.upstreams) == Some(stage.m)
  {
  }

  /** Step j stored the message under the key: an upstream gave it, before, to a query that the
      policy had let through. */
  ghost predicate AllowedAnswer(setup: Setup, events: seq<Event>, j: int, k: string, m: Message) {
    0 <= j < |events| && exists x, q :: 0 <= x < j && AllowedExchange(setup, events, x, q, m) && KeyFor(setup, q) == k
  }

  /** Step x: an upstream gives the message to a query that the policy let through when it came. */
  ghost predicate AllowedExchange(setup: Setup, events: seq<Event>, x: int, q: Query, m: Message) {
    && 0 <= x < |events| && events[x].Exchange? && Upstream.FirstAnswer(events[x].upstreams) == Some(m)
    && q.Asks() && exists h :: 0 <= h < x && LetThrough(setup, events[h], events[x].query, q)
  }

  lemma WriteComesFrom(setup: Setup, s: ServerState, e: Event, k: string)
    requires CacheRuns.Writes(setup.cache, CacheEvent(setup, s, e), k)
    ensures e.Store? && Storing(s, e.query) && KeyFor(setup, s.stages[e.query].q) == k
    ensures s.stages[e.query].m == CacheEvent(setup, s, e).msg
  {
  }

  lemma LetThroughBefore(setup: Setup, l2: Option<map<string, RedisItem>>, events: seq<Event>, j: nat, n: nat)
    returns (h: nat)
    requires j <= |events| && Forwarding(Run(setup, NewServer(l2), events[..j]), n)
    ensures h < j && LetThrough(setup, events[h], n, Run(setup, NewServer(l2), events[..j]).stages[n].q)
  {
    var q := Run(setup, NewServer(l2), events[..j]).stages[n].q;
    InProgressWasLetThrough(setup, l2, events[..j], n);
    h :| 0 <= h < |events[..j]| && LetThrough(setup, events[..j][h], n, q);
    assert events[..j][h] == events[h];
  }

  lemma GivenToAllowed(setup: Setup, l2: Option<map<string, RedisItem>>, events: seq<Event>, x: nat, n: nat, q: Query,
                       m: Message)
    requires Gave(setup, l2, events, x, n, q, m)
    ensures AllowedExchange(setup, events, x, q, m)
  {
    var h := LetThroughBefore(setup, l2, events, x, n);
  }

  lemma WriteIsAllowed(setup: Setup, l2: Option<map<string, RedisItem>>, events: seq<Event>, j: nat, k: string)
    requires j < |events| && CacheRuns.Writes(setup.cache, CacheTrace(setup, l2, events)[j], k)
    ensures AllowedAnswer(setup, events, j, k, CacheTrace(setup, l2, events)[j].msg)
  {
    CacheTraceAt(setup, l2, events, j);
    var s, n := Run(setup, NewServer(l2), events[..j]), events[j].query;
    WriteComesFrom(setup, s, events[j], k);
    var x := RepliedWasGiven(setup, l2, events, j, n);
    GivenToAllowed(setup, l2, events, x, n, s.stages[n].q, s.stages[n].m);
  }

  /** In every reachable state, without Redis or with one that starts empty and fails at will, all
      that either tier holds is upstream answers to allowed queries: no reply of the portal or of
      the policy, and nothing for a refused query. */
  lemma CacheHoldsAllowedAnswers(setup: Setup, l2: Option<map<string, RedisItem>>, events: seq<Event>, k: string)
    requires CacheRuns.Fresh(l2)
    ensures var c := Run(setup, NewServer(l2), events).cache;
            && (k in c.l1 ==> exists j :: AllowedAnswer(setup, events, j, k, c.l1[k].msg))
            && (c.l2.Some? && k in c.l2.value ==> exists j :: AllowedAnswer(setup, events, j, k, c.l2.value[k].msg))
  {
    var trace := CacheTrace(setup, l2, events);
    CacheProjects(setup, l2, events);
    CacheRuns.EntriesWereSet(setup.cache, l2, trace, k);
    forall j, m | CacheRuns.SetBefore(setup.cache, trace, j, k, m) ensures AllowedAnswer(setup, events, j, k, m) {
      WriteIsAllowed(setup, l2, events, j, k);
    }
  }

  /** The Sets among the steps of the cache are made for exchanges of the server's run that are over:
      the handler stores nothing but the answers of upstreams, and only for queries it let through. */
  ghost predicate SetsAreStores(setup: Setup, events: seq<Event>, steps: seq<CacheSteps.Event>) {
    forall i :: 0 <= i < |steps| && steps[i].Set? ==> UpstreamAnswer(setup, events, steps[i].k, steps[i].msg)
  }

  ghost predicate UpstreamAnswer(setup: Setup, events: seq<Event>, k: string, m: Message) {
    exists x, q :: AllowedExchange(setup, events, x, q, m) && KeyFor(setup, q) == k
  }

  /** At the grain of the cache's locks too, with any interleaving of its steps and any failures of
      Redis, what is answered for a key is an upstream's answer to a query that was let through. */
  lemma SteppedAnswersAllowed(setup: Setup, events: seq<Event>, steps: seq<CacheSteps.Event>, e: CacheSteps.Event,
                              k: string,
                              m: Message)
    requires SetsAreStores(setup, events, steps)
    requires CacheSteps.Answered(CacheSteps.Run(setup.cache.config, CacheSteps.EMPTY, steps), e, k) == Some(m)
    ensures UpstreamAnswer(setup, events, k, m)
  {
    CacheSteps.AnswersWereSet(setup.cache.config, steps, e, k, m);
  }

  // ---------- what an answer from the cache proves ----------

  /** Without Redis, in every run: a lookup answers from the cache exactly when an upstream gave that
      answer to the same question, it was stored less than its lifetime ago, and no step since the
      store superseded it. Since the upstream gave it the lifetime has passed at most, plus the time
      between the exchange and the store. */
  lemma CachedAnswerIff(setup: Setup, events: seq<Event>, n: nat, now: int, io: RedisIO, m: Message)
    requires PlainTypes(setup.cache.types) && Earlier(events, now)
    requires Asking(Run(setup, NewServer(None), events), n)
    ensures var s := Run(setup, NewServer(None), events);
            var s' := Step(setup, s, Lookup(n, now, io));
            var q := s.stages[n].q;
            var found := GetResult(s.cache, KeyFor(setup, q), now, io);
            && (found == Some(m) <==>
                exists x, j :: GivenAndKept(setup, events, x, j, q, m) && Young(setup, events, x, j, m, now))
            && s'.answers == s.answers
                             + (if found.Some? then [Answer(n, CachedReply(q, s.stages[n].id, found.value))] else [])
  {
    var s := Run(setup, NewServer(None), events);
    var q := s.stages[n].q;
    FoundIff(setup, events, q, now, io, m);
    if j: nat :| StillKept(setup, events, j, q, m) && now < events[j].now + Lifetime(setup.cache.config.limits, m) {
      var x := RepliedWasGiven(setup, None, events, j, events[j].query);
      assert GivenAndKept(setup, events, x, j, q, m) && Young(setup, events, x, j, m, now);
    }
  }

  /** An upstream gave the message at step x to a query asking the same; step j stored it, and no
      later step supersedes it. */
  ghost predicate GivenAndKept(setup: Setup, events: seq<Event>, x: int, j: int, q: Query, m: Message)
    requires q.Asks()
  {
    && StillKept(setup, events, j, q, m) && 0 <= x < j
    && exists q': Query :: q'.Asks() && SameQuestion(setup, q', q)
         && Gave(setup, None, events, x, events[j].query, q', m)
  }

  /** The age since the exchange is below the lifetime and the time the store came later. */
  predicate Young(setup: Setup, events: seq<Event>, x: int, j: int, m: Message, now: int)
    requires 0 <= x < j < |events|
  {
    now - events[x].now < Lifetime(setup.cache.config.limits, m) + (events[j].now - events[x].now)
  }

  /** Nothing has superseded the answer since the upstream gave it exactly when nothing did before it
      was stored: the store overwrites what came in between. */
  lemma SupersededSinceExchangeIff(setup: Setup, events: seq<Event>, x: int, j: int, q: Query, m: Message)
    requires q.Asks() && GivenAndKept(setup, events, x, j, q, m)
    ensures (forall k :: x < k < |events| && k != j ==> !Superseded(setup, events, k, q)) <==>
            (forall k :: x < k < j ==> !Superseded(setup, events, k, q))
  {
  }

  /** For instance an invalidation between the two is lost: n asks, misses and is answered by an
      upstream, its name is invalidated, and then the answer is stored. */
  function Overtaken(n: nat, q: Query, seen: Settings, upstreams: seq<Upstream.Exchange>, t: int,
                     io: RedisIO): seq<Event>
    requires q.Asks()
  {
    [Arrive(n, q, seen, t), Lookup(n, t, io), Exchange(n, upstreams, t), Invalidate(q.Name(), t)] + [Store(n, t, io)]
  }

  lemma StoredIsFound(setup: Setup, s: ServerState, n: nat, t: int, io: RedisIO)
    requires Storing(s, n) && s.stages[n].m.answer != [] && Lifetime(setup.cache.config.limits, s.stages[n].m) > 0
    ensures GetResult(Step(setup, s, Store(n, t, io)).cache, KeyFor(setup, s.stages[n].q), t, io) == Some(s.stages[n].m)
  {
  }

  lemma FirstThree(setup: Setup, n: nat, q: Query, seen: Settings, upstreams: seq<Upstream.Exchange>, t: int,
                   io: RedisIO, m: Message)
    requires q.Asks() && PolicyReply(setup, seen, q, t).None? && Upstream.FirstAnswer(upstreams) == Some(m)
    ensures var s := Step(setup, Step(setup, Step(setup, NewServer(None), Arrive(n, q, seen, t)), Lookup(n, t, io)),
                          Exchange(n, upstreams, t));
            Storing(s, n) && s.stages[n].q == q && s.stages[n].m == m
  {
    var id, s0 := seen.identity.Resolved(q.client, t), NewServer(None);
    Arrives(setup, s0, n, q, seen, t);
    LooksPassed(setup, s0, n, q, id, t, io);
    var c := GetState(setup.cache.config, s0.cache, KeyFor(setup, q), t, io);
    ExchangesMissed(setup, s0.(cache := c), n, q, id, upstreams, t);
  }

  lemma StoresNext(setup: Setup, n: nat, q: Query, seen: Settings, upstreams: seq<Upstream.Exchange>, t: int,
                   io: RedisIO, m: Message)
    requires q.Asks() && PolicyReply(setup, seen, q, t).None? && Upstream.FirstAnswer(upstreams) == Some(m)
    ensures var events := [Arrive(n, q, seen, t), Lookup(n, t, io), Exchange(n, upstreams, t), Invalidate(q.Name(), t)];
            var s := Run(setup, NewServer(None), events);
            Storing(s, n) && s.stages[n].q == q && s.stages[n].m == m
  {
    FirstThree(setup, n, q, seen, upstreams, t, io, m);
    RunOfFour(setup, NewServer(None), Arrive(n, q, seen, t), Lookup(n, t, io), Exchange(n, upstreams, t),
              Invalidate(q.Name(), t));
  }

  /** So a lookup answers what was given before the invalidation of its name. */
  lemma InvalidationOvertaken(setup: Setup, n: nat, q: Query, seen: Settings, upstreams: seq<Upstream.Exchange>, t: int,
                              io: RedisIO, m: Message)
    requires q.Asks() && PolicyReply(setup, seen, q, t).None?
    requires Upstream.FirstAnswer(upstreams) == Some(m) && m.answer != [] && Lifetime(setup.cache.config.limits, m) > 0
    ensures var events := Overtaken(n, q, seen, upstreams, t, io);
            GetResult(Run(setup, NewServer(None), events).cache, KeyFor(setup, q), t, io) == Some(m)
  {
    var events := [Arrive(n, q, seen, t), Lookup(n, t, io), Exchange(n, upstreams, t), Invalidate(q.Name(), t)];
    StoresNext(setup, n, q, seen, upstreams, t, io, m);
    RunSnoc(setup, NewServer(None), events, Store(n, t, io));
    StoredIsFound(setup, Run(setup, NewServer(None), events), n, t, io);
  }

  // ---------- refused queries ----------

  lemma RefusalStep(setup: Setup, s: ServerState, e: Event)
    requires e.Arrive? && e.q.Asks() && e.query !in s.stages && PolicyReply(setup, e.seen, e.q, e.now).Some?
    ensures Step(setup, s, e) == WithAnswer(s, e.query, PolicyReply(setup, e.seen, e.q, e.now).value)
  {
  }

  /** A query that is captive or blocked when it arrives is answered then, with the refusal, and no
      later step of its own changes anything: the cache is not even asked. */
  lemma RefusedStaysOut(setup: Setup, l2: Option<map<string, RedisItem>>, events: seq<Event>, i: nat, k: nat)
    requires i < k < |events| && RefusedAt(setup, events, i)
    ensures var n, reply := events[i].query, PolicyReply(setup, events[i].seen, events[i].q, events[i].now).value;
            && Run(setup, NewServer(l2), events[..i + 1]) ==
               WithAnswer(Run(setup, NewServer(l2), events[..i]), n, reply)
            && ((events[k].Lookup? || events[k].Exchange? || events[k].Store?) && events[k].query == n ==>
                  Run(setup, NewServer(l2), events[..k + 1]) == Run(setup, NewServer(l2), events[..k]))
            && AnswersTo(Run(setup, NewServer(l2), events).answers, n) == 1
  {
    RefusedAtOnce(setup, l2, events, i);
    RefusedLater(setup, l2, events, i, k);
    RefusedOnce(setup, l2, events, i + 1, events[i].query);
  }

  /** The event is the first arrival of its query, and is refused. */
  ghost predicate RefusedAt(setup: Setup, events: seq<Event>, i: nat)
    requires i < |events|
  {
    && events[i].Arrive? && events[i].q.Asks() && PolicyReply(setup, events[i].seen, events[i].q, events[i].now).Some?
    && forall h :: 0 <= h < i && events[h].Arrive? ==> events[h].query != events[i].query
  }

  lemma RefusedAtOnce(setup: Setup, l2: Option<map<string, RedisItem>>, events: seq<Event>, i: nat)
    requires i < |events| && RefusedAt(setup, events, i)
    ensures var n, reply := events[i].query, PolicyReply(setup, events[i].seen, events[i].q, events[i].now).value;
            Run(setup, NewServer(l2), events[..i + 1]) == WithAnswer(Run(setup, NewServer(l2), events[..i]), n, reply)
    ensures IsDone(Run(setup, NewServer(l2), events[..i + 1]), events[i].query)
  {
    NotArrived(setup, l2, events[..i], events[i].query);
    AfterStep(setup, NewServer(l2), events, i);
    RefusalStep(setup, Run(setup, NewServer(l2), events[..i]), events[i]);
  }

  lemma NothingAt(setup: Setup, l2: Option<map<string, RedisItem>>, events: seq<Event>, k: nat, n: nat)
    requires k < |events| && IsDone(Run(setup, NewServer(l2), events[..k]), n)
    requires (events[k].Lookup? || events[k].Exchange? || events[k].Store?) && events[k].query == n
    ensures Run(setup, NewServer(l2), events[..k + 1]) == Run(setup, NewServer(l2), events[..k])
  {
    AfterStep(setup, NewServer(l2), events, k);
    NothingWhenDone(setup, Run(setup, NewServer(l2), events[..k]), n, events[k]);
  }

  lemma RefusedLater(setup: Setup, l2: Option<map<string, RedisItem>>, events: seq<Event>, i: nat, k: nat)
    requires i < k < |events| && events[i].Arrive?
    requires IsDone(Run(setup, NewServer(l2), events[..i + 1]), events[i].query)
    ensures (events[k].Lookup? || events[k].Exchange? || events[k].Store?) && events[k].query == events[i].query ==>
              Run(setup, NewServer(l2), events[..k + 1]) == Run(setup, NewServer(l2), events[..k])
  {
    var n := events[i].query;
    DoneStays(setup, l2, events, i + 1, k, n);
    if (events[k].Lookup? || events[k].Exchange? || events[k].Store?) && events[k].query == n {
      NothingAt(setup, l2, events, k, n);
    }
  }

  lemma RefusedOnce(setup: Setup, l2: Option<map<string, RedisItem>>, events: seq<Event>, i: nat, n: nat)
    requires i <= |events| && IsDone(Run(setup, NewServer(l2), events[..i]), n)
    ensures AnswersTo(Run(setup, NewServer(l2), events).answers, n) == 1
  {
    DoneStays(setup, l2, events, i, |events|, n);
    assert events[..|events|] == events;
    OneAnswerEach(setup, l2, events, n);
  }

  /** The answers given by the portal and by the policy, in order. */
  function PolicyAnswers(answers: seq<Answer>): seq<Answer> {
    if answers == [] then []
    else
      var last := answers[|answers| - 1];
      var refusal := last.reply.origin.FromPortal? || last.reply.origin.FromPolicy?;
      PolicyAnswers(answers[..|answers| - 1]) + (if refusal then [last] else [])
  }

  lemma PolicyAnswersAppend(answers: seq<Answer>, a: Answer)
    ensures PolicyAnswers(answers + [a]) ==
            PolicyAnswers(answers) + (if a.reply.origin.FromPortal? || a.reply.origin.FromPolicy? then [a] else [])
  {
    assert (answers + [a])[..|answers|] == answers;
  }

  /** The same arrivals at the same steps; lookups, upstream answers, Redis, invalidations and
      evictions may all differ. */
  predicate SameArrivals(events: seq<Event>, events': seq<Event>) {
    && |events| == |events'|
    && forall i :: 0 <= i < |events| ==> if events[i].Arrive? then events'[i] == events[i] else !events'[i].Arrive?
  }

  /** In two states the same queries have arrived and the policy has given the same answers. */
  ghost predicate SamePolicy(s: ServerState, s': ServerState) {
    s.stages.Keys == s'.stages.Keys && PolicyAnswers(s.answers) == PolicyAnswers(s'.answers)
  }

  lemma AnswerUnseen(s: ServerState, c: CacheState, n: nat, reply: Reply)
    requires n in s.stages && !reply.origin.FromPortal? && !reply.origin.FromPolicy?
    ensures SamePolicy(s, WithAnswer(s.(cache := c), n, reply))
  {
    PolicyAnswersAppend(s.answers, Answer(n, reply));
  }

  lemma ExchangesUp(setup: Setup, s: ServerState, n: nat, upstreams: seq<Upstream.Exchange>, now: int)
    requires Forwarding(s, n)
    ensures var q, id := s.stages[n].q, s.stages[n].id;
            Step(setup, s, Exchange(n, upstreams, now)) ==
            match Upstream.FirstAnswer(upstreams)
            case None => WithAnswer(s, n, FailureReply(q))
            case Some(m) => s.(stages := s.stages[n := Replied(q, id, m)])
  {
  }

  lemma StoresUp(setup: Setup, s: ServerState, n: nat, now: int, io: RedisIO)
    requires Storing(s, n)
    ensures var q, id, m := s.stages[n].q, s.stages[n].id, s.stages[n].m;
            var c := SetState(setup.cache.config, s.cache, KeyFor(setup, q), m, now, io);
            Step(setup, s, Store(n, now, io)) == WithAnswer(s.(cache := c), n, UpstreamReply(q, id, m))
  {
  }

  lemma LookupUnseen(setup: Setup, s: ServerState, n: nat, now: int, io: RedisIO)
    requires Asking(s, n)
    ensures SamePolicy(s, Step(setup, s, Lookup(n, now, io)))
  {
    var q, id := s.stages[n].q, s.stages[n].id;
    var found := GetResult(s.cache, KeyFor(setup, q), now, io);
    LooksUp(setup, s, n, now, io);
    if found.Some? {
      var c := GetState(setup.cache.config, s.cache, KeyFor(setup, q), now, io);
      AnswerUnseen(s, c, n, CachedReply(q, id, found.value));
    }
  }

  lemma StoreUnseen(setup: Setup, s: ServerState, n: nat, now: int, io: RedisIO)
    requires Storing(s, n)
    ensures SamePolicy(s, Step(setup, s, Store(n, now, io)))
  {
    var q, id, m := s.stages[n].q, s.stages[n].id, s.stages[n].m;
    StoresUp(setup, s, n, now, io);
    AnswerUnseen(s, SetState(setup.cache.config, s.cache, KeyFor(setup, q), m, now, io), n, UpstreamReply(q, id, m));
  }

  lemma ExchangeUnseen(setup: Setup, s: ServerState, n: nat, upstreams: seq<Upstream.Exchange>, now: int)
    requires Forwarding(s, n)
    ensures SamePolicy(s, Step(setup, s, Exchange(n, upstreams, now)))
  {
    ExchangesUp(setup, s, n, upstreams, now);
    if Upstream.FirstAnswer(upstreams).None? {
      AnswerUnseen(s, s.cache, n, FailureReply(s.stages[n].q));
    }
  }

  lemma OtherStepsUnseen(setup: Setup, s: ServerState, e: Event)
    requires !e.Arrive?
    ensures SamePolicy(s, Step(setup, s, e))
  {
    match e
    case Lookup(n, now, io) =>
      if Asking(s, n) {
        LookupUnseen(setup, s, n, now, io);
      }
    case Exchange(n, upstreams, now) =>
      if Forwarding(s, n) {
        ExchangeUnseen(setup, s, n, upstreams, now);
      }
    case Store(n, now, io) =>
      if Storing(s, n) {
        StoreUnseen(setup, s, n, now, io);
      }
    case _ =>
  }

  lemma RefusalsAgree(setup: Setup, s: ServerState, s': ServerState, n: nat, reply: Reply)
    requires SamePolicy(s, s')
    ensures SamePolicy(WithAnswer(s, n, reply), WithAnswer(s', n, reply))
  {
    PolicyAnswersAppend(s.answers, Answer(n, reply));
    PolicyAnswersAppend(s'.answers, Answer(n, reply));
  }

  lemma ArrivalsAgree(setup: Setup, s: ServerState, s': ServerState, e: Event)
    requires e.Arrive? && SamePolicy(s, s')
    ensures SamePolicy(Step(setup, s, e), Step(setup, s', e))
  {
    if e.query !in s.stages && e.q.Asks() {
      Arrives(setup, s, e.query, e.q, e.seen, e.now);
      Arrives(setup, s', e.query, e.q, e.seen, e.now);
      var refused := PolicyReply(setup, e.seen, e.q, e.now);
      if refused.Some? {
        RefusalsAgree(setup, s, s', e.query, refused.value);
      }
    }
  }

  /** What the portal and the policy answer is independent of the cache and the upstreams: two runs
      with the same arrivals, that differ in everything else, give the same such answers in the
      same order, even when a name was cached while it was allowed. */
  lemma {:induction false} PolicyIndependent(setup: Setup, l2: Option<map<string, RedisItem>>,
                                             l2': Option<map<string, RedisItem>>,
                                             events: seq<Event>, events': seq<Event>)
    requires SameArrivals(events, events')
    ensures SamePolicy(Run(setup, NewServer(l2), events), Run(setup, NewServer(l2'), events'))
    decreases |events|
  {
    if events != [] {
      var n := |events| - 1;
      PolicyIndependent(setup, l2, l2', events[..n], events'[..n]);
      var s, s' := Run(setup, NewServer(l2), events[..n]), Run(setup, NewServer(l2'), events'[..n]);
      if events[n].Arrive? {
        ArrivalsAgree(setup, s, s', events[n]);
      } else {
        OtherStepsUnseen(setup, s, events[n]);
        OtherStepsUnseen(setup, s', events'[n]);
      }
    }
  }

  // ---------- logging in ----------

  /** From a successful login until the session expires the portal answers none of the client's
      queries, whatever other logins and evictions follow; from then on it answers them exactly when
      the client's range demands a login. */
  lemma LoginLiftsPortal(setup: Setup, s: IdentityState, a: Address, username: string, user: Captive.UserInfo,
                         expiresAt: int,
                         events: seq<Captive.Event>, q: Query, seen: Settings, now: int)
    requires forall i :: 0 <= i < |events| ==> if events[i].Login? then events[i].client != a else events[i].at <= now
    requires q.Asks() && q.client == a
    requires seen.identity == Captive.HappenAll(Captive.WithLogin(s, a, username, user, expiresAt), events)
    ensures var reply := PolicyReply(setup, seen, q, now);
            reply.Some? && reply.value.origin.FromPortal? <==>
            expiresAt <= now && exists i :: s.FirstContains(a, i) && s.ranges[i].authMode == 1
  {
    RangesDecide(s, a);
    Captive.LoginLifecycle(s, a, username, user, expiresAt, events, now);
  }

  // ---------- counters ----------

  function FromOrigin(answers: seq<Answer>, o: Origin): nat {
    if answers == [] then 0
    else FromOrigin(answers[..|answers| - 1], o) + (if answers[|answers| - 1].reply.origin == o then 1 else 0)
  }

  lemma FromOriginAppend(answers: seq<Answer>, a: Answer, o: Origin)
    ensures FromOrigin(answers + [a], o) == FromOrigin(answers, o) + (if a.reply.origin == o then 1 else 0)
  {
    assert (answers + [a])[..|answers|] == answers;
  }

  /** The queries that wait for an upstream, or for its message to be stored and sent. */
  ghost function Waiting(s: ServerState): set<nat> {
    set n | n in s.stages && (s.stages[n].Missed? || s.stages[n].Replied?)
  }

  /** The hits are the answers from the cache; the misses are the answers of upstreams, the
      failures, and the queries still waiting. */
  ghost predicate Balanced(s: ServerState) {
    && s.cache.hits == FromOrigin(s.answers, FromCache)
    && s.cache.misses == FromOrigin(s.answers, FromUpstream) + FromOrigin(s.answers, FromFailure) + |Waiting(s)|
  }

  lemma BalancedAnswer(s: ServerState, n: nat, reply: Reply, c: CacheState)
    ensures var s', o := WithAnswer(s.(cache := c), n, reply), reply.origin;
            && (forall o' :: FromOrigin(s'.answers, o') == FromOrigin(s.answers, o') + (if o' == o then 1 else 0))
            && |Waiting(s')| == |Waiting(s)| - (if n in Waiting(s) then 1 else 0)
  {
    var s' := WithAnswer(s.(cache := c), n, reply);
    forall o' ensures FromOrigin(s'.answers, o') == FromOrigin(s.answers, o') + (if o' == reply.origin then 1 else 0) {
      FromOriginAppend(s.answers, Answer(n, reply), o');
    }
    assert Waiting(s') == Waiting(s) - {n};
  }

  lemma LooksUp(setup: Setup, s: ServerState, n: nat, now: int, io: RedisIO)
    requires Asking(s, n)
    ensures var q, id := s.stages[n].q, s.stages[n].id;
            var found := GetResult(s.cache, KeyFor(setup, q), now, io);
            var c := GetState(setup.cache.config, s.cache, KeyFor(setup, q), now, io);
            Step(setup, s, Lookup(n, now, io)) ==
            if found.Some? then WithAnswer(s.(cache := c), n, CachedReply(q, id, found.value))
            else s.(cache := c, stages := s.stages[n := Missed(q, id)])
  {
  }

  lemma BalancedLookup(setup: Setup, s: ServerState, n: nat, now: int, io: RedisIO)
    requires Balanced(s) && Asking(s, n)
    ensures Balanced(Step(setup, s, Lookup(n, now, io)))
  {
    var q, id := s.stages[n].q, s.stages[n].id;
    var found := GetResult(s.cache, KeyFor(setup, q), now, io);
    var c := GetState(setup.cache.config, s.cache, KeyFor(setup, q), now, io);
    LooksUp(setup, s, n, now, io);
    CountsOne(setup.cache.config, s.cache, KeyFor(setup, q), now, io);
    if found.Some? {
      BalancedAnswer(s, n, CachedReply(q, id, found.value), c);
    } else {
      assert Waiting(s.(cache := c, stages := s.stages[n := Missed(q, id)])) == Waiting(s) + {n};
    }
  }

  lemma CountsOne(config: Config, c: CacheState, k: string, now: int, io: RedisIO)
    ensures var c', found := GetState(config, c, k, now, io), GetResult(c, k, now, io);
            && c'.hits == c.hits + (if found.Some? then 1 else 0)
            && c'.misses == c.misses + (if found.Some? then 0 else 1)
  {
  }

  lemma BalancedExchange(setup: Setup, s: ServerState, n: nat, upstreams: seq<Upstream.Exchange>, now: int)
    requires Balanced(s) && Forwarding(s, n)
    ensures Balanced(Step(setup, s, Exchange(n, upstreams, now)))
  {
    var s' := Step(setup, s, Exchange(n, upstreams, now));
    if Upstream.FirstAnswer(upstreams).None? {
      BalancedAnswer(s, n, FailureReply(s.stages[n].q), s.cache);
    } else {
      assert Waiting(s') == Waiting(s);
    }
  }

  lemma BalancedStore(setup: Setup, s: ServerState, n: nat, now: int, io: RedisIO)
    requires Balanced(s) && Storing(s, n)
    ensures Balanced(Step(setup, s, Store(n, now, io)))
  {
    var q, id, m := s.stages[n].q, s.stages[n].id, s.stages[n].m;
    var c := SetState(setup.cache.config, s.cache, KeyFor(setup, q), m, now, io);
    assert c.hits == s.cache.hits && c.misses == s.cache.misses;
    assert Step(setup, s, Store(n, now, io)) == WithAnswer(s.(cache := c), n, UpstreamReply(q, id, m));
    BalancedAnswer(s, n, UpstreamReply(q, id, m), c);
  }

  lemma BalancedStage(s: ServerState, n: nat, stage: Stage)
    requires Balanced(s) && n !in s.stages && (stage.Passed? || stage.Ignored?)
    ensures Balanced(s.(stages := s.stages[n := stage]))
  {
    assert Waiting(s.(stages := s.stages[n := stage])) == Waiting(s);
  }

  lemma BalancedArrival(setup: Setup, s: ServerState, n: nat, q: Query, seen: Settings, now: int)
    requires Balanced(s)
    ensures Balanced(Step(setup, s, Arrive(n, q, seen, now)))
  {
    if n !in s.stages && q.Asks() {
      Arrives(setup, s, n, q, seen, now);
      var refused := PolicyReply(setup, seen, q, now);
      if refused.Some? {
        BalancedRefusal(s, n, refused.value);
      } else {
        BalancedStage(s, n, Passed(q, seen.identity.Resolved(q.client, now)));
      }
    } else if n !in s.stages {
      BalancedStage(s, n, Ignored);
    }
  }

  lemma BalancedRefusal(s: ServerState, n: nat, reply: Reply)
    requires Balanced(s) && n !in s.stages && (reply.origin.FromPortal? || reply.origin.FromPolicy?)
    ensures Balanced(WithAnswer(s, n, reply))
  {
    BalancedAnswer(s, n, reply, s.cache);
  }

  lemma BalancedStep(setup: Setup, s: ServerState, e: Event)
    requires Balanced(s)
    ensures Balanced(Step(setup, s, e))
  {
    match e
    case Arrive(n, q, seen, now) => BalancedArrival(setup, s, n, q, seen, now);
    case Lookup(n, now, io) =>
      if Asking(s, n) {
        BalancedLookup(setup, s, n, now, io);
      }
    case Exchange(n, upstreams, now) =>
      if Forwarding(s, n) {
        BalancedExchange(setup, s, n, upstreams, now);
      }
    case Store(n, now, io) =>
      if Storing(s, n) {
        BalancedStore(setup, s, n, now, io);
      }
    case _ =>
      assert Waiting(Step(setup, s, e)) == Waiting(s);
  }

  lemma {:induction false} CountersBalance(setup: Setup, l2: Option<map<string, RedisItem>>, events: seq<Event>)
    ensures Balanced(Run(setup, NewServer(l2), events))
  {
    if events != [] {
      var init := events[..|events| - 1];
      CountersBalance(setup, l2, init);
      BalancedStep(setup, Run(setup, NewServer(l2), init), events[|events| - 1]);
    }
  }
}
