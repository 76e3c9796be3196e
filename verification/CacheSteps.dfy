/** The two-tier cache at the grain of its locks: a Get looks in memory, reads Redis and promotes in
    separate steps, and a Set writes memory and Redis in separate steps. The steps of any number of
    calls interleave. */
module CacheSteps {
  import opened Wrappers
  import opened DomainNames
  import opened DnsMessages
  import opened Cache

  /** Where a call stands: a Get that missed in memory, a Get that found the message in Redis and has
      to promote it, a Set or a promotion that has written memory and not yet Redis, or nothing left
      to do. */
  datatype Job = Reading(k: string) | Promoting(k: string, m: Message) | Writing(k: string, m: Message) | Over

  datatype Tiers = Tiers(l1: map<string, Stored>, l2: map<string, RedisItem>, jobs: map<nat, Job>)

  datatype Event =
    | Look(job: nat, k: string, now: int)
    | Read(job: nat, now: int, ok: bool)
    | Promote(job: nat, now: int)
    | Set(job: nat, k: string, msg: Message, now: int)
    | Write(job: nat, now: int, ok: bool)
    | Invalidate(name: string, now: int)
    | Evict(now: int)

  const EMPTY := Tiers(map[], map[], map[])

  function JobOf(s: Tiers, n: nat): Job {
    if n in s.jobs then s.jobs[n] else Over
  }

  /** The in-memory write with which Set starts, called by the server or for a promotion. */
  function WroteMemory(c: Config, s: Tiers, n: nat, k: string, m: Message, now: int): Tiers {
    if m.answer == [] then s.(jobs := s.jobs[n := Over])
    else s.(l1 := s.l1[k := Stored(m, now + Lifetime(c.limits, m))], jobs := s.jobs[n := Writing(k, m)])
  }

  /** What a Redis read finds. */
  function Found(s: Tiers, e: Event): Option<Message> {
    if e.Read? && e.ok && JobOf(s, e.job).Reading? then L2Lookup(s.l2, JobOf(s, e.job).k, e.now) else None
  }

  function Step(c: Config, s: Tiers, e: Event): Tiers {
    match e
    case Look(n, k, now) =>
      if n in s.jobs then s
      else s.(jobs := s.jobs[n := if L1Lookup(s.l1, k, now).Some? then Over else Reading(k)])
    case Read(n, now, ok) =>
      if !JobOf(s, n).Reading? then s
      else s.(jobs := s.jobs[n := if Found(s, e).Some? then Promoting(s.jobs[n].k, Found(s, e).value) else Over])
    case Promote(n, now) =>
      if !JobOf(s, n).Promoting? then s else WroteMemory(c, s, n, s.jobs[n].k, s.jobs[n].m, now)
    case Set(n, k, m, now) =>
      if n in s.jobs then s else WroteMemory(c, s, n, k, m, now)
    case Write(n, now, ok) =>
      if !JobOf(s, n).Writing? then s
      else
        var k, m := s.jobs[n].k, s.jobs[n].m;
        var item := RedisEntry(c.redisLimits, m, now, Lifetime(c.limits, m));
        s.(l2 := if ok && m.answer != [] then s.l2[k := item] else s.l2, jobs := s.jobs[n := Over])
    case Invalidate(name, _) => s.(l1 := WithoutPrefix(s.l1, ToLower(Fqdn(name)) + "|"))
    case Evict(now) => s.(l1 := Unexpired(s.l1, now))
  }

  function Run(c: Config, s: Tiers, events: seq<Event>): Tiers {
    if events == [] then s else Step(c, Run(c, s, events[..|events| - 1]), events[|events| - 1])
  }

  lemma RunSnoc(c: Config, s: Tiers, events: seq<Event>, e: Event)
    ensures Run(c, s, events + [e]) == Step(c, Run(c, s, events), e)
  {
    assert (events + [e])[..|events|] == events;
  }

  /** The message that the step answers to a Get of the key, if it does. */
  function Answered(s: Tiers, e: Event, k: string): Option<Message> {
    if e.Look? && e.k == k && e.job !in s.jobs then L1Lookup(s.l1, k, e.now)
    else if e.Read? && JobOf(s, e.job) == Reading(k) then Found(s, e)
    else None
  }

  /** The step starts a Set of the key. */
  predicate Starts(s: Tiers, e: Event, k: string) {
    e.Set? && e.k == k && e.job !in s.jobs && e.msg.answer != []
  }

  // ---------- one call after the other ----------

  /** The steps of a Get with nothing in between, each at its own instant, are the Get of the cache
      as a whole. */
  lemma GetInOneGo(c: Config, s: Tiers, n: nat, k: string, now: int, io: RedisIO, h: nat, f: nat)
    requires n !in s.jobs && (k in s.l2 ==> s.l2[k].msg.answer != [])
    ensures var whole := CacheState(s.l1, Some(s.l2), h, f);
            var read, promote := now + io.readLag, now + io.readLag + io.promoteLag;
            var s1 := Step(c, s, Look(n, k, now));
            var s2 := Step(c, s1, Read(n, read, io.readOk));
            var done := Step(c, Step(c, s2, Promote(n, promote)), Write(n, promote + io.writeLag, io.writeOk));
            var after := GetState(c, whole, k, now, io);
            && after.l1 == done.l1 && after.l2 == Some(done.l2) && JobOf(done, n).Over?
            && GetResult(whole, k, now, io) ==
               (if Answered(s, Look(n, k, now), k).Some? then Answered(s, Look(n, k, now), k)
                else Answered(s1, Read(n, read, io.readOk), k))
  {
    if L1Lookup(s.l1, k, now).None? {
      MissInOneGo(c, s, n, k, now, io, h, f);
    }
  }

  lemma MissInOneGo(c: Config, s: Tiers, n: nat, k: string, now: int, io: RedisIO, h: nat, f: nat)
    requires n !in s.jobs && (k in s.l2 ==> s.l2[k].msg.answer != []) && L1Lookup(s.l1, k, now).None?
    ensures var read, promote := now + io.readLag, now + io.readLag + io.promoteLag;
            var s1 := Step(c, s, Look(n, k, now));
            var s2 := Step(c, s1, Read(n, read, io.readOk));
            var done := Step(c, Step(c, s2, Promote(n, promote)), Write(n, promote + io.writeLag, io.writeOk));
            var after := GetState(c, CacheState(s.l1, Some(s.l2), h, f), k, now, io);
            after.l1 == done.l1 && after.l2 == Some(done.l2) && JobOf(done, n).Over?
  {
    var s1 := Step(c, s, Look(n, k, now));
    var s2 := Step(c, s1, Read(n, now + io.readLag, io.readOk));
    if JobOf(s2, n).Promoting? {
      PromotesInOneGo(c, s2, n, k, s2.jobs[n].m, now + io.readLag + io.promoteLag, io, h, f);
    }
  }

  lemma PromotesInOneGo(c: Config, s: Tiers, n: nat, k: string, m: Message, now: int, io: RedisIO, h: nat, f: nat)
    requires JobOf(s, n) == Promoting(k, m)
    ensures var done := Step(c, Step(c, s, Promote(n, now)), Write(n, now + io.writeLag, io.writeOk));
            var after := SetState(c, CacheState(s.l1, Some(s.l2), h, f), k, m, now, io);
            after.l1 == done.l1 && after.l2 == Some(done.l2) && JobOf(done, n).Over?
  {
  }

  /** And so are those of a Set. */
  lemma SetInOneGo(c: Config, s: Tiers, n: nat, k: string, m: Message, now: int, io: RedisIO, h: nat, f: nat)
    requires n !in s.jobs
    ensures var done := Step(c, Step(c, s, Set(n, k, m, now)), Write(n, now + io.writeLag, io.writeOk));
            var after := SetState(c, CacheState(s.l1, Some(s.l2), h, f), k, m, now, io);
            after.l1 == done.l1 && after.l2 == Some(done.l2) && JobOf(done, n).Over?
  {
  }

  // ---------- any interleaving, any Redis ----------

  predicate WasSet(events: seq<Event>, k: string, m: Message) {
    exists j :: 0 <= j < |events| && events[j].Set? && events[j].k == k && events[j].msg == m
  }

  predicate Carries(job: Job, k: string) {
    (job.Promoting? || job.Writing?) && job.k == k
  }

  /** All that the tiers hold and the calls carry for the key was Set for it. */
  ghost predicate AllWereSet(s: Tiers, events: seq<Event>, k: string) {
    && (k in s.l1 ==> WasSet(events, k, s.l1[k].msg))
    && (k in s.l2 ==> WasSet(events, k, s.l2[k].msg))
    && forall n :: n in s.jobs && Carries(s.jobs[n], k) ==> WasSet(events, k, s.jobs[n].m)
  }

  lemma WasSetLater(events: seq<Event>, e: Event, k: string, m: Message)
    requires WasSet(events, k, m)
    ensures WasSet(events + [e], k, m)
  {
    var j :| 0 <= j < |events| && events[j].Set? && events[j].k == k && events[j].msg == m;
    assert (events + [e])[j] == events[j];
  }

  lemma AllWereSetLater(s: Tiers, events: seq<Event>, e: Event, k: string)
    requires AllWereSet(s, events, k)
    ensures AllWereSet(s, events + [e], k)
  {
    forall m | WasSet(events, k, m) ensures WasSet(events + [e], k, m) {
      WasSetLater(events, e, k, m);
    }
  }

  lemma WereSetStep(c: Config, s: Tiers, events: seq<Event>, e: Event, k: string)
    requires AllWereSet(s, events, k)
    requires e.Set? && e.k == k ==> WasSet(events, k, e.msg)
    ensures AllWereSet(Step(c, s, e), events, k)
  {
  }

  lemma {:induction false} TiersWereSet(c: Config, events: seq<Event>, k: string)
    ensures AllWereSet(Run(c, EMPTY, events), events, k)
  {
    if events != [] {
      var init, e := events[..|events| - 1], events[|events| - 1];
      TiersWereSet(c, init, k);
      AllWereSetLater(Run(c, EMPTY, init), init, e, k);
      assert init + [e] == events;
      assert events[|events| - 1] == e;
      WereSetStep(c, Run(c, EMPTY, init), events, e, k);
    }
  }

  /** In every interleaving, however Redis fails, an answer was Set for the key before. */
  lemma AnswersWereSet(c: Config, events: seq<Event>, e: Event, k: string, m: Message)
    requires Answered(Run(c, EMPTY, events), e, k) == Some(m)
    ensures WasSet(events, k, m)
  {
    TiersWereSet(c, events, k);
  }

  // ---------- which messages can still be answered ----------

  /** The message is in a tier and has not expired, or some call has still to write it. */
  ghost predicate Alive(s: Tiers, k: string, m: Message, now: int) {
    || L1Lookup(s.l1, k, now) == Some(m)
    || L2Lookup(s.l2, k, now) == Some(m)
    || Carried(s, k, m)
  }

  /** From the instant on, in order, with a working Redis and no further Set of the key. */
  predicate Continues(cont: seq<Event>, k: string, now: int) {
    && (forall i :: 0 <= i < |cont| ==> now <= cont[i].now && (cont[i].Set? ==> cont[i].k != k))
    && (forall i :: 0 <= i < |cont| && (cont[i].Read? || cont[i].Write?) ==> cont[i].ok)
    && forall i, j :: 0 <= i < j < |cont| ==> cont[i].now <= cont[j].now
  }

  /** The last step of the continuation answers the key with the message. */
  ghost predicate EndsAnswering(c: Config, s: Tiers, cont: seq<Event>, k: string, m: Message) {
    cont != [] && Answered(Run(c, s, cont[..|cont| - 1]), cont[|cont| - 1], k) == Some(m)
  }

  /** Some call is under way to write the message. */
  ghost predicate Carried(s: Tiers, k: string, m: Message) {
    m.answer != [] && exists n :: n in s.jobs && Carries(s.jobs[n], k) && s.jobs[n].m == m
  }

  lemma CarriedStep(c: Config, s: Tiers, e: Event, k: string, m: Message)
    requires !(e.Set? && e.k == k) && Carried(Step(c, s, e), k, m)
    ensures Carried(s, k, m) || L2Lookup(s.l2, k, e.now) == Some(m)
  {
    var s' := Step(c, s, e);
    var n :| n in s'.jobs && Carries(s'.jobs[n], k) && s'.jobs[n].m == m;
    assert n in s.jobs;
    assert (Carries(s.jobs[n], k) && s.jobs[n].m == m) || Found(s, e) == Some(m);
  }

  lemma TierStep(c: Config, s: Tiers, e: Event, k: string, m: Message, now: int)
    requires !(e.Set? && e.k == k) && e.now <= now
    requires L1Lookup(Step(c, s, e).l1, k, now) == Some(m) || L2Lookup(Step(c, s, e).l2, k, now) == Some(m)
    ensures Alive(s, k, m, e.now)
  {
  }

  lemma AliveStep(c: Config, s: Tiers, e: Event, k: string, m: Message, now: int)
    requires !(e.Set? && e.k == k) && Alive(Step(c, s, e), k, m, now) && e.now <= now
    ensures Alive(s, k, m, e.now)
  {
    if Carried(Step(c, s, e), k, m) {
      CarriedStep(c, s, e, k, m);
    } else {
      TierStep(c, s, e, k, m, now);
    }
  }

  lemma AliveEarlier(s: Tiers, k: string, m: Message, now: int, later: int)
    requires now <= later && Alive(s, k, m, later)
    ensures Alive(s, k, m, now)
  {
  }

  lemma {:induction false} AliveBefore(c: Config, s: Tiers, cont: seq<Event>, k: string, m: Message, start: int,
                                       now: int)
    requires Continues(cont, k, start) && start <= now && (forall i :: 0 <= i < |cont| ==> cont[i].now <= now)
    requires Alive(Run(c, s, cont), k, m, now)
    ensures Alive(s, k, m, start)
  {
    if cont == [] {
      AliveEarlier(s, k, m, start, now);
    } else {
      var init, e := cont[..|cont| - 1], cont[|cont| - 1];
      AliveStep(c, Run(c, s, init), e, k, m, now);
      AliveBefore(c, s, init, k, m, start, e.now);
    }
  }

  lemma Max(jobs: map<nat, Job>) returns (n: nat)
    ensures n !in jobs
  {
    n := Above(jobs.Keys);
  }

  lemma {:induction false} Above(ids: set<nat>) returns (n: nat)
    ensures forall i :: i in ids ==> i < n
    decreases |ids|
  {
    if i: nat :| i in ids {
      var m := Above(ids - {i});
      n := if m <= i then i + 1 else m;
      forall j | j in ids ensures j < n {
        assert j == i || j in ids - {i};
      }
    } else {
      n := 0;
    }
  }

  /** Looks the key up after dropping it from memory: what Redis holds is answered. */
  lemma RedisAnswers(c: Config, s: Tiers, k: string, m: Message, now: int, name: string) returns (cont: seq<Event>)
    requires L2Lookup(s.l2, k, now) == Some(m) && HasPrefix(k, ToLower(Fqdn(name)) + "|")
    ensures Continues(cont, k, now) && EndsAnswering(c, s, cont, k, m)
  {
    var n := Max(s.jobs);
    var drop, look, read := Invalidate(name, now), Look(n, k, now), Read(n, now, true);
    cont := [drop, look, read];
    assert cont[..2] == [drop, look] && [drop, look] == [drop] + [look] && [drop] == [] + [drop];
    RunSnoc(c, s, [], drop);
    RunSnoc(c, s, [drop], look);
  }

  lemma Prepended(c: Config, s: Tiers, e: Event, cont: seq<Event>, k: string, m: Message, now: int)
    returns (longer: seq<Event>)
    requires Continues(cont, k, now) && EndsAnswering(c, Step(c, s, e), cont, k, m)
    requires e.now == now && !e.Set? && !(e.Read? && !e.ok) && !(e.Write? && !e.ok)
    ensures Continues(longer, k, now) && EndsAnswering(c, s, longer, k, m)
  {
    longer := [e] + cont;
    assert longer[..|longer| - 1] == [e] + cont[..|cont| - 1];
    RunFrom(c, s, e, cont[..|cont| - 1]);
  }

  lemma {:induction false} RunFrom(c: Config, s: Tiers, e: Event, events: seq<Event>)
    ensures Run(c, s, [e] + events) == Run(c, Step(c, s, e), events)
    decreases |events|
  {
    if events == [] {
      assert [e] + events == [] + [e];
      RunSnoc(c, s, [], e);
    } else {
      var init, last := events[..|events| - 1], events[|events| - 1];
      RunFrom(c, s, e, init);
      RunSnoc(c, s, [e] + init, last);
      assert [e] + events == [e] + init + [last];
    }
  }

  lemma WriterAnswers(c: Config, s: Tiers, k: string, m: Message, now: int, name: string, n: nat)
    returns (cont: seq<Event>)
    requires JobOf(s, n) == Writing(k, m) && m.answer != [] && HasPrefix(k, ToLower(Fqdn(name)) + "|")
    ensures Continues(cont, k, now) && EndsAnswering(c, s, cont, k, m)
  {
    var e := Write(n, now, true);
    var rest := RedisAnswers(c, Step(c, s, e), k, m, now, name);
    cont := Prepended(c, s, e, rest, k, m, now);
  }

  lemma AliveAnswers(c: Config, s: Tiers, k: string, m: Message, now: int, name: string) returns (cont: seq<Event>)
    requires Alive(s, k, m, now) && HasPrefix(k, ToLower(Fqdn(name)) + "|")
    ensures Continues(cont, k, now) && EndsAnswering(c, s, cont, k, m)
  {
    if L1Lookup(s.l1, k, now) == Some(m) {
      var n := Max(s.jobs);
      cont := [Look(n, k, now)];
      assert cont[..0] == [];
    } else if L2Lookup(s.l2, k, now) == Some(m) {
      cont := RedisAnswers(c, s, k, m, now, name);
    } else {
      var n :| n in s.jobs && Carries(s.jobs[n], k) && s.jobs[n].m == m;
      if s.jobs[n].Writing? {
        cont := WriterAnswers(c, s, k, m, now, name, n);
      } else {
        var e := Promote(n, now);
        var rest := WriterAnswers(c, Step(c, s, e), k, m, now, name, n);
        cont := Prepended(c, s, e, rest, k, m, now);
      }
    }
  }

  /** A message can be answered for the key later, without another Set of it, exactly when it is
      alive: in every state, whatever calls are under way. */
  lemma MayBeAnsweredIff(c: Config, s: Tiers, k: string, m: Message, now: int, name: string)
    requires HasPrefix(k, ToLower(Fqdn(name)) + "|")
    ensures Alive(s, k, m, now) <==> exists cont :: Continues(cont, k, now) && EndsAnswering(c, s, cont, k, m)
  {
    if Alive(s, k, m, now) {
      var cont := AliveAnswers(c, s, k, m, now, name);
    }
    if cont: seq<Event> :| Continues(cont, k, now) && EndsAnswering(c, s, cont, k, m) {
      var init, e := cont[..|cont| - 1], cont[|cont| - 1];
      assert Alive(Run(c, s, init), k, m, e.now);
      AliveBefore(c, s, init, k, m, now, e.now);
    }
  }

  /** Every message that can be answered from the instant on, without a further Set of the key, is m. */
  ghost predicate OnlyAnswer(c: Config, s: Tiers, k: string, m: Message, now: int) {
    forall cont, m' :: (Continues(cont, k, now) && EndsAnswering(c, s, cont, k, m')) ==> m' == m
  }

  /** From the Redis write that ends a Set on, until another starts, every answer is its message
      exactly when memory holds no other message any more and no other writer under way carries one. */
  lemma SetFinishedIff(c: Config, s: Tiers, n: nat, k: string, m: Message, now: int, name: string)
    requires JobOf(s, n) == Writing(k, m) && m.answer != [] && HasPrefix(k, ToLower(Fqdn(name)) + "|")
    ensures OnlyAnswer(c, Step(c, s, Write(n, now, true)), k, m, now)
            <==>
            && (L1Lookup(s.l1, k, now).Some? ==> L1Lookup(s.l1, k, now) == Some(m))
            && forall n' :: n' in s.jobs && n' != n && Carries(s.jobs[n'], k) && s.jobs[n'].m.answer != [] ==>
                 s.jobs[n'].m == m
  {
    var s' := Step(c, s, Write(n, now, true));
    forall m'
      ensures Alive(s', k, m', now) <==> exists cont :: Continues(cont, k, now) && EndsAnswering(c, s', cont, k, m')
    {
      MayBeAnsweredIff(c, s', k, m', now, name);
    }
    forall m' | m' != m
      ensures Alive(s', k, m', now) <==> L1Lookup(s.l1, k, now) == Some(m') || CarriedBesides(s, n, k, m')
    {
      AliveAfterWrite(c, s, n, k, m, now, m');
    }
    if n' :| n' in s.jobs && n' != n && Carries(s.jobs[n'], k) && s.jobs[n'].m.answer != [] && s.jobs[n'].m != m {
      assert CarriedBesides(s, n, k, s.jobs[n'].m);
    }
  }

  /** Another call than n is under way to write the message. */
  predicate CarriedBesides(s: Tiers, n: nat, k: string, m: Message) {
    m.answer != [] && exists n' :: n' in s.jobs && n' != n && Carries(s.jobs[n'], k) && s.jobs[n'].m == m
  }

  lemma AliveAfterWrite(c: Config, s: Tiers, n: nat, k: string, m: Message, now: int, m': Message)
    requires JobOf(s, n) == Writing(k, m) && m.answer != [] && m' != m
    ensures Alive(Step(c, s, Write(n, now, true)), k, m', now) <==>
            L1Lookup(s.l1, k, now) == Some(m') || CarriedBesides(s, n, k, m')
  {
    var s' := Step(c, s, Write(n, now, true));
    assert L2Lookup(s'.l2, k, now) == Some(m);
    if CarriedBesides(s, n, k, m') {
      var n' :| n' in s.jobs && n' != n && Carries(s.jobs[n'], k) && s.jobs[n'].m == m';
      assert n' in s'.jobs && Carries(s'.jobs[n'], k) && s'.jobs[n'].m == m';
    }
  }

  // ---------- when answers are the last Set's ----------

  /** The message of the last Set of the key. */
  function LastMessage(c: Config, events: seq<Event>, k: string): Option<Message> {
    if events == [] then None
    else
      var init, e := events[..|events| - 1], events[|events| - 1];
      if Starts(Run(c, EMPTY, init), e, k) then Some(e.msg) else LastMessage(c, init, k)
  }

  /** The message that the step brings in for the key: that of a Set that starts, or what a Redis
      read finds. */
  function Brought(s: Tiers, e: Event, k: string): Option<Message> {
    if Starts(s, e, k) then Some(e.msg)
    else if e.Read? && JobOf(s, e.job) == Reading(k) then Found(s, e)
    else None
  }

  /** Every writer of the key under way carries the message that the step brings in. */
  ghost predicate Agrees(s: Tiers, e: Event, k: string) {
    Brought(s, e, k).Some? ==> forall n :: n in s.jobs && Carries(s.jobs[n], k) ==>
      s.jobs[n].m == Brought(s, e, k).value
  }

  /** No Set of the key starts, and no Redis read finds it, while a Set or a promotion of the key
      with another message is between its first and its last step. */
  ghost predicate Quiet(c: Config, events: seq<Event>, k: string) {
    forall i :: 0 <= i < |events| ==> Agrees(Run(c, EMPTY, events[..i]), events[i], k)
  }

  predicate WritesWork(events: seq<Event>) {
    forall i :: 0 <= i < |events| && events[i].Write? ==> events[i].ok
  }

  /** Memory and all writers under way have the last message; Redis has it or is about to. */
  ghost predicate Settled(s: Tiers, k: string, last: Option<Message>) {
    && (k in s.l1 ==> last == Some(s.l1[k].msg))
    && (forall n :: n in s.jobs && Carries(s.jobs[n], k) ==> last == Some(s.jobs[n].m))
    && (k in s.l2 ==> last == Some(s.l2[k].msg) || exists n :: n in s.jobs && s.jobs[n].Writing? && s.jobs[n].k == k)
  }

  /** What SettledStep says of the last message after the step. */
  function LastAfter(s: Tiers, e: Event, k: string, last: Option<Message>): Option<Message> {
    if Starts(s, e, k) then Some(e.msg) else last
  }

  lemma MemoryStays(c: Config, s: Tiers, e: Event, k: string, last: Option<Message>)
    requires Settled(s, k, last)
    ensures k in Step(c, s, e).l1 ==> LastAfter(s, e, k, last) == Some(Step(c, s, e).l1[k].msg)
  {
  }

  lemma RedisStays(c: Config, s: Tiers, e: Event, k: string, last: Option<Message>)
    requires Settled(s, k, last) && (e.Write? ==> e.ok) && NoEmptyMessages(s)
    ensures var s' := Step(c, s, e);
            k in s'.l2 ==> LastAfter(s, e, k, last) == Some(s'.l2[k].msg)
                           || exists n :: n in s'.jobs && s'.jobs[n].Writing? && s'.jobs[n].k == k
  {
    var s' := Step(c, s, e);
    if Starts(s, e, k) {
      assert e.job in s'.jobs && s'.jobs[e.job].Writing? && s'.jobs[e.job].k == k;
    } else if k in s.l2 && last != Some(s.l2[k].msg) {
      var n :| n in s.jobs && s.jobs[n].Writing? && s.jobs[n].k == k;
      if !(e.Write? && e.job == n) {
        assert n in s'.jobs && s'.jobs[n].Writing? && s'.jobs[n].k == k;
      }
    }
  }

  /** A Redis read that agrees with the writers under way finds the last message. */
  lemma ReadFindsLast(s: Tiers, e: Event, k: string, last: Option<Message>)
    requires Settled(s, k, last) && Agrees(s, e, k) && e.Read? && JobOf(s, e.job) == Reading(k) && Found(s, e).Some?
    ensures Found(s, e) == last
  {
    if last != Some(s.l2[k].msg) {
      var n :| n in s.jobs && s.jobs[n].Writing? && s.jobs[n].k == k;
      assert Carries(s.jobs[n], k);
    }
  }

  lemma WritersStay(c: Config, s: Tiers, e: Event, k: string, last: Option<Message>)
    requires Settled(s, k, last) && Agrees(s, e, k)
    ensures var s' := Step(c, s, e);
            forall n :: n in s'.jobs && Carries(s'.jobs[n], k) ==> LastAfter(s, e, k, last) == Some(s'.jobs[n].m)
  {
    if e.Read? && JobOf(s, e.job) == Reading(k) && Found(s, e).Some? {
      ReadFindsLast(s, e, k, last);
    }
  }

  lemma SettledStep(c: Config, s: Tiers, e: Event, k: string, last: Option<Message>)
    requires Settled(s, k, last) && NoEmptyMessages(s) && Agrees(s, e, k) && (e.Write? ==> e.ok)
    ensures Settled(Step(c, s, e), k, LastAfter(s, e, k, last))
    ensures Answered(s, e, k).Some? ==> Answered(s, e, k) == last
  {
    MemoryStays(c, s, e, k, last);
    RedisStays(c, s, e, k, last);
    WritersStay(c, s, e, k, last);
    if e.Read? && JobOf(s, e.job) == Reading(k) && Found(s, e).Some? {
      ReadFindsLast(s, e, k, last);
    }
  }

  lemma {:induction false} QuietSettles(c: Config, events: seq<Event>, k: string)
    requires Quiet(c, events, k) && WritesWork(events)
    ensures Settled(Run(c, EMPTY, events), k, LastMessage(c, events, k))
  {
    if events != [] {
      var n := |events| - 1;
      var init, e := events[..n], events[n];
      forall i | 0 <= i < n ensures Agrees(Run(c, EMPTY, init[..i]), init[i], k) {
        assert init[..i] == events[..i];
      }
      QuietSettles(c, init, k);
      MessagesNotEmpty(c, init);
      SettledStep(c, Run(c, EMPTY, init), e, k, LastMessage(c, init, k));
    }
  }

  /** With a working Redis, in every quiet interleaving: an answer is the message of the last Set. */
  lemma QuietAnswersLast(c: Config, events: seq<Event>, e: Event, k: string)
    requires Quiet(c, events + [e], k) && WritesWork(events + [e])
    requires Answered(Run(c, EMPTY, events), e, k).Some?
    ensures Answered(Run(c, EMPTY, events), e, k) == LastMessage(c, events, k)
  {
    var all := events + [e];
    forall i | 0 <= i < |events| ensures Agrees(Run(c, EMPTY, events[..i]), events[i], k) {
      assert all[..i] == events[..i] && all[i] == events[i];
    }
    forall i | 0 <= i < |events| && events[i].Write? ensures events[i].ok {
      assert all[i] == events[i];
    }
    QuietSettles(c, events, k);
    assert all[..|events|] == events;
    MessagesNotEmpty(c, events);
    SettledStep(c, Run(c, EMPTY, events), e, k, LastMessage(c, events, k));
  }

  /** No call and no tier holds a message without answers. */
  ghost predicate NoEmptyMessages(s: Tiers) {
    && (forall k :: k in s.l2 ==> s.l2[k].msg.answer != [])
    && forall n :: n in s.jobs && (s.jobs[n].Promoting? || s.jobs[n].Writing?) ==> s.jobs[n].m.answer != []
  }

  lemma NotEmptyStep(c: Config, s: Tiers, e: Event)
    requires NoEmptyMessages(s)
    ensures NoEmptyMessages(Step(c, s, e))
  {
  }

  lemma {:induction false} MessagesNotEmpty(c: Config, events: seq<Event>)
    ensures NoEmptyMessages(Run(c, EMPTY, events))
  {
    if events != [] {
      MessagesNotEmpty(c, events[..|events| - 1]);
      NotEmptyStep(c, Run(c, EMPTY, events[..|events| - 1]), events[|events| - 1]);
    }
  }

  /** And wherever a run stops being quiet, it can go on, without another Set of the key, to answer
      a message that is not the last Set's. */
  lemma UnquietCanAnswerAnother(c: Config, events: seq<Event>, e: Event, k: string, name: string)
      returns (cont: seq<Event>, m: Message)
    requires !Agrees(Run(c, EMPTY, events), e, k)
    requires HasPrefix(k, ToLower(Fqdn(name)) + "|")
    ensures Continues(cont, k, e.now) && EndsAnswering(c, Run(c, EMPTY, events + [e]), cont, k, m)
    ensures LastMessage(c, events + [e], k) != Some(m)
  {
    var s, all := Run(c, EMPTY, events), events + [e];
    RunSnoc(c, EMPTY, events, e);
    MessagesNotEmpty(c, events);
    var s', brought, last := Step(c, s, e), Brought(s, e, k).value, LastMessage(c, all, k);
    assert all[..|events|] == events;
    var n :| n in s.jobs && Carries(s.jobs[n], k) && s.jobs[n].m != brought;
    assert n in s'.jobs && Carries(s'.jobs[n], k) && s'.jobs[n].m == s.jobs[n].m;
    m := if last == Some(s.jobs[n].m) then brought else s.jobs[n].m;
    if last == Some(s.jobs[n].m) {
      assert e.Read? && s'.jobs[e.job] == Promoting(k, brought);
    }
    assert Alive(s', k, m, e.now);
    cont := AliveAnswers(c, s', k, m, e.now, name);
  }

  // ---------- a run that answers an older message ----------

  /** Queries 1 and 2 have both missed. The answer of 1 is stored, its name is invalidated, 3 misses
      in memory and reads it from Redis; */
  function Begun(k: string, name: string, first: Message, t: int): seq<Event> {
    [] + [Set(1, k, first, t)] + [Write(1, t, true)] + [Invalidate(name, t)] + [Look(3, k, t)] + [Read(3, t, true)]
  }

  /** then the answer of 2 is stored, and 3 promotes what it read. */
  function Straddling(k: string, name: string, first: Message, second: Message, t: int): seq<Event> {
    Begun(k, name, first, t) + [Set(2, k, second, t)] + [Write(2, t, true)] + [Promote(3, t)] + [Write(3, t, true)]
  }

  lemma FourSteps(c: Config, s: Tiers, events: seq<Event>, e1: Event, e2: Event, e3: Event, e4: Event)
    ensures Run(c, s, events + [e1] + [e2] + [e3] + [e4]) ==
            Step(c, Step(c, Step(c, Step(c, Run(c, s, events), e1), e2), e3), e4)
  {
    RunSnoc(c, s, events, e1);
    RunSnoc(c, s, events + [e1], e2);
    RunSnoc(c, s, events + [e1] + [e2], e3);
    RunSnoc(c, s, events + [e1] + [e2] + [e3], e4);
  }

  lemma LastSnoc(c: Config, events: seq<Event>, e: Event, k: string)
    ensures LastMessage(c, events + [e], k) == LastAfter(Run(c, EMPTY, events), e, k, LastMessage(c, events, k))
  {
    assert (events + [e])[..|events|] == events;
  }

  /** After the first five steps 3 carries the first message. */
  lemma StraddlingBegins(c: Config, k: string, name: string, first: Message, t: int)
    requires first.answer != [] && HasPrefix(k, ToLower(Fqdn(name)) + "|")
    ensures Run(c, EMPTY, Begun(k, name, first, t)).jobs == map[1 := Over, 3 := Promoting(k, first)]
  {
    var e1, e2, e3, e4 := Set(1, k, first, t), Write(1, t, true), Invalidate(name, t), Look(3, k, t);
    FourSteps(c, EMPTY, [], e1, e2, e3, e4);
    RunSnoc(c, EMPTY, [] + [e1] + [e2] + [e3] + [e4], Read(3, t, true));
    var s := StraddlingSteps(c, k, name, first, t);
  }

  lemma StraddlingSteps(c: Config, k: string, name: string, first: Message, t: int) returns (s: Tiers)
    requires first.answer != [] && HasPrefix(k, ToLower(Fqdn(name)) + "|")
    ensures var s3 := Step(c, Step(c, Step(c, EMPTY, Set(1, k, first, t)), Write(1, t, true)), Invalidate(name, t));
            s == Step(c, Step(c, s3, Look(3, k, t)), Read(3, t, true))
    ensures s.jobs == map[1 := Over, 3 := Promoting(k, first)]
  {
    var s3 := Step(c, Step(c, Step(c, EMPTY, Set(1, k, first, t)), Write(1, t, true)), Invalidate(name, t));
    s := Step(c, Step(c, s3, Look(3, k, t)), Read(3, t, true));
  }

  lemma StraddlingEnds(c: Config, s: Tiers, k: string, first: Message, second: Message, t: int)
    requires first.answer != [] && second.answer != [] && Lifetime(c.limits, first) > 0
    requires s.jobs == map[1 := Over, 3 := Promoting(k, first)]
    ensures var s' := Step(c, Step(c, Step(c, Step(c, s, Set(2, k, second, t)), Write(2, t, true)), Promote(3, t)),
                           Write(3, t, true));
            Answered(s', Look(4, k, t), k) == Some(first)
  {
  }

  /** The cache then answers the first message although the last Set is of the second. */
  lemma PromotionStraddlesSet(c: Config, k: string, name: string, first: Message, second: Message, t: int)
    requires first.answer != [] && second.answer != [] && first != second && Lifetime(c.limits, first) > 0
    requires HasPrefix(k, ToLower(Fqdn(name)) + "|")
    ensures Answered(Run(c, EMPTY, Straddling(k, name, first, second, t)), Look(4, k, t), k) == Some(first)
    ensures LastMessage(c, Straddling(k, name, first, second, t), k) == Some(second)
  {
    var begun := Begun(k, name, first, t);
    StraddlingBegins(c, k, name, first, t);
    FourSteps(c, EMPTY, begun, Set(2, k, second, t), Write(2, t, true), Promote(3, t), Write(3, t, true));
    StraddlingEnds(c, Run(c, EMPTY, begun), k, first, second, t);
    SecondIsLast(c, begun, k, second, t);
  }

  lemma SecondIsLast(c: Config, begun: seq<Event>, k: string, second: Message, t: int)
    requires 2 !in Run(c, EMPTY, begun).jobs && second.answer != []
    ensures var all := begun + [Set(2, k, second, t)] + [Write(2, t, true)] + [Promote(3, t)] + [Write(3, t, true)];
            LastMessage(c, all, k) == Some(second)
  {
    var set2 := begun + [Set(2, k, second, t)];
    LastSnoc(c, begun, Set(2, k, second, t), k);
    LastSnoc(c, set2, Write(2, t, true), k);
    LastSnoc(c, set2 + [Write(2, t, true)], Promote(3, t), k);
    LastSnoc(c, set2 + [Write(2, t, true)] + [Promote(3, t)], Write(3, t, true), k);
  }
}
