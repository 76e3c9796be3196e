/** The cache over whole runs: what a hit proves, and how the two tiers agree. */
module CacheRuns {
  import opened Wrappers
  import opened DomainNames
  import opened DnsMessages
  import opened Cache

  // ---------- keys ----------

  lemma BarInText(a: string, t: string, i: int)
    requires |a| < i <= |a| + |t| && (a + "|" + t)[i] == '|'
    ensures !NoBar(t)
  {
    assert t[i - |a| - 1] == '|';
  }

  /** Keys separate any two different pairs of name and type text, names being the same when they
      differ in case only, as long as the type texts hold no bar; names may. */
  lemma KeySeparates(n: string, t: string, n': string, t': string)
    requires NoBar(t) && NoBar(t')
    ensures KeyOf(n, t) == KeyOf(n', t') <==> SameButCase(n, n') && t == t'
  {
    SameLowerIff(n, n');
    var a, b := ToLower(n), ToLower(n');
    var k, k' := a + "|" + t, b + "|" + t';
    if k == k' {
      if |a| < |b| {
        BarInText(a, t, |b|);
      } else if |b| < |a| {
        BarInText(b, t', |a|);
      }
      assert k[..|a|] == a && k'[..|b|] == b;
      assert k[|a| + 1..] == t && k'[|b| + 1..] == t';
    }
  }

  lemma PrefixIff(n: string, t: string, m: string)
    requires NoBar(t)
    ensures HasPrefix(KeyOf(n, t), m + "|") <==> ToLower(n) == m || HasPrefix(ToLower(n), m + "|")
  {
    var a := ToLower(n);
    var k := a + "|" + t;
    if HasPrefix(k, m + "|") {
      assert k[..|m| + 1] == m + "|";
      assert k[|m|] == (m + "|")[|m|] == '|';
      if |a| < |m| {
        BarInText(a, t, |m|);
      } else if |a| == |m| {
        assert k[..|a|] == a && k[..|m|] == k[..|m| + 1][..|m|] == m;
      } else {
        assert a[..|m| + 1] == k[..|m| + 1];
      }
    }
    if a == m {
      assert k[..|m| + 1] == m + "|";
    }
    if HasPrefix(a, m + "|") {
      assert k[..|m| + 1] == a[..|m| + 1];
    }
  }

  /** The name is another, in any case, continued with a bar. */
  predicate ContinuesWithBar(n: string, m: string) {
    |m| < |n| && SameButCase(n[..|m|], m) && n[|m|] == '|'
  }

  lemma ContinuesIff(n: string, m: string)
    ensures HasPrefix(ToLower(n), ToLower(m) + "|") <==> ContinuesWithBar(n, m)
  {
    var a, b := ToLower(n), ToLower(m) + "|";
    if |m| < |n| {
      assert a[..|m|] == ToLower(n[..|m|]);
      SameLowerIff(n[..|m|], m);
      assert a[..|b|] == a[..|m|] + [a[|m|]];
      assert a[|m|] == '|' <==> n[|m|] == '|';
    }
  }

  /** Which keys Invalidate drops: those of the name itself, in any case, and those of names that
      continue it with a bar. */
  lemma InvalidatedIff(n: string, t: string, name: string)
    requires NoBar(t)
    ensures HasPrefix(KeyOf(n, t), ToLower(Fqdn(name)) + "|") <==>
            SameButCase(n, Fqdn(name)) || ContinuesWithBar(n, Fqdn(name))
  {
    PrefixIff(n, t, ToLower(Fqdn(name)));
    SameLowerIff(n, Fqdn(name));
    ContinuesIff(n, Fqdn(name));
  }

  /** When the names have no bar, Invalidate drops exactly the entries of the fully qualified
      name, in any case and whatever their type, and leaves the others as they are. */
  lemma InvalidateExact(s: CacheState, name: string, n: string, t: string)
    requires NoBar(t) && NoBar(n) && KeyOf(n, t) in s.l1
    ensures KeyOf(n, t) !in InvalidateState(s, name).l1 <==> SameButCase(n, Fqdn(name))
    ensures KeyOf(n, t) in InvalidateState(s, name).l1 ==>
              InvalidateState(s, name).l1[KeyOf(n, t)] == s.l1[KeyOf(n, t)]
  {
    InvalidatedIff(n, t, name);
  }

  function Slashes(k: nat): string {
    seq(k, _ => '\\')
  }

  predicate EndsWithSlash(s: string) {
    s != "" && s[|s| - 1] == '\\'
  }

  lemma {:induction false} SlashesCounted(stem: string, k: nat)
    requires !EndsWithSlash(stem)
    ensures Backslashes(stem + Slashes(k)) == k
  {
    if k == 0 {
      assert stem + Slashes(0) == stem;
    } else {
      SlashesCounted(stem, k - 1);
      var s := stem + Slashes(k);
      assert s[..|s| - 1] == stem + Slashes(k - 1);
    }
  }

  /** The fully qualified form of a name adds a dot exactly when the name has none at its end, or
      one that an odd number of backslashes escapes. */
  lemma FqdnMeaning(stem: string, k: nat)
    requires !EndsWithSlash(stem)
    ensures var n := stem + Slashes(k) + "."; Fqdn(n) == if k % 2 == 0 then n else n + "."
    ensures !EndsWithDot(stem) ==> Fqdn(stem + Slashes(k)) == stem + Slashes(k) + "."
  {
    SlashesCounted(stem, k);
    var n := stem + Slashes(k) + ".";
    assert n[..|n| - 1] == stem + Slashes(k);
  }

  /** Invalidating a name with and without its final dot drops the same keys from every cache
      exactly when the dot would not be escaped. */
  lemma FinalDotIrrelevantIff(stem: string, k: nat)
    requires !EndsWithSlash(stem) && !EndsWithDot(stem)
    ensures (forall s :: InvalidateState(s, stem + Slashes(k)) == InvalidateState(s, stem + Slashes(k) + ".")) <==>
            k % 2 == 0
  {
    FqdnMeaning(stem, k);
    if k % 2 == 1 {
      EscapedDotMatters(stem + Slashes(k));
    }
  }

  lemma EscapedDotMatters(n: string)
    requires Fqdn(n) == n + "." && Fqdn(n + ".") == n + "." + "."
    ensures exists s :: InvalidateState(s, n) != InvalidateState(s, n + ".")
  {
    var m := ToLower(n + ".");
    var s := CacheState(map[m + "|" := Stored(EMPTY_MESSAGE, 0)], None, 0, 0);
    LowerAppend(n + ".", ".");
    assert HasPrefix(m + "|", m + "|");
    assert m + "|" !in InvalidateState(s, n).l1;
    assert |ToLower(n + "." + ".") + "|"| > |m + "|"|;
    assert m + "|" in InvalidateState(s, n + ".").l1;
  }

  // ---------- lifetimes ----------

  /** Clamping twice is clamping once, also when the floor is above the ceiling, so both tiers give
      an entry one lifetime. */
  lemma ClampTwice(l: Limits, ttl: int)
    ensures Clamp(l, Clamp(l, ttl)) == Clamp(l, ttl)
    ensures Clamp(l, ttl) <= l.ceil && (l.floor <= l.ceil ==> l.floor <= Clamp(l, ttl))
    ensures l.floor <= ttl <= l.ceil ==> Clamp(l, ttl) == ttl
  {
  }

  // ---------- runs ----------

  datatype Event =
    | Get(name: string, qtype: nat, now: int, io: RedisIO)
    | Set(name: string, qtype: nat, msg: Message, now: int, io: RedisIO)
    | Invalidate(name: string, now: int)
    | Evict(now: int)
    | Elsewhere(now: int) // a step of the server that does not touch the cache

  datatype Env = Env(config: Config, types: TypeTable)

  function Step(v: Env, s: CacheState, e: Event): CacheState {
    match e
    case Get(name, qtype, now, io) => GetState(v.config, s, Key(v.types, name, qtype), now, io)
    case Set(name, qtype, msg, now, io) => SetState(v.config, s, Key(v.types, name, qtype), msg, now, io)
    case Invalidate(name, _) => InvalidateState(s, name)
    case Evict(now) => EvictState(s, now)
    case Elsewhere(_) => s
  }

  function Run(v: Env, s: CacheState, events: seq<Event>): CacheState {
    if events == [] then s else Step(v, Run(v, s, events[..|events| - 1]), events[|events| - 1])
  }

  function NewCache(l2: Option<map<string, RedisItem>>): CacheState {
    CacheState(map[], l2, 0, 0)
  }

  predicate Before(events: seq<Event>, now: int) {
    forall i :: 0 <= i < |events| ==> events[i].now <= now
  }

  /** The event stores a message under the key. */
  predicate Writes(v: Env, e: Event, k: string) {
    e.Set? && Key(v.types, e.name, e.qtype) == k && e.msg.answer != []
  }

  /** The event invalidates the key. */
  predicate Drops(e: Event, k: string) {
    e.Invalidate? && HasPrefix(k, ToLower(Fqdn(e.name)) + "|")
  }

  // ---------- one tier ----------

  /** Event j stores the message under the key, and no later event stores or invalidates it. */
  predicate LatestWrite(v: Env, events: seq<Event>, j: int, k: string) {
    && 0 <= j < |events| && Writes(v, events[j], k)
    && forall i :: j < i < |events| ==> !Writes(v, events[i], k) && !Drops(events[i], k)
  }

  function Deadline(v: Env, e: Event): int
    requires e.Set?
  {
    e.now + Lifetime(v.config.limits, e.msg)
  }

  lemma LatestWriteStep(v: Env, events: seq<Event>, j: int, k: string)
    requires events != []
    ensures var n := |events| - 1;
            LatestWrite(v, events, j, k) <==>
            if j == n then Writes(v, events[n], k)
            else LatestWrite(v, events[..n], j, k) && !Writes(v, events[n], k) && !Drops(events[n], k)
  {
    var init := events[..|events| - 1];
    assert forall i :: 0 <= i < |init| ==> init[i] == events[i];
  }

  /** The entry of the key is what its latest write stored; a latest write without its entry was
      evicted. */
  ghost predicate LatestIn(v: Env, events: seq<Event>, l1: map<string, Stored>, k: string, now: int) {
    && (k in l1 ==> exists j :: LatestWrite(v, events, j, k) && l1[k] == Stored(events[j].msg, Deadline(v, events[j])))
    && forall j :: LatestWrite(v, events, j, k) && k !in l1 ==> Deadline(v, events[j]) < now
  }

  lemma LatestInStep(v: Env, s: CacheState, events: seq<Event>, k: string, now: int)
    requires events != [] && s.l2 == None && events[|events| - 1].now <= now
    requires LatestIn(v, events[..|events| - 1], s.l1, k, now)
    ensures LatestIn(v, events, Step(v, s, events[|events| - 1]).l1, k, now)
            && Step(v, s, events[|events| - 1]).l2 == None
  {
    var n := |events| - 1;
    var init, e := events[..n], events[n];
    forall j ensures LatestWrite(v, events, j, k) <==>
                     if j == n then Writes(v, e, k)
                     else LatestWrite(v, init, j, k) && !Writes(v, e, k) && !Drops(e, k)
    {
      LatestWriteStep(v, events, j, k);
    }
    var l1 := Step(v, s, e).l1;
    if k in l1 {
      if Writes(v, e, k) {
        assert LatestWrite(v, events, n, k);
      } else {
        var j :| LatestWrite(v, init, j, k) && s.l1[k] == Stored(init[j].msg, Deadline(v, init[j]));
        assert LatestWrite(v, events, j, k);
      }
    }
  }

  lemma {:induction false} EntriesAreLatestWrites(v: Env, events: seq<Event>, k: string, now: int)
    requires Before(events, now)
    ensures Run(v, NewCache(None), events).l2 == None
    ensures LatestIn(v, events, Run(v, NewCache(None), events).l1, k, now)
  {
    if events != [] {
      EntriesAreLatestWrites(v, events[..|events| - 1], k, now);
      LatestInStep(v, Run(v, NewCache(None), events[..|events| - 1]), events, k, now);
    }
  }

  /** In every run without Redis the cache answers a key at a time exactly when its latest write,
      not invalidated since, is younger than the lifetime of its message; and it answers with
      that message. */
  lemma ServedIff(v: Env, events: seq<Event>, k: string, now: int, io: RedisIO, m: Message)
    requires Before(events, now)
    ensures GetResult(Run(v, NewCache(None), events), k, now, io) == Some(m) <==>
            exists j :: LatestWrite(v, events, j, k) && events[j].msg == m && now < Deadline(v, events[j])
  {
    EntriesAreLatestWrites(v, events, k, now);
    var l1 := Run(v, NewCache(None), events).l1;
    if j :| LatestWrite(v, events, j, k) && events[j].msg == m && now < Deadline(v, events[j]) {
      var j' :| LatestWrite(v, events, j', k) && l1[k] == Stored(events[j'].msg, Deadline(v, events[j']));
      assert j == j';
    }
  }

  /** Without Redis, a record is never answered from the cache once its TTL has passed since its
      message was stored, unless the TTL is below the floor. */
  lemma GoneAfterTTL(v: Env, events: seq<Event>, k: string, now: int, io: RedisIO, m: Message, rr: RR)
    requires Before(events, now) && rr in m.answer && v.config.limits.floor <= rr.ttl * SECOND
    requires forall j :: LatestWrite(v, events, j, k) ==> events[j].now + rr.ttl * SECOND <= now
    ensures GetResult(Run(v, NewCache(None), events), k, now, io) != Some(m)
  {
    ServedIff(v, events, k, now, io, m);
    LifetimeWithinTTLs(v.config.limits, m, rr);
  }

  /** All the TTLs of the message, and the hour, lie between the limits. */
  ghost predicate WithinLimits(l: Limits, m: Message) {
    forall ttl :: Offers(m, ttl) ==> l.floor <= ttl <= l.ceil
  }

  /** And when all its TTLs lie between the limits, a message is answered exactly until the first of
      them, or an hour, has passed since it was stored. */
  lemma AnsweredUntilTTL(v: Env, events: seq<Event>, k: string, now: int, io: RedisIO, m: Message)
    requires Before(events, now) && WithinLimits(v.config.limits, m)
    ensures GetResult(Run(v, NewCache(None), events), k, now, io) == Some(m) <==>
            exists j :: LatestWrite(v, events, j, k) && events[j].msg == m
              && forall ttl :: Offers(m, ttl) ==> now < events[j].now + ttl
  {
    ServedIff(v, events, k, now, io, m);
    MinTTLIsLeast(m);
    assert Offers(m, 3600 * SECOND);
    assert Lifetime(v.config.limits, m) == MinTTL(m.answer) * SECOND;
  }

  // ---------- counters ----------

  function Gets(events: seq<Event>): nat {
    if events == [] then 0 else Gets(events[..|events| - 1]) + (if events[|events| - 1].Get? then 1 else 0)
  }

  /** Every Get counts once, as a hit or as a miss, whatever Redis does. */
  lemma {:induction false} HitsPlusMisses(v: Env, s: CacheState, events: seq<Event>)
    ensures var s' := Run(v, s, events);
            s'.hits + s'.misses == s.hits + s.misses + Gets(events)
  {
    if events != [] {
      HitsPlusMisses(v, s, events[..|events| - 1]);
    }
  }

  // ---------- eviction ----------

  /** The two caches answer alike from time t on. */
  ghost predicate SameFrom(s: CacheState, s': CacheState, t: int) {
    && s.l2 == s'.l2 && s.hits == s'.hits && s.misses == s'.misses
    && forall k, now :: t <= now ==> L1Lookup(s.l1, k, now) == L1Lookup(s'.l1, k, now)
  }

  predicate InOrder(events: seq<Event>) {
    forall i, j :: 0 <= i < j < |events| ==> events[i].now <= events[j].now
  }

  function WithoutEvictions(events: seq<Event>): seq<Event> {
    if events == [] then []
    else
      var last := events[|events| - 1];
      WithoutEvictions(events[..|events| - 1]) + (if last.Evict? then [] else [last])
  }

  lemma SameStep(v: Env, s: CacheState, s': CacheState, e: Event)
    requires SameFrom(s, s', e.now)
    ensures !e.Evict? ==> SameFrom(Step(v, s, e), Step(v, s', e), e.now)
    ensures e.Evict? ==> SameFrom(Step(v, s, e), s', e.now)
  {
    var r, r' := Step(v, s, e), if e.Evict? then s' else Step(v, s', e);
    if e.Get? {
      var k := Key(v.types, e.name, e.qtype);
      assert L1Lookup(s.l1, k, e.now) == L1Lookup(s'.l1, k, e.now);
    }
    forall k, now | e.now <= now ensures L1Lookup(r.l1, k, now) == L1Lookup(r'.l1, k, now) {
      assert L1Lookup(s.l1, k, now) == L1Lookup(s'.l1, k, now);
    }
  }

  /** Taking the eviction passes out of a run changes no answer after it, neither counter and
      nothing in Redis. */
  lemma {:induction false} EvictionsUnseen(v: Env, s: CacheState, events: seq<Event>, t: int)
    requires InOrder(events) && Before(events, t)
    ensures SameFrom(Run(v, s, events), Run(v, s, WithoutEvictions(events)), t)
    decreases |events|
  {
    if events != [] {
      var n := |events| - 1;
      var init, e := events[..n], events[n];
      EvictionsUnseen(v, s, init, e.now);
      SameStep(v, Run(v, s, init), Run(v, s, WithoutEvictions(init)), e);
      if !e.Evict? {
        var rest := WithoutEvictions(events);
        assert rest[..|rest| - 1] == WithoutEvictions(init);
      } else {
        assert WithoutEvictions(events) == WithoutEvictions(init);
      }
    }
  }

  lemma EvictionChangesNoAnswer(v: Env, s: CacheState, events: seq<Event>, k: string, now: int, io: RedisIO)
    requires InOrder(events) && Before(events, now)
    ensures GetResult(Run(v, s, events), k, now, io) == GetResult(Run(v, s, WithoutEvictions(events)), k, now, io)
  {
    EvictionsUnseen(v, s, events, now);
  }

  // ---------- two tiers ----------

  /** Event j stores the message under the key and no later event stores another. */
  predicate LastSet(v: Env, events: seq<Event>, j: int, k: string) {
    && 0 <= j < |events| && Writes(v, events[j], k)
    && forall i :: j < i < |events| ==> !Writes(v, events[i], k)
  }

  predicate RedisWorks(events: seq<Event>) {
    forall i :: 0 <= i < |events| && (events[i].Get? || events[i].Set?) ==>
      events[i].io.readOk && events[i].io.writeOk
  }

  predicate RedisFails(events: seq<Event>) {
    forall i :: 0 <= i < |events| && (events[i].Get? || events[i].Set?) ==>
      !events[i].io.readOk && !events[i].io.writeOk
  }

  predicate Outlasts(item: RedisItem, deadline: int) {
    item.expiresAt.Some? ==> deadline <= item.expiresAt.value
  }

  /** Every in-memory entry is in Redis too, with the same message and at least as long a life. */
  ghost predicate Inclusive(s: CacheState) {
    && s.l2.Some?
    && forall k :: k in s.l1 ==>
         k in s.l2.value && s.l2.value[k].msg == s.l1[k].msg && Outlasts(s.l2.value[k], s.l1[k].expiresAt)
  }

  lemma LastSetStep(v: Env, events: seq<Event>, j: int, k: string)
    requires events != []
    ensures var n := |events| - 1;
            LastSet(v, events, j, k) <==>
            if j == n then Writes(v, events[n], k) else LastSet(v, events[..n], j, k) && !Writes(v, events[n], k)
  {
    var init := events[..|events| - 1];
    assert forall i :: 0 <= i < |init| ==> init[i] == events[i];
  }

  /** One step of any kind keeps the inclusion; a key whose Redis value changes without being
      written keeps its message and gets a life counted from now. */
  ghost predicate RedisStep(v: Env, s: CacheState, e: Event, s': CacheState, k: string)
    requires s.l2.Some? && s'.l2.Some?
  {
    if Writes(v, e, k) then
      k in s'.l2.value && s'.l2.value[k].msg == e.msg && Outlasts(s'.l2.value[k], Deadline(v, e))
    else
      && (k in s'.l2.value <==> k in s.l2.value)
      && (k in s.l2.value ==> s'.l2.value[k].msg == s.l2.value[k].msg)
      && (k in s.l2.value && s'.l2.value[k] != s.l2.value[k] ==>
            Outlasts(s'.l2.value[k], e.now + Lifetime(v.config.limits, s.l2.value[k].msg)))
  }

  lemma TiersAgreeStep(v: Env, s: CacheState, e: Event, k: string)
    requires v.config.redisLimits == v.config.limits && Inclusive(s)
    requires e.Set? || e.Get? ==> e.io.readOk && e.io.writeOk
    ensures Inclusive(Step(v, s, e)) && RedisStep(v, s, e, Step(v, s, e), k)
  {
    match e
    case Set(_, _, m, _, _) => ClampTwice(v.config.limits, MinTTL(m.answer) * SECOND);
    case Get(name, qtype, now, io) =>
      var r := GetResult(s, Key(v.types, name, qtype), now, io);
      if r.Some? {
        ClampTwice(v.config.limits, MinTTL(r.value.answer) * SECOND);
      }
    case _ =>
  }

  lemma {:induction false} TiersInclude(v: Env, events: seq<Event>)
    requires v.config.redisLimits == v.config.limits && RedisWorks(events)
    ensures Inclusive(Run(v, NewCache(Some(map[])), events))
  {
    if events != [] {
      TiersInclude(v, events[..|events| - 1]);
      TiersAgreeStep(v, Run(v, NewCache(Some(map[])), events[..|events| - 1]), events[|events| - 1], "");
    }
  }

  /** With a working Redis its value for a key is the last message Set for the key. */
  lemma {:induction false} RedisHoldsLastSet(v: Env, events: seq<Event>, k: string)
    requires v.config.redisLimits == v.config.limits && RedisWorks(events)
    ensures var s := Run(v, NewCache(Some(map[])), events);
            && s.l2.Some?
            && (k in s.l2.value ==> exists j :: LastSet(v, events, j, k) && s.l2.value[k].msg == events[j].msg)
  {
    TiersInclude(v, events);
    if events != [] {
      var n := |events| - 1;
      var init, e := events[..n], events[n];
      RedisHoldsLastSet(v, init, k);
      TiersInclude(v, init);
      var s := Run(v, NewCache(Some(map[])), init);
      TiersAgreeStep(v, s, e, k);
      LastSetStep(v, events, n, k);
      if k in s.l2.value && !Writes(v, e, k) {
        var j :| LastSet(v, init, j, k) && s.l2.value[k].msg == init[j].msg;
        LastSetStep(v, events, j, k);
      }
    }
  }

  /** With a working Redis the last message Set for a key is there for at least its lifetime. */
  lemma {:induction false} RedisKeepsLastSet(v: Env, events: seq<Event>, j: int, k: string)
    requires v.config.redisLimits == v.config.limits && RedisWorks(events) && InOrder(events)
    requires LastSet(v, events, j, k)
    ensures var s := Run(v, NewCache(Some(map[])), events);
            && s.l2.Some? && k in s.l2.value && s.l2.value[k].msg == events[j].msg
            && Outlasts(s.l2.value[k], Deadline(v, events[j]))
  {
    var n := |events| - 1;
    var init, e := events[..n], events[n];
    TiersInclude(v, init);
    TiersInclude(v, events);
    LastSetStep(v, events, j, k);
    TiersAgreeStep(v, Run(v, NewCache(Some(map[])), init), e, k);
    if j < n {
      RedisKeepsLastSet(v, init, j, k);
      assert events[j].now <= e.now;
    }
  }

  /** With a Redis that works and starts empty: an answer is the last message Set for the key, and
      Redis has it too; what Redis has when it is read is answered, whatever the in-memory tier, its
      invalidations and its evictions do; and the last message is answered to every Get that reads
      within its lifetime after the last Set. */
  lemma WorkingRedis(v: Env, events: seq<Event>, k: string, now: int, io: RedisIO)
    requires v.config.redisLimits == v.config.limits && RedisWorks(events) && InOrder(events) && io.readOk
    ensures var s := Run(v, NewCache(Some(map[])), events);
            var r := GetResult(s, k, now, io);
            && s.l2.Some?
            && (r.Some? ==> r == L2Lookup(s.l2.value, k, now))
            && (L2Lookup(s.l2.value, k, now + io.readLag).Some? ==> r == L2Lookup(s.l2.value, k, now + io.readLag))
            && (r.Some? ==> exists j :: LastSet(v, events, j, k) && r.value == events[j].msg)
            && (forall j :: LastSet(v, events, j, k) && now + io.readLag < Deadline(v, events[j]) ==>
                r == Some(events[j].msg))
  {
    TiersInclude(v, events);
    RedisHoldsLastSet(v, events, k);
    forall j | LastSet(v, events, j, k) && now + io.readLag < Deadline(v, events[j])
      ensures GetResult(Run(v, NewCache(Some(map[])), events), k, now, io) == Some(events[j].msg)
    {
      RedisKeepsLastSet(v, events, j, k);
    }
  }

  predicate SetBefore(v: Env, events: seq<Event>, j: int, k: string, m: Message) {
    0 <= j < |events| && Writes(v, events[j], k) && events[j].msg == m
  }

  lemma SetBeforeLater(v: Env, events: seq<Event>, j: int, k: string, m: Message)
    requires events != [] && SetBefore(v, events[..|events| - 1], j, k, m)
    ensures SetBefore(v, events, j, k, m)
  {
  }

  ghost predicate WasSet(v: Env, events: seq<Event>, k: string, m: Message) {
    exists j :: SetBefore(v, events, j, k, m)
  }

  lemma WasSetLater(v: Env, events: seq<Event>, k: string, m: Message)
    requires events != [] && WasSet(v, events[..|events| - 1], k, m)
    ensures WasSet(v, events, k, m)
  {
    var j :| SetBefore(v, events[..|events| - 1], j, k, m);
    SetBeforeLater(v, events, j, k, m);
  }

  /** No Redis, or one that is empty. */
  predicate Fresh(l2: Option<map<string, RedisItem>>) {
    l2.Some? ==> l2.value == map[]
  }

  /** What either tier holds for the key was Set for it. */
  ghost predicate TiersWereSet(v: Env, s: CacheState, events: seq<Event>, k: string) {
    && (k in s.l1 ==> WasSet(v, events, k, s.l1[k].msg))
    && (s.l2.Some? && k in s.l2.value ==> WasSet(v, events, k, s.l2.value[k].msg))
  }

  lemma TiersWereSetLater(v: Env, s: CacheState, events: seq<Event>, k: string)
    requires events != [] && TiersWereSet(v, s, events[..|events| - 1], k)
    ensures TiersWereSet(v, s, events, k)
  {
    forall m | WasSet(v, events[..|events| - 1], k, m) ensures WasSet(v, events, k, m) {
      WasSetLater(v, events, k, m);
    }
  }

  lemma TiersWereSetStep(v: Env, s: CacheState, events: seq<Event>, e: Event, k: string)
    requires TiersWereSet(v, s, events, k) && (Writes(v, e, k) ==> WasSet(v, events, k, e.msg))
    ensures TiersWereSet(v, Step(v, s, e), events, k)
  {
  }

  /** Whatever Redis fails to do, both tiers only ever hold messages that were Set for the key. */
  lemma {:induction false} EntriesWereSet(v: Env, l2: Option<map<string, RedisItem>>, events: seq<Event>, k: string)
    requires Fresh(l2)
    ensures TiersWereSet(v, Run(v, NewCache(l2), events), events, k)
  {
    if events != [] {
      var n := |events| - 1;
      var s := Run(v, NewCache(l2), events[..n]);
      EntriesWereSet(v, l2, events[..n], k);
      TiersWereSetLater(v, s, events, k);
      if Writes(v, events[n], k) {
        assert SetBefore(v, events, n, k, events[n].msg);
      }
      TiersWereSetStep(v, s, events, events[n], k);
    }
  }

  lemma AnyRedis(v: Env, l2: Option<map<string, RedisItem>>, events: seq<Event>, k: string, now: int, io: RedisIO)
    requires Fresh(l2)
    ensures var r := GetResult(Run(v, NewCache(l2), events), k, now, io);
            r.Some? ==> WasSet(v, events, k, r.value)
  {
    EntriesWereSet(v, l2, events, k);
  }

  /** With a Redis that always fails the cache is the in-memory cache alone. */
  lemma {:induction false} DeadRedis(v: Env, events: seq<Event>, l2: map<string, RedisItem>)
    requires RedisFails(events)
    ensures Run(v, NewCache(Some(l2)), events) == Run(v, NewCache(None), events).(l2 := Some(l2))
    ensures Run(v, NewCache(None), events).l2 == None
  {
    if events != [] {
      DeadRedis(v, events[..|events| - 1], l2);
    }
  }
}
