/** How old an answer can get when Redis works. Redis counts the lifetime of a message from a later
    instant than memory does, a promotion starts both anew, and a lifetime of zero has no end in
    Redis. Cache calls follow one another here; CacheSteps interleaves them. */
module CacheAge {
  import opened Wrappers
  import opened DnsMessages
  import opened Cache
  import opened CacheRuns

  ghost function After(v: Env, events: seq<Event>): CacheState {
    Run(v, NewCache(Some(map[])), events)
  }

  /** The instants at which a Set, or a Get that promotes, writes memory and then Redis. */
  function MemoryAt(e: Event): int {
    if e.Get? then e.now + e.io.readLag + e.io.promoteLag else e.now
  }

  function RedisAt(e: Event): int {
    if e.Get? || e.Set? then MemoryAt(e) + e.io.writeLag else e.now
  }

  predicate IsGet(v: Env, e: Event, k: string) {
    e.Get? && Key(v.types, e.name, e.qtype) == k
  }

  /** The event is a Get of the key that misses in memory and finds it in Redis. */
  predicate Promotes(v: Env, s: CacheState, e: Event, k: string) {
    && IsGet(v, e, k) && e.io.readOk && L1Lookup(s.l1, k, e.now).None?
    && s.l2.Some? && L2Lookup(s.l2.value, k, e.now + e.io.readLag).Some?
  }

  /** Event r starts a life of the key: it stores a message or promotes the stored one. */
  ghost predicate RenewedAt(v: Env, events: seq<Event>, r: int, k: string) {
    0 <= r < |events| && (Writes(v, events[r], k) || Promotes(v, After(v, events[..r]), events[r], k))
  }

  ghost predicate LatestRenewal(v: Env, events: seq<Event>, r: int, k: string) {
    RenewedAt(v, events, r, k) && forall i :: r < i < |events| ==> !RenewedAt(v, events, i, k)
  }

  lemma RenewedInit(v: Env, events: seq<Event>, r: int, k: string)
    requires events != [] && r < |events| - 1
    ensures RenewedAt(v, events, r, k) <==> RenewedAt(v, events[..|events| - 1], r, k)
  {
    if 0 <= r {
      assert events[..|events| - 1][..r] == events[..r];
    }
  }

  lemma LatestRenewalStep(v: Env, events: seq<Event>, r: int, k: string)
    requires events != []
    ensures var n := |events| - 1;
            LatestRenewal(v, events, r, k) <==>
            if r == n then RenewedAt(v, events, n, k)
            else LatestRenewal(v, events[..n], r, k) && !RenewedAt(v, events, n, k)
  {
    var n := |events| - 1;
    forall i | i < n ensures RenewedAt(v, events, i, k) <==> RenewedAt(v, events[..n], i, k) {
      RenewedInit(v, events, i, k);
    }
  }

  function LifeOf(v: Env, m: Message): int {
    Lifetime(v.config.limits, m)
  }

  /** Both tiers hold the message, with the life that memory counts from t1 and Redis from t2; memory
      may have dropped or evicted it. */
  ghost predicate Lives(v: Env, s: CacheState, k: string, m: Message, t1: int, t2: int) {
    var life := LifeOf(v, m);
    && s.l2.Some? && k in s.l2.value && m.answer != []
    && s.l2.value[k] == RedisItem(m, if life > 0 then Some(t2 + life) else None)
    && (k in s.l1 ==> s.l1[k] == Stored(m, t1 + life))
  }

  /** Redis still has the message at the instant: a life of zero or less does not end there. */
  predicate RedisHas(v: Env, m: Message, t2: int, read: int) {
    LifeOf(v, m) <= 0 || read < t2 + LifeOf(v, m)
  }

  /** A Get that looks in memory at now and reads Redis readLag later answers exactly when memory has
      the entry before its deadline, or the read is before that of Redis; and it promotes exactly
      when only the latter is so. */
  lemma AnsweredWhileAlive(v: Env, s: CacheState, k: string, m: Message, t1: int, t2: int, e: Event)
    requires Lives(v, s, k, m, t1, t2) && IsGet(v, e, k) && e.io.readOk
    ensures var inMemory := k in s.l1 && e.now < t1 + LifeOf(v, m);
            var inRedis := RedisHas(v, m, t2, e.now + e.io.readLag);
            && GetResult(s, k, e.now, e.io) == (if inMemory || inRedis then Some(m) else None)
            && (Promotes(v, s, e, k) <==> !inMemory && inRedis)
  {
  }

  predicate OneLimit(v: Env) {
    v.config.redisLimits == v.config.limits
  }

  lemma LivesWritten(v: Env, s: CacheState, e: Event, k: string)
    requires OneLimit(v) && s.l2.Some? && Writes(v, e, k) && e.io.writeOk
    ensures Lives(v, Step(v, s, e), k, e.msg, MemoryAt(e), RedisAt(e))
  {
    ClampTwice(v.config.limits, MinTTL(e.msg.answer) * SECOND);
  }

  lemma LivesPromoted(v: Env, s: CacheState, e: Event, k: string, m: Message, t1: int, t2: int)
    requires OneLimit(v) && Lives(v, s, k, m, t1, t2) && Promotes(v, s, e, k) && e.io.writeOk
    ensures Lives(v, Step(v, s, e), k, m, MemoryAt(e), RedisAt(e))
  {
    ClampTwice(v.config.limits, MinTTL(m.answer) * SECOND);
  }

  lemma LivesOn(v: Env, s: CacheState, e: Event, k: string, m: Message, t1: int, t2: int)
    requires s.l2.Some? && !Writes(v, e, k) && !Promotes(v, s, e, k)
    ensures Lives(v, s, k, m, t1, t2) ==> Lives(v, Step(v, s, e), k, m, t1, t2)
    ensures Unheld(s, k) ==> Unheld(Step(v, s, e), k)
  {
  }

  lemma LivesStep(v: Env, s: CacheState, e: Event, k: string, m: Message, t1: int, t2: int)
    requires OneLimit(v) && s.l2.Some?
    requires e.Set? || e.Get? ==> e.io.readOk && e.io.writeOk
    ensures Writes(v, e, k) ==> Lives(v, Step(v, s, e), k, e.msg, MemoryAt(e), RedisAt(e))
    ensures Lives(v, s, k, m, t1, t2) && Promotes(v, s, e, k) ==>
              Lives(v, Step(v, s, e), k, m, MemoryAt(e), RedisAt(e))
    ensures Lives(v, s, k, m, t1, t2) && !Writes(v, e, k) && !Promotes(v, s, e, k) ==>
              Lives(v, Step(v, s, e), k, m, t1, t2)
    ensures Unheld(s, k) && !Writes(v, e, k) ==> Unheld(Step(v, s, e), k)
  {
    if Writes(v, e, k) {
      LivesWritten(v, s, e, k);
    } else if Promotes(v, s, e, k) {
      if Lives(v, s, k, m, t1, t2) {
        LivesPromoted(v, s, e, k, m, t1, t2);
      }
    } else {
      LivesOn(v, s, e, k, m, t1, t2);
    }
  }

  ghost predicate Unheld(s: CacheState, k: string) {
    k !in s.l1 && s.l2.Some? && k !in s.l2.value
  }

  /** The message Set last at j is held of the key, living since the renewal at r. */
  ghost predicate HeldAs(v: Env, events: seq<Event>, k: string, j: int, r: int) {
    && LastSet(v, events, j, k) && LatestRenewal(v, events, r, k) && j <= r
    && Lives(v, After(v, events), k, events[j].msg, MemoryAt(events[r]), RedisAt(events[r]))
  }

  predicate SomeWrite(v: Env, events: seq<Event>, k: string) {
    exists i :: 0 <= i < |events| && Writes(v, events[i], k)
  }

  lemma SomeWriteStep(v: Env, events: seq<Event>, k: string)
    requires events != []
    ensures SomeWrite(v, events, k) <==> SomeWrite(v, events[..|events| - 1], k) || Writes(v, events[|events| - 1], k)
  {
    var init := events[..|events| - 1];
    if i :| 0 <= i < |init| && Writes(v, init[i], k) {
      assert Writes(v, events[i], k);
    }
    if i :| 0 <= i < |events| && Writes(v, events[i], k) {
      assert i < |init| ==> Writes(v, init[i], k);
    }
  }

  lemma HeldByWrite(v: Env, events: seq<Event>, k: string)
    requires OneLimit(v) && RedisWorks(events)
    requires events != [] && Writes(v, events[|events| - 1], k) && After(v, events[..|events| - 1]).l2.Some?
    ensures HeldAs(v, events, k, |events| - 1, |events| - 1)
  {
    var n := |events| - 1;
    LivesStep(v, After(v, events[..n]), events[n], k, events[n].msg, 0, 0);
    LastSetStep(v, events, n, k);
    LatestRenewalStep(v, events, n, k);
  }

  lemma HeldOn(v: Env, events: seq<Event>, k: string, j: int, r: int) returns (r': int)
    requires OneLimit(v) && RedisWorks(events)
    requires events != [] && !Writes(v, events[|events| - 1], k) && HeldAs(v, events[..|events| - 1], k, j, r)
    ensures HeldAs(v, events, k, j, r')
  {
    var n := |events| - 1;
    var init, e := events[..n], events[n];
    LivesStep(v, After(v, init), e, k, init[j].msg, MemoryAt(init[r]), RedisAt(init[r]));
    LastSetStep(v, events, j, k);
    r' := if Promotes(v, After(v, init), e, k) then n else r;
    LatestRenewalStep(v, events, r', k);
  }

  /** With a working Redis: what is held of a key is the message last Set, living since the latest
      renewal; and nothing is held before the first Set. */
  lemma {:induction false} HeldSince(v: Env, events: seq<Event>, k: string)
    requires OneLimit(v) && RedisWorks(events)
    ensures After(v, events).l2.Some?
    ensures if SomeWrite(v, events, k) then exists j, r :: HeldAs(v, events, k, j, r) else Unheld(After(v, events), k)
  {
    TiersInclude(v, events);
    if events != [] {
      var n := |events| - 1;
      var init, e := events[..n], events[n];
      HeldSince(v, init, k);
      SomeWriteStep(v, events, k);
      if Writes(v, e, k) {
        HeldByWrite(v, events, k);
      } else if SomeWrite(v, init, k) {
        var j, r :| HeldAs(v, init, k, j, r);
        var r' := HeldOn(v, events, k, j, r);
      } else {
        LivesStep(v, After(v, init), e, k, EMPTY_MESSAGE, 0, 0);
      }
    }
  }

  lemma HeldBy(v: Env, events: seq<Event>, k: string, j: int, r: int)
    requires OneLimit(v) && RedisWorks(events)
    requires LastSet(v, events, j, k) && LatestRenewal(v, events, r, k)
    ensures HeldAs(v, events, k, j, r)
  {
    HeldSince(v, events, k);
    assert SomeWrite(v, events, k);
    var j', r' :| HeldAs(v, events, k, j', r');
    assert j == j' && r == r';
  }

  // ---------- what is in memory ----------

  predicate DroppedSince(events: seq<Event>, r: int, k: string) {
    exists i :: 0 <= i < |events| && r < i && Drops(events[i], k)
  }

  lemma DroppedSinceStep(events: seq<Event>, r: int, k: string)
    requires events != []
    ensures var n := |events| - 1;
            DroppedSince(events, r, k) <==> DroppedSince(events[..n], r, k) || (r < n && Drops(events[n], k))
  {
    var init := events[..|events| - 1];
    if i :| 0 <= i < |init| && r < i && Drops(init[i], k) {
      assert Drops(events[i], k);
    }
    if i :| 0 <= i < |events| && r < i && Drops(events[i], k) {
      assert i < |init| ==> Drops(init[i], k);
    }
  }

  lemma MemoryStep(v: Env, s: CacheState, e: Event, k: string)
    ensures Writes(v, e, k) ==> k in Step(v, s, e).l1
    ensures Promotes(v, s, e, k) && s.l2.value[k].msg.answer != [] ==> k in Step(v, s, e).l1
    ensures !Writes(v, e, k) && !Promotes(v, s, e, k) ==>
              (k in Step(v, s, e).l1 <==> k in s.l1 && !Drops(e, k) && !(e.Evict? && s.l1[k].expiresAt < e.now))
  {
  }

  /** What is in memory was not dropped since its latest renewal; what was not dropped is in memory
      until its deadline. */
  lemma {:induction false} InMemoryIff(v: Env, events: seq<Event>, k: string, j: int, r: int, now: int)
    requires OneLimit(v) && RedisWorks(events) && Before(events, now)
    requires LastSet(v, events, j, k) && LatestRenewal(v, events, r, k)
    ensures k in After(v, events).l1 ==> !DroppedSince(events, r, k)
    ensures !DroppedSince(events, r, k) && now < MemoryAt(events[r]) + LifeOf(v, events[j].msg) ==>
            k in After(v, events).l1
  {
    var n := |events| - 1;
    HeldBy(v, events, k, j, r);
    if r < n {
      LastSetStep(v, events, j, k);
      LatestRenewalStep(v, events, r, k);
      InMemoryIff(v, events[..n], k, j, r, now);
      InMemoryStep(v, events, k, j, r, now);
    } else {
      NoneAfterTheEnd(events, k);
      RenewalStores(v, events, k);
    }
  }

  lemma InMemoryStep(v: Env, events: seq<Event>, k: string, j: int, r: int, now: int)
    requires OneLimit(v) && RedisWorks(events) && Before(events, now) && events != []
    requires var init := events[..|events| - 1];
             && LastSet(v, init, j, k) && LatestRenewal(v, init, r, k)
             && !RenewedAt(v, events, |events| - 1, k)
             && (k in After(v, init).l1 ==> !DroppedSince(init, r, k))
             && (!DroppedSince(init, r, k) && now < MemoryAt(init[r]) + LifeOf(v, init[j].msg) ==>
                   k in After(v, init).l1)
    ensures k in After(v, events).l1 ==> !DroppedSince(events, r, k)
    ensures !DroppedSince(events, r, k) && now < MemoryAt(events[r]) + LifeOf(v, events[j].msg) ==>
              k in After(v, events).l1
  {
    var n := |events| - 1;
    DroppedSinceStep(events, r, k);
    MemoryStep(v, After(v, events[..n]), events[n], k);
    HeldBy(v, events[..n], k, j, r);
  }

  lemma NoneAfterTheEnd(events: seq<Event>, k: string)
    ensures !DroppedSince(events, |events| - 1, k)
  {
  }

  lemma RenewalStores(v: Env, events: seq<Event>, k: string)
    requires OneLimit(v) && RedisWorks(events) && events != [] && RenewedAt(v, events, |events| - 1, k)
    ensures k in After(v, events).l1
  {
    var n := |events| - 1;
    var init := events[..n];
    MemoryStep(v, After(v, init), events[n], k);
    HeldSince(v, init, k);
    if SomeWrite(v, init, k) {
      var j, r :| HeldAs(v, init, k, j, r);
    }
  }

  // ---------- the law ----------

  /** A Get is answered by the life that began at r: from memory, where it was not dropped since and
      is before its deadline, or from Redis, where it is before the later deadline there. */
  predicate Answerable(v: Env, events: seq<Event>, k: string, m: Message, r: int, now: int, readLag: nat)
    requires 0 <= r < |events|
  {
    || (!DroppedSince(events, r, k) && now < MemoryAt(events[r]) + LifeOf(v, m))
    || RedisHas(v, m, RedisAt(events[r]), now + readLag)
  }

  lemma AnsweredBy(v: Env, events: seq<Event>, k: string, j: int, r: int, now: int, io: RedisIO)
    requires OneLimit(v) && RedisWorks(events) && Before(events, now) && io.readOk
    requires LastSet(v, events, j, k) && LatestRenewal(v, events, r, k)
    ensures GetResult(After(v, events), k, now, io) ==
            if Answerable(v, events, k, events[j].msg, r, now, io.readLag) then Some(events[j].msg) else None
  {
    HeldBy(v, events, k, j, r);
    InMemoryIff(v, events, k, j, r, now);
  }

  /** With a working Redis, for every run: a Get is answered exactly by the message last Set, and
      exactly while it is answerable since the latest renewal. */
  lemma ServedSinceRenewal(v: Env, events: seq<Event>, k: string, now: int, io: RedisIO, m: Message)
    requires OneLimit(v) && RedisWorks(events) && Before(events, now) && io.readOk
    ensures GetResult(After(v, events), k, now, io) == Some(m) <==>
            exists j, r :: LastSet(v, events, j, k) && LatestRenewal(v, events, r, k) && events[j].msg == m
                           && Answerable(v, events, k, m, r, now, io.readLag)
  {
    HeldSince(v, events, k);
    if SomeWrite(v, events, k) {
      var j, r :| HeldAs(v, events, k, j, r);
      AnsweredBy(v, events, k, j, r, now, io);
      assert forall j' :: LastSet(v, events, j', k) ==> j' == j;
      assert forall r' :: LatestRenewal(v, events, r', k) ==> r' == r;
    }
  }

  /** A Get promotes exactly when Redis still has the message at its read, but memory, at its lookup,
      does not: because of an invalidation since the latest renewal, or in the gap in which the
      deadline of memory has passed and that of Redis has not. */
  lemma PromotesIff(v: Env, events: seq<Event>, e: Event, k: string, j: int, r: int)
    requires OneLimit(v) && RedisWorks(events) && Before(events, e.now) && IsGet(v, e, k) && e.io.readOk
    requires LastSet(v, events, j, k) && LatestRenewal(v, events, r, k)
    ensures Promotes(v, After(v, events), e, k) <==>
            && (DroppedSince(events, r, k) || MemoryAt(events[r]) + LifeOf(v, events[j].msg) <= e.now)
            && RedisHas(v, events[j].msg, RedisAt(events[r]), e.now + e.io.readLag)
  {
    HeldBy(v, events, k, j, r);
    InMemoryIff(v, events, k, j, r, e.now);
  }

  /** Get i would promote the life that the Set at j began. */
  predicate Renewable(v: Env, events: seq<Event>, j: int, i: int, k: string)
    requires 0 <= j < i < |events| && events[j].Set?
  {
    && IsGet(v, events[i], k)
    && (DroppedSince(events[..i], j, k) || MemoryAt(events[j]) + LifeOf(v, events[j].msg) <= events[i].now)
    && RedisHas(v, events[j].msg, RedisAt(events[j]), events[i].now + events[i].io.readLag)
  }

  lemma RenewableInit(v: Env, events: seq<Event>, j: int, i: int, k: string)
    requires 0 <= j < i < |events| - 1 && events[j].Set?
    ensures Renewable(v, events, j, i, k) <==> Renewable(v, events[..|events| - 1], j, i, k)
  {
    assert events[..|events| - 1][..i] == events[..i];
  }

  predicate NoneRenewable(v: Env, events: seq<Event>, j: int, k: string)
    requires 0 <= j < |events| && events[j].Set?
  {
    forall i :: j < i < |events| ==> !Renewable(v, events, j, i, k)
  }

  lemma NoneRenewableStep(v: Env, events: seq<Event>, j: int, k: string)
    requires 0 <= j < |events| - 1 && events[j].Set?
    ensures NoneRenewable(v, events, j, k) <==>
            NoneRenewable(v, events[..|events| - 1], j, k) && !Renewable(v, events, j, |events| - 1, k)
  {
    var init, n := events[..|events| - 1], |events| - 1;
    if NoneRenewable(v, events, j, k) {
      forall i | j < i < n ensures !Renewable(v, init, j, i, k) {
        RenewableInit(v, events, j, i, k);
      }
    }
    if NoneRenewable(v, init, j, k) && !Renewable(v, events, j, n, k) {
      forall i | j < i < |events| ensures !Renewable(v, events, j, i, k) {
        if i < n {
          RenewableInit(v, events, j, i, k);
          assert !Renewable(v, init, j, i, k);
        }
      }
    }
  }

  /** A Set is still the latest renewal exactly when no Get since came after an invalidation, or in
      the gap between the two deadlines, and found Redis before its deadline. */
  lemma UnrenewedStep(v: Env, events: seq<Event>, k: string, j: int)
    requires OneLimit(v) && RedisWorks(events) && InOrder(events) && LastSet(v, events, j, k) && j < |events| - 1
    requires LatestRenewal(v, events[..|events| - 1], j, k)
    ensures RenewedAt(v, events, |events| - 1, k) <==> Renewable(v, events, j, |events| - 1, k)
  {
    var n := |events| - 1;
    LastSetStep(v, events, j, k);
    if IsGet(v, events[n], k) {
      PromotesIff(v, events[..n], events[n], k, j, j);
    }
  }

  lemma {:induction false} UnrenewedIff(v: Env, events: seq<Event>, k: string, j: int)
    requires OneLimit(v) && RedisWorks(events) && InOrder(events) && LastSet(v, events, j, k)
    ensures LatestRenewal(v, events, j, k) <==> NoneRenewable(v, events, j, k)
  {
    var n := |events| - 1;
    var init := events[..n];
    LatestRenewalStep(v, events, j, k);
    LastSetStep(v, events, j, k);
    if j < n {
      UnrenewedIff(v, init, k, j);
      NoneRenewableStep(v, events, j, k);
      if LatestRenewal(v, init, j, k) {
        UnrenewedStep(v, events, k, j);
      }
    }
  }

  // ---------- the age of an answer ----------

  /** The instant at which a Get that starts at now takes its answer. */
  function AnswerInstant(s: CacheState, k: string, now: int, io: RedisIO): int {
    if L1Lookup(s.l1, k, now).Some? then now else now + io.readLag
  }

  /** From the last event on no answer is taken later than a lifetime after the Redis write of its
      Set. */
  ghost predicate AgeBounded(v: Env, events: seq<Event>, k: string, j: int)
    requires 0 <= j < |events| && events[j].Set?
  {
    forall now, io: RedisIO ::
      (events[|events| - 1].now <= now && io.readOk && GetResult(After(v, events), k, now, io).Some?) ==>
      AnswerInstant(After(v, events), k, now, io) < RedisAt(events[j]) + LifeOf(v, events[j].msg)
  }

  lemma AnswerOutlives(v: Env, events: seq<Event>, k: string, j: int, r: int)
    requires OneLimit(v) && RedisWorks(events) && LastSet(v, events, j, k) && LatestRenewal(v, events, r, k)
    requires var life, last := LifeOf(v, events[j].msg), events[|events| - 1].now;
             life <= 0 || (RedisAt(events[j]) < RedisAt(events[r]) && last < RedisAt(events[r]) + life)
    ensures !AgeBounded(v, events, k, j)
  {
    HeldBy(v, events, k, j, r);
    var bound, last := RedisAt(events[j]) + LifeOf(v, events[j].msg), events[|events| - 1].now;
    var late, io := if last < bound then bound else last, RedisIO(true, true, 0, 0, 0);
    assert GetResult(After(v, events), k, late, io).Some? && AnswerInstant(After(v, events), k, late, io) == late;
  }

  /** The age is so bounded exactly when the lifetime is positive and the key was not renewed at a
      later instant than its Set, or the renewed life is over already. */
  lemma AgeBoundIff(v: Env, events: seq<Event>, k: string, j: int, r: int)
    requires OneLimit(v) && RedisWorks(events) && LastSet(v, events, j, k) && LatestRenewal(v, events, r, k)
    ensures var life, last := LifeOf(v, events[j].msg), events[|events| - 1].now;
            AgeBounded(v, events, k, j) <==>
            life > 0 && (RedisAt(events[r]) <= RedisAt(events[j]) || RedisAt(events[r]) + life <= last)
  {
    HeldBy(v, events, k, j, r);
    var life, last := LifeOf(v, events[j].msg), events[|events| - 1].now;
    if !(life > 0 && (RedisAt(events[r]) <= RedisAt(events[j]) || RedisAt(events[r]) + life <= last)) {
      AnswerOutlives(v, events, k, j, r);
    }
  }

  /** While no Get since its Set could renew it, a message is answered exactly until the deadline of
      memory, if not invalidated, or to a read before that of Redis. */
  lemma ServedWithinLife(v: Env, events: seq<Event>, k: string, j: int, now: int, io: RedisIO)
    requires OneLimit(v) && RedisWorks(events) && InOrder(events) && Before(events, now) && io.readOk
    requires LastSet(v, events, j, k) && NoneRenewable(v, events, j, k) && LifeOf(v, events[j].msg) > 0
    ensures var d1, d2 := MemoryAt(events[j]) + LifeOf(v, events[j].msg), RedisAt(events[j]) + LifeOf(v, events[j].msg);
            GetResult(After(v, events), k, now, io) ==
            if (!DroppedSince(events, j, k) && now < d1) || now + io.readLag < d2 then Some(events[j].msg) else None
    ensures AgeBounded(v, events, k, j)
  {
    UnrenewedIff(v, events, k, j);
    AnsweredBy(v, events, k, j, j, now, io);
    AgeBoundIff(v, events, k, j, j);
  }

  // ---------- no bound otherwise ----------

  /** A message of lifetime zero is served for ever, by Redis. */
  lemma KeptForEver(v: Env, events: seq<Event>, k: string, now: int, io: RedisIO, j: int)
    requires OneLimit(v) && RedisWorks(events) && io.readOk
    requires LastSet(v, events, j, k) && LifeOf(v, events[j].msg) <= 0
    ensures GetResult(After(v, events), k, now, io) == Some(events[j].msg)
  {
    HeldSince(v, events, k);
    assert SomeWrite(v, events, k);
    var j', r :| HeldAs(v, events, k, j', r);
    assert j == j';
  }

  lemma RunSnoc(v: Env, s: CacheState, events: seq<Event>, e: Event)
    ensures Run(v, s, events + [e]) == Step(v, Run(v, s, events), e)
  {
    assert (events + [e])[..|events|] == events;
  }

  /** Each call is over before the next one starts. */
  predicate Sequential(events: seq<Event>) {
    forall i, j :: 0 <= i < j < |events| ==> RedisAt(events[i]) <= events[j].now
  }

  /** Redis writes come one nanosecond after the memory writes. */
  const LAGGING := RedisIO(true, true, 0, 0, 1)

  /** One Set, and a Get at the end of each life that memory counts. */
  function GapGets(v: Env, name: string, qtype: nat, m: Message, t: int, n: nat): seq<Event> {
    if n == 0 then [Set(name, qtype, m, t, LAGGING)]
    else GapGets(v, name, qtype, m, t, n - 1) + [Get(name, qtype, LifeEnd(t, LifeOf(v, m), n), LAGGING)]
  }

  /** The instant n lives after t. */
  function LifeEnd(t: int, life: int, n: nat): int {
    if n == 0 then t else LifeEnd(t, life, n - 1) + life
  }

  lemma {:induction false} LifeEndIs(t: int, life: int, n: nat)
    ensures LifeEnd(t, life, n) == t + n * life
  {
    if n > 0 {
      LifeEndIs(t, life, n - 1);
      NextLife(t, n, life);
    }
  }

  lemma FirstLife(v: Env, name: string, qtype: nat, m: Message, t: int, io: RedisIO)
    requires OneLimit(v) && m.answer != [] && io.readOk && io.writeOk
    ensures Lives(v, After(v, [Set(name, qtype, m, t, io)]), Key(v.types, name, qtype), m, t, t + io.writeLag)
    ensures Key(v.types, name, qtype) in After(v, [Set(name, qtype, m, t, io)]).l1
  {
    var e := Set(name, qtype, m, t, io);
    RunSnoc(v, NewCache(Some(map[])), [], e);
    assert [] + [e] == [e];
    LivesStep(v, After(v, []), e, Key(v.types, name, qtype), m, 0, 0);
  }

  /** The failing input: after one Set, a Get between the two deadlines is answered, although the
      lifetime has passed and nothing was invalidated. */
  lemma AnsweredInGap(v: Env, name: string, qtype: nat, m: Message, t: int, stored: RedisIO, got: RedisIO)
    requires OneLimit(v) && m.answer != [] && LifeOf(v, m) > 0 && stored.readOk && stored.writeOk && got.readOk
    requires got.readLag < stored.writeLag
    ensures GetResult(After(v, [Set(name, qtype, m, t, stored)]), Key(v.types, name, qtype), t + LifeOf(v, m), got) ==
            Some(m)
  {
    FirstLife(v, name, qtype, m, t, stored);
  }

  /** A Get in the gap starts a whole new life in both tiers. */
  lemma GapRenews(v: Env, s: CacheState, name: string, qtype: nat, m: Message, t: int)
    requires OneLimit(v) && LifeOf(v, m) > 0 && Lives(v, s, Key(v.types, name, qtype), m, t, t + 1)
    ensures var at := t + LifeOf(v, m);
            Lives(v, Step(v, s, Get(name, qtype, at, LAGGING)), Key(v.types, name, qtype), m, at, at + 1)
  {
    LivesStep(v, s, Get(name, qtype, t + LifeOf(v, m), LAGGING), Key(v.types, name, qtype), m, t, t + 1);
  }

  lemma NextLife(t: int, n: nat, life: int)
    requires n > 0
    ensures t + (n - 1) * life + life == t + n * life
  {
  }

  /** A Get at the end of the life that memory counts is answered, and its own life follows. */
  lemma NextGap(v: Env, before: seq<Event>, events: seq<Event>, name: string, qtype: nat, m: Message, at: int)
    requires OneLimit(v) && LifeOf(v, m) > 0 && Lives(v, After(v, before), Key(v.types, name, qtype), m, at, at + 1)
    requires events == before + [Get(name, qtype, at + LifeOf(v, m), LAGGING)]
    ensures var next := at + LifeOf(v, m); Lives(v, After(v, events), Key(v.types, name, qtype), m, next, next + 1)
  {
    RunSnoc(v, NewCache(Some(map[])), before, Get(name, qtype, at + LifeOf(v, m), LAGGING));
    GapRenews(v, After(v, before), name, qtype, m, at);
  }

  /** Runs, each of which goes on from the one before with such a Get. */
  predicate GapRuns(v: Env, runs: seq<seq<Event>>, name: string, qtype: nat, m: Message, t: int) {
    forall i :: 0 <= i < |runs| - 1 ==>
      runs[i + 1] == runs[i] + [Get(name, qtype, LifeEnd(t, LifeOf(v, m), i) + LifeOf(v, m), LAGGING)]
  }

  lemma {:induction false} GapRunsLive(v: Env, runs: seq<seq<Event>>, name: string, qtype: nat, m: Message, t: int,
                                       n: nat)
    requires OneLimit(v) && LifeOf(v, m) > 0 && n < |runs| && GapRuns(v, runs, name, qtype, m, t)
    requires Lives(v, After(v, runs[0]), Key(v.types, name, qtype), m, t, t + 1)
    ensures var at := LifeEnd(t, LifeOf(v, m), n);
            Lives(v, After(v, runs[n]), Key(v.types, name, qtype), m, at, at + 1)
  {
    if n > 0 {
      GapRunsLive(v, runs, name, qtype, m, t, n - 1);
      NextGap(v, runs[n - 1], runs[n], name, qtype, m, LifeEnd(t, LifeOf(v, m), n - 1));
    }
  }

  lemma GapRunsOf(v: Env, name: string, qtype: nat, m: Message, t: int, n: nat) returns (runs: seq<seq<Event>>)
    ensures |runs| == n + 1 && GapRuns(v, runs, name, qtype, m, t)
    ensures runs[0] == [Set(name, qtype, m, t, LAGGING)] && runs[n] == GapGets(v, name, qtype, m, t, n)
  {
    runs := seq(n + 1, i requires 0 <= i <= n => GapGets(v, name, qtype, m, t, i));
  }

  lemma FirstRun(v: Env, events: seq<Event>, name: string, qtype: nat, m: Message, t: int)
    requires OneLimit(v) && m.answer != [] && events == [Set(name, qtype, m, t, LAGGING)]
    ensures Lives(v, After(v, events), Key(v.types, name, qtype), m, t, t + 1)
  {
    FirstLife(v, name, qtype, m, t, LAGGING);
  }

  lemma GapsLive(v: Env, name: string, qtype: nat, m: Message, t: int, n: nat) returns (events: seq<Event>)
    requires OneLimit(v) && m.answer != [] && LifeOf(v, m) > 0
    ensures events == GapGets(v, name, qtype, m, t, n)
    ensures var at := LifeEnd(t, LifeOf(v, m), n);
            Lives(v, After(v, events), Key(v.types, name, qtype), m, at, at + 1)
  {
    var runs := GapRunsOf(v, name, qtype, m, t, n);
    FirstRun(v, runs[0], name, qtype, m, t);
    GapRunsLive(v, runs, name, qtype, m, t, n);
    events := runs[n];
  }

  predicate OnlyGetsAfterSet(events: seq<Event>) {
    events != [] && events[0].Set? && forall i :: 1 <= i < |events| ==> events[i].Get?
  }

  lemma {:induction false} GapsInOrder(v: Env, name: string, qtype: nat, m: Message, t: int, n: nat)
    requires LifeOf(v, m) > 0
    ensures var events := GapGets(v, name, qtype, m, t, n);
            && Sequential(events) && OnlyGetsAfterSet(events)
            && forall i :: 0 <= i < |events| ==> RedisAt(events[i]) <= LifeEnd(t, LifeOf(v, m), n) + 1
  {
    if n > 0 {
      GapsInOrder(v, name, qtype, m, t, n - 1);
    }
  }

  /** Without any invalidation or eviction, and with every call over before the next starts: for every
      n there is a run in which an answer is served n + 1 lifetimes after its only Set. */
  lemma ServedForEver(v: Env, name: string, qtype: nat, m: Message, t: int, n: nat)
    requires OneLimit(v) && m.answer != [] && LifeOf(v, m) > 0
    ensures var events := GapGets(v, name, qtype, m, t, n);
            && Sequential(events) && OnlyGetsAfterSet(events)
            && GetResult(After(v, events), Key(v.types, name, qtype), t + n * LifeOf(v, m) + LifeOf(v, m), LAGGING)
               == Some(m)
  {
    var events := GapsLive(v, name, qtype, m, t, n);
    GapsInOrder(v, name, qtype, m, t, n);
    LifeEndIs(t, LifeOf(v, m), n);
  }
}
