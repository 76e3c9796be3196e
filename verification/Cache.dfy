/** The two-tier cache of DNS answers: an in-memory tier with expiry, and Redis behind it. */
module Cache {
  import opened Wrappers
  import opened DomainNames
  import opened DnsMessages

  /** Durations and instants count nanoseconds. */
  const SECOND := 1_000_000_000
  const DEFAULT_TTL := 3600

  // ---------- keys ----------

  /** dns.TypeToString: the text of each query type that has one. */
  type TypeTable = map<nat, string>

  function TypeText(types: TypeTable, qtype: nat): string {
    if qtype in types then types[qtype] else ""
  }

  function KeyOf(name: string, typeText: string): string {
    ToLower(name) + "|" + typeText
  }

  function Key(types: TypeTable, name: string, qtype: nat): string {
    KeyOf(name, TypeText(types, qtype))
  }

  predicate NoBar(s: string) {
    forall i :: 0 <= i < |s| ==> s[i] != '|'
  }

  /** dns.IsFqdn: a final dot that is not escaped. */
  function Backslashes(s: string): nat {
    if s != "" && s[|s| - 1] == '\\' then 1 + Backslashes(s[..|s| - 1]) else 0
  }

  function Fqdn(s: string): string {
    if EndsWithDot(s) && Backslashes(s[..|s| - 1]) % 2 == 0 then s else s + "."
  }

  predicate HasPrefix(s: string, prefix: string) {
    |prefix| <= |s| && s[..|prefix|] == prefix
  }

  // ---------- lifetimes ----------

  datatype Limits = Limits(floor: int, ceil: int)

  function Clamp(l: Limits, ttl: int): int {
    var raised := if ttl < l.floor then l.floor else ttl;
    if raised > l.ceil then l.ceil else raised
  }

  /** The least TTL among the answers, an hour at most. */
  function MinTTL(answer: seq<RR>): (m: nat)
    ensures m <= DEFAULT_TTL && forall rr :: rr in answer ==> m <= rr.ttl
    ensures m == DEFAULT_TTL || exists rr :: rr in answer && rr.ttl == m
  {
    if answer == [] then DEFAULT_TTL
    else
      var rest, last := MinTTL(answer[..|answer| - 1]), answer[|answer| - 1];
      assert answer == answer[..|answer| - 1] + [last];
      if last.ttl < rest then last.ttl else rest
  }

  function Lifetime(l: Limits, m: Message): int {
    Clamp(l, MinTTL(m.answer) * SECOND)
  }

  /** The TTL of one of the records, or an hour. */
  ghost predicate Offers(m: Message, ttl: int) {
    ttl == 3600 * SECOND || exists rr :: rr in m.answer && ttl == rr.ttl * SECOND
  }

  /** A message is kept for the floor when a TTL or the hour is no longer than that, for the ceiling
      when all of them are no shorter than that, and otherwise for the shortest of them; for the
      ceiling, too, when that is below the floor. */
  lemma LifetimeMeaning(l: Limits, m: Message)
    ensures l.floor > l.ceil ==> Lifetime(l, m) == l.ceil
    ensures l.floor <= l.ceil && (exists ttl :: Offers(m, ttl) && ttl <= l.floor) ==> Lifetime(l, m) == l.floor
    ensures l.floor <= l.ceil && (forall ttl :: Offers(m, ttl) ==> l.ceil <= ttl) ==> Lifetime(l, m) == l.ceil
    ensures (forall ttl :: Offers(m, ttl) ==> l.floor < ttl) && (exists ttl :: Offers(m, ttl) && ttl < l.ceil) ==>
              Offers(m, Lifetime(l, m)) && forall ttl :: Offers(m, ttl) ==> Lifetime(l, m) <= ttl
  {
    MinTTLIsLeast(m);
  }

  lemma MinTTLIsLeast(m: Message)
    ensures Offers(m, MinTTL(m.answer) * SECOND)
    ensures forall ttl :: Offers(m, ttl) ==> MinTTL(m.answer) * SECOND <= ttl
  {
  }

  /** No record outlives its TTL, unless that is below the floor. */
  lemma LifetimeWithinTTLs(l: Limits, m: Message, rr: RR)
    requires rr in m.answer && l.floor <= rr.ttl * SECOND
    ensures Lifetime(l, m) <= rr.ttl * SECOND
  {
    assert MinTTL(m.answer) <= rr.ttl;
  }

  // ---------- the cache as a value ----------

  datatype Stored = Stored(msg: Message, expiresAt: int)

  /** A Redis value; without an expiry it stays, which is what a TTL of zero or less asks for. */
  datatype RedisItem = RedisItem(msg: Message, expiresAt: Option<int>)

  datatype CacheState = CacheState(l1: map<string, Stored>, l2: Option<map<string, RedisItem>>, hits: nat, misses: nat)

  /** Whether the Redis calls that an operation may make succeed, and how much later than its first
      step its others come: the Redis read after the memory lookup, the memory write of a promotion
      after that read, and the Redis write after the memory write. */
  datatype RedisIO = RedisIO(readOk: bool, writeOk: bool, readLag: nat, promoteLag: nat, writeLag: nat)

  function L1Lookup(l1: map<string, Stored>, k: string, now: int): Option<Message> {
    if k in l1 && now < l1[k].expiresAt then Some(l1[k].msg) else None
  }

  predicate ItemLive(item: RedisItem, now: int) {
    item.expiresAt.Some? ==> now < item.expiresAt.value
  }

  function L2Lookup(l2: map<string, RedisItem>, k: string, now: int): Option<Message> {
    if k in l2 && ItemLive(l2[k], now) then Some(l2[k].msg) else None
  }

  function RedisEntry(limits: Limits, m: Message, now: int, ttl: int): RedisItem {
    var clamped := Clamp(limits, ttl);
    RedisItem(m, if clamped > 0 then Some(now + clamped) else None)
  }

  /** The value stays for this long from the instant on, or for ever when that is zero or less. */
  predicate StaysFor(item: RedisItem, now: int, life: int) {
    item.expiresAt == if life > 0 then Some(now + life) else None
  }

  /** A TTL between the limits of Redis is kept, a shorter one raised to the floor, and the ceiling is
      the longest life there is. */
  lemma RedisEntryMeaning(l: Limits, m: Message, now: int, ttl: int)
    ensures RedisEntry(l, m, now, ttl).msg == m
    ensures l.floor <= ttl <= l.ceil ==> StaysFor(RedisEntry(l, m, now, ttl), now, ttl)
    ensures ttl <= l.floor <= l.ceil ==> StaysFor(RedisEntry(l, m, now, ttl), now, l.floor)
    ensures l.ceil <= ttl || l.ceil <= l.floor ==> StaysFor(RedisEntry(l, m, now, ttl), now, l.ceil)
  {
  }

  datatype Config = Config(limits: Limits, redisLimits: Limits)

  function WithEntry(s: CacheState, k: string, m: Message, expiresAt: int): CacheState {
    s.(l1 := s.l1[k := Stored(m, expiresAt)])
  }

  function WithRedis(s: CacheState, k: string, item: RedisItem, writeOk: bool): CacheState {
    if s.l2.Some? && writeOk then s.(l2 := Some(s.l2.value[k := item])) else s
  }

  /** A Set whose memory write comes at now: Redis counts the same lifetime from its later write. */
  function SetState(c: Config, s: CacheState, k: string, m: Message, now: int, io: RedisIO): CacheState {
    if m.answer == [] then s
    else
      var ttl := Lifetime(c.limits, m);
      WithRedis(WithEntry(s, k, m, now + ttl), k, RedisEntry(c.redisLimits, m, now + io.writeLag, ttl), io.writeOk)
  }

  /** A Set changes no other key, and in memory no record outlives its TTL unless that is below the
      floor. */
  lemma SetMeaning(c: Config, s: CacheState, k: string, m: Message, now: int, io: RedisIO, rr: RR)
    requires rr in m.answer
    ensures var l1 := SetState(c, s, k, m, now, io).l1;
            && k in l1 && l1[k].msg == m
            && (c.limits.floor <= rr.ttl * SECOND ==> l1[k].expiresAt <= now + rr.ttl * SECOND)
            && l1 - {k} == s.l1 - {k}
  {
    if c.limits.floor <= rr.ttl * SECOND {
      LifetimeWithinTTLs(c.limits, m, rr);
    }
  }

  function GetResult(s: CacheState, k: string, now: int, io: RedisIO): Option<Message> {
    if L1Lookup(s.l1, k, now).Some? then L1Lookup(s.l1, k, now)
    else if s.l2.Some? && io.readOk then L2Lookup(s.l2.value, k, now + io.readLag)
    else None
  }

  /** The cache after the Redis read of a Get that missed in memory, and its promotion. */
  function Promoted(c: Config, s: CacheState, k: string, now: int, io: RedisIO): CacheState {
    match GetResult(s, k, now, io)
    case Some(m) => SetState(c, s, k, m, now + io.readLag + io.promoteLag, io)
    case None => s
  }

  function GetState(c: Config, s: CacheState, k: string, now: int, io: RedisIO): CacheState {
    if L1Lookup(s.l1, k, now).Some? then s.(hits := s.hits + 1)
    else if GetResult(s, k, now, io).Some? then Promoted(c, s, k, now, io).(hits := s.hits + 1)
    else s.(misses := s.misses + 1)
  }

  function WithoutPrefix(l1: map<string, Stored>, prefix: string): map<string, Stored> {
    map k | k in l1 && !HasPrefix(k, prefix) :: l1[k]
  }

  function InvalidateState(s: CacheState, name: string): CacheState {
    s.(l1 := WithoutPrefix(s.l1, ToLower(Fqdn(name)) + "|"))
  }

  function Unexpired(l1: map<string, Stored>, now: int): map<string, Stored> {
    map k | k in l1 && now <= l1[k].expiresAt :: l1[k]
  }

  function EvictState(s: CacheState, now: int): CacheState {
    s.(l1 := Unexpired(s.l1, now))
  }

  // ---------- the objects ----------

  class RedisCache {
    const limits: Limits
    const types: TypeTable
    var data: map<string, RedisItem>

    constructor (limits: Limits, types: TypeTable)
      ensures this.limits == limits && this.types == types && data == map[]
    {
      this.limits := limits;
      this.types := types;
      data := map[];
    }

    /** nil on a failed read, a missing key or an expired one. */
    method Get(name: string, qtype: nat, now: int, readOk: bool) returns (msg: Msg?)
      ensures var found := if readOk then L2Lookup(data, Key(types, name, qtype), now) else None;
              && (msg == null <==> found.None?)
              && (msg != null ==> fresh(msg) && msg.Value() == found.value)
    {
      var k := Key(types, name, qtype);
      if !readOk || k !in data || !ItemLive(data[k], now) {
        return null;
      }
      msg := new Msg(data[k].msg);
    }

    method Set(name: string, qtype: nat, msg: Msg, ttl: int, now: int, writeOk: bool)
      modifies this
      ensures data == if msg.answer == [] || !writeOk then old(data)
                      else old(data)[Key(types, name, qtype) := RedisEntry(limits, msg.Value(), now, ttl)]
    {
      if |msg.answer| == 0 {
        return;
      }
      var clamped := ttl;
      if clamped < limits.floor {
        clamped := limits.floor;
      }
      if clamped > limits.ceil {
        clamped := limits.ceil;
      }
      if !writeOk {
        return;
      }
      var expiresAt := if clamped > 0 then Some(now + clamped) else None;
      data := data[Key(types, name, qtype) := RedisItem(msg.Value(), expiresAt)];
    }
  }

  datatype Entry = Entry(msg: Msg, expiresAt: int)

  /** The loop of Invalidate: deletes while iterating, and counts. */
  method DeletePrefix(entries: map<string, Entry>, prefix: string) returns (kept: map<string, Entry>, removed: nat)
    ensures kept == map k | k in entries && !HasPrefix(k, prefix) :: entries[k]
    ensures removed == |entries.Keys| - |kept.Keys|
  {
    kept, removed := entries, 0;
    var left := entries.Keys;
    while left != {}
      invariant left <= entries.Keys && kept.Keys <= entries.Keys
      invariant forall k :: k in kept ==> kept[k] == entries[k]
      invariant forall k :: k in entries ==> (k in kept <==> k in left || !HasPrefix(k, prefix))
      invariant removed == |entries.Keys| - |kept.Keys|
    {
      var k :| k in left;
      if HasPrefix(k, prefix) {
        ghost var before := kept.Keys;
        kept := kept - {k};
        assert kept.Keys == before - {k};
        removed := removed + 1;
      }
      left := left - {k};
    }
  }

  /** Contents is what the entries hold, and their messages are among those of Repr. */
  ghost predicate Mirrors(entries: map<string, Entry>, contents: map<string, Stored>, repr: set<Msg>)
    reads repr
  {
    && contents.Keys == entries.Keys
    && forall k :: k in entries ==>
         && entries[k].msg in repr
         && contents[k] == Stored(entries[k].msg.Value(), entries[k].expiresAt)
  }

  lemma MirrorsPart(entries: map<string, Entry>, contents: map<string, Stored>, repr: set<Msg>,
                    entries': map<string, Entry>, contents': map<string, Stored>)
    requires Mirrors(entries, contents, repr)
    requires contents'.Keys == entries'.Keys <= entries.Keys
    requires forall k :: k in entries' ==> entries'[k] == entries[k] && contents'[k] == contents[k]
    ensures Mirrors(entries', contents', repr)
  {
  }

  class Cache {
    const limits: Limits
    const types: TypeTable
    const l2: RedisCache?
    var entries: map<string, Entry>
    var hits: nat
    var misses: nat
    ghost var Contents: map<string, Stored>
    ghost var Repr: set<Msg>

    /** Contents is what the map holds, and the message objects in the map are the cache's own. */
    ghost predicate Valid()
      reads this`entries, this`Contents, this`Repr, Repr
    {
      && Mirrors(entries, Contents, Repr)
      && (l2 != null ==> l2.types == types)
    }

    ghost function Settings(): Config {
      Config(limits, if l2 == null then limits else l2.limits)
    }

    ghost function State(): CacheState
      reads this`Contents, this`hits, this`misses, l2
    {
      CacheState(Contents, if l2 == null then None else Some(l2.data), hits, misses)
    }

    constructor (limits: Limits, types: TypeTable, l2: RedisCache?)
      requires l2 != null ==> l2.types == types
      ensures Valid() && Repr == {} && this.limits == limits && this.types == types && this.l2 == l2
      ensures State() == CacheState(map[], if l2 == null then None else Some(l2.data), 0, 0)
    {
      this.limits := limits;
      this.types := types;
      this.l2 := l2;
      entries := map[];
      hits, misses := 0, 0;
      Contents, Repr := map[], {};
    }

    method ExtractTTL(msg: Msg) returns (ttl: int)
      ensures ttl == Lifetime(limits, msg.Value())
    {
      var minTTL: nat := DEFAULT_TTL;
      for i := 0 to |msg.answer|
        invariant minTTL == MinTTL(msg.answer[..i])
      {
        assert msg.answer[..i + 1][..i] == msg.answer[..i];
        if msg.answer[i].ttl < minTTL {
          minTTL := msg.answer[i].ttl;
        }
      }
      assert msg.answer[..|msg.answer|] == msg.answer;
      ttl := minTTL * SECOND;
      if ttl < limits.floor {
        ttl := limits.floor;
      }
      if ttl > limits.ceil {
        ttl := limits.ceil;
      }
    }

    method StoreCopy(k: string, msg: Msg, expiresAt: int)
      requires Valid()
      modifies this`entries, this`Contents, this`Repr
      ensures Valid() && fresh(Repr - old(Repr))
      ensures State() == WithEntry(old(State()), k, msg.Value(), expiresAt)
    {
      var copy := msg.Copy();
      entries := entries[k := Entry(copy, expiresAt)];
      Contents := Contents[k := Stored(msg.Value(), expiresAt)];
      Repr := Repr + {copy};
    }

    /** Stores a copy: the caller's object never becomes part of the cache. */
    method Set(name: string, qtype: nat, msg: Msg, now: int, io: RedisIO)
      requires Valid()
      modifies this`entries, this`Contents, this`Repr, l2
      ensures Valid() && fresh(Repr - old(Repr))
      ensures State() == SetState(Settings(), old(State()), Key(types, name, qtype), msg.Value(), now, io)
    {
      if |msg.answer| == 0 {
        return;
      }
      var ttl := ExtractTTL(msg);
      StoreCopy(Key(types, name, qtype), msg, now + ttl);
      WriteThrough(name, qtype, msg, ttl, now + io.writeLag, io.writeOk);
    }

    /** The Redis part of Set, for a message with answers. */
    method WriteThrough(name: string, qtype: nat, msg: Msg, ttl: int, now: int, writeOk: bool)
      requires Valid() && msg.answer != []
      modifies l2
      ensures Valid()
      ensures State() == WithRedis(old(State()), Key(types, name, qtype),
                                   RedisEntry(Settings().redisLimits, msg.Value(), now, ttl), writeOk)
    {
      if l2 != null {
        l2.Set(name, qtype, msg, ttl, now, writeOk);
      }
    }

    /** The in-memory lookup of Get. */
    method LookupCopy(k: string, now: int) returns (msg: Msg?)
      requires Valid()
      ensures var r := L1Lookup(Contents, k, now);
              && (msg == null <==> r.None?)
              && (msg != null ==> fresh(msg) && msg.Value() == r.value)
    {
      if k in entries && now < entries[k].expiresAt {
        msg := entries[k].msg.Copy();
      } else {
        msg := null;
      }
    }

    /** What a hit returns is fresh: no later change to it reaches the cache. A message found in
        Redis is promoted through Set. */
    method Get(name: string, qtype: nat, now: int, io: RedisIO) returns (msg: Msg?)
      requires Valid()
      modifies this, l2
      ensures Valid() && fresh(Repr - old(Repr))
      ensures var r := GetResult(old(State()), Key(types, name, qtype), now, io);
              && (msg == null <==> r.None?)
              && (msg != null ==> fresh(msg) && msg !in Repr && msg.Value() == r.value)
      ensures State() == GetState(Settings(), old(State()), Key(types, name, qtype), now, io)
    {
      msg := LookupCopy(Key(types, name, qtype), now);
      if msg != null {
        hits := hits + 1;
        return;
      }
      msg := GetFromRedis(name, qtype, now, io);
      if msg != null {
        hits := hits + 1;
      } else {
        misses := misses + 1;
      }
    }

    /** The Redis lookup of Get, with its promotion. */
    method GetFromRedis(name: string, qtype: nat, now: int, io: RedisIO) returns (msg: Msg?)
      requires Valid() && L1Lookup(Contents, Key(types, name, qtype), now).None?
      modifies this`entries, this`Contents, this`Repr, l2
      ensures Valid() && fresh(Repr - old(Repr))
      ensures var r := GetResult(old(State()), Key(types, name, qtype), now, io);
              && (msg == null <==> r.None?)
              && (msg != null ==> fresh(msg) && msg !in Repr && msg.Value() == r.value)
      ensures State() == Promoted(Settings(), old(State()), Key(types, name, qtype), now, io)
    {
      msg := null;
      if l2 != null {
        var found := l2.Get(name, qtype, now + io.readLag, io.readOk);
        if found != null {
          msg := Promote(name, qtype, found, now + io.readLag + io.promoteLag, io);
        }
      }
    }

    /** What Redis found is stored again, and answered as a copy. */
    method Promote(name: string, qtype: nat, found: Msg, now: int, io: RedisIO) returns (msg: Msg)
      requires Valid() && found !in Repr
      modifies this`entries, this`Contents, this`Repr, l2
      ensures Valid() && fresh(Repr - old(Repr))
      ensures fresh(msg) && msg !in Repr && msg.Value() == old(found.Value())
      ensures State() == SetState(Settings(), old(State()), Key(types, name, qtype), found.Value(), now, io)
    {
      Set(name, qtype, found, now, io);
      msg := found.Copy();
    }

    /** Removes the in-memory entries of the name; Redis is left alone. */
    method Invalidate(name: string) returns (removed: nat)
      requires Valid()
      modifies this`entries, this`Contents
      ensures Valid() && State() == InvalidateState(old(State()), name)
      ensures removed == |old(Contents)| - |Contents|
    {
      var prefix := ToLower(Fqdn(name)) + "|";
      entries, removed := DeletePrefix(entries, prefix);
      Contents := WithoutPrefix(Contents, prefix);
      MirrorsPart(old(entries), old(Contents), Repr, entries, Contents);
      assert |old(Contents)| == |old(Contents).Keys| && |Contents| == |Contents.Keys|;
    }

    /** One pass of the eviction loop. */
    method Evict(now: int)
      requires Valid()
      modifies this`entries, this`Contents
      ensures Valid() && State() == EvictState(old(State()), now)
      ensures forall k :: k in entries <==> k in old(entries) && now <= old(entries)[k].expiresAt
      ensures forall k :: k in entries ==> entries[k] == old(entries)[k]
    {
      var left := entries.Keys;
      while left != {}
        invariant Contents == old(Contents) && left <= old(entries).Keys && entries.Keys <= old(entries).Keys
        invariant forall k :: k in entries ==> entries[k] == old(entries)[k]
        invariant forall k :: k in old(entries) ==> (k in entries <==> k in left || now <= old(entries)[k].expiresAt)
      {
        var k :| k in left;
        if now > entries[k].expiresAt {
          entries := entries - {k};
        }
        left := left - {k};
      }
      Contents := Unexpired(Contents, now);
      MirrorsPart(old(entries), old(Contents), Repr, entries, Contents);
    }
  }

  lemma HitAfterSet(c: Config, s: CacheState, k: string, m: Message, now: int, io: RedisIO)
    requires m.answer != [] && Lifetime(c.limits, m) > 0
    ensures GetResult(GetState(c, SetState(c, s, k, m, now, io), k, now, io), k, now, io) == Some(m)
  {
    assert GetResult(SetState(c, s, k, m, now, io), k, now, io) == Some(m);
  }

  method SetThenMutate(c: Cache, name: string, qtype: nat, msg: Msg, request: Msg, now: int, io: RedisIO)
    requires c.Valid() && msg !in c.Repr && msg != request
    modifies c, c.l2, msg
    ensures c.Valid() && fresh(c.Repr - old(c.Repr))
    ensures c.State() == SetState(c.Settings(), old(c.State()), Key(c.types, name, qtype), old(msg.Value()), now, io)
  {
    c.Set(name, qtype, msg, now, io);
    msg.SetReply(request);
  }

  method GetThenMutate(c: Cache, name: string, qtype: nat, request: Msg, now: int, io: RedisIO) returns (got: Msg?)
    requires c.Valid()
    modifies c, c.l2
    ensures c.Valid() && fresh(c.Repr - old(c.Repr)) && (got != null ==> fresh(got))
    ensures c.State() == GetState(c.Settings(), old(c.State()), Key(c.types, name, qtype), now, io)
  {
    got := c.Get(name, qtype, now, io);
    if got != null {
      got.SetReply(request);
    }
  }

  /** Mutating a message passed to Set or returned by Get never changes what the cache returns
      later: here both are overwritten in between. */
  method MutationUnseen(c: Cache, name: string, qtype: nat, msg: Msg, request: Msg, now: int, io: RedisIO)
    returns (first: Msg?, second: Msg?)
    requires c.Valid() && msg !in c.Repr && msg != request && msg.answer != [] && Lifetime(c.limits, msg.Value()) > 0
    modifies c, c.l2, msg
    ensures second != null && first != second
    ensures second.Value() == old(msg.Value())
  {
    HitAfterSet(c.Settings(), c.State(), Key(c.types, name, qtype), msg.Value(), now, io);
    SetThenMutate(c, name, qtype, msg, request, now, io);
    first := GetThenMutate(c, name, qtype, request, now, io);
    second := c.Get(name, qtype, now, io);
  }
}
