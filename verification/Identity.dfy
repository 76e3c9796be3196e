/** The identity resolver: login sessions with an expiry over a first-match list of CIDR ranges,
    and how the start-up sort makes first match mean longest prefix (section 5.1 of RFC 4632). */
module Identity {
  import opened Wrappers
  import opened Cidr

  const AUTH_NONE := 0
  const AUTH_CAPTIVE_PORTAL := 1

  datatype Identity = Identity(userID: int, username: string, groupID: int, authMode: int)

  datatype IPRange = IPRange(network: Network, groupID: int, authMode: int)

  datatype Session = Session(clientIP: Address, userID: int, username: string, groupID: int, expiresAt: int)

  // ---------- what the resolver computes ----------

  /** The index of the first range that contains the address, -1 for none. */
  function FirstMatch(ranges: seq<IPRange>, a: Address): (i: int)
    ensures -1 <= i < |ranges|
  {
    if ranges == [] then -1
    else
      var i := FirstMatch(ranges[..|ranges| - 1], a);
      if i >= 0 then i else if InBlock(ranges[|ranges| - 1].network.block, a) then |ranges| - 1 else -1
  }

  lemma {:induction false} FirstMatchIsFirst(ranges: seq<IPRange>, a: Address)
    ensures var i := FirstMatch(ranges, a);
            && (i >= 0 ==> InBlock(ranges[i].network.block, a))
            && forall j :: 0 <= j < (if i >= 0 then i else |ranges|) ==> !InBlock(ranges[j].network.block, a)
  {
    if ranges != [] {
      var init := ranges[..|ranges| - 1];
      FirstMatchIsFirst(init, a);
      assert forall j :: 0 <= j < |init| ==> init[j] == ranges[j];
    }
  }

  datatype IdentityState = IdentityState(sessions: map<Address, Session>, ranges: seq<IPRange>, defaultGroupID: int)
  {
    predicate Active(a: Address, now: int) {
      a in sessions && now < sessions[a].expiresAt
    }

    /** Range i contains the address, and none before it does. */
    predicate FirstContains(a: Address, i: int) {
      && 0 <= i < |ranges| && InBlock(ranges[i].network.block, a)
      && forall j :: 0 <= j < i ==> !InBlock(ranges[j].network.block, a)
    }

    predicate NoneContains(a: Address) {
      forall i :: 0 <= i < |ranges| ==> !InBlock(ranges[i].network.block, a)
    }

    /** The identity that the ranges alone give. */
    function RangeIdentity(a: Address): Identity {
      var i := FirstMatch(ranges, a);
      if i >= 0 then Identity(0, "", ranges[i].groupID, ranges[i].authMode)
      else Identity(0, "", defaultGroupID, AUTH_NONE)
    }

    function Resolved(a: Address, now: int): Identity {
      if Active(a, now) then Identity(sessions[a].userID, sessions[a].username, sessions[a].groupID, AUTH_NONE)
      else RangeIdentity(a)
    }
  }

  /** What the first range that contains the address gives, its group and its mode; where none does,
      the default group, free of the portal. */
  ghost predicate FollowsRanges(s: IdentityState, a: Address, id: Identity) {
    && (forall i :: s.FirstContains(a, i) ==> id == Identity(0, "", s.ranges[i].groupID, s.ranges[i].authMode))
    && (s.NoneContains(a) ==> id == Identity(0, "", s.defaultGroupID, 0))
  }

  /** The group is that of the first range that contains the address, or the default one. */
  ghost predicate GroupAt(s: IdentityState, a: Address, group: int) {
    && (forall i :: s.FirstContains(a, i) ==> group == s.ranges[i].groupID)
    && (s.NoneContains(a) ==> group == s.defaultGroupID)
  }

  lemma RangesDecide(s: IdentityState, a: Address)
    ensures FollowsRanges(s, a, s.RangeIdentity(a))
    ensures s.NoneContains(a) || exists i :: s.FirstContains(a, i)
  {
    FirstMatchIsFirst(s.ranges, a);
    assert s.NoneContains(a) || s.FirstContains(a, FirstMatch(s.ranges, a));
  }

  /** An active session decides, whatever the ranges say; without one the ranges do. */
  lemma ResolvedMeaning(s: IdentityState, a: Address, now: int)
    ensures a in s.sessions && now < s.sessions[a].expiresAt ==>
              var session := s.sessions[a];
              s.Resolved(a, now) == Identity(session.userID, session.username, session.groupID, 0)
    ensures a !in s.sessions || s.sessions[a].expiresAt <= now ==> FollowsRanges(s, a, s.Resolved(a, now))
  {
    RangesDecide(s, a);
  }

  class Resolver {
    var sessions: map<Address, Session>
    var ranges: seq<IPRange>
    const defaultGroupID: int

    constructor (defaultGroupID: int)
      ensures State() == IdentityState(map[], [], defaultGroupID)
    {
      this.defaultGroupID := defaultGroupID;
      sessions := map[];
      ranges := [];
    }

    function State(): IdentityState
      reads this
    {
      IdentityState(sessions, ranges, defaultGroupID)
    }

    method Resolve(clientIP: Address, now: int) returns (id: Identity)
      ensures id == State().Resolved(clientIP, now)
      ensures clientIP in sessions && now < sessions[clientIP].expiresAt ==>
                var session := sessions[clientIP];
                id == Identity(session.userID, session.username, session.groupID, 0)
      ensures clientIP !in sessions || sessions[clientIP].expiresAt <= now ==> FollowsRanges(State(), clientIP, id)
    {
      ResolvedMeaning(State(), clientIP, now);
      if clientIP in sessions {
        var session := sessions[clientIP];
        if now < session.expiresAt {
          return Identity(session.userID, session.username, session.groupID, AUTH_NONE);
        }
      }
      for i := 0 to |ranges|
        invariant FirstMatch(ranges[..i], clientIP) == -1
      {
        assert ranges[..i + 1][..i] == ranges[..i];
        if InBlock(ranges[i].network.block, clientIP) {
          FirstMatchIs(ranges, clientIP, i);
          return Identity(0, "", ranges[i].groupID, ranges[i].authMode);
        }
      }
      assert ranges[..|ranges|] == ranges;
      return Identity(0, "", defaultGroupID, AUTH_NONE);
    }

    /** The group of the first matching range; the default group, not 0, when none matches. */
    method GetRangeGroupID(ip: Address) returns (group: int)
      ensures group == State().RangeIdentity(ip).groupID
      ensures GroupAt(State(), ip, group)
    {
      RangesDecide(State(), ip);
      for i := 0 to |ranges|
        invariant FirstMatch(ranges[..i], ip) == -1
      {
        assert ranges[..i + 1][..i] == ranges[..i];
        if InBlock(ranges[i].network.block, ip) {
          FirstMatchIs(ranges, ip, i);
          return ranges[i].groupID;
        }
      }
      assert ranges[..|ranges|] == ranges;
      return defaultGroupID;
    }

    method AddSession(session: Session)
      modifies this`sessions
      ensures sessions == old(sessions)[session.clientIP := session]
    {
      sessions := sessions[session.clientIP := session];
    }

    method RemoveSession(clientIP: Address)
      modifies this`sessions
      ensures sessions == old(sessions) - {clientIP}
    {
      sessions := sessions - {clientIP};
    }

    method AddRange(ipRange: IPRange)
      modifies this`ranges
      ensures ranges == old(ranges) + [ipRange]
    {
      ranges := ranges + [ipRange];
    }

    method EvictExpiredSessions(now: int) returns (removed: nat)
      modifies this`sessions
      ensures sessions == Unexpired(old(sessions), now)
      ensures forall a :: a in sessions <==> a in old(sessions) && now <= old(sessions)[a].expiresAt
      ensures forall a :: a in sessions ==> sessions[a] == old(sessions)[a]
      ensures removed == |old(sessions)| - |sessions|
    {
      removed := 0;
      var left := sessions.Keys;
      while left != {}
        invariant left <= old(sessions).Keys && sessions.Keys <= old(sessions).Keys
        invariant forall a :: a in sessions ==> sessions[a] == old(sessions)[a]
        invariant forall a :: a in old(sessions) ==> (a in sessions <==> a in left || old(sessions)[a].expiresAt >= now)
        invariant removed == |old(sessions)| - |sessions|
      {
        var ip :| ip in left;
        if now > sessions[ip].expiresAt {
          ghost var before := sessions;
          sessions := sessions - {ip};
          assert before.Keys == sessions.Keys + {ip};
          removed := removed + 1;
        }
        left := left - {ip};
      }
    }
  }

  lemma FirstMatchIs(ranges: seq<IPRange>, a: Address, i: nat)
    requires i < |ranges| && FirstMatch(ranges[..i], a) == -1 && InBlock(ranges[i].network.block, a)
    ensures FirstMatch(ranges, a) == i
  {
    FirstMatchIsFirst(ranges[..i], a);
    FirstMatchIsFirst(ranges, a);
    var k := FirstMatch(ranges, a);
    assert forall j :: 0 <= j < i ==> ranges[..i][j] == ranges[j];
  }

  function Unexpired(sessions: map<Address, Session>, now: int): map<Address, Session> {
    map a | a in sessions && sessions[a].expiresAt >= now :: sessions[a]
  }

  /** Evicting expired sessions changes no later answer. */
  lemma EvictionUnseen(s: IdentityState, evictedAt: int, a: Address, now: int)
    requires evictedAt <= now
    ensures s.(sessions := Unexpired(s.sessions, evictedAt)).Resolved(a, now) == s.Resolved(a, now)
  {
  }

  // ---------- longest prefix ----------

  /** Range i contains the address, and no range that does has a longer prefix. */
  predicate LongestMatch(ranges: seq<IPRange>, a: Address, i: int) {
    && 0 <= i < |ranges| && InBlock(ranges[i].network.block, a)
    && forall j :: 0 <= j < |ranges| && InBlock(ranges[j].network.block, a) ==>
         ranges[j].network.block.ones <= ranges[i].network.block.ones
  }

  /** First match over the list is longest-prefix match, for every address. */
  ghost predicate MatchesLongest(ranges: seq<IPRange>) {
    forall a :: FirstMatch(ranges, a) >= 0 ==> LongestMatch(ranges, a, FirstMatch(ranges, a))
  }

  /** Range i contains the address, and no range that does has a larger mask. */
  predicate TopMatch(ranges: seq<IPRange>, a: Address, i: int) {
    && 0 <= i < |ranges| && InBlock(ranges[i].network.block, a)
    && forall j :: 0 <= j < |ranges| && InBlock(ranges[j].network.block, a) ==>
         ranges[j].network.MaskSize() <= ranges[i].network.MaskSize()
  }

  predicate SortedByMask(ranges: seq<IPRange>) {
    forall i, j :: 0 <= i < j < |ranges| ==> ranges[i].network.MaskSize() >= ranges[j].network.MaskSize()
  }

  lemma SortedMatchesTop(ranges: seq<IPRange>, a: Address)
    requires SortedByMask(ranges) && FirstMatch(ranges, a) >= 0
    ensures TopMatch(ranges, a, FirstMatch(ranges, a))
  {
    FirstMatchIsFirst(ranges, a);
  }

  /** Some mapped range contains the address, but r, which is not mapped, contains it too and has a
      longer prefix than all the mapped ones that do. */
  ghost predicate Outranks(ranges: seq<IPRange>, r: IPRange, a: Address) {
    && r in ranges && !r.network.mapped && InBlock(r.network.block, a)
    && (exists q :: MappedMatch(ranges, q, a))
    && forall q :: MappedMatch(ranges, q, a) ==> q.network.block.ones < r.network.block.ones
  }

  ghost predicate SomeOutranks(ranges: seq<IPRange>) {
    exists r, a :: Outranks(ranges, r, a)
  }

  predicate MappedMatch(ranges: seq<IPRange>, q: IPRange, a: Address) {
    q in ranges && q.network.mapped && InBlock(q.network.block, a)
  }

  lemma OutrankedNotLongest(ranges: seq<IPRange>, r: IPRange, a: Address)
    requires SortedByMask(ranges) && Outranks(ranges, r, a)
    ensures FirstMatch(ranges, a) >= 0 && !LongestMatch(ranges, a, FirstMatch(ranges, a))
  {
    var q :| MappedMatch(ranges, q, a);
    var i :| 0 <= i < |ranges| && ranges[i] == q;
    var j :| 0 <= j < |ranges| && ranges[j] == r;
    FirstMatchIsFirst(ranges, a);
    var f := FirstMatch(ranges, a);
    SortedMatchesTop(ranges, a);
    assert ranges[f].network.MaskSize() >= ranges[i].network.MaskSize() >= 96;
    assert MappedMatch(ranges, ranges[f], a);
  }

  lemma NotLongestOutranked(ranges: seq<IPRange>, a: Address) returns (r: IPRange)
    requires SortedByMask(ranges) && FirstMatch(ranges, a) >= 0 && !LongestMatch(ranges, a, FirstMatch(ranges, a))
    ensures Outranks(ranges, r, a)
  {
    FirstMatchIsFirst(ranges, a);
    SortedMatchesTop(ranges, a);
    var f := FirstMatch(ranges, a);
    var j :| 0 <= j < |ranges| && InBlock(ranges[j].network.block, a)
      && ranges[j].network.block.ones > ranges[f].network.block.ones;
    r := ranges[j];
    assert MappedMatch(ranges, ranges[f], a);
    forall q | MappedMatch(ranges, q, a) ensures q.network.block.ones < r.network.block.ones {
      var i :| 0 <= i < |ranges| && ranges[i] == q;
    }
  }

  /** On ranges sorted by mask, first match is longest-prefix match for every address exactly when
      no address lies in a mapped range and in a longer one that outranks all its mapped ones. */
  lemma SortedMatchesLongestIff(ranges: seq<IPRange>)
    requires SortedByMask(ranges)
    ensures MatchesLongest(ranges) <==> !SomeOutranks(ranges)
  {
    if r, a :| Outranks(ranges, r, a) {
      OutrankedNotLongest(ranges, r, a);
    }
    if a :| FirstMatch(ranges, a) >= 0 && !LongestMatch(ranges, a, FirstMatch(ranges, a)) {
      var r := NotLongestOutranked(ranges, a);
    }
  }

  /** So it is when no mapped range is met by a strictly longer one that is not mapped. */
  lemma NoLongerMeetsMapped(ranges: seq<IPRange>)
    requires SortedByMask(ranges)
    requires forall q, r, a ::
               (MappedMatch(ranges, q, a) && r in ranges && !r.network.mapped && InBlock(r.network.block, a)) ==>
               r.network.block.ones <= q.network.block.ones
    ensures MatchesLongest(ranges)
  {
    SortedMatchesLongestIff(ranges);
  }

  /** And it is not when one is, all the mapped ranges that it meets being larger. */
  lemma LongerMeetsMapped(ranges: seq<IPRange>, q: IPRange, r: IPRange)
    requires SortedByMask(ranges) && q in ranges && r in ranges && q.network.mapped && !r.network.mapped
    requires StrictlyInside(r.network.block, q.network.block)
    requires forall q', a :: MappedMatch(ranges, q', a) && InBlock(r.network.block, a) ==>
               q'.network.block.ones < r.network.block.ones
    ensures !MatchesLongest(ranges)
  {
    FirstAddress(r.network.block);
    var a := Ip(r.network.block.family, r.network.block.network);
    assert MappedMatch(ranges, q, a);
    assert Outranks(ranges, r, a);
    SortedMatchesLongestIff(ranges);
  }

  lemma Powers()
    ensures Pow2(16) == 0x1_0000 && Pow2(24) == 0x100_0000
  {
    assert Pow2(8) == 256;
    Pow2Sum(8, 8);
    Pow2Sum(16, 8);
  }

  /** The example as it is written: ::ffff:10.0.0.0/104 and 10.1.0.0/16. */
  lemma ExampleParses()
    ensures MAPPED + 0x0A00_0000 < Pow2(128) && 0x0A01_0000 < Pow2(32)
    ensures var q := ParseNetwork(V6, MAPPED + 0x0A00_0000, 104);
            q.mapped && q.block.network == 0x0A00_0000 && q.block.ones == 8 && q.MaskSize() == 104
    ensures var r := ParseNetwork(V4, 0x0A01_0000, 16);
            && !r.mapped && r.block.family.V4? && r.block.network == 0x0A01_0000 && r.block.ones == 16
            && r.MaskSize() == 16
  {
    Powers();
    Pow2Sum(16, 16);
    Pow2Sum(32, 96);
    Pow2Sum(32, 64);
    Pow2Sum(32, 32);
  }

  lemma InExample(b: CIDR, network: nat, ones: nat)
    requires b.family.V4? && b.network == network && b.ones == ones
    requires (network == 0x0A00_0000 && ones == 8) || (network == 0x0A01_0000 && ones == 16)
    ensures InBlock(b, Ip(V4, 0x0A01_0203))
  {
    Powers();
    BlockIsInterval(b, Ip(V4, 0x0A01_0203));
  }

  /** For instance ::ffff:10.0.0.0/104 sorts ahead of 10.1.0.0/16, and takes 10.1.2.3 from it. */
  lemma MappedFirst(q: IPRange, r: IPRange)
    requires q.network.mapped && q.network.block.network == 0x0A00_0000 && q.network.block.ones == 8
    requires !r.network.mapped && r.network.block.family.V4?
    requires r.network.block.network == 0x0A01_0000 && r.network.block.ones == 16
    ensures SortedByMask([q, r]) && !SortedByMask([r, q])
    ensures var a := Ip(V4, 0x0A01_0203);
            FirstMatch([q, r], a) == 0 && LongestMatch([q, r], a, 1) && !LongestMatch([q, r], a, 0)
  {
    var a := Ip(V4, 0x0A01_0203);
    InExample(q.network.block, 0x0A00_0000, 8);
    InExample(r.network.block, 0x0A01_0000, 16);
    FirstMatchIsFirst([q, r], a);
    assert [q, r][..1] == [q] && [q][..0] == [];
    assert [r, q][0] == r && [r, q][1] == q;
  }

  // ---------- the start-up load ----------

  /** A row of ip_ranges; its CIDR text may fail to parse. */
  datatype RangeRow = RangeRow(cidr: Option<Network>, groupID: int, authMode: int)

  /** The comparison given to sort.Slice. */
  predicate Less(x: RangeRow, y: RangeRow) {
    x.cidr.Some? && y.cidr.Some? && x.cidr.value.MaskSize() > y.cidr.value.MaskSize()
  }

  /** What sort.Slice may return: a permutation with no neighbours out of order. It is unstable,
      so rows of equal prefix come in any order. */
  ghost predicate SortOutput(rows: seq<RangeRow>, sorted: seq<RangeRow>) {
    && multiset(sorted) == multiset(rows)
    && forall i :: 0 < i < |sorted| ==> !Less(sorted[i], sorted[i - 1])
  }

  predicate AllParse(rows: seq<RangeRow>) {
    forall i :: 0 <= i < |rows| ==> rows[i].cidr.Some?
  }

  function Parsed(rows: seq<RangeRow>): seq<IPRange> {
    if rows == [] then []
    else
      var last := rows[|rows| - 1];
      Parsed(rows[..|rows| - 1])
      + (if last.cidr.Some? then [IPRange(last.cidr.value, last.groupID, last.authMode)] else [])
  }

  method LoadSortedRanges(resolver: Resolver, sorted: seq<RangeRow>)
    modifies resolver`ranges
    ensures resolver.ranges == old(resolver.ranges) + Parsed(sorted)
  {
    for i := 0 to |sorted|
      invariant resolver.ranges == old(resolver.ranges) + Parsed(sorted[..i])
    {
      assert sorted[..i + 1][..i] == sorted[..i];
      if sorted[i].cidr.None? {
        continue;
      }
      resolver.AddRange(IPRange(sorted[i].cidr.value, sorted[i].groupID, sorted[i].authMode));
    }
    assert sorted[..|sorted|] == sorted;
  }

  lemma {:induction false} ParsedRows(rows: seq<RangeRow>)
    requires AllParse(rows)
    ensures |Parsed(rows)| == |rows|
    ensures forall i :: 0 <= i < |rows| ==>
            Parsed(rows)[i] == IPRange(rows[i].cidr.value, rows[i].groupID, rows[i].authMode)
  {
    if rows != [] {
      ParsedRows(rows[..|rows| - 1]);
    }
  }

  lemma {:induction false} NeighboursSorted(sorted: seq<RangeRow>, i: nat, j: nat)
    requires AllParse(sorted) && i <= j < |sorted|
    requires forall k :: 0 < k < |sorted| ==> !Less(sorted[k], sorted[k - 1])
    ensures sorted[i].cidr.value.MaskSize() >= sorted[j].cidr.value.MaskSize()
    decreases j
  {
    if i < j {
      NeighboursSorted(sorted, i, j - 1);
    }
  }

  lemma {:induction false} ParsedIn(rows: seq<RangeRow>, r: IPRange)
    ensures r in Parsed(rows) <==>
            exists row :: row in rows && row.cidr.Some? && r == IPRange(row.cidr.value, row.groupID, row.authMode)
  {
    if rows != [] {
      var init, last := rows[..|rows| - 1], rows[|rows| - 1];
      ParsedIn(init, r);
      assert rows == init + [last];
    }
  }

  lemma SameRows(rows: seq<RangeRow>, sorted: seq<RangeRow>, row: RangeRow)
    requires multiset(sorted) == multiset(rows)
    ensures row in rows <==> row in sorted
  {
    assert row in rows <==> row in multiset(rows);
    assert row in sorted <==> row in multiset(sorted);
  }

  lemma SortedRows(rows: seq<RangeRow>, sorted: seq<RangeRow>)
    requires AllParse(rows) && SortOutput(rows, sorted)
    ensures SortedByMask(Parsed(sorted)) && forall r :: r in Parsed(sorted) <==> r in Parsed(rows)
  {
    forall i | 0 <= i < |sorted| ensures sorted[i].cidr.Some? {
      SameRows(rows, sorted, sorted[i]);
    }
    ParsedRows(sorted);
    forall i, j | 0 <= i < j < |sorted|
      ensures Parsed(sorted)[i].network.MaskSize() >= Parsed(sorted)[j].network.MaskSize()
    {
      NeighboursSorted(sorted, i, j);
    }
    forall r ensures r in Parsed(sorted) <==> r in Parsed(rows) {
      ParsedIn(rows, r);
      ParsedIn(sorted, r);
      forall row ensures row in rows <==> row in sorted {
        SameRows(rows, sorted, row);
      }
    }
  }

  lemma OutranksSame(ranges: seq<IPRange>, ranges': seq<IPRange>, r: IPRange, a: Address)
    requires forall q :: q in ranges <==> q in ranges'
    ensures Outranks(ranges, r, a) <==> Outranks(ranges', r, a)
  {
    assert forall q :: MappedMatch(ranges, q, a) <==> MappedMatch(ranges', q, a);
  }

  lemma SomeOutranksSame(ranges: seq<IPRange>, ranges': seq<IPRange>)
    requires SomeOutranks(ranges) && forall q :: q in ranges <==> q in ranges'
    ensures SomeOutranks(ranges')
  {
    var r, a :| Outranks(ranges, r, a);
    OutranksSame(ranges, ranges', r, a);
  }

  /** Whatever the sort returns, the ranges loaded from it match the longest prefix exactly when, of
      the rows, none outranks all the mapped ones that contain some address of it. The rows all
      parse, because the column has the type cidr. */
  lemma StartupMatchesLongestIff(rows: seq<RangeRow>, sorted: seq<RangeRow>)
    requires AllParse(rows) && SortOutput(rows, sorted)
    ensures MatchesLongest(Parsed(sorted)) <==> !SomeOutranks(Parsed(rows))
  {
    SortedRows(rows, sorted);
    SortedMatchesLongestIff(Parsed(sorted));
    if SomeOutranks(Parsed(sorted)) {
      SomeOutranksSame(Parsed(sorted), Parsed(rows));
    }
    if SomeOutranks(Parsed(rows)) {
      SomeOutranksSame(Parsed(rows), Parsed(sorted));
    }
  }

  /** In particular they do when no row is in mapped form. */
  lemma StartupMatchesLongest(rows: seq<RangeRow>, sorted: seq<RangeRow>)
    requires AllParse(rows) && SortOutput(rows, sorted)
    requires forall i :: 0 <= i < |rows| ==> !rows[i].cidr.value.mapped
    ensures MatchesLongest(Parsed(sorted))
  {
    forall r | r in Parsed(rows) ensures !r.network.mapped {
      ParsedIn(rows, r);
    }
    StartupMatchesLongestIff(rows, sorted);
  }

  // ---------- the order of equal masks ----------

  /** What a resolver reads off the first match. */
  function MatchResult(ranges: seq<IPRange>, a: Address): Option<(int, int)> {
    var i := FirstMatch(ranges, a);
    if i >= 0 then Some((ranges[i].groupID, ranges[i].authMode)) else None
  }

  ghost predicate SortedFrom(ranges: seq<IPRange>, sorted: seq<IPRange>) {
    multiset(sorted) == multiset(ranges) && SortedByMask(sorted)
  }

  /** All the matches of the address with the largest mask carry the same group and mode. */
  ghost predicate TopAgree(ranges: seq<IPRange>, a: Address) {
    forall i, j :: TopMatch(ranges, a, i) && TopMatch(ranges, a, j) ==>
      ranges[i].groupID == ranges[j].groupID && ranges[i].authMode == ranges[j].authMode
  }

  lemma IndexIn(s: seq<IPRange>, t: seq<IPRange>, i: nat) returns (j: nat)
    requires multiset(s) == multiset(t) && i < |s|
    ensures j < |t| && t[j] == s[i]
  {
    assert s[i] in multiset(s);
    assert s[i] in multiset(t);
    j :| 0 <= j < |t| && t[j] == s[i];
  }

  lemma TopCarries(s: seq<IPRange>, t: seq<IPRange>, a: Address, i: nat) returns (j: nat)
    requires multiset(s) == multiset(t) && TopMatch(s, a, i)
    ensures TopMatch(t, a, j) && t[j] == s[i]
  {
    j := IndexIn(s, t, i);
    forall k | 0 <= k < |t| && InBlock(t[k].network.block, a)
      ensures t[k].network.MaskSize() <= t[j].network.MaskSize()
    {
      var k' := IndexIn(t, s, k);
    }
  }

  lemma InsertSorted(sorted: seq<IPRange>, r: IPRange, i: nat)
    requires SortedByMask(sorted) && i <= |sorted|
    requires forall k :: 0 <= k < i ==> sorted[k].network.MaskSize() >= r.network.MaskSize()
    requires i < |sorted| ==> sorted[i].network.MaskSize() < r.network.MaskSize()
    ensures SortedByMask(sorted[..i] + [r] + sorted[i..])
  {
  }

  lemma InsertCounts(sorted: seq<IPRange>, r: IPRange, i: nat)
    requires i <= |sorted|
    ensures multiset(sorted[..i] + [r] + sorted[i..]) == multiset(sorted) + multiset{r}
  {
    assert sorted == sorted[..i] + sorted[i..];
  }

  lemma Place(sorted: seq<IPRange>, r: IPRange) returns (i: nat)
    ensures i <= |sorted| && forall k :: 0 <= k < i ==> sorted[k].network.MaskSize() >= r.network.MaskSize()
    ensures i < |sorted| ==> sorted[i].network.MaskSize() < r.network.MaskSize()
  {
    i := 0;
    while i < |sorted| && sorted[i].network.MaskSize() >= r.network.MaskSize()
      invariant i <= |sorted| && forall k :: 0 <= k < i ==> sorted[k].network.MaskSize() >= r.network.MaskSize()
    {
      i := i + 1;
    }
  }

  lemma {:induction false} SortRanges(ranges: seq<IPRange>) returns (sorted: seq<IPRange>)
    ensures SortedFrom(ranges, sorted)
    decreases |ranges|
  {
    if ranges == [] {
      sorted := [];
    } else {
      var r := ranges[0];
      var rest := SortRanges(ranges[1..]);
      var i := Place(rest, r);
      InsertSorted(rest, r, i);
      InsertCounts(rest, r, i);
      sorted := rest[..i] + [r] + rest[i..];
      assert ranges == [r] + ranges[1..];
    }
  }

  /** Swapping two entries of equal mask gives another possible output of the sort. */
  lemma SwapSorted(ranges: seq<IPRange>, sorted: seq<IPRange>, i: nat, j: nat) returns (swapped: seq<IPRange>)
    requires SortedFrom(ranges, sorted) && i < j < |sorted|
             && sorted[i].network.MaskSize() == sorted[j].network.MaskSize()
    ensures SortedFrom(ranges, swapped) && |swapped| == |sorted|
    ensures swapped[i] == sorted[j] && forall k :: 0 <= k < i ==> swapped[k] == sorted[k]
  {
    swapped := sorted[i := sorted[j]][j := sorted[i]];
    SwapCounts(sorted, i, j);
    SwapKeepsOrder(sorted, i, j);
  }

  lemma SwapCounts(s: seq<IPRange>, i: nat, j: nat)
    requires i < j < |s|
    ensures multiset(s[i := s[j]][j := s[i]]) == multiset(s)
  {
  }

  lemma SwapKeepsOrder(s: seq<IPRange>, i: nat, j: nat)
    requires SortedByMask(s) && i < j < |s| && s[i].network.MaskSize() == s[j].network.MaskSize()
    ensures SortedByMask(s[i := s[j]][j := s[i]])
  {
    var t := s[i := s[j]][j := s[i]];
    assert forall k :: 0 <= k < |s| ==> t[k].network.MaskSize() == s[k].network.MaskSize();
  }

  /** What an address resolves to is independent of how the sort orders equal masks exactly
      when all its matches of the largest mask agree. */
  lemma OrderIrrelevantIff(ranges: seq<IPRange>, a: Address)
    ensures TopAgree(ranges, a) <==>
            forall s, t :: SortedFrom(ranges, s) && SortedFrom(ranges, t) ==> MatchResult(s, a) == MatchResult(t, a)
  {
    if TopAgree(ranges, a) {
      forall s, t | SortedFrom(ranges, s) && SortedFrom(ranges, t) ensures MatchResult(s, a) == MatchResult(t, a) {
        AgreeingResults(ranges, s, t, a);
      }
    } else {
      var s, t := DisagreeingOrders(ranges, a);
    }
  }

  lemma DisagreeingOrders(ranges: seq<IPRange>, a: Address) returns (s: seq<IPRange>, t: seq<IPRange>)
    requires !TopAgree(ranges, a)
    ensures SortedFrom(ranges, s) && SortedFrom(ranges, t) && MatchResult(s, a) != MatchResult(t, a)
  {
    var i, j :| TopMatch(ranges, a, i) && TopMatch(ranges, a, j)
                && !(ranges[i].groupID == ranges[j].groupID && ranges[i].authMode == ranges[j].authMode);
    s := SortRanges(ranges);
    if FirstMatch(s, a) >= 0 {
      SortedMatchesTop(s, a);
    }
    FirstMatchIsFirst(s, a);
    var i' := TopCarries(ranges, s, a, i);
    var j' := TopCarries(ranges, s, a, j);
    var f := FirstMatch(s, a);
    var other := if (s[f].groupID, s[f].authMode) == (s[i'].groupID, s[i'].authMode) then j' else i';
    t := SwapSorted(ranges, s, f, other);
    FirstStays(s, t, a, f);
  }

  lemma FirstStays(s: seq<IPRange>, t: seq<IPRange>, a: Address, f: nat)
    requires |s| == |t| && f < |s| && FirstMatch(s, a) == f && InBlock(t[f].network.block, a)
    requires forall k :: 0 <= k < f ==> t[k] == s[k]
    ensures FirstMatch(t, a) == f
  {
    FirstMatchIsFirst(s, a);
    FirstMatchIsFirst(t, a);
  }

  lemma AgreeingResults(ranges: seq<IPRange>, s: seq<IPRange>, t: seq<IPRange>, a: Address)
    requires TopAgree(ranges, a) && SortedFrom(ranges, s) && SortedFrom(ranges, t)
    ensures MatchResult(s, a) == MatchResult(t, a)
  {
    if FirstMatch(s, a) >= 0 {
      SortedMatchesTop(s, a);
    }
    if FirstMatch(t, a) >= 0 {
      SortedMatchesTop(t, a);
    }
    FirstMatchIsFirst(s, a);
    FirstMatchIsFirst(t, a);
    var i, j := FirstMatch(s, a), FirstMatch(t, a);
    if i >= 0 {
      var k := IndexIn(s, t, i);
      var i' := TopCarries(s, ranges, a, i);
      var j' := TopCarries(t, ranges, a, j);
    } else if j >= 0 {
      var k := IndexIn(t, s, j);
    }
  }

  /** Without two rows for one network no address is affected. */
  lemma NoDuplicatesAgree(ranges: seq<IPRange>, a: Address)
    requires forall i, j :: 0 <= i < j < |ranges| ==> ranges[i].network != ranges[j].network
    ensures TopAgree(ranges, a)
  {
    forall i, j | TopMatch(ranges, a, i) && TopMatch(ranges, a, j) ensures ranges[i] == ranges[j] {
      EqualLengthEqualBlock(ranges[i].network.block, ranges[j].network.block, a);
    }
  }

  // ---------- adding one range later ----------

  /** Some address of the new block is matched already, and only by shorter prefixes. */
  ghost predicate Shadowed(ranges: seq<IPRange>, b: CIDR) {
    exists a :: InBlock(b, a) && ShadowedAt(ranges, b, a)
  }

  ghost predicate ShadowedAt(ranges: seq<IPRange>, b: CIDR, a: Address) {
    && FirstMatch(ranges, a) >= 0
    && forall j :: 0 <= j < |ranges| && InBlock(ranges[j].network.block, a) ==> ranges[j].network.block.ones < b.ones
  }

  lemma AppendedMatch(ranges: seq<IPRange>, r: IPRange, a: Address)
    ensures FirstMatch(ranges + [r], a) ==
            if FirstMatch(ranges, a) >= 0 then FirstMatch(ranges, a)
            else if InBlock(r.network.block, a) then |ranges| else -1
  {
    assert (ranges + [r])[..|ranges|] == ranges;
  }

  /** Appending a range keeps longest-prefix match exactly when the new block is not shadowed. */
  lemma AddRangeKeepsLongestIff(ranges: seq<IPRange>, r: IPRange)
    requires MatchesLongest(ranges)
    ensures MatchesLongest(ranges + [r]) <==> !Shadowed(ranges, r.network.block)
  {
    var all := ranges + [r];
    if MatchesLongest(all) {
      forall a | InBlock(r.network.block, a) && FirstMatch(ranges, a) >= 0
        ensures !ShadowedAt(ranges, r.network.block, a)
      {
        AppendedMatch(ranges, r, a);
        var i := FirstMatch(all, a);
        assert LongestMatch(all, a, i);
        assert all[|ranges|] == r && all[i] == ranges[i];
      }
    }
    if !Shadowed(ranges, r.network.block) {
      forall a | FirstMatch(all, a) >= 0 ensures LongestMatch(all, a, FirstMatch(all, a)) {
        AppendedMatch(ranges, r, a);
        FirstMatchIsFirst(ranges, a);
        var i := FirstMatch(all, a);
        if FirstMatch(ranges, a) >= 0 {
          assert LongestMatch(ranges, a, i);
          if InBlock(r.network.block, a) {
            assert !ShadowedAt(ranges, r.network.block, a);
            var j :| 0 <= j < |ranges| && InBlock(ranges[j].network.block, a)
              && ranges[j].network.block.ones >= r.network.block.ones;
          }
        }
        assert forall j :: 0 <= j < |all| ==> all[j] == if j < |ranges| then ranges[j] else r;
      }
    }
  }

  /** In particular it does when the new block is not strictly inside an existing one. */
  lemma NotInsideNotShadowed(ranges: seq<IPRange>, b: CIDR)
    requires forall j :: 0 <= j < |ranges| ==> !StrictlyInside(b, ranges[j].network.block)
    ensures !Shadowed(ranges, b)
  {
    forall a | InBlock(b, a) && FirstMatch(ranges, a) >= 0 ensures !ShadowedAt(ranges, b, a) {
      FirstMatchIsFirst(ranges, a);
      var i := FirstMatch(ranges, a);
      StrictlyInsideIffLonger(b, ranges[i].network.block, a);
    }
  }

  /** And it does not when the new block is strictly inside an existing one, all existing blocks
      that meet it being larger. */
  lemma InsideShadowed(ranges: seq<IPRange>, b: CIDR, i: nat)
    requires i < |ranges| && StrictlyInside(b, ranges[i].network.block)
    requires forall j, a :: 0 <= j < |ranges| && Meet(b, ranges[j].network.block, a) ==>
             StrictlyInside(b, ranges[j].network.block)
    ensures Shadowed(ranges, b)
  {
    FirstAddress(b);
    var a := Ip(b.family, b.network);
    FirstMatchIsFirst(ranges, a);
    assert InBlock(ranges[i].network.block, a);
    forall j | 0 <= j < |ranges| && InBlock(ranges[j].network.block, a) ensures ranges[j].network.block.ones < b.ones {
      assert Meet(b, ranges[j].network.block, a);
      StrictlyInsideIffLonger(b, ranges[j].network.block, a);
    }
    assert ShadowedAt(ranges, b, a);
  }
}
