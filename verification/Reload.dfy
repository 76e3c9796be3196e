/** Reloading: the sequential code of each reloader, and what any interleaving of several
    reloaders and a running query can produce. */
module Reload {
  import opened Wrappers
  import opened DomainNames
  import opened ListText
  import opened Blacklists
  import opened Store
  import opened Engine

  // ---------- the reloaders, run alone ----------

  /** What the database answers during one reload. */
  datatype Queries = Queries(
    listsOk: bool, listRows: seq<Option<ListRow>>, listRowsOk: bool,
    categoriesOk: bool, categoryRows: seq<Option<(int, string)>>,
    policiesOk: bool, policyRows: seq<Option<(int, int)>>)
  {
    predicate ListsLoad() {
      listsOk && listRowsOk && None !in listRows
    }
  }

  /** Every query succeeded and returned exactly the rows the tables hold. */
  ghost predicate Complete(db: Tables, q: Queries) {
    && q.ListsLoad() && q.categoriesOk && q.policiesOk
    && ListQuery(db, q.listRows) && CategoryQuery(db, q.categoryRows) && PolicyQuery(db, q.policyRows)
  }

  /** The domains in a list file; a file that cannot be opened has none. */
  function FileDomains(source: Source): seq<string> {
    if source.Body? then Domains(source.scan.lines) else []
  }

  ghost function FileNames(source: Source): set<string> {
    Normalized(FileDomains(source))
  }

  /** The names that a list file contributes are the normal forms of what its lines mean. */
  lemma FileNamesIff(source: Source, n: string)
    ensures n in FileNames(source) <==>
            && source.Body?
            && exists i :: 0 <= i < |source.scan.lines| && LineDomain(source.scan.lines[i]) != ""
                           && Normalize(LineDomain(source.scan.lines[i])) == n
  {
    if source.Body? {
      var lines := source.scan.lines;
      if n in FileNames(source) {
        var d :| d in Domains(lines) && Normalize(d) == n;
        DomainsIff(lines, d);
      }
      if i :| 0 <= i < |lines| && LineDomain(lines[i]) != "" && Normalize(LineDomain(lines[i])) == n {
        DomainsIff(lines, LineDomain(lines[i]));
        assert LineDomain(lines[i]) in FileDomains(source);
      }
    }
  }

  method AddAll(list: Blacklist, domains: seq<string>)
    modifies list
    ensures list.domains == old(list.domains) + Normalized(domains)
  {
    for i := 0 to |domains|
      invariant list.domains == old(list.domains) + Normalized(domains[..i])
    {
      assert Normalized(domains[..i + 1]) == Normalized(domains[..i]) + {Normalize(domains[i])} by {
        NormalizedAppend(domains[..i], domains[i]);
        assert domains[..i + 1] == domains[..i] + [domains[i]];
      }
      list.Add(domains[i]);
    }
    assert domains[..|domains|] == domains;
  }

  /** The reload of the API, and the tail of its download: the lists only, and no files. */
  method ReloadLists(black: Blacklist, white: Blacklist, q: Queries) returns (failed: bool)
    requires black != white
    modifies black, white
    ensures failed <==> !q.ListsLoad()
    ensures failed ==> unchanged(black) && unchanged(white)
    ensures !failed ==> black.domains == Normalized(OfType(q.listRows, BLACKLIST))
                        && white.domains == Normalized(OfType(q.listRows, WHITELIST))
  {
    var lists := LoadActiveBlocklistEntries(q.listsOk, q.listRows, q.listRowsOk);
    if lists.Failure? {
      return true;
    }
    black.Clear();
    white.Clear();
    AddAll(black, lists.value.0);
    AddAll(white, lists.value.1);
    return false;
  }

  /** The list part of the callback: the database entries, then the list files again, since
      clearing dropped their names. */
  method ReloadListsAndFiles(black: Blacklist, white: Blacklist, q: Queries, blackFile: Source, whiteFile: Source)
    returns (failed: bool)
    requires black != white
    modifies black, white
    ensures failed <==> !q.ListsLoad()
    ensures failed ==> unchanged(black) && unchanged(white)
    ensures !failed ==> black.domains == Normalized(OfType(q.listRows, BLACKLIST) + FileDomains(blackFile))
                        && white.domains == Normalized(OfType(q.listRows, WHITELIST) + FileDomains(whiteFile))
  {
    failed := ReloadLists(black, white, q);
    if failed {
      return;
    }
    if blackFile.Body? {
      var _, _ := black.LoadFromFile(blackFile);
    }
    if whiteFile.Body? {
      var _, _ := white.LoadFromFile(whiteFile);
    }
    NormalizedConcat(OfType(q.listRows, BLACKLIST), FileDomains(blackFile));
    NormalizedConcat(OfType(q.listRows, WHITELIST), FileDomains(whiteFile));
  }

  /** The category and policy part of the callback; a failed query keeps the old map. */
  method ReloadMaps(engine: Engine, q: Queries)
    modifies engine
    ensures q.categoriesOk ==> exists m :: Groups(m, q.categoryRows) && IsCategoryIndex(m, engine.domainCategories)
    ensures !q.categoriesOk ==> engine.domainCategories == old(engine.domainCategories)
    ensures q.policiesOk ==> forall g, c :: Blocks(engine.groupPolicies, g, c) <==> Some((g, c)) in q.policyRows
    ensures !q.policiesOk ==> engine.groupPolicies == old(engine.groupPolicies)
  {
    var categories := LoadCategoryDomains(q.categoriesOk, q.categoryRows);
    if categories.Success? {
      ghost var order := engine.LoadCategories(categories.value);
      EveryOrderIndexes(categories.value, order);
      assert Groups(categories.value, q.categoryRows);
    }
    var policies := LoadGroupPolicies(q.policiesOk, q.policyRows);
    if policies.Success? {
      engine.LoadPolicies(policies.value);
    }
  }

  /** The configuration in memory. */
  ghost function Current(engine: Engine, black: Blacklist, white: Blacklist): Config
    reads engine, black, white
  {
    Config(white.domains, black.domains, engine.domainCategories, engine.groupPolicies)
  }

  /** The callback of the config_changed notification. Its effect is that of its steps in order,
      and when the queries answered in full the memory indexes the tables and the files. */
  method ConfigChanged(engine: Engine, black: Blacklist, white: Blacklist, q: Queries, blackFile: Source,
                       whiteFile: Source)
    requires black != white
    modifies black, white, engine
    ensures !q.ListsLoad() ==> Current(engine, black, white) == old(Current(engine, black, white))
    ensures q.ListsLoad() ==>
              Current(engine, black, white) ==
              ApplyAll(old(Current(engine, black, white)),
                       CallbackOps(OfType(q.listRows, BLACKLIST), OfType(q.listRows, WHITELIST),
                                   FileDomains(blackFile), FileDomains(whiteFile),
                                   if q.categoriesOk then Some(engine.domainCategories) else None,
                                   if q.policiesOk then Some(engine.groupPolicies) else None))
    ensures forall db :: Complete(db, q) ==>
              Indexes(db, FileNames(blackFile), FileNames(whiteFile),
                      white.domains, black.domains, engine.domainCategories, engine.groupPolicies)
  {
    var failed := ReloadListsAndFiles(black, white, q, blackFile, whiteFile);
    if failed {
      return;
    }
    ReloadMaps(engine, q);
    CallbackAlone(old(Current(engine, black, white)), OfType(q.listRows, BLACKLIST), OfType(q.listRows, WHITELIST),
                  FileDomains(blackFile), FileDomains(whiteFile),
                  if q.categoriesOk then Some(engine.domainCategories) else None,
                  if q.policiesOk then Some(engine.groupPolicies) else None);
    forall db | Complete(db, q)
      ensures Indexes(db, FileNames(blackFile), FileNames(whiteFile),
                      white.domains, black.domains, engine.domainCategories, engine.groupPolicies)
    {
      RowsIndex(db, q, FileDomains(blackFile), FileDomains(whiteFile), Current(engine, black, white));
    }
  }

  lemma NormalizedConcat(a: seq<string>, b: seq<string>)
    ensures Normalized(a + b) == Normalized(a) + Normalized(b)
  {
    forall n ensures n in Normalized(a + b) <==> n in Normalized(a) + Normalized(b) {
      assert forall d :: d in a + b <==> d in a || d in b;
    }
  }

  /** Names and maps built from complete query answers index the tables. */
  lemma RowsIndex(db: Tables, q: Queries, fileBlack: seq<string>, fileWhite: seq<string>, c: Config)
    requires Complete(db, q)
    requires c.black == Normalized(OfType(q.listRows, BLACKLIST) + fileBlack)
    requires c.white == Normalized(OfType(q.listRows, WHITELIST) + fileWhite)
    requires exists m :: Groups(m, q.categoryRows) && IsCategoryIndex(m, c.categories)
    requires forall g, k :: Blocks(c.policies, g, k) <==> Some((g, k)) in q.policyRows
    ensures Indexes(db, Normalized(fileBlack), Normalized(fileWhite), c.white, c.black, c.categories, c.policies)
  {
    var m :| Groups(m, q.categoryRows) && IsCategoryIndex(m, c.categories);
    NormalizedConcat(OfType(q.listRows, BLACKLIST), fileBlack);
    NormalizedConcat(OfType(q.listRows, WHITELIST), fileWhite);
    forall n, t ensures n in Normalized(OfType(q.listRows, t)) <==> InList(db, t, n) {
      ListRowsIndex(db, q.listRows, t, n);
    }
    forall n, k ensures Assigned(m, n, k) <==> InCategory(db, k, n) {
      CategoryRowsIndex(db, q.categoryRows, m, n, k);
    }
  }

  /** A saved group policy is what the next load blocks with, and no other group is affected. */
  lemma SavedPolicyLoads(t: Tables, group: int, categories: seq<int>, rows: seq<Option<(int, int)>>,
                         loaded: map<int, map<int, bool>>, g: int, c: int)
    requires PolicyQuery(WithPolicies(WithoutGroup(t, group), group, categories), rows)
    requires forall g, c :: Blocks(loaded, g, c) <==> Some((g, c)) in rows
    ensures Blocks(loaded, g, c) <==> if g == group then c in categories else (g, c) in t.policies
  {
    var after := WithPolicies(WithoutGroup(t, group), group, categories).policies;
    assert Some((g, c)) in rows <==> (g, c) in after;
  }

  // ---------- interleavings ----------

  datatype ListKind = White | Black

  datatype Config = Config(white: set<string>, black: set<string>,
                           categories: map<string, int>, policies: map<int, map<int, bool>>)
  {
    function Names(l: ListKind): set<string> {
      if l == White then white else black
    }
  }

  /** The steps that one lock acquisition protects. */
  datatype Op =
    | Clear(list: ListKind)
    | Add(list: ListKind, domain: string)
    | SetCategories(categories: map<string, int>)
    | SetPolicies(policies: map<int, map<int, bool>>)

  function With(c: Config, l: ListKind, names: set<string>): Config {
    if l == White then c.(white := names) else c.(black := names)
  }

  function Apply(c: Config, op: Op): Config {
    match op
    case Clear(l) => With(c, l, {})
    case Add(l, d) => With(c, l, c.Names(l) + {Normalize(d)})
    case SetCategories(m) => c.(categories := m)
    case SetPolicies(p) => c.(policies := p)
  }

  function ApplyAll(c: Config, ops: seq<Op>): Config {
    if ops == [] then c else Apply(ApplyAll(c, ops[..|ops| - 1]), ops[|ops| - 1])
  }

  /** One step of a run: which reloader makes it, and what it does. */
  datatype Step = Step(who: nat, op: Op)

  function Ops(trace: seq<Step>): (ops: seq<Op>)
    ensures |ops| == |trace|
  {
    seq(|trace|, k requires 0 <= k < |trace| => trace[k].op)
  }

  function ByReloader(trace: seq<Step>, who: nat): seq<Op> {
    if trace == [] then []
    else
      var last := trace[|trace| - 1];
      ByReloader(trace[..|trace| - 1], who) + (if last.who == who then [last.op] else [])
  }

  /** The trace runs every program to its end, each in its own order, in any mix. */
  ghost predicate Interleaving(trace: seq<Step>, programs: seq<seq<Op>>) {
    && (forall k :: 0 <= k < |trace| ==> trace[k].who < |programs|)
    && forall i :: 0 <= i < |programs| ==> ByReloader(trace, i) == programs[i]
  }

  predicate Adds(op: Op, l: ListKind) {
    op.Add? && op.list == l
  }

  /** The program clears the list once, at position c, and adds to it only afterwards. */
  predicate ClearsAt(program: seq<Op>, l: ListKind, c: int) {
    && 0 <= c < |program| && program[c] == Clear(l)
    && (forall k :: 0 <= k < |program| && program[k] == Clear(l) ==> k == c)
    && forall k :: 0 <= k < |program| && Adds(program[k], l) ==> c < k
  }

  ghost predicate ClearsThenAdds(program: seq<Op>, l: ListKind) {
    exists c :: ClearsAt(program, l, c)
  }

  /** The names that a program adds to the list. */
  ghost function Loaded(program: seq<Op>, l: ListKind): set<string> {
    set op | op in program && Adds(op, l) :: Normalize(op.domain)
  }

  ghost predicate LoadedBySome(programs: seq<seq<Op>>, l: ListKind, n: string) {
    exists i :: 0 <= i < |programs| && n in Loaded(programs[i], l)
  }

  /** The position of the last Clear of the list, -1 when there is none. */
  function LastClear(ops: seq<Op>, l: ListKind): (k: int)
    ensures -1 <= k < |ops|
    ensures k >= 0 ==> ops[k] == Clear(l)
  {
    if ops == [] then -1
    else if ops[|ops| - 1] == Clear(l) then |ops| - 1
    else LastClear(ops[..|ops| - 1], l)
  }

  predicate AddsAfterClear(ops: seq<Op>, l: ListKind, n: string, k: int) {
    LastClear(ops, l) < k < |ops| && Adds(ops[k], l) && Normalize(ops[k].domain) == n
  }

  /** After any steps at all a list holds what was added since its last Clear, and what it held at
      the start when there was none. */
  lemma {:induction false} ContentSinceClear(c: Config, ops: seq<Op>, l: ListKind, n: string)
    ensures n in ApplyAll(c, ops).Names(l) <==>
            (LastClear(ops, l) == -1 && n in c.Names(l)) || exists k :: AddsAfterClear(ops, l, n, k)
  {
    if ops != [] {
      var init, last := ops[..|ops| - 1], ops[|ops| - 1];
      ContentSinceClear(c, init, l, n);
      if last != Clear(l) {
        assert forall k :: 0 <= k < |init| ==> (AddsAfterClear(init, l, n, k) <==> AddsAfterClear(ops, l, n, k));
        if Adds(last, l) && Normalize(last.domain) == n {
          assert AddsAfterClear(ops, l, n, |ops| - 1);
        }
      }
    }
  }

  lemma {:induction false} ByReloaderAppend(a: seq<Step>, b: seq<Step>, who: nat)
    ensures ByReloader(a + b, who) == ByReloader(a, who) + ByReloader(b, who)
  {
    if b == [] {
      assert a + b == a;
    } else {
      ByReloaderAppend(a, b[..|b| - 1], who);
      assert (a + b)[..|a + b| - 1] == a + b[..|b| - 1];
    }
  }

  lemma {:induction false} StepOf(trace: seq<Step>, who: nat, op: Op) returns (k: nat)
    requires op in ByReloader(trace, who)
    ensures k < |trace| && trace[k] == Step(who, op)
  {
    var n := |trace| - 1;
    if trace[n] == Step(who, op) {
      k := n;
    } else {
      k := StepOf(trace[..n], who, op);
    }
  }

  lemma {:induction false} StepInProgram(trace: seq<Step>, k: nat)
    requires k < |trace|
    ensures trace[k].op in ByReloader(trace, trace[k].who)
  {
    if k < |trace| - 1 {
      StepInProgram(trace[..|trace| - 1], k);
    }
  }

  /** Everything the last reloader to clear adds comes after its Clear in the trace. */
  lemma AddComesAfterClear(trace: seq<Step>, l: ListKind, k: nat, op: Op) returns (j: nat)
    requires k < |trace| && trace[k].op == Clear(l)
    requires ClearsThenAdds(ByReloader(trace, trace[k].who), l)
    requires op in ByReloader(trace, trace[k].who) && Adds(op, l)
    ensures k < j < |trace| && trace[j].op == op
  {
    var who := trace[k].who;
    var a, b := trace[..k], trace[k + 1..];
    assert trace == a + [trace[k]] + b;
    ByReloaderAppend(a + [trace[k]], b, who);
    ByReloaderAppend(a, [trace[k]], who);
    assert ByReloader([trace[k]], who) == [Clear(l)];
    var program := ByReloader(trace, who);
    var before := ByReloader(a, who);
    assert program == before + [Clear(l)] + ByReloader(b, who);
    var c :| ClearsAt(program, l, c);
    assert program[|before|] == Clear(l);
    var m :| 0 <= m < |program| && program[m] == op;
    assert program[m] == ByReloader(b, who)[m - |before| - 1];
    var i := StepOf(b, who, op);
    j := k + 1 + i;
  }

  /** However several reloaders interleave, each clearing once and then adding, the list ends up
      with everything loaded by whichever cleared last, and with nothing that none of them
      loaded. */
  lemma ReloadsConverge(c: Config, trace: seq<Step>, programs: seq<seq<Op>>, l: ListKind)
    requires Interleaving(trace, programs) && programs != []
    requires forall i :: 0 <= i < |programs| ==> ClearsThenAdds(programs[i], l)
    ensures var k := LastClear(Ops(trace), l);
            && k >= 0
            && Loaded(programs[trace[k].who], l) <= ApplyAll(c, Ops(trace)).Names(l)
            && forall n :: n in ApplyAll(c, Ops(trace)).Names(l) ==> LoadedBySome(programs, l, n)
  {
    var ops := Ops(trace);
    var c0 :| ClearsAt(programs[0], l, c0);
    var k0 := StepOf(trace, 0, programs[0][c0]);
    ClearSeen(ops, l, k0);
    var k := LastClear(ops, l);
    var program := programs[trace[k].who];
    forall n | n in Loaded(program, l) ensures n in ApplyAll(c, ops).Names(l) {
      var op :| op in program && Adds(op, l) && Normalize(op.domain) == n;
      var j := AddComesAfterClear(trace, l, k, op);
      assert AddsAfterClear(ops, l, n, j);
      ContentSinceClear(c, ops, l, n);
    }
    forall n | n in ApplyAll(c, ops).Names(l) ensures LoadedBySome(programs, l, n) {
      ContentSinceClear(c, ops, l, n);
      var j :| AddsAfterClear(ops, l, n, j);
      StepInProgram(trace, j);
      assert n in Loaded(programs[trace[j].who], l);
    }
  }

  lemma {:induction false} ClearSeen(ops: seq<Op>, l: ListKind, k: nat)
    requires k < |ops| && ops[k] == Clear(l)
    ensures LastClear(ops, l) >= k
  {
    if k < |ops| - 1 && ops[|ops| - 1] != Clear(l) {
      ClearSeen(ops[..|ops| - 1], l, k);
    }
  }

  /** When all of them loaded the same names the result is exactly those names. */
  lemma SameLoadsExact(c: Config, trace: seq<Step>, programs: seq<seq<Op>>, l: ListKind, names: set<string>)
    requires Interleaving(trace, programs) && programs != []
    requires forall i :: 0 <= i < |programs| ==> ClearsThenAdds(programs[i], l) && Loaded(programs[i], l) == names
    ensures ApplyAll(c, Ops(trace)).Names(l) == names
  {
    ReloadsConverge(c, trace, programs, l);
  }

  // ---------- the programs of the source ----------

  function AddOps(l: ListKind, domains: seq<string>): (ops: seq<Op>)
    ensures |ops| == |domains|
  {
    seq(|domains|, i requires 0 <= i < |domains| => Add(l, domains[i]))
  }

  /** The steps of ConfigChanged once the lists are read; an absent file adds nothing, a failed
      category or policy query sets nothing. */
  function CallbackOps(black: seq<string>, white: seq<string>, blackFile: seq<string>, whiteFile: seq<string>,
                       categories: Option<map<string, int>>, policies: Option<map<int, map<int, bool>>>): seq<Op>
  {
    [Clear(Black), Clear(White)]
    + AddOps(Black, black) + AddOps(White, white) + AddOps(Black, blackFile) + AddOps(White, whiteFile)
    + (if categories.Some? then [SetCategories(categories.value)] else [])
    + (if policies.Some? then [SetPolicies(policies.value)] else [])
  }

  /** The steps of ReloadLists. */
  function ReloadOps(black: seq<string>, white: seq<string>): seq<Op> {
    CallbackOps(black, white, [], [], None, None)
  }

  lemma AddOpsIn(l: ListKind, domains: seq<string>, op: Op)
    ensures op in AddOps(l, domains) <==> Adds(op, l) && op.domain in domains
  {
    var ops := AddOps(l, domains);
    if op in ops {
      var i :| 0 <= i < |ops| && ops[i] == op;
    }
    if Adds(op, l) && op.domain in domains {
      var i :| 0 <= i < |domains| && domains[i] == op.domain;
      assert ops[i] == op;
    }
  }

  function CallbackRest(black: seq<string>, white: seq<string>, blackFile: seq<string>, whiteFile: seq<string>,
                        categories: Option<map<string, int>>, policies: Option<map<int, map<int, bool>>>): seq<Op>
  {
    AddOps(Black, black) + AddOps(White, white) + AddOps(Black, blackFile) + AddOps(White, whiteFile)
    + (if categories.Some? then [SetCategories(categories.value)] else [])
    + (if policies.Some? then [SetPolicies(policies.value)] else [])
  }

  lemma CallbackRestIs(black: seq<string>, white: seq<string>, blackFile: seq<string>, whiteFile: seq<string>,
                       categories: Option<map<string, int>>, policies: Option<map<int, map<int, bool>>>, op: Op)
    ensures op in CallbackRest(black, white, blackFile, whiteFile, categories, policies) <==>
            || (Adds(op, Black) && op.domain in black + blackFile)
            || (Adds(op, White) && op.domain in white + whiteFile)
            || (categories.Some? && op == SetCategories(categories.value))
            || (policies.Some? && op == SetPolicies(policies.value))
  {
    AddOpsIn(Black, black, op);
    AddOpsIn(Black, blackFile, op);
    AddOpsIn(White, white, op);
    AddOpsIn(White, whiteFile, op);
  }

  /** Every reloader of the source has the shape that ReloadsConverge asks for, and loads the
      database and file names of the list. */
  lemma CallbackClearsThenAdds(black: seq<string>, white: seq<string>, blackFile: seq<string>, whiteFile: seq<string>,
                               categories: Option<map<string, int>>, policies: Option<map<int, map<int, bool>>>,
                               l: ListKind)
    ensures var ops := CallbackOps(black, white, blackFile, whiteFile, categories, policies);
            && ClearsThenAdds(ops, l)
            && Loaded(ops, l) == if l == Black then Normalized(black + blackFile) else Normalized(white + whiteFile)
  {
    var ops := CallbackOps(black, white, blackFile, whiteFile, categories, policies);
    var rest := CallbackRest(black, white, blackFile, whiteFile, categories, policies);
    var domains := if l == Black then black + blackFile else white + whiteFile;
    assert ops == [Clear(Black), Clear(White)] + rest;
    forall op | op in rest ensures op != Clear(l) {
      CallbackRestIs(black, white, blackFile, whiteFile, categories, policies, op);
    }
    assert forall k :: 2 <= k < |ops| ==> ops[k] == rest[k - 2] && rest[k - 2] in rest;
    assert ClearsAt(ops, l, if l == Black then 0 else 1);
    forall n ensures n in Loaded(ops, l) <==> n in Normalized(domains) {
      if n in Loaded(ops, l) {
        var op :| op in ops && Adds(op, l) && Normalize(op.domain) == n;
        CallbackRestIs(black, white, blackFile, whiteFile, categories, policies, op);
      }
      if n in Normalized(domains) {
        var d :| d in domains && Normalize(d) == n;
        CallbackRestIs(black, white, blackFile, whiteFile, categories, policies, Add(l, d));
        assert Add(l, d) in ops;
      }
    }
  }

  /** Run alone, those steps leave exactly the loaded names, and the loaded maps where a map was
      loaded. */
  lemma CallbackAlone(c: Config, black: seq<string>, white: seq<string>, blackFile: seq<string>, whiteFile: seq<string>,
                      categories: Option<map<string, int>>, policies: Option<map<int, map<int, bool>>>)
    ensures ApplyAll(c, CallbackOps(black, white, blackFile, whiteFile, categories, policies))
            == Config(Normalized(white + whiteFile), Normalized(black + blackFile),
                      if categories.Some? then categories.value else c.categories,
                      if policies.Some? then policies.value else c.policies)
  {
    var program := CallbackOps(black, white, blackFile, whiteFile, categories, policies);
    CallbackClearsThenAdds(black, white, blackFile, whiteFile, categories, policies, White);
    CallbackClearsThenAdds(black, white, blackFile, whiteFile, categories, policies, Black);
    LoadsAlone(c, program, White);
    LoadsAlone(c, program, Black);
    CallbackMaps(c, black, white, blackFile, whiteFile, categories, policies);
  }

  lemma LoadsAlone(c: Config, program: seq<Op>, l: ListKind)
    requires ClearsThenAdds(program, l)
    ensures ApplyAll(c, program).Names(l) == Loaded(program, l)
  {
    var trace := seq(|program|, k requires 0 <= k < |program| => Step(0, program[k]));
    assert Ops(trace) == program;
    OneReloader(trace);
    SameLoadsExact(c, trace, [program], l, Loaded(program, l));
  }

  lemma CallbackMaps(c: Config, black: seq<string>, white: seq<string>, blackFile: seq<string>, whiteFile: seq<string>,
                     categories: Option<map<string, int>>, policies: Option<map<int, map<int, bool>>>)
    ensures var after := ApplyAll(c, CallbackOps(black, white, blackFile, whiteFile, categories, policies));
            && after.categories == (if categories.Some? then categories.value else c.categories)
            && after.policies == (if policies.Some? then policies.value else c.policies)
  {
    var setC := if categories.Some? then [SetCategories(categories.value)] else [];
    var setP := if policies.Some? then [SetPolicies(policies.value)] else [];
    var lists := [Clear(Black), Clear(White)]
                 + AddOps(Black, black) + AddOps(White, white) + AddOps(Black, blackFile) + AddOps(White, whiteFile);
    assert CallbackOps(black, white, blackFile, whiteFile, categories, policies) == lists + setC + setP;
    ListOpsKeepMaps(c, lists);
    ApplyAllAppend(c, lists, setC);
    ApplyAllAppend(c, lists + setC, setP);
  }

  lemma {:induction false} OneReloader(trace: seq<Step>)
    requires forall k :: 0 <= k < |trace| ==> trace[k].who == 0
    ensures ByReloader(trace, 0) == Ops(trace)
  {
    if trace != [] {
      OneReloader(trace[..|trace| - 1]);
    }
  }

  lemma {:induction false} ListOpsKeepMaps(c: Config, ops: seq<Op>)
    requires forall k :: 0 <= k < |ops| ==> ops[k].Clear? || ops[k].Add?
    ensures ApplyAll(c, ops).categories == c.categories && ApplyAll(c, ops).policies == c.policies
  {
    if ops != [] {
      ListOpsKeepMaps(c, ops[..|ops| - 1]);
    }
  }

  lemma ApplyAllAppend(c: Config, ops: seq<Op>, last: seq<Op>)
    requires |last| <= 1
    ensures ApplyAll(c, ops + last) == if last == [] then ApplyAll(c, ops) else Apply(ApplyAll(c, ops), last[0])
  {
    if last == [] {
      assert ops + last == ops;
    } else {
      assert (ops + last)[..|ops|] == ops;
    }
  }

  // ---------- a query beside the reloaders ----------

  /** The verdict of a query whose three locked reads fall after r1, r2 and r3 steps. */
  ghost function VerdictAt(c: Config, trace: seq<Step>, r1: nat, r2: nat, r3: nat, domain: string, group: int): Verdict
    requires r1 <= r2 <= r3 <= |trace|
  {
    var c3 := ApplyAll(c, Ops(trace[..r3]));
    Decide(ApplyAll(c, Ops(trace[..r1])).white, ApplyAll(c, Ops(trace[..r2])).black, c3.categories, c3.policies, domain,
           group)
  }

  /** The names a list held before the reloads, or that some reload loads. */
  ghost predicate OldOrNew(c: Config, programs: seq<seq<Op>>, l: ListKind, n: string) {
    n in c.Names(l) || LoadedBySome(programs, l, n)
  }

  ghost predicate SetBySome(programs: seq<seq<Op>>, op: Op) {
    exists i :: 0 <= i < |programs| && op in programs[i]
  }

  ghost predicate CategoriesOldOrNew(c: Config, programs: seq<seq<Op>>, m: map<string, int>) {
    m == c.categories || SetBySome(programs, SetCategories(m))
  }

  ghost predicate PoliciesOldOrNew(c: Config, programs: seq<seq<Op>>, p: map<int, map<int, bool>>) {
    p == c.policies || SetBySome(programs, SetPolicies(p))
  }

  ghost predicate AllOldOrNew(c: Config, programs: seq<seq<Op>>, now: Config) {
    && (forall l, n :: n in now.Names(l) ==> OldOrNew(c, programs, l, n))
    && CategoriesOldOrNew(c, programs, now.categories)
    && PoliciesOldOrNew(c, programs, now.policies)
  }

  lemma StepOldOrNew(c: Config, programs: seq<seq<Op>>, now: Config, i: nat, op: Op)
    requires AllOldOrNew(c, programs, now) && i < |programs| && op in programs[i]
    ensures AllOldOrNew(c, programs, Apply(now, op))
  {
    assert SetBySome(programs, op);
    if op.Add? {
      assert Normalize(op.domain) in Loaded(programs[i], op.list);
      assert LoadedBySome(programs, op.list, Normalize(op.domain));
    }
  }

  lemma {:induction false} ReadsOldOrNew(c: Config, trace: seq<Step>, programs: seq<seq<Op>>, r: nat)
    requires Interleaving(trace, programs) && r <= |trace|
    ensures AllOldOrNew(c, programs, ApplyAll(c, Ops(trace[..r])))
  {
    if r > 0 {
      ReadsOldOrNew(c, trace, programs, r - 1);
      var ops := Ops(trace[..r]);
      assert ops[..r - 1] == Ops(trace[..r - 1]);
      StepInProgram(trace, r - 1);
      StepOldOrNew(c, programs, ApplyAll(c, ops[..r - 1]), trace[r - 1].who, trace[r - 1].op);
    }
  }

  /** In every interleaving of a query with reloads, what the query answers is justified by old or
      new configuration. */
  lemma VerdictJustified(c: Config, trace: seq<Step>, programs: seq<seq<Op>>, r1: nat, r2: nat, r3: nat,
                         domain: string, group: int)
    requires Interleaving(trace, programs) && r1 <= r2 <= r3 <= |trace|
    ensures var v := VerdictAt(c, trace, r1, r2, r3, domain, group);
            var name := Normalize(domain);
            && (v.reason == "whitelist" ==>
                  v.action == Allow && exists x :: Under(name, x) && OldOrNew(c, programs, White, x))
            && (v.reason == "blacklist" ==>
                  v.action == Block && exists x :: Under(name, x) && OldOrNew(c, programs, Black, x))
            && (v.reason == "category" ==> v.action == Block && group > 0 && exists m, p ::
                  && CategoriesOldOrNew(c, programs, m) && PoliciesOldOrNew(c, programs, p)
                  && CategoryOf(m, name) == Some(v.categoryID) && Blocks(p, group, v.categoryID))
            && (v.action == Block ==> v.reason == "blacklist" || v.reason == "category")
  {
    var name := Normalize(domain);
    ReadsOldOrNew(c, trace, programs, r1);
    ReadsOldOrNew(c, trace, programs, r2);
    ReadsOldOrNew(c, trace, programs, r3);
    CoveredIffUnder(ApplyAll(c, Ops(trace[..r1])).white, name);
    CoveredIffUnder(ApplyAll(c, Ops(trace[..r2])).black, name);
  }

  /** The steps leave the name covered by a list: nothing cleared the list and it was covered
      before, or a covering domain was added since the last clear. */
  ghost predicate SeenIn(c: Config, ops: seq<Op>, l: ListKind, name: string) {
    || (LastClear(ops, l) == -1 && Covered(c.Names(l), name))
    || exists k :: LastClear(ops, l) < k < |ops| && Adds(ops[k], l) && Under(name, Normalize(ops[k].domain))
  }

  lemma SeenInIff(c: Config, ops: seq<Op>, l: ListKind, name: string)
    ensures SeenIn(c, ops, l, name) <==> Covered(ApplyAll(c, ops).Names(l), name)
  {
    var names := ApplyAll(c, ops).Names(l);
    CoveredIffUnder(names, name);
    CoveredIffUnder(c.Names(l), name);
    if x :| x in names && Under(name, x) {
      ContentSinceClear(c, ops, l, x);
      if LastClear(ops, l) != -1 || x !in c.Names(l) {
        var k :| AddsAfterClear(ops, l, x, k);
      }
    }
    if LastClear(ops, l) == -1 && Covered(c.Names(l), name) {
      var x :| x in c.Names(l) && Under(name, x);
      ContentSinceClear(c, ops, l, x);
    }
    if k :| LastClear(ops, l) < k < |ops| && Adds(ops[k], l) && Under(name, Normalize(ops[k].domain)) {
      assert AddsAfterClear(ops, l, Normalize(ops[k].domain), k);
      ContentSinceClear(c, ops, l, Normalize(ops[k].domain));
    }
  }

  /** Both load the category map, or both load the policies. */
  predicate SameMap(o: Op, op: Op) {
    (o.SetCategories? && op.SetCategories?) || (o.SetPolicies? && op.SetPolicies?)
  }

  predicate LoadedLast(ops: seq<Op>, op: Op, k: int) {
    0 <= k < |ops| && ops[k] == op && forall h :: k < h < |ops| ==> !SameMap(ops[h], op)
  }

  predicate NotLoaded(ops: seq<Op>, op: Op) {
    forall h :: 0 <= h < |ops| ==> !SameMap(ops[h], op)
  }

  /** The steps leave the map that the operation would load: it was there and no other was loaded,
      or it was loaded last. */
  ghost predicate MapSeen(c: Config, ops: seq<Op>, op: Op) {
    || ((op == SetCategories(c.categories) || op == SetPolicies(c.policies)) && NotLoaded(ops, op))
    || exists k :: LoadedLast(ops, op, k)
  }

  lemma MapSeenStep(c: Config, ops: seq<Op>, op: Op)
    requires ops != [] && (op.SetCategories? || op.SetPolicies?)
    ensures var last := ops[|ops| - 1];
            MapSeen(c, ops, op) <==> if SameMap(last, op) then last == op else MapSeen(c, ops[..|ops| - 1], op)
  {
    var n := |ops| - 1;
    var init := ops[..n];
    assert forall k :: 0 <= k < n ==> init[k] == ops[k];
    assert NotLoaded(ops, op) <==> NotLoaded(init, op) && !SameMap(ops[n], op);
    forall k
      ensures LoadedLast(ops, op, k) <==>
              if k == n then ops[n] == op else LoadedLast(init, op, k) && !SameMap(ops[n], op)
    {
    }
    if SameMap(ops[n], op) && ops[n] == op {
      assert LoadedLast(ops, op, n);
    }
    if k :| LoadedLast(init, op, k) && !SameMap(ops[n], op) {
      assert LoadedLast(ops, op, k);
    }
  }

  lemma {:induction false} MapSeenIff(c: Config, ops: seq<Op>, op: Op)
    requires op.SetCategories? || op.SetPolicies?
    ensures MapSeen(c, ops, op) <==>
            op == SetCategories(ApplyAll(c, ops).categories) || op == SetPolicies(ApplyAll(c, ops).policies)
  {
    if ops != [] {
      MapSeenIff(c, ops[..|ops| - 1], op);
      MapSeenStep(c, ops, op);
    }
  }

  /** The maps that the steps leave block the name for the group. */
  ghost predicate CategoryBlocked(c: Config, ops: seq<Op>, name: string, group: int) {
    group > 0 && exists m, p :: MapSeen(c, ops, SetCategories(m)) && MapSeen(c, ops, SetPolicies(p))
                                && CategoryOf(m, name).Some? && Blocks(p, group, CategoryOf(m, name).value)
  }

  lemma CategoryBlockedIff(c: Config, ops: seq<Op>, name: string, group: int)
    ensures var after := ApplyAll(c, ops);
            CategoryBlocked(c, ops, name, group) <==>
            && group > 0 && CategoryOf(after.categories, name).Some?
            && Blocks(after.policies, group, CategoryOf(after.categories, name).value)
  {
    var after := ApplyAll(c, ops);
    MapSeenIff(c, ops, SetCategories(after.categories));
    MapSeenIff(c, ops, SetPolicies(after.policies));
    forall m, p | MapSeen(c, ops, SetCategories(m)) && MapSeen(c, ops, SetPolicies(p))
      ensures m == after.categories && p == after.policies
    {
      MapSeenIff(c, ops, SetCategories(m));
      MapSeenIff(c, ops, SetPolicies(p));
    }
  }

  /** Exactly when a query beside reloads is blocked: its first read does not find the name in the
      whitelist as cleared and refilled so far, and its second read finds it in the blacklist, or
      its third finds its category blocked. */
  lemma BlockedIff(c: Config, trace: seq<Step>, r1: nat, r2: nat, r3: nat, domain: string, group: int)
    requires r1 <= r2 <= r3 <= |trace|
    ensures var name := Normalize(domain);
            VerdictAt(c, trace, r1, r2, r3, domain, group).action == Block <==>
            && !SeenIn(c, Ops(trace[..r1]), White, name)
            && (SeenIn(c, Ops(trace[..r2]), Black, name) || CategoryBlocked(c, Ops(trace[..r3]), name, group))
  {
    var name := Normalize(domain);
    SeenInIff(c, Ops(trace[..r1]), White, name);
    SeenInIff(c, Ops(trace[..r2]), Black, name);
    CategoryBlockedIff(c, Ops(trace[..r3]), name, group);
  }

  /** And exactly when it finds the name whitelisted. */
  lemma WhitelistedIff(c: Config, trace: seq<Step>, r1: nat, r2: nat, r3: nat, domain: string, group: int)
    requires r1 <= r2 <= r3 <= |trace|
    ensures VerdictAt(c, trace, r1, r2, r3, domain, group).reason == "whitelist" <==>
            SeenIn(c, Ops(trace[..r1]), White, Normalize(domain))
  {
    SeenInIff(c, Ops(trace[..r1]), White, Normalize(domain));
  }

  /** A reload of one name that stands in both lists. */
  function GapTrace(d: string): seq<Step> {
    [Step(0, Clear(Black)), Step(0, Clear(White)), Step(0, Add(Black, d)), Step(0, Add(White, d))]
  }

  lemma GapInterleaves(d: string)
    ensures Interleaving(GapTrace(d), [ReloadOps([d], [d])])
  {
    var trace := GapTrace(d);
    assert ReloadOps([d], [d]) == Ops(trace);
    OneReloader(trace);
  }

  lemma CoveredByItself(names: set<string>, n: string)
    requires n in names && n != ""
    ensures Covered(names, n)
  {
    assert n[0..] == n;
    assert CoveredAt(names, n, 0);
  }

  lemma GapStates(c: Config, d: string)
    requires Normalize(d) == d
    ensures d in ApplyAll(c, Ops(GapTrace(d))).white
    ensures var gap := Ops(GapTrace(d)[..3]); ApplyAll(c, gap).white == {} && d in ApplyAll(c, gap).black
  {
    var ops := Ops(GapTrace(d));
    assert ops[..3] == Ops(GapTrace(d)[..3]);
    ContentSinceClear(c, ops, White, d);
    assert AddsAfterClear(ops, White, d, 3);
    ContentSinceClear(c, ops[..3], Black, d);
    assert AddsAfterClear(ops[..3], Black, d, 2);
    forall n ensures n !in ApplyAll(c, ops[..3]).white {
      ContentSinceClear(c, ops[..3], White, n);
    }
  }

  /** So the priority of the whitelist can fail while a reload runs: any name in both lists, being
      whitelisted before and after, is blocked for a query that reads in between. */
  lemma WhitelistGap(c: Config, d: string, group: int)
    requires Normalize(d) == d && d in c.white
    ensures Interleaving(GapTrace(d), [ReloadOps([d], [d])])
    ensures Covered(c.white, d) && Covered(ApplyAll(c, Ops(GapTrace(d))).white, d)
    ensures VerdictAt(c, GapTrace(d), 3, 3, 3, d, group) == Verdict(Block, "blacklist", 0)
  {
    GapInterleaves(d);
    GapStates(c, d);
    CoveredByItself(c.white, d);
    CoveredByItself(ApplyAll(c, Ops(GapTrace(d))).white, d);
    CoveredByItself(ApplyAll(c, Ops(GapTrace(d)[..3])).black, d);
  }
}
