/** The relational side: the tables behind the lists, the row loops that read them, and the
    transactions that replace part of them. */
module Store {
  import opened Wrappers
  import opened ListText

  const BLACKLIST := 0
  const WHITELIST := 1

  datatype ListInfo = ListInfo(active: bool, listType: int)

  /** blocklists, blocklist_entries, blocklist_categories and policies. */
  datatype Tables = Tables(
    lists: map<int, ListInfo>,
    entries: set<(int, string)>,
    listCategories: set<(int, int)>,
    policies: set<(int, int)>)

  // ---------- what the tables say ----------

  predicate ActiveEntry(db: Tables, id: int, domain: string) {
    id in db.lists && db.lists[id].active && (id, domain) in db.entries
  }

  ghost predicate HasCategory(db: Tables, id: int) {
    exists c :: (id, c) in db.listCategories
  }

  /** The domain stands in an active list of this type that has no category. */
  ghost predicate DomainInList(db: Tables, listType: int, domain: string) {
    exists id :: ActiveEntry(db, id, domain) && db.lists[id].listType == listType && !HasCategory(db, id)
  }

  /** The domain stands in an active list of this category. */
  ghost predicate DomainInCategory(db: Tables, category: int, domain: string) {
    exists id :: ActiveEntry(db, id, domain) && (id, category) in db.listCategories
  }

  // ---------- reading rows ----------

  datatype ListRow = ListRow(domain: string, listType: int)

  /** The domains of the rows of one list type, in row order. */
  function OfType(rows: seq<Option<ListRow>>, listType: int): seq<string> {
    if rows == [] then []
    else
      var last := rows[|rows| - 1];
      OfType(rows[..|rows| - 1], listType)
      + (if last.Some? && last.value.listType == listType then [last.value.domain] else [])
  }

  /** A row that does not scan, or an iteration error at the end, fails the whole load. */
  method LoadActiveBlocklistEntries(queryOk: bool, rows: seq<Option<ListRow>>, iterationOk: bool)
    returns (r: Result<(seq<string>, seq<string>)>)
    ensures r.Success? <==> queryOk && iterationOk && None !in rows
    ensures r.Success? ==> r.value == (OfType(rows, BLACKLIST), OfType(rows, WHITELIST))
  {
    if !queryOk {
      return Failure;
    }
    var blacklist, whitelist := [], [];
    for i := 0 to |rows|
      invariant None !in rows[..i]
      invariant blacklist == OfType(rows[..i], BLACKLIST) && whitelist == OfType(rows[..i], WHITELIST)
    {
      assert rows[..i + 1][..i] == rows[..i];
      if rows[i].None? {
        return Failure;
      }
      var row := rows[i].value;
      if row.listType == BLACKLIST {
        blacklist := blacklist + [row.domain];
      } else if row.listType == WHITELIST {
        whitelist := whitelist + [row.domain];
      }
    }
    assert rows[..|rows|] == rows;
    if !iterationOk {
      return Failure;
    }
    return Success((blacklist, whitelist));
  }

  lemma {:induction false} OfTypeContains(rows: seq<Option<ListRow>>, listType: int, domain: string)
    ensures domain in OfType(rows, listType) <==> Some(ListRow(domain, listType)) in rows
  {
    if rows != [] {
      OfTypeContains(rows[..|rows| - 1], listType, domain);
      assert rows == rows[..|rows| - 1] + [rows[|rows| - 1]];
    }
  }

  /** The domains come in the order of their rows. */
  lemma {:induction false} OfTypeInOrder(rows: seq<Option<ListRow>>, more: seq<Option<ListRow>>, listType: int,
                                         domain: string)
    ensures OfType(rows + more, listType) == OfType(rows, listType) + OfType(more, listType)
    ensures OfType([Some(ListRow(domain, listType))], listType) == [domain]
    decreases |more|
  {
    if more == [] {
      assert rows + more == rows;
    } else {
      var all, init := rows + more, more[..|more| - 1];
      assert all[..|all| - 1] == rows + init && all[|all| - 1] == more[|more| - 1];
      OfTypeInOrder(rows, init, listType, domain);
    }
  }

  /** The domains of the rows of one category, in row order; rows that do not scan are skipped. */
  function OfCategory(rows: seq<Option<(int, string)>>, category: int): seq<string> {
    if rows == [] then []
    else
      var last := rows[|rows| - 1];
      OfCategory(rows[..|rows| - 1], category)
      + (if last.Some? && last.value.0 == category then [last.value.1] else [])
  }

  function At(m: map<int, seq<string>>, c: int): seq<string> {
    if c in m then m[c] else []
  }

  /** The map holds exactly the categories of the readable rows, each with its domains in row order. */
  ghost predicate Groups(m: map<int, seq<string>>, rows: seq<Option<(int, string)>>) {
    && (forall c :: At(m, c) == OfCategory(rows, c))
    && forall c :: c in m ==> m[c] != []
  }

  lemma OfCategoryNext(rows: seq<Option<(int, string)>>, i: nat, c: int)
    requires i < |rows|
    ensures OfCategory(rows[..i + 1], c) ==
            OfCategory(rows[..i], c) + (if rows[i].Some? && rows[i].value.0 == c then [rows[i].value.1] else [])
  {
    assert rows[..i + 1][..i] == rows[..i];
  }

  function AddRow(m: map<int, seq<string>>, row: Option<(int, string)>): map<int, seq<string>> {
    match row
    case None => m
    case Some((c, domain)) => m[c := At(m, c) + [domain]]
  }

  lemma GroupsNext(m: map<int, seq<string>>, rows: seq<Option<(int, string)>>, i: nat)
    requires i < |rows| && Groups(m, rows[..i])
    ensures Groups(AddRow(m, rows[i]), rows[..i + 1])
  {
    forall c ensures At(AddRow(m, rows[i]), c) == OfCategory(rows[..i + 1], c) {
      OfCategoryNext(rows, i, c);
    }
  }

  method LoadCategoryDomains(queryOk: bool, rows: seq<Option<(int, string)>>)
    returns (r: Result<map<int, seq<string>>>)
    ensures r.Success? <==> queryOk
    ensures r.Success? ==> Groups(r.value, rows)
  {
    if !queryOk {
      return Failure;
    }
    var result: map<int, seq<string>> := map[];
    for i := 0 to |rows|
      invariant Groups(result, rows[..i])
    {
      GroupsNext(result, rows, i);
      if rows[i].None? {
        continue;
      }
      var (c, domain) := rows[i].value;
      result := result[c := (if c in result then result[c] else []) + [domain]];
    }
    assert rows[..|rows|] == rows;
    return Success(result);
  }

  lemma {:induction false} OfCategoryContains(rows: seq<Option<(int, string)>>, category: int, domain: string)
    ensures domain in OfCategory(rows, category) <==> Some((category, domain)) in rows
  {
    if rows != [] {
      OfCategoryContains(rows[..|rows| - 1], category, domain);
      assert rows == rows[..|rows| - 1] + [rows[|rows| - 1]];
    }
  }

  lemma {:induction false} OfCategoryInOrder(rows: seq<Option<(int, string)>>, more: seq<Option<(int, string)>>,
                                             category: int, domain: string)
    ensures OfCategory(rows + more, category) == OfCategory(rows, category) + OfCategory(more, category)
    ensures OfCategory([Some((category, domain))], category) == [domain]
    decreases |more|
  {
    if more == [] {
      assert rows + more == rows;
    } else {
      var all, init := rows + more, more[..|more| - 1];
      assert all[..|all| - 1] == rows + init && all[|all| - 1] == more[|more| - 1];
      OfCategoryInOrder(rows, init, category, domain);
    }
  }

  /** The lookup policies[group][category], false when either key is missing. */
  predicate Blocks(policies: map<int, map<int, bool>>, group: int, category: int) {
    group in policies && category in policies[group] && policies[group][category]
  }

  method LoadGroupPolicies(queryOk: bool, rows: seq<Option<(int, int)>>)
    returns (r: Result<map<int, map<int, bool>>>)
    ensures r.Success? <==> queryOk
    ensures r.Success? ==> forall g, c :: Blocks(r.value, g, c) <==> Some((g, c)) in rows
  {
    if !queryOk {
      return Failure;
    }
    var result: map<int, map<int, bool>> := map[];
    for i := 0 to |rows|
      invariant forall g, c :: Blocks(result, g, c) <==> Some((g, c)) in rows[..i]
    {
      assert rows[..i + 1] == rows[..i] + [rows[i]];
      if rows[i].None? {
        continue;
      }
      var (g, c) := rows[i].value;
      if g !in result {
        result := result[g := map[]];
      }
      result := result[g := result[g][c := true]];
    }
    assert rows[..|rows|] == rows;
    return Success(result);
  }

  // ---------- transactions ----------

  class Database {
    var tables: Tables

    constructor (t: Tables)
      ensures tables == t
    {
      tables := t;
    }
  }

  /** A PostgreSQL transaction: the first failing statement aborts it, and an aborted transaction
      accepts no further statement and cannot commit. */
  class Transaction {
    var work: Tables
    var aborted: bool

    constructor (db: Database)
      ensures work == db.tables && !aborted
    {
      work := db.tables;
      aborted := false;
    }

    method Exec(changed: Tables, ok: bool) returns (done: bool)
      modifies this
      ensures done == (ok && !old(aborted)) && aborted == !done
      ensures work == if done then changed else old(work)
    {
      done := ok && !aborted;
      if done {
        work := changed;
      } else {
        aborted := true;
      }
    }

    method Commit(db: Database, ok: bool) returns (done: bool)
      modifies db
      ensures done == (ok && !aborted)
      ensures db.tables == if done then work else old(db.tables)
    {
      done := ok && !aborted;
      if done {
        db.tables := work;
      }
    }
  }

  /** Which statements of a transaction the server accepts. */
  datatype TxOutcome = TxOutcome(begin: bool, delete: bool, insert: seq<bool>, update: bool, commit: bool)

  predicate AllAccepted(io: TxOutcome, n: nat) {
    io.begin && io.delete && (forall i :: 0 <= i < n && i < |io.insert| ==> io.insert[i]) && io.update && io.commit
  }

  function WithoutGroup(t: Tables, group: int): Tables {
    t.(policies := set p | p in t.policies && p.0 != group)
  }

  function WithPolicies(t: Tables, group: int, categories: seq<int>): Tables {
    t.(policies := t.policies + set c | c in categories :: (group, c))
  }

  /** All the categories of the group are replaced, or nothing changes (there is no update
      statement in this transaction). */
  method SetGroupPolicy(db: Database, group: int, categories: seq<int>, io: TxOutcome) returns (failed: bool)
    requires |io.insert| == |categories|
    modifies db
    ensures failed <==> !AllAccepted(io.(update := true), |categories|)
    ensures db.tables ==
            if failed then old(db.tables)
            else WithPolicies(WithoutGroup(old(db.tables), group), group, categories)
  {
    if !io.begin {
      return true;
    }
    var tx := new Transaction(db);
    var done := tx.Exec(WithoutGroup(tx.work, group), io.delete);
    if !done {
      return true;
    }
    for i := 0 to |categories|
      invariant fresh(tx) && db.tables == old(db.tables) && !tx.aborted
      invariant tx.work == WithPolicies(WithoutGroup(old(db.tables), group), group, categories[..i])
      invariant forall j :: 0 <= j < i ==> io.insert[j]
    {
      assert categories[..i + 1] == categories[..i] + [categories[i]];
      done := tx.Exec(WithPolicies(tx.work, group, [categories[i]]), io.insert[i]);
      if !done {
        return true;
      }
    }
    assert categories[..|categories|] == categories;
    done := tx.Commit(db, io.commit);
    return !done;
  }

  function WithoutEntries(t: Tables, id: int): Tables {
    t.(entries := set e | e in t.entries && e.0 != id)
  }

  function WithEntries(t: Tables, id: int, domains: seq<string>): Tables {
    t.(entries := t.entries + set d | d in domains :: (id, d))
  }

  function Replaced(t: Tables, id: int, domains: seq<string>): Tables {
    WithEntries(WithoutEntries(t, id), id, domains)
  }

  /** The insert loop shared by both updaters: it goes on after a failed insert, which leaves the
      transaction aborted. */
  method InsertAll(tx: Transaction, id: int, domains: seq<string>, insert: seq<bool>) returns (count: nat)
    requires |insert| == |domains|
    modifies tx
    ensures tx.aborted == (old(tx.aborted) || exists i :: 0 <= i < |insert| && !insert[i])
    ensures !tx.aborted ==> tx.work == WithEntries(old(tx.work), id, domains) && count == |domains|
    ensures count <= |domains|
  {
    count := 0;
    for i := 0 to |domains|
      invariant count <= i
      invariant tx.aborted == (old(tx.aborted) || exists j :: 0 <= j < i && !insert[j])
      invariant !tx.aborted ==> tx.work == WithEntries(old(tx.work), id, domains[..i]) && count == i
    {
      assert domains[..i + 1] == domains[..i] + [domains[i]];
      var done := tx.Exec(WithEntries(tx.work, id, [domains[i]]), insert[i]);
      if done {
        count := count + 1;
      }
    }
    assert domains[..|domains|] == domains;
  }

  /** The periodic update: the list is replaced by a non-empty, fully read download through a
      fully accepted transaction, or nothing changes. */
  method UpdateList(db: Database, id: int, source: Source, io: TxOutcome)
    requires source.Body? ==> |io.insert| == |Domains(source.scan.lines)|
    modifies db
    ensures var ok := source.Body? && !source.scan.failed && Domains(source.scan.lines) != []
                      && AllAccepted(io, |io.insert|);
            db.tables == if ok then Replaced(old(db.tables), id, Domains(source.scan.lines)) else old(db.tables)
  {
    var fetched := FetchDomains(source);
    if fetched.failed || |fetched.domains| == 0 || !io.begin {
      return;
    }
    var tx := new Transaction(db);
    var done := tx.Exec(WithoutEntries(tx.work, id), io.delete);
    if !done {
      return;
    }
    var count := InsertAll(tx, id, fetched.domains, io.insert);
    done := tx.Exec(tx.work, io.update);
    if !done {
      return;
    }
    var _ := tx.Commit(db, io.commit);
  }

  /** The update behind the API ignores every statement's error and still commits all or nothing,
      because the server keeps the transaction aborted. */
  method DownloadOne(db: Database, id: int, source: Source, io: TxOutcome) returns (result: int)
    requires source.Body? ==> |io.insert| == |Domains(source.scan.lines)|
    modifies db
    ensures var ok := source.Body? && !source.scan.failed && Domains(source.scan.lines) != []
                      && AllAccepted(io, |io.insert|);
            && db.tables == (if ok then Replaced(old(db.tables), id, Domains(source.scan.lines)) else old(db.tables))
            && (ok ==> result == |Domains(source.scan.lines)|)
  {
    var fetched := FetchDomains(source);
    if fetched.failed {
      return -1;
    }
    if |fetched.domains| == 0 {
      return 0;
    }
    if !io.begin {
      return -1;
    }
    var tx := new Transaction(db);
    var _ := tx.Exec(WithoutEntries(tx.work, id), io.delete);
    var count := InsertAll(tx, id, fetched.domains, io.insert);
    var _ := tx.Exec(tx.work, io.update);
    var _ := tx.Commit(db, io.commit);
    return count;
  }
}
