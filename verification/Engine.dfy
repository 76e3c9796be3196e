/** The policy engine: whitelist, blacklist, then the category of the nearest categorised
    ancestor against the policy of the group; and what its maps mean in terms of the tables
    they were loaded from. */
module Engine {
  import opened Wrappers
  import opened DomainNames
  import opened Blacklists
  import opened Store

  datatype Action = Allow | Block

  datatype Verdict = Verdict(action: Action, reason: string, categoryID: int)

  // ---------- the category walk ----------

  /** The category of the first parent that is mapped, parents being the label lists that remain
      after dropping one label or more, while two remain. */
  function ParentCategory(categories: map<string, int>, labels: seq<string>): Option<int> {
    if |labels| < 3 then None
    else if DomainOf(labels[1..]) in categories then Some(categories[DomainOf(labels[1..])])
    else ParentCategory(categories, labels[1..])
  }

  function CategoryOf(categories: map<string, int>, name: string): Option<int> {
    if name in categories then Some(categories[name]) else ParentCategory(categories, DomainLabels(name))
  }

  ghost function Decide(white: set<string>, black: set<string>, categories: map<string, int>,
                        policies: map<int, map<int, bool>>, domain: string, group: int): Verdict
  {
    var name := Normalize(domain);
    var category := CategoryOf(categories, name);
    if Covered(white, name) then Verdict(Allow, "whitelist", 0)
    else if Covered(black, name) then Verdict(Block, "blacklist", 0)
    else if group > 0 && category.Some? && Blocks(policies, group, category.value) then
      Verdict(Block, "category", category.value)
    else Verdict(Allow, "", 0)
  }

  /** A list that is not there matches nothing. */
  ghost function Names(list: Blacklist?): set<string>
    reads list
  {
    if list == null then {} else list.domains
  }

  class Engine {
    const blacklist: Blacklist?
    const whitelist: Blacklist?
    var domainCategories: map<string, int>
    var groupPolicies: map<int, map<int, bool>>

    constructor (blacklist: Blacklist?, whitelist: Blacklist?)
      ensures this.blacklist == blacklist && this.whitelist == whitelist
      ensures domainCategories == map[] && groupPolicies == map[]
    {
      this.blacklist := blacklist;
      this.whitelist := whitelist;
      domainCategories := map[];
      groupPolicies := map[];
    }

    /** Fills the map category by category, in whatever order the map iteration takes. */
    method LoadCategories(catDomains: map<int, seq<string>>) returns (ghost order: seq<int>)
      modifies this`domainCategories
      ensures Enumerates(order, catDomains.Keys)
      ensures domainCategories == Replay(catDomains, order)
    {
      order := [];
      domainCategories := map[];
      var left := catDomains.Keys;
      while left != {}
        invariant left <= catDomains.Keys
        invariant Enumerates(order, catDomains.Keys - left)
        invariant domainCategories == Replay(catDomains, order)
      {
        HasElement(left);
        var category :| category in left;
        AssignAll(catDomains[category], category);
        EnumeratesAppend(order, catDomains.Keys - left, category);
        ReplayAppend(catDomains, order, category);
        order := order + [category];
        left := left - {category};
        assert catDomains.Keys - left == catDomains.Keys - (left + {category}) + {category};
      }
    }

    /** The inner loop of LoadCategories. */
    method AssignAll(domains: seq<string>, category: int)
      modifies this`domainCategories
      ensures domainCategories == old(domainCategories) + Marked(Normalized(domains), category)
    {
      for i := 0 to |domains|
        invariant domainCategories == old(domainCategories) + Marked(Normalized(domains[..i]), category)
      {
        NormalizedAppend(domains[..i], domains[i]);
        assert domains[..i + 1] == domains[..i] + [domains[i]];
        MarkedAppend(old(domainCategories), Normalized(domains[..i]), Normalize(domains[i]), category);
        domainCategories := domainCategories[Normalize(domains[i]) := category];
      }
      assert domains[..|domains|] == domains;
    }

    method LoadPolicies(policies: map<int, map<int, bool>>)
      modifies this`groupPolicies
      ensures groupPolicies == policies
    {
      groupPolicies := policies;
    }

    method FindParentCategory(domain: string) returns (category: int, found: bool)
      ensures ParentCategory(domainCategories, DomainLabels(domain)) == if found then Some(category) else None
    {
      var parts := SplitDomain(domain);
      var i := 1;
      while i < |parts| - 1
        invariant 1 <= i && (parts != [] ==> i <= |parts|)
        invariant parts != [] ==>
                    ParentCategory(domainCategories, parts) == ParentCategory(domainCategories, parts[i - 1..])
      {
        var parent := JoinDomain(parts[i..]);
        assert parts[i - 1..][1..] == parts[i..];
        if parent in domainCategories {
          return domainCategories[parent], true;
        }
        i := i + 1;
      }
      return 0, false;
    }

    method EvaluateForGroup(domain: string, group: int) returns (r: Verdict)
      ensures r == Decide(Names(whitelist), Names(blacklist), domainCategories, groupPolicies, domain, group)
    {
      if whitelist != null {
        var allowed := whitelist.Contains(domain);
        if allowed {
          return Verdict(Allow, "whitelist", 0);
        }
      }
      if blacklist != null {
        var blocked := blacklist.Contains(domain);
        if blocked {
          return Verdict(Block, "blacklist", 0);
        }
      }
      if group > 0 {
        var name := Normalize(domain);
        var category, found := 0, false;
        if name in domainCategories {
          category, found := domainCategories[name], true;
        } else {
          category, found := FindParentCategory(name);
        }
        if found && group in groupPolicies {
          var blocked := groupPolicies[group];
          if category in blocked && blocked[category] {
            return Verdict(Block, "category", category);
          }
        }
      }
      return Verdict(Allow, "", 0);
    }
  }

  /** The verdict on a name does not depend on its case. */
  lemma VerdictIgnoresCase(white: set<string>, black: set<string>, categories: map<string, int>,
                           policies: map<int, map<int, bool>>, domain: string, other: string, group: int)
    requires SameButCase(domain, other)
    ensures Decide(white, black, categories, policies, domain, group) ==
            Decide(white, black, categories, policies, other, group)
  {
    NormalizeIgnoresCase(domain, other);
  }

  /** A policy entry that is false is as good as none. */
  lemma FalseIsAbsent(white: set<string>, black: set<string>, categories: map<string, int>,
                      policies: map<int, map<int, bool>>, domain: string, group: int, g: int, c: int)
    requires g in policies
    ensures Decide(white, black, categories, policies[g := policies[g][c := false]], domain, group) ==
            Decide(white, black, categories, policies[g := policies[g] - {c}], domain, group)
  {
  }

  // ---------- loading categories in any order ----------

  ghost predicate Enumerates(order: seq<int>, keys: set<int>) {
    && (forall k :: k in order <==> k in keys)
    && forall i, j :: 0 <= i < j < |order| ==> order[i] != order[j]
  }

  ghost function Marked(names: set<string>, category: int): map<string, int> {
    map n | n in names :: category
  }

  lemma MarkedAppend(m: map<string, int>, names: set<string>, n: string, category: int)
    ensures m + Marked(names + {n}, category) == (m + Marked(names, category))[n := category]
  {
  }

  /** The map after the categories of order were written one after the other. */
  ghost function Replay(catDomains: map<int, seq<string>>, order: seq<int>): map<string, int>
    requires forall k :: k in order ==> k in catDomains
  {
    if order == [] then map[]
    else
      var last := order[|order| - 1];
      Replay(catDomains, order[..|order| - 1]) + Marked(Normalized(catDomains[last]), last)
  }

  lemma ReplayAppend(catDomains: map<int, seq<string>>, order: seq<int>, c: int)
    requires c in catDomains && forall k :: k in order ==> k in catDomains
    ensures Replay(catDomains, order + [c]) == Replay(catDomains, order) + Marked(Normalized(catDomains[c]), c)
  {
    assert (order + [c])[..|order|] == order;
  }

  lemma EnumeratesAppend(order: seq<int>, keys: set<int>, k: int)
    requires Enumerates(order, keys) && k !in keys
    ensures Enumerates(order + [k], keys + {k})
  {
  }

  ghost predicate Assigned(catDomains: map<int, seq<string>>, name: string, category: int) {
    category in catDomains && name in Normalized(catDomains[category])
  }

  /** Each assigned name is mapped, to one of its categories; nothing else is. */
  ghost predicate IsCategoryIndex(catDomains: map<int, seq<string>>, m: map<string, int>) {
    && (forall n :: n in m ==> Assigned(catDomains, n, m[n]))
    && (forall n, c :: Assigned(catDomains, n, c) ==> n in m)
  }

  lemma {:induction false} ReplayAssigns(catDomains: map<int, seq<string>>, order: seq<int>)
    requires forall k :: k in order ==> k in catDomains
    ensures var m := Replay(catDomains, order);
            && (forall n :: n in m ==> m[n] in order && Assigned(catDomains, n, m[n]))
            && (forall n, c :: c in order && Assigned(catDomains, n, c) ==> n in m)
  {
    if order != [] {
      var init, last := order[..|order| - 1], order[|order| - 1];
      ReplayAssigns(catDomains, init);
      var m := Replay(catDomains, order);
      forall n | n in m ensures m[n] in order && Assigned(catDomains, n, m[n]) {
        if n in Marked(Normalized(catDomains[last]), last) {
          assert m[n] == last;
        } else {
          assert m[n] == Replay(catDomains, init)[n];
        }
      }
      forall n, c | c in order && Assigned(catDomains, n, c) ensures n in Replay(catDomains, order) {
        assert c in init || c == last;
      }
    }
  }

  /** For every iteration order the result is an index of the assignment. */
  lemma EveryOrderIndexes(catDomains: map<int, seq<string>>, order: seq<int>)
    requires Enumerates(order, catDomains.Keys)
    ensures IsCategoryIndex(catDomains, Replay(catDomains, order))
  {
    ReplayAssigns(catDomains, order);
  }

  ghost predicate Unambiguous(catDomains: map<int, seq<string>>) {
    forall n, c, c' :: Assigned(catDomains, n, c) && Assigned(catDomains, n, c') ==> c == c'
  }

  lemma IndexUnique(catDomains: map<int, seq<string>>, m: map<string, int>, m': map<string, int>)
    requires Unambiguous(catDomains) && IsCategoryIndex(catDomains, m) && IsCategoryIndex(catDomains, m')
    ensures m == m'
  {
    forall n | n in m || n in m' ensures n in m && n in m' && m[n] == m'[n] {
      var c := if n in m then m[n] else m'[n];
      assert Assigned(catDomains, n, c);
    }
  }

  lemma HasElement(keys: set<int>)
    requires keys != {}
    ensures exists k :: k in keys
  {
    if forall k :: k !in keys {
      assert false;
    }
  }

  lemma {:induction false} EnumerateSet(keys: set<int>) returns (order: seq<int>)
    ensures Enumerates(order, keys)
    decreases |keys|
  {
    if keys == {} {
      order := [];
    } else {
      HasElement(keys);
      var k :| k in keys;
      order := EnumerateSet(keys - {k});
      order := order + [k];
    }
  }

  /** An order that ends with category c, after which every name of c maps to c. */
  lemma OrderEndingWith(catDomains: map<int, seq<string>>, n: string, c: int) returns (order: seq<int>)
    requires Assigned(catDomains, n, c)
    ensures Enumerates(order, catDomains.Keys)
    ensures n in Replay(catDomains, order) && Replay(catDomains, order)[n] == c
  {
    var init := EnumerateSet(catDomains.Keys - {c});
    order := init + [c];
    assert order[..|order| - 1] == init;
  }

  /** The loaded map is the same for every iteration order exactly when no normalised domain has
      two categories. */
  lemma OrderIrrelevantIffUnambiguous(catDomains: map<int, seq<string>>)
    ensures Unambiguous(catDomains) <==>
            forall order, order' :: Enumerates(order, catDomains.Keys) && Enumerates(order', catDomains.Keys) ==>
              Replay(catDomains, order) == Replay(catDomains, order')
  {
    if Unambiguous(catDomains) {
      forall order, order' | Enumerates(order, catDomains.Keys) && Enumerates(order', catDomains.Keys)
        ensures Replay(catDomains, order) == Replay(catDomains, order')
      {
        EveryOrderIndexes(catDomains, order);
        EveryOrderIndexes(catDomains, order');
        IndexUnique(catDomains, Replay(catDomains, order), Replay(catDomains, order'));
      }
    } else {
      var n, c, c' :| Assigned(catDomains, n, c) && Assigned(catDomains, n, c') && c != c';
      var order := OrderEndingWith(catDomains, n, c);
      var order' := OrderEndingWith(catDomains, n, c');
    }
  }

  // ---------- the nearest categorised ancestor ----------

  /** q[p..] is the longest of the parents of q that is in the set. */
  ghost predicate NearestParent(names: iset<string>, q: string, p: int) {
    && ParentStart(q, p) && q[p..] in names
    && forall p' :: ParentStart(q, p') && p' < p ==> q[p'..] !in names
  }

  /** s is the name itself when that is in the set, else the longest parent in the set. Parents
      are strict suffixes, of two labels or more, of the name without its empty labels. */
  ghost predicate Nearest(names: iset<string>, name: string, s: string) {
    if name in names then s == name
    else exists p :: NearestParent(names, Squeeze(name), p) && s == Squeeze(name)[p..]
  }

  /** Parent number j is mapped, and no parent before it from number i + 1 on. */
  predicate FirstMapped(categories: map<string, int>, labels: seq<string>, i: int, j: int) {
    && 0 <= i < j < |labels| - 1 && DomainOf(labels[j..]) in categories
    && forall k :: i < k < j ==> DomainOf(labels[k..]) !in categories
  }

  lemma {:induction false} ParentCategoryFrom(categories: map<string, int>, labels: seq<string>, i: nat)
    requires i < |labels|
    ensures match ParentCategory(categories, labels[i..])
            case Some(c) =>
              (exists j :: FirstMapped(categories, labels, i, j) && categories[DomainOf(labels[j..])] == c)
            case None => forall k :: i < k < |labels| - 1 ==> DomainOf(labels[k..]) !in categories
    decreases |labels| - i
  {
    assert labels[i..][1..] == labels[i + 1..];
    if i + 2 < |labels| {
      if DomainOf(labels[i + 1..]) in categories {
        assert FirstMapped(categories, labels, i, i + 1);
      } else {
        ParentCategoryFrom(categories, labels, i + 1);
        if ParentCategory(categories, labels[i..]).Some? {
          var j :| FirstMapped(categories, labels, i + 1, j)
                   && categories[DomainOf(labels[j..])] == ParentCategory(categories, labels[i..]).value;
          assert FirstMapped(categories, labels, i, j);
        }
      }
    }
  }

  lemma FirstMappedIsNearest(categories: map<string, int>, q: string, j: int) returns (p: nat)
    requires Canonical(q) && FirstMapped(categories, DomainLabels(q), 0, j)
    ensures NearestParent((iset n | n in categories), q, p) && q[p..] == DomainOf(DomainLabels(q)[j..])
  {
    ParentAtLabel(q, j);
    p := Offset(q, j);
    forall p' | ParentStart(q, p') && p' < p ensures q[p'..] !in categories {
      var k := LabelAtParent(q, p');
      ParentAtLabel(q, k);
      if j < k { OffsetIncreases(q, j, k); }
    }
  }

  /** findParentCategory finds the category of the longest mapped parent, on every name. */
  lemma ParentCategoryIsNearest(categories: map<string, int>, name: string)
    ensures var keys := iset n | n in categories;
            var q := Squeeze(name);
            match ParentCategory(categories, DomainLabels(name))
            case Some(c) => (exists p :: NearestParent(keys, q, p) && categories[q[p..]] == c)
            case None => forall p :: ParentStart(q, p) ==> q[p..] !in categories
  {
    var q := Squeeze(name);
    SqueezeIsCanonical(name);
    var labels := DomainLabels(q);
    if labels != [] {
      ParentCategoryFrom(categories, labels, 0);
      assert labels[0..] == labels;
    }
    if ParentCategory(categories, labels).Some? {
      var j :| FirstMapped(categories, labels, 0, j)
               && categories[DomainOf(labels[j..])] == ParentCategory(categories, labels).value;
      var p := FirstMappedIsNearest(categories, q, j);
    } else {
      forall p | ParentStart(q, p) ensures q[p..] !in categories {
        var k := LabelAtParent(q, p);
        ParentAtLabel(q, k);
      }
    }
  }

  lemma CategoryIsNearest(categories: map<string, int>, name: string)
    ensures var keys := iset n | n in categories;
            match CategoryOf(categories, name)
            case Some(c) => (exists s :: Nearest(keys, name, s) && s in categories && categories[s] == c)
            case None => forall s :: !Nearest(keys, name, s)
  {
    if name in categories {
      assert Nearest((iset n | n in categories), name, name);
    } else {
      ParentCategoryIsNearest(categories, name);
      var keys := iset n | n in categories;
      var q := Squeeze(name);
      if CategoryOf(categories, name).Some? {
        var p :| NearestParent(keys, q, p) && categories[q[p..]] == CategoryOf(categories, name).value;
        assert Nearest(keys, name, q[p..]);
      }
    }
  }

  lemma NearestUnique(names: iset<string>, name: string, s: string, s': string)
    requires Nearest(names, name, s) && Nearest(names, name, s')
    ensures s == s'
  {
    if name !in names {
      var q := Squeeze(name);
      var p :| NearestParent(names, q, p) && s == q[p..];
      var p' :| NearestParent(names, q, p') && s' == q[p'..];
    }
  }

  /** For a name without empty labels the category walk tries the suffixes that Contains tries,
      except a strict suffix of a single label. */
  lemma WalksDifferInOneLabel(name: string, p: int)
    requires WellFormed(name) && 0 <= p < |name|
    ensures Squeeze(name) == name
    ensures LabelStart(name, p) <==>
            p == 0 || ParentStart(name, p) || (name[p - 1] == '.' && forall q :: p <= q < |name| - 1 ==> name[q] != '.')
  {
    JoinUndoesSplit(name);
  }

  // ---------- the verdict on the tables ----------

  ghost predicate InList(db: Tables, listType: int, name: string) {
    exists d :: DomainInList(db, listType, d) && Normalize(d) == name
  }

  ghost predicate InCategory(db: Tables, category: int, name: string) {
    exists d :: DomainInCategory(db, category, d) && Normalize(d) == name
  }

  ghost predicate HasSomeCategory(db: Tables, name: string) {
    exists c :: InCategory(db, c, name)
  }

  ghost function Categorised(db: Tables): iset<string> {
    iset n | HasSomeCategory(db, n)
  }

  /** Some label suffix of the name stands in an active uncategorised list of the type, or in the
      names read from the list file. */
  ghost predicate Listed(db: Tables, listType: int, file: set<string>, name: string) {
    exists p :: 0 <= p < |name| && LabelStart(name, p) && (InList(db, listType, name[p..]) || name[p..] in file)
  }

  /** The verdict as the tables alone define it. Where a name has several categories, any of them
      may decide. */
  ghost predicate TableVerdict(db: Tables, fileBlack: set<string>, fileWhite: set<string>,
                               domain: string, group: int, r: Verdict)
  {
    var name := Normalize(domain);
    if Listed(db, WHITELIST, fileWhite, name) then r == Verdict(Allow, "whitelist", 0)
    else if Listed(db, BLACKLIST, fileBlack, name) then r == Verdict(Block, "blacklist", 0)
    else if group <= 0 || forall s :: !Nearest(Categorised(db), name, s) then r == Verdict(Allow, "", 0)
    else exists s, c :: Nearest(Categorised(db), name, s) && InCategory(db, c, s)
                        && r == (if (group, c) in db.policies then Verdict(Block, "category", c)
                                 else Verdict(Allow, "", 0))
  }

  /** The in-memory sets and maps are an index over the tables and the list files. */
  ghost predicate Indexes(db: Tables, fileBlack: set<string>, fileWhite: set<string>, white: set<string>,
                          black: set<string>, categories: map<string, int>, policies: map<int, map<int, bool>>)
  {
    && (forall n :: n in white <==> InList(db, WHITELIST, n) || n in fileWhite)
    && (forall n :: n in black <==> InList(db, BLACKLIST, n) || n in fileBlack)
    && (forall n :: n in categories ==> InCategory(db, categories[n], n))
    && (forall n, c :: InCategory(db, c, n) ==> n in categories)
    && (forall g, c :: Blocks(policies, g, c) <==> (g, c) in db.policies)
  }

  lemma CoveredIffListed(db: Tables, listType: int, file: set<string>, names: set<string>, name: string)
    requires forall n :: n in names <==> InList(db, listType, n) || n in file
    ensures Covered(names, name) <==> Listed(db, listType, file, name)
  {
    if Covered(names, name) {
      var p :| CoveredAt(names, name, p);
    }
    if Listed(db, listType, file, name) {
      var p :| 0 <= p < |name| && LabelStart(name, p) && (InList(db, listType, name[p..]) || name[p..] in file);
      assert CoveredAt(names, name, p);
    }
  }

  /** Evaluating against the index gives the verdict on the tables, for every name and group. */
  lemma IndexedVerdict(db: Tables, fileBlack: set<string>, fileWhite: set<string>, white: set<string>,
                       black: set<string>, categories: map<string, int>, policies: map<int, map<int, bool>>,
                       domain: string, group: int)
    requires Indexes(db, fileBlack, fileWhite, white, black, categories, policies)
    ensures TableVerdict(db, fileBlack, fileWhite, domain, group,
                         Decide(white, black, categories, policies, domain, group))
  {
    var name := Normalize(domain);
    CoveredIffListed(db, WHITELIST, fileWhite, white, name);
    CoveredIffListed(db, BLACKLIST, fileBlack, black, name);
    CategoryIsNearest(categories, name);
    assert (iset n | n in categories) == Categorised(db);
  }

  ghost predicate OneCategoryEach(db: Tables) {
    forall n, c, c' :: InCategory(db, c, n) && InCategory(db, c', n) ==> c == c'
  }

  /** When every normalised domain has at most one category the tables leave one verdict. */
  lemma TableVerdictUnique(db: Tables, fileBlack: set<string>, fileWhite: set<string>, domain: string, group: int,
                           r: Verdict, r': Verdict)
    requires OneCategoryEach(db)
    requires TableVerdict(db, fileBlack, fileWhite, domain, group, r)
             && TableVerdict(db, fileBlack, fileWhite, domain, group, r')
    ensures r == r'
  {
    var name := Normalize(domain);
    forall s, s' | Nearest(Categorised(db), name, s) && Nearest(Categorised(db), name, s') ensures s == s' {
      NearestUnique(Categorised(db), name, s, s');
    }
  }

  // ---------- what one list contributes ----------

  /** The domain stands in this list and in no other. */
  predicate OnlyIn(db: Tables, id: int, domain: string) {
    (id, domain) in db.entries && forall e :: e in db.entries && e.1 == domain ==> e.0 == id
  }

  /** The list is active, of this type, and has no category. */
  ghost predicate Plain(db: Tables, id: int, listType: int) {
    && id in db.lists && db.lists[id].active && db.lists[id].listType == listType
    && forall c :: (id, c) !in db.listCategories
  }

  /** The list is active and has this category. */
  predicate Categorises(db: Tables, id: int, category: int) {
    id in db.lists && db.lists[id].active && (id, category) in db.listCategories
  }

  lemma PlainIff(db: Tables, listType: int, domain: string)
    ensures DomainInList(db, listType, domain) <==> exists id :: (id, domain) in db.entries && Plain(db, id, listType)
  {
    if id :| (id, domain) in db.entries && Plain(db, id, listType) {
      assert ActiveEntry(db, id, domain) && !HasCategory(db, id);
    }
    if DomainInList(db, listType, domain) {
      var id :| ActiveEntry(db, id, domain) && db.lists[id].listType == listType && !HasCategory(db, id);
      assert (id, domain) in db.entries && Plain(db, id, listType);
    }
  }

  /** A list that is not active contributes nothing; an active one without a category blocks or allows
      for every group, by its type, and one with categories does neither, but gives its domains to
      each of them. */
  lemma ListContributes(db: Tables, id: int, domain: string, listType: int, category: int)
    requires OnlyIn(db, id, domain)
    ensures DomainInList(db, listType, domain) <==> Plain(db, id, listType)
    ensures DomainInCategory(db, category, domain) <==> Categorises(db, id, category)
    ensures Categorises(db, id, category) ==> !DomainInList(db, listType, domain)
  {
    PlainIff(db, listType, domain);
    if Categorises(db, id, category) {
      assert ActiveEntry(db, id, domain);
    }
    if DomainInCategory(db, category, domain) {
      var i :| ActiveEntry(db, i, domain) && (i, category) in db.listCategories;
      assert (i, domain).0 == id;
    }
  }

  /** After an update a list contributes exactly what was downloaded, and no other list is affected. */
  lemma UpdatedListContributes(db: Tables, id: int, domains: seq<string>, listType: int, domain: string)
    ensures DomainInList(Replaced(db, id, domains), listType, domain) <==>
            || (domain in domains && Plain(db, id, listType))
            || exists other :: other != id && (other, domain) in db.entries && Plain(db, other, listType)
  {
    var after := Replaced(db, id, domains);
    PlainIff(after, listType, domain);
    assert forall i :: Plain(after, i, listType) <==> Plain(db, i, listType);
    if domain in domains && Plain(db, id, listType) {
      assert (id, domain) in after.entries && Plain(after, id, listType);
    }
  }

  lemma UpdatedListCategorises(db: Tables, id: int, domains: seq<string>, category: int, domain: string)
    ensures DomainInCategory(Replaced(db, id, domains), category, domain) <==>
            || (domain in domains && Categorises(db, id, category))
            || exists other :: other != id && (other, domain) in db.entries && Categorises(db, other, category)
  {
    var after := Replaced(db, id, domains);
    if domain in domains && Categorises(db, id, category) {
      assert ActiveEntry(after, id, domain);
    }
    if other :| other != id && (other, domain) in db.entries && Categorises(db, other, category) {
      assert ActiveEntry(after, other, domain);
    }
    if DomainInCategory(after, category, domain) {
      var i :| ActiveEntry(after, i, domain) && (i, category) in after.listCategories;
      assert Categorises(db, i, category);
    }
  }

  // ---------- from rows to index ----------

  ghost predicate ListQuery(db: Tables, rows: seq<Option<ListRow>>) {
    forall d, t :: Some(ListRow(d, t)) in rows <==> DomainInList(db, t, d)
  }

  ghost predicate CategoryQuery(db: Tables, rows: seq<Option<(int, string)>>) {
    forall c, d :: Some((c, d)) in rows <==> DomainInCategory(db, c, d)
  }

  ghost predicate PolicyQuery(db: Tables, rows: seq<Option<(int, int)>>) {
    forall g, c :: Some((g, c)) in rows <==> (g, c) in db.policies
  }

  lemma ListRowsIndex(db: Tables, rows: seq<Option<ListRow>>, listType: int, name: string)
    requires ListQuery(db, rows)
    ensures name in Normalized(OfType(rows, listType)) <==> InList(db, listType, name)
  {
    if name in Normalized(OfType(rows, listType)) {
      var d :| d in OfType(rows, listType) && Normalize(d) == name;
      OfTypeContains(rows, listType, d);
    }
    if InList(db, listType, name) {
      var d :| DomainInList(db, listType, d) && Normalize(d) == name;
      OfTypeContains(rows, listType, d);
      assert Normalize(d) in Normalized(OfType(rows, listType));
    }
  }

  lemma CategoryRowsIndex(db: Tables, rows: seq<Option<(int, string)>>, catDomains: map<int, seq<string>>, name: string,
                          c: int)
    requires CategoryQuery(db, rows)
    requires Groups(catDomains, rows)
    ensures Assigned(catDomains, name, c) <==> InCategory(db, c, name)
  {
    assert At(catDomains, c) == OfCategory(rows, c);
    if Assigned(catDomains, name, c) {
      var d :| d in catDomains[c] && Normalize(d) == name;
      OfCategoryContains(rows, c, d);
    }
    if InCategory(db, c, name) {
      var d :| DomainInCategory(db, c, d) && Normalize(d) == name;
      OfCategoryContains(rows, c, d);
      assert d in catDomains[c];
    }
  }
}
