/** The in-memory domain set behind both the blacklist and the whitelist. */
module Blacklists {
  import opened DomainNames
  import opened ListText

  // ---------- what membership means ----------

  /** n[p..] is a suffix of n that starts at a label and is in the set. */
  predicate CoveredAt(names: set<string>, n: string, p: int) {
    0 <= p < |n| && LabelStart(n, p) && n[p..] in names
  }

  /** Some non-empty suffix of n at a label start is in the set. */
  ghost predicate Covered(names: set<string>, n: string) {
    exists p :: CoveredAt(names, n, p)
  }

  /** n is x or a name below x. */
  predicate Under(n: string, x: string) {
    x != "" && |x| <= |n| && n[|n| - |x|..] == x && LabelStart(n, |n| - |x|)
  }

  ghost function Normalized(domains: seq<string>): set<string> {
    set d | d in domains :: Normalize(d)
  }

  class Blacklist {
    var domains: set<string>

    constructor ()
      ensures domains == {}
    {
      domains := {};
    }

    method Add(domain: string)
      modifies this
      ensures domains == old(domains) + {Normalize(domain)}
    {
      domains := domains + {Normalize(domain)};
    }

    method Remove(domain: string)
      modifies this
      ensures domains == old(domains) - {Normalize(domain)}
    {
      domains := domains - {Normalize(domain)};
    }

    method Clear()
      modifies this
      ensures domains == {}
    {
      domains := {};
    }

    /** The exact lookup and the walk up the labels find a suffix exactly when there is one. */
    method Contains(domain: string) returns (found: bool)
      ensures found <==> Covered(domains, Normalize(domain))
    {
      var name := Normalize(domain);
      assert name[0..] == name;
      if name in domains {
        assert CoveredAt(domains, name, 0);
        return true;
      }
      var parts := Split(name);
      var i := 1;
      while i < |parts| - 1
        invariant 1 <= i
        invariant forall j :: 1 <= j < i && j < |parts| - 1 ==> Join(parts[j..]) !in domains
      {
        var parent := Join(parts[i..]);
        if parent in domains {
          SuffixAtLabel(name, i);
          LastLabel(name, i);
          assert CoveredAt(domains, name, Offset(name, i));
          return true;
        }
        i := i + 1;
      }
      if Covered(domains, name) {
        WalkFinds(domains, name);
      }
      return false;
    }

    /** Adds every domain of the list. A read error stops the loop but keeps what was added. */
    method LoadFromFile(source: Source) returns (count: nat, failed: bool)
      modifies this
      ensures source.Unreachable? ==> domains == old(domains) && count == 0 && failed
      ensures source.Body? ==>
                && domains == old(domains) + Normalized(Domains(source.scan.lines))
                && count == |Domains(source.scan.lines)|
                && failed == source.scan.failed
    {
      count := 0;
      if source.Unreachable? {
        return 0, true;
      }
      var lines := source.scan.lines;
      for i := 0 to |lines|
        invariant domains == old(domains) + Normalized(Domains(lines[..i]))
        invariant count == |Domains(lines[..i])|
      {
        NextLine(lines, i);
        var line := TrimSpace(lines[i]);
        if line == "" || line[0] == '#' {
          continue;
        }
        var domain := ParseLine(line);
        if domain != "" {
          Add(domain);
          count := count + 1;
        }
      }
      assert lines[..|lines|] == lines;
      failed := source.scan.failed;
    }
  }

  /** What covers a normal name is the name itself or the join of some of its last labels. */
  lemma WalkFinds(names: set<string>, name: string)
    requires EndsWithDot(name) && Covered(names, name)
    ensures name in names || exists j :: 1 <= j < |Split(name)| - 1 && Join(Split(name)[j..]) in names
  {
    var p :| CoveredAt(names, name, p);
    var j := LabelAtStart(name, p);
    SuffixAtLabel(name, j);
    LastLabel(name, j);
    assert name[0..] == name;
    if p > 0 {
      assert name[|name| - 1] == '.';
      assert Join(Split(name)[j..]) in names;
    }
  }

  lemma NormalizedAppend(domains: seq<string>, d: string)
    ensures Normalized(domains + [d]) == Normalized(domains) + {Normalize(d)}
  {
    var all := domains + [d];
    assert d == all[|domains|];
    forall x | x in domains ensures x in all {
    }
  }

  lemma NextLine(lines: seq<string>, i: nat)
    requires i < |lines|
    ensures var d, now, next := LineDomain(lines[i]), Domains(lines[..i]), Domains(lines[..i + 1]);
            && (d == "" ==> Normalized(next) == Normalized(now) && |next| == |now|)
            && (d != "" ==> Normalized(next) == Normalized(now) + {Normalize(d)} && |next| == |now| + 1)
  {
    assert lines[..i + 1][..i] == lines[..i];
    NormalizedAppend(Domains(lines[..i]), LineDomain(lines[i]));
  }

  // ---------- consequences ----------

  lemma CoveredIffUnder(names: set<string>, n: string)
    ensures Covered(names, n) <==> exists x :: x in names && Under(n, x)
  {
    if Covered(names, n) {
      var p :| CoveredAt(names, n, p);
      assert Under(n, n[p..]);
    }
    if x :| x in names && Under(n, x) {
      assert CoveredAt(names, n, |n| - |x|);
    }
  }

  /** Adding a domain adds exactly that name and the names below it. */
  lemma AddCoversExactly(names: set<string>, domain: string, query: string)
    ensures var n := Normalize(query);
            Covered(names + {Normalize(domain)}, n) <==> Covered(names, n) || Under(n, Normalize(domain))
  {
    CoveredIffUnder(names, Normalize(query));
    CoveredIffUnder(names + {Normalize(domain)}, Normalize(query));
  }

  /** A listed domain covers itself however either is written in capitals or small letters, and
      every query is covered alike in any case. */
  lemma CoveredInAnyCase(names: set<string>, domain: string, query: string)
    requires SameButCase(domain, query)
    ensures Covered(names + {Normalize(domain)}, Normalize(query))
    ensures Covered(names, Normalize(query)) <==> Covered(names, Normalize(domain))
  {
    NormalizeIgnoresCase(domain, query);
    assert Normalize(query)[0..] == Normalize(query);
    assert CoveredAt(names + {Normalize(domain)}, Normalize(query), 0);
  }

  /** Removing a domain uncovers exactly the names that no other entry covers. */
  lemma RemoveUncoversExactly(names: set<string>, domain: string, query: string)
    ensures var n := Normalize(query);
            Covered(names - {Normalize(domain)}, n) <==> exists x :: x in names && x != Normalize(domain) && Under(n, x)
  {
    CoveredIffUnder(names - {Normalize(domain)}, Normalize(query));
  }

  lemma UnderIsTransitive(m: string, n: string, x: string)
    requires Under(m, n) && Under(n, x)
    ensures Under(m, x)
  {
    var k := |m| - |n|;
    assert m[|m| - |x|..] == m[k..][|n| - |x|..];
    if |x| < |n| {
      assert m[|m| - |x| - 1] == m[k..][|n| - |x| - 1];
    }
  }

  /** Whatever is below a covered name is covered. */
  lemma CoverageInherited(names: set<string>, m: string, n: string)
    requires Under(m, n) && Covered(names, n)
    ensures Covered(names, m)
  {
    CoveredIffUnder(names, n);
    CoveredIffUnder(names, m);
    var x :| x in names && Under(n, x);
    UnderIsTransitive(m, n, x);
  }

  /** In particular every subdomain of a contained name is contained. */
  lemma SubdomainContained(names: set<string>, sub: string, domain: string)
    requires Trimmed(sub) && Trimmed(domain) && sub != "" && domain != ""
    requires Covered(names, Normalize(domain))
    ensures Covered(names, Normalize(sub + "." + domain))
  {
    NormalizeBelow(sub, domain);
    CoverageBelow(names, ToLower(sub), Normalize(domain));
  }

  lemma CoverageBelow(names: set<string>, head: string, n: string)
    requires n != "" && Covered(names, n)
    ensures Covered(names, head + "." + n)
  {
    var m := head + "." + n;
    assert m[|m| - |n|..] == n;
    assert m[|head|] == '.';
    CoverageInherited(names, m, n);
  }

  /** Loading any well-written list into an empty set gives exactly its names, whether or not its
      last line has a line end. */
  lemma WrittenListLoads(lines: seq<Line>, end: string, last: Line, query: string)
    requires forall i :: 0 <= i < |lines| ==> lines[i].Valid() && OneLine(lines[i].Render())
    requires last.Valid() && OneLine(last.Render())
    requires end == "\n" || end == "\r\n"
    ensures var loaded := Normalized(Domains(ScanLines(Text(Rendered(lines), end, last.Render()), 0)));
            Covered(loaded, Normalize(query)) <==> WrittenAbove(lines + [last], Normalize(query))
  {
    TextReadsBack(lines, end, last);
    CoveredIffWritten(lines + [last], Normalize(query));
  }

  /** Some line of the list names a domain that the name is or lies below. */
  predicate WrittenAbove(lines: seq<Line>, n: string) {
    exists i :: 0 <= i < |lines| && (lines[i].Plain? || lines[i].Hosts?) && Under(n, Normalize(lines[i].domain))
  }

  lemma CoveredIffWritten(lines: seq<Line>, n: string)
    ensures Covered(Normalized(Contributions(lines)), n) <==> WrittenAbove(lines, n)
  {
    var loaded := Normalized(Contributions(lines));
    CoveredIffUnder(loaded, n);
    if x :| x in loaded && Under(n, x) {
      var d :| d in Contributions(lines) && Normalize(d) == x;
      var i := ContributionOf(lines, d);
    }
    if i :| 0 <= i < |lines| && (lines[i].Plain? || lines[i].Hosts?) && Under(n, Normalize(lines[i].domain)) {
      ContributionIn(lines, i);
      assert Normalize(lines[i].domain) in loaded;
    }
  }

  lemma {:induction false} ContributionOf(lines: seq<Line>, d: string) returns (i: nat)
    requires d in Contributions(lines)
    ensures i < |lines| && (lines[i].Plain? || lines[i].Hosts?) && lines[i].domain == d
  {
    var n := |lines| - 1;
    if d in lines[n].Contribution() {
      i := n;
    } else {
      i := ContributionOf(lines[..n], d);
    }
  }

  lemma {:induction false} ContributionIn(lines: seq<Line>, i: nat)
    requires i < |lines| && (lines[i].Plain? || lines[i].Hosts?)
    ensures lines[i].domain in Contributions(lines)
  {
    var n := |lines| - 1;
    if i < n {
      ContributionIn(lines[..n], i);
    }
  }
}
