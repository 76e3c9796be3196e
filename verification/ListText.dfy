/** The text format of domain lists: one domain a line, plain or in hosts-file form, with
    comments. Both readers of that format are here or use what is here. */
module ListText {
  import opened DomainNames

  /** What a bufio.Scanner yields for one input: the lines it delivered, and whether it then
      stopped with an error. */
  datatype Scan = Scan(lines: seq<string>, failed: bool)

  /** A list to read: a file that cannot be opened or a URL that cannot be fetched, or a text. */
  datatype Source = Unreachable | Body(scan: Scan)

  datatype Fetched = Fetched(domains: seq<string>, failed: bool)

  // ---------- strings.Fields ----------

  function WordLength(s: string): (n: nat)
    ensures n <= |s|
  {
    if s == "" || IsSpace(s[0]) then 0 else 1 + WordLength(s[1..])
  }

  function Fields(s: string): seq<string>
    decreases |s|
  {
    if s == "" then []
    else if IsSpace(s[0]) then Fields(s[1..])
    else [s[..WordLength(s)]] + Fields(s[WordLength(s)..])
  }

  // ---------- parseLine ----------

  predicate HostsAddress(field: string) {
    field == "127.0.0.1" || field == "0.0.0.0" || field == "::1"
  }

  function PickField(fields: seq<string>): string {
    if |fields| >= 2 && HostsAddress(fields[0]) then fields[1]
    else if |fields| == 1 then fields[0]
    else ""
  }

  function ParseLine(line: string): string {
    var hash := IndexFrom(line, '#', 0);
    var text := if hash != -1 then TrimSpace(line[..hash]) else line;
    if text == "" then "" else PickField(Fields(text))
  }

  /** The domain that a line contributes, "" for none: the loop body both readers share. */
  function LineDomain(raw: string): string {
    var line := TrimSpace(raw);
    if line == "" || line[0] == '#' then "" else ParseLine(line)
  }

  /** The domains of a list, in the order of its lines. */
  function Domains(lines: seq<string>): seq<string> {
    if lines == [] then []
    else
      var d := LineDomain(lines[|lines| - 1]);
      Domains(lines[..|lines| - 1]) + (if d == "" then [] else [d])
  }

  /** Some line of the list means the domain. */
  predicate SomeLineMeans(lines: seq<string>, d: string) {
    exists i :: 0 <= i < |lines| && LineDomain(lines[i]) == d
  }

  lemma SomeLineMeansAppend(init: seq<string>, last: string, d: string)
    ensures SomeLineMeans(init + [last], d) <==> SomeLineMeans(init, d) || LineDomain(last) == d
  {
    var lines := init + [last];
    assert lines[|init|] == last;
    if i :| 0 <= i < |init| && LineDomain(init[i]) == d {
      assert lines[i] == init[i];
    }
  }

  lemma SomeLineMeansStep(lines: seq<string>, d: string)
    requires lines != []
    ensures var n := |lines| - 1;
            SomeLineMeans(lines, d) <==> SomeLineMeans(lines[..n], d) || LineDomain(lines[n]) == d
  {
    var init, last := lines[..|lines| - 1], lines[|lines| - 1];
    assert lines == init + [last];
    SomeLineMeansAppend(init, last, d);
  }

  lemma DomainsStep(lines: seq<string>, d: string)
    requires lines != []
    ensures var n := |lines| - 1;
            d in Domains(lines) <==> d in Domains(lines[..n]) || (d != "" && LineDomain(lines[n]) == d)
  {
  }

  /** The domains of a list are what its lines mean, where they mean something. */
  lemma {:induction false} DomainsIff(lines: seq<string>, d: string)
    ensures d in Domains(lines) <==> d != "" && SomeLineMeans(lines, d)
  {
    if lines != [] {
      DomainsIff(lines[..|lines| - 1], d);
      DomainsStep(lines, d);
      SomeLineMeansStep(lines, d);
    }
  }

  method FetchDomains(source: Source) returns (r: Fetched)
    ensures source.Unreachable? ==> r == Fetched([], true)
    ensures source.Body? ==> r == Fetched(Domains(source.scan.lines), source.scan.failed)
  {
    if source.Unreachable? {
      return Fetched([], true);
    }
    var lines := source.scan.lines;
    var domains := [];
    for i := 0 to |lines|
      invariant domains == Domains(lines[..i])
    {
      assert lines[..i + 1][..i] == lines[..i];
      var line := TrimSpace(lines[i]);
      if line == "" || line[0] == '#' {
        continue;
      }
      var domain := ParseLine(line);
      if domain != "" {
        domains := domains + [domain];
      }
    }
    assert lines[..|lines|] == lines;
    return Fetched(domains, source.scan.failed);
  }

  // ---------- what a line means ----------

  /** The line up to its first '#'. */
  function Cut(s: string): string {
    if s == "" || s[0] == '#' then "" else [s[0]] + Cut(s[1..])
  }

  predicate NoSpace(s: string) {
    forall i :: 0 <= i < |s| ==> !IsSpace(s[i])
  }

  predicate NoHash(s: string) {
    forall i :: 0 <= i < |s| ==> s[i] != '#'
  }

  lemma CutFirst(c: char, s: string)
    requires c != '#'
    ensures Cut([c] + s) == [c] + Cut(s)
  {
    assert ([c] + s)[1..] == s;
  }

  lemma NextFirst(s: string, t: string)
    requires s != ""
    ensures s + t == [s[0]] + (s[1..] + t)
  {
  }

  lemma {:induction false} CutAppend(s: string, t: string)
    requires NoHash(s)
    ensures Cut(s + t) == s + Cut(t)
  {
    if s == "" {
      assert s + t == t;
    } else {
      CutAppend(s[1..], t);
      CutFirst(s[0], s[1..] + t);
      NextFirst(s, t);
      NextFirst(s, Cut(t));
    }
  }

  lemma CutHere(s: string, k: nat)
    requires k < |s| && s[k] == '#' && NoHash(s[..k])
    ensures Cut(s) == s[..k]
  {
    CutAppend(s[..k], s[k..]);
    assert s == s[..k] + s[k..];
  }

  lemma {:induction false} FieldsOfTrimLeft(s: string)
    ensures Fields(TrimLeft(s)) == Fields(s)
    ensures Cut(TrimLeft(s)) == TrimLeft(Cut(s))
  {
    if s != "" && IsSpace(s[0]) {
      FieldsOfTrimLeft(s[1..]);
      assert Cut(s)[1..] == Cut(s[1..]);
    }
  }

  lemma {:induction false} FieldsAppendSpace(s: string, c: char)
    requires IsSpace(c)
    ensures Fields(s + [c]) == Fields(s)
    decreases |s|
  {
    if s == "" {
      assert (s + [c])[1..] == "";
    } else if IsSpace(s[0]) {
      FieldsAppendSpace(s[1..], c);
      assert (s + [c])[1..] == s[1..] + [c];
    } else {
      WordBeforeSpace(s, c);
      var n := WordLength(s);
      FieldsAppendSpace(s[n..], c);
      assert (s + [c])[n..] == s[n..] + [c] && (s + [c])[..n] == s[..n];
    }
  }

  lemma {:induction false} WordBeforeSpace(s: string, c: char)
    requires IsSpace(c)
    ensures WordLength(s + [c]) == WordLength(s)
  {
    if s != "" {
      WordBeforeSpace(s[1..], c);
      assert (s + [c])[1..] == s[1..] + [c];
    }
  }

  lemma {:induction false} FieldsOfTrimRight(s: string)
    ensures Fields(TrimRight(s)) == Fields(s)
    ensures Fields(Cut(TrimRight(s))) == Fields(Cut(s))
  {
    if s != "" && IsSpace(s[|s| - 1]) {
      var init, c := s[..|s| - 1], s[|s| - 1];
      FieldsOfTrimRight(init);
      assert s == init + [c];
      FieldsAppendSpace(init, c);
      CutLastSpace(init, c);
      if Cut(s) != Cut(init) {
        FieldsAppendSpace(Cut(init), c);
      }
    }
  }

  lemma {:induction false} CutLastSpace(s: string, c: char)
    requires IsSpace(c)
    ensures Cut(s + [c]) == Cut(s) || Cut(s + [c]) == Cut(s) + [c]
  {
    if s == "" {
      assert s + [c] == [c];
      assert [c][1..] == "";
    } else if s[0] != '#' {
      CutLastSpace(s[1..], c);
      assert (s + [c])[1..] == s[1..] + [c];
    }
  }

  lemma ParseLineCuts(line: string)
    ensures ParseLine(line) == PickField(Fields(Cut(line)))
  {
    var hash := IndexFrom(line, '#', 0);
    IndexIsFirst(line, '#', 0);
    if hash != -1 {
      CutHere(line, hash);
      FieldsOfTrimLeft(line[..hash]);
      FieldsOfTrimRight(TrimLeft(line[..hash]));
    } else {
      CutAppend(line, "");
      assert line + "" == line;
    }
  }

  /** Trimming and the comment tests are redundant: a line contributes what its fields before
      the first '#' pick. */
  lemma LineDomainMeaning(raw: string)
    ensures LineDomain(raw) == PickField(Fields(Cut(raw)))
  {
    var left := TrimLeft(raw);
    var line := TrimSpace(raw);
    ParseLineCuts(line);
    FieldsOfTrimLeft(raw);
    FieldsOfTrimLeft(Cut(raw));
    FieldsOfTrimRight(left);
    if line == "" || line[0] == '#' {
      assert Cut(line) == "" && Fields("") == [];
    }
  }

  // ---------- writing a list ----------

  datatype Line =
    | Plain(lead: string, domain: string, tail: string)
    | Hosts(lead: string, address: string, gap: string, domain: string, tail: string)
    | Comment(lead: string, text: string)
    | Blank(lead: string)
  {
    function Render(): string {
      match this
      case Plain(_, _, _) => lead + domain + tail
      case Hosts(_, _, _, _, _) => lead + address + gap + domain + tail
      case Comment(_, _) => lead + "#" + text
      case Blank(_) => lead
    }

    /** Any white space around, any comment behind, and a clean domain. */
    predicate Valid() {
      && AllSpace(lead)
      && match this
         case Plain(_, _, _) => CleanDomain(domain) && CleanTail(tail)
         case Hosts(_, _, _, _, _) =>
           CleanDomain(domain) && CleanTail(tail) && HostsAddress(address) && gap != "" && AllSpace(gap)
         case _ => true
    }

    function Contribution(): seq<string> {
      if Plain? || Hosts? then [domain] else []
    }
  }

  predicate CleanDomain(d: string) {
    d != "" && NoSpace(d) && NoHash(d)
  }

  /** Nothing, or white space and comment. */
  predicate CleanTail(t: string) {
    AllSpace(Cut(t))
  }

  function Contributions(lines: seq<Line>): seq<string> {
    if lines == [] then [] else Contributions(lines[..|lines| - 1]) + lines[|lines| - 1].Contribution()
  }

  lemma {:induction false} FieldsAfterSpace(lead: string, s: string)
    requires AllSpace(lead)
    ensures Fields(lead + s) == Fields(s)
  {
    if lead == "" {
      assert lead + s == s;
    } else {
      FieldsAfterSpace(lead[1..], s);
      assert (lead + s)[1..] == lead[1..] + s;
    }
  }

  lemma {:induction false} WordThenSpace(w: string, s: string)
    requires NoSpace(w) && (s == "" || IsSpace(s[0]))
    ensures WordLength(w + s) == |w|
  {
    if w == "" {
      assert w + s == s;
    } else {
      WordThenSpace(w[1..], s);
      assert (w + s)[1..] == w[1..] + s;
    }
  }

  lemma FieldsOfWord(w: string, s: string)
    requires w != "" && NoSpace(w) && (s == "" || IsSpace(s[0]))
    ensures Fields(w + s) == [w] + Fields(s)
  {
    WordThenSpace(w, s);
    assert (w + s)[..|w|] == w && (w + s)[|w|..] == s;
  }

  lemma FieldsOfSpace(s: string)
    requires AllSpace(s)
    ensures Fields(s) == []
  {
    FieldsAfterSpace(s, "");
    assert s + "" == s;
  }

  lemma AddressIsWord(a: string)
    requires HostsAddress(a)
    ensures a != "" && NoSpace(a) && NoHash(a)
  {
  }

  lemma LeadingWord(lead: string, w: string, line: string)
    requires AllSpace(lead) && CleanDomain(w) && (Cut(line) == "" || IsSpace(Cut(line)[0]))
    ensures Fields(Cut(lead + w + line)) == [w] + Fields(Cut(line))
  {
    assert lead + w + line == lead + (w + line);
    CutAppend(lead, w + line);
    CutAppend(w, line);
    FieldsAfterSpace(lead, w + Cut(line));
    FieldsOfWord(w, Cut(line));
  }

  lemma PlainReadsBack(lead: string, d: string, tail: string)
    requires AllSpace(lead) && CleanDomain(d) && CleanTail(tail)
    ensures Fields(Cut(lead + d + tail)) == [d]
  {
    LeadingWord(lead, d, tail);
    FieldsOfSpace(Cut(tail));
  }

  lemma HostsReadsBack(lead: string, a: string, gap: string, d: string, tail: string)
    requires AllSpace(lead) && CleanDomain(d) && CleanTail(tail)
    requires HostsAddress(a) && gap != "" && AllSpace(gap)
    ensures Fields(Cut(lead + a + gap + d + tail)) == [a, d]
  {
    AddressIsWord(a);
    FieldsOfWords(lead, a, gap, d, tail);
    FieldsOfSpace(Cut(tail));
  }

  /** Of a line with two words or more the second counts, when the first is one of the three
      addresses that hosts files redirect to, and otherwise nothing, whatever follows. */
  lemma WordsOfLine(lead: string, first: string, gap: string, second: string, rest: string)
    requires AllSpace(lead) && CleanDomain(first) && CleanDomain(second) && gap != "" && AllSpace(gap)
    requires Cut(rest) == "" || IsSpace(Cut(rest)[0])
    ensures LineDomain(lead + first + gap + second + rest) ==
            if first in ["127.0.0.1", "0.0.0.0", "::1"] then second else ""
  {
    LineDomainMeaning(lead + first + gap + second + rest);
    FieldsOfWords(lead, first, gap, second, rest);
    PickOfTwo(first, second, Fields(Cut(rest)));
  }

  lemma PickOfTwo(first: string, second: string, more: seq<string>)
    ensures PickField([first, second] + more) == if first in ["127.0.0.1", "0.0.0.0", "::1"] then second else ""
  {
  }

  lemma FieldsOfWords(lead: string, first: string, gap: string, second: string, rest: string)
    requires AllSpace(lead) && CleanDomain(first) && CleanDomain(second) && gap != "" && AllSpace(gap)
    requires Cut(rest) == "" || IsSpace(Cut(rest)[0])
    ensures Fields(Cut(lead + first + gap + second + rest)) == [first, second] + Fields(Cut(rest))
  {
    var line := gap + second + rest;
    assert lead + first + gap + second + rest == lead + first + line;
    assert line == gap + (second + rest);
    CutAppend(gap, second + rest);
    LeadingWord(lead, first, line);
    LeadingWord(gap, second, rest);
  }

  /** A rendered line reads back as the domain it was made from, or as nothing. */
  lemma LineReadsBack(line: Line)
    requires line.Valid()
    ensures LineDomain(line.Render()) == if line.Plain? || line.Hosts? then line.domain else ""
  {
    LineDomainMeaning(line.Render());
    match line
    case Plain(lead, d, tail) => PlainReadsBack(lead, d, tail);
    case Hosts(lead, a, gap, d, tail) => HostsReadsBack(lead, a, gap, d, tail);
    case Comment(lead, text) =>
      assert line.Render()[..|lead|] == lead && line.Render()[|lead|] == '#';
      CutHere(line.Render(), |lead|);
      FieldsOfSpace(lead);
    case Blank(lead) =>
      CutAppend(lead, "");
      assert lead + "" == lead;
      FieldsOfSpace(lead);
  }

  lemma DomainsNext(raws: seq<string>, lines: seq<Line>)
    requires raws != [] && lines != []
    requires Domains(raws[..|raws| - 1]) == Contributions(lines[..|lines| - 1])
    requires var line := lines[|lines| - 1];
             line.Valid() && LineDomain(raws[|raws| - 1]) == LineDomain(line.Render())
    ensures Domains(raws) == Contributions(lines)
  {
    LineReadsBack(lines[|lines| - 1]);
  }

  lemma {:induction false} LinesReadBack(raws: seq<string>, lines: seq<Line>)
    requires |raws| == |lines|
    requires forall i :: 0 <= i < |lines| ==> lines[i].Valid() && LineDomain(raws[i]) == LineDomain(lines[i].Render())
    ensures Domains(raws) == Contributions(lines)
  {
    if lines != [] {
      LinesReadBack(raws[..|raws| - 1], lines[..|lines| - 1]);
      DomainsNext(raws, lines);
    }
  }

  // ---------- from text to lines ----------

  function DropCR(s: string): string {
    if s != "" && s[|s| - 1] == '\r' then s[..|s| - 1] else s
  }

  /** bufio.ScanLines over a whole text from position p. */
  function ScanLines(text: string, p: nat): seq<string>
    requires p <= |text|
    decreases |text| - p
  {
    if p == |text| then []
    else
      var k := IndexFrom(text, '\n', p);
      if k == -1 then [DropCR(text[p..])] else [DropCR(text[p..k])] + ScanLines(text, k + 1)
  }

  /** A text: each line followed by the line end, and a last line without one; an empty last line
      is a text that ends with a line end. */
  function Text(lines: seq<string>, end: string, last: string): string {
    if lines == [] then last else lines[0] + end + Text(lines[1..], end, last)
  }

  function Rendered(lines: seq<Line>): seq<string> {
    seq(|lines|, i requires 0 <= i < |lines| => lines[i].Render())
  }

  predicate OneLine(s: string) {
    forall i :: 0 <= i < |s| ==> s[i] != '\n'
  }

  lemma LineEndIgnored(s: string)
    ensures LineDomain(DropCR(s)) == LineDomain(s)
    ensures LineDomain(DropCR(s + "\r")) == LineDomain(s)
  {
    assert (s + "\r")[..|s|] == s;
    if s != "" && s[|s| - 1] == '\r' {
      var init := s[..|s| - 1];
      assert s == init + ['\r'];
      LineDomainMeaning(s);
      LineDomainMeaning(init);
      CutLastSpace(init, '\r');
      if Cut(s) != Cut(init) {
        FieldsAppendSpace(Cut(init), '\r');
      }
    }
  }

  lemma LineCut(text: string, p: nat, line: string, end: string, rest: string)
    requires p <= |text| && text[p..] == line + end + rest
    requires end == "\n" || end == "\r\n"
    ensures var k := p + |line| + |end| - 1;
            k < |text| && text[p..k] == line + end[..|end| - 1] && text[k] == '\n' && text[k + 1..] == rest
  {
    var t := text[p..];
    var k := p + |line| + |end| - 1;
    assert |t| == |line| + |end| + |rest|;
    assert text[p..k] == t[..k - p] && text[k] == t[k - p] && text[k + 1..] == t[k + 1 - p..];
    assert t == (line + end[..|end| - 1]) + ("\n" + rest);
  }

  lemma NoEarlierEnd(text: string, p: nat, k: nat, line: string, cr: string)
    requires p <= k < |text| && text[p..k] == line + cr && OneLine(line) && (cr == "" || cr == "\r") && text[k] == '\n'
    ensures IndexFrom(text, '\n', p) == k
  {
    var cut := text[p..k];
    forall i | p <= i < k ensures text[i] != '\n' {
      assert text[i] == cut[i - p];
    }
    IndexIs(text, '\n', p, k);
  }

  lemma FirstLine(text: string, p: nat, k: nat, line: string, end: string)
    requires p <= k < |text| && OneLine(line) && (end == "\n" || end == "\r\n")
    requires text[p..k] == line + end[..|end| - 1] && text[k] == '\n'
    ensures ScanLines(text, p) == [Delivered(line, end)] + ScanLines(text, k + 1)
  {
    NoEarlierEnd(text, p, k, line, end[..|end| - 1]);
    ScanAtEnd(text, p, k);
  }

  lemma ScanAtEnd(text: string, p: nat, k: nat)
    requires p <= k < |text| && IndexFrom(text, '\n', p) == k
    ensures ScanLines(text, p) == [DropCR(text[p..k])] + ScanLines(text, k + 1)
  {
  }

  /** What a scanner delivers of a line: a carriage return at the end is dropped. */
  function Delivered(line: string, end: string): string
    requires end != ""
  {
    DropCR(line + end[..|end| - 1])
  }

  function Scanned(lines: seq<string>, end: string): (r: seq<string>)
    requires end != ""
    ensures |r| == |lines|
  {
    if lines == [] then [] else [Delivered(lines[0], end)] + Scanned(lines[1..], end)
  }

  lemma {:induction false} ScannedAt(lines: seq<string>, end: string, i: nat)
    requires end != "" && i < |lines|
    ensures Scanned(lines, end)[i] == Delivered(lines[i], end)
  {
    if i > 0 {
      ScannedAt(lines[1..], end, i - 1);
    }
  }

  lemma TextCons(lines: seq<string>, end: string, last: string)
    requires lines != []
    ensures Text(lines, end, last) == lines[0] + end + Text(lines[1..], end, last)
  {
  }

  lemma LineEnd(text: string, p: nat, lines: seq<string>, end: string, last: string) returns (k: nat)
    requires p <= |text| && text[p..] == Text(lines, end, last) && lines != []
    requires end == "\n" || end == "\r\n"
    ensures p <= k < |text| && text[p..k] == lines[0] + end[..|end| - 1] && text[k] == '\n'
    ensures text[k + 1..] == Text(lines[1..], end, last)
  {
    TextCons(lines, end, last);
    LineCut(text, p, lines[0], end, Text(lines[1..], end, last));
    k := p + |lines[0]| + |end| - 1;
  }

  lemma ScannedCons(lines: seq<string>, end: string)
    requires lines != [] && end != ""
    ensures Scanned(lines, end) == [Delivered(lines[0], end)] + Scanned(lines[1..], end)
  {
  }

  function Remainder(last: string): seq<string> {
    if last == "" then [] else [DropCR(last)]
  }

  lemma LastLine(text: string, p: nat, last: string)
    requires p <= |text| && text[p..] == last && OneLine(last)
    ensures ScanLines(text, p) == Remainder(last)
  {
    forall i | p <= i < |text| ensures text[i] != '\n' {
      assert text[i] == last[i - p];
    }
    if last != "" {
      IndexIs(text, '\n', p, -1);
    }
  }

  /** All that a scanner delivers of a text. */
  function Delivery(lines: seq<string>, end: string, last: string): seq<string>
    requires end != ""
  {
    if lines == [] then Remainder(last) else [Delivered(lines[0], end)] + Delivery(lines[1..], end, last)
  }

  lemma {:induction false} DeliveryIs(lines: seq<string>, end: string, last: string)
    requires end != ""
    ensures Delivery(lines, end, last) == Scanned(lines, end) + Remainder(last)
  {
    if lines != [] {
      DeliveryIs(lines[1..], end, last);
      ScannedCons(lines, end);
    }
  }

  predicate OneLineEach(lines: seq<string>) {
    forall i :: 0 <= i < |lines| ==> OneLine(lines[i])
  }

  /** Scanning a text gives its lines back. */
  lemma {:induction false} ScanText(text: string, p: nat, lines: seq<string>, end: string, last: string)
    requires p <= |text| && text[p..] == Text(lines, end, last)
    requires OneLine(last) && OneLineEach(lines)
    requires end == "\n" || end == "\r\n"
    ensures ScanLines(text, p) == Delivery(lines, end, last)
    decreases |lines|
  {
    if lines == [] {
      LastLine(text, p, last);
    } else {
      var k := LineEnd(text, p, lines, end, last);
      ScanText(text, k + 1, lines[1..], end, last);
      FirstLine(text, p, k, lines[0], end);
    }
  }

  lemma ScannedReadsBack(lines: seq<Line>, end: string)
    requires forall i :: 0 <= i < |lines| ==> lines[i].Valid()
    requires end == "\n" || end == "\r\n"
    ensures Domains(Scanned(Rendered(lines), end)) == Contributions(lines)
  {
    var raws := Scanned(Rendered(lines), end);
    forall i | 0 <= i < |lines| ensures LineDomain(raws[i]) == LineDomain(lines[i].Render()) {
      ScannedAt(Rendered(lines), end, i);
      LineEndIgnored(lines[i].Render());
      assert lines[i].Render() + "" == lines[i].Render();
      assert end[..|end| - 1] == if end == "\n" then "" else "\r";
    }
    LinesReadBack(raws, lines);
  }

  lemma LastReadsBack(raws: seq<string>, lines: seq<Line>, last: Line)
    requires last.Valid() && Domains(raws) == Contributions(lines)
    ensures Domains(raws + Remainder(last.Render())) == Contributions(lines + [last])
  {
    LineReadsBack(last);
    LineEndIgnored(last.Render());
    assert (lines + [last])[..|lines|] == lines;
    if last.Render() == "" {
      assert raws + [] == raws;
      assert LineDomain("") == "";
    } else {
      assert (raws + [DropCR(last.Render())])[..|raws|] == raws;
    }
  }

  /** Writing a list as text, with either line end and with or without one after the last line, and
      scanning it back gives its domains in order. */
  lemma TextReadsBack(lines: seq<Line>, end: string, last: Line)
    requires forall i :: 0 <= i < |lines| ==> lines[i].Valid() && OneLine(lines[i].Render())
    requires last.Valid() && OneLine(last.Render())
    requires end == "\n" || end == "\r\n"
    ensures Domains(ScanLines(Text(Rendered(lines), end, last.Render()), 0)) == Contributions(lines + [last])
  {
    var text := Text(Rendered(lines), end, last.Render());
    assert text[0..] == text;
    ScanText(text, 0, Rendered(lines), end, last.Render());
    DeliveryIs(Rendered(lines), end, last.Render());
    ScannedReadsBack(lines, end);
    LastReadsBack(Scanned(Rendered(lines), end), lines, last);
  }
}
