/** Names as the filter sees them: white space, case, the trailing dot, and the two ways the
    source cuts a name into labels (strings.Split, which keeps empty labels, and splitDomain,
    which drops them). */
module DomainNames {

  // ---------- characters ----------

  /** White space as unicode.IsSpace decides it. */
  predicate IsSpace(c: char) {
    c == ' ' || '\t' <= c <= '\r' || c == '\U{0085}' || c == '\U{00A0}' || c == '\U{1680}' ||
    '\U{2000}' <= c <= '\U{200A}' || c == '\U{2028}' || c == '\U{2029}' || c == '\U{202F}' ||
    c == '\U{205F}' || c == '\U{3000}'
  }

  function LowerChar(c: char): char {
    if 'A' <= c <= 'Z' then (c as int + 32) as char else c
  }

  /** ASCII lower case (section 2.3.3 of RFC 1035). */
  function ToLower(s: string): string {
    seq(|s|, i requires 0 <= i < |s| => LowerChar(s[i]))
  }

  /** The two characters are equal, or one is an ASCII capital and the other its small letter. */
  predicate SameLetter(c: char, d: char) {
    || c == d
    || ('A' <= c <= 'Z' && d as int == c as int - 'A' as int + 'a' as int)
    || ('A' <= d <= 'Z' && c as int == d as int - 'A' as int + 'a' as int)
  }

  /** The two strings are the same but for the case of ASCII letters. */
  predicate SameButCase(s: string, t: string) {
    |s| == |t| && forall i :: 0 <= i < |s| ==> SameLetter(s[i], t[i])
  }

  predicate NoCapital(s: string) {
    forall i :: 0 <= i < |s| ==> !('A' <= s[i] <= 'Z')
  }

  /** Lower case is the only string without capitals that is the same but for case. */
  lemma LowerIff(s: string, t: string)
    ensures t == ToLower(s) <==> SameButCase(s, t) && NoCapital(t)
  {
    if SameButCase(s, t) && NoCapital(t) {
      forall i | 0 <= i < |s| ensures t[i] == ToLower(s)[i] {
        assert SameLetter(s[i], t[i]);
      }
    }
  }

  lemma SameLowerIff(s: string, t: string)
    ensures ToLower(s) == ToLower(t) <==> SameButCase(s, t)
  {
    if ToLower(s) == ToLower(t) {
      assert |s| == |t|;
      forall i | 0 <= i < |s| ensures SameLetter(s[i], t[i]) {
        assert ToLower(s)[i] == ToLower(t)[i];
      }
    }
  }

  lemma LowerAppend(s: string, t: string)
    ensures ToLower(s + t) == ToLower(s) + ToLower(t)
    ensures ToLower(".") == "."
  {
  }

  function TrimLeft(s: string): string {
    if s != "" && IsSpace(s[0]) then TrimLeft(s[1..]) else s
  }

  function TrimRight(s: string): string {
    if s != "" && IsSpace(s[|s| - 1]) then TrimRight(s[..|s| - 1]) else s
  }

  function TrimSpace(s: string): string {
    TrimRight(TrimLeft(s))
  }

  predicate AllSpace(s: string) {
    forall i :: 0 <= i < |s| ==> IsSpace(s[i])
  }

  predicate Trimmed(s: string) {
    s == "" || (!IsSpace(s[0]) && !IsSpace(s[|s| - 1]))
  }

  lemma {:induction false} TrimLeftResult(s: string)
    ensures TrimLeft(s) == "" || !IsSpace(TrimLeft(s)[0])
  {
    if s != "" && IsSpace(s[0]) {
      TrimLeftResult(s[1..]);
    }
  }

  lemma {:induction false} TrimRightResult(s: string)
    ensures TrimRight(s) == "" || !IsSpace(TrimRight(s)[|TrimRight(s)| - 1])
    ensures TrimRight(s) <= s
  {
    if s != "" && IsSpace(s[|s| - 1]) {
      TrimRightResult(s[..|s| - 1]);
    }
  }

  lemma TrimSpaceTrims(s: string)
    ensures Trimmed(TrimSpace(s))
  {
    TrimLeftResult(s);
    TrimRightResult(TrimLeft(s));
  }

  lemma {:induction false} TrimLeftCuts(s: string) returns (lead: string)
    ensures s == lead + TrimLeft(s) && AllSpace(lead)
  {
    lead := "";
    if s != "" && IsSpace(s[0]) {
      lead := TrimLeftCuts(s[1..]);
      lead := [s[0]] + lead;
    }
  }

  lemma {:induction false} TrimRightCuts(s: string) returns (tail: string)
    ensures s == TrimRight(s) + tail && AllSpace(tail)
  {
    tail := "";
    if s != "" && IsSpace(s[|s| - 1]) {
      tail := TrimRightCuts(s[..|s| - 1]);
      tail := tail + [s[|s| - 1]];
    }
  }

  lemma TrimmedUnchanged(s: string)
    requires Trimmed(s)
    ensures TrimSpace(s) == s
  {
  }

  // ---------- normalize ----------

  predicate EndsWithDot(s: string) {
    s != "" && s[|s| - 1] == '.'
  }

  /** Lower case, no outer white space, trailing dot. */
  function Normalize(domain: string): (n: string)
    ensures EndsWithDot(n)
  {
    var lower := ToLower(TrimSpace(domain));
    if EndsWithDot(lower) then lower else lower + "."
  }

  predicate IsNormal(n: string) {
    EndsWithDot(n) && !IsSpace(n[0]) && ToLower(n) == n
  }

  lemma NormalizeIsNormal(domain: string)
    ensures IsNormal(Normalize(domain))
  {
    TrimSpaceTrims(domain);
  }

  /** The normal names are exactly the values of Normalize, and its fixed points. */
  lemma NormalUnchanged(n: string)
    ensures IsNormal(n) <==> Normalize(n) == n
  {
    if IsNormal(n) {
      TrimmedUnchanged(n);
    } else if Normalize(n) == n {
      NormalizeIsNormal(n);
    }
  }

  lemma NormalizeIdempotent(domain: string)
    ensures Normalize(Normalize(domain)) == Normalize(domain)
  {
    NormalizeIsNormal(domain);
    NormalUnchanged(Normalize(domain));
  }

  /** The string with a final dot, which it may have already. */
  function WithDot(s: string): string {
    if EndsWithDot(s) then s else s + "."
  }

  /** Between white space at its ends a name keeps every character but for the case of its letters,
      which is lower, and ends with a dot. */
  lemma NormalizeMeaning(domain: string) returns (lead: string, core: string, tail: string)
    ensures domain == lead + core + tail && AllSpace(lead) && AllSpace(tail) && Trimmed(core)
    ensures SameButCase(Normalize(domain), WithDot(core)) && NoCapital(Normalize(domain))
  {
    lead := TrimLeftCuts(domain);
    tail := TrimRightCuts(TrimLeft(domain));
    core := TrimSpace(domain);
    TrimSpaceTrims(domain);
    DotKept(core);
    LowerIff(core, ToLower(core));
  }

  lemma LowerSpace(c: char)
    ensures IsSpace(LowerChar(c)) <==> IsSpace(c)
  {
  }

  lemma {:induction false} TrimLeftLower(s: string)
    ensures TrimLeft(ToLower(s)) == ToLower(TrimLeft(s))
  {
    if s != "" {
      LowerSpace(s[0]);
      assert ToLower(s)[1..] == ToLower(s[1..]);
      if IsSpace(s[0]) {
        TrimLeftLower(s[1..]);
      }
    }
  }

  lemma {:induction false} TrimRightLower(s: string)
    ensures TrimRight(ToLower(s)) == ToLower(TrimRight(s))
  {
    if s != "" {
      LowerSpace(s[|s| - 1]);
      assert ToLower(s)[..|s| - 1] == ToLower(s[..|s| - 1]);
      if IsSpace(s[|s| - 1]) {
        TrimRightLower(s[..|s| - 1]);
      }
    }
  }

  lemma NormalizeOfLower(domain: string)
    ensures Normalize(ToLower(domain)) == Normalize(domain)
  {
    TrimLeftLower(domain);
    TrimRightLower(TrimLeft(domain));
    var lower := ToLower(TrimSpace(domain));
    assert ToLower(lower) == lower;
  }

  /** Case does not matter to a name. */
  lemma NormalizeIgnoresCase(domain: string, other: string)
    requires SameButCase(domain, other)
    ensures Normalize(domain) == Normalize(other)
  {
    SameLowerIff(domain, other);
    NormalizeOfLower(domain);
    NormalizeOfLower(other);
  }

  /** A tab, line feed, vertical tab, form feed, carriage return or space. */
  predicate AsciiSpace(c: char) {
    9 <= c as int <= 13 || c as int == 32
  }

  predicate Visible(c: char) {
    33 <= c as int <= 126
  }

  lemma {:induction false} TrimLeftAppend(s: string, c: char)
    requires IsSpace(c) && TrimLeft(s) != ""
    ensures TrimLeft(s + [c]) == TrimLeft(s) + [c]
  {
    assert (s + [c])[0] == s[0] && (s + [c])[1..] == s[1..] + [c];
    if IsSpace(s[0]) {
      TrimLeftAppend(s[1..], c);
    }
  }

  lemma {:induction false} TrimLeftAppendEmpty(s: string, c: char)
    requires IsSpace(c) && TrimLeft(s) == ""
    ensures TrimLeft(s + [c]) == ""
  {
    if s == "" {
      assert (s + [c])[1..] == "";
    } else {
      assert (s + [c])[0] == s[0] && (s + [c])[1..] == s[1..] + [c];
      TrimLeftAppendEmpty(s[1..], c);
    }
  }

  lemma TrimAppend(domain: string, c: char)
    requires IsSpace(c)
    ensures TrimSpace(domain + [c]) == TrimSpace(domain)
  {
    var left := TrimLeft(domain);
    if left == "" {
      TrimLeftAppendEmpty(domain, c);
    } else {
      TrimLeftAppend(domain, c);
      assert (left + [c])[..|left|] == left;
    }
  }

  lemma TrimPrepend(domain: string, c: char)
    requires IsSpace(c)
    ensures TrimSpace([c] + domain) == TrimSpace(domain)
  {
    assert ([c] + domain)[1..] == domain;
  }

  /** ASCII white space around a name does not matter. */
  lemma NormalizeIgnoresSpace(domain: string, c: char)
    requires AsciiSpace(c)
    ensures Normalize([c] + domain) == Normalize(domain) && Normalize(domain + [c]) == Normalize(domain)
  {
    TrimPrepend(domain, c);
    TrimAppend(domain, c);
  }

  /** A name that starts and ends with a visible ASCII character keeps all of its characters. */
  lemma NormalizeKeeps(domain: string)
    requires domain != "" && Visible(domain[0]) && Visible(domain[|domain| - 1])
    ensures SameButCase(Normalize(domain), WithDot(domain))
  {
    TrimmedUnchanged(domain);
    DotKept(domain);
    LowerIff(domain, ToLower(domain));
  }

  lemma {:induction false} TrimLeftAppendDot(s: string)
    ensures TrimLeft(s + ".") == TrimLeft(s) + "."
  {
    if s != "" {
      assert (s + ".")[0] == s[0] && (s + ".")[1..] == s[1..] + ".";
      if IsSpace(s[0]) {
        TrimLeftAppendDot(s[1..]);
      }
    }
  }

  predicate EndsWithSpace(s: string) {
    s != "" && IsSpace(s[|s| - 1])
  }

  lemma {:induction false} TrimRightShorter(s: string)
    ensures |TrimRight(s)| < |s| || TrimRight(s) == s
    ensures TrimRight(s) == s <==> !EndsWithSpace(s)
  {
    if s != "" && IsSpace(s[|s| - 1]) {
      TrimRightShorter(s[..|s| - 1]);
    }
  }

  lemma DottedEqual(u: string, v: string)
    requires |v| < |u| || u == v
    ensures u + "." == (if EndsWithDot(v) then v else v + ".") <==> u == v && !EndsWithDot(v)
  {
    assert |u + "."| == |u| + 1 && |v + "."| == |v| + 1;
  }

  lemma DotKept(s: string)
    ensures EndsWithDot(ToLower(s)) <==> EndsWithDot(s)
  {
    assert s != "" ==> ToLower(s)[|s| - 1] == LowerChar(s[|s| - 1]);
  }

  lemma WithFinalDot(domain: string)
    ensures Normalize(domain + ".") == ToLower(TrimLeft(domain)) + "."
  {
    var x := TrimLeft(domain);
    TrimLeftAppendDot(domain);
    TrimRightShorter(x + ".");
    LowerAppend(x, ".");
    DotKept(x + ".");
  }

  /** A final dot makes no difference exactly to a name that is empty but for leading space, or that
      ends neither with a space nor with a dot already. */
  lemma NormalizeIgnoresFinalDot(domain: string)
    ensures Normalize(domain + ".") == Normalize(domain) <==>
            TrimLeft(domain) == "" || !(EndsWithSpace(domain) || EndsWithDot(domain))
  {
    var x := TrimLeft(domain);
    WithFinalDot(domain);
    TrimRightShorter(x);
    TrimLeftKeepsEnd(domain);
    NormalizeIs(domain);
    DottedIff(x, TrimRight(x), Normalize(domain + "."), Normalize(domain));
  }

  lemma DottedIff(x: string, y: string, dotted: string, plain: string)
    requires dotted == ToLower(x) + "." && plain == (if EndsWithDot(ToLower(y)) then ToLower(y) else ToLower(y) + ".")
    requires (|y| < |x| || y == x) && (y == x <==> !EndsWithSpace(x))
    ensures dotted == plain <==> !(EndsWithSpace(x) || EndsWithDot(x))
  {
    DotKept(y);
    SameLower(x, y);
    DottedEqual(ToLower(x), ToLower(y));
  }

  lemma NormalizeIs(domain: string)
    ensures var v := ToLower(TrimRight(TrimLeft(domain))); Normalize(domain) == if EndsWithDot(v) then v else v + "."
  {
  }

  lemma SameLower(x: string, y: string)
    requires |y| < |x| || x == y
    ensures ToLower(x) == ToLower(y) <==> x == y
  {
    assert |ToLower(x)| == |x| && |ToLower(y)| == |y|;
  }

  lemma {:induction false} TrimLeftKeepsEnd(s: string)
    ensures TrimLeft(s) != "" ==>
              (EndsWithSpace(TrimLeft(s)) <==> EndsWithSpace(s)) && (EndsWithDot(TrimLeft(s)) <==> EndsWithDot(s))
  {
    if s != "" && IsSpace(s[0]) {
      TrimLeftKeepsEnd(s[1..]);
    }
  }

  /** Putting labels in front of a name. */
  lemma NormalizeBelow(sub: string, domain: string)
    requires Trimmed(sub) && Trimmed(domain) && sub != "" && domain != ""
    ensures Normalize(sub + "." + domain) == ToLower(sub) + "." + Normalize(domain)
  {
    var full := sub + "." + domain;
    TrimmedUnchanged(domain);
    assert Trimmed(full) by {
      assert full[0] == sub[0] && full[|full| - 1] == domain[|domain| - 1];
    }
    TrimmedUnchanged(full);
    LowerAppend(sub + ".", domain);
    LowerAppend(sub, ".");
    assert ToLower(full) == ToLower(sub) + "." + ToLower(domain);
    assert ToLower(full)[|full| - 1] == ToLower(domain)[|domain| - 1];
  }

  // ---------- strings.Index, strings.Split and strings.Join ----------

  /** The first position at or after p that holds c, or -1. */
  function IndexFrom(s: string, c: char, p: nat): (i: int)
    requires p <= |s|
    ensures i == -1 || (p <= i < |s| && s[i] == c)
    decreases |s| - p
  {
    if p == |s| then -1 else if s[p] == c then p else IndexFrom(s, c, p + 1)
  }

  lemma {:induction false} IndexIsFirst(s: string, c: char, p: nat)
    requires p <= |s|
    ensures var i := IndexFrom(s, c, p); forall q :: p <= q < (if i == -1 then |s| else i) ==> s[q] != c
    decreases |s| - p
  {
    if p < |s| && s[p] != c {
      IndexIsFirst(s, c, p + 1);
    }
  }

  lemma IndexIs(s: string, c: char, p: nat, k: int)
    requires p <= |s| && (k == -1 || (p <= k < |s| && s[k] == c))
    requires forall q :: p <= q < (if k == -1 then |s| else k) ==> s[q] != c
    ensures IndexFrom(s, c, p) == k
  {
    IndexIsFirst(s, c, p);
  }

  /** The labels of s from position p on, as strings.Split(s[p..], ".") gives them. */
  function SplitFrom(s: string, p: nat): (parts: seq<string>)
    requires p <= |s|
    ensures |parts| >= 1
    decreases |s| - p
  {
    var k := IndexFrom(s, '.', p);
    if k == -1 then [s[p..]] else [s[p..k]] + SplitFrom(s, k + 1)
  }

  function Split(s: string): (parts: seq<string>)
    ensures |parts| >= 1
  {
    SplitFrom(s, 0)
  }

  function Join(parts: seq<string>): string {
    if |parts| == 0 then ""
    else if |parts| == 1 then parts[0]
    else parts[0] + "." + Join(parts[1..])
  }

  lemma JoinCons(head: string, rest: seq<string>)
    requires rest != []
    ensures Join([head] + rest) == head + "." + Join(rest)
  {
    assert ([head] + rest)[1..] == rest;
  }

  lemma CutAt(s: string, p: nat, k: nat)
    requires p <= k < |s|
    ensures s[p..] == s[p..k] + [s[k]] + s[k + 1..]
  {
  }

  lemma {:induction false} JoinSplitFrom(s: string, p: nat)
    requires p <= |s|
    ensures Join(SplitFrom(s, p)) == s[p..]
    decreases |s| - p
  {
    var k := IndexFrom(s, '.', p);
    if k != -1 {
      JoinSplitFrom(s, k + 1);
      JoinCons(s[p..k], SplitFrom(s, k + 1));
      CutAt(s, p, k);
    }
  }

  lemma {:induction false} JoinAppend(parts: seq<string>, last: string)
    ensures Join(parts + [last]) == if parts == [] then last else Join(parts) + "." + last
  {
    if |parts| == 1 {
      assert (parts + [last])[1..] == [last];
    } else if |parts| > 1 {
      JoinAppend(parts[1..], last);
      assert (parts + [last])[1..] == parts[1..] + [last];
    }
  }

  // ---------- label suffixes ----------

  /** Position p of s is the start of a label: the beginning, or just after a dot. */
  predicate LabelStart(s: string, p: int) {
    0 <= p <= |s| && (p == 0 || s[p - 1] == '.')
  }

  /** Where the i-th label counted from position p starts. */
  function OffsetFrom(s: string, p: nat, i: nat): (q: nat)
    requires p <= |s| && i < |SplitFrom(s, p)|
    ensures p <= q <= |s|
    ensures i > 0 ==> p < q
    decreases i
  {
    if i == 0 then p else OffsetFrom(s, IndexFrom(s, '.', p) + 1, i - 1)
  }

  function Offset(s: string, i: nat): (q: nat)
    requires i < |Split(s)|
    ensures q <= |s|
  {
    OffsetFrom(s, 0, i)
  }

  lemma {:induction false} SuffixFrom(s: string, p: nat, i: nat)
    requires LabelStart(s, p) && i < |SplitFrom(s, p)|
    ensures var q := OffsetFrom(s, p, i);
            && LabelStart(s, q)
            && SplitFrom(s, p)[i..] == SplitFrom(s, q)
            && (i == |SplitFrom(s, p)| - 1 <==> IndexFrom(s, '.', q) == -1)
    decreases i
  {
    if i == 0 {
      assert SplitFrom(s, p)[0..] == SplitFrom(s, p);
    } else {
      var k := IndexFrom(s, '.', p);
      SuffixFrom(s, k + 1, i - 1);
      assert SplitFrom(s, p)[i..] == SplitFrom(s, k + 1)[i - 1..];
    }
  }

  /** Joining the labels from number i on gives back the string suffix that starts at label i. */
  lemma SuffixAtLabel(s: string, i: nat)
    requires i < |Split(s)|
    ensures LabelStart(s, Offset(s, i))
    ensures Join(Split(s)[i..]) == s[Offset(s, i)..]
  {
    SuffixFrom(s, 0, i);
    JoinSplitFrom(s, Offset(s, i));
  }

  lemma {:induction false} LabelFrom(s: string, p: nat, q: nat) returns (i: nat)
    requires LabelStart(s, p) && LabelStart(s, q) && p <= q
    ensures i < |SplitFrom(s, p)| && OffsetFrom(s, p, i) == q
    decreases |s| - p
  {
    if p == q {
      i := 0;
    } else {
      IndexIsFirst(s, '.', p);
      var j := LabelFrom(s, IndexFrom(s, '.', p) + 1, q);
      i := j + 1;
    }
  }

  /** Every label start is the offset of some label. */
  lemma LabelAtStart(s: string, q: nat) returns (i: nat)
    requires LabelStart(s, q)
    ensures i < |Split(s)| && Offset(s, i) == q
  {
    i := LabelFrom(s, 0, q);
  }

  lemma {:induction false} OffsetIncreasesFrom(s: string, p: nat, i: nat, j: nat)
    requires p <= |s| && i < j < |SplitFrom(s, p)|
    ensures OffsetFrom(s, p, i) < OffsetFrom(s, p, j)
    decreases i
  {
    if i > 0 {
      OffsetIncreasesFrom(s, IndexFrom(s, '.', p) + 1, i - 1, j - 1);
    }
  }

  lemma OffsetIncreases(s: string, i: nat, j: nat)
    requires i < j < |Split(s)|
    ensures Offset(s, i) < Offset(s, j)
  {
    OffsetIncreasesFrom(s, 0, i, j);
  }

  /** The last label is the one that no dot follows. */
  lemma LastLabel(s: string, i: nat)
    requires i < |Split(s)|
    ensures i == |Split(s)| - 1 <==> forall q :: Offset(s, i) <= q < |s| ==> s[q] != '.'
  {
    SuffixFrom(s, 0, i);
    IndexIsFirst(s, '.', Offset(s, i));
  }

  // ---------- splitDomain and joinDomain ----------

  /** What splitDomain has still to produce: it is at position i and holds s[start..i]. */
  function Labels(s: string, start: nat, i: nat): seq<string>
    requires start <= i <= |s|
    decreases |s| - i
  {
    var held := if start == i then [] else [s[start..i]];
    if i == |s| then held
    else if s[i] == '.' then held + Labels(s, i + 1, i + 1)
    else Labels(s, start, i + 1)
  }

  function NonEmpty(parts: seq<string>): seq<string> {
    if parts == [] then []
    else (if parts[0] == "" then [] else [parts[0]]) + NonEmpty(parts[1..])
  }

  lemma NonEmptyCons(head: string, rest: seq<string>)
    ensures NonEmpty([head] + rest) == (if head == "" then [] else [head]) + NonEmpty(rest)
  {
    assert ([head] + rest)[1..] == rest;
  }

  lemma NonEmptyOne(head: string)
    ensures NonEmpty([head]) == if head == "" then [] else [head]
  {
    NonEmptyCons(head, []);
    assert [head] + [] == [head];
  }

  /** The labels of a name, empty ones dropped. */
  function DomainLabels(s: string): seq<string> {
    NonEmpty(Split(s))
  }

  /** A list of labels as a name. */
  function DomainOf(parts: seq<string>): string {
    Join(parts) + "."
  }

  lemma LabelsAtEnd(s: string, start: nat)
    requires start <= |s| && forall q :: start <= q < |s| ==> s[q] != '.'
    ensures Labels(s, start, |s|) == NonEmpty(SplitFrom(s, start))
  {
    assert s[start..|s|] == s[start..];
    IndexIs(s, '.', start, -1);
    NonEmptyOne(s[start..]);
  }

  lemma LabelsAtDot(s: string, start: nat, i: nat)
    requires start <= i < |s| && s[i] == '.' && forall q :: start <= q < i ==> s[q] != '.'
    requires Labels(s, i + 1, i + 1) == NonEmpty(SplitFrom(s, i + 1))
    ensures Labels(s, start, i) == NonEmpty(SplitFrom(s, start))
  {
    IndexIs(s, '.', start, i);
    NonEmptyCons(s[start..i], SplitFrom(s, i + 1));
  }

  lemma {:induction false} LabelsAreNonEmptyParts(s: string, start: nat, i: nat)
    requires start <= i <= |s| && forall q :: start <= q < i ==> s[q] != '.'
    ensures Labels(s, start, i) == NonEmpty(SplitFrom(s, start))
    decreases |s| - i
  {
    if i == |s| {
      LabelsAtEnd(s, start);
    } else if s[i] == '.' {
      LabelsAreNonEmptyParts(s, i + 1, i + 1);
      LabelsAtDot(s, start, i);
    } else {
      LabelsAreNonEmptyParts(s, start, i + 1);
    }
  }

  method SplitDomain(domain: string) returns (result: seq<string>)
    ensures result == DomainLabels(domain)
  {
    result := [];
    var current := "";
    ghost var start := 0;
    for i := 0 to |domain|
      invariant start <= i && current == domain[start..i]
      invariant result + Labels(domain, start, i) == Labels(domain, 0, 0)
    {
      if domain[i] == '.' {
        if current != "" {
          result := result + [current];
        }
        current := "";
        start := i + 1;
      } else {
        current := current + [domain[i]];
      }
    }
    if current != "" {
      result := result + [current];
    }
    LabelsAreNonEmptyParts(domain, 0, 0);
  }

  method JoinDomain(parts: seq<string>) returns (result: string)
    ensures result == DomainOf(parts)
  {
    result := "";
    for i := 0 to |parts|
      invariant result == Join(parts[..i])
    {
      JoinAppend(parts[..i], parts[i]);
      assert parts[..i + 1] == parts[..i] + [parts[i]];
      if i > 0 {
        result := result + ".";
      }
      result := result + parts[i];
    }
    assert parts[..|parts|] == parts;
    result := result + ".";
  }

  // ---------- when the two undo each other ----------

  predicate CleanLabel(l: string) {
    l != "" && forall i :: 0 <= i < |l| ==> l[i] != '.'
  }

  predicate CleanLabels(parts: seq<string>) {
    forall i :: 0 <= i < |parts| ==> CleanLabel(parts[i])
  }

  predicate DoubleDot(s: string, i: int) {
    0 < i < |s| && s[i - 1] == '.' && s[i] == '.'
  }

  /** Ends with a dot and has no empty label. */
  predicate WellFormed(s: string) {
    EndsWithDot(s) && s[0] != '.' && forall i :: 0 < i < |s| ==> !DoubleDot(s, i)
  }

  /** The names with nothing for splitDomain to drop: well formed, or the root. */
  predicate Canonical(s: string) {
    s == "." || WellFormed(s)
  }

  lemma CleanCons(head: string, rest: seq<string>)
    requires head == "" || CleanLabel(head)
    requires CleanLabels(NonEmpty(rest))
    ensures CleanLabels(NonEmpty([head] + rest))
  {
    NonEmptyCons(head, rest);
  }

  lemma CleanSlice(s: string, p: nat, k: nat)
    requires p <= k <= |s| && forall q :: p <= q < k ==> s[q] != '.'
    ensures s[p..k] == "" || CleanLabel(s[p..k])
  {
    forall i | 0 <= i < k - p ensures s[p..k][i] != '.' {
      assert s[p..k][i] == s[p + i];
    }
  }

  lemma PartsCleanAtEnd(s: string, p: nat)
    requires p <= |s| && IndexFrom(s, '.', p) == -1
    ensures CleanLabels(NonEmpty(SplitFrom(s, p)))
  {
    IndexIsFirst(s, '.', p);
    CleanSlice(s, p, |s|);
    assert s[p..|s|] == s[p..];
    NonEmptyOne(s[p..]);
  }

  lemma PartsCleanAtDot(s: string, p: nat, k: nat)
    requires p <= k < |s| && IndexFrom(s, '.', p) == k && CleanLabels(NonEmpty(SplitFrom(s, k + 1)))
    ensures CleanLabels(NonEmpty(SplitFrom(s, p)))
  {
    IndexIsFirst(s, '.', p);
    CleanSlice(s, p, k);
    CleanCons(s[p..k], SplitFrom(s, k + 1));
    SplitAtDot(s, p, k);
  }

  lemma {:induction false} PartsClean(s: string, p: nat)
    requires p <= |s|
    ensures CleanLabels(NonEmpty(SplitFrom(s, p)))
    decreases |s| - p
  {
    var k := IndexFrom(s, '.', p);
    if k == -1 {
      PartsCleanAtEnd(s, p);
    } else {
      PartsClean(s, k + 1);
      PartsCleanAtDot(s, p, k);
    }
  }

  lemma {:induction false} NonEmptyUnchanged(parts: seq<string>)
    requires CleanLabels(parts)
    ensures NonEmpty(parts + [""]) == parts
  {
    if parts != [] {
      NonEmptyUnchanged(parts[1..]);
      assert (parts + [""])[1..] == parts[1..] + [""];
    }
  }

  lemma PrependAppend(head: string, mid: seq<string>, last: string)
    ensures [head] + (mid + [last]) == [head] + mid + [last]
  {
  }

  lemma FirstLabelOf(s: string, p: nat) returns (k: nat)
    requires WellFormed(s) && LabelStart(s, p) && p < |s|
    ensures k == IndexFrom(s, '.', p) && p < k < |s| && LabelStart(s, k + 1)
  {
    IndexIsFirst(s, '.', p);
    assert p > 0 ==> !DoubleDot(s, p);
    k := IndexFrom(s, '.', p);
  }

  lemma DottedStep(s: string, p: nat, k: nat)
    requires p < k < |s| && IndexFrom(s, '.', p) == k
    requires SplitFrom(s, k + 1) == NonEmpty(SplitFrom(s, k + 1)) + [""]
    ensures SplitFrom(s, p) == NonEmpty(SplitFrom(s, p)) + [""] && NonEmpty(SplitFrom(s, p)) != []
  {
    var rest := SplitFrom(s, k + 1);
    SplitAtDot(s, p, k);
    NonEmptyCons(s[p..k], rest);
    PrependAppend(s[p..k], NonEmpty(rest), "");
    assert [s[p..k]] + rest == [s[p..k]] + (NonEmpty(rest) + [""]);
  }

  /** A well-formed name is its clean labels, each followed by a dot. */
  lemma {:induction false} WellFormedFrom(s: string, p: nat)
    requires WellFormed(s) && LabelStart(s, p)
    ensures SplitFrom(s, p) == NonEmpty(SplitFrom(s, p)) + [""]
    ensures p < |s| ==> NonEmpty(SplitFrom(s, p)) != []
    decreases |s| - p
  {
    if p == |s| {
      SplitAtEnd(s);
    } else {
      var k := FirstLabelOf(s, p);
      WellFormedFrom(s, k + 1);
      DottedStep(s, p, k);
    }
  }

  lemma SplitAtEnd(s: string)
    ensures SplitFrom(s, |s|) == [""] && NonEmpty([""]) == []
  {
    assert s[|s|..] == "";
    NonEmptyOne("");
  }

  lemma WellFormedParts(s: string)
    requires WellFormed(s)
    ensures CleanLabels(DomainLabels(s)) && DomainLabels(s) != []
    ensures Split(s) == DomainLabels(s) + [""]
  {
    PartsClean(s, 0);
    WellFormedFrom(s, 0);
  }

  lemma CutAfter(s: string, p: nat, head: string, rest: string)
    requires p <= |s| && s[p..] == head + "." + rest
    ensures var k := p + |head|; k < |s| && s[p..k] == head && s[k] == '.' && s[k + 1..] == rest
    ensures forall q :: p <= q < p + |head| ==> s[q] == head[q - p]
  {
    var t := s[p..];
    var k := p + |head|;
    assert forall q :: p <= q < |s| ==> s[q] == t[q - p];
    assert |t| == |head| + 1 + |rest|;
    assert s[k] == t[|head|];
  }

  /** No empty label from position p on, and a dot at the end. */
  predicate WellFormedTail(s: string, p: nat) {
    p == |s| || (p < |s| && EndsWithDot(s) && s[p] != '.' && forall i :: p < i < |s| ==> !DoubleDot(s, i))
  }

  lemma WellFormedCons(s: string, p: nat, k: nat)
    requires p < k < |s| && s[k] == '.' && WellFormedTail(s, k + 1)
    requires forall q :: p <= q < k ==> s[q] != '.'
    ensures WellFormedTail(s, p) && IndexFrom(s, '.', p) == k
  {
    IndexIs(s, '.', p, k);
  }

  lemma HeadOfTail(s: string, p: nat, head: string, rest: string)
    requires p <= |s| && s[p..] == head + "." + rest && CleanLabel(head)
    ensures var k := p + |head|;
            && k < |s| && IndexFrom(s, '.', p) == k && s[p..k] == head && s[k + 1..] == rest
            && (WellFormedTail(s, k + 1) ==> WellFormedTail(s, p))
  {
    var k := p + |head|;
    CutAfter(s, p, head, rest);
    IndexIs(s, '.', p, k);
    if WellFormedTail(s, k + 1) {
      WellFormedCons(s, p, k);
    }
  }

  lemma DomainOfCons(parts: seq<string>)
    requires parts != []
    ensures Dotted(parts) == parts[0] + "." + Dotted(parts[1..])
  {
  }

  /** The labels, each followed by a dot. */
  function Dotted(parts: seq<string>): string {
    if parts == [] then "" else DomainOf(parts)
  }

  lemma SplitAtDot(s: string, p: nat, k: nat)
    requires p <= k < |s| && IndexFrom(s, '.', p) == k
    ensures SplitFrom(s, p) == [s[p..k]] + SplitFrom(s, k + 1)
  {
  }

  lemma SplitCons(s: string, p: nat, k: nat, parts: seq<string>)
    requires p <= k < |s| && IndexFrom(s, '.', p) == k
    requires parts != [] && parts[0] == s[p..k] && SplitFrom(s, k + 1) == parts[1..] + [""]
    ensures SplitFrom(s, p) == parts + [""]
  {
    SplitAtDot(s, p, k);
    PrependAppend(parts[0], parts[1..], "");
    assert parts == [parts[0]] + parts[1..];
  }

  lemma AfterFirst(s: string, p: nat, parts: seq<string>) returns (k: nat)
    requires parts != [] && CleanLabel(parts[0]) && p <= |s| && s[p..] == Dotted(parts)
    ensures p <= k < |s| && IndexFrom(s, '.', p) == k && s[p..k] == parts[0]
    ensures s[k + 1..] == Dotted(parts[1..])
    ensures WellFormedTail(s, k + 1) ==> WellFormedTail(s, p)
  {
    DomainOfCons(parts);
    HeadOfTail(s, p, parts[0], Dotted(parts[1..]));
    k := p + |parts[0]|;
  }

  lemma CleanRest(parts: seq<string>)
    requires parts != [] && CleanLabels(parts)
    ensures CleanLabel(parts[0]) && CleanLabels(parts[1..])
  {
  }

  /** From position p on, s holds the labels, each followed by a dot. */
  predicate Holds(s: string, p: nat, parts: seq<string>)
    requires p <= |s|
  {
    SplitFrom(s, p) == parts + [""] && WellFormedTail(s, p)
  }

  lemma HoldsAtEnd(s: string, p: nat)
    requires p <= |s| && s[p..] == ""
    ensures Holds(s, p, [])
  {
    assert |s[p..]| == 0;
    SplitAtEnd(s);
  }

  lemma HoldsBefore(s: string, p: nat, k: nat, parts: seq<string>)
    requires parts != [] && p <= k < |s| && IndexFrom(s, '.', p) == k && s[p..k] == parts[0]
    requires Holds(s, k + 1, parts[1..]) && (WellFormedTail(s, k + 1) ==> WellFormedTail(s, p))
    ensures Holds(s, p, parts)
  {
    SplitCons(s, p, k, parts);
  }

  /** Conversely, clean labels each followed by a dot make a well-formed name. */
  lemma {:induction false} SplitOfDomainFrom(s: string, p: nat, parts: seq<string>)
    requires CleanLabels(parts) && p <= |s|
    requires s[p..] == Dotted(parts)
    ensures Holds(s, p, parts)
    decreases |parts|
  {
    if parts == [] {
      HoldsAtEnd(s, p);
    } else {
      CleanRest(parts);
      var k := AfterFirst(s, p, parts);
      SplitOfDomainFrom(s, k + 1, parts[1..]);
      HoldsBefore(s, p, k, parts);
    }
  }

  lemma SplitOfDomain(parts: seq<string>)
    requires CleanLabels(parts) && parts != []
    ensures Split(DomainOf(parts)) == parts + [""]
    ensures WellFormed(DomainOf(parts))
  {
    var s := DomainOf(parts);
    assert s[0..] == s;
    SplitOfDomainFrom(s, 0, parts);
  }

  lemma RootParts()
    ensures Split(".") == ["", ""] && DomainLabels(".") == []
  {
    var s := ".";
    assert s[1..] == "" && s[0..0] == "";
    assert IndexFrom(s, '.', 0) == 0;
    assert NonEmpty([""]) == [] && NonEmpty(["", ""]) == NonEmpty([""]);
  }

  /** splitDomain undoes joinDomain exactly on lists of clean labels. */
  lemma SplitUndoesJoin(parts: seq<string>)
    ensures DomainLabels(DomainOf(parts)) == parts <==> CleanLabels(parts)
  {
    if CleanLabels(parts) {
      if parts == [] {
        RootParts();
      } else {
        SplitOfDomain(parts);
        NonEmptyUnchanged(parts);
      }
    } else {
      PartsClean(DomainOf(parts), 0);
    }
  }

  /** joinDomain undoes splitDomain exactly on the canonical names. */
  lemma JoinUndoesSplit(s: string)
    ensures DomainOf(DomainLabels(s)) == s <==> Canonical(s)
  {
    var labels := DomainLabels(s);
    PartsClean(s, 0);
    if WellFormed(s) {
      WellFormedParts(s);
      JoinSplitFrom(s, 0);
      JoinAppend(labels, "");
    } else if s == "." {
      RootParts();
    } else if labels != [] {
      SplitOfDomain(labels);
    }
  }

  /** The name with its empty labels dropped. */
  function Squeeze(s: string): string {
    DomainOf(DomainLabels(s))
  }

  lemma SqueezeIsCanonical(s: string)
    ensures Canonical(Squeeze(s)) && DomainLabels(Squeeze(s)) == DomainLabels(s)
  {
    PartsClean(s, 0);
    SplitUndoesJoin(DomainLabels(s));
    if DomainLabels(s) != [] {
      SplitOfDomain(DomainLabels(s));
    }
  }

  // ---------- the parents the category walk tries ----------

  /** s[p..] is a strict suffix of s, at a label start, with at least two labels. */
  ghost predicate ParentStart(s: string, p: int) {
    0 < p < |s| && s[p - 1] == '.' && exists q :: p <= q < |s| - 1 && s[q] == '.'
  }

  /** For a canonical name the parents that the walk builds, label number i onwards, are exactly
      the strict string suffixes with two or more labels. */
  lemma ParentAtLabel(s: string, i: nat)
    requires Canonical(s) && 0 < i < |DomainLabels(s)| - 1
    ensures i < |Split(s)| && ParentStart(s, Offset(s, i))
    ensures DomainOf(DomainLabels(s)[i..]) == s[Offset(s, i)..]
  {
    RootParts();
    var labels := DomainLabels(s);
    WellFormedParts(s);
    SuffixAtLabel(s, i);
    SuffixAtLabel(s, i + 1);
    assert Split(s)[i..] == labels[i..] + [""];
    JoinAppend(labels[i..], "");
    OffsetIncreases(s, 0, i);
    OffsetIncreases(s, i, i + 1);
    OffsetIncreases(s, i + 1, |labels|);
    var q := Offset(s, i + 1) - 1;
    assert s[q] == '.' && Offset(s, i) <= q < |s| - 1;
  }

  lemma LabelAtParent(s: string, p: nat) returns (i: nat)
    requires Canonical(s) && ParentStart(s, p)
    ensures 0 < i < |DomainLabels(s)| - 1 && i < |Split(s)| && Offset(s, i) == p
  {
    WellFormedParts(s);
    i := LabelAtStart(s, p);
    var q :| p <= q < |s| - 1 && s[q] == '.';
    var j := LabelAtStart(s, q + 1);
    var e := LabelAtStart(s, |s|);
    if j < i { OffsetIncreases(s, j, i); }
    if e < j { OffsetIncreases(s, e, j); }
  }
}
