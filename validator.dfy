/** looks_valid_email: the stricter structural test applied to each exploded Email. */
module Validator {
  import opened Text
  import opened Emails
  import opened Tables

  /** str.partition on a one-character separator: what precedes its first occurrence
      and what follows it, or the whole string and "" when it does not occur. */
  function Partition(s: string, sep: char): (string, string) {
    if sep in s then
      var k := IndexOf(s, sep);
      (s[..k], s[k + 1..])
    else (s, "")
  }

  /** `s.startswith(cs) or s.endswith(cs)` for a tuple of one-character strings cs. */
  predicate HasEdgeIn(s: string, cs: seq<char>) {
    s != [] && (s[0] in cs || s[|s| - 1] in cs)
  }

  function DomainOf(e: string): string { Partition(e, '@').1 }

  function LastLabel(e: string): string {
    var labels := Split(DomainOf(e), '.');
    labels[|labels| - 1]
  }

  /** The checks of looks_valid_email up to the domain-label test, in source order. */
  predicate PassesStructureChecks(e: string) {
    && FullMatch(e)
    && !HasEdgeIn(e, ".")
    && !Contains(e, "..")
    && var local, domain := Partition(e, '@').0, Partition(e, '@').1;
    && local != [] && domain != []
    && !HasEdgeIn(local, ".-")
    && !HasEdgeIn(domain, ".-")
    && '.' in domain && (forall l :: l in Split(domain, '.') ==> l != [])
  }

  /** No domain label starts or ends with '-': what the label test is evidently meant
      to check (as written, that line does not parse). */
  predicate LabelsHyphenFree(domain: string) {
    forall l :: l in Split(domain, '.') ==> !HasEdgeIn(l, "-")
  }

  /** `e.strip().lower()`, the form looks_valid_email tests. */
  function Normalize(raw: string): string { Lower(Strip(raw)) }

  /** looks_valid_email: non-strings (missing cells) are invalid; otherwise the
      normalised text must pass every check. */
  predicate LooksValidEmail(v: Cell) {
    match v
    case Missing => false
    case Text(raw) =>
      var e := Normalize(raw);
      PassesStructureChecks(e) && LabelsHyphenFree(DomainOf(e)) && |LastLabel(e)| >= 2
  }

  /** An accepted address has exactly one '@', and its last domain label is made of
      letters only, at least two of them. */
  lemma AcceptedShape(raw: string)
    requires LooksValidEmail(Text(raw))
    ensures var e := Normalize(raw);
            && '@' in e
            && (forall i, j :: 0 <= i < j < |e| && e[i] == '@' ==> e[j] != '@')
            && |LastLabel(e)| >= 2
            && (forall i :: 0 <= i < |LastLabel(e)| ==> IsLetter(LastLabel(e)[i]))
  {
    FullMatchShape(Normalize(raw));
  }

  /** What a full match of the pattern alone guarantees about the '@' and the last
      label. */
  lemma FullMatchShape(e: string)
    requires FullMatch(e)
    ensures '@' in e
    ensures forall i, j :: 0 <= i < j < |e| && e[i] == '@' ==> e[j] != '@'
    ensures |LastLabel(e)| >= 2
    ensures forall i :: 0 <= i < |LastLabel(e)| ==> IsLetter(LastLabel(e)[i])
  {
    var at, dot := IndexOf(e, '@'), LastIndexOf(e, '.');
    assert ShapeBetween(e, 0, |e|, at, dot);
    forall i, j | 0 <= i < j < |e| && e[i] == '@' ensures e[j] != '@' {
      assert !InClass('@', LocalPart) && !InClass('@', DomainPart) && !InClass('@', Tld);
      assert i == at;
    }
    var domain := DomainOf(e);
    assert domain == e[at + 1..];
    var k := dot - at - 1;
    assert domain[k] == '.';
    forall q | k < q < |domain| ensures domain[q] != '.' {
      assert domain[q] == e[at + 1 + q];
      assert InClass(e[at + 1 + q], Tld);
    }
    assert '.' !in domain[k + 1..];
    SplitLast(domain, '.', k);
    assert LastLabel(e) == domain[k + 1..] == e[dot + 1..];
    forall i | 0 <= i < |LastLabel(e)| ensures IsLetter(LastLabel(e)[i]) {
      assert LastLabel(e)[i] == e[dot + 1 + i];
      assert InClass(e[dot + 1 + i], Tld);
    }
  }

  /** Lower-casing does not create or remove white space. */
  lemma LowerKeepsSpace(c: char)
    ensures IsSpace(LowerChar(c)) == IsSpace(c)
  {
  }

  /** The form looks_valid_email tests: lower-case, no white space at either end. */
  predicate IsNormal(e: string) {
    IsLowered(e) && (e == [] || (!IsSpace(e[0]) && !IsSpace(e[|e| - 1])))
  }

  /** A normal string is its own normal form. */
  lemma NormalizeFixed(e: string)
    requires IsNormal(e)
    ensures Normalize(e) == e
  {
    StripLeftNoop(e);
    StripRightNoop(e);
    LowerOfLowered(e);
  }

  /** Normalize yields a normal string. */
  lemma NormalizeIsNormal(raw: string)
    ensures IsNormal(Normalize(raw))
  {
    var s := Strip(raw);
    var l := Lower(s);
    LowerIsLowered(s);
    if l != [] {
      assert l[0] == LowerChar(s[0]) && l[|l| - 1] == LowerChar(s[|s| - 1]);
      LowerKeepsSpace(s[0]);
      LowerKeepsSpace(s[|s| - 1]);
    }
  }

  /** looks_valid_email normalises before testing, so normalising first changes
      nothing: the test sees the same string either way. */
  lemma NormalizeIdempotent(raw: string)
    ensures Normalize(Normalize(raw)) == Normalize(raw)
    ensures LooksValidEmail(Text(Normalize(raw))) == LooksValidEmail(Text(raw))
  {
    NormalizeIsNormal(raw);
    NormalizeFixed(Normalize(raw));
  }

  /** A normal string that fails the structural checks is rejected. */
  lemma NormalFailsStructure(e: string)
    requires IsNormal(e) && !PassesStructureChecks(e)
    ensures !LooksValidEmail(Text(e))
  {
    NormalizeFixed(e);
  }

  /** A normal string that passes every check is accepted. */
  lemma NormalPasses(e: string)
    requires IsNormal(e) && PassesStructureChecks(e)
    requires LabelsHyphenFree(DomainOf(e)) && |LastLabel(e)| >= 2
    ensures LooksValidEmail(Text(e))
  {
    NormalizeFixed(e);
  }

  /** A string with two dots in a row fails the structural checks. */
  lemma DoubleDotFails(e: string, i: nat)
    requires i + 1 < |e| && e[i] == '.' && e[i + 1] == '.'
    ensures !PassesStructureChecks(e)
  {
    ContainsAt(e, "..", i);
  }

  /** A string whose domain starts or ends with '.' or '-' fails the structural checks. */
  lemma DomainEdgeFails(e: string)
    requires HasEdgeIn(DomainOf(e), ".-")
    ensures !PassesStructureChecks(e)
  {
  }

  /** The first c is at k when k holds one and nothing before it does. */
  lemma IndexOfAt(e: string, c: char, k: nat)
    requires k < |e| && e[k] == c && forall i :: 0 <= i < k ==> e[i] != c
    ensures c in e && IndexOf(e, c) == k
  {
    assert e[k] in e;
    var j := IndexOf(e, c);
    forall i | 0 <= i < j
      ensures e[..j][i] == e[i]
    {
    }
  }

  /** The last c is at k when k holds one and nothing after it does. */
  lemma LastIndexOfAt(e: string, c: char, k: nat)
    requires k < |e| && e[k] == c && forall i :: k < i < |e| ==> e[i] != c
    ensures c in e && LastIndexOf(e, c) == k
  {
    assert e[k] in e;
    var j := LastIndexOf(e, c);
    forall i | j < i < |e|
      ensures e[j + 1..][i - j - 1] == e[i]
    {
    }
  }

  /** Splitting at an '@' with none before it gives the text on either side. */
  lemma PartitionAt(e: string, k: nat, local: string, domain: string)
    requires k < |e| && e[k] == '@' && forall i :: 0 <= i < k ==> e[i] != '@'
    requires local == e[..k] && domain == e[k + 1..]
    ensures Partition(e, '@') == (local, domain)
  {
    IndexOfAt(e, '@', k);
  }

  /** A string whose only '@' before at and last '.' frame a match fully matches. */
  lemma FullMatchAt(e: string, at: nat, dot: nat)
    requires at < |e| && e[at] == '@' && forall i :: 0 <= i < at ==> e[i] != '@'
    requires dot < |e| && e[dot] == '.' && forall i :: dot < i < |e| ==> e[i] != '.'
    requires ShapeBetween(e, 0, |e|, at, dot)
    ensures FullMatch(e)
  {
    IndexOfAt(e, '@', at);
    LastIndexOfAt(e, '.', dot);
  }

  /** A domain with a single dot, at k, splits into the two labels around it. */
  lemma SplitAtDot(d: string, k: nat, l: string, r: string)
    requires k < |d| && d[k] == '.' && forall i :: 0 <= i < |d| && i != k ==> d[i] != '.'
    requires l == d[..k] && r == d[k + 1..]
    ensures Split(d, '.') == [l, r]
  {
    LastIndexOfAt(d, '.', k);
    forall i | 0 <= i < |l|
      ensures l[i] != '.'
    {
      assert l[i] == d[i];
    }
  }

  /** A domain of two labels is hyphen-free at the edges when both labels are. */
  lemma TwoLabelsHyphenFree(d: string, l: string, r: string)
    requires Split(d, '.') == [l, r] && !HasEdgeIn(l, "-") && !HasEdgeIn(r, "-")
    ensures LabelsHyphenFree(d)
  {
  }

  /** Neither accepted-looking example starts or ends with a dot, nor its parts with
      a dot or hyphen, and both domains hold a dot. */
  lemma ExampleEdges()
    ensures !HasEdgeIn("a@b.com", ".") && !HasEdgeIn("a", ".-") && !HasEdgeIn("b.com", ".-")
    ensures !HasEdgeIn("a@b-.com", ".") && !HasEdgeIn("b-.com", ".-")
    ensures '.' in "b.com" && '.' in "b-.com"
  {
  }

  /** The example addresses below are already in normal form. */
  lemma ExamplesNormal()
    ensures IsNormal("a@b.com") && IsNormal("a@b-.com") && IsNormal("a..b@c.com")
    ensures IsNormal(".a@b.com") && IsNormal("a@b") && IsNormal("a@-b.com")
  {
  }
  /** A string with no two dots in a row does not contain "..". */
  lemma SingleDots(e: string)
    requires forall i :: 0 <= i < |e| - 1 ==> !(e[i] == '.' && e[i + 1] == '.')
    ensures !Contains(e, "..")
  {
    NoAdjacentPair(e, '.', '.');
    assert ".." == ['.', '.'];
  }

  // ------------------------------------------------------------ "a@b.com"

  /** "a@b.com" is accepted. */
  lemma AcceptsPlainAddress()
    ensures LooksValidEmail(Text("a@b.com"))
  {
    ExamplesNormal();
    PlainAddressStructure();
    PlainAddressLabels();
    NormalPasses("a@b.com");
  }

  lemma PlainAddressStructure()
    ensures PassesStructureChecks("a@b.com")
  {
    PlainAddressMatches();
    PartitionAt("a@b.com", 1, "a", "b.com");
    ExampleEdges();
    SingleDots("a@b.com");
    PlainAddressSplit();
  }

  lemma PlainAddressMatches()
    ensures FullMatch("a@b.com")
  {
    FullMatchAt("a@b.com", 1, 3);
  }

  lemma PlainAddressSplit()
    ensures Split("b.com", '.') == ["b", "com"]
    ensures forall l :: l in Split("b.com", '.') ==> l != []
  {
    SplitAtDot("b.com", 1, "b", "com");
  }

  lemma PlainAddressLabels()
    ensures LabelsHyphenFree(DomainOf("a@b.com")) && |LastLabel("a@b.com")| >= 2
  {
    PartitionAt("a@b.com", 1, "a", "b.com");
    PlainAddressSplit();
    PlainAddressLabelEdges();
    TwoLabelsHyphenFree("b.com", "b", "com");
  }

  lemma PlainAddressLabelEdges()
    ensures !HasEdgeIn("b", "-") && !HasEdgeIn("com", "-")
  {
  }

  // ----------------------------------------------------------- "a@b-.com"

  /** The label test is not implied by the others: "a@b-.com" passes every other
      check and only the label test rejects it. */
  lemma LabelTestIsNeeded()
    ensures PassesStructureChecks("a@b-.com")
    ensures |LastLabel("a@b-.com")| >= 2
    ensures !LooksValidEmail(Text("a@b-.com"))
  {
    HyphenExampleStructure();
    ExamplesNormal();
    HyphenExampleLabels();
    NormalizeFixed("a@b-.com");
  }

  lemma HyphenExampleStructure()
    ensures PassesStructureChecks("a@b-.com")
  {
    HyphenExampleMatches();
    PartitionAt("a@b-.com", 1, "a", "b-.com");
    ExampleEdges();
    SingleDots("a@b-.com");
    HyphenExampleSplit();
  }

  lemma HyphenExampleMatches()
    ensures FullMatch("a@b-.com")
  {
    FullMatchAt("a@b-.com", 1, 4);
  }

  lemma HyphenExampleSplit()
    ensures Split("b-.com", '.') == ["b-", "com"]
    ensures forall l :: l in Split("b-.com", '.') ==> l != []
  {
    SplitAtDot("b-.com", 2, "b-", "com");
  }

  /** The domain of "a@b-.com" has the label "b-", and its last label is "com". */
  lemma HyphenExampleLabels()
    ensures "b-" in Split(DomainOf("a@b-.com"), '.') && HasEdgeIn("b-", "-")
    ensures LastLabel("a@b-.com") == "com"
  {
    PartitionAt("a@b-.com", 1, "a", "b-.com");
    HyphenExampleSplit();
  }

  // ------------------------------------------------------------ rejections

  /** "a..b@c.com" is rejected: it holds two dots in a row. */
  lemma RejectsDoubleDot()
    ensures !LooksValidEmail(Text("a..b@c.com"))
  {
    DoubleDotFails("a..b@c.com", 1);
    ExamplesNormal();
    NormalFailsStructure("a..b@c.com");
  }

  /** ".a@b.com" is rejected: it starts with a dot. */
  lemma RejectsLeadingDot()
    ensures !LooksValidEmail(Text(".a@b.com"))
  {
    ExamplesNormal();
    NormalizeFixed(".a@b.com");
  }

  /** "a@b" is rejected: no dot, so the pattern does not match in full. */
  lemma RejectsNoDot()
    ensures !LooksValidEmail(Text("a@b"))
  {
    ExamplesNormal();
    NormalizeFixed("a@b");
  }

  /** "a@-b.com" is rejected: its domain starts with a hyphen. */
  lemma RejectsHyphenStart()
    ensures !LooksValidEmail(Text("a@-b.com"))
  {
    HyphenStartDomain();
    DomainEdgeFails("a@-b.com");
    ExamplesNormal();
    NormalFailsStructure("a@-b.com");
  }

  lemma HyphenStartDomain()
    ensures DomainOf("a@-b.com") == "-b.com"
  {
    var e := "a@-b.com";
    assert IndexOf(e, '@') == 1;
    assert e[2..] == "-b.com";
  }

}
