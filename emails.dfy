/** The e-mail pattern of app.py, EMAIL_RE:
      [A-Za-z0-9._%+-]+ @ [A-Za-z0-9.-]+ \. [A-Za-z]{2,}   (case-insensitive)
    used as a whole-string test (fullmatch) by the validator and as a scanner
    (findall) by the extraction, whose results are lower-cased and de-duplicated. */
module Emails {
  import opened Text
  import opened Seqs

  /** The three character classes of the pattern. The case-insensitive flag does not
      change them: each already holds both cases of every letter it holds. */
  datatype CharClass = LocalPart | DomainPart | Tld

  predicate InClass(c: char, k: CharClass) {
    match k
    case LocalPart => IsLetter(c) || IsDigit(c) || c == '.' || c == '_' || c == '%' || c == '+' || c == '-'
    case DomainPart => IsLetter(c) || IsDigit(c) || c == '.' || c == '-'
    case Tld => IsLetter(c)
  }

  /** s[st..e] matches the pattern as a whole, with its '@' at position at and its
      last dot at position dot, all positions counted in s. */
  predicate ShapeBetween(s: string, st: nat, e: nat, at: nat, dot: nat) {
    && st < at && at + 1 < dot && dot + 2 < e && e <= |s|
    && s[at] == '@' && s[dot] == '.'
    && (forall q :: st <= q < at ==> InClass(s[q], LocalPart))
    && (forall q :: at < q < dot ==> InClass(s[q], DomainPart))
    && (forall q :: dot < q < e ==> InClass(s[q], Tld))
  }

  /** s as a whole matches EMAIL_RE: a local part, an '@', a domain, a '.' and at
      least two letters. */
  ghost predicate EmailShape(s: string) {
    exists at, dot :: ShapeBetween(s, 0, |s|, at, dot)
  }

  /** EMAIL_RE.fullmatch(s) decided directly: no class admits '@', so the '@' is the
      first one, and the letters after the dot hold no '.', so the dot is the last one. */
  predicate FullMatch(s: string) {
    '@' in s && '.' in s && ShapeBetween(s, 0, |s|, IndexOf(s, '@'), LastIndexOf(s, '.'))
  }

  lemma FullMatchIsShape(s: string)
    ensures FullMatch(s) <==> EmailShape(s)
  {
    if EmailShape(s) {
      var at: nat, dot: nat :| ShapeBetween(s, 0, |s|, at, dot);
      assert s[at] in s && s[dot] in s;
      var at', dot' := IndexOf(s, '@'), LastIndexOf(s, '.');
      assert at' == at && dot' == dot;
    }
  }

  /** The end of the longest run of class-k characters starting at i: what a greedy
      `[...]+` consumes before any backtracking. */
  function Run(s: string, i: nat, k: CharClass): (j: nat)
    requires i <= |s|
    ensures i <= j <= |s|
    ensures forall p :: i <= p < j ==> InClass(s[p], k)
    ensures j == |s| || !InClass(s[j], k)
    decreases |s| - i
  {
    if i < |s| && InClass(s[i], k) then Run(s, i + 1, k) else i
  }

  /** A '.' at p followed by two letters: where `\.[A-Za-z]{2,}` can start. */
  predicate TldDotAt(s: string, p: nat) {
    p + 2 < |s| && s[p] == '.' && IsLetter(s[p + 1]) && IsLetter(s[p + 2])
  }

  /** The last position p with a < p < k where the top-level domain can start: the
      greedy domain part gives back one character at a time until this succeeds. */
  function TldDot(s: string, a: nat, k: nat): (r: Option<nat>)
    requires a <= k <= |s|
    ensures r.Some? ==> a < r.value < k && TldDotAt(s, r.value)
    ensures r.Some? ==> forall p :: r.value < p < k ==> !TldDotAt(s, p)
    ensures r.None? ==> forall p :: a < p < k ==> !TldDotAt(s, p)
    decreases k
  {
    if k <= a + 1 then None
    else if TldDotAt(s, k - 1) then Some(k - 1)
    else TldDot(s, a, k - 1)
  }

  /** The end of the match of EMAIL_RE anchored at st, as Python's backtracking
      matcher finds it, or None. The local part can only end at its longest run (the
      '@' is not a local character); the domain gives back characters until a dot
      followed by two letters is found; the letters then run as far as they go. */
  function MatchAt(s: string, st: nat): (r: Option<nat>)
    requires st <= |s|
    ensures r.Some? ==> st < r.value <= |s|
  {
    var n := Run(s, st, LocalPart);
    if n == st || n == |s| || s[n] != '@' then None
    else
      var m := Run(s, n + 1, DomainPart);
      match TldDot(s, n + 1, m)
      case None => None
      case Some(p) => Some(Run(s, p + 1, Tld))
  }

  /** A match of an infix, read in the infix's own positions. */
  lemma ShapeOfInfix(s: string, st: nat, e: nat, at: nat, dot: nat)
    requires st <= e <= |s| && st <= at && st <= dot
    ensures ShapeBetween(s, st, e, at, dot) <==> ShapeBetween(s[st..e], 0, e - st, at - st, dot - st)
  {
    var w := s[st..e];
    if at < e && dot < e {
      assert w[at - st] == s[at] && w[dot - st] == s[dot];
    }
    assert forall q :: st <= q < e ==> w[q - st] == s[q];
  }

  lemma ShapeBetweenIntro(s: string, st: nat, e: nat, at: nat, dot: nat)
    requires ShapeBetween(s, st, e, at, dot)
    ensures EmailShape(s[st..e])
  {
    ShapeOfInfix(s, st, e, at, dot);
    assert ShapeBetween(s[st..e], 0, |s[st..e]|, at - st, dot - st);
  }

  lemma ShapeBetweenElim(s: string, st: nat, e: nat) returns (at: nat, dot: nat)
    requires st <= e <= |s| && EmailShape(s[st..e])
    ensures ShapeBetween(s, st, e, at, dot)
  {
    var a, d :| ShapeBetween(s[st..e], 0, e - st, a, d);
    at, dot := st + a, st + d;
    ShapeOfInfix(s, st, e, at, dot);
  }

  /** What MatchAt finds is a full match of the pattern. */
  lemma MatchAtSound(s: string, st: nat)
    requires st <= |s| && MatchAt(s, st).Some?
    ensures EmailShape(s[st..MatchAt(s, st).value])
  {
    var n := Run(s, st, LocalPart);
    var m := Run(s, n + 1, DomainPart);
    var p := TldDot(s, n + 1, m).value;
    var e := Run(s, p + 1, Tld);
    ShapeBetweenIntro(s, st, e, n, p);
  }

  /** With a full match s[st..e] whose '@' is at position at, the greedy local run
      from st stops at that '@'. */
  lemma LocalRunStopsAtAt(s: string, st: nat, e: nat, at: nat, dot: nat)
    requires ShapeBetween(s, st, e, at, dot)
    ensures Run(s, st, LocalPart) == at
  {
  }

  /** ... and the greedy domain run from just after the '@' reaches at least e. */
  lemma DomainRunReaches(s: string, st: nat, e: nat, at: nat, dot: nat)
    requires ShapeBetween(s, st, e, at, dot)
    ensures e <= Run(s, at + 1, DomainPart)
  {
  }

  /** Every full match anchored at st ends no later than the one MatchAt finds. */
  lemma MatchAtLongest(s: string, st: nat, e: nat)
    requires st <= e <= |s| && EmailShape(s[st..e])
    ensures MatchAt(s, st).Some? && e <= MatchAt(s, st).value
  {
    var at, dot := ShapeBetweenElim(s, st, e);
    LocalRunStopsAtAt(s, st, e, at, dot);
    DomainRunReaches(s, st, e, at, dot);
    var m := Run(s, at + 1, DomainPart);
    assert TldDotAt(s, dot);
    var p := TldDot(s, at + 1, m).value;
    var f := Run(s, p + 1, Tld);
    assert p >= dot;
  }

  /** findall: scan from pos; at each position take the match anchored there if any
      and resume at its end, otherwise move one character on. */
  function FindAll(s: string, pos: nat): seq<string>
    requires pos <= |s|
    decreases |s| - pos
  {
    if pos == |s| then []
    else
      match MatchAt(s, pos)
      case Some(e) => [s[pos..e]] + FindAll(s, e)
      case None => FindAll(s, pos + 1)
  }

  /** Everything findall returns is a full match of the pattern. */
  lemma {:induction false} FindAllShapes(s: string, pos: nat)
    requires pos <= |s|
    ensures forall x :: x in FindAll(s, pos) ==> EmailShape(x)
    decreases |s| - pos
  {
    if pos < |s| {
      match MatchAt(s, pos)
      case Some(e) =>
        MatchAtSound(s, pos);
        FindAllShapes(s, e);
      case None =>
        FindAllShapes(s, pos + 1);
    }
  }

  /** When findall returns nothing, no infix from pos on matches the pattern. */
  lemma {:induction false} FindAllMissesNothing(s: string, pos: nat)
    requires pos <= |s| && FindAll(s, pos) == []
    ensures forall i, j :: pos <= i <= j <= |s| ==> !EmailShape(s[i..j])
    decreases |s| - pos
  {
    if pos < |s| {
      assert MatchAt(s, pos).None?;
      FindAllMissesNothing(s, pos + 1);
      forall j | pos <= j <= |s| ensures !EmailShape(s[pos..j]) {
        if EmailShape(s[pos..j]) { MatchAtLongest(s, pos, j); }
      }
    } else {
      forall i, j | pos <= i <= j <= |s| ensures !EmailShape(s[i..j]) {
        assert s[i..j] == [];
      }
    }
  }

  /** No match of the pattern starts at any position in [lo, hi). */
  predicate NoMatchBetween(s: string, lo: nat, hi: nat)
    requires hi <= |s|
  {
    forall q :: lo <= q < hi ==> MatchAt(s, q).None?
  }

  /** Each span sp[k] is the match anchored at its start, from pos on, and xs[k] is
      its text. */
  predicate SpansMatch(s: string, pos: nat, xs: seq<string>, sp: seq<(nat, nat)>) {
    && |sp| == |xs|
    && forall k :: 0 <= k < |sp| ==>
         && pos <= sp[k].0 < sp[k].1 <= |s| && MatchAt(s, sp[k].0) == Some(sp[k].1)
         && xs[k] == s[sp[k].0..sp[k].1]
  }

  /** The spans come in text order and do not overlap. */
  predicate SpansOrdered(sp: seq<(nat, nat)>) {
    forall k :: 0 <= k < |sp| - 1 ==> sp[k].1 <= sp[k + 1].0
  }

  /** No match starts in a gap: before the first span, between two, or after the last. */
  predicate GapsEmpty(s: string, pos: nat, sp: seq<(nat, nat)>)
    requires forall k :: 0 <= k < |sp| ==> sp[k].0 <= sp[k].1 <= |s|
  {
    && NoMatchBetween(s, pos, if sp == [] then |s| else sp[0].0)
    && (forall k :: 0 <= k < |sp| - 1 ==> NoMatchBetween(s, sp[k].1, sp[k + 1].0))
    && (sp != [] ==> NoMatchBetween(s, sp[|sp| - 1].1, |s|))
  }

  /** xs is what a leftmost, non-overlapping scan of s from pos returns, with sp[k]
      the span of xs[k]. */
  predicate ScannedAs(s: string, pos: nat, xs: seq<string>, sp: seq<(nat, nat)>) {
    SpansMatch(s, pos, xs, sp) && SpansOrdered(sp) && GapsEmpty(s, pos, sp)
  }

  /** findall returns the leftmost, non-overlapping matches in text order: its result
      is a scan of the text in the sense of ScannedAs, with the spans returned here. */
  lemma {:induction false} FindAllSpans(s: string, pos: nat) returns (sp: seq<(nat, nat)>)
    requires pos <= |s|
    ensures ScannedAs(s, pos, FindAll(s, pos), sp)
    decreases |s| - pos
  {
    if pos == |s| {
      sp := [];
    } else {
      match MatchAt(s, pos)
      case Some(f) =>
        var rest := FindAllSpans(s, f);
        ScannedCons(s, pos, f, rest);
        sp := [(pos, f)] + rest;
      case None =>
        sp := FindAllSpans(s, pos + 1);
        ScannedSkip(s, pos, sp);
    }
  }

  /** A match at pos followed by the scan from its end is the scan from pos. */
  lemma ScannedCons(s: string, pos: nat, f: nat, rest: seq<(nat, nat)>)
    requires pos < |s| && MatchAt(s, pos) == Some(f)
    requires ScannedAs(s, f, FindAll(s, f), rest)
    ensures ScannedAs(s, pos, FindAll(s, pos), [(pos, f)] + rest)
  {
    assert FindAll(s, pos) == [s[pos..f]] + FindAll(s, f);
    ConsMatch(s, pos, f, FindAll(s, f), rest);
    ConsOrdered(pos, f, rest);
    ConsGaps(s, pos, f, rest);
  }

  /** A position without a match followed by the scan from the next is the scan from it. */
  lemma ScannedSkip(s: string, pos: nat, sp: seq<(nat, nat)>)
    requires pos < |s| && MatchAt(s, pos).None?
    requires ScannedAs(s, pos + 1, FindAll(s, pos + 1), sp)
    ensures ScannedAs(s, pos, FindAll(s, pos), sp)
  {
    assert FindAll(s, pos) == FindAll(s, pos + 1);
    SkipGaps(s, pos, sp);
  }

  lemma SkipGaps(s: string, pos: nat, sp: seq<(nat, nat)>)
    requires pos < |s| && MatchAt(s, pos).None?
    requires forall k :: 0 <= k < |sp| ==> pos < sp[k].0 <= sp[k].1 <= |s|
    requires GapsEmpty(s, pos + 1, sp)
    ensures GapsEmpty(s, pos, sp)
  {
  }

  lemma ConsMatch(s: string, pos: nat, f: nat, xs: seq<string>, rest: seq<(nat, nat)>)
    requires pos < f <= |s| && MatchAt(s, pos) == Some(f)
    requires SpansMatch(s, f, xs, rest)
    ensures SpansMatch(s, pos, [s[pos..f]] + xs, [(pos, f)] + rest)
  {
    var sp, ys := [(pos, f)] + rest, [s[pos..f]] + xs;
    forall k | 0 < k < |sp|
      ensures sp[k] == rest[k - 1] && ys[k] == xs[k - 1]
    {
    }
  }

  lemma ConsOrdered(pos: nat, f: nat, rest: seq<(nat, nat)>)
    requires SpansOrdered(rest) && forall k :: 0 <= k < |rest| ==> f <= rest[k].0
    ensures SpansOrdered([(pos, f)] + rest)
  {
    var sp := [(pos, f)] + rest;
    forall k | 0 < k < |sp|
      ensures sp[k] == rest[k - 1]
    {
    }
  }

  lemma ConsGaps(s: string, pos: nat, f: nat, rest: seq<(nat, nat)>)
    requires pos < f <= |s| && forall k :: 0 <= k < |rest| ==> f <= rest[k].0 <= rest[k].1 <= |s|
    requires GapsEmpty(s, f, rest)
    ensures GapsEmpty(s, pos, [(pos, f)] + rest)
  {
    var sp := [(pos, f)] + rest;
    forall k | 0 < k < |sp|
      ensures sp[k] == rest[k - 1]
    {
    }
  }

  /** findall skips no address: every match in the text from pos on starts inside a
      span the scan returns, either that match itself or an earlier, overlapping one
      that the scan took instead (the matches it returns do not overlap). */
  lemma {:induction false} FindAllCovers(s: string, pos: nat, i: nat, j: nat) returns (a: nat, e: nat)
    requires pos <= i < j <= |s| && EmailShape(s[i..j])
    ensures pos <= a <= i < e <= |s| && s[a..e] in FindAll(s, pos)
    decreases |s| - pos
  {
    match MatchAt(s, pos)
    case Some(f) =>
      if i < f {
        a, e := pos, f;
      } else {
        a, e := FindAllCovers(s, f, i, j);
      }
      FindAllTakes(s, pos, f, s[a..e]);
    case None =>
      assert pos < i by {
        if pos == i { MatchAtLongest(s, pos, j); }
      }
      a, e := FindAllCovers(s, pos + 1, i, j);
  }

  /** A scan that finds a match at pos returns it, then whatever it returns from its end. */
  lemma FindAllTakes(s: string, pos: nat, f: nat, x: string)
    requires pos < |s| && MatchAt(s, pos) == Some(f)
    requires x == s[pos..f] || x in FindAll(s, f)
    ensures x in FindAll(s, pos)
  {
    assert FindAll(s, pos) == [s[pos..f]] + FindAll(s, f);
  }

  function LowerAll(xs: seq<string>): seq<string> {
    seq(|xs|, i requires 0 <= i < |xs| => Lower(xs[i]))
  }

  /** An address is its own key when dict.fromkeys de-duplicates a list of them. */
  function Itself(x: string): string { x }

  /** `list(dict.fromkeys(e.lower() for e in EMAIL_RE.findall(t)))`. */
  function Extract(t: string): seq<string> {
    KeepFirstBy(LowerAll(FindAll(t, 0)), Itself)
  }

  lemma LowerKeepsClass(c: char, k: CharClass)
    ensures InClass(LowerChar(c), k) <==> InClass(c, k)
  {
  }

  /** Lowering a string does not change whether it matches the pattern. */
  lemma LowerKeepsShape(s: string)
    ensures EmailShape(Lower(s)) <==> EmailShape(s)
  {
    var l := Lower(s);
    assert s[0..|s|] == s && l[0..|l|] == l;
    forall q, k | 0 <= q < |s| ensures InClass(l[q], k) <==> InClass(s[q], k) {
      LowerKeepsClass(s[q], k);
    }
    if EmailShape(s) {
      var at, dot := ShapeBetweenElim(s, 0, |s|);
      ShapeBetweenIntro(l, 0, |l|, at, dot);
    }
    if EmailShape(l) {
      var at, dot := ShapeBetweenElim(l, 0, |l|);
      ShapeBetweenIntro(s, 0, |s|, at, dot);
    }
  }

  /** The addresses extracted from a text: each is lower-case and matches the pattern
      as a whole, none repeats, and they are exactly the lower-cased findall matches. */
  lemma ExtractSpec(t: string)
    ensures forall x :: x in Extract(t) ==> IsLowered(x) && EmailShape(x)
    ensures forall a, b :: 0 <= a < b < |Extract(t)| ==> Extract(t)[a] != Extract(t)[b]
    ensures forall x :: x in FindAll(t, 0) ==> Lower(x) in Extract(t)
    ensures forall y :: y in Extract(t) ==> exists x :: x in FindAll(t, 0) && y == Lower(x)
  {
    ExtractFromMatches(t);
    var lowered := LowerAll(FindAll(t, 0));
    KeepFirstByDistinct(lowered, Itself);
    var r := KeepFirstBy(lowered, Itself);
    assert r == Extract(t);
    forall a, b | 0 <= a < b < |r| ensures r[a] != r[b] {
      assert Itself(r[a]) != Itself(r[b]);
    }
    ExtractCoversMatches(t);
  }

  lemma ExtractFromMatches(t: string)
    ensures forall y :: y in Extract(t) ==>
              IsLowered(y) && EmailShape(y) && exists x :: x in FindAll(t, 0) && y == Lower(x)
  {
    var found := FindAll(t, 0);
    var lowered := LowerAll(found);
    var r := Extract(t);
    FindAllShapes(t, 0);
    var idx := KeepFirstBySpec(lowered, Itself);
    forall y | y in r
      ensures IsLowered(y) && EmailShape(y) && exists x :: x in found && y == Lower(x)
    {
      var k :| 0 <= k < |r| && r[k] == y;
      var x := found[idx[k]];
      assert y == Lower(x);
      LowerIsLowered(x);
      LowerKeepsShape(x);
    }
  }

  lemma ExtractCoversMatches(t: string)
    ensures forall x :: x in FindAll(t, 0) ==> Lower(x) in Extract(t)
  {
    var found := FindAll(t, 0);
    var lowered := LowerAll(found);
    forall x | x in found ensures Lower(x) in Extract(t) {
      var j :| 0 <= j < |found| && found[j] == x;
      KeepFirstByCovers(lowered, Itself, j);
      var i :| 0 <= i < |Extract(t)| && Itself(Extract(t)[i]) == Itself(lowered[j]);
    }
  }

  /** A text with no address shape in it yields no address: "bad@" is one. */
  lemma ExtractNothing(t: string)
    requires forall i, j :: 0 <= i <= j <= |t| ==> !EmailShape(t[i..j])
    ensures Extract(t) == []
  {
    if FindAll(t, 0) != [] {
      FindAllShapes(t, 0);
      var x := FindAll(t, 0)[0];
      FindAllIsInfix(t, 0, x);
    }
  }

  /** Every match findall returns is an infix of the text. */
  lemma {:induction false} FindAllIsInfix(s: string, pos: nat, x: string)
    requires pos <= |s| && x in FindAll(s, pos)
    ensures exists i, j :: pos <= i <= j <= |s| && x == s[i..j]
    decreases |s| - pos
  {
    match MatchAt(s, pos)
    case Some(e) =>
      if x != s[pos..e] { FindAllIsInfix(s, e, x); }
    case None =>
      FindAllIsInfix(s, pos + 1, x);
  }
}
