/** detect_contact_indices: the contact slot numbers named by a header, from columns
    matching `contact_<digits>_email$` or `contact_<digits>_flags$` (re.match, so
    anchored at the start; case-insensitive). */
module Slots {
  import opened Text
  import opened Seqs

  predicate AllDigits(d: string) {
    forall i :: 0 <= i < |d| ==> IsDigit(d[i])
  }

  /** int(d) for a non-empty string of ASCII digits; leading zeros are allowed. */
  function DigitsValue(d: string): nat
    requires AllDigits(d)
    decreases |d|
  {
    if d == [] then 0
    else DigitsValue(d[..|d| - 1]) * 10 + (d[|d| - 1] as int - '0' as int)
  }

  /** str(n): the decimal digits of n, without leading zeros. */
  function DecimalString(n: nat): string
    decreases n
  {
    if n < 10 then [('0' as int + n) as char]
    else DecimalString(n / 10) + [('0' as int + n % 10) as char]
  }

  /** str and int are inverse on slot numbers. */
  lemma {:induction false} DecimalRoundTrip(n: nat)
    ensures |DecimalString(n)| > 0 && AllDigits(DecimalString(n))
    ensures DigitsValue(DecimalString(n)) == n
    decreases n
  {
    var s := DecimalString(n);
    if n >= 10 {
      DecimalRoundTrip(n / 10);
      assert s[..|s| - 1] == DecimalString(n / 10);
    }
  }

  /** Column name c matches `contact_(\d+)_<suffix>$` ignoring case, with the digits
      spelling i. `$` also matches just before a final newline. */
  ghost predicate MatchesSlotPattern(c: string, suffix: string, i: nat) {
    LoweredMatches(Lower(c), suffix, i)
  }

  ghost predicate LoweredMatches(l: string, suffix: string, i: nat) {
    exists d ::
      && |d| > 0 && AllDigits(d) && DigitsValue(d) == i
      && (l == "contact_" + d + ("_" + suffix) || l == "contact_" + d + ("_" + suffix) + "\n")
  }

  /** The two patterns' suffixes. */
  predicate IsSlotSuffix(suffix: string) { suffix == "email" || suffix == "flags" }

  /** The slot number captured when c matches `contact_(\d+)_<suffix>$`, if it does. */
  function ParseSlot(c: string, suffix: string): Option<nat> {
    ParseLowered(Lower(c), suffix)
  }

  function ParseLowered(l: string, suffix: string): Option<nat> {
    var body := if |l| > 0 && l[|l| - 1] == '\n' then l[..|l| - 1] else l;
    var tail := "_" + suffix;
    if |body| > 8 + |tail| && body[..8] == "contact_" && body[|body| - |tail|..] == tail
       && AllDigits(body[8..|body| - |tail|])
    then Some(DigitsValue(body[8..|body| - |tail|]))
    else None
  }

  lemma ParseLoweredSound(l: string, suffix: string, i: nat)
    requires ParseLowered(l, suffix) == Some(i)
    ensures LoweredMatches(l, suffix, i)
  {
    var tail := "_" + suffix;
    var body := if |l| > 0 && l[|l| - 1] == '\n' then l[..|l| - 1] else l;
    var d := body[8..|body| - |tail|];
    assert body == "contact_" + d + tail;
    if |l| > 0 && l[|l| - 1] == '\n' {
      assert l == body + "\n";
    }
  }

  lemma ParseLoweredComplete(l: string, suffix: string, i: nat)
    requires IsSlotSuffix(suffix)
    requires LoweredMatches(l, suffix, i)
    ensures ParseLowered(l, suffix) == Some(i)
  {
    var d :| && |d| > 0 && AllDigits(d) && DigitsValue(d) == i
             && (l == "contact_" + d + ("_" + suffix) || l == "contact_" + d + ("_" + suffix) + "\n");
    if l == "contact_" + d + ("_" + suffix) {
      ParseBuilt(d, suffix);
    } else {
      ParseBuiltNewline(d, suffix);
    }
  }

  /** A name built from digits d parses to their value. */
  lemma ParseBuilt(d: string, suffix: string)
    requires IsSlotSuffix(suffix) && |d| > 0 && AllDigits(d)
    ensures ParseLowered("contact_" + d + ("_" + suffix), suffix) == Some(DigitsValue(d))
  {
    ParseBody("contact_" + d + ("_" + suffix), d, suffix);
  }

  /** So does the same name followed by a newline, which `$` lets through. */
  lemma ParseBuiltNewline(d: string, suffix: string)
    requires IsSlotSuffix(suffix) && |d| > 0 && AllDigits(d)
    ensures ParseLowered("contact_" + d + ("_" + suffix) + "\n", suffix) == Some(DigitsValue(d))
  {
    var full := "contact_" + d + ("_" + suffix);
    var l := full + "\n";
    ParseBody(full, d, suffix);
    assert l[..|l| - 1] == full;
  }

  /** The pieces ParseLowered cuts out of a name built from digits d. */
  lemma ParseBody(full: string, d: string, suffix: string)
    requires IsSlotSuffix(suffix) && |d| > 0
    requires full == "contact_" + d + ("_" + suffix)
    ensures |full| > 8 + |"_" + suffix| && full[|full| - 1] != '\n'
    ensures full[..8] == "contact_" && full[|full| - |"_" + suffix|..] == "_" + suffix
    ensures full[8..|full| - |"_" + suffix|] == d
  {
    assert full[|full| - 1] == suffix[|suffix| - 1];
  }

  /** ParseSlot decides the pattern and captures its number. */
  lemma ParseSlotSpec(c: string, suffix: string, i: nat)
    requires IsSlotSuffix(suffix)
    ensures ParseSlot(c, suffix) == Some(i) <==> MatchesSlotPattern(c, suffix, i)
  {
    if ParseSlot(c, suffix) == Some(i) {
      ParseLoweredSound(Lower(c), suffix, i);
    }
    if MatchesSlotPattern(c, suffix, i) {
      ParseLoweredComplete(Lower(c), suffix, i);
    }
  }

  /** The slot numbers one column name contributes: by the email pattern, by the
      flags pattern, or both. */
  function SlotsOf(c: string): set<nat> {
    (match ParseSlot(c, "email") case Some(i) => {i} case None => {})
    + (match ParseSlot(c, "flags") case Some(i) => {i} case None => {})
  }

  function SlotSet(columns: seq<string>): set<nat> {
    set c, i | c in columns && i in SlotsOf(c) :: i
  }

  predicate StrictlyIncreasing(r: seq<nat>) {
    forall a, b :: 0 <= a < b < |r| ==> r[a] < r[b]
  }

  /** m is the least element of s. */
  predicate IsLeast(s: set<nat>, m: nat) {
    m in s && forall x :: x in s ==> m <= x
  }

  /** A non-empty set of numbers has a least element. */
  lemma {:induction false} HasMinimum(s: set<nat>)
    requires s != {}
    ensures exists m :: IsLeast(s, m)
    decreases |s|
  {
    var x :| x in s;
    if s - {x} != {} {
      HasMinimum(s - {x});
      var m' :| IsLeast(s - {x}, m');
      var m := if x < m' then x else m';
      forall y | y in s ensures m <= y {
        if y != x { assert y in s - {x}; }
      }
      assert IsLeast(s, m);
    } else {
      assert s == {x};
      assert IsLeast(s, x);
    }
  }

  /** sorted() of a set of numbers: its elements in strictly ascending order. */
  function SortedElements(s: set<nat>): (r: seq<nat>)
    ensures StrictlyIncreasing(r)
    ensures forall x :: x in r <==> x in s
    decreases |s|
  {
    if s == {} then []
    else
      HasMinimum(s);
      var m :| IsLeast(s, m);
      [m] + SortedElements(s - {m})
  }

  /** The slot numbers detect_contact_indices returns for a header. */
  function DetectedSlots(columns: seq<string>): seq<nat> {
    SortedElements(SlotSet(columns))
  }

  /** i is named by the header: some column matches either pattern with number i. */
  ghost predicate NamesSlot(columns: seq<string>, i: nat) {
    exists c :: c in columns && (MatchesSlotPattern(c, "email", i) || MatchesSlotPattern(c, "flags", i))
  }

  lemma SlotSetSpec(columns: seq<string>, i: nat)
    ensures i in SlotSet(columns) <==> NamesSlot(columns, i)
  {
    forall c | c in columns ensures i in SlotsOf(c) <==>
      (MatchesSlotPattern(c, "email", i) || MatchesSlotPattern(c, "flags", i))
    {
      ParseSlotSpec(c, "email", i);
      ParseSlotSpec(c, "flags", i);
    }
    if NamesSlot(columns, i) {
      var c :| c in columns && (MatchesSlotPattern(c, "email", i) || MatchesSlotPattern(c, "flags", i));
      assert i in SlotsOf(c);
    }
  }

  /** Some column before position k parses as slot i under the given suffix. */
  predicate ParsedBefore(columns: seq<string>, suffix: string, k: nat, i: nat)
    requires k <= |columns|
  {
    exists j :: 0 <= j < k && ParseSlot(columns[j], suffix) == Some(i)
  }

  lemma ParsedStep(columns: seq<string>, suffix: string, k: nat)
    requires k < |columns|
    ensures forall i: nat :: ParsedBefore(columns, suffix, k + 1, i) <==>
      (ParsedBefore(columns, suffix, k, i) || ParseSlot(columns[k], suffix) == Some(i))
  {
  }

  lemma SlotSetByParses(columns: seq<string>, idxs: set<nat>)
    requires forall i :: i in idxs <==>
      (ParsedBefore(columns, "email", |columns|, i) || ParsedBefore(columns, "flags", |columns|, i))
    ensures idxs == SlotSet(columns)
  {
    forall i ensures i in idxs <==> i in SlotSet(columns) {
      if i in idxs {
        var j :| 0 <= j < |columns| && (ParseSlot(columns[j], "email") == Some(i) || ParseSlot(columns[j], "flags") == Some(i));
        assert i in SlotsOf(columns[j]);
      }
      if i in SlotSet(columns) {
        var c :| c in columns && i in SlotsOf(c);
        var j :| 0 <= j < |columns| && columns[j] == c;
        assert ParsedBefore(columns, "email", |columns|, i) || ParsedBefore(columns, "flags", |columns|, i);
      }
    }
  }

  /** detect_contact_indices: one pass over the header for the email pattern and one
      for the flags pattern, collecting numbers into a set, then sorted(). The result
      is strictly ascending and holds exactly the numbers the header names. */
  method DetectContactIndices(columns: seq<string>) returns (r: seq<nat>)
    ensures r == DetectedSlots(columns)
    ensures StrictlyIncreasing(r)
    ensures forall i :: i in r <==> NamesSlot(columns, i)
  {
    var idxs: set<nat> := {};
    for k := 0 to |columns|
      invariant forall i :: i in idxs <==> ParsedBefore(columns, "email", k, i)
    {
      ParsedStep(columns, "email", k);
      var m := ParseSlot(columns[k], "email");
      if m.Some? {
        idxs := idxs + {m.value};
      }
    }
    for k := 0 to |columns|
      invariant forall i :: i in idxs <==>
        (ParsedBefore(columns, "email", |columns|, i) || ParsedBefore(columns, "flags", k, i))
    {
      ParsedStep(columns, "flags", k);
      var m := ParseSlot(columns[k], "flags");
      if m.Some? {
        idxs := idxs + {m.value};
      }
    }
    SlotSetByParses(columns, idxs);
    r := SortedElements(idxs);
    forall i ensures i in r <==> NamesSlot(columns, i) {
      SlotSetSpec(columns, i);
    }
  }
}
