/** Flag classification: the two phrase lists, the mode that picks one of them, and
    flags_match, which looks for any of the phrases inside a Flags value. */
module Flags {
  import opened Text
  import opened Tables

  /** The mode radio: "Clone" removes renters, the other mode removes likely owners. */
  datatype Policy = Clone | OwnerOnly

  /** `mode.startswith("Clone")` picks the renter list; any other label the owner list. */
  function PolicyOf(modeLabel: string): Policy {
    if "Clone" <= modeLabel then Clone else OwnerOnly
  }

  /** The radio's labels, "Clone: remove renters only" and "Owner-only: keep renters,
      remove only 'Likely Owner...'", pick the renter and the owner list whatever
      follows their first words. */
  lemma ModeLabels(rest: string)
    ensures PolicyOf("Clone: " + rest) == Clone
    ensures PolicyOf("Owner-only: " + rest) == OwnerOnly
  {
    assert ("Clone: " + rest)[..5] == "Clone";
    assert ("Owner-only: " + rest)[0] == 'O';
  }

  const RentersOnly: seq<string> := ["resident, likely renting", "likely renting", "renter"]

  const OwnerExcl: seq<string> := ["likely owner, resident", "likely owner", "likely owner, family"]

  /** The phrases whose rows the mode removes. */
  function Targets(p: Policy): seq<string> {
    match p
    case Clone => RentersOnly
    case OwnerOnly => OwnerExcl
  }

  /** flags_match: false for a missing or empty value, else whether some target
      phrase occurs in the lower-cased text. */
  predicate FlagsMatch(v: Cell, targets: seq<string>) {
    match v
    case Missing => false
    case Text(f) => f != [] && exists t :: t in targets && Contains(Lower(f), t)
  }

  /** The longer renter phrase contains the shorter one, so the renter list matches
      exactly the values containing "likely renting" or "renter". */
  lemma RenterListReduces(v: Cell)
    ensures FlagsMatch(v, RentersOnly) <==>
              v.Text? && v.text != [] && (Contains(Lower(v.text), "likely renting") || Contains(Lower(v.text), "renter"))
  {
    if v.Text? && v.text != [] && Contains(Lower(v.text), "resident, likely renting") {
      ResidentRentingHasRenting();
      ContainsTransitive(Lower(v.text), "resident, likely renting", "likely renting");
    }
    if v.Text? && v.text != [] && Contains(Lower(v.text), "likely renting") {
      assert "likely renting" in RentersOnly;
    }
    if v.Text? && v.text != [] && Contains(Lower(v.text), "renter") {
      assert "renter" in RentersOnly;
    }
  }

  lemma ResidentRentingHasRenting()
    ensures Contains("resident, likely renting", "likely renting")
  {
    assert "resident, likely renting" == "resident, " + "likely renting" + "";
    ContainsConcat("resident, ", "likely renting", "");
  }

  /** Every owner phrase contains "likely owner", so the owner list matches exactly
      the values containing it. */
  lemma OwnerListReduces(v: Cell)
    ensures FlagsMatch(v, OwnerExcl) <==>
              v.Text? && v.text != [] && Contains(Lower(v.text), "likely owner")
  {
    if v.Text? && v.text != [] {
      var f := Lower(v.text);
      if Contains(f, "likely owner, resident") {
        assert "likely owner, resident" == "likely owner" + ", resident";
        ContainsOwnerVia(f, ", resident");
      }
      if Contains(f, "likely owner, family") {
        assert "likely owner, family" == "likely owner" + ", family";
        ContainsOwnerVia(f, ", family");
      }
      if Contains(f, "likely owner") {
        assert "likely owner" in OwnerExcl;
      }
    }
  }

  /** A value containing a phrase that starts with "likely owner" contains "likely owner". */
  lemma ContainsOwnerVia(f: string, rest: string)
    requires Contains(f, "likely owner" + rest)
    ensures Contains(f, "likely owner")
  {
    OwnerPrefixed(rest);
    ContainsTransitive(f, "likely owner" + rest, "likely owner");
  }

  /** Any phrase that starts with "likely owner" contains it. */
  lemma OwnerPrefixed(rest: string)
    ensures Contains("likely owner" + rest, "likely owner")
  {
    ContainsAt("likely owner" + rest, "likely owner", 0);
  }

  /** The modes disagree on the typical values: "Likely Owner" is removed only by
      the owner mode, "Resident, Likely Renting" only by the clone mode. */
  lemma ModesDisagree()
    ensures FlagsMatch(Text("Likely Owner"), Targets(OwnerOnly))
    ensures !FlagsMatch(Text("Likely Owner"), Targets(Clone))
    ensures FlagsMatch(Text("Resident, Likely Renting"), Targets(Clone))
    ensures !FlagsMatch(Text("Resident, Likely Renting"), Targets(OwnerOnly))
  {
    OwnerValueMatchesOwner();
    OwnerValueMissesRenter();
    RenterValueMatchesRenter();
    RenterValueMissesOwner();
  }

  lemma LowerOwnerValue()
    ensures Lower("Likely Owner") == "likely owner"
  {
  }

  lemma LowerRenterValue()
    ensures Lower("Resident, Likely Renting") == "resident, likely renting"
  {
  }

  lemma OwnerValueMatchesOwner()
    ensures FlagsMatch(Text("Likely Owner"), OwnerExcl)
  {
    LowerOwnerValue();
    assert "likely owner" == "" + "likely owner" + "";
    ContainsConcat("", "likely owner", "");
    assert "likely owner" in OwnerExcl;
  }

  lemma OwnerValueMissesRenter()
    ensures !FlagsMatch(Text("Likely Owner"), RentersOnly)
  {
    var f := "likely owner";
    LowerOwnerValue();
    NoAdjacentPair(f, 'n', 't');
    assert Contains("renter", "nt") by { ContainsAt("renter", "nt", 2); }
    if Contains(f, "renter") {
      ContainsTransitive(f, "renter", "nt");
    }
    assert Contains("likely renting", "nt") by { ContainsAt("likely renting", "nt", 9); }
    if Contains(f, "likely renting") {
      ContainsTransitive(f, "likely renting", "nt");
    }
    RenterListReduces(Text("Likely Owner"));
  }

  lemma RenterValueMatchesRenter()
    ensures FlagsMatch(Text("Resident, Likely Renting"), RentersOnly)
  {
    LowerRenterValue();
    ResidentRentingHasRenting();
    assert "likely renting" in RentersOnly;
  }

  lemma RenterValueMissesOwner()
    ensures !FlagsMatch(Text("Resident, Likely Renting"), OwnerExcl)
  {
    var f := "resident, likely renting";
    LowerRenterValue();
    NoAdjacentPair(f, 'o', 'w');
    assert Contains("likely owner", "ow") by { ContainsAt("likely owner", "ow", 7); }
    if Contains(f, "likely owner") {
      ContainsTransitive(f, "likely owner", "ow");
    }
    OwnerListReduces(Text("Resident, Likely Renting"));
  }
}
