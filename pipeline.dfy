/** The cleaning run of app.py once a table is loaded: optional trim, slot
    detection, explosion, then the filter stages in their fixed order, each of which
    keeps a subsequence of the rows. Indexing a column the table lacks raises
    KeyError in pandas; here it is an explicit error result. */
module Pipeline {
  import opened Text
  import opened Seqs
  import opened Tables
  import opened Validator
  import opened Slots
  import opened Explode
  import opened Flags
  import opened Trim

  /** The sidebar choices: the four checkboxes and the label of the chosen mode. */
  datatype Options = Options(trim: bool, dropNoEmail: bool, filterValid: bool, dedupe: bool, mode: string)

  /** KeyError: a stage read a column the table does not have. */
  datatype Failure = MissingColumn(name: string)

  datatype Result<T> = Ok(value: T) | Err(failure: Failure)

  function EmailOf(r: Row): Cell { Get(r, "Email") }

  predicate HasEmail(r: Row) { EmailOf(r).Text? }

  predicate HasValidEmail(r: Row) { LooksValidEmail(EmailOf(r)) }

  /** The rows the policy keeps: those whose Flags match none of its phrases. */
  function Untargeted(p: Policy): Row -> bool {
    r => !FlagsMatch(Get(r, "Flags"), Targets(p))
  }

  /** `dropna(subset=["Email"])`. */
  function DropMissingEmail(t: Table): Result<Table> {
    if "Email" !in t.columns then Err(MissingColumn("Email"))
    else Ok(Table(t.columns, Filter(t.rows, HasEmail)))
  }

  /** `work[work["Email"].apply(looks_valid_email)]`, run only when Email exists. */
  function KeepValidEmails(t: Table): Table {
    if "Email" in t.columns then Table(t.columns, Filter(t.rows, HasValidEmail)) else t
  }

  /** `work.loc[~mask_remove]`, where the mask reads the Flags column. */
  function RemoveByPolicy(t: Table, p: Policy): Result<Table> {
    if "Flags" !in t.columns then Err(MissingColumn("Flags"))
    else Ok(Table(t.columns, Filter(t.rows, Untargeted(p))))
  }

  /** `drop_duplicates(subset=["Email"], keep="first")`, run only when Email exists.
      Missing Emails count as equal to each other, as pandas groups NaN. */
  function DedupeByEmail(t: Table): Table {
    if "Email" in t.columns then Table(t.columns, KeepFirstBy(t.rows, EmailOf)) else t
  }

  /** The table after the optional trim. */
  function Prepared(df: Table, textCols: seq<string>, opts: Options): Table {
    if opts.trim then Trimmed(df, textCols) else df
  }

  /** The table after explosion by the detected slots. */
  function ExplodedStage(df: Table, textCols: seq<string>, opts: Options): Table {
    var w := Prepared(df, textCols, opts);
    Exploded(w, DetectedSlots(w.columns))
  }

  /** The filter stages after the explosion, in their fixed order. */
  function Filtered(e: Table, opts: Options): Result<Table> {
    var d := if opts.dropNoEmail then DropMissingEmail(e) else Ok(e);
    match d
    case Err(f) => Err(f)
    case Ok(w1) =>
      var w2 := if opts.filterValid then KeepValidEmails(w1) else w1;
      match RemoveByPolicy(w2, PolicyOf(opts.mode))
      case Err(f) => Err(f)
      case Ok(w3) => Ok(if opts.dedupe then DedupeByEmail(w3) else w3)
  }

  /** The cleaned table, or the KeyError the run stops with. */
  function Cleaned(df: Table, textCols: seq<string>, opts: Options): Result<Table> {
    Filtered(ExplodedStage(df, textCols, opts), opts)
  }

  /** The upload block: reassign `work` stage by stage. Also returns the detected
      slots, which the page reports. */
  method CleanContacts(df: Table, textCols: seq<string>, opts: Options)
    returns (slots: seq<nat>, res: Result<Table>)
    ensures slots == DetectedSlots(Prepared(df, textCols, opts).columns)
    ensures res == Cleaned(df, textCols, opts)
  {
    var work := df;
    if opts.trim {
      work := StripObjectColumns(work, textCols);
    }
    slots := DetectContactIndices(work.columns);
    work := ExplodeByContacts(work, slots);
    if opts.dropNoEmail {
      if "Email" !in work.columns {
        return slots, Err(MissingColumn("Email"));
      }
      work := Table(work.columns, Filter(work.rows, HasEmail));
    }
    if opts.filterValid && "Email" in work.columns {
      work := Table(work.columns, Filter(work.rows, HasValidEmail));
    }
    if "Flags" !in work.columns {
      return slots, Err(MissingColumn("Flags"));
    }
    work := Table(work.columns, Filter(work.rows, Untargeted(PolicyOf(opts.mode))));
    if opts.dedupe && "Email" in work.columns {
      work := Table(work.columns, KeepFirstBy(work.rows, EmailOf));
    }
    res := Ok(work);
  }

  // ---------------------------------------------------------------- properties

  /** dropna fails exactly when Email is absent; otherwise it keeps, in order, exactly
      the rows whose Email is present, each as often as it occurs. */
  lemma DropMissingEmailSpec(t: Table)
    ensures DropMissingEmail(t).Err? <==> "Email" !in t.columns
    ensures DropMissingEmail(t).Ok? ==>
              && DropMissingEmail(t).value.columns == t.columns
              && SelectedBy(DropMissingEmail(t).value.rows, t.rows, HasEmail)
              && |DropMissingEmail(t).value.rows| == Count(t.rows, HasEmail)
              && IsSubseq(DropMissingEmail(t).value.rows, t.rows)
              && (forall r :: r in DropMissingEmail(t).value.rows ==> EmailOf(r).Text?)
              && (forall k :: 0 <= k < |t.rows| && EmailOf(t.rows[k]).Text? ==> t.rows[k] in DropMissingEmail(t).value.rows)
  {
    FilterSpec(t.rows, HasEmail);
  }

  /** The validity filter keeps, in order, exactly the rows whose Email
      looks_valid_email accepts, each as often as it occurs; a missing Email is never
      accepted. */
  lemma KeepValidEmailsSpec(t: Table)
    ensures KeepValidEmails(t).columns == t.columns
    ensures IsSubseq(KeepValidEmails(t).rows, t.rows)
    ensures "Email" !in t.columns ==> KeepValidEmails(t) == t
    ensures "Email" in t.columns ==>
              && SelectedBy(KeepValidEmails(t).rows, t.rows, HasValidEmail)
              && |KeepValidEmails(t).rows| == Count(t.rows, HasValidEmail)
              && (forall r :: r in KeepValidEmails(t).rows ==> LooksValidEmail(EmailOf(r)) && EmailOf(r).Text?)
              && (forall k :: 0 <= k < |t.rows| && LooksValidEmail(EmailOf(t.rows[k])) ==> t.rows[k] in KeepValidEmails(t).rows)
  {
    if "Email" in t.columns {
      FilterSpec(t.rows, HasValidEmail);
    } else {
      SubseqRefl(t.rows);
    }
  }

  /** The policy filter fails exactly when Flags is absent; otherwise it removes
      exactly the rows whose Flags match the policy's phrases, keeping every other
      row as often as it occurs, so a row with missing Flags is always kept. */
  lemma RemoveByPolicySpec(t: Table, p: Policy)
    ensures RemoveByPolicy(t, p).Err? <==> "Flags" !in t.columns
    ensures RemoveByPolicy(t, p).Ok? ==>
              && RemoveByPolicy(t, p).value.columns == t.columns
              && SelectedBy(RemoveByPolicy(t, p).value.rows, t.rows, Untargeted(p))
              && |RemoveByPolicy(t, p).value.rows| == Count(t.rows, Untargeted(p))
              && IsSubseq(RemoveByPolicy(t, p).value.rows, t.rows)
              && (forall r :: r in RemoveByPolicy(t, p).value.rows ==> !FlagsMatch(Get(r, "Flags"), Targets(p)))
              && (forall k :: 0 <= k < |t.rows| && !FlagsMatch(Get(t.rows[k], "Flags"), Targets(p)) ==>
                    t.rows[k] in RemoveByPolicy(t, p).value.rows)
              && (forall k :: 0 <= k < |t.rows| && Get(t.rows[k], "Flags") == Missing ==>
                    t.rows[k] in RemoveByPolicy(t, p).value.rows)
  {
    FilterSpec(t.rows, Untargeted(p));
  }

  /** Dedupe keeps, in order, the first row of each Email value, so no two kept rows
      share an Email and every Email value of the input is still represented. */
  lemma DedupeByEmailSpec(t: Table)
    ensures DedupeByEmail(t).columns == t.columns
    ensures IsSubseq(DedupeByEmail(t).rows, t.rows)
    ensures "Email" !in t.columns ==> DedupeByEmail(t) == t
    ensures "Email" in t.columns ==>
              && (forall a, b :: 0 <= a < b < |DedupeByEmail(t).rows| ==>
                    EmailOf(DedupeByEmail(t).rows[a]) != EmailOf(DedupeByEmail(t).rows[b]))
              && (forall k :: 0 <= k < |t.rows| ==> KeyIn(EmailOf(t.rows[k]), DedupeByEmail(t).rows, EmailOf))
              && (exists idx :: SubseqVia(DedupeByEmail(t).rows, t.rows, idx)
                    && forall j :: 0 <= j < |t.rows| ==> (j in idx <==> FirstOfKey(t.rows, EmailOf, j)))
  {
    if "Email" in t.columns {
      var idx := KeepFirstBySpec(t.rows, EmailOf);
      KeepFirstByDistinct(t.rows, EmailOf);
      forall k | 0 <= k < |t.rows| ensures KeyIn(EmailOf(t.rows[k]), DedupeByEmail(t).rows, EmailOf) {
        KeepFirstByCovers(t.rows, EmailOf, k);
      }
    } else {
      SubseqRefl(t.rows);
    }
  }

  /** The run stops with a KeyError exactly when dropna is on and the exploded table
      has no Email column, or when it has no Flags column for the policy filter. */
  lemma CleanedFailure(df: Table, textCols: seq<string>, opts: Options)
    ensures var e := ExplodedStage(df, textCols, opts);
            Cleaned(df, textCols, opts).Err? <==> ((opts.dropNoEmail && "Email" !in e.columns) || "Flags" !in e.columns)
    ensures var e := ExplodedStage(df, textCols, opts);
            opts.dropNoEmail && "Email" !in e.columns ==> Cleaned(df, textCols, opts) == Err(MissingColumn("Email"))
  {
    var e := ExplodedStage(df, textCols, opts);
    DropMissingEmailSpec(e);
    if !opts.dropNoEmail || "Email" in e.columns {
      var w1 := if opts.dropNoEmail then DropMissingEmail(e).value else e;
      KeepValidEmailsSpec(w1);
      var w2 := if opts.filterValid then KeepValidEmails(w1) else w1;
      RemoveByPolicySpec(w2, PolicyOf(opts.mode));
    }
  }

  /** What a successful run promises: the header of the exploded table, its rows
      as an order-preserving subsequence, none matching the policy's phrases, every
      Email present after dropna, valid after the validity filter, and distinct
      after dedupe. */
  lemma CleanedRows(df: Table, textCols: seq<string>, opts: Options)
    requires Cleaned(df, textCols, opts).Ok?
    ensures var e := ExplodedStage(df, textCols, opts);
            var u := Cleaned(df, textCols, opts).value;
            && u.columns == e.columns
            && IsSubseq(u.rows, e.rows)
            && (forall r :: r in u.rows ==> !FlagsMatch(Get(r, "Flags"), Targets(PolicyOf(opts.mode))))
            && (opts.dropNoEmail ==> forall r :: r in u.rows ==> EmailOf(r).Text?)
            && (opts.filterValid && "Email" in e.columns ==> forall r :: r in u.rows ==> LooksValidEmail(EmailOf(r)))
            && (opts.dedupe && "Email" in e.columns ==>
                  forall a, b :: 0 <= a < b < |u.rows| ==> EmailOf(u.rows[a]) != EmailOf(u.rows[b]))
  {
    var e := ExplodedStage(df, textCols, opts);
    CleanedFailure(df, textCols, opts);
    var w1 := DropStage(e, opts);
    var w2 := ValidStage(w1, opts);
    var w3 := PolicyStage(w2, PolicyOf(opts.mode));
    var u := DedupeStage(w3, opts);
    assert u == Cleaned(df, textCols, opts).value;
    SubseqTransitive(u.rows, w3.rows, w2.rows);
    SubseqTransitive(u.rows, w2.rows, w1.rows);
    SubseqTransitive(u.rows, w1.rows, e.rows);
  }

  /** The optional dropna stage: a subsequence, every Email present when it ran. */
  lemma DropStage(e: Table, opts: Options) returns (w1: Table)
    requires opts.dropNoEmail ==> "Email" in e.columns
    ensures w1 == if opts.dropNoEmail then DropMissingEmail(e).value else e
    ensures w1.columns == e.columns && IsSubseq(w1.rows, e.rows)
    ensures opts.dropNoEmail ==> forall r :: r in w1.rows ==> EmailOf(r).Text?
  {
    if opts.dropNoEmail {
      w1 := DropMissingEmail(e).value;
      FilterSpec(e.rows, HasEmail);
    } else {
      w1 := e;
      SubseqRefl(e.rows);
    }
  }

  /** The optional validity stage: a subsequence, every Email accepted when it ran,
      and every row one of its input's. */
  lemma ValidStage(w1: Table, opts: Options) returns (w2: Table)
    ensures w2 == if opts.filterValid then KeepValidEmails(w1) else w1
    ensures w2.columns == w1.columns && IsSubseq(w2.rows, w1.rows)
    ensures forall r :: r in w2.rows ==> r in w1.rows
    ensures opts.filterValid && "Email" in w1.columns ==> forall r :: r in w2.rows ==> LooksValidEmail(EmailOf(r))
  {
    if opts.filterValid && "Email" in w1.columns {
      w2 := KeepValidEmails(w1);
      FilterSpec(w1.rows, HasValidEmail);
    } else {
      w2 := if opts.filterValid then KeepValidEmails(w1) else w1;
      SubseqRefl(w1.rows);
    }
    SubseqMembers(w2.rows, w1.rows);
  }

  /** The policy stage: a subsequence with no row matching the policy's phrases. */
  lemma PolicyStage(w2: Table, p: Policy) returns (w3: Table)
    requires "Flags" in w2.columns
    ensures w3 == RemoveByPolicy(w2, p).value
    ensures w3.columns == w2.columns && IsSubseq(w3.rows, w2.rows)
    ensures forall r :: r in w3.rows ==> r in w2.rows
    ensures forall r :: r in w3.rows ==> !FlagsMatch(Get(r, "Flags"), Targets(p))
  {
    w3 := RemoveByPolicy(w2, p).value;
    FilterSpec(w2.rows, Untargeted(p));
    SubseqMembers(w3.rows, w2.rows);
  }

  /** The optional dedupe stage: a subsequence with distinct Emails when it ran. */
  lemma DedupeStage(w3: Table, opts: Options) returns (u: Table)
    ensures u == if opts.dedupe then DedupeByEmail(w3) else w3
    ensures u.columns == w3.columns && IsSubseq(u.rows, w3.rows)
    ensures forall r :: r in u.rows ==> r in w3.rows
    ensures opts.dedupe && "Email" in w3.columns ==>
              forall a, b :: 0 <= a < b < |u.rows| ==> EmailOf(u.rows[a]) != EmailOf(u.rows[b])
  {
    if opts.dedupe && "Email" in w3.columns {
      u := DedupeByEmail(w3);
      var idx := KeepFirstBySpec(w3.rows, EmailOf);
      KeepFirstByDistinct(w3.rows, EmailOf);
      assert IsSubseq(u.rows, w3.rows);
    } else {
      u := if opts.dedupe then DedupeByEmail(w3) else w3;
      SubseqRefl(w3.rows);
    }
    SubseqMembers(u.rows, w3.rows);
  }

  /** With no detected slot the table passes through the explosion unchanged and gains
      no Email or Flags, so a table without a Flags column stops with a KeyError. */
  lemma NoSlotsStops(df: Table, textCols: seq<string>, opts: Options)
    requires DetectedSlots(Prepared(df, textCols, opts).columns) == []
    requires "Flags" !in Prepared(df, textCols, opts).columns
    ensures Cleaned(df, textCols, opts).Err?
  {
    CleanedFailure(df, textCols, opts);
  }

  /** With slots but no data rows the explosion builds a frame with no columns at
      all, so the run stops with a KeyError. */
  lemma EmptyTableStops(df: Table, textCols: seq<string>, opts: Options)
    requires DetectedSlots(Prepared(df, textCols, opts).columns) != []
    requires Prepared(df, textCols, opts).rows == []
    ensures Cleaned(df, textCols, opts).Err?
  {
    CleanedFailure(df, textCols, opts);
  }

  /** With trimming on, a missing flags cell in a text column reaches the explosion as
      the text "nan", so its rows carry Flags "nan" rather than Missing. */
  lemma TrimmedMissingFlagsBecomeNan()
    ensures FlagsValue(StripCell(Missing)) == Text("nan")
  {
    StripLeftNoop("nan");
    StripRightNoop("nan");
    LowerOfLowered("nan");
  }
}
