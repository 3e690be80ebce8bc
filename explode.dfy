/** explode_by_contacts: one output row per extracted address per contact slot, each
    carrying the flags of its own slot, with the raw per-slot columns dropped. */
module Explode {
  import opened Text
  import opened Seqs
  import opened Emails
  import opened Tables
  import opened Slots

  /** The literal lower-case names the lookups and the drop use for slot i. */
  function EmailColumn(i: nat): string { "contact_" + DecimalString(i) + "_email" }

  function FlagsColumn(i: nat): string { "contact_" + DecimalString(i) + "_flags" }

  /** The addresses read from an email cell: none when it is missing, else the
      lower-cased, de-duplicated findall of EMAIL_RE. */
  function EmailsIn(c: Cell): seq<string> {
    match c
    case Missing => []
    case Text(t) => Extract(t)
  }

  /** The Flags value for a slot: its flags text stripped and lower-cased, or Missing. */
  function FlagsValue(c: Cell): (r: Cell)
    ensures r.Missing? <==> c.Missing?
    ensures r.Text? ==> IsLowered(r.text)
  {
    match c
    case Missing => Missing
    case Text(t) => LowerIsLowered(Strip(t)); Text(Lower(Strip(t)))
  }

  /** A copy of row with Email and Flags set. */
  function Derive(row: Row, email: Cell, flags: Cell): Row {
    row["Email" := email]["Flags" := flags]
  }

  /** The rows slot i of one source row emits: one per address, or one with a missing
      Email when the cell yields none. */
  function SlotRows(row: Row, i: nat): seq<Row> {
    var emails := EmailsIn(Get(row, EmailColumn(i)));
    var flags := FlagsValue(Get(row, FlagsColumn(i)));
    if emails == [] then [Derive(row, Missing, flags)]
    else seq(|emails|, k requires 0 <= k < |emails| => Derive(row, Text(emails[k]), flags))
  }

  /** The rows of the given slots for one source row, slot after slot. */
  function SlotsRows(row: Row, slots: seq<nat>): seq<Row>
    decreases |slots|
  {
    if slots == [] then []
    else SlotsRows(row, slots[..|slots| - 1]) + SlotRows(row, slots[|slots| - 1])
  }

  /** Everything one source row emits, including the fallback row the loop appends
      when no slot emitted anything. */
  function ExplodeRow(row: Row, slots: seq<nat>): seq<Row> {
    var rs := SlotsRows(row, slots);
    if rs == [] then [Derive(row, Missing, Missing)] else rs
  }

  /** out_rows after the loop over the source rows. */
  function ExplodeRows(rows: seq<Row>, slots: seq<nat>): seq<Row>
    decreases |rows|
  {
    if rows == [] then []
    else ExplodeRows(rows[..|rows| - 1], slots) + ExplodeRow(rows[|rows| - 1], slots)
  }

  /** to_drop before its membership filter: both literal names of every slot. */
  function DropList(slots: seq<nat>): seq<string>
    decreases |slots|
  {
    if slots == [] then []
    else
      var i := slots[|slots| - 1];
      DropList(slots[..|slots| - 1]) + [EmailColumn(i), FlagsColumn(i)]
  }

  function DropSet(slots: seq<nat>): set<string> {
    set c | c in DropList(slots)
  }

  /** Assigning a column a row lacks appends it to the row's index. */
  function AddColumn(columns: seq<string>, c: string): seq<string> {
    if c in columns then columns else columns + [c]
  }

  /** The columns not in drop, in order. */
  function KeepColumns(columns: seq<string>, drop: set<string>): seq<string>
    decreases |columns|
  {
    if columns == [] then []
    else
      var c := columns[|columns| - 1];
      KeepColumns(columns[..|columns| - 1], drop) + (if c in drop then [] else [c])
  }

  function DropKeys(rows: seq<Row>, drop: set<string>): seq<Row> {
    seq(|rows|, k requires 0 <= k < |rows| => rows[k] - drop)
  }

  /** The header of the exploded table: the source header, then Email and Flags
      where new, less the dropped per-slot columns. */
  function ExplodedColumns(columns: seq<string>, slots: seq<nat>): seq<string> {
    KeepColumns(AddColumn(AddColumn(columns, "Email"), "Flags"), DropSet(slots))
  }

  /** The table explode_by_contacts returns. With no slots, the input itself. With
      slots but no source rows, pd.DataFrame([]): no columns at all. */
  function Exploded(t: Table, slots: seq<nat>): Table {
    if slots == [] then t
    else
      var rows := ExplodeRows(t.rows, slots);
      if rows == [] then Table([], [])
      else Table(ExplodedColumns(t.columns, slots), DropKeys(rows, DropSet(slots)))
  }

  /** One pass of the slot loop (app.py:69-93): read the slot's email and flags
      cells, and append a row per extracted address, or one row with a missing Email. */
  method AppendSlotRows(outRows: seq<Row>, row: Row, i: nat) returns (r: seq<Row>)
    ensures r == outRows + SlotRows(row, i)
    ensures |r| > |outRows|
  {
    r := outRows;
    var email := Get(row, EmailColumn(i));
    var flags := Get(row, FlagsColumn(i));
    var emailList := EmailsIn(email);
    if emailList == [] {
      r := r + [Derive(row, Missing, FlagsValue(flags))];
    } else {
      ghost var slotRows := SlotRows(row, i);
      assert |slotRows| == |emailList|;
      for e := 0 to |emailList|
        invariant r == outRows + slotRows[..e]
      {
        assert slotRows[e] == Derive(row, Text(emailList[e]), FlagsValue(flags));
        PrefixStep(slotRows, e);
        r := r + [Derive(row, Text(emailList[e]), FlagsValue(flags))];
      }
      assert slotRows[..|emailList|] == slotRows;
    }
  }

  /** The slots loop advanced by one slot: that slot's rows come next, and there is
      at least one of them. */
  lemma SlotsRowsStep(row: Row, slots: seq<nat>, s: nat)
    requires s < |slots|
    ensures SlotsRows(row, slots[..s + 1]) == SlotsRows(row, slots[..s]) + SlotRows(row, slots[s])
    ensures SlotRows(row, slots[s]) != []
  {
    PrefixStep(slots, s);
    var p := slots[..s + 1];
    assert p[..|p| - 1] == slots[..s] && p[|p| - 1] == slots[s];
  }

  /** One pass of the row loop (app.py:67-100): every slot in turn, then the
      fallback row if no slot emitted one. */
  method AppendRowRows(outRows: seq<Row>, row: Row, slots: seq<nat>) returns (r: seq<Row>)
    ensures r == outRows + ExplodeRow(row, slots)
  {
    r := outRows;
    var emitted := false;
    for s := 0 to |slots|
      invariant r == outRows + SlotsRows(row, slots[..s])
      invariant emitted <==> SlotsRows(row, slots[..s]) != []
    {
      SlotsRowsStep(row, slots, s);
      ConcatAssoc(outRows, SlotsRows(row, slots[..s]), SlotRows(row, slots[s]));
      r := AppendSlotRows(r, row, slots[s]);
      emitted := true;
    }
    assert slots[..|slots|] == slots;
    if !emitted {
      assert r == outRows;
      r := r + [Derive(row, Missing, Missing)];
    }
  }

  /** explode_by_contacts: the nested loops append to out_rows row by row, slot by
      slot, address by address, then the frame is built and the per-slot columns
      dropped. */
  method ExplodeByContacts(t: Table, slots: seq<nat>) returns (r: Table)
    ensures r == Exploded(t, slots)
    ensures slots == [] ==> r == t
    ensures slots != [] && t.rows == [] ==> r == Table([], [])
  {
    if slots == [] {
      return t;
    }
    var outRows: seq<Row> := [];
    for k := 0 to |t.rows|
      invariant outRows == ExplodeRows(t.rows[..k], slots)
    {
      outRows := AppendRowRows(outRows, t.rows[k], slots);
      assert t.rows[..k + 1][..k] == t.rows[..k];
    }
    assert t.rows[..|t.rows|] == t.rows;
    if outRows == [] {
      return Table([], []);
    }
    var columns := AddColumn(AddColumn(t.columns, "Email"), "Flags");
    var drop := DropSet(slots);
    r := Table(KeepColumns(columns, drop), DropKeys(outRows, drop));
  }

  // ---------------------------------------------------------------- properties

  /** A cell yields nothing when missing; otherwise lower-case addresses that each
      match EMAIL_RE in full, without repeats. */
  lemma EmailsInSpec(c: Cell)
    ensures c.Missing? ==> EmailsIn(c) == []
    ensures forall x :: x in EmailsIn(c) ==> IsLowered(x) && EmailShape(x)
    ensures forall a, b :: 0 <= a < b < |EmailsIn(c)| ==> EmailsIn(c)[a] != EmailsIn(c)[b]
  {
    if c.Text? {
      ExtractSpec(c.text);
    }
  }

  /** The literal names the lookups use are themselves detected as slot i, so a
      header written the way the cleaner expects is read and dropped. */
  lemma LiteralNamesDetected(i: nat)
    ensures ParseSlot(EmailColumn(i), "email") == Some(i)
    ensures ParseSlot(FlagsColumn(i), "flags") == Some(i)
  {
    var d := DecimalString(i);
    DecimalRoundTrip(i);
    LowerOfLowered(EmailColumn(i));
    LowerOfLowered(FlagsColumn(i));
    assert LoweredMatches(EmailColumn(i), "email", i) by {
      assert EmailColumn(i) == "contact_" + d + ("_" + "email");
    }
    assert LoweredMatches(FlagsColumn(i), "flags", i) by {
      assert FlagsColumn(i) == "contact_" + d + ("_" + "flags");
    }
    ParseLoweredComplete(EmailColumn(i), "email", i);
    ParseLoweredComplete(FlagsColumn(i), "flags", i);
  }

  /** Detection ignores case and leading zeros, the lookups do not: "Contact_1_Email"
      and "contact_01_email" both name slot 1, yet slot 1 is read from, and drops,
      "contact_1_email" only. */
  lemma DetectedButNotRead()
    ensures ParseSlot("Contact_1_Email", "email") == Some(1)
    ensures ParseSlot("contact_01_email", "email") == Some(1)
    ensures EmailColumn(1) == "contact_1_email"
    ensures "Contact_1_Email" !in DropSet([1]) && "contact_01_email" !in DropSet([1])
  {
    UpperCaseHeaderDetected();
    ZeroPaddedHeaderDetected();
    assert DropList([1]) == [EmailColumn(1), FlagsColumn(1)];
  }

  lemma UpperCaseHeaderDetected()
    ensures ParseSlot("Contact_1_Email", "email") == Some(1)
  {
    assert Lower("Contact_1_Email") == "contact_" + "1" + ("_" + "email");
    assert DigitsValue("1") == 1;
    ParseLoweredComplete(Lower("Contact_1_Email"), "email", 1);
  }

  lemma ZeroPaddedHeaderDetected()
    ensures ParseSlot("contact_01_email", "email") == Some(1)
  {
    assert Lower("contact_01_email") == "contact_" + "01" + ("_" + "email");
    assert DigitsValue("01") == 1 by {
      assert "01"[..1] == "0";
    }
    ParseLoweredComplete(Lower("contact_01_email"), "email", 1);
  }

  /** A cell holding no address, such as "bad@", gives a row with a missing Email
      (which dropna removes), not a row with an invalid one. */
  lemma BadAddressGivesMissingEmail()
    ensures var row := map["contact_1_email" := Text("bad@")];
            SlotRows(row, 1) == [Derive(row, Missing, Missing)]
  {
    assert EmailColumn(1) == "contact_1_email";
    assert FlagsColumn(1) == "contact_1_flags";
    assert Extract("bad@") == [];
  }

  /** How many rows slot i emits for a row: its address count, at least one. */
  function SlotWidth(row: Row, i: nat): nat {
    var m := |EmailsIn(Get(row, EmailColumn(i)))|;
    if m == 0 then 1 else m
  }

  /** The sum over the slots of max(m_i, 1). */
  function Total(row: Row, slots: seq<nat>): nat
    decreases |slots|
  {
    if slots == [] then 0 else Total(row, slots[..|slots| - 1]) + SlotWidth(row, slots[|slots| - 1])
  }

  /** Each source row emits exactly the sum over its slots of max(m_i, 1) rows,
      which is at least the number of slots. */
  lemma {:induction false} SlotsRowsCount(row: Row, slots: seq<nat>)
    ensures |SlotsRows(row, slots)| == Total(row, slots) >= |slots|
    decreases |slots|
  {
    if slots != [] {
      SlotsRowsCount(row, slots[..|slots| - 1]);
    }
  }

  /** The fallback row of app.py:95-100 is never emitted when there are slots. */
  lemma FallbackUnreachable(row: Row, slots: seq<nat>)
    requires slots != []
    ensures ExplodeRow(row, slots) == SlotsRows(row, slots)
  {
    SlotsRowsCount(row, slots);
  }

  function RowsTotal(rows: seq<Row>, slots: seq<nat>): nat
    decreases |rows|
  {
    if rows == [] then 0 else RowsTotal(rows[..|rows| - 1], slots) + Total(rows[|rows| - 1], slots)
  }

  /** With slots, the explosion emits the sum of the per-row counts, so never fewer
      rows than it reads. */
  lemma {:induction false} ExplodeRowsCount(rows: seq<Row>, slots: seq<nat>)
    requires slots != []
    ensures |ExplodeRows(rows, slots)| == RowsTotal(rows, slots) >= |rows|
    decreases |rows|
  {
    if rows != [] {
      ExplodeRowsCount(rows[..|rows| - 1], slots);
      FallbackUnreachable(rows[|rows| - 1], slots);
      SlotsRowsCount(rows[|rows| - 1], slots);
    }
  }

  /** Source-row order: the rows of a + b are those of a, then those of b. */
  lemma {:induction false} ExplodeRowsAppend(a: seq<Row>, b: seq<Row>, slots: seq<nat>)
    ensures ExplodeRows(a + b, slots) == ExplodeRows(a, slots) + ExplodeRows(b, slots)
    decreases |b|
  {
    if b == [] {
      assert a + b == a;
    } else {
      var b', x := b[..|b| - 1], b[|b| - 1];
      assert b == b' + [x];
      ExplodeRowsAppend(a, b', slots);
      ExplodeRowsAppendStep(a, b', x, slots);
    }
  }

  lemma ExplodeRowsAppendStep(a: seq<Row>, b: seq<Row>, x: Row, slots: seq<nat>)
    requires ExplodeRows(a + b, slots) == ExplodeRows(a, slots) + ExplodeRows(b, slots)
    ensures ExplodeRows(a + (b + [x]), slots) == ExplodeRows(a, slots) + ExplodeRows(b + [x], slots)
  {
    var ab := a + b;
    ConcatAssoc(a, b, [x]);
    ExplodeRowsSnoc(ab, x, slots);
    ExplodeRowsSnoc(b, x, slots);
    SnocRegroup(ExplodeRows(ab + [x], slots), ExplodeRows(ab, slots), ExplodeRows(a, slots),
                ExplodeRows(b, slots), ExplodeRows(b + [x], slots), ExplodeRow(x, slots));
  }

  lemma ExplodeRowsSnoc(init: seq<Row>, x: Row, slots: seq<nat>)
    ensures ExplodeRows(init + [x], slots) == ExplodeRows(init, slots) + ExplodeRow(x, slots)
  {
    assert (init + [x])[..|init|] == init;
  }

  /** Extraction order within a slot: its k-th row carries the k-th address. */
  lemma SlotRowsOrder(row: Row, i: nat)
    ensures |SlotRows(row, i)| == SlotWidth(row, i)
    ensures forall k :: 0 <= k < |EmailsIn(Get(row, EmailColumn(i)))| ==>
              SlotRows(row, i)[k]["Email"] == Text(EmailsIn(Get(row, EmailColumn(i)))[k])
  {
  }

  /** r is src with Email and Flags set from slot i and the columns in drop
      removed: Flags is the slot's normalised flags, Email is one of the slot's
      addresses or Missing when it has none, every other cell is src's. */
  ghost predicate DerivedFrom(r: Row, src: Row, i: nat, drop: set<string>) {
    var emails := EmailsIn(Get(src, EmailColumn(i)));
    && "Email" !in drop && "Flags" !in drop
    && r.Keys == (src.Keys + {"Email", "Flags"}) - drop
    && r["Flags"] == FlagsValue(Get(src, FlagsColumn(i)))
    && (if emails == [] then r["Email"] == Missing else r["Email"].Text? && r["Email"].text in emails)
    && (forall c :: c in r && c != "Email" && c != "Flags" ==> c in src && r[c] == src[c])
  }

  lemma SlotRowsDerived(row: Row, i: nat, r: Row)
    requires r in SlotRows(row, i)
    ensures DerivedFrom(r, row, i, {})
  {
    var emails := EmailsIn(Get(row, EmailColumn(i)));
    if emails != [] {
      var k :| 0 <= k < |SlotRows(row, i)| && SlotRows(row, i)[k] == r;
      assert r["Email"] == Text(emails[k]);
    }
  }

  lemma {:induction false} SlotsRowsDerived(row: Row, slots: seq<nat>, r: Row)
    requires r in SlotsRows(row, slots)
    ensures exists i :: i in slots && DerivedFrom(r, row, i, {})
    decreases |slots|
  {
    var init, i := slots[..|slots| - 1], slots[|slots| - 1];
    if r in SlotsRows(row, init) {
      SlotsRowsDerived(row, init, r);
      var j :| j in init && DerivedFrom(r, row, j, {});
      assert j in slots;
    } else {
      SlotRowsDerived(row, i, r);
    }
  }

  lemma {:induction false} ExplodeRowsDerived(rows: seq<Row>, slots: seq<nat>, r: Row)
    requires slots != [] && r in ExplodeRows(rows, slots)
    ensures exists k, i :: 0 <= k < |rows| && i in slots && DerivedFrom(r, rows[k], i, {})
    decreases |rows|
  {
    var init, row := rows[..|rows| - 1], rows[|rows| - 1];
    assert rows == init + [row];
    ExplodeRowsSnoc(init, row, slots);
    if r in ExplodeRows(init, slots) {
      ExplodeRowsDerived(init, slots, r);
      var k, i :| 0 <= k < |init| && i in slots && DerivedFrom(r, init[k], i, {});
      assert rows[k] == init[k];
    } else {
      var i := ExplodeRowDerived(row, slots, r);
      assert DerivedFrom(r, rows[|rows| - 1], i, {});
    }
  }

  /** Every row one source row emits is derived from it through one of the slots. */
  lemma ExplodeRowDerived(row: Row, slots: seq<nat>, r: Row) returns (i: nat)
    requires slots != [] && r in ExplodeRow(row, slots)
    ensures i in slots && DerivedFrom(r, row, i, {})
  {
    FallbackUnreachable(row, slots);
    SlotsRowsDerived(row, slots, r);
    i :| i in slots && DerivedFrom(r, row, i, {});
  }

  /** The per-slot names never collide with Email or Flags. */
  lemma {:induction false} DropSetSpares(slots: seq<nat>)
    ensures "Email" !in DropSet(slots) && "Flags" !in DropSet(slots)
    ensures forall i :: i in slots ==> EmailColumn(i) in DropSet(slots) && FlagsColumn(i) in DropSet(slots)
    decreases |slots|
  {
    if slots != [] {
      var init := slots[..|slots| - 1];
      DropSetSpares(init);
      assert DropSet(slots) == DropSet(init) + {EmailColumn(slots[|slots| - 1]), FlagsColumn(slots[|slots| - 1])};
      assert EmailColumn(slots[|slots| - 1])[0] == 'c' && FlagsColumn(slots[|slots| - 1])[0] == 'c';
      forall i | i in slots ensures EmailColumn(i) in DropSet(slots) && FlagsColumn(i) in DropSet(slots) {
        if i != slots[|slots| - 1] {
          assert i in init;
        }
      }
    }
  }

  /** With slots, every output row is a source row with Email and Flags taken from
      one of its slots and the per-slot columns removed. */
  lemma ExplodedRowsDerived(t: Table, slots: seq<nat>)
    requires slots != []
    ensures forall r :: r in Exploded(t, slots).rows ==>
              exists k, i :: 0 <= k < |t.rows| && i in slots && DerivedFrom(r, t.rows[k], i, DropSet(slots))
  {
    var drop := DropSet(slots);
    var rows := ExplodeRows(t.rows, slots);
    DropSetSpares(slots);
    forall r | r in Exploded(t, slots).rows
      ensures exists k, i :: 0 <= k < |t.rows| && i in slots && DerivedFrom(r, t.rows[k], i, drop)
    {
      var j :| 0 <= j < |rows| && r == rows[j] - drop;
      ExplodeRowsDerived(t.rows, slots, rows[j]);
      var k, i :| 0 <= k < |t.rows| && i in slots && DerivedFrom(rows[j], t.rows[k], i, {});
      DroppedDerived(rows[j], t.rows[k], i, drop);
    }
  }

  lemma DroppedDerived(r: Row, src: Row, i: nat, drop: set<string>)
    requires DerivedFrom(r, src, i, {}) && "Email" !in drop && "Flags" !in drop
    ensures DerivedFrom(r - drop, src, i, drop)
  {
  }

  /** KeepColumns keeps exactly the columns outside drop, and keeps them distinct. */
  lemma {:induction false} KeepColumnsSpec(columns: seq<string>, drop: set<string>)
    ensures forall c :: c in KeepColumns(columns, drop) <==> c in columns && c !in drop
    ensures (forall a, b :: 0 <= a < b < |columns| ==> columns[a] != columns[b]) ==>
            (forall a, b :: 0 <= a < b < |KeepColumns(columns, drop)| ==>
               KeepColumns(columns, drop)[a] != KeepColumns(columns, drop)[b])
    decreases |columns|
  {
    if columns != [] {
      var init, c := columns[..|columns| - 1], columns[|columns| - 1];
      KeepColumnsSpec(init, drop);
      assert columns == init + [c];
      if forall a, b :: 0 <= a < b < |columns| ==> columns[a] != columns[b] {
        assert forall a, b :: 0 <= a < b < |init| ==> init[a] != init[b] by {
          forall a, b | 0 <= a < b < |init| ensures init[a] != init[b] {
            assert init[a] == columns[a] && init[b] == columns[b];
          }
        }
        assert c !in init by {
          forall a | 0 <= a < |init| ensures init[a] != c {
            assert init[a] == columns[a];
          }
        }
      }
    }
  }

  lemma AddColumnSpec(columns: seq<string>, c: string)
    ensures ColumnSet(AddColumn(columns, c)) == ColumnSet(columns) + {c}
    ensures (forall a, b :: 0 <= a < b < |columns| ==> columns[a] != columns[b]) ==>
            (forall a, b :: 0 <= a < b < |AddColumn(columns, c)| ==>
               AddColumn(columns, c)[a] != AddColumn(columns, c)[b])
  {
  }

  /** With slots and at least one source row, the header gains Email and Flags and
      loses exactly the literal per-slot names; every other source column stays. */
  lemma ExplodedHeader(t: Table, slots: seq<nat>)
    requires slots != [] && t.rows != []
    ensures "Email" in Exploded(t, slots).columns && "Flags" in Exploded(t, slots).columns
    ensures forall i :: i in slots ==>
              EmailColumn(i) !in Exploded(t, slots).columns && FlagsColumn(i) !in Exploded(t, slots).columns
    ensures forall c :: c in t.columns && c !in DropSet(slots) ==> c in Exploded(t, slots).columns
  {
    ExplodeRowsCount(t.rows, slots);
    DropSetSpares(slots);
    var cols := AddColumn(AddColumn(t.columns, "Email"), "Flags");
    AddColumnSpec(t.columns, "Email");
    AddColumnSpec(AddColumn(t.columns, "Email"), "Flags");
    assert forall c :: c in cols <==> c in ColumnSet(cols);
    KeepColumnsSpec(cols, DropSet(slots));
  }

  lemma ExplodedColumnsSpec(columns: seq<string>, slots: seq<nat>)
    ensures ColumnSet(ExplodedColumns(columns, slots)) == (ColumnSet(columns) + {"Email", "Flags"}) - DropSet(slots)
    ensures (forall a, b :: 0 <= a < b < |columns| ==> columns[a] != columns[b]) ==>
            (forall a, b :: 0 <= a < b < |ExplodedColumns(columns, slots)| ==>
               ExplodedColumns(columns, slots)[a] != ExplodedColumns(columns, slots)[b])
  {
    var cols := AddColumn(AddColumn(columns, "Email"), "Flags");
    AddColumnSpec(columns, "Email");
    AddColumnSpec(AddColumn(columns, "Email"), "Flags");
    KeepColumnsSpec(cols, DropSet(slots));
  }

  /** Exploding a well-formed table gives a well-formed table: distinct columns, and
      every row holding exactly them. */
  lemma ExplodedWellFormed(t: Table, slots: seq<nat>)
    requires WellFormed(t)
    ensures WellFormed(Exploded(t, slots))
  {
    if slots != [] && t.rows != [] {
      ExplodeRowsCount(t.rows, slots);
      var drop := DropSet(slots);
      ExplodedColumnsSpec(t.columns, slots);
      var out := Exploded(t, slots);
      ExplodedRowsDerived(t, slots);
      forall k | 0 <= k < |out.rows| ensures out.rows[k].Keys == ColumnSet(out.columns) {
        assert out.rows[k] in out.rows;
        var j, i :| 0 <= j < |t.rows| && i in slots && DerivedFrom(out.rows[k], t.rows[j], i, drop);
      }
    }
  }
}
