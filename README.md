# DealMachine contact-export cleaner, modelled in Dafny

This project models the cleaning run of `app.py` (the "REInbox CSV Cleaner"). The
cleaner takes a DealMachine export whose property rows carry repeated contact slots
(`contact_<i>_email`, `contact_<i>_flags`). It proceeds as follows:

- It optionally trims the text columns.
- It detects the slot numbers from the header.
- It explodes every property row into one row per e-mail address found in each slot.
  Each row carries that slot's flags, stripped and lower-cased.
- It then filters, each step behind its own checkbox: optionally the rows without
  an Email are dropped, and optionally the rows whose Email fails `looks_valid_email`.
- It removes the rows whose Flags match the renter phrases (mode "Clone") or the
  likely-owner phrases (the other mode).
- It optionally de-duplicates by Email, keeping the first row of each.

A table is a header (`seq<string>`) and a sequence of rows. A row maps column names
to cells, and a cell is `Missing` (NaN / `pd.NA`) or `Text(s)`. The modules are:

| file | module | models |
|---|---|---|
| text.dfy | `Text` | `str.lower` (ASCII), `str.strip` (Python's white-space set), substring `in`, `str.split` |
| seqs.dfy | `Seqs` | boolean-mask filtering and keep-first-by-key (`dict.fromkeys`, `drop_duplicates`) as order-preserving subsequences |
| emails.dfy | `Emails` | `EMAIL_RE` as a whole-string test and as a `findall` scanner; the per-cell extraction |
| validator.dfy | `Validator` | `looks_valid_email` |
| tables.dfy | `Tables` | cells, rows, tables, `row.get` |
| slots.dfy | `Slots` | `detect_contact_indices`, `int()`/`str()` of slot numbers, `sorted()` of a set |
| explode.dfy | `Explode` | `explode_by_contacts` |
| flags.dfy | `Flags` | the phrase lists, the mode and `flags_match` |
| trim.dfy | `Trim` | `strip_object_columns` |
| pipeline.dfy | `Pipeline` | the stage order of the upload block and its KeyError paths |

The imperative parts keep their loops, each proved against a specification function:

- `detect_contact_indices` is two passes filling a set, then a sort.
- `explode_by_contacts` is nested loops appending to `out_rows`, with the `emitted`
  flag.
- `strip_object_columns` is a loop over the text columns.
- The run itself reassigns `work` stage by stage.

Greedy matching with backtracking is modelled by `Emails.MatchAt`. It takes the longest
local run, the `@`, and the longest domain run. It then takes the last dot inside that
run that is followed by two letters, and the letters after it. `Emails.MatchAtLongest`
proves this is the longest full match anchored at that position, which is what the
backtracking regex engine returns.

Where the documentation of the system and the code disagree, the model follows the code:

- The documentation says missing columns degrade gracefully. In the code, `dropna(subset=["Email"])`
  (app.py:150) and `work["Flags"]` (app.py:179, 185) raise KeyError when the
  exploded table lacks those columns. With no detected slots the input passes through
  unchanged, so this happens only when the uploaded table itself lacks Email (with
  dropna on) or Flags. With slots but no data rows it always happens, because
  `pd.DataFrame([])` has no columns. The model returns `Err(MissingColumn(..))` there.
- The documentation says `looks_valid_email` never raises. Line 39 of the code does not parse
  as written (see "Left out").

## Model

| member | source | states |
|---|---|---|
| Text.Lower | app.py:29 | `str.lower` on ASCII letters, also used at app.py:78, 84 and 174; stated by Text.LowerIsLowered and Text.LowerOfLowered (the result has no upper-case letter, the same length, and lowering a lowered text changes nothing) |
| Text.Strip | app.py:24 | `str.strip()`: the result is an infix of the input, everything cut on either side is white space, and the result neither starts nor ends with white space |
| Text.StripIdempotent | app.py:24 | stripping twice is stripping once |
| Text.Split | app.py:37 | `str.split(sep)` for one separator character: the pieces between separators, at least one; stated by Text.SplitJoin |
| Text.SplitJoin | app.py:37 | joining the pieces of `str.split(sep)` with sep gives the string back, and no piece holds sep |
| Text.Contains | app.py:175 | substring `in`, also used at app.py:32: some suffix of the text starts with the phrase; stated by Text.ContainsAt and Text.ContainsTransitive |
| Text.ContainsTransitive | app.py:175 | a text containing a phrase contains every phrase that phrase contains |
| Seqs.FilterSpec | app.py:150 | a boolean mask keeps, in order, exactly the rows satisfying it, each as often as it occurs: the kept positions are exactly those whose row satisfies the mask, and the count is the number of True entries |
| Seqs.KeepFirstBySpec | app.py:78 | keep-first selects exactly the positions whose key did not occur earlier, in order |
| Seqs.KeepFirstByDistinct | app.py:192 | after keep-first no two elements share a key |
| Seqs.KeepFirstByCovers | app.py:192 | every key of the input is still represented after keep-first |
| Seqs.SubseqTransitive | app.py:146-192 | a subsequence of a subsequence is a subsequence, so the stages compose |
| Emails.FullMatchIsShape | app.py:11 | the direct full-match test decides exactly whether the whole string matches `EMAIL_RE`, the same test `fullmatch` applies at app.py:30 |
| Emails.MatchAtSound | app.py:77 | what the scanner finds at a position is a full match of the pattern |
| Emails.MatchAtLongest | app.py:77 | every match anchored at a position ends no later than the one the scanner takes, which is what `findall` with the greedy pattern of app.py:11 returns |
| Emails.MatchAt | app.py:11 | the match the greedy pattern takes at one position; its properties are stated by Emails.MatchAtSound and Emails.MatchAtLongest |
| Emails.FindAll | app.py:77 | `EMAIL_RE.findall`: scan left to right, take the match at each position or move one on; stated by Emails.FindAllSpans, Emails.FindAllShapes, Emails.FindAllCovers and Emails.FindAllMissesNothing |
| Emails.Extract | app.py:77-78 | `list(dict.fromkeys(e.lower() for e in findall(...)))`; stated by Emails.ExtractSpec |
| Emails.FindAllSpans | app.py:77 | findall returns the leftmost, non-overlapping matches in text order: its k-th result is the text of a span (a_k, e_k) where the scan's match anchored at a_k ends at e_k, the spans are ordered and disjoint (e_k <= a_(k+1)), and no match starts before the first span, between two spans, or after the last |
| Emails.FindAllShapes | app.py:77 | every string `findall` returns matches the pattern in full |
| Emails.FindAllCovers | app.py:77 | findall skips no address: every match in the text starts inside a span the scan returns, that match itself or the overlapping one taken instead |
| Emails.FindAllMissesNothing | app.py:77 | when `findall` returns nothing, no infix of the text matches the pattern |
| Emails.LowerKeepsShape | app.py:11 | lower-casing a match keeps it a match (the pattern is case-insensitive) |
| Emails.ExtractSpec | app.py:77-78 | every extracted address is lower-case and matches in full, there are no repeats, every match appears lower-cased, and nothing else appears |
| Emails.ExtractNothing | app.py:75-80 | a text with no address shape anywhere yields no address |
| Validator.Partition | app.py:33 | `str.partition` on '@': the text before and after the first '@', or the whole text and "" without one; stated by Validator.PartitionAt |
| Validator.Normalize | app.py:29 | `e.strip().lower()`; stated by Validator.NormalizeIsNormal and Validator.NormalizeIdempotent |
| Validator.LooksValidEmail | app.py:27-41 | `looks_valid_email`: a missing cell fails, otherwise the stripped, lower-cased text must pass the checks in source order; stated by the Validator lemmas below |
| Validator.AcceptedShape | app.py:27-41 | an accepted address holds exactly one `@`, and its last domain label is letters only, at least two of them |
| Validator.FullMatchShape | app.py:30-40 | a full match alone already fixes the single `@` and an all-letter last label of length at least 2 |
| Validator.NormalizeIdempotent | app.py:29 | strip-then-lower is idempotent, so validating the normalised text gives the same answer |
| Validator.LabelTestIsNeeded | app.py:36-40 | "a@b-.com" passes every other check and is rejected only by the label-hyphen test |
| Validator.AcceptsPlainAddress | app.py:27-41 | "a@b.com" is accepted |
| Validator.RejectsDoubleDot | app.py:32 | "a..b@c.com" is rejected |
| Validator.RejectsLeadingDot | app.py:31 | ".a@b.com" is rejected |
| Validator.RejectsNoDot | app.py:30 | "a@b" is rejected |
| Validator.RejectsHyphenStart | app.py:36 | "a@-b.com" is rejected |
| Slots.DigitsValue | app.py:48 | `int()` of a run of ASCII digits, leading zeros allowed; stated by Slots.DecimalRoundTrip and Slots.ParseSlotSpec |
| Slots.DecimalString | app.py:69-70 | `str(i)` of a slot number, as the f-strings write it; stated by Slots.DecimalRoundTrip |
| Slots.DecimalRoundTrip | app.py:48 | `int(str(i)) == i`: the digits of `str(i)` parse back to i |
| Slots.ParseSlotSpec | app.py:45-53 | the column parser returns Some(i) exactly when the name matches `contact_(\d+)_<suffix>$` case-insensitively with digits worth i |
| Slots.HasMinimum | app.py:54 | a non-empty set of slot numbers has a least element |
| Slots.SortedElements | app.py:54 | `sorted()` of a set: strictly ascending, holding exactly the set's elements |
| Slots.ParseSlot | app.py:45-53 | the regex match of one column name against one suffix; stated by Slots.ParseSlotSpec |
| Slots.DetectedSlots | app.py:43-54 | `detect_contact_indices` as a value, the specification of Slots.DetectContactIndices; stated by Slots.SlotSetSpec and Slots.SortedElements |
| Slots.SlotSetSpec | app.py:43-54 | i is among the collected numbers exactly when some column matches either pattern with number i |
| Slots.DetectContactIndices | app.py:43-54 | the result is strictly ascending and holds exactly the numbers some column names by either pattern |
| Explode.FlagsValue | app.py:84 | the Flags value is missing exactly when the flags cell is, and is lower-case otherwise |
| Tables.Get | app.py:71-72 | `row.get(col, pd.NA)`: the row's cell, or Missing when the row lacks the column; used by every lemma about a slot's cells, e.g. Explode.BadAddressGivesMissingEmail |
| Explode.EmailsIn | app.py:74-78 | the addresses of one email cell: none when it is missing, else the extraction; stated by Explode.EmailsInSpec |
| Explode.EmailsInSpec | app.py:71-78 | a missing cell yields nothing; otherwise lower-case full matches without repeats |
| Explode.LiteralNamesDetected | app.py:69-70 | the literal names `contact_{i}_email`/`_flags` are detected as slot i |
| Explode.DetectedButNotRead | app.py:46-72 | "Contact_1_Email" and "contact_01_email" are detected as slot 1, yet slot 1 is read from, and drops (app.py:104), only "contact_1_email" |
| Explode.BadAddressGivesMissingEmail | app.py:74-85 | a slot cell "bad@" yields one row whose Email is missing, not an invalid one |
| Explode.Exploded | app.py:56-106 | `explode_by_contacts` as a value, the specification of Explode.ExplodeByContacts; stated by Explode.ExplodedRowsDerived, Explode.ExplodedHeader and Explode.ExplodeRowsCount |
| Explode.SlotRows | app.py:80-92 | the rows one slot of one source row emits, the value the address loop is proved to append; stated by Explode.SlotRowsOrder and Explode.SlotsRowsCount |
| Explode.ExplodeRow | app.py:68-100 | everything one source row emits, fallback row included, the value the slot loop is proved to append; stated by Explode.SlotsRowsCount and Explode.FallbackUnreachable |
| Explode.ExplodeRows | app.py:66-100 | `out_rows` after the loop over the source rows; stated by Explode.ExplodeRowsCount, Explode.ExplodeRowsAppend and Explode.ExplodedRowsDerived |
| Explode.DropSet | app.py:104 | `to_drop` before its filter: both literal names of every slot; stated by Explode.DropSetSpares (every slot's names are in it, Email and Flags never are) |
| Explode.AppendSlotRows | app.py:69-93 | one slot appends its rows: one per extracted address, or one with a missing Email |
| Explode.AppendRowRows | app.py:67-100 | one source row appends its slots' rows, then the fallback row if none was emitted |
| Explode.ExplodeByContacts | app.py:56-106 | the result is the exploded table: with no slots the input itself, with slots but no rows an empty frame without columns |
| Explode.SlotsRowsCount | app.py:68-93 | a source row emits exactly the sum over its slots of max(m_i, 1) rows, at least one per slot |
| Explode.FallbackUnreachable | app.py:95-100 | with at least one slot the fallback row is never emitted |
| Explode.ExplodeRowsCount | app.py:65-100 | with slots, the output holds the sum of the per-row counts, so at least as many rows as the input |
| Explode.ExplodeRowsAppend | app.py:66-100 | source-row order: the rows of a + b are those of a followed by those of b |
| Explode.SlotRowsOrder | app.py:88-92 | within a slot, the k-th row carries the k-th extracted address |
| Explode.ExplodedRowsDerived | app.py:82-105 | every output row is a source row, with Flags from one of its slots, Email one of that slot's addresses (or missing when it has none), every other cell kept, and the per-slot columns removed |
| Explode.ExplodedHeader | app.py:102-105 | with slots and rows, the header gains Email and Flags, loses the literal per-slot names, and keeps every other column |
| Explode.ExplodedWellFormed | app.py:102-105 | exploding a well-formed table gives one: distinct columns, every row holding exactly them |
| Flags.PolicyOf | app.py:177 | `mode.startswith("Clone")` picks the renter list, anything else the owner list; stated by Flags.ModeLabels |
| Flags.ModeLabels | app.py:110-116 | the radio's "Clone: ..." label picks the renter list and its "Owner-only: ..." label the owner list |
| Flags.Targets | app.py:159-168 | the phrase list each mode removes; stated by Flags.RenterListReduces and Flags.OwnerListReduces |
| Flags.FlagsMatch | app.py:171-175 | `flags_match`: false for a missing or empty value, else whether a phrase occurs in the lower-cased text; stated by Flags.RenterListReduces, Flags.OwnerListReduces and Flags.ModesDisagree |
| Flags.RenterListReduces | app.py:159-175 | the renter list matches exactly the non-empty values containing "likely renting" or "renter" |
| Flags.OwnerListReduces | app.py:164-175 | the owner list matches exactly the non-empty values containing "likely owner" |
| Flags.ModesDisagree | app.py:177-188 | "Likely Owner" is removed only in owner mode, "Resident, Likely Renting" only in clone mode |
| Trim.StripCell | app.py:24 | a trimmed cell is always text (a missing one becomes "nan") with no surrounding white space |
| Trim.StripCellIdempotent | app.py:24 | trimming a cell twice is trimming it once |
| Trim.Trimmed | app.py:21-25 | `strip_object_columns` as a value, the specification of Trim.StripObjectColumns; stated by Trim.TrimIdempotent and Trim.TrimmedWellFormed |
| Trim.StripObjectColumns | app.py:21-25 | header and row count are kept, each text column's cells are stripped, every other cell is untouched |
| Trim.TrimIdempotent | app.py:21-25 | trimming a table twice is trimming it once |
| Trim.TrimmedWellFormed | app.py:21-25 | trimming keeps a table well-formed |
| Pipeline.DropMissingEmail | app.py:149-150 | `dropna(subset=["Email"])`: KeyError without Email, else the rows with an Email; stated by Pipeline.DropMissingEmailSpec |
| Pipeline.KeepValidEmails | app.py:153-155 | the validity mask, applied only when Email is a column; stated by Pipeline.KeepValidEmailsSpec |
| Pipeline.RemoveByPolicy | app.py:177-188 | `work.loc[~mask_remove]` for the mode's phrase list: KeyError without Flags; stated by Pipeline.RemoveByPolicySpec |
| Pipeline.DedupeByEmail | app.py:190-192 | `drop_duplicates(subset=["Email"], keep="first")`, applied only when Email is a column; stated by Pipeline.DedupeByEmailSpec |
| Pipeline.Cleaned | app.py:145-192 | the whole run as a value, each optional stage behind its checkbox, the specification of Pipeline.CleanContacts; stated by Pipeline.CleanedFailure and Pipeline.CleanedRows |
| Pipeline.CleanContacts | app.py:134-192 | the run reports the slots detected on the (trimmed) header and returns exactly the composed stage result |
| Pipeline.DropMissingEmailSpec | app.py:149-151 | dropna fails exactly when Email is absent; otherwise it keeps, in order, exactly the positions whose row has an Email, so as many rows as have one |
| Pipeline.KeepValidEmailsSpec | app.py:153-156 | without an Email column the table is unchanged; otherwise the validity filter keeps, in order, exactly the positions whose Email is accepted, so as many rows as are accepted; a missing Email never is |
| Pipeline.RemoveByPolicySpec | app.py:177-188 | the policy filter fails exactly when Flags is absent; otherwise it keeps, in order, exactly the positions whose Flags do not match, so it removes as many rows as match, never one with missing Flags |
| Pipeline.DedupeByEmailSpec | app.py:190-193 | without an Email column the table comes back unchanged; otherwise dedupe keeps, in order, exactly the first row of each Email: no two kept rows share an Email, and every Email is still represented |
| Pipeline.CleanedFailure | app.py:149-185 | the run fails exactly when dropna is on and Email is absent, or Flags is absent |
| Pipeline.CleanedRows | app.py:146-192 | a successful run keeps the exploded header and a subsequence of its rows, none matching the policy; Emails are present after dropna, valid after the filter, distinct after dedupe |
| Pipeline.NoSlotsStops | app.py:177-185 | with no detected slot the input passes through unchanged (app.py:62-63), so with no Flags column in the input the run stops with a KeyError |
| Pipeline.EmptyTableStops | app.py:149-185 | with slots but no data rows the exploded frame has no columns (app.py:102), so the run stops with a KeyError |
| Pipeline.TrimmedMissingFlagsBecomeNan | app.py:24 | with trimming, a missing flags cell reaches the explosion as "nan" and gives Flags "nan" (app.py:84), not Missing |

## Left out

- CSV reading (`robust_read_csv`, app.py:13-19) and writing (`to_csv`) happen inside pandas. The model starts from a parsed table.
- The Streamlit page, sidebar, uploader, messages, preview and download button are user interface. The options are a record holding the four checkboxes and the chosen mode label, which `Flags.PolicyOf` maps to a `Policy` as `mode.startswith("Clone")` does.
- pandas dtype inference, which decides the columns `select_dtypes(include=["object"])` returns, is not modelled. `Trim.StripObjectColumns` takes the text columns as a parameter.
- Non-text cell values (numbers, and their `str()` formatting) are not modelled. A cell is text or missing.
- Text.Lower: only ASCII letters are lower-cased. Python's `str.lower` also maps other letters.
- Slots.ParseSlot and Emails.InClass: case-insensitive matching is ASCII only. Non-ASCII case folding under `re.I` (the Kelvin sign matching `k`, say) and non-ASCII `\d` digits are not modelled.
- Validator.LooksValidEmail: app.py:39 does not parse as written, because `any(...)` closes before the `for`. The model checks the evident intent, "no domain label starts or ends with `-`".
- Explode.ExplodeByContacts: pandas builds the frame's header from the rows' own index. The model uses the source header followed by Email and Flags, which is the same when every row holds exactly the table's columns. Duplicate column names are not modelled.
- Pipeline.KeepValidEmails: applying the validity mask to a table with no rows goes through pandas' handling of an empty object-typed mask, which is not modelled. pandas likely reads that empty mask as a column selection and returns a frame with no columns, so the run would then stop with a KeyError at `work["Flags"]` (app.py:179, 185). The model instead keeps the empty table with its columns and returns it.
- Pipeline.DedupeByEmail: missing Emails count as equal to each other, as `drop_duplicates` treats NaN. With dropna or the validity filter on, no missing Email reaches that stage.
