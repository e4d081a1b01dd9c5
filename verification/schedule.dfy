/**
 * The rest of `scanShedule` (lib/textract.ts:165-233): finding the two header rows in the
 * grid, mapping the weekday columns, turning every data row into a `{materia, profesor,
 * horarios}` record, and the catch that answers `[]` whenever a header is missing.
 */
module Schedule {
  import opened Wrappers
  import opened Text
  import opened Seqs
  import opened SlotParser
  import Blocks
  import Grid

  /** The weekday names the header row must hold (line 167); unlike the feature flag, no SAB. */
  const Weekdays: seq<string> := ["LUN", "MAR", "MIE", "JUE", "VIE"]

  const SubjectLabel: string := "NOMBRE DE LA MATERIA"
  const InstructorLabel: string := "PROFESOR"

  /** The labels the content header row must hold (line 182). */
  const ContentLabels: seq<string> := [SubjectLabel, InstructorLabel]

  /** The grid: rows of cell texts, holes read as "". */
  type Table = seq<seq<string>>

  /** One subject of the schedule, with its slots keyed by weekday name. */
  datatype StructuredRow = StructuredRow(materia: string, profesor: string, horarios: map<string, Horario>)

  /** A weekday cell that looked like a slot but did not parse (the warning at lines 215-217). */
  datatype Warning = UnparsedSlot(cell: string, materia: string)

  /** A header column holding a weekday name. */
  datatype DayColumn = DayColumn(day: string, index: nat)

  /** The two errors thrown at lines 171 and 185. */
  datatype ScanError = DayHeaderNotFound | ContentHeaderNotFound

  /** Where the headers are: both header rows, the weekday columns and the two content columns. */
  datatype Layout = Layout(dayRow: nat, headerRow: nat, columns: seq<DayColumn>, subject: nat, instructor: nat) {

    /** `startRow` (lines 188-190): the row after the later of the two header rows. */
    function Start(): nat {
      (if dayRow < headerRow then headerRow else dayRow) + 1
    }
  }

  /** The structured rows and the warnings logged while building them. */
  datatype Extraction = Extraction(rows: seq<StructuredRow>, warnings: seq<Warning>)

  /** `row[k]` where a hole, or an index outside the row, reads as "". */
  function At(row: seq<string>, k: int): string {
    if 0 <= k < |row| then row[k] else ""
  }

  // ----- Header locator -----

  /** `labels.every(label => row.includes(label))`. */
  predicate HoldsAll(row: seq<string>, labels: seq<string>) {
    forall l | l in labels :: l in row
  }

  /** Row `p` is the first row holding every label. */
  predicate FirstHolding(table: Table, labels: seq<string>, p: nat) {
    p < |table| && HoldsAll(table[p], labels) && forall q | 0 <= q < p :: !HoldsAll(table[q], labels)
  }

  function FindFrom(table: Table, labels: seq<string>, from: nat): (r: Option<nat>)
    requires from <= |table|
    ensures r.None? <==> forall p | from <= p < |table| :: !HoldsAll(table[p], labels)
    ensures r.Some? ==>
              && from <= r.value < |table| && HoldsAll(table[r.value], labels)
              && forall p | from <= p < r.value :: !HoldsAll(table[p], labels)
    decreases |table| - from
  {
    if from == |table| then None
    else if HoldsAll(table[from], labels) then Some(from)
    else FindFrom(table, labels, from + 1)
  }

  /**
   * `table.find(row => labels.every(...))` followed by `table.indexOf` of the row found: each
   * row is its own array, so `indexOf` answers the position `find` stopped at.
   */
  function FindRow(table: Table, labels: seq<string>): (r: Option<nat>)
    ensures r.None? <==> forall p | 0 <= p < |table| :: !HoldsAll(table[p], labels)
    ensures r.Some? ==> FirstHolding(table, labels, r.value)
  {
    FindFrom(table, labels, 0)
  }

  /** `i` is where `name` first occurs in `row`. */
  predicate FirstIndex(row: seq<string>, name: string, i: nat) {
    i < |row| && row[i] == name && forall k | 0 <= k < i :: row[k] != name
  }

  /** `Array.prototype.indexOf`: the first position of `name`, or -1. */
  function IndexOf(row: seq<string>, name: string): (i: int)
    ensures -1 <= i < |row|
    ensures i == -1 <==> name !in row
    ensures 0 <= i ==> FirstIndex(row, name, i)
  {
    if |row| == 0 then -1
    else if row[0] == name then 0
    else
      var j := IndexOf(row[1..], name);
      assert forall k | 0 <= k < |row| - 1 :: row[1..][k] == row[k + 1];
      if j == -1 then -1 else j + 1
  }

  // ----- Column mapper -----

  predicate IsWeekday(s: string) {
    s in Weekdays
  }

  /**
   * Lines 174-178: one entry per header cell holding a weekday name, in column order, each
   * with its name and index; no other column is listed.
   */
  function WeekdayColumns(header: seq<string>): (cols: seq<DayColumn>)
    ensures forall t | 0 <= t < |cols| ::
              cols[t].index < |header| && cols[t].day == header[cols[t].index] && IsWeekday(cols[t].day)
    ensures forall t, u | 0 <= t < u < |cols| :: cols[t].index < cols[u].index
    ensures |cols| == |Positions(header, IsWeekday)|
    ensures forall t | 0 <= t < |cols| :: cols[t].index == Positions(header, IsWeekday)[t]
  {
    var ps := Positions(header, IsWeekday);
    seq(|ps|, t requires 0 <= t < |ps| => DayColumn(header[ps[t]], ps[t]))
  }

  /** Every header cell holding a weekday name is listed. */
  lemma WeekdayColumnsAreComplete(header: seq<string>, k: nat)
    requires k < |header| && IsWeekday(header[k])
    ensures exists t | 0 <= t < |WeekdayColumns(header)| :: WeekdayColumns(header)[t] == DayColumn(header[k], k)
  {
    var ps := Positions(header, IsWeekday);
    PositionsAreComplete(header, IsWeekday, k);
    var t :| 0 <= t < |ps| && ps[t] == k;
    assert WeekdayColumns(header)[t].index == k;
  }

  /**
   * Lines 167-186: the day header is looked for first, then the content header; the first
   * row holding all labels wins, and the content columns are the labels' first positions.
   */
  function Locate(table: Table): (r: Result<Layout, ScanError>)
    ensures r == Failure(DayHeaderNotFound) <==> forall p | 0 <= p < |table| :: !HoldsAll(table[p], Weekdays)
    ensures r == Failure(ContentHeaderNotFound) <==>
              && (exists p | 0 <= p < |table| :: HoldsAll(table[p], Weekdays))
              && (forall p | 0 <= p < |table| :: !HoldsAll(table[p], ContentLabels))
    ensures r.Success? ==>
              var l := r.value;
              && FirstHolding(table, Weekdays, l.dayRow)
              && FirstHolding(table, ContentLabels, l.headerRow)
              && l.columns == WeekdayColumns(table[l.dayRow])
              && FirstIndex(table[l.headerRow], SubjectLabel, l.subject)
              && FirstIndex(table[l.headerRow], InstructorLabel, l.instructor)
              && l.Start() <= |table|
  {
    match FindRow(table, Weekdays)
    case None => Failure(DayHeaderNotFound)
    case Some(d) =>
      var columns := WeekdayColumns(table[d]);
      match FindRow(table, ContentLabels)
      case None => Failure(ContentHeaderNotFound)
      case Some(h) =>
        assert SubjectLabel in ContentLabels && InstructorLabel in ContentLabels;
        var subject := IndexOf(table[h], SubjectLabel);
        var instructor := IndexOf(table[h], InstructorLabel);
        Success(Layout(d, h, columns, subject, instructor))
  }

  // ----- Row extractor -----

  /** Line 199: both content cells are truthy. */
  predicate Accepts(row: seq<string>, l: Layout) {
    At(row, l.subject) != "" && At(row, l.instructor) != ""
  }

  function Accepter(l: Layout): seq<string> -> bool {
    row => Accepts(row, l)
  }

  /** Line 208: a cell worth parsing is truthy, not blank once trimmed, and not a dash. */
  predicate SlotBearing(cell: string) {
    cell != "" && Trim(cell) != "" && cell != "-"
  }

  /** What one weekday cell contributes: nothing, a slot, or a warning. */
  datatype Outcome = Blank | Slot(horario: Horario) | Unparsed(cell: string)

  /** Lines 208-218 for one cell: skip it, store its parse, or warn about it. */
  function Classify(cell: string): Outcome {
    if !SlotBearing(cell) then Blank
    else
      match ParseHorario(cell)
      case Some(h) => Slot(h)
      case None => Unparsed(cell)
  }

  /** A weekday name and what its cell in the current row contributes. */
  datatype Entry = Entry(day: string, outcome: Outcome)

  /** The entries of `row`, one per weekday column, in column order. */
  function Entries(row: seq<string>, columns: seq<DayColumn>): (es: seq<Entry>)
    ensures |es| == |columns|
    ensures forall t | 0 <= t < |es| :: es[t] == Entry(columns[t].day, Classify(At(row, columns[t].index)))
  {
    seq(|columns|, t requires 0 <= t < |columns| => Entry(columns[t].day, Classify(At(row, columns[t].index))))
  }

  /** Some entry stores a slot for `day`. */
  predicate HasSlot(es: seq<Entry>, day: string) {
    exists t | 0 <= t < |es| :: es[t].day == day && es[t].outcome.Slot?
  }

  /** Entry `t` stores a slot and no later entry stores one for the same day. */
  predicate LastSlotFor(es: seq<Entry>, t: nat) {
    && t < |es|
    && es[t].outcome.Slot?
    && forall u | t < u < |es| :: es[u].day == es[t].day ==> !es[u].outcome.Slot?
  }

  lemma HasSlotStep(prefix: seq<Entry>, e: Entry)
    ensures forall d :: HasSlot(prefix + [e], d) <==> HasSlot(prefix, d) || (e.day == d && e.outcome.Slot?)
  {
    var es := prefix + [e];
    assert es[|prefix|] == e;
    forall d | HasSlot(prefix, d)
      ensures HasSlot(es, d)
    {
      var t :| 0 <= t < |prefix| && prefix[t].day == d && prefix[t].outcome.Slot?;
      assert es[t] == prefix[t];
    }
  }

  lemma LastSlotStep(prefix: seq<Entry>, e: Entry, t: nat)
    requires LastSlotFor(prefix + [e], t)
    ensures t == |prefix| || (LastSlotFor(prefix, t) && !(e.outcome.Slot? && e.day == prefix[t].day))
  {
    var es := prefix + [e];
    if t < |prefix| {
      assert es[|prefix|] == e && es[t] == prefix[t];
      forall u | t < u < |prefix|
        ensures prefix[u].day == prefix[t].day ==> !prefix[u].outcome.Slot?
      {
        assert es[u] == prefix[u];
      }
    }
  }

  /**
   * Lines 206-214, the slots: a day has an entry exactly when one of its cells gave a slot,
   * and holds the slot of the last such cell, since each store replaces the one before.
   */
  function SlotMap(es: seq<Entry>): (m: map<string, Horario>)
    ensures forall d :: d in m <==> HasSlot(es, d)
    ensures forall t: nat | LastSlotFor(es, t) :: es[t].day in m && m[es[t].day] == es[t].outcome.horario
    decreases |es|
  {
    if |es| == 0 then map[]
    else
      var prefix := es[..|es| - 1];
      var m := SlotMap(prefix);
      var e := es[|es| - 1];
      assert es == prefix + [e];
      HasSlotStep(prefix, e);
      LastSlotsStep(prefix, e);
      if e.outcome.Slot? then m[e.day := e.outcome.horario] else m
  }

  lemma LastSlotsStep(prefix: seq<Entry>, e: Entry)
    ensures forall t: nat | LastSlotFor(prefix + [e], t) ::
              t == |prefix| || (LastSlotFor(prefix, t) && !(e.outcome.Slot? && e.day == prefix[t].day))
  {
    forall t: nat | LastSlotFor(prefix + [e], t)
      ensures t == |prefix| || (LastSlotFor(prefix, t) && !(e.outcome.Slot? && e.day == prefix[t].day))
    {
      LastSlotStep(prefix, e, t);
    }
  }

  predicate IsUnparsed(e: Entry) {
    e.outcome.Unparsed?
  }

  /**
   * Lines 215-217, the warnings: one per cell that was worth parsing but did not parse, in
   * column order, carrying that cell and the subject.
   */
  function SlotWarnings(es: seq<Entry>, materia: string): (ws: seq<Warning>)
    ensures |ws| == |Positions(es, IsUnparsed)|
    ensures forall t | 0 <= t < |ws| :: ws[t] == UnparsedSlot(es[Positions(es, IsUnparsed)[t]].outcome.cell, materia)
  {
    var unparsed := Filter(es, IsUnparsed);
    seq(|unparsed|, t requires 0 <= t < |unparsed| => UnparsedSlot(unparsed[t].outcome.cell, materia))
  }

  /** Lines 202-222: the record built from one data row. */
  function BuildRow(row: seq<string>, l: Layout): StructuredRow {
    StructuredRow(Trim(At(row, l.subject)), Trim(At(row, l.instructor)), SlotMap(Entries(row, l.columns)))
  }

  /** The warnings logged while building the record of one data row. */
  function RowWarnings(row: seq<string>, l: Layout): seq<Warning> {
    SlotWarnings(Entries(row, l.columns), Trim(At(row, l.subject)))
  }

  /** Lines 197-222: one record per accepted data row, in grid order. */
  function ExtractRows(rows: Table, l: Layout): (out: seq<StructuredRow>)
    ensures |out| == |Positions(rows, Accepter(l))|
    ensures forall t | 0 <= t < |out| :: out[t] == BuildRow(rows[Positions(rows, Accepter(l))[t]], l)
  {
    var data := Filter(rows, Accepter(l));
    seq(|data|, t requires 0 <= t < |data| => BuildRow(data[t], l))
  }

  function RowWarner(l: Layout): seq<string> -> seq<Warning> {
    row => RowWarnings(row, l)
  }

  /** The warnings of the accepted data rows, row after row. */
  function ExtractWarnings(rows: Table, l: Layout): seq<Warning> {
    FlatMap(Filter(rows, Accepter(l)), RowWarner(l))
  }

  // ----- What a record and a warning hold -----

  /**
   * A weekday cell gives a slot exactly when it parses, and then holds its parse; it gives a
   * warning exactly when it is worth parsing (line 208) and does not parse.
   */
  lemma ClassifyFollowsParse(cell: string)
    ensures Classify(cell).Slot? <==> ParseHorario(cell).Some?
    ensures Classify(cell).Slot? ==> Classify(cell).horario == ParseHorario(cell).value
    ensures Classify(cell).Unparsed? <==> SlotBearing(cell) && ParseHorario(cell).None?
    ensures Classify(cell).Unparsed? ==> Classify(cell).cell == cell
  {
    if ParseHorario(cell).Some? {
      assert IsTrimmed("-");
    }
  }

  /** A day has a slot in the record exactly when one of its columns holds a cell that parses. */
  lemma SlotDaysAreParsedColumns(row: seq<string>, columns: seq<DayColumn>)
    ensures forall d :: d in SlotMap(Entries(row, columns)) <==>
              exists t | 0 <= t < |columns| :: columns[t].day == d && ParseHorario(At(row, columns[t].index)).Some?
  {
    var es := Entries(row, columns);
    forall t | 0 <= t < |columns|
      ensures es[t].outcome.Slot? <==> ParseHorario(At(row, columns[t].index)).Some?
    {
      ClassifyFollowsParse(At(row, columns[t].index));
    }
  }

  /**
   * When a day is named by several columns, the record holds the parse of the last of its
   * columns whose cell parses.
   */
  lemma LastParsedColumnWins(row: seq<string>, columns: seq<DayColumn>, t: nat)
    requires t < |columns| && ParseHorario(At(row, columns[t].index)).Some?
    requires forall u | t < u < |columns| && columns[u].day == columns[t].day :: ParseHorario(At(row, columns[u].index)).None?
    ensures columns[t].day in SlotMap(Entries(row, columns))
    ensures SlotMap(Entries(row, columns))[columns[t].day] == ParseHorario(At(row, columns[t].index)).value
  {
    var es := Entries(row, columns);
    ClassifyFollowsParse(At(row, columns[t].index));
    forall u | t < u < |es| && es[u].day == es[t].day
      ensures !es[u].outcome.Slot?
    {
      ClassifyFollowsParse(At(row, columns[u].index));
    }
    assert LastSlotFor(es, t);
  }

  /** The days of a record taken under a day header are weekday names. */
  lemma SlotDaysAreWeekdays(row: seq<string>, header: seq<string>)
    ensures forall d | d in SlotMap(Entries(row, WeekdayColumns(header))) :: d in Weekdays
  {
    SlotDaysAreParsedColumns(row, WeekdayColumns(header));
  }

  /** A row logs a warning for each entry that did not parse, carrying its cell and the subject. */
  lemma InSlotWarnings(es: seq<Entry>, materia: string, w: Warning)
    ensures w in SlotWarnings(es, materia) <==>
              exists t | 0 <= t < |es| :: es[t].outcome.Unparsed? && w == UnparsedSlot(es[t].outcome.cell, materia)
  {
    var ps := Positions(es, IsUnparsed);
    var ws := SlotWarnings(es, materia);
    if w in ws {
      var i :| 0 <= i < |ws| && ws[i] == w;
      assert es[ps[i]].outcome.Unparsed?;
    }
    if exists t | 0 <= t < |es| :: es[t].outcome.Unparsed? && w == UnparsedSlot(es[t].outcome.cell, materia) {
      var t :| 0 <= t < |es| && es[t].outcome.Unparsed? && w == UnparsedSlot(es[t].outcome.cell, materia);
      assert IsUnparsed(es[t]);
      PositionsAreComplete(es, IsUnparsed, t);
      var i :| 0 <= i < |ps| && ps[i] == t;
      assert ws[i] == w;
    }
  }

  /**
   * Column `t` of `row` holds a cell worth parsing that does not parse, and `w` is the warning
   * naming that cell and the row's trimmed subject.
   */
  predicate WarnsAbout(row: seq<string>, l: Layout, t: int, w: Warning) {
    && 0 <= t < |l.columns|
    && SlotBearing(At(row, l.columns[t].index))
    && ParseHorario(At(row, l.columns[t].index)).None?
    && w == UnparsedSlot(At(row, l.columns[t].index), Trim(At(row, l.subject)))
  }

  /** A row logs exactly the warnings about its weekday cells that do not parse. */
  lemma RowWarningsAreUnparsedCells(row: seq<string>, l: Layout, w: Warning)
    ensures w in RowWarnings(row, l) <==> RowWarnsAbout(row, l, w)
  {
    var es := Entries(row, l.columns);
    var materia := Trim(At(row, l.subject));
    InSlotWarnings(es, materia, w);
    if w in RowWarnings(row, l) {
      var t :| 0 <= t < |es| && es[t].outcome.Unparsed? && w == UnparsedSlot(es[t].outcome.cell, materia);
      ClassifyFollowsParse(At(row, l.columns[t].index));
      assert WarnsAbout(row, l, t, w);
    }
    if RowWarnsAbout(row, l, w) {
      var t :| 0 <= t < |l.columns| && WarnsAbout(row, l, t, w);
      ClassifyFollowsParse(At(row, l.columns[t].index));
      assert es[t].outcome.Unparsed? && w == UnparsedSlot(es[t].outcome.cell, materia);
    }
  }

  /** Some weekday column of `row` warrants the warning `w`. */
  predicate RowWarnsAbout(row: seq<string>, l: Layout, w: Warning) {
    exists t | 0 <= t < |l.columns| :: WarnsAbout(row, l, t, w)
  }

  /**
   * The warnings are exactly the weekday cells of accepted data rows that are worth parsing and
   * do not parse, each with the trimmed subject of its row.
   */
  lemma WarningsAreUnparsedCells(rows: Table, l: Layout, w: Warning)
    ensures w in ExtractWarnings(rows, l) <==>
              exists k | 0 <= k < |rows| :: Accepts(rows[k], l) && RowWarnsAbout(rows[k], l, w)
  {
    InFlatMapOfFilter(rows, Accepter(l), RowWarner(l), w);
    forall k | 0 <= k < |rows|
      ensures Accepter(l)(rows[k]) == Accepts(rows[k], l)
      ensures w in RowWarner(l)(rows[k]) <==> RowWarnsAbout(rows[k], l, w)
    {
      RowWarningsAreUnparsedCells(rows[k], l, w);
    }
  }

  // ----- The pipeline -----

  /** The grid `table` built from the blocks (lines 80-110). */
  function TableOf(blocks: seq<Blocks.Block>): Table {
    Grid.AssembleGrid(Blocks.ResolveCells(blocks))
  }

  /**
   * Lines 165-223 without the catch: the headers of `table`, and the records of the data rows
   * after them, or the error a missing header throws.
   */
  function ExtractTable(table: Table): (r: Result<Extraction, ScanError>)
    ensures r.Failure? <==>
              || (forall p | 0 <= p < |table| :: !HoldsAll(table[p], Weekdays))
              || (forall p | 0 <= p < |table| :: !HoldsAll(table[p], ContentLabels))
  {
    match Locate(table)
    case Failure(e) => Failure(e)
    case Success(l) =>
      var data := table[l.Start()..];
      Success(Extraction(ExtractRows(data, l), ExtractWarnings(data, l)))
  }

  /** The records `scanShedule` answers for a grid; any failure becomes the empty list. */
  function ScanTable(table: Table): (rows: seq<StructuredRow>)
    ensures (forall p | 0 <= p < |table| :: !HoldsAll(table[p], Weekdays)) ==> rows == []
    ensures (forall p | 0 <= p < |table| :: !HoldsAll(table[p], ContentLabels)) ==> rows == []
  {
    match ExtractTable(table)
    case Failure(_) => []
    case Success(e) => e.rows
  }

  /** `scanShedule` from the blocks on (lines 80-233): the records of the grid the blocks form. */
  function ScanSchedule(blocks: seq<Blocks.Block>): (rows: seq<StructuredRow>)
    ensures (forall p | 0 <= p < |TableOf(blocks)| :: !HoldsAll(TableOf(blocks)[p], Weekdays)) ==> rows == []
    ensures (forall p | 0 <= p < |TableOf(blocks)| :: !HoldsAll(TableOf(blocks)[p], ContentLabels)) ==> rows == []
  {
    ScanTable(TableOf(blocks))
  }

  /** Every grid cell is trimmed, since every resolved cell text is (line 92). */
  lemma TableIsTrimmed(blocks: seq<Blocks.Block>)
    ensures CellsTrimmed(TableOf(blocks))
  {
    Grid.GridIsTrimmed(Blocks.ResolveCells(blocks));
  }

  predicate CellsTrimmed(table: Table) {
    forall p, k | 0 <= p < |table| && 0 <= k < |table[p]| :: IsTrimmed(table[p][k])
  }

  /** A cell of a trimmed table read with `At` is trimmed, so `.trim()` leaves it as it is. */
  lemma TrimmedCellIsKept(table: Table, p: nat, k: int)
    requires p < |table| && CellsTrimmed(table)
    ensures IsTrimmed(At(table[p], k)) && Trim(At(table[p], k)) == At(table[p], k)
  {
  }

  /**
   * With both header rows present in a trimmed grid, one record per accepted data row after
   * the headers, in grid order: its subject and instructor cells as they stand, and its slots.
   */
  lemma ScannedRowsAreAcceptedDataRows(table: Table)
    requires CellsTrimmed(table)
    requires exists p | 0 <= p < |table| :: HoldsAll(table[p], Weekdays)
    requires exists p | 0 <= p < |table| :: HoldsAll(table[p], ContentLabels)
    ensures Locate(table).Success?
    ensures var l := Locate(table).value;
            var data := table[l.Start()..];
            var ps := Positions(data, Accepter(l));
            && |ScanTable(table)| == |ps|
            && forall t | 0 <= t < |ps| ::
                 ScanTable(table)[t] ==
                   StructuredRow(At(data[ps[t]], l.subject), At(data[ps[t]], l.instructor), SlotMap(Entries(data[ps[t]], l.columns)))
  {
    var l := Locate(table).value;
    var data := table[l.Start()..];
    SuffixIsTrimmed(table, l.Start());
    assert ScanTable(table) == ExtractRows(data, l);
    ExtractedRecordsKeepCells(data, l);
  }

  lemma SuffixIsTrimmed(table: Table, start: nat)
    requires CellsTrimmed(table) && start <= |table|
    ensures CellsTrimmed(table[start..])
  {
    var data := table[start..];
    forall p, k | 0 <= p < |data| && 0 <= k < |data[p]|
      ensures IsTrimmed(data[p][k])
    {
      assert data[p] == table[start + p];
    }
  }

  /** The records built from a trimmed table hold the subject and instructor cells as they stand. */
  lemma ExtractedRecordsKeepCells(rows: Table, l: Layout)
    requires CellsTrimmed(rows)
    ensures var ps := Positions(rows, Accepter(l));
            forall t | 0 <= t < |ps| ::
              ExtractRows(rows, l)[t] ==
                StructuredRow(At(rows[ps[t]], l.subject), At(rows[ps[t]], l.instructor), SlotMap(Entries(rows[ps[t]], l.columns)))
  {
    var ps := Positions(rows, Accepter(l));
    forall t | 0 <= t < |ps|
      ensures BuildRow(rows[ps[t]], l) ==
                StructuredRow(At(rows[ps[t]], l.subject), At(rows[ps[t]], l.instructor), SlotMap(Entries(rows[ps[t]], l.columns)))
    {
      TrimmedCellIsKept(rows, ps[t], l.subject);
      TrimmedCellIsKept(rows, ps[t], l.instructor);
      BuildRowOfTrimmed(rows[ps[t]], l);
    }
  }

  lemma BuildRowOfTrimmed(row: seq<string>, l: Layout)
    requires IsTrimmed(At(row, l.subject)) && IsTrimmed(At(row, l.instructor))
    ensures BuildRow(row, l) == StructuredRow(At(row, l.subject), At(row, l.instructor), SlotMap(Entries(row, l.columns)))
  {
  }

  /** Record `r` has a non-empty trimmed subject and instructor, and slots only under weekday names. */
  predicate IsFilled(r: StructuredRow) {
    && r.materia != "" && IsTrimmed(r.materia)
    && r.profesor != "" && IsTrimmed(r.profesor)
    && forall d | d in r.horarios :: d in Weekdays
  }

  /**
   * Every record answered for a trimmed grid is filled, and there are no more records than
   * rows after the headers.
   */
  lemma ScannedRecordsAreFilled(table: Table)
    requires CellsTrimmed(table)
    ensures forall t | 0 <= t < |ScanTable(table)| :: IsFilled(ScanTable(table)[t])
    ensures Locate(table).Success? ==> |ScanTable(table)| <= |table| - Locate(table).value.Start()
  {
    if Locate(table).Success? {
      var l := Locate(table).value;
      var data := table[l.Start()..];
      SuffixIsTrimmed(table, l.Start());
      assert ScanTable(table) == ExtractRows(data, l);
      ExtractedRecordsAreFilled(data, l, table[l.dayRow]);
    }
  }

  /** Every record built from a trimmed table under a day header is filled. */
  lemma ExtractedRecordsAreFilled(rows: Table, l: Layout, header: seq<string>)
    requires CellsTrimmed(rows) && l.columns == WeekdayColumns(header)
    ensures forall t | 0 <= t < |ExtractRows(rows, l)| :: IsFilled(ExtractRows(rows, l)[t])
  {
    var ps := Positions(rows, Accepter(l));
    forall t | 0 <= t < |ps|
      ensures IsFilled(ExtractRows(rows, l)[t])
    {
      var row := rows[ps[t]];
      assert Accepter(l)(row);
      TrimmedCellIsKept(rows, ps[t], l.subject);
      TrimmedCellIsKept(rows, ps[t], l.instructor);
      BuildRowOfTrimmed(row, l);
      AcceptedRecordIsFilled(row, l, header);
    }
  }

  lemma AcceptedRecordIsFilled(row: seq<string>, l: Layout, header: seq<string>)
    requires Accepts(row, l) && l.columns == WeekdayColumns(header)
    requires IsTrimmed(At(row, l.subject)) && IsTrimmed(At(row, l.instructor))
    ensures IsFilled(StructuredRow(At(row, l.subject), At(row, l.instructor), SlotMap(Entries(row, l.columns))))
  {
    SlotDaysAreWeekdays(row, header);
  }

  /** The records `scanShedule` answers for any blocks are filled. */
  lemma ScheduleRecordsAreFilled(blocks: seq<Blocks.Block>)
    ensures forall t | 0 <= t < |ScanSchedule(blocks)| :: IsFilled(ScanSchedule(blocks)[t])
  {
    TableIsTrimmed(blocks);
    ScannedRecordsAreFilled(TableOf(blocks));
  }
}
