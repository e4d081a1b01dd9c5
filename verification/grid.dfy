/**
 * The grid assembler of `scanShedule` (lib/textract.ts:102-110). Cells are grouped into the
 * plain object `tableByRows`, keyed by row number, each value a sparse array of cell texts;
 * `Object.values` then lists the rows. The order it uses is the one section 10.1.11.1 of
 * ECMA-262 (OrdinaryOwnPropertyKeys) fixes: keys that are array indices in ascending numeric
 * order, then the other keys in the order they were created. Holes of the sparse arrays are
 * modelled as "", which is how every later reader treats them.
 */
module Grid {
  import opened Text
  import opened Blocks

  /** The largest array index, 2^32 - 2. */
  const MaxArrayIndex: int := 0xFFFF_FFFE

  /** A key that is an array index, whether on `tableByRows` or on a row array. */
  predicate IsArrayIndex(n: int) {
    0 <= n <= MaxArrayIndex
  }

  // ----- Declarative description of a row -----

  /** Cell `k` sits at row `r`, column `column`. */
  predicate CellAt(cells: seq<Cell>, k: nat, r: int, column: int) {
    k < |cells| && cells[k].row == r && cells[k].column == column
  }

  /** Cell `k` belongs to row `r` and its column names an element of the row array. */
  predicate StoredInRow(cells: seq<Cell>, k: nat, r: int) {
    k < |cells| && cells[k].row == r && IsArrayIndex(cells[k].column - 1)
  }

  /** Length of row `r`'s array: the largest column of its stored cells, or 0 when it has none. */
  function RowWidth(cells: seq<Cell>, r: int): nat
    decreases |cells|
  {
    if |cells| == 0 then 0
    else
      var w := RowWidth(cells[..|cells| - 1], r);
      var c := cells[|cells| - 1];
      if c.row == r && IsArrayIndex(c.column - 1) && w < c.column then c.column else w
  }

  /** The width is the largest column among the row's stored cells. */
  lemma {:induction false} RowWidthIsLargestColumn(cells: seq<Cell>, r: int)
    ensures forall k: nat | StoredInRow(cells, k, r) :: cells[k].column <= RowWidth(cells, r)
    ensures RowWidth(cells, r) > 0 ==> exists k: nat :: StoredInRow(cells, k, r) && cells[k].column == RowWidth(cells, r)
    decreases |cells|
  {
    if |cells| > 0 {
      var prefix := cells[..|cells| - 1];
      RowWidthIsLargestColumn(prefix, r);
      assert forall k: nat | StoredInRow(prefix, k, r) :: StoredInRow(cells, k, r);
      assert forall k: nat | k < |prefix| && StoredInRow(cells, k, r) :: StoredInRow(prefix, k, r);
    }
  }

  /** Cell `k` sits at row `r`, column `column`, and no later cell does. */
  predicate LastAt(cells: seq<Cell>, k: nat, r: int, column: int) {
    CellAt(cells, k, r, column) && forall k' | k < k' < |cells| :: !CellAt(cells, k', r, column)
  }

  /** Text of the last cell at row `r`, column `column`; "" when there is none. */
  function LastText(cells: seq<Cell>, r: int, column: int): string
    decreases |cells|
  {
    if |cells| == 0 then ""
    else
      var c := cells[|cells| - 1];
      if c.row == r && c.column == column then c.text else LastText(cells[..|cells| - 1], r, column)
  }

  /** With no cell at row `r`, column `column`, the place reads as "". */
  lemma {:induction false} LastTextOfNoCell(cells: seq<Cell>, r: int, column: int)
    requires forall k: nat :: !CellAt(cells, k, r, column)
    ensures LastText(cells, r, column) == ""
    decreases |cells|
  {
    if |cells| > 0 {
      var prefix := cells[..|cells| - 1];
      assert !CellAt(cells, |cells| - 1, r, column);
      forall k: nat
        ensures !CellAt(prefix, k, r, column)
      {
        if k < |prefix| {
          assert !CellAt(cells, k, r, column);
        }
      }
      LastTextOfNoCell(prefix, r, column);
    }
  }

  /** A later write to the same place overwrites an earlier one: the text is the last cell's. */
  lemma {:induction false} LastTextIsLastStored(cells: seq<Cell>, r: int, column: int, k: nat)
    requires LastAt(cells, k, r, column)
    ensures LastText(cells, r, column) == cells[k].text
    decreases |cells|
  {
    if k < |cells| - 1 {
      var prefix := cells[..|cells| - 1];
      assert !CellAt(cells, |cells| - 1, r, column);
      assert CellAt(prefix, k, r, column);
      forall k' | k < k' < |prefix|
        ensures !CellAt(prefix, k', r, column)
      {
        assert !CellAt(cells, k', r, column);
      }
      LastTextIsLastStored(prefix, r, column, k);
    }
  }

  /** What row `r` holds once all cells are placed: element `k` is the last text stored at column `k + 1`. */
  function ExpectedRow(cells: seq<Cell>, r: int): seq<string> {
    seq(RowWidth(cells, r), k => LastText(cells, r, k + 1))
  }

  /** Index of the first cell of row `r`, or `|cells|` when there is none. */
  function FirstOccurrence(cells: seq<Cell>, r: int): (k: nat)
    ensures k <= |cells|
    ensures k < |cells| ==> cells[k].row == r
    ensures forall k' | 0 <= k' < k :: cells[k'].row != r
  {
    if |cells| == 0 then 0
    else if cells[0].row == r then 0
    else 1 + FirstOccurrence(cells[1..], r)
  }

  /** Some cell belongs to row `r`. */
  predicate HasRow(cells: seq<Cell>, r: int) {
    exists k | 0 <= k < |cells| :: cells[k].row == r
  }

  /** The keys appear in the order their rows first occur among the cells. */
  predicate InFirstOccurrenceOrder(cells: seq<Cell>, keys: seq<int>) {
    forall p, q | 0 <= p < q < |keys| :: FirstOccurrence(cells, keys[p]) < FirstOccurrence(cells, keys[q])
  }

  lemma HasRowStep(prefix: seq<Cell>, c: Cell)
    ensures forall r :: HasRow(prefix + [c], r) <==> HasRow(prefix, r) || r == c.row
  {
    var cells := prefix + [c];
    assert cells[|prefix|] == c;
    forall r | HasRow(prefix, r)
      ensures HasRow(cells, r)
    {
      var k :| 0 <= k < |prefix| && prefix[k].row == r;
      assert cells[k] == prefix[k];
    }
  }

  // ----- The object `tableByRows` -----

  /** `row[index] = text` on a JavaScript array: a non-index key leaves the elements alone; a store past the end leaves holes. */
  function Store(row: seq<string>, index: int, text: string): (r: seq<string>)
    ensures !IsArrayIndex(index) ==> r == row
    ensures IsArrayIndex(index) ==> |r| == (if index < |row| then |row| else index + 1) && r[index] == text
    ensures IsArrayIndex(index) ==>
              forall k | 0 <= k < |r| && k != index :: r[k] == (if k < |row| then row[k] else "")
  {
    if !IsArrayIndex(index) then row
    else if index < |row| then row[index := text]
    else row + seq(index - |row|, _ => "") + [text]
  }

  /** `tableByRows`: its own properties, keyed by row number, and the order they were created in. */
  datatype RowObject = RowObject(props: map<int, seq<string>>, created: seq<int>)

  predicate Distinct(keys: seq<int>) {
    forall p, q | 0 <= p < q < |keys| :: keys[p] != keys[q]
  }

  /**
   * Lines 103-107: a row's array is created the first time one of its cells is seen, and each
   * cell's text is stored at `column - 1`. The keys are exactly the rows that have cells, and
   * they were created in the order those rows first occur; `RowsAreExpected` states what each
   * key holds.
   */
  function GroupRows(cells: seq<Cell>): (o: RowObject)
    ensures forall r :: r in o.props <==> r in o.created
    ensures forall r :: r in o.created <==> HasRow(cells, r)
    ensures InFirstOccurrenceOrder(cells, o.created)
    decreases |cells|
  {
    if |cells| == 0 then RowObject(map[], [])
    else
      var prefix := cells[..|cells| - 1];
      var o := GroupRows(prefix);
      var c := cells[|cells| - 1];
      var existing := if c.row in o.props then o.props[c.row] else [];
      var created := if c.row in o.props then o.created else o.created + [c.row];
      var props := o.props[c.row := Store(existing, c.column - 1, c.text)];
      assert cells == prefix + [c];
      HasRowStep(prefix, c);
      OrderSurvivesStep(prefix, c, o.created);
      RowObject(props, created)
  }

  /**
   * Adding a cell keeps the first-occurrence order of the rows seen so far, and a row new
   * to the prefix goes after all of them.
   */
  lemma OrderSurvivesStep(prefix: seq<Cell>, c: Cell, keys: seq<int>)
    requires forall r | r in keys :: HasRow(prefix, r)
    requires InFirstOccurrenceOrder(prefix, keys)
    ensures InFirstOccurrenceOrder(prefix + [c], keys)
    ensures !HasRow(prefix, c.row) ==> InFirstOccurrenceOrder(prefix + [c], keys + [c.row])
  {
    var cells := prefix + [c];
    FirstOccurrencesKept(prefix, c, keys);
    if !HasRow(prefix, c.row) {
      FirstOccurrenceNew(prefix, c);
      var extended := keys + [c.row];
      forall p, q | 0 <= p < q < |extended|
        ensures FirstOccurrence(cells, extended[p]) < FirstOccurrence(cells, extended[q])
      {
        assert extended[p] == keys[p] && keys[p] in keys;
        if q < |keys| {
          assert extended[q] == keys[q];
        }
      }
    }
  }

  /** Rows already present keep their first occurrence when a cell is added. */
  lemma FirstOccurrencesKept(prefix: seq<Cell>, c: Cell, keys: seq<int>)
    requires forall r | r in keys :: HasRow(prefix, r)
    ensures forall r | r in keys :: FirstOccurrence(prefix + [c], r) == FirstOccurrence(prefix, r) < |prefix|
  {
    forall r | r in keys
      ensures FirstOccurrence(prefix + [c], r) == FirstOccurrence(prefix, r) < |prefix|
    {
      var k :| 0 <= k < |prefix| && prefix[k].row == r;
      FirstOccurrenceKept(prefix, c, r, k);
    }
  }

  /** Every key of `tableByRows` holds its expected row. */
  lemma {:induction false} RowsAreExpected(cells: seq<Cell>)
    ensures forall r | r in GroupRows(cells).props :: GroupRows(cells).props[r] == ExpectedRow(cells, r)
    decreases |cells|
  {
    if |cells| > 0 {
      var prefix := cells[..|cells| - 1];
      var c := cells[|cells| - 1];
      assert cells == prefix + [c];
      RowsAreExpected(prefix);
      var o := GroupRows(prefix);
      forall r | r in GroupRows(cells).props
        ensures GroupRows(cells).props[r] == ExpectedRow(cells, r)
      {
        ExpectedRowStep(prefix, c, r);
        if r == c.row && r !in o.props {
          NoCellsNoRow(prefix, r);
        }
        assert r != c.row ==> r in o.props;
      }
    }
  }

  /** A row without cells is the empty array. */
  lemma NoCellsNoRow(cells: seq<Cell>, r: int)
    ensures (forall k | 0 <= k < |cells| :: cells[k].row != r) ==> ExpectedRow(cells, r) == []
  {
    RowWidthIsLargestColumn(cells, r);
  }

  lemma LastTextStep(prefix: seq<Cell>, c: Cell, r: int, column: int)
    ensures LastText(prefix + [c], r, column) ==
              if c.row == r && c.column == column then c.text else LastText(prefix, r, column)
  {
    var cells := prefix + [c];
    assert cells[..|cells| - 1] == prefix;
  }

  lemma RowWidthStep(prefix: seq<Cell>, c: Cell, r: int)
    ensures RowWidth(prefix + [c], r) ==
              if c.row == r && IsArrayIndex(c.column - 1) && RowWidth(prefix, r) < c.column then c.column
              else RowWidth(prefix, r)
  {
    var cells := prefix + [c];
    assert cells[..|cells| - 1] == prefix;
  }

  /** Placing one more cell changes only its own row, exactly as storing its text there does. */
  lemma ExpectedRowStep(prefix: seq<Cell>, c: Cell, r: int)
    ensures ExpectedRow(prefix + [c], r) ==
              if r == c.row then Store(ExpectedRow(prefix, r), c.column - 1, c.text) else ExpectedRow(prefix, r)
  {
    var before := ExpectedRow(prefix, r);
    var after := ExpectedRow(prefix + [c], r);
    RowWidthStep(prefix, c, r);
    var expected := if r == c.row then Store(before, c.column - 1, c.text) else before;
    assert |after| == |expected|;
    forall k | 0 <= k < |after|
      ensures after[k] == expected[k]
    {
      ExpectedRowStepAt(prefix, c, r, k);
    }
  }

  lemma ExpectedRowStepAt(prefix: seq<Cell>, c: Cell, r: int, k: nat)
    requires k < |ExpectedRow(prefix + [c], r)|
    ensures r != c.row ==> ExpectedRow(prefix + [c], r)[k] == ExpectedRow(prefix, r)[k]
    ensures r == c.row ==> ExpectedRow(prefix + [c], r)[k] == Store(ExpectedRow(prefix, r), c.column - 1, c.text)[k]
  {
    RowWidthStep(prefix, c, r);
    LastTextStep(prefix, c, r, k + 1);
    if r == c.row {
      OwnRowStepAt(prefix, c, k);
    }
  }

  /** The added cell's own row: element `k` is what the store leaves there. */
  lemma OwnRowStepAt(prefix: seq<Cell>, c: Cell, k: nat)
    requires k < RowWidth(prefix + [c], c.row)
    ensures LastText(prefix + [c], c.row, k + 1) == Store(ExpectedRow(prefix, c.row), c.column - 1, c.text)[k]
  {
    var before := ExpectedRow(prefix, c.row);
    RowWidthStep(prefix, c, c.row);
    LastTextStep(prefix, c, c.row, k + 1);
    if k == c.column - 1 {
      RowWidthIsLargestColumn(prefix, c.row);
    } else if k < |before| {
      assert before[k] == LastText(prefix, c.row, k + 1);
    } else {
      EmptyBeyondWidth(prefix, c.row, k + 1);
    }
  }

  /** No column past a row's width has a cell stored at it. */
  lemma EmptyBeyondWidth(cells: seq<Cell>, r: int, column: int)
    requires RowWidth(cells, r) < column && IsArrayIndex(column - 1)
    ensures LastText(cells, r, column) == ""
  {
    RowWidthIsLargestColumn(cells, r);
    forall k: nat
      ensures !CellAt(cells, k, r, column)
    {
      if CellAt(cells, k, r, column) {
        assert StoredInRow(cells, k, r);
      }
    }
    LastTextOfNoCell(cells, r, column);
  }

  /** A row's first occurrence in a prefix stays its first occurrence. */
  lemma FirstOccurrenceKept(prefix: seq<Cell>, c: Cell, r: int, k: nat)
    requires k < |prefix| && prefix[k].row == r
    ensures FirstOccurrence(prefix + [c], r) == FirstOccurrence(prefix, r) < |prefix|
  {
    var cells := prefix + [c];
    var f := FirstOccurrence(prefix, r);
    assert f < |prefix|;
    assert cells[f] == prefix[f];
  }

  /** A row new to the prefix first occurs at the added cell. */
  lemma FirstOccurrenceNew(prefix: seq<Cell>, c: Cell)
    requires !HasRow(prefix, c.row)
    ensures FirstOccurrence(prefix + [c], c.row) == |prefix|
  {
    var cells := prefix + [c];
    assert cells[|prefix|] == c;
  }

  // ----- `Object.values` -----

  predicate StrictlyAscending(xs: seq<int>) {
    forall p, q | 0 <= p < q < |xs| :: xs[p] < xs[q]
  }

  /** `x` inserted into an ascending sequence of distinct keys. */
  function InsertAscending(xs: seq<int>, x: int): (r: seq<int>)
    requires StrictlyAscending(xs)
    ensures StrictlyAscending(r)
    ensures forall y :: y in r <==> y in xs || y == x
  {
    if |xs| == 0 then [x]
    else if x < xs[0] then
      AscendingHead(xs);
      ConsAscending(x, xs);
      [x] + xs
    else if x == xs[0] then xs
    else
      AscendingHead(xs);
      var rest := InsertAscending(xs[1..], x);
      ConsAscending(xs[0], rest);
      [xs[0]] + rest
  }

  /** The tail of an ascending sequence ascends, above its head. */
  lemma AscendingHead(xs: seq<int>)
    requires StrictlyAscending(xs) && |xs| > 0
    ensures StrictlyAscending(xs[1..])
    ensures forall y | y in xs[1..] :: xs[0] < y
  {
    var tail := xs[1..];
    forall p, q | 0 <= p < q < |tail|
      ensures tail[p] < tail[q]
    {
      assert tail[p] == xs[p + 1] && tail[q] == xs[q + 1];
    }
    forall y | y in tail
      ensures xs[0] < y
    {
      var q :| 0 <= q < |tail| && tail[q] == y;
      assert xs[q + 1] == y;
    }
  }

  /** A key below every key of an ascending sequence can be put in front of it. */
  lemma ConsAscending(x: int, xs: seq<int>)
    requires StrictlyAscending(xs) && forall y | y in xs :: x < y
    ensures StrictlyAscending([x] + xs)
  {
    var r := [x] + xs;
    forall p, q | 0 <= p < q < |r|
      ensures r[p] < r[q]
    {
      assert r[q] == xs[q - 1] && r[q] in xs;
      if p > 0 {
        assert r[p] == xs[p - 1];
      }
    }
  }

  /** The distinct keys of `xs`, in ascending numeric order. */
  function SortAscending(xs: seq<int>): (r: seq<int>)
    ensures StrictlyAscending(r)
    ensures forall y :: y in r <==> y in xs
  {
    if |xs| == 0 then [] else InsertAscending(SortAscending(xs[1..]), xs[0])
  }

  /** The keys of `keys` that are array indices, in the order given. */
  function IndexKeys(keys: seq<int>): (r: seq<int>)
    ensures forall y :: y in r <==> y in keys && IsArrayIndex(y)
  {
    if |keys| == 0 then []
    else (if IsArrayIndex(keys[0]) then [keys[0]] else []) + IndexKeys(keys[1..])
  }

  /** The keys of `keys` that are not array indices, in the order given. */
  function OtherKeys(keys: seq<int>): (r: seq<int>)
    ensures forall y :: y in r <==> y in keys && !IsArrayIndex(y)
  {
    if |keys| == 0 then []
    else (if IsArrayIndex(keys[0]) then [] else [keys[0]]) + OtherKeys(keys[1..])
  }

  /** OrdinaryOwnPropertyKeys: array-index keys ascending, then the rest in creation order. */
  function OwnKeys(created: seq<int>): seq<int> {
    SortAscending(IndexKeys(created)) + OtherKeys(created)
  }

  /** The keys rise strictly under `rank`. */
  predicate RisingUnder(keys: seq<int>, rank: int -> int) {
    forall p, q | 0 <= p < q < |keys| :: rank(keys[p]) < rank(keys[q])
  }

  /** Keeping only the non-index keys keeps any order the keys were in. */
  lemma {:induction false} OtherKeysKeepOrder(keys: seq<int>, rank: int -> int)
    requires RisingUnder(keys, rank)
    ensures RisingUnder(OtherKeys(keys), rank)
    decreases |keys|
  {
    if |keys| > 0 {
      var tail := keys[1..];
      RisingHead(keys, rank);
      OtherKeysKeepOrder(tail, rank);
      if !IsArrayIndex(keys[0]) {
        OtherKeysAreKeys(tail, rank(keys[0]), rank);
        RisingCons(keys[0], OtherKeys(tail), rank);
      }
    }
  }

  /** The tail of a rising sequence rises, above its head. */
  lemma RisingHead(keys: seq<int>, rank: int -> int)
    requires RisingUnder(keys, rank) && |keys| > 0
    ensures RisingUnder(keys[1..], rank)
    ensures forall y | y in keys[1..] :: rank(keys[0]) < rank(y)
  {
    var tail := keys[1..];
    forall p, q | 0 <= p < q < |tail|
      ensures rank(tail[p]) < rank(tail[q])
    {
      assert tail[p] == keys[p + 1] && tail[q] == keys[q + 1];
    }
    forall y | y in tail
      ensures rank(keys[0]) < rank(y)
    {
      var q :| 0 <= q < |tail| && tail[q] == y;
      assert keys[q + 1] == y;
    }
  }

  lemma OtherKeysAreKeys(keys: seq<int>, floor: int, rank: int -> int)
    requires forall y | y in keys :: floor < rank(y)
    ensures forall y | y in OtherKeys(keys) :: floor < rank(y)
  {
  }

  lemma RisingCons(x: int, keys: seq<int>, rank: int -> int)
    requires RisingUnder(keys, rank) && forall y | y in keys :: rank(x) < rank(y)
    ensures RisingUnder([x] + keys, rank)
  {
    var r := [x] + keys;
    forall p, q | 0 <= p < q < |r|
      ensures rank(r[p]) < rank(r[q])
    {
      assert r[q] == keys[q - 1] && r[q] in keys;
      if p > 0 {
        assert r[p] == keys[p - 1];
      }
    }
  }

  /** The array-index keys are listed first, ascending. */
  predicate IndexKeysFirst(keys: seq<int>) {
    forall p, q | 0 <= p < q < |keys| && IsArrayIndex(keys[q]) :: IsArrayIndex(keys[p]) && keys[p] < keys[q]
  }

  /** The other keys are listed last, in first-occurrence order. */
  predicate OtherKeysLast(cells: seq<Cell>, keys: seq<int>) {
    forall p, q | 0 <= p < q < |keys| && !IsArrayIndex(keys[p]) ::
      !IsArrayIndex(keys[q]) && FirstOccurrence(cells, keys[p]) < FirstOccurrence(cells, keys[q])
  }

  /** `OwnKeys` lists the index keys first, ascending. */
  lemma OwnKeysIndexFirst(created: seq<int>)
    ensures IndexKeysFirst(OwnKeys(created))
  {
    var sorted := SortAscending(IndexKeys(created));
    var others := OtherKeys(created);
    var keys := sorted + others;
    forall p | 0 <= p < |sorted|
      ensures keys[p] == sorted[p] && IsArrayIndex(keys[p])
    {
      assert sorted[p] in sorted;
    }
    forall q | |sorted| <= q < |keys|
      ensures !IsArrayIndex(keys[q])
    {
      assert keys[q] == others[q - |sorted|] && keys[q] in others;
    }
  }

  /** `OwnKeys` lists the other keys last, in the order the rows first occur. */
  lemma OwnKeysOthersLast(cells: seq<Cell>, created: seq<int>)
    requires InFirstOccurrenceOrder(cells, created)
    ensures OtherKeysLast(cells, OwnKeys(created))
  {
    var sorted := SortAscending(IndexKeys(created));
    var others := OtherKeys(created);
    var rank := x => FirstOccurrence(cells, x);
    assert RisingUnder(created, rank);
    OtherKeysKeepOrder(created, rank);
    var keys := sorted + others;
    forall p | 0 <= p < |sorted|
      ensures IsArrayIndex(keys[p])
    {
      assert keys[p] == sorted[p] && sorted[p] in sorted;
    }
    forall p, q | |sorted| <= p < q < |keys|
      ensures !IsArrayIndex(keys[q]) && FirstOccurrence(cells, keys[p]) < FirstOccurrence(cells, keys[q])
    {
      assert keys[p] == others[p - |sorted|];
      assert keys[q] == others[q - |sorted|] && keys[q] in others;
    }
  }

  lemma OrderedKeysAreDistinct(cells: seq<Cell>, keys: seq<int>)
    requires IndexKeysFirst(keys) && OtherKeysLast(cells, keys)
    ensures Distinct(keys)
  {
  }

  /** The keys of the rows, in the order `Object.values(tableByRows)` lists them. */
  function RowKeys(cells: seq<Cell>): (keys: seq<int>)
    ensures forall r :: r in keys <==> HasRow(cells, r)
    ensures Distinct(keys)
    ensures IndexKeysFirst(keys)
    ensures OtherKeysLast(cells, keys)
  {
    var o := GroupRows(cells);
    OwnKeysIndexFirst(o.created);
    OwnKeysOthersLast(cells, o.created);
    OrderedKeysAreDistinct(cells, OwnKeys(o.created));
    OwnKeys(o.created)
  }

  /** When every RowIndex is an array index, the rows are listed in ascending RowIndex order. */
  lemma IndexRowsAscend(cells: seq<Cell>)
    requires forall k | 0 <= k < |cells| :: IsArrayIndex(cells[k].row)
    ensures StrictlyAscending(RowKeys(cells))
  {
    var keys := RowKeys(cells);
    forall q | 0 <= q < |keys|
      ensures IsArrayIndex(keys[q])
    {
      assert keys[q] in keys;
    }
  }

  /**
   * Lines 103-110: the grid `Object.values(tableByRows)`. Row `p` belongs to the `p`-th key
   * of `RowKeys` and holds, at each index, the last text stored in that column.
   */
  function AssembleGrid(cells: seq<Cell>): (grid: seq<seq<string>>)
    ensures |grid| == |RowKeys(cells)|
    ensures forall p | 0 <= p < |grid| :: grid[p] == ExpectedRow(cells, RowKeys(cells)[p])
  {
    var o := GroupRows(cells);
    var keys := RowKeys(cells);
    RowsAreExpected(cells);
    assert forall p | 0 <= p < |keys| :: keys[p] in o.props by {
      forall p | 0 <= p < |keys|
        ensures keys[p] in o.props
      {
        assert keys[p] in keys;
      }
    }
    seq(|keys|, p requires 0 <= p < |keys| => o.props[keys[p]])
  }

  /** When every cell text is trimmed, so is every string of the grid. */
  lemma GridIsTrimmed(cells: seq<Cell>)
    requires forall k | 0 <= k < |cells| :: IsTrimmed(cells[k].text)
    ensures forall p, k | 0 <= p < |AssembleGrid(cells)| && 0 <= k < |AssembleGrid(cells)[p]| ::
              IsTrimmed(AssembleGrid(cells)[p][k])
  {
    forall r, column
      ensures IsTrimmed(LastText(cells, r, column))
    {
      LastTextIsSomeCellText(cells, r, column);
    }
  }

  lemma {:induction false} LastTextIsSomeCellText(cells: seq<Cell>, r: int, column: int)
    ensures LastText(cells, r, column) == "" || exists k | 0 <= k < |cells| :: cells[k].text == LastText(cells, r, column)
    decreases |cells|
  {
    if |cells| > 0 {
      var prefix := cells[..|cells| - 1];
      LastTextIsSomeCellText(prefix, r, column);
      if LastText(cells, r, column) != "" && LastText(cells, r, column) == LastText(prefix, r, column) {
        var k :| 0 <= k < |prefix| && prefix[k].text == LastText(prefix, r, column);
        assert cells[k] == prefix[k];
      }
    }
  }
}
