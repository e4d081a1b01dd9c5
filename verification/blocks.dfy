/**
 * The block resolver of `scanShedule` (lib/textract.ts:79-100): the id index over the
 * blocks Textract returned and the resolution of every CELL block to its row, column and
 * flattened text.
 */
module Blocks {
  import opened Text
  import opened Seqs

  /** One entry of a block's `Relationships`: the ids it references (its `Type` is not consulted). */
  datatype Relationship = Relationship(ids: seq<string>)

  /**
   * A Textract block. `id` and `text` are "" when the field is absent (both are falsy to the
   * source); `rowIndex` and `columnIndex` are read only on CELL blocks.
   */
  datatype Block = Block(
    id: string,
    blockType: string,
    rowIndex: int,
    columnIndex: int,
    relationships: seq<Relationship>,
    text: string)

  /** A table cell: one-based row and column, and its text. */
  datatype Cell = Cell(row: int, column: int, text: string)

  predicate IsCellBlock(b: Block) {
    b.blockType == "CELL"
  }

  /** Block `k` carries `id` and no later block does. */
  predicate LastWithId(blocks: seq<Block>, id: string, k: nat) {
    k < |blocks| && blocks[k].id == id && forall k' | k < k' < |blocks| :: blocks[k'].id != id
  }

  /** `blockMap` (lines 80-85): every block with a non-empty id, a later block replacing an earlier one. */
  function IndexBlocks(blocks: seq<Block>): (m: map<string, Block>)
    ensures forall id :: id in m <==> id != "" && exists k | 0 <= k < |blocks| :: blocks[k].id == id
    ensures forall id | id in m :: exists k: nat :: LastWithId(blocks, id, k) && blocks[k] == m[id]
    decreases |blocks|
  {
    if |blocks| == 0 then map[]
    else
      var prefix := blocks[..|blocks| - 1];
      var m := IndexBlocks(prefix);
      var b := blocks[|blocks| - 1];
      assert forall k | 0 <= k < |prefix| :: prefix[k] == blocks[k];
      assert forall id, k: nat | id != b.id && LastWithId(prefix, id, k) :: LastWithId(blocks, id, k);
      assert LastWithId(blocks, b.id, |blocks| - 1);
      if b.id != "" then m[b.id := b] else m
  }

  /** `blockMap[id]?.Text || ""`: a dangling id or a block without text contributes "". */
  function FragmentText(index: map<string, Block>, id: string): string {
    if id in index then index[id].text else ""
  }

  /** `(cell.Relationships || []).flatMap(rel => rel.Ids || [])`. */
  function ReferencedIds(rels: seq<Relationship>): (ids: seq<string>)
    ensures forall r | r in rels :: forall id | id in r.ids :: id in ids
    ensures forall id | id in ids :: exists r | r in rels :: id in r.ids
  {
    if |rels| == 0 then [] else rels[0].ids + ReferencedIds(rels[1..])
  }

  /** The ids of consecutive relationships are listed one relationship after the other. */
  lemma {:induction false} ReferencedIdsAppend(a: seq<Relationship>, b: seq<Relationship>)
    ensures ReferencedIds(a + b) == ReferencedIds(a) + ReferencedIds(b)
    decreases |a|
  {
    if |a| > 0 {
      assert (a + b)[0] == a[0];
      assert (a + b)[1..] == a[1..] + b;
      ReferencedIdsAppend(a[1..], b);
    } else {
      assert a + b == b;
    }
  }

  /** A single relationship contributes its ids, in their order. */
  lemma ReferencedIdsOfOne(r: Relationship)
    ensures ReferencedIds([r]) == r.ids
  {
    assert [r][1..] == [];
  }

  /** The text fragments of the referenced ids, in relationship order. */
  function Fragments(index: map<string, Block>, ids: seq<string>): (fs: seq<string>)
    ensures |fs| == |ids|
    ensures forall k | 0 <= k < |ids| :: fs[k] == FragmentText(index, ids[k])
  {
    if |ids| == 0 then [] else [FragmentText(index, ids[0])] + Fragments(index, ids[1..])
  }

  /** Lines 90-99: the cell's coordinates and the trimmed, space-joined text of its fragments. */
  function ResolveCell(index: map<string, Block>, b: Block): (c: Cell)
    ensures c.row == b.rowIndex && c.column == b.columnIndex
    ensures IsTrimmed(c.text)
  {
    Cell(b.rowIndex, b.columnIndex, Trim(Join(Fragments(index, ReferencedIds(b.relationships)), " ")))
  }

  /** `blocks.filter(b => b.BlockType === "CELL").map(...)` against a fixed index. */
  function ResolveAll(index: map<string, Block>, blocks: seq<Block>): (cells: seq<Cell>)
    ensures |cells| == |Positions(blocks, IsCellBlock)|
    ensures forall t | 0 <= t < |cells| ::
              cells[t] == ResolveCell(index, blocks[Positions(blocks, IsCellBlock)[t]])
  {
    var cellBlocks := Filter(blocks, IsCellBlock);
    seq(|cellBlocks|, t requires 0 <= t < |cellBlocks| => ResolveCell(index, cellBlocks[t]))
  }

  /**
   * Lines 79-100: one cell per CELL block, in block order, resolved against the index of all
   * blocks; every cell text is trimmed.
   */
  function ResolveCells(blocks: seq<Block>): (cells: seq<Cell>)
    ensures |cells| == |Positions(blocks, IsCellBlock)| <= |blocks|
    ensures forall t | 0 <= t < |cells| ::
              var b := blocks[Positions(blocks, IsCellBlock)[t]];
              && IsCellBlock(b)
              && cells[t].row == b.rowIndex && cells[t].column == b.columnIndex
              && cells[t].text == ResolveCell(IndexBlocks(blocks), b).text
    ensures forall t | 0 <= t < |cells| :: IsTrimmed(cells[t].text)
  {
    ResolveAll(IndexBlocks(blocks), blocks)
  }

  /** A referenced id reads the text of the last block carrying it, and "" when no block does. */
  lemma FragmentIsLastBlockText(blocks: seq<Block>, id: string)
    requires id != ""
    ensures (forall k | 0 <= k < |blocks| :: blocks[k].id != id) ==> FragmentText(IndexBlocks(blocks), id) == ""
    ensures forall k: nat | LastWithId(blocks, id, k) :: FragmentText(IndexBlocks(blocks), id) == blocks[k].text
  {
    var m := IndexBlocks(blocks);
    forall k: nat | LastWithId(blocks, id, k)
      ensures FragmentText(m, id) == blocks[k].text
    {
      var k': nat :| LastWithId(blocks, id, k') && blocks[k'] == m[id];
      assert k == k';
    }
  }

  /** A cell whose references all resolve to nothing has empty text. */
  lemma DanglingReferencesGiveEmptyText(index: map<string, Block>, b: Block)
    requires forall id | id in ReferencedIds(b.relationships) :: FragmentText(index, id) == ""
    ensures ResolveCell(index, b).text == ""
  {
    var fs := Fragments(index, ReferencedIds(b.relationships));
    JoinOfEmptiesIsBlank(fs);
  }

  lemma {:induction false} JoinOfEmptiesIsBlank(fs: seq<string>)
    requires forall k | 0 <= k < |fs| :: fs[k] == ""
    ensures AllWhitespace(Join(fs, " "))
    decreases |fs|
  {
    if |fs| > 1 {
      JoinOfEmptiesIsBlank(fs[1..]);
    }
  }

  /**
   * When every referenced block has a non-empty, whitespace-free text, splitting the cell
   * text on whitespace gives those texts back in relationship order: the join neither loses
   * nor reorders fragments.
   */
  lemma CellTextListsFragments(index: map<string, Block>, b: Block)
    requires |ReferencedIds(b.relationships)| >= 1
    requires forall id | id in ReferencedIds(b.relationships) ::
               FragmentText(index, id) != "" && NoWhitespace(FragmentText(index, id))
    ensures SplitOnWhitespace(ResolveCell(index, b).text) == Fragments(index, ReferencedIds(b.relationships))
  {
    var ids := ReferencedIds(b.relationships);
    var fs := Fragments(index, ids);
    assert forall k | 0 <= k < |fs| :: fs[k] != [] && NoWhitespace(fs[k]) by {
      forall k | 0 <= k < |fs|
        ensures fs[k] != [] && NoWhitespace(fs[k])
      {
        assert ids[k] in ids;
      }
    }
    var joined := Join(fs, " ");
    JoinStartsWithFirst(fs, " ");
    JoinEndsWithLast(fs, " ");
    assert IsTrimmed(joined);
    SplitJoinRoundTrip(fs);
  }

  /** A fragment worth listing: `split(/\s+/)` of a trimmed text yields no empty piece. */
  predicate IsNonEmpty(f: string) {
    f != []
  }

  /** Whitespace-free fragments whose join is blank are all empty. */
  lemma {:induction false} BlankJoinOfEmpties(fs: seq<string>)
    requires forall k | 0 <= k < |fs| :: NoWhitespace(fs[k])
    requires AllWhitespace(Join(fs, " "))
    ensures forall k | 0 <= k < |fs| :: fs[k] == ""
    decreases |fs|
  {
    if |fs| >= 1 {
      var j := Join(fs, " ");
      var f := fs[0];
      assert j[..|f|] == f;
      BlankWordIsEmpty(f);
      if |fs| > 1 {
        var tail := Join(fs[1..], " ");
        assert j == f + " " + tail;
        assert AllWhitespace(tail) by {
          assert forall k | 0 <= k < |tail| :: j[|f| + 1 + k] == tail[k];
        }
        BlankJoinOfEmpties(fs[1..]);
        assert forall k | 1 <= k < |fs| :: fs[k] == fs[1..][k - 1];
      }
    }
  }

  /** A whitespace-free text made only of whitespace is empty. */
  lemma BlankWordIsEmpty(w: string)
    requires NoWhitespace(w) && AllWhitespace(w)
    ensures w == []
  {
    assert IsTrimmed(w) && Trim(w) == w;
  }

  /** Whitespace-free fragments join to a blank text exactly when none of them is non-empty. */
  lemma BlankJoinHasNoWords(fs: seq<string>)
    requires forall k | 0 <= k < |fs| :: NoWhitespace(fs[k])
    ensures AllWhitespace(Join(fs, " ")) <==> Filter(fs, IsNonEmpty) == []
  {
    if AllWhitespace(Join(fs, " ")) {
      BlankJoinOfEmpties(fs);
      NoneSelected(fs, IsNonEmpty);
    }
    if Filter(fs, IsNonEmpty) == [] {
      forall k | 0 <= k < |fs|
        ensures fs[k] == ""
      {
        if fs[k] != "" {
          PositionsAreComplete(fs, IsNonEmpty, k);
        }
      }
      JoinOfEmptiesIsBlank(fs);
    }
  }

  /**
   * Joining whitespace-free fragments with spaces and trimming the result gives, once its
   * whitespace runs are collapsed, the non-empty fragments joined with single spaces.
   */
  lemma {:induction false} TrimmedJoinCollapses(fs: seq<string>)
    requires forall k | 0 <= k < |fs| :: NoWhitespace(fs[k])
    ensures Collapse(Trim(Join(fs, " "))) == Join(Filter(fs, IsNonEmpty), " ")
    decreases |fs|
  {
    if fs == [] {
      assert Join(fs, " ") == "" && Filter(fs, IsNonEmpty) == [];
      assert Trim("") == "";
    } else {
      var f, rest := fs[0], fs[1..];
      assert fs == [f] + rest;
      if rest == [] {
        TrimmedSingleFragment(f);
      } else {
        assert forall k | 0 <= k < |rest| :: rest[k] == fs[k + 1];
        TrimmedJoinCollapses(rest);
        TrimmedJoinStep(f, rest);
      }
    }
  }

  /** The base case of `TrimmedJoinCollapses`: one fragment. */
  lemma TrimmedSingleFragment(f: string)
    requires NoWhitespace(f)
    ensures Collapse(Trim(Join([f], " "))) == Join(Filter([f], IsNonEmpty), " ")
  {
    assert f[..|f|] == f && f[|f|..] == [];
    CollapseOfWord(f, |f|);
    assert [f] == [f] + [];
    FilterCons(f, [], IsNonEmpty);
  }

  /** The inductive step of `TrimmedJoinCollapses`: a first fragment before a non-empty rest. */
  lemma TrimmedJoinStep(f: string, rest: seq<string>)
    requires rest != [] && NoWhitespace(f)
    requires forall k | 0 <= k < |rest| :: NoWhitespace(rest[k])
    requires Collapse(Trim(Join(rest, " "))) == Join(Filter(rest, IsNonEmpty), " ")
    ensures Collapse(Trim(Join([f] + rest, " "))) == Join(Filter([f] + rest, IsNonEmpty), " ")
  {
    BlankJoinHasNoWords(rest);
    FilterCons(f, rest, IsNonEmpty);
    JoinCons(f, rest, " ");
    FirstFragmentStep(f, Join(rest, " "), Filter(rest, IsNonEmpty));
  }

  /** `TrimmedJoinStep` with the first fragment, the joined rest and its words named apart. */
  lemma FirstFragmentStep(f: string, r: string, words: seq<string>)
    requires NoWhitespace(f)
    requires Collapse(Trim(r)) == Join(words, " ")
    requires AllWhitespace(r) <==> words == []
    ensures Collapse(Trim(f + " " + r)) == Join((if f != [] then [f] else []) + words, " ")
  {
    if f == [] {
      EmptyFirstFragment(f, r, words);
    } else {
      NonEmptyFirstFragment(f, r, words);
    }
  }

  /** A join of two or more fragments is the first, a space, and the join of the rest. */
  lemma JoinStep(fs: seq<string>)
    requires |fs| > 1
    ensures Join(fs, " ") == fs[0] + " " + Join(fs[1..], " ")
  {
  }

  /** The step of `TrimmedJoinCollapses` for an empty first fragment. */
  lemma EmptyFirstFragment(f: string, r: string, words: seq<string>)
    requires f == [] && Collapse(Trim(r)) == Join(words, " ")
    ensures Collapse(Trim(f + " " + r)) == Join((if f != [] then [f] else []) + words, " ")
  {
    var kept: seq<string> := if f != [] then [f] else [];
    assert kept + words == words;
    assert f + " " + r == " " + r;
    LeadingSpaceCollapses(r, Join(words, " "));
  }

  /** A leading space makes no difference once the text is trimmed. */
  lemma LeadingSpaceCollapses(r: string, joined: string)
    requires Collapse(Trim(r)) == joined
    ensures Collapse(Trim(" " + r)) == joined
  {
    TrimLeadingSpace(r);
  }

  /** The step of `TrimmedJoinCollapses` for a non-empty first fragment. */
  lemma NonEmptyFirstFragment(f: string, r: string, words: seq<string>)
    requires f != [] && NoWhitespace(f)
    requires Collapse(Trim(r)) == Join(words, " ")
    requires AllWhitespace(r) <==> words == []
    ensures Collapse(Trim(f + " " + r)) == Join((if f != [] then [f] else []) + words, " ")
  {
    assert (if f != [] then [f] else []) == [f];
    TrimCommonCase(f, r);
    if words != [] {
      JoinCons(f, words, " ");
    } else {
      assert [f] + words == [f];
    }
  }

  /** Trimming and collapsing a non-empty word, a space and a text. */
  lemma TrimCommonCase(f: string, r: string)
    requires f != [] && NoWhitespace(f)
    ensures AllWhitespace(r) ==> Collapse(Trim(f + " " + r)) == f
    ensures !AllWhitespace(r) ==> Collapse(Trim(f + " " + r)) == f + " " + Collapse(Trim(r))
  {
    var x := f + " " + r;
    assert x == f + (" " + r);
    assert x[0] == f[0];
    assert TrimStart(x) == x;
    assert f[..|f|] == f && f[|f|..] == [];
    if AllWhitespace(r) {
      assert AllWhitespace(" " + r);
      TrimEndDropsBlankTail(f, " " + r);
      assert TrimEnd(f) == f;
      CollapseOfWord(f, |f|);
    } else {
      var k :| 0 <= k < |r| && !IsWhitespace(r[k]);
      assert (" " + r)[k + 1] == r[k];
      TrimEndAppend(f, " " + r);
      TrimEndAppend(" ", r);
      var y := TrimEnd(r);
      var z := f + (" " + y);
      assert Trim(x) == z;
      assert z[..|f|] == f && z[|f|..] == " " + y;
      CollapseOfWord(z, |f|);
      CollapseLeadingSpace(y);
      TrimEndsCommute(r);
      AppendAssociates(f, " ", Collapse(Trim(r)));
    }
  }

  /**
   * With whitespace-free fragments, the cell text is the non-empty fragments in relationship
   * order, separated by whitespace: collapsing its whitespace runs gives them joined with single
   * spaces. Dangling ids and blocks without text drop out.
   */
  lemma CellTextJoinsNonEmptyFragments(index: map<string, Block>, b: Block)
    requires forall id | id in ReferencedIds(b.relationships) :: NoWhitespace(FragmentText(index, id))
    ensures Collapse(ResolveCell(index, b).text) ==
              Join(Filter(Fragments(index, ReferencedIds(b.relationships)), IsNonEmpty), " ")
  {
    var ids := ReferencedIds(b.relationships);
    var fs := Fragments(index, ids);
    forall k | 0 <= k < |fs|
      ensures NoWhitespace(fs[k])
    {
      assert ids[k] in ids;
    }
    TrimmedJoinCollapses(fs);
  }

  /**
   * With whitespace-free fragments, at least one of them non-empty, splitting the cell text on
   * whitespace gives exactly the non-empty fragments, in relationship order.
   */
  lemma CellTextListsNonEmptyFragments(index: map<string, Block>, b: Block)
    requires forall id | id in ReferencedIds(b.relationships) :: NoWhitespace(FragmentText(index, id))
    requires exists id | id in ReferencedIds(b.relationships) :: FragmentText(index, id) != ""
    ensures SplitOnWhitespace(ResolveCell(index, b).text) ==
              Filter(Fragments(index, ReferencedIds(b.relationships)), IsNonEmpty)
  {
    var ids := ReferencedIds(b.relationships);
    var fs := Fragments(index, ids);
    var words := Filter(fs, IsNonEmpty);
    var text := ResolveCell(index, b).text;
    assert Collapse(text) == Join(words, " ") by {
      CellTextJoinsNonEmptyFragments(index, b);
    }
    SomeFragmentKept(index, ids);
    KeptFragmentsAreWords(index, ids);
    WordsListedBySplit(text, words);
  }

  /** A non-empty fragment survives the filter. */
  lemma SomeFragmentKept(index: map<string, Block>, ids: seq<string>)
    requires exists id | id in ids :: FragmentText(index, id) != ""
    ensures |Filter(Fragments(index, ids), IsNonEmpty)| >= 1
  {
    var id :| id in ids && FragmentText(index, id) != "";
    var k :| 0 <= k < |ids| && ids[k] == id;
    PositionsAreComplete(Fragments(index, ids), IsNonEmpty, k);
  }

  /** The fragments the filter keeps are non-empty and, when every fragment is, whitespace-free. */
  lemma KeptFragmentsAreWords(index: map<string, Block>, ids: seq<string>)
    requires forall id | id in ids :: NoWhitespace(FragmentText(index, id))
    ensures var words := Filter(Fragments(index, ids), IsNonEmpty);
            forall t | 0 <= t < |words| :: words[t] != [] && NoWhitespace(words[t])
  {
    var fs := Fragments(index, ids);
    var words := Filter(fs, IsNonEmpty);
    forall t | 0 <= t < |words|
      ensures words[t] != [] && NoWhitespace(words[t])
    {
      var p := Positions(fs, IsNonEmpty)[t];
      assert ids[p] in ids;
    }
  }

  /** A trimmed text whose collapsed form is non-empty words joined by spaces splits into those words. */
  lemma WordsListedBySplit(text: string, words: seq<string>)
    requires IsTrimmed(text) && |words| >= 1
    requires forall t | 0 <= t < |words| :: words[t] != [] && NoWhitespace(words[t])
    requires Collapse(text) == Join(words, " ")
    ensures SplitOnWhitespace(text) == words
  {
    JoinStartsWithFirst(words, " ");
    assert text != [];
    var pieces := SplitOnWhitespace(text);
    SplitTrimmedHasNoEmptyPiece(text);
    SplitJoinRoundTrip(pieces);
    SplitJoinRoundTrip(words);
  }
}
