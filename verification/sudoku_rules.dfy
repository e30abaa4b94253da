/** The Sudoku rules engine: an 81-cell board, the three group-membership
    functions, the candidate query and the single write operation. */
module SudokuRules {
  import opened Common

  /** The board: 81 cells, each empty or holding a digit. */
  type Board = b: seq<Option<Digit>> | |b| == 81 witness seq(81, _ => None)

  /** Which block-membership formula the engine uses: the one in the code,
      whose top-left index lacks the `* 27` factor, or the intended one. */
  datatype Edition = AsWritten | Corrected

  /** A rules object: its fixed block formula and its current contents. */
  datatype Rules = Rules(edition: Edition, contents: Board)

  /** What a write returns: the rules after the write, the cells holding the
      written digit in a group where it is duplicated, and every cell connected
      to the written one. */
  datatype Written = Written(rules: Rules, invalid: seq<Index>, connected: seq<Index>)

  // ---------------------------------------------------------------------
  // Geometry, stated on row and column coordinates

  predicate SameRow(i: Index, j: Index) {
    i / 9 == j / 9
  }

  predicate SameColumn(i: Index, j: Index) {
    i % 9 == j % 9
  }

  /** Same band of three rows and same stack of three columns. */
  predicate SameBlock(i: Index, j: Index) {
    i / 27 == j / 27 && i % 9 / 3 == j % 9 / 3
  }

  /** `i % 9 - i % 3` is the column of the left edge of i's stack. */
  lemma StackLeftEdge(i: Index)
    ensures i % 9 - i % 3 == i % 9 / 3 * 3
  {
  }

  // ---------------------------------------------------------------------
  // Group membership

  /** The nine indices of i's row, from left to right. */
  function RowMembers(i: Index): (r: seq<Index>)
    ensures |r| == 9 && Distinct(r)
    ensures forall j: Index :: j in r <==> SameRow(i, j)
    ensures forall k :: 0 <= k < 9 ==> r[k] as int == i / 9 * 9 + k
  {
    var r := seq(9, k requires 0 <= k < 9 => i / 9 * 9 + k);
    assert forall j: Index :: SameRow(i, j) ==> r[j % 9] == j;
    r
  }

  /** The nine indices of i's column, from top to bottom. */
  function ColumnMembers(i: Index): (r: seq<Index>)
    ensures |r| == 9 && Distinct(r)
    ensures forall j: Index :: j in r <==> SameColumn(i, j)
    ensures forall k :: 0 <= k < 9 ==> r[k] as int == i % 9 + 9 * k
  {
    var r := seq(9, k requires 0 <= k < 9 => i % 9 + k * 9);
    assert forall j: Index :: SameColumn(i, j) ==> r[j / 9] == j;
    r
  }

  /** The top-left index of the block the formula assigns to i. */
  function BlockTopLeft(e: Edition, i: Index): (t: int)
    ensures 0 <= t <= 60
    ensures e == AsWritten ==> t <= 8
  {
    StackLeftEdge(i);
    (if e == AsWritten then i / 27 else i / 27 * 27) + i % 9 - i % 3
  }

  /** Every cell of i's block is the block's top-left index plus a row offset
      of 0, 9 or 18 and a column offset of 0, 1 or 2. */
  lemma InsideBlock(i: Index, j: Index)
    requires SameBlock(i, j)
    ensures j == i / 27 * 27 + i % 9 / 3 * 3 + j / 9 % 3 * 9 + j % 3
  {
    StackLeftEdge(j);
  }

  /** The top-left index plus such offsets lands in i's block. */
  lemma OffsetInsideBlock(i: Index, dr: int, dc: int)
    requires 0 <= dr < 3 && 0 <= dc < 3
    ensures 0 <= i / 27 * 27 + i % 9 / 3 * 3 + dr * 9 + dc < 81
    ensures SameBlock(i, i / 27 * 27 + i % 9 / 3 * 3 + dr * 9 + dc)
  {
  }

  /** The nine indices of the block the formula assigns to i: the top-left
      index plus the offsets 0, 1, 2, 9, 10, 11, 18, 19, 20. */
  function BlockMembers(e: Edition, i: Index): (r: seq<Index>)
    ensures |r| == 9 && Distinct(r)
    ensures e == Corrected || i < 27 ==> forall j: Index :: j in r <==> SameBlock(i, j)
  {
    var t := BlockTopLeft(e, i);
    var r := [t, t + 1, t + 2, t + 9, t + 10, t + 11, t + 18, t + 19, t + 20];
    if e == Corrected || i < 27 then
      assert forall j: Index :: j in r <==> SameBlock(i, j) by {
        StackLeftEdge(i);
        assert t == i / 27 * 27 + i % 9 / 3 * 3;
        forall j: Index
          ensures j in r <==> SameBlock(i, j)
        {
          if SameBlock(i, j) {
            InsideBlock(i, j);
          }
          OffsetInsideBlock(i, 0, 0); OffsetInsideBlock(i, 0, 1); OffsetInsideBlock(i, 0, 2);
          OffsetInsideBlock(i, 1, 0); OffsetInsideBlock(i, 1, 1); OffsetInsideBlock(i, 1, 2);
          OffsetInsideBlock(i, 2, 0); OffsetInsideBlock(i, 2, 1); OffsetInsideBlock(i, 2, 2);
          assert r == [t + 0 * 9 + 0, t + 0 * 9 + 1, t + 0 * 9 + 2,
                       t + 1 * 9 + 0, t + 1 * 9 + 1, t + 1 * 9 + 2,
                       t + 2 * 9 + 0, t + 2 * 9 + 1, t + 2 * 9 + 2];
        }
      }
      r
    else
      r
  }

  /** j lies in one of the three groups the engine scans for i. */
  predicate Connected(e: Edition, i: Index, j: Index) {
    j in RowMembers(i) || j in ColumnMembers(i) || j in BlockMembers(e, i)
  }

  /** The de-duplicated concatenation of i's row, column and block. */
  function ConnectedMembers(e: Edition, i: Index): (r: seq<Index>)
    ensures Distinct(r)
    ensures forall j: Index :: j in r <==> Connected(e, i, j)
  {
    Dedup(RowMembers(i) + ColumnMembers(i) + BlockMembers(e, i))
  }

  /** A row and a column meet in one cell. */
  lemma RowMeetsColumn(i: Index)
    ensures Elements(RowMembers(i)) * Elements(ColumnMembers(i)) == {i}
  {
    forall j: Index | j in RowMembers(i) && j in ColumnMembers(i)
      ensures j == i
    {
      assert SameRow(i, j) && SameColumn(i, j);
    }
  }

  /** Three pairwise different values form a set of three. */
  lemma ThreeDistinct(a: Index, b: Index, c: Index)
    requires a != b && b != c && a != c
    ensures |{a, b, c}| == 3
  {
  }

  /** An index in mixed radix: band, row within the band, stack, column
      within the stack. */
  lemma Coordinates(j: Index)
    ensures j == j / 27 * 27 + j / 9 % 3 * 9 + j % 9 / 3 * 3 + j % 3
    ensures j / 9 == j / 27 * 3 + j / 9 % 3 && j % 9 == j % 9 / 3 * 3 + j % 3
    ensures 0 <= j / 27 < 3 && 0 <= j / 9 % 3 < 3 && 0 <= j % 9 / 3 < 3 && 0 <= j % 3 < 3
  {
    StackLeftEdge(j);
  }

  /** The cells sharing both row and block with i. */
  lemma RowAndBlock(i: Index, j: Index)
    ensures SameRow(i, j) && SameBlock(i, j) <==>
      var t := i / 9 * 9 + i % 9 / 3 * 3;
      j == t || j == t + 1 || j == t + 2
  {
    Coordinates(i);
    Coordinates(j);
  }

  /** The cells sharing both column and block with i. */
  lemma ColumnAndBlock(i: Index, j: Index)
    ensures SameColumn(i, j) && SameBlock(i, j) <==>
      var t := i / 27 * 27 + i % 9;
      j == t || j == t + 9 || j == t + 18
  {
    Coordinates(i);
    Coordinates(j);
    var t := i / 27 * 27 + i % 9;
    if j == t || j == t + 9 || j == t + 18 {
      var m := (j - t) / 9;
      assert j == i / 27 * 27 + m * 9 + i % 9 / 3 * 3 + i % 3;
      MixedRadixUnique(j / 27, j / 9 % 3, j % 9 / 3, j % 3, i / 27, m, i % 9 / 3, i % 3);
    }
  }

  /** Four base-3 style digits determine the index they spell. */
  lemma MixedRadixUnique(a: int, b: int, c: int, d: int, a': int, b': int, c': int, d': int)
    requires 0 <= a < 3 && 0 <= b < 3 && 0 <= c < 3 && 0 <= d < 3
    requires 0 <= a' < 3 && 0 <= b' < 3 && 0 <= c' < 3 && 0 <= d' < 3
    requires a * 27 + b * 9 + c * 3 + d == a' * 27 + b' * 9 + c' * 3 + d'
    ensures a == a' && b == b' && c == c' && d == d'
  {
  }

  /** A row meets a true block in three consecutive cells. */
  lemma RowMeetsBlock(e: Edition, i: Index)
    requires e == Corrected || i < 27
    ensures |Elements(RowMembers(i)) * Elements(BlockMembers(e, i))| == 3
  {
    Coordinates(i);
    var t: Index := i / 9 * 9 + i % 9 / 3 * 3;
    forall j: Index
      ensures j in RowMembers(i) && j in BlockMembers(e, i) <==> j in {t, t + 1, t + 2}
    {
      RowAndBlock(i, j);
    }
    assert Elements(RowMembers(i)) * Elements(BlockMembers(e, i)) == {t, t + 1, t + 2};
    ThreeDistinct(t, t + 1, t + 2);
  }

  /** A column meets a true block in three cells, one per row of the band. */
  lemma ColumnMeetsBlock(e: Edition, i: Index)
    requires e == Corrected || i < 27
    ensures |Elements(ColumnMembers(i)) * Elements(BlockMembers(e, i))| == 3
  {
    Coordinates(i);
    var t: Index := i / 27 * 27 + i % 9;
    forall j: Index
      ensures j in ColumnMembers(i) && j in BlockMembers(e, i) <==> j in {t, t + 9, t + 18}
    {
      ColumnAndBlock(i, j);
    }
    assert Elements(ColumnMembers(i)) * Elements(BlockMembers(e, i)) == {t, t + 9, t + 18};
    ThreeDistinct(t, t + 9, t + 18);
  }

  /** Inclusion-exclusion for three groups of nine that pairwise share the
      cell i, where the block shares three cells each with row and column. */
  lemma ThreeGroupsCard(R: set<Index>, C: set<Index>, B: set<Index>, i: Index)
    requires |R| == 9 && |C| == 9 && |B| == 9
    requires R * C == {i} && i in B
    requires |R * B| == 3 && |C * B| == 3
    ensures |R + C + B| == 21
  {
    assert |R + C| == 17;
    assert (R * B) * (C * B) == {i};
    assert |(R * B) + (C * B)| == 5;
    assert (R + C) * B == (R * B) + (C * B);
  }

  /** The connected cells, as a set, are the union of the three groups. */
  lemma ConnectedElements(e: Edition, i: Index)
    ensures Elements(ConnectedMembers(e, i))
      == Elements(RowMembers(i)) + Elements(ColumnMembers(i)) + Elements(BlockMembers(e, i))
  {
  }

  /** With a true 3x3 block, i's row, column and block cover exactly 21
      cells: 9 + 9 + 9, less the cell itself counted three times, less the
      two further cells the block shares with the row and with the column. */
  lemma ConnectedCount(e: Edition, i: Index)
    requires e == Corrected || i < 27
    ensures |ConnectedMembers(e, i)| == 21
  {
    var row, column, block := RowMembers(i), ColumnMembers(i), BlockMembers(e, i);
    DistinctCard(row);
    DistinctCard(column);
    DistinctCard(block);
    var connected := ConnectedMembers(e, i);
    DistinctCard(connected);
    ConnectedElements(e, i);
    RowMeetsColumn(i);
    RowMeetsBlock(e, i);
    ColumnMeetsBlock(e, i);
    ThreeGroupsCard(Elements(row), Elements(column), Elements(block), i);
  }

  // ---------------------------------------------------------------------
  // The rules object

  /** Cell j currently holds the number c. */
  predicate Holds(b: Board, j: Index, c: int) {
    b[j].Some? && b[j].value == c
  }

  /** The number of distinct cells of a group holding c. */
  function Occupancy(b: Board, group: seq<Index>, c: int): nat {
    |set j | j in group && Holds(b, j, c)|
  }

  /** The constructor: a fresh rules object has 81 empty cells. */
  function NewRules(e: Edition): (r: Rules)
    ensures r.edition == e
    ensures |r.contents| == 81
    ensures forall j :: 0 <= j < 81 ==> r.contents[j] == None
  {
    Rules(e, seq(81, _ => None))
  }

  /** The members of a group that hold c, in group order (`members.filter`). */
  function Matching(b: Board, members: seq<Index>, c: int): (r: seq<Index>)
    ensures forall j :: j in r <==> j in members && Holds(b, j, c)
    ensures Distinct(members) ==> Distinct(r)
    ensures |r| <= |members|
  {
    if |members| == 0 then []
    else
      var rest := Matching(b, members[1..], c);
      if Holds(b, members[0], c) then [members[0]] + rest else rest
  }

  /** For a group without repeated members, the filter's length is the
      group's occupancy. */
  lemma MatchingCountsOccupancy(b: Board, members: seq<Index>, c: int)
    requires Distinct(members)
    ensures |Matching(b, members, c)| == Occupancy(b, members, c)
  {
    var m := Matching(b, members, c);
    DistinctCard(m);
    assert Elements(m) == set j | j in members && Holds(b, j, c);
  }

  /** `#getInvalidMembers`: the members holding d when more than one does,
      and nothing otherwise. */
  function InvalidMembers(b: Board, members: seq<Index>, d: Digit): (r: seq<Index>)
    requires Distinct(members)
    ensures Distinct(r)
    ensures Occupancy(b, members, d) <= 1 ==> r == []
    ensures Occupancy(b, members, d) >= 2 ==>
      forall j :: j in r <==> j in members && Holds(b, j, d)
  {
    MatchingCountsOccupancy(b, members, d);
    var m := Matching(b, members, d);
    if |m| > 1 then m else []
  }

  /** `isValidCandidate`: no cell in i's row, column or block holds c. */
  function IsValidCandidate(rules: Rules, i: Index, c: int): (r: bool)
    ensures r <==> forall j: Index :: Connected(rules.edition, i, j) ==> !Holds(rules.contents, j, c)
    ensures Holds(rules.contents, i, c) ==> !r
  {
    var b := rules.contents;
    var rowMatches := Matching(b, RowMembers(i), c);
    var columnMatches := Matching(b, ColumnMembers(i), c);
    var blockMatches := Matching(b, BlockMembers(rules.edition, i), c);
    assert |rowMatches| + |columnMatches| + |blockMatches| != 0 ==>
      exists j: Index :: Connected(rules.edition, i, j) && Holds(b, j, c) by {
      if |rowMatches| > 0 {
        assert rowMatches[0] in rowMatches;
      } else if |columnMatches| > 0 {
        assert columnMatches[0] in columnMatches;
      } else if |blockMatches| > 0 {
        assert blockMatches[0] in blockMatches;
      }
    }
    assert i in RowMembers(i);
    |rowMatches| + |columnMatches| + |blockMatches| == 0
  }

  /** j holds d and sits in a group where more than one cell holds d. */
  predicate Crowded(b: Board, group: seq<Index>, j: Index, d: Digit) {
    j in group && Holds(b, j, d) && Occupancy(b, group, d) >= 2
  }

  /** `setContents`: writes d into cell i and reports the duplicated cells
      of i's groups and every cell connected to i. */
  function SetContents(rules: Rules, i: Index, d: Digit): (w: Written)
    ensures w.rules.edition == rules.edition
    ensures w.rules.contents[i] == Some(d)
    ensures forall j: Index :: j != i ==> w.rules.contents[j] == rules.contents[j]
    ensures Distinct(w.invalid)
    ensures forall j: Index :: j in w.invalid <==>
      var b := w.rules.contents;
      Crowded(b, RowMembers(i), j, d)
      || Crowded(b, ColumnMembers(i), j, d)
      || Crowded(b, BlockMembers(rules.edition, i), j, d)
    ensures Distinct(w.connected)
    ensures forall j: Index :: j in w.connected <==> Connected(rules.edition, i, j)
  {
    var b := rules.contents[i := Some(d)];
    var rowMembers := RowMembers(i);
    var invalidRowMembers := InvalidMembers(b, rowMembers, d);
    var columnMembers := ColumnMembers(i);
    var invalidColumnMembers := InvalidMembers(b, columnMembers, d);
    var blockMembers := BlockMembers(rules.edition, i);
    var invalidBlockMembers := InvalidMembers(b, blockMembers, d);
    var allConnected := ConnectedMembers(rules.edition, i);
    var allInvalid := Dedup(invalidRowMembers + invalidColumnMembers + invalidBlockMembers);
    Written(Rules(rules.edition, b), allInvalid, allConnected)
  }

  // ---------------------------------------------------------------------
  // The block formula as written

  /** In the top band the two formulas agree: there `i / 27` is 0. */
  lemma TopBandBlocksAgree(i: Index)
    requires i < 27
    ensures BlockMembers(AsWritten, i) == BlockMembers(Corrected, i)
  {
  }

  /** The formula as written never reaches past index 28, so a cell below
      the top band is never in its own block. */
  lemma AsWrittenBlockContainsCellIffTopBand(i: Index)
    ensures forall j :: j in BlockMembers(AsWritten, i) ==> j <= 28
    ensures i in BlockMembers(AsWritten, i) <==> i < 27
  {
    if i < 27 {
      assert SameBlock(i, i);
    } else {
      StackLeftEdge(i);
      assert BlockTopLeft(AsWritten, i) <= 8;
      assert i !in BlockMembers(AsWritten, i);
    }
  }

  /** On every input, the formula as written gives the top-band block of i's
      column shifted right by `i / 27` cells. */
  lemma AsWrittenBlockIsShiftedTopBlock(i: Index)
    ensures forall k :: 0 <= k < 9 ==>
      BlockMembers(AsWritten, i)[k] == BlockMembers(Corrected, i % 9)[k] + i / 27
  {
    var c: Index := i % 9;
    assert c / 27 == 0 && c % 9 == c && c % 3 == i % 3;
    assert BlockTopLeft(AsWritten, i) == BlockTopLeft(Corrected, c) + i / 27;
  }

  /** The cell 40, in the middle of the board, is given the block 4, 5, 6,
      13, 14, 15, 22, 23, 24, which does not contain it. */
  lemma BlockBugAtCentre()
    ensures BlockMembers(AsWritten, 40) == [4, 5, 6, 13, 14, 15, 22, 23, 24]
    ensures 40 !in BlockMembers(AsWritten, 40)
    ensures Connected(AsWritten, 40, 5) && !Connected(AsWritten, 5, 40)
  {
    assert 40 !in RowMembers(5) && 40 !in ColumnMembers(5);
  }

  /** A legal board: 5 in cells 14 and 24, which share no row, column or
      block. */
  function PairBoard(): (b: Board)
    ensures Holds(b, 14, 5) && Holds(b, 24, 5)
    ensures forall j: Index :: j != 14 && j != 24 ==> b[j] == None
  {
    seq(81, j requires 0 <= j < 81 => if j == 14 || j == 24 then Some(5) else None)
  }

  /** The visible effect of the block formula as written: writing 5 into cell
      40 of the legal board above reports the valid cells 14 and 24 as
      duplicates and not the written cell, while the corrected engine reports
      nothing. */
  lemma BlockBugFlagsLegalPair()
    ensures var w := SetContents(Rules(AsWritten, PairBoard()), 40, 5);
      14 in w.invalid && 24 in w.invalid && 40 !in w.invalid
    ensures SetContents(Rules(Corrected, PairBoard()), 40, 5).invalid == []
  {
    AsWrittenFlagsPair();
    CorrectedFlagsNothing();
  }

  lemma AsWrittenFlagsPair()
    ensures var w := SetContents(Rules(AsWritten, PairBoard()), 40, 5);
      14 in w.invalid && 24 in w.invalid && 40 !in w.invalid
  {
    var w := SetContents(Rules(AsWritten, PairBoard()), 40, 5);
    assert w.rules.contents == PairBoard()[40 := Some(5)];
    BlockBugAtCentre();
    PairCrowdsBlock(w.rules.contents, BlockMembers(AsWritten, 40));
    OnlyWrittenCell(w.rules.contents, RowMembers(40));
    OnlyWrittenCell(w.rules.contents, ColumnMembers(40));
  }

  /** A group holding both 14 and 24 has them both crowded. */
  lemma PairCrowdsBlock(b: Board, group: seq<Index>)
    requires b == PairBoard()[40 := Some(5)]
    requires 14 in group && 24 in group
    ensures Crowded(b, group, 14, 5) && Crowded(b, group, 24, 5)
  {
    var holders := set j | j in group && Holds(b, j, 5);
    assert 14 in holders && 24 in holders;
    SubsetCard({14, 24}, holders);
  }

  lemma CorrectedFlagsNothing()
    ensures SetContents(Rules(Corrected, PairBoard()), 40, 5).invalid == []
  {
    var w := SetContents(Rules(Corrected, PairBoard()), 40, 5);
    var b := w.rules.contents;
    assert b == PairBoard()[40 := Some(5)];
    assert SameBlock(40, 40) && !SameBlock(40, 14) && !SameBlock(40, 24);
    OnlyWrittenCell(b, RowMembers(40));
    OnlyWrittenCell(b, ColumnMembers(40));
    OnlyWrittenCell(b, BlockMembers(Corrected, 40));
    InvalidEmptyIffNoDuplicate(Rules(Corrected, PairBoard()), 40, 5);
  }

  /** A subset is no larger than its superset. */
  lemma {:induction false} SubsetCard<T>(a: set<T>, b: set<T>)
    requires a <= b
    ensures |a| <= |b|
  {
    if a != {} {
      var x :| x in a;
      SubsetCard(a - {x}, b - {x});
    }
  }

  /** In a group of 40 that avoids cells 14 and 24, only 40 holds 5 once 5 is
      written there. */
  lemma OnlyWrittenCell(b: Board, group: seq<Index>)
    requires b == PairBoard()[40 := Some(5)]
    requires 40 in group && 14 !in group && 24 !in group
    ensures Occupancy(b, group, 5) == 1
  {
    assert (set j | j in group && Holds(b, j, 5)) == {40};
  }

  /** With the corrected formula, being connected is symmetric. */
  lemma CorrectedConnectedSymmetric(i: Index, j: Index)
    ensures Connected(Corrected, i, j) <==> Connected(Corrected, j, i)
  {
  }

  /** The cells connected to the top-left corner, as the rules test lists them. */
  lemma ConnectedToFirstCell()
    ensures Elements(ConnectedMembers(AsWritten, 0)) ==
      {0, 1, 2, 3, 4, 5, 6, 7, 8, 9, 10, 11, 18, 19, 20, 27, 36, 45, 54, 63, 72}
    ensures |ConnectedMembers(AsWritten, 0)| == 21
  {
    ConnectedCount(AsWritten, 0);
    ConnectedElements(AsWritten, 0);
    FirstRow();
    FirstColumn();
    FirstBlock();
  }

  lemma FirstRow()
    ensures Elements(RowMembers(0)) == {0, 1, 2, 3, 4, 5, 6, 7, 8}
  {
    var t: seq<Index> := [0, 1, 2, 3, 4, 5, 6, 7, 8];
    SeqElements(RowMembers(0), t);
    assert Elements(t) == {0, 1, 2, 3, 4, 5, 6, 7, 8};
  }

  lemma FirstColumn()
    ensures Elements(ColumnMembers(0)) == {0, 9, 18, 27, 36, 45, 54, 63, 72}
  {
    var t: seq<Index> := [0, 9, 18, 27, 36, 45, 54, 63, 72];
    SeqElements(ColumnMembers(0), t);
    assert Elements(t) == {0, 9, 18, 27, 36, 45, 54, 63, 72};
  }

  lemma FirstBlock()
    ensures Elements(BlockMembers(AsWritten, 0)) == {0, 1, 2, 9, 10, 11, 18, 19, 20}
  {
    var t: seq<Index> := [0, 1, 2, 9, 10, 11, 18, 19, 20];
    assert BlockMembers(AsWritten, 0) == t;
    assert Elements(t) == {0, 1, 2, 9, 10, 11, 18, 19, 20};
  }

  lemma SeqElements(s: seq<Index>, t: seq<Index>)
    requires |s| == |t| && forall k :: 0 <= k < |s| ==> s[k] == t[k]
    ensures Elements(s) == Elements(t)
  {
    assert s == t;
  }

  // ---------------------------------------------------------------------
  // Properties of the queries and the write

  /** On true groups, a candidate is valid exactly when no cell sharing a
      row, column or block with i holds it. */
  lemma CandidateOnTrueGroups(rules: Rules, i: Index, c: int)
    requires rules.edition == Corrected || i < 27
    ensures IsValidCandidate(rules, i, c) <==>
      forall j: Index :: SameRow(i, j) || SameColumn(i, j) || SameBlock(i, j) ==>
        !Holds(rules.contents, j, c)
  {
    forall j: Index
      ensures Connected(rules.edition, i, j) <==> SameRow(i, j) || SameColumn(i, j) || SameBlock(i, j)
    {
    }
  }

  /** After d is written into i, d is no longer a valid candidate for any
      cell whose groups contain i. */
  lemma WriteBlocksCandidate(rules: Rules, i: Index, d: Digit, j: Index)
    requires Connected(rules.edition, j, i)
    ensures !IsValidCandidate(SetContents(rules, i, d).rules, j, d)
  {
    assert Holds(SetContents(rules, i, d).rules.contents, i, d);
  }

  /** Every reported duplicate is among the connected cells, so the flat
      union of the two lists is just the connected list. */
  lemma InvalidAmongConnected(rules: Rules, i: Index, d: Digit)
    ensures forall j :: j in SetContents(rules, i, d).invalid ==> j in SetContents(rules, i, d).connected
  {
  }

  /** No cell is reported invalid exactly when d occurs at most once in
      each of i's groups after the write. With a true block, a non-empty
      report always includes the written cell. */
  lemma InvalidEmptyIffNoDuplicate(rules: Rules, i: Index, d: Digit)
    ensures var w := SetContents(rules, i, d);
      w.invalid == [] <==>
        Occupancy(w.rules.contents, RowMembers(i), d) <= 1
        && Occupancy(w.rules.contents, ColumnMembers(i), d) <= 1
        && Occupancy(w.rules.contents, BlockMembers(rules.edition, i), d) <= 1
    ensures var w := SetContents(rules, i, d);
      (rules.edition == Corrected || i < 27) && w.invalid != [] ==> i in w.invalid
  {
    var w := SetContents(rules, i, d);
    var b := w.rules.contents;
    if w.invalid != [] {
      assert w.invalid[0] in w.invalid;
    }
    assert Holds(b, i, d);
    assert i in RowMembers(i) && i in ColumnMembers(i);
    if Occupancy(b, BlockMembers(rules.edition, i), d) >= 2 {
      var j :| j in BlockMembers(rules.edition, i) && Holds(b, j, d);
      assert j in w.invalid;
    }
    if rules.edition == Corrected || i < 27 {
      assert SameBlock(i, i);
    }
  }

  /** Writing the digit a cell already holds changes nothing and reports the
      same lists: the code has no guard against a repeated write. */
  lemma RepeatedWriteIsIdempotent(rules: Rules, i: Index, d: Digit)
    ensures var w := SetContents(rules, i, d);
      SetContents(w.rules, i, d) == w
  {
    var w := SetContents(rules, i, d);
    assert w.rules.contents[i := Some(d)] == w.rules.contents;
  }

  /** Writing back the digit a cell held before undoes a write. */
  lemma RewriteRestores(rules: Rules, i: Index, d: Digit, previous: Digit)
    requires rules.contents[i] == Some(previous)
    ensures SetContents(SetContents(rules, i, d).rules, i, previous).rules == rules
  {
    var b := SetContents(SetContents(rules, i, d).rules, i, previous).rules.contents;
    assert b == rules.contents;
  }

  /** Writes to two different cells commute. */
  lemma WritesCommute(rules: Rules, i: Index, d: Digit, j: Index, e: Digit)
    requires i != j
    ensures SetContents(SetContents(rules, i, d).rules, j, e).rules
         == SetContents(SetContents(rules, j, e).rules, i, d).rules
  {
    var c := rules.contents;
    assert SetContents(rules, i, d).rules == Rules(rules.edition, c[i := Some(d)]);
    assert SetContents(rules, j, e).rules == Rules(rules.edition, c[j := Some(e)]);
    assert c[i := Some(d)][j := Some(e)] == c[j := Some(e)][i := Some(d)];
  }

  // ---------------------------------------------------------------------
  // The candidate scenarios of the rules tests

  /** A row, a column and a block each rule a candidate out. */
  lemma CandidateConflictScenarios()
    ensures var r := SetContents(SetContents(NewRules(AsWritten), 1, 5).rules, 9, 3).rules;
      !IsValidCandidate(r, 0, 5) && !IsValidCandidate(r, 14, 3)
    ensures var r := SetContents(SetContents(NewRules(AsWritten), 0, 5).rules, 10, 6).rules;
      !IsValidCandidate(r, 72, 5) && !IsValidCandidate(r, 28, 6)
    ensures var r := SetContents(SetContents(NewRules(AsWritten), 4, 5).rules, 8, 6).rules;
      !IsValidCandidate(r, 14, 5) && !IsValidCandidate(r, 6, 6)
  {
    var r1 := SetContents(NewRules(AsWritten), 1, 5).rules;
    WriteBlocksCandidate(NewRules(AsWritten), 1, 5, 0);
    assert 9 in RowMembers(14);
    WriteBlocksCandidate(r1, 9, 3, 14);
    var r2 := SetContents(NewRules(AsWritten), 0, 5).rules;
    assert 0 in ColumnMembers(72);
    WriteBlocksCandidate(NewRules(AsWritten), 0, 5, 72);
    assert 10 in ColumnMembers(28);
    WriteBlocksCandidate(r2, 10, 6, 28);
    var r3 := SetContents(NewRules(AsWritten), 4, 5).rules;
    assert 4 in BlockMembers(AsWritten, 14);
    WriteBlocksCandidate(NewRules(AsWritten), 4, 5, 14);
    assert 8 in BlockMembers(AsWritten, 6);
    WriteBlocksCandidate(r3, 8, 6, 6);
  }

  /** The board of the first candidate test: 4 in cell 1 and 5 in cell 49. */
  function TwoDigitBoard(): (r: Rules)
    ensures r.edition == AsWritten
    ensures r.contents[1] == Some(4) && r.contents[49] == Some(5)
    ensures forall j: Index :: j != 1 && j != 49 ==> r.contents[j] == None
  {
    SetContents(SetContents(NewRules(AsWritten), 1, 4).rules, 49, 5).rules
  }

  /** No connected cell holds the candidate. */
  lemma CandidateFreeScenario()
    ensures IsValidCandidate(TwoDigitBoard(), 0, 5)
    ensures IsValidCandidate(TwoDigitBoard(), 40, 2)
    ensures IsValidCandidate(TwoDigitBoard(), 72, 3)
  {
    var r := TwoDigitBoard();
    TwoDigitHolders(r);
    Cell49OutsideGroupsOf0();
    Cell1OutsideGroupsOf40();
    Cell1OutsideGroupsOf72();
    OnlyUnconnectedHolder(r, 0, 5, 49);
    OnlyUnconnectedHolder(r, 40, 2, 1);
    OnlyUnconnectedHolder(r, 72, 3, 1);
  }

  /** On that board only cell 49 holds 5, and no cell holds 2 or 3 (so any
      holder of them is, vacuously, cell 1). */
  lemma TwoDigitHolders(r: Rules)
    requires r.contents[1] == Some(4) && r.contents[49] == Some(5)
    requires forall j: Index :: j != 1 && j != 49 ==> r.contents[j] == None
    ensures forall j: Index :: Holds(r.contents, j, 5) ==> j == 49
    ensures forall j: Index :: Holds(r.contents, j, 2) ==> j == 1
    ensures forall j: Index :: Holds(r.contents, j, 3) ==> j == 1
  {
  }

  /** The test's cells are in none of the queried cells' groups. */
  lemma Cell49OutsideGroupsOf0()
    ensures !Connected(AsWritten, 0, 49)
  {
    assert !SameRow(0, 49) && !SameColumn(0, 49) && !SameBlock(0, 49);
  }

  lemma Cell1OutsideGroupsOf40()
    ensures !Connected(AsWritten, 40, 1)
  {
    assert 1 !in BlockMembers(AsWritten, 40);
    assert !SameRow(40, 1) && !SameColumn(40, 1);
  }

  lemma Cell1OutsideGroupsOf72()
    ensures !Connected(AsWritten, 72, 1)
  {
    assert !SameRow(72, 1) && !SameColumn(72, 1) && !SameBlock(72, 1);
  }

  /** A candidate held by at most one cell, not connected to i, is valid at i. */
  lemma OnlyUnconnectedHolder(rules: Rules, i: Index, c: int, k: Index)
    requires forall j: Index :: Holds(rules.contents, j, c) ==> j == k
    requires !Connected(rules.edition, i, k)
    ensures IsValidCandidate(rules, i, c)
  {
  }
}
