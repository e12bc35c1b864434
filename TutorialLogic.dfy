/** The tutorial's deduction engine (frontend/src/utils/tutorialLogic.ts).

    The ten digits are split into four groups from the first guess (the
    digits table); for each of three hypotheses (the columns) the clues
    table holds how many secret digits each group (the rows) contributes.
    Turns 1 to 3 fill that table and cross out or highlight columns.

    Every table is a 4x3 grid. A cell of the digits or clues table is
    `None` for `""` and `Some(v)` for the text `v.toString()`; the source
    only ever writes those two kinds of value. */
module TutorialLogic {
  import opened Common

  type Cell = Option<int>
  type Grid<T> = seq<seq<T>>

  predicate IsGrid<T>(g: Grid<T>) {
    |g| == 4 && forall r :: 0 <= r < 4 ==> |g[r]| == 3
  }

  datatype TutorialState = TutorialState(
    digitsTable: Grid<Cell>,
    cluesTable: Grid<Cell>,
    crossedOutCells: Grid<bool>,
    highlightedCells: Grid<bool>)
  {
    predicate WellShaped() {
      IsGrid(digitsTable) && IsGrid(cluesTable) && IsGrid(crossedOutCells) && IsGrid(highlightedCells)
    }
  }

  /** `sumOfCenteredDisplaced` is a JavaScript array written at index
      `turn - 1`; an array with holes is a partial map from index to value. */
  datatype TutorialData = TutorialData(sumOfCenteredDisplaced: map<int, int>, crossOuts: int)

  /** What `setTutorialClues` returns. */
  datatype TutorialUpdate = TutorialUpdate(state: TutorialState, data: TutorialData)

  /** `Number(cell)`: an empty cell reads as 0. */
  function Val(c: Cell): int {
    match c
    case None => 0
    case Some(v) => v
  }

  /** `g[r][j] = v` on a copied grid. */
  function SetCell<T>(g: Grid<T>, r: int, j: int, v: T): (h: Grid<T>)
    requires IsGrid(g) && 0 <= r < 4 && 0 <= j < 3
    ensures IsGrid(h)
    ensures forall r', j' :: 0 <= r' < 4 && 0 <= j' < 3 ==>
      h[r'][j'] == if r' == r && j' == j then v else g[r'][j']
  {
    g[r := g[r][j := v]]
  }

  /** Two grids with the same cells are the same grid. */
  lemma SameCells<T>(a: Grid<T>, b: Grid<T>)
    requires IsGrid(a) && IsGrid(b)
    requires forall r, j :: 0 <= r < 4 && 0 <= j < 3 ==> a[r][j] == b[r][j]
    ensures a == b
  {
    forall r | 0 <= r < 4 ensures a[r] == b[r] {
      assert forall j :: 0 <= j < 3 ==> a[r][j] == b[r][j];
    }
  }

  /** A grid whose twelve cells all hold `v`. */
  function Uniform<T>(v: T): (g: Grid<T>)
    ensures IsGrid(g)
    ensures forall r, j :: 0 <= r < 4 && 0 <= j < 3 ==> g[r][j] == v
  {
    seq(4, r => seq(3, j => v))
  }

  // ---------------------------------------------------------------------
  // Fresh values

  /** `initializeTutorialState`: both tables empty, no cell crossed out or
      highlighted. */
  function InitializeTutorialState(): (s: TutorialState)
    ensures s.WellShaped()
    ensures forall r, j :: 0 <= r < 4 && 0 <= j < 3 ==>
      && s.digitsTable[r][j] == None && s.cluesTable[r][j] == None
      && !s.crossedOutCells[r][j] && !s.highlightedCells[r][j]
  {
    TutorialState(Uniform(None), Uniform(None), Uniform(false), Uniform(false))
  }

  /** `hideTutorialClues`: the clues and both flag grids start over; the
      digits table is kept. */
  function HideTutorialClues(state: TutorialState): (s: TutorialState)
    ensures s.digitsTable == state.digitsTable
    ensures IsGrid(s.cluesTable) && IsGrid(s.crossedOutCells) && IsGrid(s.highlightedCells)
    ensures forall r, j :: 0 <= r < 4 && 0 <= j < 3 ==>
      s.cluesTable[r][j] == None && !s.crossedOutCells[r][j] && !s.highlightedCells[r][j]
  {
    state.(cluesTable := Uniform(None), crossedOutCells := Uniform(false), highlightedCells := Uniform(false))
  }

  /** `resetDigitsArray`: every digit once, in ascending order. */
  function ResetDigitsArray(): (ds: seq<int>)
    ensures |ds| == 10 && StrictlyIncreasing(ds) && AllDigits(ds)
    ensures forall d :: d in ds <==> IsDigit(d)
  {
    var ds := seq(10, i => i);
    assert forall d :: IsDigit(d) ==> ds[d] == d;
    ds
  }

  /** `spliceDigitFromArray`: `digits.filter(d => d !== number)`. Every
      occurrence of `number` goes, every other value keeps its number of
      occurrences, and the values kept stay in their order. */
  function SpliceDigitFromArray(digits: seq<int>, number: int): (r: seq<int>)
    ensures number !in r
    ensures forall x :: x != number ==> multiset(r)[x] == multiset(digits)[x]
    ensures Subsequence(r, digits)
    decreases |digits|
  {
    if digits == [] then []
    else
      var rest := SpliceDigitFromArray(digits[1..], number);
      assert digits == [digits[0]] + digits[1..];
      if digits[0] == number then rest
      else
        assert ([digits[0]] + rest)[1..] == rest;
        [digits[0]] + rest
  }

  /** Filtering an ascending array leaves it ascending, above its first element. */
  lemma {:induction false} SpliceKeepsOrder(digits: seq<int>, number: int)
    requires StrictlyIncreasing(digits)
    ensures var r := SpliceDigitFromArray(digits, number);
      && StrictlyIncreasing(r)
      && forall i :: 0 <= i < |r| ==> digits[0] <= r[i]
    decreases |digits|
  {
    if digits != [] {
      var tail := digits[1..];
      SpliceKeepsOrder(tail, number);
      var rest := SpliceDigitFromArray(tail, number);
      assert forall i :: 0 <= i < |rest| ==> digits[0] < rest[i] by {
        if |tail| > 0 {
          assert digits[0] < tail[0];
        }
      }
    }
  }

  /** The `forEach` that splices each input digit out of `digits` in turn. */
  function RemoveDigits(digits: seq<int>, xs: seq<int>): (r: seq<int>)
    ensures forall x :: x in xs ==> x !in r
    ensures forall x :: x !in xs ==> multiset(r)[x] == multiset(digits)[x]
    decreases |xs|
  {
    if xs == [] then digits
    else
      var prefix := xs[..|xs| - 1];
      var r := SpliceDigitFromArray(RemoveDigits(digits, prefix), xs[|xs| - 1]);
      var before := RemoveDigits(digits, prefix);
      assert forall x :: x in xs ==> x !in r by {
        forall x | x in xs ensures x !in r {
          assert x in prefix || x == xs[|xs| - 1];
          if x != xs[|xs| - 1] {
            assert multiset(before)[x] == 0;
            assert multiset(r)[x] == 0;
          }
        }
      }
      r
  }

  lemma {:induction false} RemoveKeepsOrder(digits: seq<int>, xs: seq<int>)
    requires StrictlyIncreasing(digits)
    ensures StrictlyIncreasing(RemoveDigits(digits, xs))
    decreases |xs|
  {
    if xs != [] {
      RemoveKeepsOrder(digits, xs[..|xs| - 1]);
      SpliceKeepsOrder(RemoveDigits(digits, xs[..|xs| - 1]), xs[|xs| - 1]);
    }
  }

  /** The digits still available after a guess of five distinct digits:
      exactly the five digits not guessed, in ascending order. */
  lemma AvailableDigits(xs: seq<int>)
    requires |xs| == 5 && AllDigits(xs) && Distinct(xs)
    ensures var a := RemoveDigits(ResetDigitsArray(), xs);
      && multiset(a) + multiset(xs) == multiset(ResetDigitsArray())
      && |a| == 5 && StrictlyIncreasing(a)
      && forall d :: d in a <==> IsDigit(d) && d !in xs
  {
    var all := ResetDigitsArray();
    var a := RemoveDigits(all, xs);
    RemoveKeepsOrder(all, xs);
    assert Distinct(all);
    forall x ensures (multiset(a) + multiset(xs))[x] == multiset(all)[x] {
      DistinctOccursOnce(xs, x);
      DistinctOccursOnce(all, x);
      if x in xs {
        assert x !in a;
        assert x in all;
      }
    }
    assert multiset(a) + multiset(xs) == multiset(all);
    assert |multiset(a)| + |multiset(xs)| == |multiset(all)|;
    forall d ensures d in a <==> IsDigit(d) && d !in xs {
      DistinctOccursOnce(all, d);
      assert d in a <==> multiset(a)[d] > 0;
    }
  }

  /** The rows of the digits table read input digits 0..4 and available
      digits 0..4; reading past the end of either is `undefined`, whose
      `toString` throws. */
  predicate LayoutFits(input: seq<int>) {
    |input| >= 5 && |RemoveDigits(ResetDigitsArray(), input)| >= 5
  }

  /** Any five digits, repeated or not, leave at least five of 0..9
      available, so the table always finds its five available digits. */
  lemma FiveDigitsLeaveFive(xs: seq<int>)
    requires |xs| == 5 && AllDigits(xs)
    ensures |RemoveDigits(ResetDigitsArray(), xs)| >= 5
    ensures LayoutFits(xs)
  {
    var all := ResetDigitsArray();
    var a := RemoveDigits(all, xs);
    var unused := Elements(all) - Elements(xs);
    assert Distinct(all);
    ElementsSize(all);
    ElementsSize(xs);
    assert Elements(xs) <= Elements(all);
    assert |Elements(all) - Elements(xs)| == |Elements(all)| - |Elements(xs)|;
    assert unused <= Elements(a) by {
      forall d | d in unused ensures d in a {
        DistinctOccursOnce(all, d);
        assert multiset(a)[d] == 1;
      }
    }
    assert |unused| <= |Elements(a)| by {
      SubsetSize(unused, Elements(a));
    }
    ElementsSize(a);
  }

  lemma SubsetSize(s: set<int>, t: set<int>)
    requires s <= t
    ensures |s| <= |t|
  {
    assert t == s + (t - s);
  }

  // ---------------------------------------------------------------------
  // The digits table

  /** The group layout built from the first guess `input` and the digits
      `available` after it: group 0 holds guess digits 0..2, group 1 guess
      digits 3..4, group 2 the first two available digits, group 3 the next
      three; cells [1][2] and [2][2] stay empty. */
  function DigitsLayout(input: seq<int>, available: seq<int>): (g: Grid<Cell>)
    requires |input| >= 5 && |available| >= 5
    ensures IsGrid(g)
  {
    [ [Some(input[0]), Some(input[1]), Some(input[2])],
      [Some(input[3]), Some(input[4]), None],
      [Some(available[0]), Some(available[1]), None],
      [Some(available[2]), Some(available[3]), Some(available[4])] ]
  }

  /** The values of the non-empty cells of a row, left to right. */
  function RowValues(row: seq<Cell>): seq<int> {
    if row == [] then []
    else (match row[0] case None => [] case Some(v) => [v]) + RowValues(row[1..])
  }

  lemma RowOfThree(x: Cell, y: Cell, z: Cell)
    ensures RowValues([x, y, z]) == RowValues([x]) + RowValues([y]) + RowValues([z])
  {
    assert [x, y, z][1..] == [y, z];
    assert [y, z][1..] == [z];
    assert [z][1..] == [];
    assert [x][1..] == [] && [y][1..] == [];
  }

  /** The values of the non-empty cells of a grid, row by row. */
  function FilledCells(g: Grid<Cell>): seq<int>
    requires IsGrid(g)
  {
    RowValues(g[0]) + RowValues(g[1]) + RowValues(g[2]) + RowValues(g[3])
  }

  /** One fill loop of `setTutorialDigitsFromInput`: cells 0 to `n - 1`
      of row `r` get `values[offset + i]`. */
  method FillRow(table: Grid<Cell>, r: int, values: seq<int>, offset: int, n: int) returns (g: Grid<Cell>)
    requires IsGrid(table) && 0 <= r < 4 && 0 <= n <= 3
    requires 0 <= offset && offset + n <= |values|
    ensures IsGrid(g)
    ensures forall r', j :: 0 <= r' < 4 && 0 <= j < 3 ==>
      g[r'][j] == if r' == r && j < n then Some(values[offset + j]) else table[r'][j]
  {
    g := table;
    for i := 0 to n
      invariant IsGrid(g)
      invariant forall r', j :: 0 <= r' < 4 && 0 <= j < 3 ==>
        g[r'][j] == if r' == r && j < i then Some(values[offset + j]) else table[r'][j]
    {
      g := SetCell(g, r, i, Some(values[offset + i]));
    }
  }

  /** The loop that splices each input digit out of 0..9 in turn. */
  method SpliceInputDigits(inputDigits: seq<int>) returns (availableDigits: seq<int>)
    ensures availableDigits == RemoveDigits(ResetDigitsArray(), inputDigits)
  {
    availableDigits := ResetDigitsArray();
    for k := 0 to |inputDigits|
      invariant availableDigits == RemoveDigits(ResetDigitsArray(), inputDigits[..k])
    {
      assert inputDigits[..k + 1][..k] == inputDigits[..k];
      availableDigits := SpliceDigitFromArray(availableDigits, inputDigits[k]);
    }
    assert inputDigits[..|inputDigits|] == inputDigits;
  }

  /** `setTutorialDigitsFromInput`: copies the digits table, splices the
      input digits out of 0..9 and fills the four rows. The other grids of
      the state are left as they were. With fewer than five input digits or
      fewer than five left over, a row reads past the end and the call
      throws (`None`); the table being filled is a copy, so nothing else
      has changed by then. */
  method SetTutorialDigitsFromInput(inputDigits: seq<int>, state: TutorialState) returns (r: Option<TutorialState>)
    requires state.WellShaped()
    ensures r.None? <==> !LayoutFits(inputDigits)
    ensures r.Some? ==> r.value.WellShaped()
    ensures r.Some? ==> r.value == state.(digitsTable := DigitsLayout(inputDigits, RemoveDigits(ResetDigitsArray(), inputDigits)))
  {
    var availableDigits := SpliceInputDigits(inputDigits);
    if |inputDigits| < 5 || |availableDigits| < 5 {
      return None;
    }
    var table := state.digitsTable;
    table := FillRow(table, 0, inputDigits, 0, 3);
    table := FillRow(table, 1, inputDigits, 3, 2);
    table := FillRow(table, 2, availableDigits, 0, 2);
    table := FillRow(table, 3, availableDigits, 2, 3);
    table := SetCell(table, 1, 2, None);
    table := SetCell(table, 2, 2, None);
    SameCells(table, DigitsLayout(inputDigits, availableDigits));
    r := Some(state.(digitsTable := table));
  }

  /** The filled cells of the layout are the five input digits followed by
      the five available digits. */
  lemma LayoutCells(input: seq<int>, available: seq<int>)
    requires |input| == 5 && |available| == 5
    ensures FilledCells(DigitsLayout(input, available)) == input + available
  {
    var g := DigitsLayout(input, available);
    RowOfThree(g[0][0], g[0][1], g[0][2]);
    RowOfThree(g[1][0], g[1][1], g[1][2]);
    RowOfThree(g[2][0], g[2][1], g[2][2]);
    RowOfThree(g[3][0], g[3][1], g[3][2]);
    assert input == input[..3] + input[3..5];
    assert available == available[..2] + available[2..5];
  }

  /** For a first guess of five distinct digits every digit 0..9 sits in
      exactly one non-empty cell of the digits table, and groups 2 and 3
      list the unguessed digits in ascending order. */
  lemma DigitsTablePartition(input: seq<int>)
    requires |input| == 5 && AllDigits(input) && Distinct(input)
    ensures var a := RemoveDigits(ResetDigitsArray(), input);
      && |a| == 5
      && (forall d :: multiset(FilledCells(DigitsLayout(input, a)))[d] == if IsDigit(d) then 1 else 0)
      && StrictlyIncreasing(a)
  {
    var all := ResetDigitsArray();
    var a := RemoveDigits(all, input);
    AvailableDigits(input);
    LayoutCells(input, a);
    var cells := FilledCells(DigitsLayout(input, a));
    SameCount(cells, input, a, all);
    forall d ensures multiset(cells)[d] == if IsDigit(d) then 1 else 0 {
      DigitOnce(d);
    }
  }

  lemma SameCount(cells: seq<int>, input: seq<int>, a: seq<int>, all: seq<int>)
    requires cells == input + a && multiset(a) + multiset(input) == multiset(all)
    ensures multiset(cells) == multiset(all)
  {
  }

  /** 0..9 holds each digit once and nothing else. */
  lemma DigitOnce(d: int)
    ensures multiset(ResetDigitsArray())[d] == if IsDigit(d) then 1 else 0
  {
    var all := ResetDigitsArray();
    assert Distinct(all);
    DistinctOccursOnce(all, d);
  }

  // ---------------------------------------------------------------------
  // The clues: specification, turn by turn

  /** Column `j` is skipped in turns 2 and 3 when rows 0 and 1 are both empty. */
  predicate BlankColumn(clues: Grid<Cell>, j: int)
    requires IsGrid(clues) && 0 <= j < 3
  {
    clues[0][j] == None && clues[1][j] == None
  }

  /** Turn 1 writes column `j` (the split with `2 - j` matches in group 1)
      when that split is at most the sum: for a sum above 2 every column,
      otherwise columns `2 - sum` to 2. */
  predicate Populated(sum: int, j: int) {
    j + sum >= 2
  }

  function Turn1Clues(clues: Grid<Cell>, sum: int): (g: Grid<Cell>)
    requires IsGrid(clues)
    ensures IsGrid(g)
    ensures forall r, j :: 0 <= r < 4 && 0 <= j < 3 ==>
      g[r][j] == if r <= 1 && Populated(sum, j) then Some(if r == 0 then sum - (2 - j) else 2 - j) else clues[r][j]
  {
    seq(4, r requires 0 <= r < 4 => seq(3, j requires 0 <= j < 3 =>
      if r == 0 && Populated(sum, j) then Some(sum - (2 - j))
      else if r == 1 && Populated(sum, j) then Some(2 - j)
      else clues[r][j]))
  }

  /** Flags with every cell of the columns `cols` set, the others kept. */
  function MarkColumns(flags: Grid<bool>, cols: set<int>): (g: Grid<bool>)
    requires IsGrid(flags)
    ensures IsGrid(g)
    ensures forall r, j :: 0 <= r < 4 && 0 <= j < 3 ==> g[r][j] == (flags[r][j] || j in cols)
  {
    seq(4, r requires 0 <= r < 4 => seq(3, j requires 0 <= j < 3 => flags[r][j] || j in cols))
  }

  /** Row 2 of column `j` in turn 2: group 2's share of the second sum. */
  function Row2(clues: Grid<Cell>, sum: int, j: int): int
    requires IsGrid(clues) && 0 <= j < 3
  {
    sum - Val(clues[0][j])
  }

  /** Row 3 of column `j` in turn 2: what is left of the five secret digits. */
  function Row3(clues: Grid<Cell>, sum: int, j: int): int
    requires IsGrid(clues) && 0 <= j < 3
  {
    5 - (Val(clues[0][j]) + Val(clues[1][j]) + Row2(clues, sum, j))
  }

  /** A processed column whose turn-2 rows are impossible: group 2 has only
      two digits, and a group cannot hold a negative count. */
  predicate Contradicted(clues: Grid<Cell>, sum: int, j: int)
    requires IsGrid(clues) && 0 <= j < 3
  {
    !BlankColumn(clues, j) && (Row2(clues, sum, j) > 2 || Row2(clues, sum, j) < 0 || Row3(clues, sum, j) < 0)
  }

  /** The columns below `n` that turn 2 crosses out. */
  function Contradictions(clues: Grid<Cell>, sum: int, n: int): set<int>
    requires IsGrid(clues)
  {
    set j | 0 <= j < n && j < 3 && Contradicted(clues, sum, j)
  }

  /** Taking column `j` into account adds it to the contradicted columns
      exactly when it is contradicted. */
  lemma ContradictionsStep(clues: Grid<Cell>, sum: int, j: int)
    requires IsGrid(clues) && 0 <= j < 3
    ensures j !in Contradictions(clues, sum, j)
    ensures Contradictions(clues, sum, j + 1)
            == Contradictions(clues, sum, j) + (if Contradicted(clues, sum, j) then {j} else {})
  {
    var before := Contradictions(clues, sum, j);
    var after := Contradictions(clues, sum, j + 1);
    forall c ensures c in after <==> c in before + (if Contradicted(clues, sum, j) then {j} else {}) {
      if c == j {
        assert c !in before;
      }
    }
  }

  /** How many of the columns below `n` turn 2 crosses out. */
  function CountContradicted(clues: Grid<Cell>, sum: int, n: int): (k: int)
    requires IsGrid(clues) && 0 <= n <= 3
    ensures 0 <= k <= n
  {
    if n == 0 then 0
    else CountContradicted(clues, sum, n - 1) + (if Contradicted(clues, sum, n - 1) then 1 else 0)
  }

  function Turn2Clues(clues: Grid<Cell>, sum: int): (g: Grid<Cell>)
    requires IsGrid(clues)
    ensures IsGrid(g)
    ensures forall r, j :: 0 <= r < 4 && 0 <= j < 3 ==>
      g[r][j] == if r >= 2 && !BlankColumn(clues, j) then Some(if r == 2 then Row2(clues, sum, j) else Row3(clues, sum, j)) else clues[r][j]
  {
    seq(4, r requires 0 <= r < 4 => seq(3, j requires 0 <= j < 3 =>
      if r == 2 && !BlankColumn(clues, j) then Some(Row2(clues, sum, j))
      else if r == 3 && !BlankColumn(clues, j) then Some(Row3(clues, sum, j))
      else clues[r][j]))
  }

  /** The leftmost column whose row-0 cell is not crossed out, or 3. */
  function FirstOpenColumn(crossed: Grid<bool>): (j: int)
    requires IsGrid(crossed)
    ensures 0 <= j <= 3
    ensures forall c :: 0 <= c < j ==> crossed[0][c]
    ensures j < 3 ==> !crossed[0][j]
  {
    if !crossed[0][0] then 0 else if !crossed[0][1] then 1 else if !crossed[0][2] then 2 else 3
  }

  /** Turn 3: column `j` is consistent when the third sum is the column's
      groups 1 and 2 total, or one more. */
  predicate Fits(clues: Grid<Cell>, sum: int, j: int)
    requires IsGrid(clues) && 0 <= j < 3
  {
    var t := Val(clues[1][j]) + Val(clues[2][j]);
    sum == t || sum == t + 1
  }

  /** The processed columns below `n` that turn 3 highlights. */
  function Fitting(clues: Grid<Cell>, sum: int, n: int): set<int>
    requires IsGrid(clues)
  {
    set j | 0 <= j < n && j < 3 && !BlankColumn(clues, j) && Fits(clues, sum, j)
  }

  /** The processed columns below `n` that turn 3 crosses out. */
  function Misfitting(clues: Grid<Cell>, sum: int, n: int): set<int>
    requires IsGrid(clues)
  {
    set j | 0 <= j < n && j < 3 && !BlankColumn(clues, j) && !Fits(clues, sum, j)
  }

  /** Marking `s` and then `t` marks their union. */
  lemma MarkColumnsUnion(flags: Grid<bool>, s: set<int>, t: set<int>)
    requires IsGrid(flags)
    ensures MarkColumns(MarkColumns(flags, s), t) == MarkColumns(flags, s + t)
  {
    SameCells(MarkColumns(MarkColumns(flags, s), t), MarkColumns(flags, s + t));
  }

  /** What `setTutorialClues` computes: the sum is stored at index
      `turn - 1`; turns 1, 2 and 3 then update the grids and the counter;
      any other turn changes no grid and keeps the counter. */
  function ApplyClues(turn: int, exactMatches: int, partialMatches: int,
                      state: TutorialState, data: TutorialData): (u: TutorialUpdate)
    requires state.WellShaped()
    ensures u.state.WellShaped()
    ensures u.data.sumOfCenteredDisplaced == data.sumOfCenteredDisplaced[turn - 1 := exactMatches + partialMatches]
    ensures u.state.digitsTable == state.digitsTable
    ensures forall r, j :: 0 <= r < 4 && 0 <= j < 3 ==>
      && (state.crossedOutCells[r][j] ==> u.state.crossedOutCells[r][j])
      && (state.highlightedCells[r][j] ==> u.state.highlightedCells[r][j])
    ensures turn !in {1, 2, 3} ==> u.state == state && u.data.crossOuts == data.crossOuts
  {
    var sum := exactMatches + partialMatches;
    var sums := data.sumOfCenteredDisplaced[turn - 1 := sum];
    if turn == 1 then
      var clues := Turn1Clues(state.cluesTable, sum);
      var crossOut := Val(clues[0][2]) > 3;
      TutorialUpdate(
        state.(cluesTable := clues,
               crossedOutCells := MarkColumns(state.crossedOutCells, if crossOut then {2} else {})),
        TutorialData(sums, if crossOut then 1 else 0))
    else if turn == 2 then
      var clues := Turn2Clues(state.cluesTable, sum);
      var crossed := MarkColumns(state.crossedOutCells, Contradictions(state.cluesTable, sum, 3));
      var count := data.crossOuts + CountContradicted(state.cluesTable, sum, 3);
      var first := FirstOpenColumn(crossed);
      TutorialUpdate(
        state.(cluesTable := clues,
               crossedOutCells := crossed,
               highlightedCells := MarkColumns(state.highlightedCells, if count == 2 then {first} else {})),
        TutorialData(sums, count))
    else if turn == 3 then
      TutorialUpdate(
        state.(crossedOutCells := MarkColumns(state.crossedOutCells, Misfitting(state.cluesTable, sum, 3)),
               highlightedCells := MarkColumns(state.highlightedCells, Fitting(state.cluesTable, sum, 3))),
        TutorialData(sums, data.crossOuts))
    else
      TutorialUpdate(state, TutorialData(sums, data.crossOuts))
  }

  // ---------------------------------------------------------------------
  // The clues: the loops of `setTutorialClues`

  /** `for (let z = 0; z <= 3; z++) flags[z][j] = true`. */
  method MarkColumn(flags: Grid<bool>, j: int) returns (g: Grid<bool>)
    requires IsGrid(flags) && 0 <= j < 3
    ensures g == MarkColumns(flags, {j})
  {
    g := flags;
    for z := 0 to 4
      invariant IsGrid(g)
      invariant forall r, c :: 0 <= r < 4 && 0 <= c < 3 ==> g[r][c] == (flags[r][c] || (c == j && r < z))
    {
      g := SetCell(g, z, j, true);
    }
    SameCells(g, MarkColumns(flags, {j}));
  }

  /** Turn 1 of `setTutorialClues`. */
  method CluesTurn1(sum: int, clues: Grid<Cell>, crossed: Grid<bool>)
    returns (newClues: Grid<Cell>, newCrossed: Grid<bool>, crossOuts: int)
    requires IsGrid(clues) && IsGrid(crossed)
    ensures newClues == Turn1Clues(clues, sum)
    ensures var crossOut := Val(newClues[0][2]) > 3;
      && newCrossed == MarkColumns(crossed, if crossOut then {2} else {})
      && crossOuts == if crossOut then 1 else 0
  {
    crossOuts := 0;
    newClues := clues;
    ghost var spec := Turn1Clues(clues, sum);
    if sum > 2 {
      for i := 3 downto 0
        invariant IsGrid(newClues)
        invariant forall r, j :: 0 <= r < 4 && 0 <= j < 3 ==>
          newClues[r][j] == if r <= 1 && j <= 2 - i then spec[r][j] else clues[r][j]
      {
        newClues := SetCell(newClues, 1, 2 - i, Some(i));
        newClues := SetCell(newClues, 0, 2 - i, Some(sum - i));
      }
    } else {
      var columnsToPopulate := sum + 1;
      var i := sum;
      while i >= 0
        invariant i <= sum && (sum >= 0 ==> -1 <= i)
        invariant IsGrid(newClues)
        invariant forall r, j :: 0 <= r < 4 && 0 <= j < 3 ==>
          newClues[r][j] == if r <= 1 && 2 - sum <= j < 2 - i then spec[r][j] else clues[r][j]
      {
        var columnIndex := 2 - i;
        if columnIndex >= 3 - columnsToPopulate {
          newClues := SetCell(newClues, 1, columnIndex, Some(i));
          newClues := SetCell(newClues, 0, columnIndex, Some(sum - i));
        }
        i := i - 1;
      }
    }
    SameCells(newClues, spec);
    newCrossed := crossed;
    if Val(newClues[0][2]) > 3 {
      newCrossed := MarkColumn(crossed, 2);
      crossOuts := crossOuts + 1;
    } else {
      SameCells(newCrossed, MarkColumns(crossed, {}));
    }
  }

  /** The column loop of turn 2: fills rows 2 and 3 of every processed
      column and crosses out the contradicted ones, counting them. */
  method FillTurn2Columns(sum: int, clues: Grid<Cell>, crossed: Grid<bool>, crossOutsBefore: int)
    returns (newClues: Grid<Cell>, newCrossed: Grid<bool>, crossOuts: int)
    requires IsGrid(clues) && IsGrid(crossed)
    ensures newClues == Turn2Clues(clues, sum)
    ensures newCrossed == MarkColumns(crossed, Contradictions(clues, sum, 3))
    ensures crossOuts == crossOutsBefore + CountContradicted(clues, sum, 3)
  {
    newClues, newCrossed, crossOuts := clues, crossed, crossOutsBefore;
    ghost var spec := Turn2Clues(clues, sum);
    SameCells(crossed, MarkColumns(crossed, {}));
    assert Contradictions(clues, sum, 0) == {};
    for j := 0 to 3
      invariant IsGrid(newClues)
      invariant forall r, c :: 0 <= r < 4 && 0 <= c < 3 ==>
        newClues[r][c] == if c < j then spec[r][c] else clues[r][c]
      invariant newCrossed == MarkColumns(crossed, Contradictions(clues, sum, j))
      invariant crossOuts == crossOutsBefore + CountContradicted(clues, sum, j)
    {
      assert newClues[0][j] == clues[0][j] && newClues[1][j] == clues[1][j];
      ContradictionsStep(clues, sum, j);
      ghost var before := Contradictions(clues, sum, j);
      if newClues[0][j] == None && newClues[1][j] == None {
        assert Contradictions(clues, sum, j + 1) == before;
        continue;
      }
      newClues := SetCell(newClues, 2, j, Some(sum - Val(newClues[0][j])));
      var temporarySum := Val(newClues[0][j]) + Val(newClues[1][j]) + Val(newClues[2][j]);
      newClues := SetCell(newClues, 3, j, Some(5 - temporarySum));
      assert Val(newClues[2][j]) == Row2(clues, sum, j) && Val(newClues[3][j]) == Row3(clues, sum, j);
      if Val(newClues[2][j]) > 2 || Val(newClues[2][j]) < 0 || Val(newClues[3][j]) < 0 {
        assert Contradictions(clues, sum, j + 1) == before + {j};
        MarkColumnsUnion(crossed, before, {j});
        newCrossed := MarkColumn(newCrossed, j);
        crossOuts := crossOuts + 1;
      } else {
        assert Contradictions(clues, sum, j + 1) == before;
      }
    }
    SameCells(newClues, spec);
  }

  /** The highlight loop of turn 2: the first column whose row-0 cell is
      not crossed out is highlighted, and the loop stops there. */
  method HighlightFirstOpen(crossed: Grid<bool>, highlighted: Grid<bool>) returns (newHighlighted: Grid<bool>)
    requires IsGrid(crossed) && IsGrid(highlighted)
    ensures newHighlighted == MarkColumns(highlighted, {FirstOpenColumn(crossed)})
  {
    newHighlighted := highlighted;
    ghost var first := FirstOpenColumn(crossed);
    for j := 0 to 3
      invariant forall c :: 0 <= c < j ==> crossed[0][c]
      invariant j <= first
      invariant newHighlighted == highlighted
    {
      if crossed[0][j] {
        continue;
      } else {
        newHighlighted := MarkColumn(newHighlighted, j);
        return;
      }
    }
    SameCells(newHighlighted, MarkColumns(highlighted, {first}));
  }

  /** Turn 2 of `setTutorialClues`. */
  method CluesTurn2(sum: int, clues: Grid<Cell>, crossed: Grid<bool>, highlighted: Grid<bool>, crossOutsBefore: int)
    returns (newClues: Grid<Cell>, newCrossed: Grid<bool>, newHighlighted: Grid<bool>, crossOuts: int)
    requires IsGrid(clues) && IsGrid(crossed) && IsGrid(highlighted)
    ensures newClues == Turn2Clues(clues, sum)
    ensures newCrossed == MarkColumns(crossed, Contradictions(clues, sum, 3))
    ensures crossOuts == crossOutsBefore + CountContradicted(clues, sum, 3)
    ensures newHighlighted == MarkColumns(highlighted, if crossOuts == 2 then {FirstOpenColumn(newCrossed)} else {})
  {
    newClues, newCrossed, crossOuts := FillTurn2Columns(sum, clues, crossed, crossOutsBefore);
    if crossOuts == 2 {
      newHighlighted := HighlightFirstOpen(newCrossed, highlighted);
    } else {
      newHighlighted := highlighted;
      SameCells(newHighlighted, MarkColumns(highlighted, {}));
    }
  }

  /** Turn 3 of `setTutorialClues`. */
  method CluesTurn3(sum: int, clues: Grid<Cell>, crossed: Grid<bool>, highlighted: Grid<bool>)
    returns (newCrossed: Grid<bool>, newHighlighted: Grid<bool>)
    requires IsGrid(clues) && IsGrid(crossed) && IsGrid(highlighted)
    ensures newCrossed == MarkColumns(crossed, Misfitting(clues, sum, 3))
    ensures newHighlighted == MarkColumns(highlighted, Fitting(clues, sum, 3))
  {
    newCrossed, newHighlighted := crossed, highlighted;
    SameCells(crossed, MarkColumns(crossed, {}));
    SameCells(highlighted, MarkColumns(highlighted, {}));
    assert Misfitting(clues, sum, 0) == {} && Fitting(clues, sum, 0) == {};
    for j := 0 to 3
      invariant newCrossed == MarkColumns(crossed, Misfitting(clues, sum, j))
      invariant newHighlighted == MarkColumns(highlighted, Fitting(clues, sum, j))
    {
      if clues[0][j] == None && clues[1][j] == None {
        assert Misfitting(clues, sum, j + 1) == Misfitting(clues, sum, j);
        assert Fitting(clues, sum, j + 1) == Fitting(clues, sum, j);
        continue;
      }
      var temporarySum := Val(clues[1][j]) + Val(clues[2][j]);
      ghost var fits := Fits(clues, sum, j);
      ghost var crossedBefore, highlightedBefore := newCrossed, newHighlighted;
      for i := 0 to 4
        invariant IsGrid(newCrossed) && IsGrid(newHighlighted)
        invariant forall r, c :: 0 <= r < 4 && 0 <= c < 3 ==>
          newCrossed[r][c] == (crossedBefore[r][c] || (c == j && r < i && !fits))
        invariant forall r, c :: 0 <= r < 4 && 0 <= c < 3 ==>
          newHighlighted[r][c] == (highlightedBefore[r][c] || (c == j && r < i && fits))
      {
        if sum == temporarySum || sum == temporarySum + 1 {
          newHighlighted := SetCell(newHighlighted, i, j, true);
        } else {
          newCrossed := SetCell(newCrossed, i, j, true);
        }
      }
      if fits {
        SameCells(newCrossed, crossedBefore);
        SameCells(newHighlighted, MarkColumns(highlightedBefore, {j}));
        MarkColumnsUnion(highlighted, Fitting(clues, sum, j), {j});
        assert Misfitting(clues, sum, j + 1) == Misfitting(clues, sum, j);
        assert Fitting(clues, sum, j + 1) == Fitting(clues, sum, j) + {j};
      } else {
        SameCells(newCrossed, MarkColumns(crossedBefore, {j}));
        SameCells(newHighlighted, highlightedBefore);
        MarkColumnsUnion(crossed, Misfitting(clues, sum, j), {j});
        assert Misfitting(clues, sum, j + 1) == Misfitting(clues, sum, j) + {j};
        assert Fitting(clues, sum, j + 1) == Fitting(clues, sum, j);
      }
    }
  }

  /** `setTutorialClues`: stores the turn's sum, copies the grids and runs
      the turn's rules on the copies; the state passed in is not changed. */
  method SetTutorialClues(turn: int, exactMatches: int, partialMatches: int,
                          state: TutorialState, tutorialData: TutorialData)
    returns (u: TutorialUpdate)
    requires state.WellShaped()
    ensures u == ApplyClues(turn, exactMatches, partialMatches, state, tutorialData)
    ensures u.data.sumOfCenteredDisplaced
            == tutorialData.sumOfCenteredDisplaced[turn - 1 := exactMatches + partialMatches]
    ensures u.state.digitsTable == state.digitsTable
  {
    var sumOfCenteredDisplaced := tutorialData.sumOfCenteredDisplaced[turn - 1 := exactMatches + partialMatches];
    var crossOuts := tutorialData.crossOuts;
    var newCluesTable := state.cluesTable;
    var newCrossedOutCells := state.crossedOutCells;
    var newHighlightedCells := state.highlightedCells;
    var sum := sumOfCenteredDisplaced[turn - 1];

    if turn == 1 {
      newCluesTable, newCrossedOutCells, crossOuts := CluesTurn1(sum, newCluesTable, newCrossedOutCells);
    } else if turn == 2 {
      newCluesTable, newCrossedOutCells, newHighlightedCells, crossOuts :=
        CluesTurn2(sum, newCluesTable, newCrossedOutCells, newHighlightedCells, crossOuts);
    } else if turn == 3 {
      newCrossedOutCells, newHighlightedCells := CluesTurn3(sum, newCluesTable, newCrossedOutCells, newHighlightedCells);
    }

    u := TutorialUpdate(
      state.(cluesTable := newCluesTable, crossedOutCells := newCrossedOutCells, highlightedCells := newHighlightedCells),
      TutorialData(sumOfCenteredDisplaced, crossOuts));
  }

  // ---------------------------------------------------------------------
  // Properties of the three turns

  /** Turn 1 resets the counter, writes the split `(sum - (2 - j), 2 - j)`
      into each populated column and crosses out column 2 in all four
      rows, counting one, exactly when its row 0 exceeds 3. */
  lemma Turn1Rules(exactMatches: int, partialMatches: int, state: TutorialState, data: TutorialData)
    requires state.WellShaped()
    ensures var u := ApplyClues(1, exactMatches, partialMatches, state, data);
      var sum := exactMatches + partialMatches;
      var clues := u.state.cluesTable;
      var crossOut := Val(clues[0][2]) > 3;
      && (forall j :: 0 <= j < 3 && Populated(sum, j) ==>
            clues[1][j] == Some(2 - j) && Val(clues[0][j]) + Val(clues[1][j]) == sum)
      && (forall r, j :: 0 <= r < 4 && 0 <= j < 3 && (r >= 2 || !Populated(sum, j)) ==>
            clues[r][j] == state.cluesTable[r][j])
      && (forall r, j :: 0 <= r < 4 && 0 <= j < 3 ==>
            u.state.crossedOutCells[r][j] == (state.crossedOutCells[r][j] || (j == 2 && crossOut)))
      && u.data.crossOuts == (if crossOut then 1 else 0)
      && u.state.highlightedCells == state.highlightedCells
  {
  }

  /** On an empty clues table and a first sum of 0, 1 or 2, turn 1 fills
      exactly the columns `2 - sum` to 2; a larger sum fills all three. A
      column once filled holds the sum in row 0 for `j = 2`, so column 2 is
      crossed out exactly when the first sum exceeds 3. */
  lemma Turn1Columns(exactMatches: int, partialMatches: int, state: TutorialState, data: TutorialData)
    requires state.WellShaped()
    requires forall r, j :: 0 <= r < 4 && 0 <= j < 3 ==> state.cluesTable[r][j] == None
    requires 0 <= exactMatches && 0 <= partialMatches
    ensures var u := ApplyClues(1, exactMatches, partialMatches, state, data);
      var sum := exactMatches + partialMatches;
      && (forall j :: 0 <= j < 3 ==>
            (u.state.cluesTable[0][j].Some? <==> (sum > 2 || 2 - sum <= j)))
      && (u.data.crossOuts == 1 <==> sum > 3)
  {
  }

  /** Turn 2 leaves blank columns as they were; in every other column it
      puts `S2 - row 0` in row 2 and the rest of five in row 3, so the four
      rows add up to 5; it crosses out a column, keeping earlier marks,
      exactly when row 2 lies outside 0..2 or row 3 is negative. */
  lemma Turn2Rules(exactMatches: int, partialMatches: int, state: TutorialState, data: TutorialData)
    requires state.WellShaped()
    ensures var u := ApplyClues(2, exactMatches, partialMatches, state, data);
      var sum := exactMatches + partialMatches;
      var clues := u.state.cluesTable;
      && (forall r, j :: 0 <= r < 4 && 0 <= j < 3 && BlankColumn(state.cluesTable, j) ==>
            clues[r][j] == state.cluesTable[r][j])
      && (forall r, j :: 0 <= r < 4 && 0 <= j < 3 && (r <= 1) ==>
            clues[r][j] == state.cluesTable[r][j])
      && (forall j :: 0 <= j < 3 && !BlankColumn(state.cluesTable, j) ==>
            && Val(clues[2][j]) == sum - Val(clues[0][j])
            && Val(clues[0][j]) + Val(clues[1][j]) + Val(clues[2][j]) + Val(clues[3][j]) == 5)
      && (forall r, j :: 0 <= r < 4 && 0 <= j < 3 ==>
            u.state.crossedOutCells[r][j] ==
              (state.crossedOutCells[r][j] ||
               (!BlankColumn(state.cluesTable, j) &&
                (Val(clues[2][j]) > 2 || Val(clues[2][j]) < 0 || Val(clues[3][j]) < 0))))
  {
  }

  /** The counter after turn 2 grows by the number of columns turn 2
      crosses out, whether or not turn 1 had crossed them already. */
  lemma Turn2Count(exactMatches: int, partialMatches: int, state: TutorialState, data: TutorialData)
    requires state.WellShaped()
    ensures var u := ApplyClues(2, exactMatches, partialMatches, state, data);
      u.data.crossOuts == data.crossOuts + |Contradictions(state.cluesTable, exactMatches + partialMatches, 3)|
  {
    CountIsSize(state.cluesTable, exactMatches + partialMatches, 3);
  }

  lemma {:induction false} CountIsSize(clues: Grid<Cell>, sum: int, n: int)
    requires IsGrid(clues) && 0 <= n <= 3
    ensures CountContradicted(clues, sum, n) == |Contradictions(clues, sum, n)|
  {
    if n > 0 {
      CountIsSize(clues, sum, n - 1);
      ContradictionsStep(clues, sum, n - 1);
    }
  }

  /** When the counter reaches 2 in turn 2, the leftmost column not crossed
      out is highlighted in all four rows and no other column is; otherwise
      nothing is highlighted. */
  lemma Turn2Highlight(exactMatches: int, partialMatches: int, state: TutorialState, data: TutorialData)
    requires state.WellShaped()
    ensures var u := ApplyClues(2, exactMatches, partialMatches, state, data);
      var crossed := u.state.crossedOutCells;
      && (u.data.crossOuts != 2 ==> u.state.highlightedCells == state.highlightedCells)
      && (u.data.crossOuts == 2 ==>
            forall r, j :: 0 <= r < 4 && 0 <= j < 3 ==>
              u.state.highlightedCells[r][j] ==
                (state.highlightedCells[r][j] || (!crossed[0][j] && forall c :: 0 <= c < j ==> crossed[0][c])))
  {
    var u := ApplyClues(2, exactMatches, partialMatches, state, data);
    if u.data.crossOuts != 2 {
      SameCells(u.state.highlightedCells, state.highlightedCells);
    }
  }

  /** Turn 3 highlights each non-blank column whose groups 1 and 2 total the
      third sum or one less, and crosses out every other non-blank column;
      the clues and the counter are left alone. */
  lemma Turn3Rules(exactMatches: int, partialMatches: int, state: TutorialState, data: TutorialData)
    requires state.WellShaped()
    ensures var u := ApplyClues(3, exactMatches, partialMatches, state, data);
      var sum := exactMatches + partialMatches;
      var clues := state.cluesTable;
      && u.state.cluesTable == clues
      && u.data.crossOuts == data.crossOuts
      && (forall r, j :: 0 <= r < 4 && 0 <= j < 3 ==>
            var t := Val(clues[1][j]) + Val(clues[2][j]);
            && u.state.highlightedCells[r][j] ==
                 (state.highlightedCells[r][j] || (!BlankColumn(clues, j) && (sum == t || sum == t + 1)))
            && u.state.crossedOutCells[r][j] ==
                 (state.crossedOutCells[r][j] || (!BlankColumn(clues, j) && sum != t && sum != t + 1)))
  {
  }

  /** The counter counts cross-outs, not distinct columns: a first sum of 4
      crosses out column 2; a second sum of 3 crosses it out again and the
      counter reaches 2 while column 1 is still consistent, so column 0 is
      highlighted although two columns remain possible. */
  lemma RecountOfCrossedColumn()
    ensures var s0 := InitializeTutorialState();
      var u1 := ApplyClues(1, 4, 0, s0, TutorialData(map[], 0));
      var u2 := ApplyClues(2, 3, 0, u1.state, u1.data);
      && u1.data.crossOuts == 1
      && u2.data.crossOuts == 2
      && (forall r :: 0 <= r < 4 ==>
            && u2.state.crossedOutCells[r][2]
            && !u2.state.crossedOutCells[r][0] && !u2.state.crossedOutCells[r][1]
            && u2.state.highlightedCells[r][0]
            && !u2.state.highlightedCells[r][1] && !u2.state.highlightedCells[r][2])
      && !Contradicted(u1.state.cluesTable, 3, 1)
  {
    var s0 := InitializeTutorialState();
    var u1 := ApplyClues(1, 4, 0, s0, TutorialData(map[], 0));
    var c1 := u1.state.cluesTable;
    assert c1[0][0] == Some(2) && c1[1][0] == Some(2);
    assert c1[0][1] == Some(3) && c1[1][1] == Some(1);
    assert c1[0][2] == Some(4) && c1[1][2] == Some(0);
    assert Contradictions(c1, 3, 3) == {2};
    CountIsSize(c1, 3, 3);
  }
}
