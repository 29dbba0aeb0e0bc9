/**
 * The early agent of main.php: the turn record (`Step`) and the board
 * (`Field`) built from parsed input, the game's turn history, the bot that
 * asks its strategies in order, and the harvesting strategy (`ChopStrategy`).
 *
 * Reading the input stream is not modelled: the builders take the values
 * `fscanf` would have produced.
 */
module Agent {
  import opened Wrappers
  import opened Text
  import opened Rules

  // ---------------------------------------------------------------------
  // Trees and tables keyed by cell index
  // ---------------------------------------------------------------------

  /** One tree line of a turn: `cellIndex size isMine isDormant`, as read. */
  datatype Tree = Tree(cellIndex: int, size: int, isMine: int, isDormant: int)

  predicate UniqueKeys(t: seq<Tree>) {
    forall i, j :: 0 <= i < j < |t| ==> t[i].cellIndex != t[j].cellIndex
  }

  /**
   * A PHP array of trees keyed by cell index: its entries in insertion
   * order, at most one per key.
   */
  type Table = t: seq<Tree> | UniqueKeys(t)

  function Keys(t: seq<Tree>): set<int> {
    set i | 0 <= i < |t| :: t[i].cellIndex
  }

  /** `$table[$k]`, or `None` when the key is absent. */
  function Lookup(t: seq<Tree>, k: int): (r: Option<Tree>)
    ensures r.Some? <==> k in Keys(t)
    ensures r.Some? ==> r.value in t && r.value.cellIndex == k
  {
    if t == [] then None
    else if t[0].cellIndex == k then Some(t[0])
    else
      assert Keys(t) == {t[0].cellIndex} + Keys(t[1..]);
      Lookup(t[1..], k)
  }

  lemma KeysCons(x: Tree, t: seq<Tree>)
    ensures Keys([x] + t) == {x.cellIndex} + Keys(t)
  {
    var s := [x] + t;
    forall k | k in Keys(s) ensures k in {x.cellIndex} + Keys(t) {
      var i :| 0 <= i < |s| && s[i].cellIndex == k;
      if i > 0 { assert s[i] == t[i - 1]; }
    }
    forall k | k in Keys(t) ensures k in Keys(s) {
      var i :| 0 <= i < |t| && t[i].cellIndex == k;
      assert s[i + 1] == t[i];
    }
    assert s[0] == x;
  }

  /**
   * `$table[$x->cellIndex] = $x`: an existing key keeps its place and gets
   * the new value, a new key goes to the end.
   */
  function Put(t: Table, x: Tree): (r: Table)
    ensures Keys(r) == Keys(t) + {x.cellIndex}
    decreases |t|
  {
    if t == [] then
      assert Keys([x]) == {x.cellIndex} by { assert [x][0] == x; }
      [x]
    else
      assert Keys(t) == {t[0].cellIndex} + Keys(t[1..]) by { KeysCons(t[0], t[1..]); assert t == [t[0]] + t[1..]; }
      if t[0].cellIndex == x.cellIndex then
        KeysCons(x, t[1..]);
        [x] + t[1..]
      else
        var rest := Put(t[1..], x);
        KeysCons(t[0], rest);
        [t[0]] + rest
  }

  /** After the assignment the key holds the new tree, and every other key what it held. */
  lemma {:induction false} PutLookup(t: Table, x: Tree, k: int)
    ensures Lookup(Put(t, x), k) == if k == x.cellIndex then Some(x) else Lookup(t, k)
    decreases |t|
  {
    if t != [] && t[0].cellIndex != x.cellIndex {
      PutLookup(t[1..], x, k);
      assert Put(t, x)[1..] == Put(t[1..], x);
    }
  }

  /** Assigning a new key appends the tree at the end. */
  lemma {:induction false} PutNewKey(t: Table, x: Tree)
    requires x.cellIndex !in Keys(t)
    ensures Put(t, x) == t + [x]
    decreases |t|
  {
    if t != [] {
      KeysCons(t[0], t[1..]);
      assert t == [t[0]] + t[1..];
      PutNewKey(t[1..], x);
    }
  }

  /** Assigning an existing key replaces that entry where it stands. */
  lemma {:induction false} PutExistingKey(t: Table, x: Tree, i: nat)
    requires i < |t| && t[i].cellIndex == x.cellIndex
    ensures |Put(t, x)| == |t|
    ensures forall j :: 0 <= j < |t| ==> Put(t, x)[j] == if j == i then x else t[j]
    decreases |t|
  {
    if t[0].cellIndex != x.cellIndex {
      PutExistingKey(t[1..], x, i - 1);
    }
  }

  /** The last record whose cell index is `k`: the one a PHP array keeps. */
  function Last(recs: seq<Tree>, k: int): Option<Tree> {
    if recs == [] then None
    else if recs[|recs| - 1].cellIndex == k then Some(recs[|recs| - 1])
    else Last(recs[..|recs| - 1], k)
  }

  /** The records that say the tree is mine (`isMine` non-zero), in order. */
  function Mine(recs: seq<Tree>): (r: seq<Tree>)
    ensures forall t :: t in r <==> t in recs && t.isMine != 0
  {
    if recs == [] then []
    else Mine(recs[..|recs| - 1]) + (if recs[|recs| - 1].isMine != 0 then [recs[|recs| - 1]] else [])
  }

  /** `$step->trees` after the tree loop has read `recs`. */
  function TreesOf(recs: seq<Tree>): Table {
    if recs == [] then [] else Put(TreesOf(recs[..|recs| - 1]), recs[|recs| - 1])
  }

  /** `$step->myTrees` after the tree loop has read `recs`. */
  function MyTreesOf(recs: seq<Tree>): Table {
    if recs == [] then []
    else if recs[|recs| - 1].isMine != 0 then Put(MyTreesOf(recs[..|recs| - 1]), recs[|recs| - 1])
    else MyTreesOf(recs[..|recs| - 1])
  }

  /** Looking a cell up in the tree table finds the last record for that cell. */
  lemma {:induction false} TreesOfLookup(recs: seq<Tree>, k: int)
    ensures Lookup(TreesOf(recs), k) == Last(recs, k)
  {
    if recs != [] {
      TreesOfLookup(recs[..|recs| - 1], k);
      PutLookup(TreesOf(recs[..|recs| - 1]), recs[|recs| - 1], k);
    }
  }

  /** `myTrees` is the table the records of my trees alone would build. */
  lemma {:induction false} MyTreesOfMine(recs: seq<Tree>)
    ensures MyTreesOf(recs) == TreesOf(Mine(recs))
  {
    if recs != [] {
      var init, x := recs[..|recs| - 1], recs[|recs| - 1];
      MyTreesOfMine(init);
      if x.isMine != 0 {
        assert Mine(recs)[..|Mine(recs)| - 1] == Mine(init);
      } else {
        assert Mine(recs) == Mine(init);
      }
    }
  }

  /** A cell is in the table exactly when some record names it. */
  lemma {:induction false} LastFound(recs: seq<Tree>, k: int)
    ensures Last(recs, k).Some? <==> exists j :: 0 <= j < |recs| && recs[j].cellIndex == k
  {
    if recs != [] {
      var init := recs[..|recs| - 1];
      LastFound(init, k);
      if recs[|recs| - 1].cellIndex != k {
        forall j | 0 <= j < |recs| && recs[j].cellIndex == k
          ensures exists j' :: 0 <= j' < |init| && init[j'] == recs[j]
        {
          assert j < |init| && init[j] == recs[j];
        }
      }
    }
  }

  /** A record that no later record overrides is the one the table keeps. */
  lemma {:induction false} LastWins(recs: seq<Tree>, j: nat)
    requires j < |recs|
    requires forall j' :: j < j' < |recs| ==> recs[j'].cellIndex != recs[j].cellIndex
    ensures Last(recs, recs[j].cellIndex) == Some(recs[j])
  {
    if j < |recs| - 1 {
      LastWins(recs[..|recs| - 1], j);
    }
  }

  /** With one record per cell, the tree table is the records in input order. */
  lemma {:induction false} UniqueRecordsKeepOrder(recs: seq<Tree>)
    requires UniqueKeys(recs)
    ensures TreesOf(recs) == recs
  {
    if recs != [] {
      var init := recs[..|recs| - 1];
      UniqueRecordsKeepOrder(init);
      assert recs[|recs| - 1].cellIndex !in Keys(init);
      PutNewKey(init, recs[|recs| - 1]);
      assert init + [recs[|recs| - 1]] == recs;
    }
  }

  lemma {:induction false} MineUnique(recs: seq<Tree>)
    requires UniqueKeys(recs)
    ensures UniqueKeys(Mine(recs))
    ensures Keys(Mine(recs)) <= Keys(recs)
  {
    if recs != [] {
      var init := recs[..|recs| - 1];
      MineUnique(init);
      assert Keys(init) + {recs[|recs| - 1].cellIndex} == Keys(recs);
      assert recs[|recs| - 1].cellIndex !in Keys(init);
    }
  }

  /**
   * With one record per cell, `myTrees` holds exactly the trees of the tree
   * table whose `isMine` is non-zero, in input order.
   */
  lemma MyTreesAreMySubset(recs: seq<Tree>, k: int)
    requires UniqueKeys(recs)
    ensures MyTreesOf(recs) == Mine(recs)
    ensures Lookup(MyTreesOf(recs), k) ==
            match Lookup(TreesOf(recs), k)
            case Some(t) => if t.isMine != 0 then Some(t) else None
            case None => None
  {
    MyTreesOfMine(recs);
    MineUnique(recs);
    UniqueRecordsKeepOrder(recs);
    UniqueRecordsKeepOrder(Mine(recs));
    UniqueLookupInRecords(recs, k);
    UniqueLookupInRecords(Mine(recs), k);
  }

  /** In a table with unique keys, the entry for `k` is the record that names `k`. */
  lemma UniqueLookupInRecords(t: seq<Tree>, k: int)
    requires UniqueKeys(t)
    ensures Lookup(t, k).Some? ==> forall x :: x in t && x.cellIndex == k ==> Lookup(t, k) == Some(x)
  {
  }

  // ---------------------------------------------------------------------
  // The turn record: Step::fromStream
  // ---------------------------------------------------------------------

  /** The values one turn's input lines hold, as `fscanf` reads them. */
  datatype TurnInput = TurnInput(
    day: int, nutrients: int, sun: int, score: int,
    oppSun: int, oppScore: int, oppIsWaiting: int,
    trees: seq<Tree>, actions: seq<string>)

  datatype Step = Step(
    day: int, nutrients: int, sun: int, score: int,
    oppSun: int, oppScore: int, oppIsWaiting: int,
    numberOfTrees: int, trees: Table,
    numberOfActions: int, actions: seq<string>,
    myTrees: Table)

  /** Step::fromStream once the lines are read: fill the tables and counters in two loops. */
  method BuildStep(input: TurnInput) returns (step: Step)
    ensures step.day == input.day && step.nutrients == input.nutrients
    ensures step.sun == input.sun && step.score == input.score
    ensures step.oppSun == input.oppSun && step.oppScore == input.oppScore
    ensures step.oppIsWaiting == input.oppIsWaiting
    ensures step.numberOfTrees == |input.trees|
    ensures step.trees == TreesOf(input.trees) && step.myTrees == MyTreesOf(input.trees)
    ensures step.actions == input.actions && step.numberOfActions == |step.actions|
  {
    var trees: Table := [];
    var myTrees: Table := [];
    var numberOfTrees := 0;
    for i := 0 to |input.trees|
      invariant trees == TreesOf(input.trees[..i])
      invariant myTrees == MyTreesOf(input.trees[..i])
      invariant numberOfTrees == i
    {
      var tree := input.trees[i];
      assert input.trees[..i + 1][..i] == input.trees[..i];
      trees := Put(trees, tree);
      numberOfTrees := numberOfTrees + 1;
      if tree.isMine != 0 {
        myTrees := Put(myTrees, tree);
      }
    }
    assert input.trees[..|input.trees|] == input.trees;

    var actions: seq<string> := [];
    var numberOfActions := 0;
    for i := 0 to |input.actions|
      invariant actions == input.actions[..i]
      invariant numberOfActions == i
    {
      actions := actions + [input.actions[i]];
      numberOfActions := numberOfActions + 1;
    }
    assert input.actions[..|input.actions|] == input.actions;

    step := Step(input.day, input.nutrients, input.sun, input.score,
                 input.oppSun, input.oppScore, input.oppIsWaiting,
                 numberOfTrees, trees, numberOfActions, actions, myTrees);
  }

  // ---------------------------------------------------------------------
  // The board: Field::fromStream, Field::cell, Field::treeCell
  // ---------------------------------------------------------------------

  /** A board cell: its index, richness and the six neighbour slots (direction 0..5). */
  datatype Cell = Cell(index: int, richness: int, neighs: seq<int>)

  /**
   * `numberOfCells` has no default in PHP, so it stays null (`None`) until
   * the first cell line; `null++` then gives 1.
   */
  datatype Field = Field(numberOfCells: Option<nat>, cells: map<int, Cell>)

  /** One cell line as read: `index richness n0 n1 n2 n3 n4 n5`. */
  type CellLine = line: seq<int> | |line| == 8 witness [0, 0, 0, 0, 0, 0, 0, 0]

  /** The cell a line describes: the six values after index and richness are its neighbours. */
  function CellOf(line: CellLine): (c: Cell)
    ensures c.index == line[0] && c.richness == line[1]
    ensures |c.neighs| == 6 && forall d :: 0 <= d < 6 ==> c.neighs[d] == line[2 + d]
  {
    Cell(line[0], line[1], line[2..])
  }

  /** `$field->cells` after the loop has read `lines`. */
  function CellsOf(lines: seq<CellLine>): map<int, Cell> {
    if lines == [] then map[]
    else CellsOf(lines[..|lines| - 1])[lines[|lines| - 1][0] := CellOf(lines[|lines| - 1])]
  }

  /** Field::fromStream once the lines are read. */
  method BuildField(lines: seq<CellLine>) returns (field: Field)
    ensures lines == [] <==> field.numberOfCells == None
    ensures lines != [] ==> field.numberOfCells == Some(|lines|)
    ensures field.cells == CellsOf(lines)
  {
    var cells: map<int, Cell> := map[];
    var numberOfCells: Option<nat> := None;
    for i := 0 to |lines|
      invariant cells == CellsOf(lines[..i])
      invariant numberOfCells == if i == 0 then None else Some(i)
    {
      var values := lines[i];
      assert lines[..i + 1][..i] == lines[..i];
      cells := cells[values[0] := CellOf(values)];
      numberOfCells := match numberOfCells
        case None => Some(1)
        case Some(n) => Some(n + 1);
    }
    assert lines[..|lines|] == lines;
    field := Field(numberOfCells, cells);
  }

  /** Field::cell: the cell at `index`; `None` where PHP would raise a TypeError. */
  function CellAt(field: Field, index: int): (r: Option<Cell>)
    ensures r.Some? <==> index in field.cells
    ensures r.Some? ==> r.value == field.cells[index]
  {
    if index in field.cells then Some(field.cells[index]) else None
  }

  /** Field::treeCell: the cell the tree stands on. */
  function TreeCell(field: Field, tree: Tree): (r: Option<Cell>)
    ensures r.Some? <==> tree.cellIndex in field.cells
    ensures r.Some? ==> r.value == field.cells[tree.cellIndex]
    ensures (forall k :: k in field.cells ==> field.cells[k].index == k) && r.Some? ==>
              r.value.index == tree.cellIndex
  {
    CellAt(field, tree.cellIndex)
  }

  /** A cell exists exactly when some line names its index; every cell sits under its own index. */
  lemma {:induction false} CellsOfKeys(lines: seq<CellLine>, i: int)
    ensures i in CellsOf(lines) <==> exists j :: 0 <= j < |lines| && lines[j][0] == i
    ensures forall k :: k in CellsOf(lines) ==> CellsOf(lines)[k].index == k
  {
    if lines != [] {
      var init := lines[..|lines| - 1];
      CellsOfKeys(init, i);
      if lines[|lines| - 1][0] != i {
        forall j | 0 <= j < |lines| && lines[j][0] == i
          ensures exists j' :: 0 <= j' < |init| && init[j'] == lines[j]
        {
          assert j < |init| && init[j] == lines[j];
        }
      }
    }
  }

  /**
   * The cell found at an index is the one described by the last line with
   * that index: index, richness and the six neighbours of that line.
   */
  lemma {:induction false} CellsOfLastLine(lines: seq<CellLine>, j: nat)
    requires j < |lines|
    requires forall j' :: j < j' < |lines| ==> lines[j'][0] != lines[j][0]
    ensures CellAt(Field(Some(|lines|), CellsOf(lines)), lines[j][0]) == Some(CellOf(lines[j]))
  {
    if j < |lines| - 1 {
      CellsOfLastLine(lines[..|lines| - 1], j);
    }
  }

  // ---------------------------------------------------------------------
  // The game's turn history: Game::step
  // ---------------------------------------------------------------------

  class Game {
    var field: Field
    var step: Option<Step>
    var steps: seq<Step>
    var numberOfSteps: int

    /** The step counter counts the history, and the current step is its last entry. */
    ghost predicate Valid()
      reads this
    {
      numberOfSteps == |steps| &&
      step == if steps == [] then None else Some(steps[|steps| - 1])
    }

    /** A game on `field` before its first turn. */
    constructor (field: Field)
      ensures Valid()
      ensures this.field == field && step == None && steps == [] && numberOfSteps == 0
    {
      this.field := field;
      step := None;
      steps := [];
      numberOfSteps := 0;
    }

    /** Record a new turn: it becomes the current step and is appended to the history. */
    method Step(s: Step)
      modifies this
      ensures old(Valid()) ==> Valid()
      ensures step == Some(s) && steps == old(steps) + [s]
      ensures numberOfSteps == old(numberOfSteps) + 1
      ensures field == old(field)
    {
      step := Some(s);
      steps := steps + [s];
      numberOfSteps := numberOfSteps + 1;
    }
  }

  // ---------------------------------------------------------------------
  // Strategies and the bot
  // ---------------------------------------------------------------------

  datatype Error = MissingCell(index: int)

  /**
   * The richness of the cell of each tree, in table order (the `$candidates`
   * array), or the error raised for the first tree whose cell is missing.
   */
  function Candidates(field: Field, trees: seq<Tree>): (r: Result<seq<int>, Error>)
    ensures r.Success? <==> forall i :: 0 <= i < |trees| ==> trees[i].cellIndex in field.cells
    ensures r.Success? ==> |r.value| == |trees|
    ensures r.Success? ==>
              forall i :: 0 <= i < |trees| ==> r.value[i] == field.cells[trees[i].cellIndex].richness
    ensures r.Failure? ==>
              exists i :: 0 <= i < |trees| && trees[i].cellIndex !in field.cells &&
                          r.error == MissingCell(trees[i].cellIndex) &&
                          forall j :: 0 <= j < i ==> trees[j].cellIndex in field.cells
  {
    if trees == [] then Success([])
    else match TreeCell(field, trees[0])
      case None => Failure(MissingCell(trees[0].cellIndex))
      case Some(c) =>
        match Candidates(field, trees[1..])
        case Failure(e) =>
          assert forall i :: 0 < i < |trees| ==> trees[i] == trees[1..][i - 1];
          Failure(e)
        case Success(rs) =>
          assert forall i :: 0 < i < |trees| ==> trees[i] == trees[1..][i - 1];
          Success([c.richness] + rs)
  }

  /**
   * The position of the first greatest value: what `arsort` followed by
   * `key()` picks, since PHP's sort keeps equal values in their order.
   */
  function FirstMax(xs: seq<int>): (b: nat)
    requires |xs| > 0
    ensures b < |xs|
    ensures forall j :: 0 <= j < |xs| ==> xs[j] <= xs[b]
    ensures forall j :: 0 <= j < b ==> xs[j] < xs[b]
  {
    if |xs| == 1 then 0
    else
      var b := FirstMax(xs[..|xs| - 1]);
      if xs[|xs| - 1] > xs[b] then |xs| - 1 else b
  }

  /** The answer of ChopStrategy::move for the current step. */
  function ChopAnswer(field: Field, step: Step): Result<Option<string>, Error> {
    if step.numberOfTrees == 0 || step.sun < ChopCost || |step.myTrees| == 0 then Success(None)
    else match Candidates(field, step.myTrees)
      case Failure(e) => Failure(e)
      case Success(rs) => Success(Some("COMPLETE " + Decimal(step.myTrees[FirstMax(rs)].cellIndex)))
  }

  /** ChopStrategy declines exactly when there are no trees, too little sun, or no tree of mine. */
  lemma ChopDeclines(field: Field, step: Step)
    ensures ChopAnswer(field, step) == Success(None) <==>
            step.numberOfTrees == 0 || step.sun < ChopCost || |step.myTrees| == 0
  {
  }

  /** Past the guards, ChopStrategy fails exactly when one of my trees stands on no cell. */
  lemma ChopFailsOnMissingCell(field: Field, step: Step)
    requires step.numberOfTrees != 0 && step.sun >= ChopCost && |step.myTrees| != 0
    ensures ChopAnswer(field, step).Failure? <==>
            exists i :: 0 <= i < |step.myTrees| && step.myTrees[i].cellIndex !in field.cells
  {
  }

  /**
   * Past the guards and with every cell present, ChopStrategy harvests one
   * of my trees whose cell is richest; of equally rich ones, the first in
   * `myTrees` order. The tree is not checked for size or dormancy.
   */
  lemma ChopPicksRichestTree(field: Field, step: Step)
    requires step.numberOfTrees != 0 && step.sun >= ChopCost && |step.myTrees| != 0
    requires forall t :: t in step.myTrees ==> t.cellIndex in field.cells
    ensures exists i :: 0 <= i < |step.myTrees| &&
              ChopAnswer(field, step) == Success(Some("COMPLETE " + Decimal(step.myTrees[i].cellIndex))) &&
              (forall j :: 0 <= j < |step.myTrees| ==>
                 field.cells[step.myTrees[j].cellIndex].richness <= field.cells[step.myTrees[i].cellIndex].richness) &&
              (forall j :: 0 <= j < i ==>
                 field.cells[step.myTrees[j].cellIndex].richness < field.cells[step.myTrees[i].cellIndex].richness)
  {
    var rs := Candidates(field, step.myTrees).value;
    var b := FirstMax(rs);
    assert ChopAnswer(field, step) == Success(Some("COMPLETE " + Decimal(step.myTrees[b].cellIndex)));
  }

  /** The cell a COMPLETE answer names is one of my trees' cells. */
  lemma ChopHarvestsMyTree(field: Field, step: Step, c: int)
    requires ChopAnswer(field, step) == Success(Some("COMPLETE " + Decimal(c)))
    ensures Lookup(step.myTrees, c).Some?
  {
    var rs := Candidates(field, step.myTrees).value;
    var b := FirstMax(rs);
    var picked := step.myTrees[b].cellIndex;
    assert "COMPLETE " + Decimal(c) == "COMPLETE " + Decimal(picked);
    assert Decimal(c) == ("COMPLETE " + Decimal(c))[9..];
    assert Decimal(picked) == ("COMPLETE " + Decimal(picked))[9..];
    DecimalInjective(c, picked);
    assert c in Keys(step.myTrees);
  }

  /** The candidate loop fails at the first tree whose cell is missing. */
  lemma CandidatesFailAt(field: Field, trees: seq<Tree>, i: nat)
    requires i < |trees| && trees[i].cellIndex !in field.cells
    requires forall j :: 0 <= j < i ==> trees[j].cellIndex in field.cells
    ensures Candidates(field, trees) == Failure(MissingCell(trees[i].cellIndex))
  {
  }

  /** ChopStrategy::move: the guards, the `$candidates` loop, then the sort's first key. */
  method ChopMove(field: Field, step: Step) returns (r: Result<Option<string>, Error>)
    ensures r == ChopAnswer(field, step)
  {
    if step.numberOfTrees == 0 {
      return Success(None);
    }
    if step.sun < ChopCost {
      return Success(None);
    }
    if |step.myTrees| == 0 {
      return Success(None);
    }

    var trees := step.myTrees;
    var candidates: seq<int> := [];
    for i := 0 to |trees|
      invariant |candidates| == i
      invariant forall j :: 0 <= j < i ==> trees[j].cellIndex in field.cells &&
                                           candidates[j] == field.cells[trees[j].cellIndex].richness
    {
      var cell := TreeCell(field, trees[i]);
      if cell.None? {
        r := Failure(MissingCell(trees[i].cellIndex));
        CandidatesFailAt(field, trees, i);
        return;
      }
      candidates := candidates + [cell.value.richness];
    }
    assert Candidates(field, trees).Success?;
    assert Candidates(field, trees).value == candidates;

    var best := 0;
    for i := 1 to |candidates|
      invariant best == FirstMax(candidates[..i])
    {
      assert candidates[..i + 1][..i] == candidates[..i];
      if candidates[i] > candidates[best] {
        best := i;
      }
    }
    assert candidates[..|candidates|] == candidates;
    r := Success(Some("COMPLETE " + Decimal(trees[best].cellIndex)));
  }

  /** A strategy: the harvesting one, or any other whose answer is a function of the board and the turn. */
  datatype Strategy =
    | ChopStrategy
    | Other(answer: (Field, Step) -> Result<Option<string>, Error>)

  function Answer(s: Strategy, field: Field, step: Step): Result<Option<string>, Error> {
    match s
    case ChopStrategy => ChopAnswer(field, step)
    case Other(answer) => answer(field, step)
  }

  /** The first move a strategy answers, in list order; `WAIT` if none answers. */
  function FirstAnswer(strategies: seq<Strategy>, field: Field, step: Step): Result<string, Error> {
    if strategies == [] then Success("WAIT")
    else match Answer(strategies[0], field, step)
      case Failure(e) => Failure(e)
      case Success(Some(move)) => Success(move)
      case Success(None) => FirstAnswer(strategies[1..], field, step)
  }

  /** When every strategy declines (in particular, when there are none), the bot waits. */
  lemma {:induction false} BotWaitsWhenAllDecline(strategies: seq<Strategy>, field: Field, step: Step)
    requires forall i :: 0 <= i < |strategies| ==> Answer(strategies[i], field, step) == Success(None)
    ensures FirstAnswer(strategies, field, step) == Success("WAIT")
  {
    if strategies != [] {
      assert forall i :: 0 <= i < |strategies| - 1 ==> strategies[1..][i] == strategies[i + 1];
      BotWaitsWhenAllDecline(strategies[1..], field, step);
    }
  }

  /** The bot plays the move of the first strategy that answers. */
  lemma {:induction false} BotTakesFirstAnswer(strategies: seq<Strategy>, field: Field, step: Step, i: nat, move: string)
    requires i < |strategies|
    requires forall j :: 0 <= j < i ==> Answer(strategies[j], field, step) == Success(None)
    requires Answer(strategies[i], field, step) == Success(Some(move))
    ensures FirstAnswer(strategies, field, step) == Success(move)
  {
    if i > 0 {
      assert forall j :: 0 <= j < |strategies| - 1 ==> strategies[1..][j] == strategies[j + 1];
      BotTakesFirstAnswer(strategies[1..], field, step, i - 1, move);
    }
  }

  /** Conversely, a move the bot plays is WAIT after all strategies declined, or the first answer. */
  lemma {:induction false} BotAnswerOrigin(strategies: seq<Strategy>, field: Field, step: Step, move: string)
    requires FirstAnswer(strategies, field, step) == Success(move)
    ensures (move == "WAIT" &&
             forall j :: 0 <= j < |strategies| ==> Answer(strategies[j], field, step) == Success(None)) ||
            (exists i :: 0 <= i < |strategies| && Answer(strategies[i], field, step) == Success(Some(move)) &&
               forall j :: 0 <= j < i ==> Answer(strategies[j], field, step) == Success(None))
  {
    if strategies != [] && Answer(strategies[0], field, step) == Success(None) {
      var rest := strategies[1..];
      assert forall j :: 0 <= j < |rest| ==> rest[j] == strategies[j + 1];
      BotAnswerOrigin(rest, field, step, move);
      if move == "WAIT" && forall j :: 0 <= j < |rest| ==> Answer(rest[j], field, step) == Success(None) {
        assert forall j :: 0 <= j < |strategies| ==> Answer(strategies[j], field, step) == Success(None) by {
          forall j | 0 <= j < |strategies|
            ensures Answer(strategies[j], field, step) == Success(None)
          {
            if j > 0 { assert strategies[j] == rest[j - 1]; }
          }
        }
      } else {
        var i :| 0 <= i < |rest| && Answer(rest[i], field, step) == Success(Some(move)) &&
                 forall j :: 0 <= j < i ==> Answer(rest[j], field, step) == Success(None);
        assert strategies[i + 1] == rest[i];
        forall j | 0 <= j < i + 1
          ensures Answer(strategies[j], field, step) == Success(None)
        {
          if j > 0 { assert strategies[j] == rest[j - 1]; }
        }
      }
    }
  }

  /** The bot: its strategies, asked in order. */
  datatype Bot = Bot(strategies: seq<Strategy>) {

    /** Bot::move: ask each strategy in turn and return the first move; WAIT if none answers. */
    method Move(field: Field, step: Step) returns (r: Result<string, Error>)
      ensures r == FirstAnswer(strategies, field, step)
    {
      for i := 0 to |strategies|
        invariant FirstAnswer(strategies, field, step) == FirstAnswer(strategies[i..], field, step)
      {
        var answer: Result<Option<string>, Error>;
        if strategies[i].ChopStrategy? {
          answer := ChopMove(field, step);
        } else {
          answer := strategies[i].answer(field, step);
        }
        assert strategies[i..][1..] == strategies[i + 1..];
        if answer.Failure? {
          return Failure(answer.error);
        }
        if answer.value.Some? {
          return Success(answer.value.value);
        }
      }
      assert strategies[|strategies|..] == [];
      r := Success("WAIT");
    }
  }
}
