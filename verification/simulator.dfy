/**
 * The single-player forward simulator of simulator/game.php: each remaining
 * day adds sun income and wakes every tree, then the strategy's actions are
 * applied one by one (GROW, SEED, COMPLETE) until it has none left.
 *
 * The sun income (`countSunIncome`), the harvest score of a cell
 * (`countCellScore`) and the strategy belong to the simulator's `Game` class
 * and strategy classes, which are not modelled; they are parameters here.
 * The grow and seed costs are the ones the game's tests pin down.
 */
module Simulator {
  import opened Wrappers
  import opened Rules

  datatype Tree = Tree(index: int, size: int, isMine: bool, isDormant: bool)

  datatype Player = Player(sun: int, score: int, isWaiting: bool)

  datatype Action = Wait | Seed(source: int, target: int) | Grow(cell: int) | Complete(cell: int)

  /** Everything the simulator reads and writes of a game. */
  datatype State = State(day: int, nutrients: int, me: Player, opp: Player, trees: map<int, Tree>)

  /** Base cost of growing a tree of size 0, 1 and 2. */
  const GrowBase: seq<int> := [1, 3, 7]

  /** The last day the day loop runs up to: `range($game->day, 22)`. */
  const LastLoopDay := 22

  /** The cells of my trees of the given size. */
  function MyTreesOfSize(trees: map<int, Tree>, size: int): set<int> {
    set k | k in trees && trees[k].isMine && trees[k].size == size
  }

  /** `countGrowCost()[size]`: the base cost plus one per tree of mine already one size larger. */
  function GrowCost(trees: map<int, Tree>, size: int): (r: int)
    requires 0 <= size < 3
    ensures r >= GrowBase[size]
    ensures r == GrowBase[size] <==> forall k :: k in trees && trees[k].isMine ==> trees[k].size != size + 1
  {
    var larger := MyTreesOfSize(trees, size + 1);
    if larger == {} then
      assert forall k :: k in trees && trees[k].isMine && trees[k].size == size + 1 ==> k in larger;
      GrowBase[size]
    else NonEmptyHasMember(larger); GrowBase[size] + |larger|
  }

  /** `countSeedCost()`: one per seed (size-0 tree) of mine. */
  function SeedCost(trees: map<int, Tree>): (r: nat)
    ensures r == 0 <==> forall k :: k in trees && trees[k].isMine ==> trees[k].size != 0
  {
    var seeds := MyTreesOfSize(trees, 0);
    if seeds == {} then
      assert forall k :: k in trees && trees[k].isMine && trees[k].size == 0 ==> k in seeds;
      0
    else NonEmptyHasMember(seeds); |seeds|
  }

  /** The grow costs the game's tests expect: one tree of mine at the next size adds one. */
  lemma GrowCostPinnedByTests()
    ensures GrowCost(map[0 := Tree(0, 0, true, false)], 0) == 1
    ensures GrowCost(map[0 := Tree(0, 1, true, false)], 0) == 2
    ensures GrowCost(map[0 := Tree(0, 1, true, false)], 1) == 3
    ensures GrowCost(map[0 := Tree(0, 2, true, false)], 1) == 4
    ensures GrowCost(map[0 := Tree(0, 2, true, false)], 2) == 7
    ensures GrowCost(map[0 := Tree(0, 3, true, false)], 2) == 8
  {
    forall size | 0 <= size <= 3
      ensures MyTreesOfSize(map[0 := Tree(0, size, true, false)], size) == {0}
      ensures MyTreesOfSize(map[0 := Tree(0, size, true, false)], size + 1) == {}
    {
    }
  }

  /** The seed costs the game's tests expect. */
  lemma SeedCostPinnedByTests()
    ensures SeedCost(map[0 := Tree(0, 1, true, false)]) == 0
    ensures SeedCost(map[0 := Tree(0, 0, true, false)]) == 1
  {
    assert MyTreesOfSize(map[0 := Tree(0, 0, true, false)], 0) == {0};
    assert MyTreesOfSize(map[0 := Tree(0, 1, true, false)], 0) == {};
  }

  // ---------------------------------------------------------------------
  // The transitions, as functions of the state
  // ---------------------------------------------------------------------

  /** Every tree awake; nothing else about the trees changes. */
  function Wake(trees: map<int, Tree>): (r: map<int, Tree>)
    ensures r.Keys == trees.Keys
    ensures forall k :: k in r ==> !r[k].isDormant && r[k] == trees[k].(isDormant := false)
  {
    map k | k in trees :: trees[k].(isDormant := false)
  }

  /**
   * The start of a day (game.php lines 21-26): the day advances, the sun
   * income of the advanced state is added, every tree wakes.
   */
  function StartOfDay(s: State, income: State -> int): (r: State)
    ensures r.day == s.day + 1
    ensures r.me.sun == s.me.sun + income(s.(day := s.day + 1))
    ensures r.me.score == s.me.score && r.me.isWaiting == s.me.isWaiting
    ensures r.nutrients == s.nutrients && r.opp == s.opp
    ensures r.trees.Keys == s.trees.Keys
    ensures forall k :: k in r.trees ==> !r.trees[k].isDormant && r.trees[k] == s.trees[k].(isDormant := false)
  {
    var next := s.(day := s.day + 1);
    next.(me := next.me.(sun := next.me.sun + income(next)), trees := Wake(s.trees))
  }

  /** The acted-on trees exist (GROW also needs a size the cost table covers). */
  predicate Applicable(s: State, a: Action) {
    match a
    case Wait => true
    case Grow(c) => c in s.trees && 0 <= s.trees[c].size < 3
    case Seed(src, _) => src in s.trees
    case Complete(c) => c in s.trees
  }

  /** The cells whose tree an action changes, plants or removes. */
  function Acted(s: State, a: Action): set<int>
    requires Applicable(s, a)
  {
    match a
    case Wait => {}
    case Grow(c) => {c}
    case Seed(src, dst) => {src, dst}
    case Complete(c) => {s.trees[c].index}
  }

  /** One action (game.php lines 48-73); WAIT has no case and changes nothing. */
  function Apply(s: State, a: Action, cellScore: (State, int) -> int): (r: State)
    requires Applicable(s, a)
    ensures a.Wait? ==> r == s
    ensures r.day == s.day && r.opp == s.opp && r.me.isWaiting == s.me.isWaiting
    ensures !a.Complete? ==> r.me.score == s.me.score && r.nutrients == s.nutrients
    ensures a.Grow? ==> r.trees.Keys == s.trees.Keys &&
                        r.me.sun == s.me.sun - GrowCost(s.trees, s.trees[a.cell].size) &&
                        r.trees[a.cell] == s.trees[a.cell].(size := s.trees[a.cell].size + 1, isDormant := true)
    ensures a.Seed? ==> r.trees.Keys == s.trees.Keys + {a.target} &&
                        r.me.sun == s.me.sun - SeedCost(s.trees) &&
                        r.trees[a.target] == Tree(a.target, 0, true, true) &&
                        (a.source != a.target ==> r.trees[a.source] == s.trees[a.source].(isDormant := true))
    ensures a.Complete? ==> r.trees.Keys == s.trees.Keys - {s.trees[a.cell].index} &&
                            r.me.sun == s.me.sun - ChopCost &&
                            r.me.score == s.me.score + cellScore(s.(me := s.me.(sun := s.me.sun - ChopCost)), s.trees[a.cell].index) &&
                            r.nutrients == (if s.nutrients > 0 then s.nutrients - 1 else s.nutrients)
    ensures forall k :: k in s.trees && k !in Acted(s, a) ==> k in r.trees && r.trees[k] == s.trees[k]
  {
    match a
    case Wait => s
    case Grow(c) =>
      var tree := s.trees[c];
      s.(me := s.me.(sun := s.me.sun - GrowCost(s.trees, tree.size)),
         trees := s.trees[c := tree.(size := tree.size + 1, isDormant := true)])
    case Seed(src, dst) =>
      var tree := s.trees[src];
      s.(me := s.me.(sun := s.me.sun - SeedCost(s.trees)),
         trees := s.trees[src := tree.(isDormant := true)][dst := Tree(dst, 0, true, true)])
    case Complete(c) =>
      var tree := s.trees[c];
      var paid := s.(me := s.me.(sun := s.me.sun - ChopCost));
      paid.(me := paid.me.(score := paid.me.score + cellScore(paid, tree.index)),
            nutrients := if s.nutrients > 0 then s.nutrients - 1 else s.nutrients,
            trees := s.trees - {tree.index})
  }

  /** The state the game keeps between actions. */
  predicate Valid(s: State) {
    s.nutrients >= 0 &&
    forall k :: k in s.trees ==> s.trees[k].index == k && 0 <= s.trees[k].size <= 3
  }

  /**
   * What a strategy may propose: an action on one of my awake trees (GROW
   * below the largest size). WAIT has no case in the action switch, so a
   * strategy that proposed it would make the loop spin.
   */
  predicate Legal(s: State, a: Action) {
    match a
    case Wait => false
    case Grow(c) => c in s.trees && s.trees[c].isMine && !s.trees[c].isDormant && 0 <= s.trees[c].size < 3
    case Seed(src, _) => src in s.trees && s.trees[src].isMine && !s.trees[src].isDormant
    case Complete(c) => c in s.trees && s.trees[c].isMine && !s.trees[c].isDormant && s.trees[c].index == c
  }

  predicate Proposes(s: State, choice: Option<Action>) {
    choice.None? || Legal(s, choice.value)
  }

  /** The cells of the trees that may still act today. */
  function Awake(trees: map<int, Tree>): set<int> {
    set k | k in trees && !trees[k].isDormant
  }

  /** Every legal action puts an awake tree to sleep or removes it, and wakes none. */
  lemma ActionSpendsAwakeTree(s: State, a: Action, cellScore: (State, int) -> int)
    requires Legal(s, a)
    ensures |Awake(Apply(s, a, cellScore).trees)| < |Awake(s.trees)|
  {
    var after := Awake(Apply(s, a, cellScore).trees);
    var c := match a case Grow(c) => c case Seed(src, _) => src case Complete(c) => c;
    assert c in Awake(s.trees);
    assert after <= Awake(s.trees) - {c};
    SubsetNotLarger(after, Awake(s.trees) - {c});
  }

  lemma SubsetNotLarger(a: set<int>, b: set<int>)
    requires a <= b
    ensures |a| <= |b|
  {
    assert b == a + (b - a);
  }

  lemma NonEmptyHasMember(a: set<int>)
    requires a != {}
    ensures exists x :: x in a
  {
    if forall x :: x !in a {
      assert false;
    }
  }

  /** A legal action keeps the state valid: trees under their own cell, sizes 0..3, nutrients not negative. */
  lemma ApplyKeepsValid(s: State, a: Action, cellScore: (State, int) -> int)
    requires Valid(s) && Legal(s, a)
    ensures Valid(Apply(s, a, cellScore))
  {
  }

  /** Starting a day keeps the state valid. */
  lemma StartOfDayKeepsValid(s: State, income: State -> int)
    requires Valid(s)
    ensures Valid(StartOfDay(s, income))
  {
  }

  /**
   * Growing a tree makes the next grow of a tree of the same size cost one
   * more: the grown tree now counts among the trees one size larger.
   */
  lemma GrowRaisesGrowCost(s: State, c: int, cellScore: (State, int) -> int)
    requires Valid(s) && Legal(s, Grow(c))
    ensures GrowCost(Apply(s, Grow(c), cellScore).trees, s.trees[c].size) ==
            GrowCost(s.trees, s.trees[c].size) + 1
  {
    var size := s.trees[c].size;
    var after := Apply(s, Grow(c), cellScore).trees;
    assert MyTreesOfSize(after, size + 1) == MyTreesOfSize(s.trees, size + 1) + {c};
  }

  /** Planting on an empty cell makes the next seed cost one more. */
  lemma SeedRaisesSeedCost(s: State, src: int, dst: int, cellScore: (State, int) -> int)
    requires Legal(s, Seed(src, dst)) && dst !in s.trees
    ensures SeedCost(Apply(s, Seed(src, dst), cellScore).trees) == SeedCost(s.trees) + 1
  {
    var after := Apply(s, Seed(src, dst), cellScore).trees;
    assert MyTreesOfSize(after, 0) == MyTreesOfSize(s.trees, 0) + {dst};
  }

  /**
   * The actions of one day (game.php lines 31-74): apply what the strategy
   * proposes until it proposes nothing.
   */
  function RunActions(s: State, strategy: State -> Option<Action>, cellScore: (State, int) -> int): (r: State)
    requires forall t :: Proposes(t, strategy(t))
    ensures strategy(s) == None ==> r == s
    ensures strategy(r) == None
    ensures r.day == s.day && r.opp == s.opp
    ensures Valid(s) ==> Valid(r)
    decreases |Awake(s.trees)|
  {
    match strategy(s)
    case None => s
    case Some(a) =>
      assert Proposes(s, strategy(s));
      ActionSpendsAwakeTree(s, a, cellScore);
      if Valid(s) then ApplyKeepsValid(s, a, cellScore); RunActions(Apply(s, a, cellScore), strategy, cellScore)
      else RunActions(Apply(s, a, cellScore), strategy, cellScore)
  }

  /** `count(range($from, $to))`: PHP's range counts down when `$from` is the larger. */
  function RangeCount(from: int, to: int): (r: nat)
    ensures r >= 1
    ensures from <= to ==> from + (r - 1) == to
    ensures from > to ==> from - (r - 1) == to
  {
    if from <= to then to - from + 1 else from - to + 1
  }

  /** `days` whole days: start of day, then the strategy's actions. */
  function Season(s: State, days: nat, strategy: State -> Option<Action>, income: State -> int,
                  cellScore: (State, int) -> int): (r: State)
    requires forall t :: Proposes(t, strategy(t))
    ensures r.day == s.day + days && r.opp == s.opp
    ensures days > 0 ==> strategy(r) == None
    ensures Valid(s) ==> Valid(r)
    decreases days
  {
    if days == 0 then s
    else
      var s1 := StartOfDay(s, income);
      if Valid(s) then
        StartOfDayKeepsValid(s, income);
        Season(RunActions(s1, strategy, cellScore), days - 1, strategy, income, cellScore)
      else Season(RunActions(s1, strategy, cellScore), days - 1, strategy, income, cellScore)
  }

  /** From a day up to 22 the simulation plays the remaining days and ends on day 23. */
  lemma SeasonEndsOnDay23(s: State, strategy: State -> Option<Action>, income: State -> int,
                          cellScore: (State, int) -> int)
    requires forall t :: Proposes(t, strategy(t))
    requires s.day <= LastLoopDay
    ensures Season(s, RangeCount(s.day, LastLoopDay), strategy, income, cellScore).day == 23
  {
  }

  // ---------------------------------------------------------------------
  // The game object the script updates in place
  // ---------------------------------------------------------------------

  class Game {
    var day: int
    var nutrients: int
    var me: Player
    var opp: Player
    var trees: map<int, Tree>

    function Snapshot(): State
      reads this
    {
      State(day, nutrients, me, opp, trees)
    }

    /**
     * A game in the given state. It stands in for `Game::fromStream`, which
     * reads the state from the exported text and is not modelled.
     */
    constructor (s: State)
      ensures Snapshot() == s
    {
      day, nutrients, me, opp, trees := s.day, s.nutrients, s.me, s.opp, s.trees;
    }

    /** Lines 21-26: advance the day, add the income, wake every tree. */
    method StartDay(income: State -> int)
      modifies this
      ensures Snapshot() == StartOfDay(old(Snapshot()), income)
      ensures day == old(day) + 1
      ensures me.sun == old(me.sun) + income(old(Snapshot()).(day := old(day) + 1))
      ensures me.score == old(me.score) && opp == old(opp) && nutrients == old(nutrients)
      ensures trees.Keys == old(trees).Keys
      ensures forall k :: k in trees ==> trees[k] == old(trees)[k].(isDormant := false)
    {
      day := day + 1;
      ghost var next := Snapshot();
      assert next == old(Snapshot()).(day := old(day) + 1);
      me := me.(sun := me.sun + income(Snapshot()));
      assert me == next.me.(sun := next.me.sun + income(next));

      var pending := trees.Keys;
      while pending != {}
        invariant day == next.day && nutrients == next.nutrients && opp == next.opp
        invariant me == next.me.(sun := next.me.sun + income(next))
        invariant pending <= trees.Keys
        invariant trees.Keys == old(trees).Keys
        invariant forall k :: k in trees ==>
                    trees[k] == if k in pending then old(trees)[k] else old(trees)[k].(isDormant := false)
        decreases pending
      {
        NonEmptyHasMember(pending);
        var k :| k in pending;
        trees := trees[k := trees[k].(isDormant := false)];
        pending := pending - {k};
      }
      assert forall k :: k in trees ==> k !in pending && trees[k] == Wake(old(trees))[k];
      assert trees == Wake(old(trees));
    }

    /** Lines 48-73: apply one action of the strategy to the game. */
    method Perform(a: Action, cellScore: (State, int) -> int)
      requires Applicable(Snapshot(), a)
      modifies this
      ensures Snapshot() == Apply(old(Snapshot()), a, cellScore)
      ensures day == old(day) && opp == old(opp)
      ensures a.Grow? ==>
                me.sun == old(me.sun) - GrowCost(old(trees), old(trees)[a.cell].size) &&
                trees == old(trees)[a.cell := old(trees)[a.cell].(size := old(trees)[a.cell].size + 1, isDormant := true)] &&
                me.score == old(me.score) && nutrients == old(nutrients)
      ensures a.Seed? ==>
                me.sun == old(me.sun) - SeedCost(old(trees)) &&
                trees == old(trees)[a.source := old(trees)[a.source].(isDormant := true)]
                                   [a.target := Tree(a.target, 0, true, true)] &&
                me.score == old(me.score) && nutrients == old(nutrients)
      ensures a.Complete? ==>
                me.sun == old(me.sun) - ChopCost &&
                me.score == old(me.score) +
                            cellScore(old(Snapshot()).(me := old(me).(sun := old(me.sun) - ChopCost)),
                                      old(trees)[a.cell].index) &&
                nutrients == (if old(nutrients) > 0 then old(nutrients) - 1 else old(nutrients)) &&
                trees == old(trees) - {old(trees)[a.cell].index}
      ensures a.Wait? ==> Snapshot() == old(Snapshot())
    {
      match a
      case Grow(c) => {
        var tree := trees[c];
        me := me.(sun := me.sun - GrowCost(trees, tree.size));
        trees := trees[c := tree.(size := tree.size + 1, isDormant := true)];
      }
      case Seed(src, dst) => {
        var tree := trees[src];
        me := me.(sun := me.sun - SeedCost(trees));
        trees := trees[src := tree.(isDormant := true)];
        trees := trees[dst := Tree(dst, 0, true, true)];
      }
      case Complete(c) => {
        var tree := trees[c];
        me := me.(sun := me.sun - ChopCost);
        me := me.(score := me.score + cellScore(Snapshot(), tree.index));
        if nutrients > 0 {
          nutrients := nutrients - 1;
        }
        trees := trees - {tree.index};
      }
      case Wait => {
      }
    }

    /** Lines 31-74: ask the strategy and apply its action until it answers null. */
    method PlayDay(strategy: State -> Option<Action>, cellScore: (State, int) -> int)
      requires forall t :: Proposes(t, strategy(t))
      modifies this
      ensures Snapshot() == RunActions(old(Snapshot()), strategy, cellScore)
    {
      while true
        invariant RunActions(Snapshot(), strategy, cellScore) == RunActions(old(Snapshot()), strategy, cellScore)
        decreases |Awake(trees)|
      {
        var action := strategy(Snapshot());
        if action.None? {
          break;
        }
        assert Proposes(Snapshot(), action);
        ActionSpendsAwakeTree(Snapshot(), action.value, cellScore);
        Perform(action.value, cellScore);
      }
    }
  }

  /**
   * The script (game.php lines 20-75): one pass of the day loop per element
   * of `range($game->day, 22)`.
   */
  method Simulate(game: Game, strategy: State -> Option<Action>, income: State -> int,
                  cellScore: (State, int) -> int)
    requires forall t :: Proposes(t, strategy(t))
    modifies game
    ensures game.Snapshot() == Season(old(game.Snapshot()), RangeCount(old(game.day), LastLoopDay),
                                      strategy, income, cellScore)
    ensures old(game.day) <= LastLoopDay ==> game.day == 23
  {
    var days := RangeCount(game.day, LastLoopDay);
    ghost var start := game.Snapshot();
    for i := 0 to days
      invariant Season(start, days, strategy, income, cellScore) ==
                Season(game.Snapshot(), days - i, strategy, income, cellScore)
    {
      game.StartDay(income);
      game.PlayDay(strategy, cellScore);
    }
  }
}
