# Spring Challenge 2021 agent and simulator — Dafny model

This project models two pieces of a PHP bot for a two-player tree-growing game on a 37-cell hexagonal board.

**The early agent (`main.php`), module `Agent` in `agent.dfy`.** Each turn the agent builds a `Step` record from the parsed input lines. That record holds the day, nutrients, both players' sun and score, a table of all trees keyed by cell index, a table of my trees, and the list of legal actions, with counters for each. At start-up the agent also builds the board (`Field`): each cell with its richness and its six neighbour slots. `Game::step` appends each turn to the game's history. `Bot::move` asks its strategies in order and plays the first answer, or `WAIT` if none answers. The only strategy in the file, `ChopStrategy`, harvests (`COMPLETE c`) one of my trees on the richest cell. It declines when there are no trees, when I have fewer than 4 sun, or when I have no trees.

A PHP array keyed by cell index keeps insertion order. The order of `myTrees` is observable because `arsort` is stable (PHP 8), so ties go to the first tree in that order. Such arrays are therefore modelled as `Table`, a sequence of trees with unique keys. `Put` gives assignment its PHP meaning: an existing key keeps its place and takes the new value, and a new key goes to the end. `Field::cell` on a missing index raises a `TypeError` in PHP, because the method's return type is not nullable. The model returns `None` there, and `ChopStrategy` fails with `MissingCell`.

When two tree records share a cell, the later one overwrites the earlier in `trees`. `myTrees` can still keep an earlier record of mine for that cell, so `myTrees` is exactly the mine-subset of `trees` only when cell indexes are unique, as the game's input guarantees. The model proves the general lookup (the last record, or the last record of mine) and the subset property under uniqueness.

**The forward simulator (`simulator/game.php`), module `Simulator` in `simulator.dfy`.** The script plays the remaining days for one player. Each day it advances the day, adds the sun income and wakes every tree. It then applies the strategy's actions until the strategy returns null. GROW pays the grow cost and grows the tree by one size. SEED pays the seed cost and plants a dormant seed. COMPLETE pays 4 sun, scores the cell, removes the tree and lowers the nutrients, never below 0. The game object is a class, `Simulator.Game`, whose methods update its fields. The trees are a `map` from cell index to tree that the methods reassign. The grow cost is base `[1, 3, 7]` plus one per tree of mine one size larger. The seed cost is one per seed of mine. These are the values the game's tests expect. The sun income, the harvest score of a cell and the strategy are function parameters.

The day loop runs once per element of `range($game->day, 22)`. PHP's `range` counts down when its first argument is larger, so a game that is already past day 22 is still advanced, for example from 23 to 25. The model keeps that behaviour (`RangeCount`). From any day up to 22 the simulation ends on day 23.

The action loop is `while (true)`. It ends because every legal action puts an awake tree to sleep or removes it, so the number of awake trees strictly decreases. The model requires the strategy to propose only such actions: GROW, SEED or COMPLETE on an awake tree of mine, with GROW below size 3.

## Model

| member | source | states |
|---|---|---|
| `Agent.Game.constructor` | main.php:18-26 | a new game has an empty history, no current step, a step count of 0, and satisfies the history invariant |
| `Agent.Game.Step` | main.php:66-70 | the given step becomes current and is appended to the history; the count goes up by exactly 1; the field is unchanged; the invariant (the step count equals the history length, the current step is the last entry) is preserved |
| `Agent.BuildStep` | main.php:101-130 | scalars copied from input; `numberOfTrees` counts every tree record; `trees` and `myTrees` are the tables the tree loop builds; `actions` keeps input order and `numberOfActions` is its length |
| `Agent.Put` | main.php:114-118 | `$t[$k] = $x` leaves the table's keys as before plus `k` |
| `Agent.PutLookup` | main.php:114 | after `$t[$k] = $x` the key `k` holds `x` and every other key keeps its value |
| `Agent.PutNewKey` | main.php:114 | assigning a new key appends the tree at the end of the table |
| `Agent.PutExistingKey` | main.php:114 | assigning an existing key replaces that entry in place; length and order are unchanged |
| `Agent.TreesOfLookup` | main.php:111-115 | looking up a cell in `trees` gives the last record for that cell (later duplicates overwrite) |
| `Agent.LastFound` | main.php:111-115 | a cell has an entry exactly when some record names it |
| `Agent.LastWins` | main.php:111-115 | a record that no later record overrides is the value stored for its cell |
| `Agent.UniqueRecordsKeepOrder` | main.php:111-115 | with one record per cell, `trees` is the record list in input order |
| `Agent.MyTreesOfMine` | main.php:111-120 | `myTrees` is the table built from the records whose `isMine` is non-zero |
| `Agent.MyTreesAreMySubset` | main.php:111-120 | with one record per cell, `myTrees` is the mine-filter of the records, and each lookup in `myTrees` is the `trees` entry if it is mine, else absent |
| `Agent.CellOf` | main.php:146-150 | a cell line gives index, richness and exactly six neighbours, which are the values after index and richness |
| `Agent.BuildField` | main.php:136-156 | `numberOfCells` stays null (it has no default) when there are no lines and is the number of lines otherwise; `cells` is the map the loop builds, each cell taken from its line by `CellOf` |
| `Agent.CellsOfKeys` | main.php:144-153 | an index has a cell exactly when some line names it; every cell is stored under its own index |
| `Agent.CellsOfLastLine` | main.php:151-161 | `cell(i)` is the cell of the last line with index `i` |
| `Agent.CellAt` | main.php:158-161 | `cell(i)` is found exactly when `i` is a key of `cells`, and is then the cell stored under `i`; a missing index is `None`, where PHP raises a `TypeError` |
| `Agent.TreeCell` | main.php:163-166 | found exactly when the tree's cell index is on the board, and then it is the cell stored under that index; on a well-keyed board that cell's index is the tree's cell index |
| `Agent.Candidates` | main.php:243-246 | the richness of each of my trees' cells, in table order; fails with the first tree whose cell is missing, and only then |
| `Agent.FirstMax` | main.php:248-249 | the position `arsort` + `key` picks: a greatest value, and the first of equal greatest values |
| `Agent.ChopMove` | main.php:228-252 | the method's answer is `ChopAnswer`, the answer of the guards, the candidate loop and the stable sort |
| `Agent.ChopDeclines` | main.php:233-241 | the strategy answers null exactly when there are no trees, sun < 4, or no tree of mine |
| `Agent.ChopFailsOnMissingCell` | main.php:243-246 | past the guards, the strategy fails exactly when one of my trees has no board cell |
| `Agent.ChopPicksRichestTree` | main.php:243-251 | past the guards, the answer is `COMPLETE c` for a tree of mine with no richer tree of mine, and no earlier tree as rich; size and dormancy are not checked |
| `Agent.ChopHarvestsMyTree` | main.php:243-251 | the cell a `COMPLETE` answer names is a key of `myTrees` |
| `Agent.Bot.Move` | main.php:201-210 | the move is `FirstAnswer`: the first non-null answer in strategy order, an error if a strategy raises one first, otherwise `WAIT` |
| `Agent.BotWaitsWhenAllDecline` | main.php:201-210 | if every strategy answers null, or there are no strategies, the bot says `WAIT` |
| `Agent.BotTakesFirstAnswer` | main.php:203-207 | if strategies before `i` answer null and `i` answers `m`, the bot plays `m` |
| `Agent.BotAnswerOrigin` | main.php:201-210 | a move the bot plays is either `WAIT` after all strategies declined, or the answer of the first strategy that answered |
| `Text.NatDecimal` | main.php:251 | the interpolated cell number is a non-empty string of digits with no leading zero |
| `Text.NatDecimalRoundTrip` | main.php:251 | reading the digits back gives the number |
| `Text.Decimal` | main.php:251 | non-empty; starts with `-` exactly for negatives |
| `Text.DecimalInjective` | main.php:251 | different cell numbers give different `COMPLETE` texts |
| `Simulator.GrowCost` | simulator/game.php:51 | `countGrowCost()[size]` is at least the base cost for the size, and equals it exactly when I have no tree one size larger |
| `Simulator.SeedCost` | simulator/game.php:57 | `countSeedCost()` is 0 exactly when I have no seed |
| `Simulator.GrowCostPinnedByTests` | tests/Main/GameTest.php:42-65 | grow cost for sizes 0, 1, 2 is 1, 3, 7, plus one per tree of mine one size larger |
| `Simulator.SeedCostPinnedByTests` | tests/Main/GameTest.php:67-82 | seed cost is 0 with no seed of mine and 1 with one |
| `Simulator.Wake` | simulator/game.php:24-26 | same cells; every tree is awake and nothing else about it changes |
| `Simulator.StartOfDay` | simulator/game.php:21-26 | day + 1; sun + the income of the state with the advanced day; same cells, every tree awake and otherwise unchanged; score, nutrients and the opponent unchanged |
| `Simulator.Game.StartDay` | simulator/game.php:21-26 | `day` goes up by exactly 1; `me.sun` goes up by the income of the advanced state; every tree is awake and otherwise unchanged; score, nutrients and the opponent are unchanged |
| `Simulator.Apply` | simulator/game.php:48-73 | GROW: pays the grow cost for the old size; the grown tree gets size + 1 and goes dormant, nothing else about it changes; SEED: pays the seed cost, plants a dormant size-0 seed of mine at the target, and the source tree only goes dormant; COMPLETE: pays 4, scores the cell of the tree as the state stands after paying, removes the tree's cell, nutrients drop by 1 only when positive; WAIT changes nothing; trees not acted on, the day and the opponent are unchanged |
| `Simulator.Game.Perform` | simulator/game.php:48-73 | GROW: sun drops by the grow cost for the old size, size + 1, dormant; SEED: sun drops by the seed cost before planting, the source is dormant, a dormant size-0 seed of mine is at the target; COMPLETE: sun − 4, score + cell score, nutrients − 1 only if positive, the tree's cell removed; every other tree, the day and the opponent are unchanged, and GROW and SEED leave score and nutrients unchanged |
| `Simulator.Game.constructor` | simulator/game.php:32 | the game holds exactly the given state; it stands in for `Game::fromStream`, which is not modelled |
| `Simulator.ActionSpendsAwakeTree` | simulator/game.php:48-73 | every legal action strictly lowers the number of awake trees |
| `Simulator.ApplyKeepsValid` | simulator/game.php:48-73 | a legal action keeps trees under their own cell, sizes within 0..3 and nutrients non-negative |
| `Simulator.StartOfDayKeepsValid` | simulator/game.php:21-26 | starting a day keeps the state valid |
| `Simulator.GrowRaisesGrowCost` | simulator/game.php:49-54 | after growing a tree of size s, growing another tree of size s costs one more sun |
| `Simulator.SeedRaisesSeedCost` | simulator/game.php:55-62 | after seeding an empty cell, the next seed costs one more sun |
| `Simulator.RunActions` | simulator/game.php:31-74 | the actions of one day end in a state where the strategy answers null; a state where it already answers null is left as it is; day and opponent unchanged; validity kept |
| `Simulator.Game.PlayDay` | simulator/game.php:31-74 | the loop's final state is `RunActions` of its start state, so it stops exactly when the strategy answers null and changes nothing on that pass |
| `Simulator.RangeCount` | simulator/game.php:20 | `range($from, $to)` has at least one element, and counting that many values from `$from` in steps of 1 (up or down) ends at `$to` |
| `Simulator.Season` | simulator/game.php:20-75 | after n days the day has advanced by exactly n, the opponent is unchanged, the strategy has nothing left to do, and validity is kept |
| `Simulator.SeasonEndsOnDay23` | simulator/game.php:20-21 | from a day up to 22 the day loop ends on day 23 |
| `Simulator.Simulate` | simulator/game.php:20-75 | the game's final state is `Season` over `count(range(day, 22))` days; from a day up to 22 it ends on day 23 |

## Left out

- Reading input with `fscanf`, output with `echo`/`print_r`, `error_log`, `exit(1)` and the `APP_ENV` switch (main.php:7-14, 28-64, 255-262): I/O and process wiring. The builders take the values `fscanf` produced, with one line of eight integers per cell. Action lines are taken as the tokens read; `'%s'` keeps only the first word of a line such as `COMPLETE 22`.
- `Game::init` and `Game::run`: process wiring around `Field::fromStream`, `Game::step` and `Bot::move`, which are modelled.
- Agent.ChopMove: finds the first candidate of greatest richness with one scan instead of sorting. Only the first key of the sorted array is used, so the sorted order of the rest is not modelled.
- Malformed input, such as a short cell line, a missing value or a non-numeric token, is not modelled.
- The text round trip `Game::fromStream(streamFromString($game->export()))` (simulator/game.php:32, 79) is assumed to reproduce the state. The simulator's `Game` class, `export`, `countSunIncome`, `countCellScore`, `Field::byIndex` and the three strategies are not part of this model. The income, cell score and strategy are parameters.
- Simulator trees are values in a map, not objects. Object identity and aliasing are not modelled; the script re-reads its game from text every pass, so neither is observable there.
- `ksort($game->trees)`: a Dafny map has no order, so the ascending key order of the trees is not stated.
- Simulator.Apply, Simulator.Game.Perform: require the acted-on tree to exist and a GROW target below size 3. `Game::tree` belongs to the simulator's `Game` class, which is not modelled, and the cost table has no entry for size 3.
- Simulator.Game.PlayDay: requires the strategy to propose only legal actions, so the `while (true)` loop provably ends. Not modelled: a strategy proposing WAIT, an action on a dormant tree, a missing tree or a tree that is not mine, a GROW of a size-3 tree, or a COMPLETE on a cell whose tree records a different index. Only WAIT, which has no case in the action switch, would leave the state unchanged and make the PHP loop spin forever; the others change the state but may not end the loop.
- Simulator.RunActions: same requirement on the strategy as PlayDay.
- Simulator.Season: same requirement on the strategy as PlayDay.
- Simulator.Simulate: same requirement on the strategy as PlayDay.
- Simulator.GrowCost, Simulator.SeedCost: count only trees of mine. `countGrowCost` and `countSeedCost` are not part of this model, and the tests' `makeTree(cell, size)` passes no owner; that these counts cover only the player's own trees is an assumption, taken from the game's rules.
- The final report (simulator/game.php:77-83: `countTreesBySize` and the printed sun) is output only.
- Board geometry, shadows, the sun direction and any tree-search planner: none of them appears in the modelled source files.
