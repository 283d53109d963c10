# Gem battle resolution, modelled in Dafny

This project models the battle core of a browser puzzle-battle game
(`game.js`). The board is 6x6. Each cell holds one of the five elemental
gems (fire, water, wood, light, dark), a bomb, a flame, or nothing.

A turn goes like this:

- The player selects one of six heroes, then clicks a cell.
- The hero's skill covers a rectangle (its footprint) centred on that cell.
- Every cell of the footprint is eliminated.
- A bomb in the footprint also eliminates its on-board orthogonal neighbours (at most four).
- A flame in the footprint, or next to such a bomb, eliminates its whole row and column.
- Each eliminated gem of the hero's attribute deals 150 damage to the enemy.
- The surviving gems fall to the bottom of their columns, and the empty cells are refilled with random draws.
- The fire mage (hero 5) also turns one cell into a flame before gravity runs. This is the only special effect any hero has.
- If the enemy is still alive, it strikes back with a random damage.
- Victory or defeat resets the game to full HP on a fresh board.

The model is purely functional:

- The board is a `seq<seq<Option<Gem>>>` that always has 6 rows of 6 cells.
- Every `Math.random()` draw is an explicit real parameter in `[0, 1)`.
- `Math.floor(u * k)` becomes `Gems.Scale(u, k)`.
- A click handler is one atomic step from one resting session to the next.
- The chain resolver keeps the exact three-pass structure of the code. The set it returns is characterised independently by the predicate `Chained`, with `Blasted` and `Burned` as its parts.

Modules:

- `Gems`: cell kinds and the random draw.
- `Board`: grid, positions, cell access, board creation and clearing.
- `Targeting`: skill footprint, neighbours, row and column.
- `Chain`: chain resolver and `removeGems`.
- `Gravity`: gravity and refill.
- `Spawn`: the flame spawn.
- `Battle`: heroes, damage, HP, turn flags, reset.

### Behaviour of the code worth knowing

- **The resolver makes one pass and is not idempotent.** A bomb reached only through another bomb's blast, or through a flame's line, does not fire. Resolving the result a second time can therefore remove more cells. `Chain.RemovedNotIdempotent` shows such a board.
- **Victory calls `resetGame`, exactly as defeat does.** No level is advanced and no HP is carried forward.
- **Without a level the enemy's damage is in `[500, 999]`.** It is `500 + floor(u * 500)`. A damage bound of `0` in a level counts as unset, because the code uses `||`.

## Model

| member | source | states |
|---|---|---|
| Gems.Scale | game.js:210 | `floor(u*k)` for a random `u` is an index in `[0, k)` when `k > 0`, and lies in `[k, 0]` otherwise |
| Gems.ScaleReaches | game.js:210 | every index in `[0, k)` is produced by some random draw |
| Gems.GetRandomGemType | game.js:202-211 | a draw is a bomb exactly when the first random number is below the 10% spawn rate, otherwise one of the five elemental gems; it is never a flame |
| Gems.GetRandomGemTypeReaches | game.js:202-211 | every elemental gem and the bomb can be drawn |
| Board.IsValidPosition | game.js:467-470 | a position is on the board exactly when both coordinates lie in `[0, 6)` |
| Board.CreateBoard | game.js:167-184 | a new board has every cell filled with a drawable gem |
| Board.ClearCells | game.js:610 | exactly the removed cells become empty; every other cell keeps its content |
| Board.ColumnsDetermineBoard | game.js:652-667 | two boards with the same columns are equal, so a board can be rebuilt column by column |
| Targeting.Band | game.js:457-461 | the nested loops push `width*height` distinct positions, exactly those of the rectangle |
| Targeting.GetSkillArea | game.js:447-464 | the footprint has `width*height` distinct positions, exactly the rectangle whose corner is `floor(height/2)` rows above and `floor(width/2)` columns left of the centre, and it is not bounds-filtered |
| Targeting.SkillAreaExample | game.js:447-464 | a 2x1 footprint at (2,2) is [(2,1), (2,2)] |
| Targeting.FilterValid | game.js:331-335 | the `isValidPosition` filter of the skill area (and of the neighbour list in `getAdjacentPositions`) keeps exactly the positions inside the 6x6 board; never adds or duplicates a position |
| Targeting.GetAdjacentPositions | game.js:491-498 | exactly the in-bounds orthogonal neighbours, at most 4 and all distinct |
| Targeting.ColumnExcept | game.js:509-514 | the column loop yields every row of the column except the skipped one, each once |
| Targeting.GetRowAndColumnPositions | game.js:501-517 | only cells on the row or the column; every such cell when the column is on the board; no duplicates; `2N-1` cells when the row is on the board |
| Chain.CellsOfMembers | game.js:404-417 | the bombs (flames) recorded from a list are exactly its positions holding a bomb (flame) |
| Chain.NeighbourhoodMembers | game.js:420-423 | the bomb pass reaches exactly the valid orthogonal neighbours of the bombs |
| Chain.LinesMembers | game.js:433-438 | the flame pass reaches exactly the cells on the row or column of some flame |
| Chain.Removed | game.js:398-444 | a position is removed exactly when it is a seed, a neighbour of a seed bomb, or on the row or column of a flame that is a seed or a neighbour of a seed bomb; the seeds are always removed and every removed position is on the board |
| Chain.CalculateAllRemovedPositions | game.js:398-444 | the three forEach passes compute exactly `Removed`, so membership is exactly `Chained` |
| Chain.CollectSeeds | game.js:404-417 | the first pass records all seeds and, in order, the seed bombs and seed flames |
| Chain.DetonateBombs | game.js:420-430 | the second pass adds every neighbour of every seed bomb and appends the flames among them |
| Chain.AddNeighbours | game.js:422-429 | one bomb's neighbours are added, and its flame neighbours appended in order |
| Chain.BurnLines | game.js:433-438 | the third pass adds the row and column of every recorded flame |
| Chain.AddAll | game.js:434-436 | every position of the list is added to the set |
| Chain.RemoveGems | game.js:548-614 | after `removeGems`, a cell is empty exactly when it was chained or already empty; an unchained cell keeps its gem |
| Chain.QuietSeeds | game.js:404-444 | seeds holding no bomb and no flame remove only themselves |
| Chain.RemovedMonotone | game.js:398-444 | more seeds never remove fewer cells |
| Chain.BlastedBombStaysQuiet | game.js:420-430 | a bomb uncovered only by another bomb's blast does not explode: the cell beyond it survives |
| Chain.RemovedNotIdempotent | game.js:398-444 | resolving the resolver's own output can remove strictly more, so the resolver is single-pass and not idempotent |
| Gravity.Compact | game.js:652-667 | the column after gravity has its length, is settled (no empty cell below a gem) and keeps its gems in order |
| Gravity.SettledUnique | game.js:652-667 | a settled column is determined by its length and its gems, so gravity has one possible result |
| Gravity.DropColumn | game.js:654-665 | the `writeIndex` cursor loop moves every gem of a column down, in order, with the empty cells above them |
| Gravity.Settle | game.js:652-667 | after gravity every column is settled and keeps its gems in their order |
| Gravity.ApplyGravity | game.js:652-667 | the column-by-column loop computes exactly `Settle` |
| Gravity.FillEmptySpaces | game.js:670-678 | no empty cell remains, non-empty cells are unchanged and new cells are drawable gems |
| Gravity.GravityThenFill | game.js:652-678 | after gravity then refill the board is full and each column ends with its former gems, in their former order |
| Spawn.EmptyPositions | game.js:522-529 | exactly the empty cells; the list is non-empty exactly when the board has an empty cell |
| Spawn.SpawnTarget | game.js:531-541 | the chosen cell is on the board, and is empty whenever the board has an empty cell |
| Spawn.SpawnFlameGem | game.js:520-545 | exactly one cell, the target, becomes a flame; every other cell is unchanged |
| Spawn.SpawnReachesEveryEmpty | game.js:534-536 | every empty cell can receive the flame |
| Spawn.SpawnReachesEveryCellOfFullBoard | game.js:537-541 | on a full board every cell can receive the flame |
| Battle.CalculateDamage | game.js:473-477 | the damage is `150*n`, zero exactly when no gem matches, so it is non-negative and monotone |
| Battle.MatchingGems | game.js:341-347 | for an elemental attribute the counted cells are exactly the removed on-board cells holding that gem, read before removal, so the bomb and flame exclusions drop out; for a bomb or flame attribute nothing is counted |
| Battle.Footprint | game.js:326-335 | the seeds are exactly the on-board cells of the hero's footprint, without duplicates |
| Battle.CastDamage | game.js:338-348 | a cast deals exactly 150 per board cell its chain reaches that holds an elemental gem of the hero's attribute, hence at most 150 per removed cell |
| Battle.CastDamageMeaning | game.js:338-348 | a cast hurts the enemy exactly when its chain reaches a gem of the hero's attribute |
| Battle.AfterElimination | game.js:353-361 | after elimination every chained cell is empty and every other cell keeps its gem; for the fire mage the same holds except at the spawn target, which holds a flame |
| Battle.ResolveBoard | game.js:353-366 | after the cast the board is full and every column ends with the gems that outlived elimination and flame spawn, in their order |
| Battle.PlainCastEmptiesChain | game.js:353-354 | on a full board a cast by any hero but the fire mage empties exactly the chained cells |
| Battle.FlameLandsInChain | game.js:357-361 | on a full board the fire mage's flame lands in a cell its own cast emptied |
| Battle.JsOr | game.js:791-792 | the logical-or default on a number: a present non-zero value is kept, an absent or zero one gives the default |
| Battle.MinDamage | game.js:791 | the lower damage bound is never zero: the level's non-zero `minDamage`, otherwise 500 |
| Battle.MaxDamage | game.js:792 | the upper damage bound is never zero: the level's non-zero `maxDamage`, otherwise 1000 |
| Battle.EnemyDamage | game.js:789-796 | the enemy damage lies in `[min, max]`, where an unset or zero bound defaults to 500 and 1000; it lies in `(max, min]` when the range is inverted, and in `[500, 999]` when no level was started |
| Battle.EnemyDamageReaches | game.js:789-794 | every damage in a level's range can be drawn |
| Battle.StrikeEnemy | game.js:370-371 | the enemy HP changes only on positive damage, never goes below zero, reaches zero exactly when the damage covers it, and otherwise drops by exactly the damage |
| Battle.HitPlayer | game.js:798 | the player HP never goes below zero, reaches zero exactly when the damage covers it, and otherwise drops by exactly the damage |
| Battle.ResetGame | game.js:820-832 | after a reset both HPs are at the level's maximum (500 and 10000 without a level), it is the player's turn, nothing is selected and the board is a full fresh draw in which no cell is a flame |
| Battle.ResetForgetsHistory | game.js:820-832 | a reset's result depends only on the level, not on the state it interrupts |
| Battle.StartLevel | game.js:125-140 | a started level begins at the level's full HPs on a full, freshly drawn board with no flame, with the turn and selection flags untouched |
| Battle.StartLevelEstablishesInv | game.js:125-140 | starting a sane level from the player's turn with consistent selection flags gives a state satisfying the battle invariant |
| Battle.HandleHeroClick | game.js:241-263 | outside the player's turn a hero click changes nothing; otherwise that hero becomes the selection and area selection starts; board, HPs, level and turn are untouched |
| Battle.LastHeroClickWins | game.js:241-263 | of two hero clicks only the last one counts |
| Battle.HeroClickKeepsInv | game.js:241-263 | a hero click preserves the battle invariant |
| Battle.EnemyTurn | game.js:784-817 | a hit that covers the player's HP resets the game; otherwise the player's HP drops by the hit and the turn comes back to the player |
| Battle.UseHeroSkill | game.js:325-395 | a killing blow resets the game; otherwise a hit that kills the player resets it; otherwise the board is the resolved board, the enemy HP drops by the cast damage, the player HP drops by the hit, and the selection is cleared on the player's turn |
| Battle.HandleGemClick | game.js:312-322 | a gem click outside the player's turn, outside area selection or with no hero selected changes nothing; otherwise it ends on the player's turn, with no selection, on a full board |
| Battle.OngoingGemClick | game.js:312-395 | when neither side dies, each HP drops by exactly the damage it received and the turn returns to the player with no selection |
| Battle.ResetEstablishesInv | game.js:820-832 | a reset on a sane level, or without a level, lands in the battle invariant |
| Battle.CastKeepsInv | game.js:325-395 | a cast, whichever branch it ends in, returns to the battle invariant |
| Battle.GemClickKeepsInv | game.js:312-395 | every gem click, with any draws, leads back to the invariant: both sides alive, HPs within their maxima, a full board and consistent selection flags |
| Battle.LoneFireDamage | game.js:338-348 | the fire mage cast at (2,2) of a water board with one fire gem there removes (2,1) and (2,2) and deals 150 |
| Battle.LoneFireSurvives | game.js:370-393 | that cast against 151 HP leaves the enemy at 1, and the enemy hits back for 500 to 999 |
| Battle.LoneFireWins | game.js:370-383 | the same cast against 150 HP is a victory and resets the game |

## Left out

- Rendering and the DOM are not modelled. This covers `createGemElement`, `updateUI`, `showDamage`, `createFlameEffect`, the previews (`handleGemHover`, `showSkillPreview`, `showSkillRangePreview`), the level-select screens and the turn-indicator text. They are presentation only.
- `removeGems` nulls a cell only if a DOM element exists for it. The model assumes the element is always present.
- `loadConfig`, `fetch`, the JSON config and `startApp` are I/O and are not modelled. A level is the record `Battle.Level`, holding the four numbers the battle reads.
- Battle.Level: the enemy and player HPs and the two damage bounds are modelled as integers. The JSON config may hold fractional numbers, and then `Math.max(0, hp - damage)` and `minDamage + Math.floor(...)` give fractional HPs and damages. Fractional config values are not modelled.
- `setTimeout` sequencing is not modelled. A cast is one synchronous step, and clicks that arrive during the delays are not modelled. Because of this, `isPlayerTurn` is always true between two modelled clicks.
- `Math.random()` is not modelled. It becomes explicit draws in `[0, 1)`, and the model does not model probabilities.
- `hero.available` is always true in the code, so its guard in `handleHeroClick` is left out.
- `backToLevelSelect` and `backToGame` are not modelled. They only switch screens.
- Alerts, enemy names and level rewards are not modelled. They are display text.
- Battle.HandleHeroClick: `heroId` is required to be one of the six hero ids. This is the only input the portraits can produce.
