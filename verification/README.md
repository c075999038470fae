# Number-match rules engine in Dafny

This project models the rules engine of a number-match puzzle. The board is a
rectangle of numbered tiles, stored as one flat row-major array of cells. A
player removes pairs of tiles whose values are equal or add up to ten. A pair
counts only when the line of sight between the two tiles holds no other live
tile. A row of fresh tiles can be dealt from a reserve. The level is complete
when no live tile remains.

The modules follow the engine's own split:

- `Types`: the `Cell` and `LevelSpec` records, plus `Deal`, a board paired with its reserve.
- `Grid`: slot addressing (`idxOf`), the initial deal (`seedGrid`), and the live-tile count (`remainingUnmatched`).
- `Pairing`: the value rule (`canMatch`) and the line-of-sight rule (`isPathClear`). The straight walk and the flattened scan are proved equal to plain reference predicates.
- `Commit`: committing a pair (`tryMatch`).
- `Inject`: row injection (`addRow`). It has two branches: deal into the first spent row, or compact the board upward.
- `Levels`: the level table.
- `Session`: any sequence of commits and row injections starting from a fresh deal. It holds an invariant kept by every step. A consequence of that invariant is that the compaction branch of `addRow` is never taken in play.

A cell is *live* when its value is non-zero and it is not matched. A row is
*spent* when none of its cells is live.

Randomness is a parameter. `SeedGrid` takes the values for the filled slots,
the reserve values and the cell identities as arguments.

## Model

| member | source | states |
|---|---|---|
| Grid.IdxOfInverse | src/game/logic.ts:19-21 | The slot of a cell whose column is in range splits back into that cell's row and column. The slot lies on a rows-by-cols board exactly when the row does. |
| Grid.SeedGrid | src/game/logic.ts:5-17 | A fresh board has rows·cols cells. The reserve holds cols·(rows − initialFilledRows) digits, and none when no row is left empty. |
| Grid.SeedGridLayout | src/game/logic.ts:6-13 | Each fresh cell carries its slot's row, column and identity and is unmatched. Its value is in 1..9 exactly when its row is below initialFilledRows, and 0 otherwise. The filled slots take the drawn values in slot order. |
| Grid.PoolWholeRows | src/game/logic.ts:15 | The fresh reserve is a whole number of rows. |
| Grid.RemainingUnmatched | src/game/logic.ts:122-124 | The count is at most the board size. It is zero exactly when no cell is live, which is the completion test. |
| Grid.RemainingIsLiveSlots | src/game/logic.ts:122-124 | The count equals the number of slots holding a live cell, i.e. the length of the filtered array. |
| Grid.RemainingMonotone | src/game/logic.ts:122-124 | A board on which no cell became live has no more live cells than before. |
| Grid.RemainingDrops | src/game/logic.ts:122-124 | If in addition some live cell died, the count is strictly smaller. |
| Grid.RemainingDropsTwo | src/game/logic.ts:122-124 | Two distinct slots that lose their live cell lower the count by at least two. |
| Pairing.CanMatch | src/game/logic.ts:23-27 | Two cells pair exactly when both are live and their values are equal or sum to ten. |
| Pairing.CanMatchSymmetric | src/game/logic.ts:23-27 | The value rule does not depend on the order of the two cells. |
| Pairing.CanMatchPartners | src/game/logic.ts:23-27 | The partners of a live cell of value v are exactly the live cells of value v or 10 − v. |
| Pairing.ScanClear | src/game/logic.ts:57-61 | The forward scan succeeds exactly when every slot in its range is dead. |
| Pairing.WalkVisits | src/game/logic.ts:46-53 | The unit-step walk succeeds exactly when every slot it visits before the far end is dead. |
| Pairing.VisitedIsOnLine | src/game/logic.ts:34-52 | The walk visits exactly the slots strictly between the two ends that are collinear with them and lie in their bounding box. This holds for horizontal, vertical, diagonal and anti-diagonal pairs. |
| Pairing.WalkIsLineClear | src/game/logic.ts:40-54 | For a straight pair, the line-of-sight loop agrees with the reference predicate "every tile on the segment between them is dead". |
| Pairing.PathClearIsSight | src/game/logic.ts:34-61 | Given the ordered slots, the rule is the line test for straight pairs and the flattened test for all other pairs. |
| Pairing.IsPathClearSpec | src/game/logic.ts:30-62 | isPathClear equals the reference line-of-sight predicate, taken over the lower and higher of the two slots. |
| Pairing.IsPathClearStraight | src/game/logic.ts:40-54 | An aligned pair is clear exactly when every tile strictly between the two on their line is dead. |
| Pairing.IsPathClearFlat | src/game/logic.ts:56-61 | A pair that is not aligned is clear exactly when every slot strictly between the two in row-major order is dead, including slots across row ends. |
| Pairing.IsPathClearSymmetric | src/game/logic.ts:31-32 | The rule does not depend on which cell is picked first. |
| Pairing.IsPathClearLocal | src/game/logic.ts:30-62 | The rule reads only the slots strictly between the two cells. Boards that agree there give the same answer. |
| Pairing.IsPathClearAdjacent | src/game/logic.ts:30-62 | Cells in neighbouring slots always see each other. This includes the last cell of a row and the first cell of the next. |
| Commit.TryMatch | src/game/logic.ts:64-80 | A commit succeeds exactly when both picks are present and distinct, pass the value rule and have a clear line of sight. A failed commit returns the board unchanged. The board length is always kept. |
| Commit.TryMatchMarks | src/game/logic.ts:75-78 | After a successful commit, a cell is matched exactly when it was already matched or carries the identity of either pick. No other field changes. |
| Commit.TryMatchOnlyRetires | src/game/logic.ts:70-79 | A commit never revives a cell and never moves one. The live count never rises. |
| Commit.TryMatchRetiresPair | src/game/logic.ts:75-79 | When the picks are the board's own cells, a successful commit matches both of them, and the live count falls by at least two. |
| Commit.CompletionExample | src/game/logic.ts:64-80 | On a 2×2 board with one live 3/7 pair beside an already matched pair, committing the live pair succeeds and leaves nothing live, whatever the identities. |
| Inject.FirstSpentRow | src/game/logic.ts:87-93 | The search returns the lowest spent row in range, or nothing exactly when no row in range is spent. |
| Inject.AddRow | src/game/logic.ts:82-120 | The board length is kept. An empty reserve changes nothing. The reserve loses its first min(cols, length) values, and a whole-row reserve stays whole rows. |
| Inject.AddRowDeals | src/game/logic.ts:87-118 | With a non-empty reserve, the front of the reserve is dealt into the first spent row. If no row is spent, the board is compacted first and the front is dealt into the last row. |
| Inject.FillRowDeals | src/game/logic.ts:113-118 | Dealing into row t sets the leading slots of row t to the reserve values and unmatched, and keeps their identities. Every other slot is untouched. |
| Inject.CompactDeals | src/game/logic.ts:94-118 | Compaction moves every row up by one. Identities, values and flags are kept and positions renumbered. The last row is emptied and then dealt into. |
| Inject.AddRowFillsLowestSpentRow | src/game/logic.ts:87-118 | If row t is spent and no row above it is, only row t changes, and it takes the front of the reserve. |
| Inject.AddRowCompactsFullBoard | src/game/logic.ts:94-118 | With no spent row, the board shifts up and the last row takes the front of the reserve. |
| Inject.AddRowForgetsTopRow | src/game/logic.ts:94-103 | On compaction of a board with at least two rows, the result does not depend on the original top row, which is lost. |
| Inject.AddRowKeepsPositions | src/game/logic.ts:94-118 | Row injection keeps every cell at the position of its slot. |
| Levels.LevelsWellFormed | src/levels.ts:3-7 | The table has three levels. Each has a positive width and leaves at least one row empty. Each deals a non-empty reserve of whole rows. |
| Levels.LevelIds | src/levels.ts:4-6 | Level ids count from one in table order. |
| Levels.LevelFieldRanges | src/types.ts:14-16 | Every level fills 3 or 4 rows and has a 120-second timer, as the descriptor's field notes say. |
| Levels.LevelBudgets | src/levels.ts:4-6 | The add-row budget equals the number of reserve rows for levels 1 and 3. For level 2 it is one more. |
| Session.SeedGridInv | src/game/logic.ts:5-17 | A fresh deal satisfies the session invariant (see below). |
| Session.TryMatchKeepsInv | src/game/logic.ts:64-80 | A commit keeps the session invariant. |
| Session.InvFindsSpentRow | src/game/logic.ts:87-94 | Under the invariant, a non-empty reserve holds at least one row and always finds a spent row. |
| Session.AddRowKeepsInv | src/game/logic.ts:82-120 | Row injection keeps the session invariant. |
| Session.PlayKeepsInv | src/game/logic.ts:64-120 | Every sequence of commits and injections keeps the session invariant. |
| Session.ReachableNeverCompacts | src/game/logic.ts:87-111 | From a fresh deal, every reachable state satisfies the invariant. In every such state, an injection with a non-empty reserve finds a spent row, so the compaction branch is never taken. |
| Session.PlayPool | src/game/logic.ts:113-118 | Starting from a whole-row reserve, a session of k injections leaves max(0, length − cols·k) reserve values. |
| Session.SeededPool | src/game/logic.ts:15 | From a fresh deal, k injections leave max(0, cols·(rows − initialFilledRows) − cols·k) reserve values. |
| Session.Level2LastAddRowIsNoop | src/levels.ts:5 | On level 2, after the six injections its reserve supplies, the reserve is empty. The seventh injection of its budget then changes nothing. |
| Session.BudgetMatchesPool | src/levels.ts:4-6 | On levels 1 and 3, after k ≤ budget injections, exactly cols·(budget − k) reserve values remain. Every injection within the budget therefore deals a full row. |

The session invariant (`Session.Inv`) has these parts:

- The board has rows·cols cells, each at the position of its slot.
- Every value is in 0..9.
- The reserve is whole rows of digits.
- The reserve holds no more rows than the board has spent rows.

## Left out

- Randomness: `Math.random` in `seedGrid` is replaced by caller-supplied draws. The identity string format `row-col-random` is replaced by caller-supplied identities. No uniqueness of identities is claimed.
- Reference identity: the test `a === b` in `tryMatch` is modelled as equality of the two cell values.
- Aliasing: `addRow` consumes the caller's reserve array in place with `shift`. The model returns the remaining suffix instead.
- Number representation: JavaScript numbers are modelled as unbounded integers. `Math.floor` of a quotient and `%` are used only on non-negative operands, where they agree with Dafny's `/` and `%`.
- Grid.SeedGrid: requires `cols > 0` and `rows >= 0`. With `cols <= 0` or `rows < 0` the source builds a board of length max(0, rows·cols) and a reserve of max(0, cols·(rows − initialFilledRows)) values, which can be non-empty (cols 8, rows −1, initialFilledRows −2 gives an empty board and 8 reserve values). The model does not cover these degenerate levels.
- Inject.AddRow: requires a board of exactly rows·cols cells, the only size the engine builds. On a longer board the source touches only the first rows·cols slots and leaves the rest alone. On a shorter board the slice of a missing row is empty, so that row counts as spent, and dealing into it makes the array longer.
- Inject.AddRow: with `rows == 0`, the source writes to the indices −cols..−1 (properties of a JavaScript array that are not elements). The model leaves the empty board unchanged and consumes the reserve the same way.
- Commit.TryMatch: requires both picks, when both are present, to carry a row and column inside the board. The source also runs on other picks: a column out of range that still addresses a board slot, a pair the value rule rejects before the board is read, or an off-board pick whose scan reads no cell. The model excludes these inputs. This is harmless in play: the game screen passes cells taken from the board, and row injection and commits keep every cell at its own position (`Session.Inv`).
- Commit.TryMatchRetiresPair: states a drop of at least two, not exactly two. Two cells sharing an identity are both marked. This can happen after compaction, which reuses the identities of the cleared last row.
- Session.SeedGridInv: requires `initialFilledRows >= 0`. With a negative value the reserve is larger than the empty part of the board.
- Session.ReachableNeverCompacts: requires `initialFilledRows >= 0`, for the same reason.
- The screens and components (game screen, cell view, app shell) are not part of this model. They cover tile selection, the add-row budget counter, the countdown timer, feedback timing and navigation. A session here is any sequence of commits and injections, and the budget appears only in the level-table lemmas.
- The duplicate identities that compaction creates are not logged as a defect. Under `Session.ReachableNeverCompacts`, compaction never happens from a fresh deal, so no reachable state has them.
- Compaction keeps the identities of the old last row rather than issuing fresh ones. The model follows the code here.
