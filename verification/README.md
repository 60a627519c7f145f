# Tower of Fanoi — a verified model of the stack manager

Tower of Fanoi is a browser script. It piles randomly sized blocks on the
first of three pegs. It then moves them, one at a time, towards the third
peg. Provided each step finishes before the next one starts, all of them
end on the third peg with the widest at the bottom (see "Left out" for
when that proviso fails). Its `StackManager` keeps:

- the three pegs as arrays of blocks, the last one being the top;
- a move counter;
- the geometry of every block, which is updated as the block moves.

The manager's operations are these:

- `generateStacks` lays the blocks out.
- `moveTowerBlock` moves one block.
- `findIndexWidestTowerBlock` and `findIndicesWidestTowerBlock` select the next block to deliver.
- `moveWidestTowerBlockTo3rdStack` is one heuristic step. It shuttles the blocks above the selected one to the other working peg, then delivers the selected block to peg 2.
- `solveTowerOfFanoi` runs ten such steps.

The project has three modules:

- `Blocks` (`blocks.dfy`): the block record, the layout constants (origin (50, 120), block height 9, peg spacing 100, maximum width 90) and the width rule of `getRandomBlockWidth`.
- `Towers` (`towers.dfy`): the pegs as a value `seq<seq<TowerBlock>>`. Each operation is written as a function on that value, and the properties the program relies on are proved as lemmas:
  - a move conserves the blocks;
  - every block stays in the slot its peg and height give it;
  - the selection picks the topmost of the widest blocks, with ties going to peg 1;
  - each step delivers one block while pegs 0 and 1 hold any;
  - each step keeps peg 2 narrowing going up, with nothing still waiting on pegs 0 and 1 wider than its top;
  - ten steps from the initial layout of ten blocks leave every block on peg 2, widest at the bottom.
- `Manager` (`stack_manager.dfy`): the class `StackManager`, whose fields are updated in place. Each method is proved to produce exactly what the matching `Towers` function describes.

The random number generator is replaced by explicit draws. A draw `k` in `[0, 16)` stands for `Math.floor(16 * Math.random())`, and block `i` of the layout uses draw `draws[i]`. The model assumes that each heuristic step, including every move it schedules, finishes before the next step makes its selection. This is not the order in which the source schedules its callbacks: `solveTowerOfFanoi` schedules all ten step callbacks before any move callback exists (tower_of_fanoi.js:224-231).

A move from an empty peg crashes in the source. `pop()` returns `undefined`, and updating its `x` throws before anything has changed. `MoveTowerBlock` models this as an error path: it returns `ok == false` and leaves every field as it was. Each step runs in a callback of its own, so a step that fails this way does not stop the steps after it. The model's driver `Run` therefore goes on after a failed delivery. Once pegs 0 and 1 are empty, every further step changes nothing (`Towers.RunIdle`).

The comment at tower_of_fanoi.js:30 speaks of widths 10, 15, …, 90, and lines 9 and 66 give 90 as the maximum width. The code draws one of sixteen candidates, 10, 15, …, 85, and takes one off the even ones. The widest block is therefore 85 wide. The model follows the code; see `Blocks.BlockWidthsExactly`.

## Model

| member | source | states |
|---|---|---|
| Blocks.RandomBlockWidth | tower_of_fanoi.js:26-34 | For every draw k in [0, 16) the width is odd and lies in 9..85, below the maximum block width 90. It is the candidate 10 + 5k or one less. |
| Blocks.WidthsDistinguishable | tower_of_fanoi.js:27-31 | Two different draws give widths at least 4 pixels apart, so any two distinct widths can be told apart. |
| Blocks.BlockWidthsExactly | tower_of_fanoi.js:31-33 | A width can be produced by some draw if and only if it is one of 9, 15, 19, 25, …, 79, 85 (both directions). |
| Towers.Layout | tower_of_fanoi.js:57-80 | There are three pegs, peg 0 holds max(count, 0) blocks and pegs 1 and 2 are empty. Block i has the width of draw i and sits in slot i of peg 0: x = 50 − ⌊w/2⌋, y = 120 − 10·i, height 9. |
| Manager.StackManager.GenerateStacks | tower_of_fanoi.js:57-80 | The push loop builds exactly the layout `Towers.Layout` describes, including no blocks for a zero or negative count. |
| Manager.StackManager.constructor | tower_of_fanoi.js:39-53 | The count is stored unchanged even when it is out of range. The pegs are the layout and the counter is 0. The class invariant holds: three pegs, every block in its slot, and exactly max(count, 0) blocks. |
| Manager.StackManager.CalculateTowerHeight | tower_of_fanoi.js:131-134 | The height is never negative and is 0 exactly when the peg is empty. For a non-empty peg whose blocks are in their slots, origin.y − height is the y of the free slot just above the top block. |
| Towers.TowerHeight | tower_of_fanoi.js:131-134 | The height of a peg's stack, one pixel of space included per block. It is never negative and is 0 exactly for an empty peg. Measured up from the origin, it reaches the y of the free slot just above the top block. |
| Towers.NewBlock | tower_of_fanoi.js:67-74 | The block generateStacks creates for draw k as block i. It has the drawn width and the fixed height, and it is centred on peg 0 in slot i. |
| Towers.Move | tower_of_fanoi.js:112-128 | A move from a non-empty peg keeps three pegs. The source loses one block, the destination gains one and the third peg keeps its size; when source and destination are the same, that peg's size is unchanged. |
| Towers.MoveEffect | tower_of_fanoi.js:118-125 | Between two different pegs: the source becomes its old stack without the top, and the destination keeps its old blocks below. The new top of the destination is the moved block with the same width and height. Its x is shifted by 100·(d − s) and its y is 120 − 10·(old destination size). The third peg is unchanged. |
| Towers.MoveConserves | tower_of_fanoi.js:118-125 | A move keeps the total number of blocks and the multiset of widths on the three pegs. |
| Towers.MovePlaced | tower_of_fanoi.js:118-125 | If every block sits in its slot before a move, every block, the moved one included, sits in its slot after it. |
| Towers.TotalIsWidthCount | tower_of_fanoi.js:118-125 | The number of blocks on the pegs equals the size of the multiset of their widths, so keeping the widths keeps the count (used by `Towers.StepConserves`). |
| Manager.StackManager.MoveTowerBlock | tower_of_fanoi.js:112-128 | ok holds exactly when the source peg was non-empty. If ok, the pegs become `Move` of the old pegs and the counter goes up by one. If not, nothing changes. The class invariant is kept either way. |
| Towers.TopmostWidest | tower_of_fanoi.js:136-149 | An empty peg gives −1. Otherwise the result is an index in range whose width is at least every width on the peg and strictly greater than every width above it. |
| Towers.TopmostWidestUnique | tower_of_fanoi.js:136-149 | At most one index meets that description, so the topmost widest block is well defined. |
| Manager.StackManager.FindIndexWidestTowerBlock | tower_of_fanoi.js:136-149 | The downward scan, which replaces its candidate only with a strictly wider block, returns −1 for an empty peg. Otherwise it returns the topmost widest block, which is `TopmostWidest`. |
| Manager.StackManager.FindIndicesWidestTowerBlock | tower_of_fanoi.js:155-169 | The method returns exactly the selection `Towers.Select`. |
| Towers.MaxWidth | tower_of_fanoi.js:159-164 | The width findIndicesWidestTowerBlock compares for one peg. It is 0 for an empty peg. Otherwise it is the width of one of the peg's blocks and at least the width of every block on it. |
| Towers.Select | tower_of_fanoi.js:155-169 | The selection returned by findIndicesWidestTowerBlock. The peg is 0 or 1 and the index is in range for it, being −1 exactly when that peg is empty. |
| Towers.SelectNonEmpty | tower_of_fanoi.js:159-168 | With blocks in their slots, so every width is positive, a non-empty peg wins over an empty one. If pegs 0 and 1 hold a block, the selected peg is non-empty. |
| Towers.SelectWidest | tower_of_fanoi.js:155-169 | Peg 0 is chosen if and only if its widest block is strictly wider than peg 1's, an empty peg counting as 0. Two empty pegs give (1, −1). Otherwise the selected block is the topmost widest of its peg, its width is the maximum over both pegs, and no block on pegs 0 and 1 is wider. |
| Towers.Shuttle | tower_of_fanoi.js:202-211 | n shuttle moves from working peg w keep three pegs and take exactly n blocks off peg w. |
| Towers.ShuttleEffect | tower_of_fanoi.js:202-211 | After n shuttle moves, peg w is its old stack without its top n blocks. The other working peg keeps its old blocks below n new ones. Peg 2 is untouched. |
| Towers.ShuttlePlaced | tower_of_fanoi.js:202-211 | Shuttle moves leave every block in its slot. |
| Towers.ShuttleConserves | tower_of_fanoi.js:202-211 | Shuttle moves keep the multiset of widths. |
| Manager.StackManager.MoveBlocksAbove | tower_of_fanoi.js:198-211 | The shuttle loop makes exactly one counted move per block above the selected index, and the pegs become `Shuttle` of the old pegs. |
| Manager.StackManager.MoveWidestTowerBlockTo3rdStack | tower_of_fanoi.js:192-217 | The pegs, the number of moves added and the success of the final delivery are exactly those of `Towers.Step` applied to the old pegs. The class invariant is kept. |
| Towers.Step | tower_of_fanoi.js:192-217 | One heuristic step, its moves in order: select, make one shuttle move per block above the selected one, then move the selected peg's top to peg 2. When that peg is empty, the last move fails and changes nothing. Three pegs are kept. Its properties are stated by the lemmas below. |
| Towers.StepConserves | tower_of_fanoi.js:192-217 | A heuristic step keeps the multiset of widths, and with it the number of blocks, even when its delivery fails. |
| Towers.StepPlaced | tower_of_fanoi.js:192-217 | A heuristic step leaves every block in its slot. |
| Towers.StepDelivers | tower_of_fanoi.js:192-217 | Given blocks in their slots (so every width is positive), the delivery succeeds if and only if pegs 0 and 1 hold a block. On failure nothing changes and no move is counted. On success the step makes one move per block above the selected one plus the delivery, pegs 0 and 1 lose one block together, and peg 2 gains one on top of its old blocks. |
| Towers.StepDeliversWidest | tower_of_fanoi.js:192-217 | When pegs 0 and 1 hold a block, the block delivered to peg 2 has the largest width on pegs 0 and 1, and that width belongs to one of their blocks. |
| Towers.StepWaitingWidths | tower_of_fanoi.js:192-217 | After a delivery, the widths left on pegs 0 and 1, together with the delivered width, are exactly the widths they held before. |
| Towers.DeliveryOrdered | tower_of_fanoi.js:192-217 | Putting on top of peg 2 a widest block of pegs 0 and 1, taken from them, keeps peg 2 narrowing going up. No block left on pegs 0 and 1 is wider than the new top. |
| Towers.PushDescending | tower_of_fanoi.js:214 | Pushing a block no wider than the top keeps a stack narrowing going up. |
| Towers.WaitingBounded | tower_of_fanoi.js:192-217 | Blocks whose widths, together with m, are those of two stacks bounded by m are themselves bounded by m. |
| Towers.StepOrdered | tower_of_fanoi.js:192-217 | If peg 2 narrows going up and nothing on pegs 0 and 1 is wider than its top, the same holds after a step. |
| Towers.StepCounts | tower_of_fanoi.js:192-217 | With n blocks on pegs 0 and 1, a step leaves max(n − 1, 0) there. Peg 2 grows by one if n > 0 and keeps its old blocks, and the step makes at least one move if n > 0. |
| Towers.Run | tower_of_fanoi.js:219-237 | The driver: k heuristic steps one after the other, their moves added up. A failed step does not stop the later ones. Three pegs are kept. |
| Towers.RunCollects | tower_of_fanoi.js:224-231 | After k steps from n blocks on pegs 0 and 1, those pegs hold n − min(k, n) blocks. Peg 2 has gained min(k, n) blocks above its old ones and at least min(k, n) moves were made. Every block is kept and stays in its slot. |
| Towers.RunOrdered | tower_of_fanoi.js:224-231 | From a state with peg 2 narrowing going up and nothing on pegs 0 and 1 wider than its top, any number of steps keeps that order. |
| Towers.RunIdle | tower_of_fanoi.js:224-231 | With pegs 0 and 1 empty, any number of steps changes nothing and counts no move. |
| Towers.SolveFromLayout | tower_of_fanoi.js:219-237 | From the layout of at most ten blocks, the ten steps leave pegs 0 and 1 empty and every block on peg 2, with the widths drawn, after at least one move per block. The widths on peg 2 never increase going up. With no blocks, no move is made. |
| Manager.StackManager.SolveTowerOfFanoi | tower_of_fanoi.js:219-237 | The ten iterations leave the pegs and the counter exactly as `Towers.Run` with 10 steps describes. The reported count is the final counter, and the class invariant is kept. |
| Manager.SolveTenBlocks | tower_of_fanoi.js:253-254 | The program's own run, a manager for ten blocks solving its tower, ends with pegs 0 and 1 empty and all ten blocks on peg 2 with the widths drawn, the widest at the bottom. At least ten moves are reported. |

## Left out

- Drawing on the canvas (`TowerBlock.paint`, `paintStackAreaWhite`, `paintAllStacks`, tower_of_fanoi.js:18-23, 82-108): DOM calls only. The model keeps the coordinates they would draw.
- The `alert` on a count outside 0..10 (tower_of_fanoi.js:47): a UI side effect. The model only keeps the count stored unchanged.
- The `console.log` calls (tower_of_fanoi.js:196, 234): output. The count line 234 prints is what `SolveTowerOfFanoi` returns.
- Timers:
  - `setTimeout` and `estimateTimeInMs_moveWidestTowerBlockTo3rdStack` (tower_of_fanoi.js:176-190, 203-216, 225-236) are not modelled. Each heuristic step runs to its end, moves included, before the next step selects. The source schedules all ten step callbacks first (tower_of_fanoi.js:227), so this is an assumption about timing, not the scheduling order.
  - The source computes all ten delay estimates against the initial pegs (tower_of_fanoi.js:225). Every step is therefore given 800 + 300·m ms, where m is the number of shuttle moves of the first step. A later step that needs m + 2 or more shuttle moves is still running when the next one starts. For example, with m = 0, a step that starts at t and needs two shuttle moves delivers at t + 900. The next step starts at t + 800 and selects the same block, which is now on top. At t + 1100 it moves to peg 2 whatever lies under that block, or finds the peg empty. The outcome proved here (every block on peg 2, widest at the bottom) holds only when no such overlap happens.
- `Math.random` (tower_of_fanoi.js:31): replaced by the draws passed to the constructor. The constructor requires at least as many draws as blocks.
- The default argument `countTowerBlocks = 5` (tower_of_fanoi.js:39): Dafny constructors have no default arguments, so the count is always passed.
- The `DEBUG` class (tower_of_fanoi.js:240-250): debug output.
- The `Point` and `TowerBlock` classes (tower_of_fanoi.js:1-16):
  - They are modelled as immutable values. `moveTowerBlock` mutates the block object it pops, but no other reference to that object exists, so the model's copy cannot be observed to differ.
  - `TowerBlock.maxBlockWidth` is the constant `MAX_BLOCK_WIDTH`.
- The exception itself (tower_of_fanoi.js:118-120): a move from an empty peg is reported by `MoveTowerBlock` returning false. The model does not unwind the surrounding callback; nothing else in that callback runs after the failed move in the source either.
- Manager.StackManager.MoveWidestTowerBlockTo3rdStack: the scheduled moves of the source (tower_of_fanoi.js:182, 200, 204, 207, 214, 215) act on the global `stackManager`, while the selection and the loop bound are computed on `this`. The model applies the moves to the receiver itself. The two agree because the program creates exactly one manager and stores it in that global (tower_of_fanoi.js:253). A second manager, whose scheduled moves would act on the first one, is not modelled.
- Manager.StackManager.MoveBlocksAbove: the shuttle loop of `moveWidestTowerBlockTo3rdStack` (tower_of_fanoi.js:202-211) is written as a method of its own, called from `MoveWidestTowerBlockTo3rdStack`. Its loop bound is read once, before any move, as in the source.
