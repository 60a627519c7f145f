/**
 * The stack manager as the object it is: three pegs and a move counter
 * that its methods update in place. Each method is proved to do what the
 * corresponding function of module Towers describes.
 */
module Manager {
  import opened Blocks
  import opened Towers

  class StackManager {
    /** The configured number of blocks, kept as given even when out of range. */
    var countTowerBlocks: int
    /** The three pegs; the last block of each is its top. */
    var stacks: Stacks
    /** The number of moves that went through. */
    var countTowerBlockMoves: nat

    /** Three pegs holding exactly the configured blocks, each one in its proper slot. */
    ghost predicate Valid()
      reads this
    {
      && WellFormed(stacks)
      && Placed(stacks)
      && Total(stacks) == BlockCount(countTowerBlocks)
    }

    /**
     * Stores the count unchanged (an out-of-range count only raises an alert)
     * and lays the blocks out on peg 0; draws[i] is the random choice that
     * picks the width of block i.
     */
    constructor (countTowerBlocks: int, draws: seq<int>)
      requires countTowerBlocks <= |draws| && DrawsInRange(draws)
      ensures Valid()
      ensures this.countTowerBlocks == countTowerBlocks
      ensures stacks == Layout(countTowerBlocks, draws)
      ensures countTowerBlockMoves == 0
    {
      this.countTowerBlocks := countTowerBlocks;
      stacks := [[], [], []];
      countTowerBlockMoves := 0;
      new;
      stacks := GenerateStacks(draws);
    }

    /** Pushes one new block per configured block onto peg 0, bottom first. */
    method GenerateStacks(draws: seq<int>) returns (result: Stacks)
      requires countTowerBlocks <= |draws| && DrawsInRange(draws)
      ensures result == Layout(countTowerBlocks, draws)
    {
      result := [[], [], []];
      var i := 0;
      assert Column(draws, 0) == [];
      while i < countTowerBlocks
        invariant 0 <= i <= BlockCount(countTowerBlocks)
        invariant result == [Column(draws, i), [], []]
      {
        var randomWidth := RandomBlockWidth(draws[i]);
        var newTowerBlock := TowerBlock(
          ORIGIN.x - randomWidth / 2,
          ORIGIN.y - i * (BLOCK_HEIGHT + 1),
          randomWidth,
          BLOCK_HEIGHT);
        assert Column(draws, i + 1) == Column(draws, i) + [newTowerBlock];
        result := result[0 := result[0] + [newTowerBlock]];
        i := i + 1;
      }
    }

    /**
     * The height of the stack on a peg, one pixel of space included per
     * block: zero exactly when the peg is empty, and otherwise the distance
     * from the origin up to the next free slot above the top block.
     */
    function CalculateTowerHeight(stackIndex: nat): (h: int)
      reads this
      requires stackIndex < |stacks|
      ensures h >= 0 && (h == 0 <==> stacks[stackIndex] == [])
      ensures Placed(stacks) && stacks[stackIndex] != [] ==>
        ORIGIN.y - h == Top(stacks[stackIndex]).y - (BLOCK_HEIGHT + 1)
    {
      assert Placed(stacks) && stacks[stackIndex] != [] ==>
        BlockAt(stacks[stackIndex][|stacks[stackIndex]| - 1], stackIndex, |stacks[stackIndex]| - 1);
      TowerHeight(stacks, stackIndex)
    }

    /**
     * Pops the top block of the source peg, shifts it sideways by the
     * distance between the pegs, sets its y from the destination's height
     * and pushes it onto the destination, counting the move. On an empty
     * source the pop yields no block and the update of its x throws before
     * anything changes: ok is false and so is every field as it was.
     */
    method MoveTowerBlock(indexSourceStack: nat, indexDestinationStack: nat) returns (ok: bool)
      requires Valid() && indexSourceStack < 3 && indexDestinationStack < 3
      modifies this
      ensures Valid() && countTowerBlocks == old(countTowerBlocks)
      ensures ok <==> old(stacks[indexSourceStack]) != []
      ensures stacks == if ok then Move(old(stacks), indexSourceStack, indexDestinationStack) else old(stacks)
      ensures countTowerBlockMoves == old(countTowerBlockMoves) + if ok then 1 else 0
    {
      if stacks[indexSourceStack] == [] {
        return false;
      }
      ghost var before := stacks;
      var movedTowerBlock := Top(stacks[indexSourceStack]);
      stacks := stacks[indexSourceStack := stacks[indexSourceStack][..|stacks[indexSourceStack]| - 1]];
      movedTowerBlock := movedTowerBlock.(x := movedTowerBlock.x + STACK_WIDTH * (indexDestinationStack - indexSourceStack));
      movedTowerBlock := movedTowerBlock.(y := ORIGIN.y - CalculateTowerHeight(indexDestinationStack));
      stacks := stacks[indexDestinationStack := stacks[indexDestinationStack] + [movedTowerBlock]];
      countTowerBlockMoves := countTowerBlockMoves + 1;
      ok := true;
      assert stacks == Move(before, indexSourceStack, indexDestinationStack);
      MoveConserves(before, indexSourceStack, indexDestinationStack);
      MovePlaced(before, indexSourceStack, indexDestinationStack);
    }

    /**
     * Scans a peg from the top down, replacing the candidate only by a
     * strictly wider block: the topmost of the widest blocks, or -1 for an
     * empty peg.
     */
    method FindIndexWidestTowerBlock(stackIndex: nat) returns (indexWidestTowerBlock: int)
      requires stackIndex < |stacks|
      ensures stacks[stackIndex] == [] ==> indexWidestTowerBlock == -1
      ensures stacks[stackIndex] != [] ==> IsTopmostWidest(stacks[stackIndex], indexWidestTowerBlock)
      ensures indexWidestTowerBlock == TopmostWidest(stacks[stackIndex])
    {
      var s := stacks[stackIndex];
      indexWidestTowerBlock := |s| - 1;
      var i := indexWidestTowerBlock - 1;
      while i >= 0
        invariant s == [] ==> indexWidestTowerBlock == -1 && i == -2
        invariant s != [] ==> -1 <= i < indexWidestTowerBlock < |s|
        invariant s != [] ==> forall j :: i < j < |s| ==> s[j].width <= s[indexWidestTowerBlock].width
        invariant s != [] ==> forall j :: indexWidestTowerBlock < j < |s| ==> s[j].width < s[indexWidestTowerBlock].width
        decreases i
      {
        if s[i].width > s[indexWidestTowerBlock].width {
          indexWidestTowerBlock := i;
        }
        i := i - 1;
      }
      if s != [] {
        TopmostWidestUnique(s, indexWidestTowerBlock);
      }
    }

    /**
     * Compares the widest blocks of pegs 0 and 1, an empty peg counting as
     * width 0, and picks peg 0 only when its block is strictly wider.
     */
    method FindIndicesWidestTowerBlock() returns (indicesWidestTowerBlock: Selection)
      requires WellFormed(stacks)
      ensures indicesWidestTowerBlock == Select(stacks)
    {
      var indexWidestTowerBlock1stStack := FindIndexWidestTowerBlock(0);
      var indexWidestTowerBlock2ndStack := FindIndexWidestTowerBlock(1);
      var maxWidth1stStack := if |stacks[0]| == 0 then 0 else stacks[0][indexWidestTowerBlock1stStack].width;
      var maxWidth2ndStack := if |stacks[1]| == 0 then 0 else stacks[1][indexWidestTowerBlock2ndStack].width;
      indicesWidestTowerBlock := if maxWidth1stStack > maxWidth2ndStack
        then Selection(0, indexWidestTowerBlock1stStack)
        else Selection(1, indexWidestTowerBlock2ndStack);
    }

    /**
     * The first part of a heuristic step: the moves that take every block
     * above index on peg w, topmost first, to the other of pegs 0 and 1.
     */
    method MoveBlocksAbove(w: nat, index: int)
      requires Valid() && w < 2 && -1 <= index < |stacks[w]|
      modifies this
      ensures Valid() && countTowerBlocks == old(countTowerBlocks)
      ensures stacks == Shuttle(old(stacks), w, |old(stacks[w])| - 1 - index)
      ensures countTowerBlockMoves == old(countTowerBlockMoves) + (|old(stacks[w])| - 1 - index)
    {
      ghost var p := stacks;
      var other := if w == 0 then 1 else 0;
      var i := |stacks[w]| - 1;
      ghost var n: nat := 0;
      while i > index
        invariant Valid() && countTowerBlocks == old(countTowerBlocks)
        invariant index <= i && n == |p[w]| - 1 - i
        invariant stacks == Shuttle(p, w, n)
        invariant countTowerBlockMoves == old(countTowerBlockMoves) + n
        decreases i
      {
        var _ := MoveTowerBlock(w, other);
        i, n := i - 1, n + 1;
      }
    }

    /**
     * One heuristic step, its scheduled moves run in order: every block
     * above the selected one goes to the other of pegs 0 and 1, then the
     * top of the selected peg goes to peg 2. delivered is false when that
     * last move found its peg empty.
     */
    method MoveWidestTowerBlockTo3rdStack() returns (delivered: bool)
      requires Valid()
      modifies this
      ensures Valid() && countTowerBlocks == old(countTowerBlocks)
      ensures var o := Step(old(stacks));
        && stacks == o.pegs
        && countTowerBlockMoves == old(countTowerBlockMoves) + o.moves
        && delivered == o.delivered
    {
      ghost var p := stacks;
      var indicesWidestTowerBlock := FindIndicesWidestTowerBlock();
      MoveBlocksAbove(indicesWidestTowerBlock.peg, indicesWidestTowerBlock.index);
      ghost var q := stacks;
      delivered := MoveTowerBlock(indicesWidestTowerBlock.peg, 2);
      StepFinish(p, q, stacks, delivered);
    }

    /**
     * solveTowerOfFanoi with its ten steps run one after the other; a step
     * whose delivery fails does not stop the ones after it. The moves it
     * returns are the count the program reports at the end.
     */
    method SolveTowerOfFanoi() returns (reportedMoves: nat)
      requires Valid()
      modifies this
      ensures Valid() && countTowerBlocks == old(countTowerBlocks)
      ensures stacks == Run(old(stacks), ITERATIONS).pegs
      ensures countTowerBlockMoves == old(countTowerBlockMoves) + Run(old(stacks), ITERATIONS).moves
      ensures reportedMoves == countTowerBlockMoves
    {
      ghost var p := stacks;
      var i := 0;
      while i < ITERATIONS
        invariant 0 <= i <= ITERATIONS
        invariant Valid() && countTowerBlocks == old(countTowerBlocks)
        invariant stacks == Run(p, i).pegs
        invariant countTowerBlockMoves == old(countTowerBlockMoves) + Run(p, i).moves
      {
        RunStep(p, i);
        var _ := MoveWidestTowerBlockTo3rdStack();
        i := i + 1;
      }
      reportedMoves := countTowerBlockMoves;
    }
  }

  /**
   * The program itself: a manager for ten blocks solves its tower. Every
   * block ends on peg 2, the widest at the bottom, the widths are the ones
   * drawn, and at least one move per block is reported.
   */
  method SolveTenBlocks(draws: seq<int>) returns (reportedMoves: nat, finalStacks: Stacks)
    requires ITERATIONS <= |draws| && DrawsInRange(draws)
    ensures WellFormed(finalStacks)
    ensures finalStacks[0] == [] && finalStacks[1] == [] && |finalStacks[2]| == ITERATIONS
    ensures StackWidths(finalStacks[2]) == StackWidths(Layout(ITERATIONS, draws)[0])
    ensures Descending(finalStacks[2])
    ensures reportedMoves >= ITERATIONS
  {
    var stackManager := new StackManager(ITERATIONS, draws);
    reportedMoves := stackManager.SolveTowerOfFanoi();
    finalStacks := stackManager.stacks;
    SolveFromLayout(ITERATIONS, draws);
  }
}
