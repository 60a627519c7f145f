/**
 * The three pegs as a value, and the operations of the stack manager stated
 * as functions on that value: the initial layout, the single-block move, the
 * widest-block selection, the heuristic step and the ten-step driver, with the
 * properties each of them keeps. The class in module Manager is proved to
 * follow these functions.
 */
module Towers {
  import opened Blocks

  /** The pegs; in each stack the last block is the top one. */
  type Stacks = seq<seq<TowerBlock>>

  /** The number of heuristic steps the driver schedules. */
  const ITERATIONS: nat := 10

  predicate WellFormed(p: Stacks) {
    |p| == 3
  }

  function Top(s: seq<TowerBlock>): TowerBlock
    requires s != []
  {
    s[|s| - 1]
  }

  function Max(a: int, b: int): int {
    if a < b then b else a
  }

  /** The number of blocks a configured count lays out: none for a negative count. */
  function BlockCount(count: int): nat {
    if count < 0 then 0 else count
  }

  // ---------------------------------------------------------------------------
  // Geometry

  /** The y of the block in slot j (counted from the bottom) of any peg. */
  function SlotY(j: int): int {
    ORIGIN.y - j * (BLOCK_HEIGHT + 1)
  }

  /** The x of a block of the given width centred on peg k. */
  function SlotX(k: int, width: int): int {
    ORIGIN.x + STACK_WIDTH * k - width / 2
  }

  /** A block of a width the width rule produces, of the fixed height, drawn centred in slot j of peg k. */
  predicate BlockAt(b: TowerBlock, k: int, j: int) {
    && IsBlockWidth(b.width)
    && b.height == BLOCK_HEIGHT
    && b.x == SlotX(k, b.width)
    && b.y == SlotY(j)
  }

  /** No block holds a stale position: each one sits in the slot its peg and height give it. */
  predicate Placed(p: Stacks) {
    forall k, j :: 0 <= k < |p| && 0 <= j < |p[k]| ==> BlockAt(p[k][j], k, j)
  }

  /**
   * calculateTowerHeight: the vertical extent of the stack on peg k, zero
   * exactly for an empty peg; measured up from the origin it reaches the
   * free slot just above the top block.
   */
  function TowerHeight(p: Stacks, k: nat): (h: int)
    requires k < |p|
    ensures h >= 0 && (h == 0 <==> p[k] == [])
    ensures ORIGIN.y - h == SlotY(|p[k]|)
  {
    |p[k]| * (BLOCK_HEIGHT + 1)
  }

  // ---------------------------------------------------------------------------
  // Conserved quantities

  /** The number of blocks on the three pegs. */
  function Total(p: Stacks): int
    requires WellFormed(p)
  {
    |p[0]| + |p[1]| + |p[2]|
  }

  /** The multiset of the widths of the blocks of one stack. */
  function StackWidths(s: seq<TowerBlock>): multiset<int> {
    if s == [] then multiset{} else StackWidths(s[..|s| - 1]) + multiset{Top(s).width}
  }

  /** The multiset of the widths of all blocks on all three pegs. */
  function Widths(p: Stacks): multiset<int>
    requires WellFormed(p)
  {
    StackWidths(p[0]) + StackWidths(p[1]) + StackWidths(p[2])
  }

  /** Replacing the stack on one peg swaps its widths for those of the new stack. */
  lemma WidthsUpdate(p: Stacks, i: nat, t: seq<TowerBlock>)
    requires WellFormed(p) && i < 3
    ensures Widths(p[i := t]) + StackWidths(p[i]) == Widths(p) + StackWidths(t)
  {
    var q := p[i := t];
    if i == 0 {
      assert q[1] == p[1] && q[2] == p[2];
    } else if i == 1 {
      assert q[0] == p[0] && q[2] == p[2];
    } else {
      assert q[0] == p[0] && q[1] == p[1];
    }
  }

  /** Multiset union cancels. */
  lemma Cancel(a: multiset<int>, b: multiset<int>, c: multiset<int>)
    requires a + c == b + c
    ensures a == b
  {
    assert forall x :: a[x] == (a + c)[x] - c[x];
  }

  /** Pushing a block adds its width. */
  lemma StackWidthsPush(s: seq<TowerBlock>, b: TowerBlock)
    ensures StackWidths(s + [b]) == StackWidths(s) + multiset{b.width}
  {
  }

  /** One width per block. */
  lemma {:induction false} StackWidthsSize(s: seq<TowerBlock>)
    ensures |StackWidths(s)| == |s|
  {
    if s != [] {
      StackWidthsSize(s[..|s| - 1]);
    }
  }

  /** The number of blocks is the size of the multiset of widths. */
  lemma TotalIsWidthCount(p: Stacks)
    requires WellFormed(p)
    ensures |Widths(p)| == Total(p)
  {
    StackWidthsSize(p[0]);
    StackWidthsSize(p[1]);
    StackWidthsSize(p[2]);
  }

  // ---------------------------------------------------------------------------
  // Initial layout (generateStacks)

  /** Every draw selects one of the sixteen widths. */
  predicate DrawsInRange(draws: seq<int>) {
    forall i :: 0 <= i < |draws| ==> 0 <= draws[i] < WIDTH_CHOICES
  }

  /** The i-th block generateStacks creates, for random draw k: the drawn width, centred in slot i of peg 0. */
  function NewBlock(k: int, i: int): (b: TowerBlock)
    requires 0 <= k < WIDTH_CHOICES
    ensures b.width == RandomBlockWidth(k) && BlockAt(b, 0, i)
  {
    RandomBlockWidthIsBlockWidth(k);
    var w := RandomBlockWidth(k);
    TowerBlock(ORIGIN.x - w / 2, ORIGIN.y - i * (BLOCK_HEIGHT + 1), w, BLOCK_HEIGHT)
  }

  /** The first n blocks generateStacks pushes onto peg 0. */
  function Column(draws: seq<int>, n: nat): seq<TowerBlock>
    requires n <= |draws| && DrawsInRange(draws)
  {
    seq(n, i requires 0 <= i < n => NewBlock(draws[i], i))
  }

  /** generateStacks: every block on peg 0, in the order drawn, pegs 1 and 2 empty. */
  function Layout(count: int, draws: seq<int>): (p: Stacks)
    requires count <= |draws| && DrawsInRange(draws)
    ensures WellFormed(p) && Placed(p)
    ensures |p[0]| == BlockCount(count) && p[1] == [] && p[2] == []
    ensures forall i :: 0 <= i < |p[0]| ==> p[0][i].width == RandomBlockWidth(draws[i])
  {
    [Column(draws, BlockCount(count)), [], []]
  }

  // ---------------------------------------------------------------------------
  // The move primitive (moveTowerBlock)

  /**
   * moveTowerBlock on a non-empty source peg: pop the top block of peg s,
   * shift it sideways by (d - s) peg spacings, give it the y of the top of
   * peg d as it is after the pop, and push it onto peg d.
   */
  function Move(p: Stacks, s: nat, d: nat): (r: Stacks)
    requires WellFormed(p) && s < 3 && d < 3 && p[s] != []
    ensures WellFormed(r)
    ensures forall k :: 0 <= k < 3 ==>
      |r[k]| == |p[k]| - (if k == s then 1 else 0) + (if k == d then 1 else 0)
  {
    var b := Top(p[s]);
    var popped := p[s := p[s][..|p[s]| - 1]];
    var moved := b.(x := b.x + STACK_WIDTH * (d - s), y := ORIGIN.y - TowerHeight(popped, d));
    popped[d := popped[d] + [moved]]
  }

  /**
   * A move between two different pegs takes the top of the source, keeps its
   * size, shifts it by (d - s) peg spacings, lands it at the destination's
   * previous height and leaves the third peg alone.
   */
  lemma MoveEffect(p: Stacks, s: nat, d: nat)
    requires WellFormed(p) && s < 3 && d < 3 && s != d && p[s] != []
    ensures var r := Move(p, s, d); var b := Top(p[s]);
      && r[s] == p[s][..|p[s]| - 1]
      && |r[d]| == |p[d]| + 1 && r[d][..|p[d]|] == p[d]
      && Top(r[d]).width == b.width && Top(r[d]).height == b.height
      && Top(r[d]).x == b.x + STACK_WIDTH * (d - s)
      && Top(r[d]).y == ORIGIN.y - TowerHeight(p, d)
      && forall k :: 0 <= k < 3 && k != s && k != d ==> r[k] == p[k]
  {
  }

  /** Popping the top block of a peg takes exactly its width out of the widths. */
  lemma PopWidths(p: Stacks, s: nat)
    requires WellFormed(p) && s < 3 && p[s] != []
    ensures Widths(p[s := p[s][..|p[s]| - 1]]) + multiset{Top(p[s]).width} == Widths(p)
  {
    var rest := p[s][..|p[s]| - 1];
    assert p[s] == rest + [Top(p[s])];
    StackWidthsPush(rest, Top(p[s]));
    WidthsUpdate(p, s, rest);
    Cancel(Widths(p[s := rest]) + multiset{Top(p[s]).width}, Widths(p), StackWidths(rest));
  }

  /** Pushing a block onto a peg adds exactly its width to the widths. */
  lemma PushWidths(p: Stacks, d: nat, b: TowerBlock)
    requires WellFormed(p) && d < 3
    ensures Widths(p[d := p[d] + [b]]) == Widths(p) + multiset{b.width}
  {
    StackWidthsPush(p[d], b);
    WidthsUpdate(p, d, p[d] + [b]);
    Cancel(Widths(p[d := p[d] + [b]]), Widths(p) + multiset{b.width}, StackWidths(p[d]));
  }

  /** A move keeps every block: the count and the multiset of widths are unchanged. */
  lemma MoveConserves(p: Stacks, s: nat, d: nat)
    requires WellFormed(p) && s < 3 && d < 3 && p[s] != []
    ensures Total(Move(p, s, d)) == Total(p)
    ensures Widths(Move(p, s, d)) == Widths(p)
  {
    var b := Top(p[s]);
    var popped := p[s := p[s][..|p[s]| - 1]];
    var moved := b.(x := b.x + STACK_WIDTH * (d - s), y := ORIGIN.y - TowerHeight(popped, d));
    calc {
      Widths(Move(p, s, d));
      { assert Move(p, s, d) == popped[d := popped[d] + [moved]]; }
      Widths(popped[d := popped[d] + [moved]]);
      { PushWidths(popped, d, moved); }
      Widths(popped) + multiset{b.width};
      { PopWidths(p, s); }
      Widths(p);
    }
  }

  /** A move leaves every block, the moved one included, in its proper slot. */
  lemma MovePlaced(p: Stacks, s: nat, d: nat)
    requires WellFormed(p) && s < 3 && d < 3 && p[s] != [] && Placed(p)
    ensures Placed(Move(p, s, d))
  {
  }

  // ---------------------------------------------------------------------------
  // Selection (findIndexWidestTowerBlock, findIndicesWidestTowerBlock)

  /** i is the topmost among the widest blocks of s. */
  predicate IsTopmostWidest(s: seq<TowerBlock>, i: int) {
    && 0 <= i < |s|
    && (forall j :: 0 <= j < |s| ==> s[j].width <= s[i].width)
    && (forall j :: i < j < |s| ==> s[j].width < s[i].width)
  }

  /**
   * The index findIndexWidestTowerBlock returns: -1 for an empty stack,
   * otherwise the topmost block of the greatest width.
   */
  function TopmostWidest(s: seq<TowerBlock>): (i: int)
    ensures s == [] ==> i == -1
    ensures s != [] ==> IsTopmostWidest(s, i)
  {
    if |s| == 0 then -1
    else if |s| == 1 then 0
    else
      var below := TopmostWidest(s[..|s| - 1]);
      if s[below].width > Top(s).width then below else |s| - 1
  }

  /** At most one index is the topmost widest one. */
  lemma TopmostWidestUnique(s: seq<TowerBlock>, i: int)
    requires IsTopmostWidest(s, i)
    ensures i == TopmostWidest(s)
  {
  }

  /** The width findIndicesWidestTowerBlock compares: the largest width on the peg, 0 for an empty peg. */
  function MaxWidth(s: seq<TowerBlock>): (m: int)
    ensures s == [] ==> m == 0
    ensures forall j :: 0 <= j < |s| ==> s[j].width <= m
    ensures s != [] ==> exists j :: 0 <= j < |s| && s[j].width == m
  {
    if s == [] then 0 else s[TopmostWidest(s)].width
  }

  /** The result of findIndicesWidestTowerBlock: a peg (0 or 1) and a block index in it. */
  datatype Selection = Selection(peg: nat, index: int)

  /**
   * findIndicesWidestTowerBlock: peg 0 only when its widest block is strictly
   * wider than peg 1's. The result is peg 0 or 1 and an index into it, -1
   * exactly when that peg is empty.
   */
  function Select(p: Stacks): (c: Selection)
    requires WellFormed(p)
    ensures c.peg < 2 && -1 <= c.index < |p[c.peg]|
    ensures c.index == -1 <==> p[c.peg] == []
  {
    if MaxWidth(p[0]) > MaxWidth(p[1]) then Selection(0, TopmostWidest(p[0]))
    else Selection(1, TopmostWidest(p[1]))
  }

  /**
   * The selection names a widest block of pegs 0 and 1 together, topmost in
   * its peg; ties between the pegs go to peg 1, and two empty pegs give (1, -1).
   */
  lemma SelectWidest(p: Stacks)
    requires WellFormed(p) && Placed(p)
    ensures var c := Select(p);
      && c.peg < 2 && -1 <= c.index < |p[c.peg]|
      && (c.peg == 0 <==> MaxWidth(p[0]) > MaxWidth(p[1]))
      && (p[0] == [] && p[1] == [] ==> c == Selection(1, -1))
      && (p[0] != [] || p[1] != [] ==>
            && IsTopmostWidest(p[c.peg], c.index)
            && p[c.peg][c.index].width == Max(MaxWidth(p[0]), MaxWidth(p[1]))
            && forall k, j :: 0 <= k < 2 && 0 <= j < |p[k]| ==> p[k][j].width <= p[c.peg][c.index].width)
  {
  }

  // ---------------------------------------------------------------------------
  // The heuristic step (moveWidestTowerBlockTo3rdStack) and the driver

  /** The first n shuttle moves: each takes the top of peg w to the other of pegs 0 and 1. */
  function Shuttle(p: Stacks, w: nat, n: nat): (r: Stacks)
    requires WellFormed(p) && w < 2 && n <= |p[w]|
    ensures WellFormed(r) && |r[w]| == |p[w]| - n
  {
    if n == 0 then p else Move(Shuttle(p, w, n - 1), w, 1 - w)
  }

  /**
   * Shuttling n blocks leaves peg w's bottom part as it was, puts n blocks on
   * the other working peg above its old stack, and does not touch peg 2.
   */
  lemma {:induction false} ShuttleEffect(p: Stacks, w: nat, n: nat)
    requires WellFormed(p) && w < 2 && n <= |p[w]|
    ensures var r := Shuttle(p, w, n);
      && r[w] == p[w][..|p[w]| - n]
      && |r[1 - w]| == |p[1 - w]| + n && r[1 - w][..|p[1 - w]|] == p[1 - w]
      && r[2] == p[2]
  {
    if n == 0 {
      assert p[w][..|p[w]|] == p[w];
      assert p[1 - w][..|p[1 - w]|] == p[1 - w];
    } else {
      ShuttleEffect(p, w, n - 1);
      var q := Shuttle(p, w, n - 1);
      MoveEffect(q, w, 1 - w);
      var r := Move(q, w, 1 - w);
      assert r[w] == q[w][..|q[w]| - 1] == p[w][..|p[w]| - n];
      assert r[1 - w][..|p[1 - w]|] == r[1 - w][..|q[1 - w]|][..|p[1 - w]|];
    }
  }

  /** Shuttling leaves every block in its proper slot. */
  lemma {:induction false} ShuttlePlaced(p: Stacks, w: nat, n: nat)
    requires WellFormed(p) && w < 2 && n <= |p[w]| && Placed(p)
    ensures Placed(Shuttle(p, w, n))
  {
    if n > 0 {
      ShuttlePlaced(p, w, n - 1);
      MovePlaced(Shuttle(p, w, n - 1), w, 1 - w);
    }
  }

  /** Shuttling keeps every block. */
  lemma {:induction false} ShuttleConserves(p: Stacks, w: nat, n: nat)
    requires WellFormed(p) && w < 2 && n <= |p[w]|
    ensures Widths(Shuttle(p, w, n)) == Widths(p)
  {
    if n > 0 {
      ShuttleConserves(p, w, n - 1);
      var q := Shuttle(p, w, n - 1);
      MoveConserves(q, w, 1 - w);
    }
  }

  /** What one heuristic step leaves behind: the pegs, the moves it made, and whether its last move succeeded. */
  datatype StepOutcome = StepOutcome(pegs: Stacks, moves: nat, delivered: bool)

  /**
   * moveWidestTowerBlockTo3rdStack with its callbacks run in the order they
   * were scheduled: select, shuttle the blocks above the selected one to the
   * other working peg, then move the top of the selected peg to peg 2. When
   * that peg is empty, the final move throws and changes nothing.
   */
  function Step(p: Stacks): (o: StepOutcome)
    requires WellFormed(p)
    ensures WellFormed(o.pegs)
  {
    var c := Select(p);
    var w := c.peg;
    var shuttles := |p[w]| - 1 - c.index;
    var q := Shuttle(p, w, shuttles);
    if q[w] == [] then StepOutcome(q, shuttles, false)
    else StepOutcome(Move(q, w, 2), shuttles + 1, true)
  }

  /**
   * A step is its shuttle moves followed by one move to peg 2, which goes
   * through exactly when the selected peg still holds a block.
   */
  lemma StepFinish(p: Stacks, q: Stacks, r: Stacks, ok: bool)
    requires WellFormed(p) && Select(p).peg < 2 && -1 <= Select(p).index < |p[Select(p).peg]|
    requires q == Shuttle(p, Select(p).peg, |p[Select(p).peg]| - 1 - Select(p).index)
    requires ok <==> q[Select(p).peg] != []
    requires r == if ok then Move(q, Select(p).peg, 2) else q
    ensures Step(p) == StepOutcome(r, |p[Select(p).peg]| - 1 - Select(p).index + (if ok then 1 else 0), ok)
  {
  }

  /** A step keeps every block: the multiset of widths, and so the number of blocks. */
  lemma StepConserves(p: Stacks)
    requires WellFormed(p)
    ensures Widths(Step(p).pegs) == Widths(p)
    ensures Total(Step(p).pegs) == Total(p)
  {
    var c := Select(p);
    var w := c.peg;
    var shuttles := |p[w]| - 1 - c.index;
    ShuttleConserves(p, w, shuttles);
    var q := Shuttle(p, w, shuttles);
    if q[w] != [] {
      assert Step(p).pegs == Move(q, w, 2);
      MoveConserves(q, w, 2);
    } else {
      assert Step(p).pegs == q;
    }
    TotalIsWidthCount(p);
    TotalIsWidthCount(Step(p).pegs);
  }

  /** A step leaves every block in its proper slot. */
  lemma StepPlaced(p: Stacks)
    requires WellFormed(p) && Placed(p)
    ensures Placed(Step(p).pegs)
  {
    var c := Select(p);
    var w := c.peg;
    var shuttles := |p[w]| - 1 - c.index;
    ShuttlePlaced(p, w, shuttles);
    var q := Shuttle(p, w, shuttles);
    if q[w] != [] {
      MovePlaced(q, w, 2);
    }
  }

  /** Blocks of positive width make a non-empty peg win over an empty one. */
  lemma SelectNonEmpty(p: Stacks)
    requires WellFormed(p) && Placed(p)
    ensures p[0] != [] || p[1] != [] ==> p[Select(p).peg] != []
  {
    if p[0] != [] && p[1] == [] {
      assert BlockAt(p[0][TopmostWidest(p[0])], 0, TopmostWidest(p[0]));
    }
  }

  /**
   * A step moves one block from pegs 0 and 1 onto peg 2, after exactly as
   * many shuttle moves as there are blocks above the selected one; it fails,
   * changing nothing, exactly when pegs 0 and 1 are both empty.
   */
  lemma StepDelivers(p: Stacks)
    requires WellFormed(p) && Placed(p)
    ensures var o := Step(p); var c := Select(p);
      && (o.delivered <==> p[0] != [] || p[1] != [])
      && (!o.delivered ==> o.pegs == p && o.moves == 0)
      && (o.delivered ==>
            && o.moves == (|p[c.peg]| - 1 - c.index) + 1
            && |o.pegs[0]| + |o.pegs[1]| == |p[0]| + |p[1]| - 1
            && |o.pegs[2]| == |p[2]| + 1 && o.pegs[2][..|p[2]|] == p[2])
  {
    var c := Select(p);
    var w := c.peg;
    SelectNonEmpty(p);
    var shuttles := |p[w]| - 1 - c.index;
    ShuttleEffect(p, w, shuttles);
    var q := Shuttle(p, w, shuttles);
    if q[w] != [] {
      MoveEffect(q, w, 2);
      assert Step(p) == StepOutcome(Move(q, w, 2), shuttles + 1, true);
    } else {
      assert Step(p) == StepOutcome(q, shuttles, false);
    }
  }

  /**
   * The block a step delivers to peg 2 is a widest block of pegs 0 and 1
   * taken together, and it came from one of them.
   */
  lemma StepDeliversWidest(p: Stacks)
    requires WellFormed(p) && Placed(p) && (p[0] != [] || p[1] != [])
    ensures Step(p).delivered
    ensures var top := Top(Step(p).pegs[2]);
      && top.width == Max(MaxWidth(p[0]), MaxWidth(p[1]))
      && (forall k, j :: 0 <= k < 2 && 0 <= j < |p[k]| ==> p[k][j].width <= top.width)
      && exists k, j :: 0 <= k < 2 && 0 <= j < |p[k]| && p[k][j].width == top.width
  {
    var c := Select(p);
    var w := c.peg;
    SelectWidest(p);
    var shuttles := |p[w]| - 1 - c.index;
    ShuttleEffect(p, w, shuttles);
    var q := Shuttle(p, w, shuttles);
    assert Top(q[w]) == p[w][c.index];
    MoveEffect(q, w, 2);
    assert p[w][c.index].width == Top(Step(p).pegs[2]).width;
  }

  // ---------------------------------------------------------------------------
  // The order on peg 2

  /** Widths never grow going up the stack: its widest block is at the bottom. */
  predicate Descending(s: seq<TowerBlock>) {
    forall i, j :: 0 <= i < j < |s| ==> s[j].width <= s[i].width
  }

  /** No block still waiting on pegs 0 and 1 is wider than the top of peg 2. */
  predicate WaitingNotWider(p: Stacks)
    requires WellFormed(p)
  {
    p[2] != [] ==> forall k, j :: 0 <= k < 2 && 0 <= j < |p[k]| ==> p[k][j].width <= Top(p[2]).width
  }

  /** Peg 2 narrows going up, and whatever is still to come is no wider than its top. */
  predicate Ordered(p: Stacks)
    requires WellFormed(p)
  {
    Descending(p[2]) && WaitingNotWider(p)
  }

  /** Every block of a stack contributes its width. */
  lemma {:induction false} WidthInStackWidths(s: seq<TowerBlock>, j: int)
    requires 0 <= j < |s|
    ensures s[j].width in StackWidths(s)
  {
    if j < |s| - 1 {
      WidthInStackWidths(s[..|s| - 1], j);
    }
  }

  /**
   * After a delivery, the widths left on pegs 0 and 1 are those they held
   * before, less the delivered one.
   */
  lemma StepWaitingWidths(p: Stacks)
    requires WellFormed(p) && Placed(p) && (p[0] != [] || p[1] != [])
    ensures var o := Step(p).pegs;
      |o[2]| == |p[2]| + 1 &&
      StackWidths(o[0]) + StackWidths(o[1]) + multiset{Top(o[2]).width} == StackWidths(p[0]) + StackWidths(p[1])
  {
    var o := Step(p).pegs;
    StepDelivers(p);
    StepConserves(p);
    assert o[2] == p[2] + [Top(o[2])];
    StackWidthsPush(p[2], Top(o[2]));
    Cancel(StackWidths(o[0]) + StackWidths(o[1]) + multiset{Top(o[2]).width},
           StackWidths(p[0]) + StackWidths(p[1]), StackWidths(p[2]));
  }

  /** A step keeps peg 2 in order: it delivers a block no wider than what it lands on, and the widest of those still to come. */
  lemma StepOrdered(p: Stacks)
    requires WellFormed(p) && Placed(p) && Ordered(p)
    ensures Ordered(Step(p).pegs)
  {
    StepDelivers(p);
    if p[0] != [] || p[1] != [] {
      StepDeliversWidest(p);
      StepWaitingWidths(p);
      DeliveryOrdered(p, Step(p).pegs);
    }
  }

  /**
   * Putting on top of peg 2 a widest block of pegs 0 and 1, taken from
   * them, keeps the order.
   */
  lemma DeliveryOrdered(p: Stacks, o: Stacks)
    requires WellFormed(p) && WellFormed(o) && Ordered(p)
    requires |o[2]| == |p[2]| + 1 && o[2][..|p[2]|] == p[2]
    requires forall k, j :: 0 <= k < 2 && 0 <= j < |p[k]| ==> p[k][j].width <= Top(o[2]).width
    requires exists k, j :: 0 <= k < 2 && 0 <= j < |p[k]| && p[k][j].width == Top(o[2]).width
    requires StackWidths(o[0]) + StackWidths(o[1]) + multiset{Top(o[2]).width} == StackWidths(p[0]) + StackWidths(p[1])
    ensures Ordered(o)
  {
    var b := Top(o[2]);
    assert o[2] == p[2] + [b];
    if p[2] != [] {
      var k, j :| 0 <= k < 2 && 0 <= j < |p[k]| && p[k][j].width == b.width;
      assert b.width <= Top(p[2]).width;
    }
    PushDescending(p[2], b);
    WaitingBounded(p[0], p[1], o[0], o[1], b.width);
  }

  /** Pushing a block no wider than the top keeps a stack narrowing going up. */
  lemma PushDescending(s: seq<TowerBlock>, b: TowerBlock)
    requires Descending(s) && (s != [] ==> b.width <= Top(s).width)
    ensures Descending(s + [b])
  {
  }

  /**
   * Stacks whose widths, together with one more, are those of two stacks
   * bounded by m, are themselves bounded by m.
   */
  lemma WaitingBounded(s0: seq<TowerBlock>, s1: seq<TowerBlock>, t0: seq<TowerBlock>, t1: seq<TowerBlock>, m: int)
    requires forall j :: 0 <= j < |s0| ==> s0[j].width <= m
    requires forall j :: 0 <= j < |s1| ==> s1[j].width <= m
    requires StackWidths(t0) + StackWidths(t1) + multiset{m} == StackWidths(s0) + StackWidths(s1)
    ensures forall j :: 0 <= j < |t0| ==> t0[j].width <= m
    ensures forall j :: 0 <= j < |t1| ==> t1[j].width <= m
  {
    BoundedWidths(s0, m);
    BoundedWidths(s1, m);
    PartBounded(StackWidths(t0), StackWidths(t1) + multiset{m}, StackWidths(s0), StackWidths(s1), m);
    PartBounded(StackWidths(t1), StackWidths(t0) + multiset{m}, StackWidths(s0), StackWidths(s1), m);
    WidthsBounded(t0, m);
    WidthsBounded(t1, m);
  }

  /** Part of a union of two multisets bounded by m is bounded by m. */
  lemma PartBounded(a: multiset<int>, rest: multiset<int>, c0: multiset<int>, c1: multiset<int>, m: int)
    requires a + rest == c0 + c1
    requires forall x :: x in c0 ==> x <= m
    requires forall x :: x in c1 ==> x <= m
    ensures forall x :: x in a ==> x <= m
  {
    forall x | x in a
      ensures x <= m
    {
      assert x in c0 + c1;
    }
  }

  /** A bound on every block of a stack bounds every width in its multiset. */
  lemma {:induction false} BoundedWidths(s: seq<TowerBlock>, m: int)
    requires forall j :: 0 <= j < |s| ==> s[j].width <= m
    ensures forall x :: x in StackWidths(s) ==> x <= m
  {
    if s != [] {
      BoundedWidths(s[..|s| - 1], m);
    }
  }

  /** A bound on every width in the multiset of a stack bounds each of its blocks. */
  lemma {:induction false} WidthsBounded(s: seq<TowerBlock>, m: int)
    requires forall x :: x in StackWidths(s) ==> x <= m
    ensures forall j :: 0 <= j < |s| ==> s[j].width <= m
  {
    forall j | 0 <= j < |s|
      ensures s[j].width <= m
    {
      WidthInStackWidths(s, j);
    }
  }

  /** The pegs and the move count after some number of steps. */
  datatype RunOutcome = RunOutcome(pegs: Stacks, moves: nat)

  // The driver is stated over any step function rather than over Step itself,
  // so that each induction below sees only the one property of a step it
  // carries, and never Step's body.

  /** A step that accepts every three-peg state and leaves three pegs. */
  ghost predicate KeepsThreePegs(step: Stacks --> StepOutcome) {
    forall q {:trigger step.requires(q)} :: WellFormed(q) ==> step.requires(q) && WellFormed(step(q).pegs)
  }

  /** k applications of a step, one after the other, adding up the moves each one makes. */
  function Repeat(step: Stacks --> StepOutcome, p: Stacks, k: nat): (o: RunOutcome)
    requires KeepsThreePegs(step) && WellFormed(p)
    ensures WellFormed(o.pegs)
  {
    if k == 0 then RunOutcome(p, 0)
    else
      var before := Repeat(step, p, k - 1);
      var last := step(before.pegs);
      RunOutcome(last.pegs, before.moves + last.moves)
  }

  /**
   * solveTowerOfFanoi: k heuristic steps in a row. A step that fails changes
   * nothing and does not stop the ones after it, each step being a callback
   * of its own.
   */
  function Run(p: Stacks, k: nat): (o: RunOutcome)
    requires WellFormed(p)
    ensures WellFormed(o.pegs)
  {
    Repeat(Step, p, k)
  }

  /** k + 1 steps are k steps followed by one more. */
  lemma RunStep(p: Stacks, k: nat)
    requires WellFormed(p)
    ensures var before := Run(p, k); var last := Step(before.pegs);
      Run(p, k + 1) == RunOutcome(last.pegs, before.moves + last.moves)
  {
  }

  /** A step moves one block from pegs 0 and 1 to the top of peg 2 unless both are empty, and makes a move to do so. */
  lemma StepCounts(p: Stacks)
    requires WellFormed(p) && Placed(p)
    ensures CollectsOne(p, Step(p))
  {
    StepDelivers(p);
    if !Step(p).delivered {
      assert p[2][..|p[2]|] == p[2];
    }
  }

  /** A step that keeps every block of a placed state in its proper slot. */
  ghost predicate KeepsPlaced(step: Stacks --> StepOutcome)
    requires KeepsThreePegs(step)
  {
    forall q {:trigger step(q)} :: WellFormed(q) && Placed(q) ==> Placed(step(q).pegs)
  }

  /** A step that neither loses nor invents a block. */
  ghost predicate KeepsWidths(step: Stacks --> StepOutcome)
    requires KeepsThreePegs(step)
  {
    forall q {:trigger step(q)} :: WellFormed(q) ==> Widths(step(q).pegs) == Widths(q)
  }

  /** The step moved one block of pegs 0 and 1 to the top of peg 2, if there was one, making a move to do so. */
  ghost predicate CollectsOne(q: Stacks, o: StepOutcome)
    requires WellFormed(q) && WellFormed(o.pegs)
  {
    var n := |q[0]| + |q[1]|;
    && |o.pegs[0]| + |o.pegs[1]| == (if n > 0 then n - 1 else 0)
    && |o.pegs[2]| == |q[2]| + (if n > 0 then 1 else 0)
    && o.pegs[2][..|q[2]|] == q[2]
    && o.moves >= (if n > 0 then 1 else 0)
  }

  /** A step that collects one block from every placed state. */
  ghost predicate AlwaysCollectsOne(step: Stacks --> StepOutcome)
    requires KeepsThreePegs(step)
  {
    forall q {:trigger step(q)} :: WellFormed(q) && Placed(q) ==> CollectsOne(q, step(q))
  }

  /** A step that keeps a placed state in order. */
  ghost predicate KeepsOrdered(step: Stacks --> StepOutcome)
    requires KeepsThreePegs(step)
  {
    forall q {:trigger step(q)} :: WellFormed(q) && Placed(q) && Ordered(q) ==> Ordered(step(q).pegs)
  }

  /** The heuristic step accepts every three-peg state and leaves three pegs. */
  lemma StepKeepsThreePegs()
    ensures KeepsThreePegs(Step)
  {
    forall q | WellFormed(q)
      ensures Step.requires(q) && WellFormed(Step(q).pegs)
    {
    }
  }

  /** The heuristic step keeps every block of a placed state in its slot. */
  lemma StepKeepsPlaced()
    ensures KeepsThreePegs(Step) && KeepsPlaced(Step)
  {
    StepKeepsThreePegs();
    forall q | WellFormed(q) && Placed(q)
      ensures Placed(Step(q).pegs)
    {
      StepPlaced(q);
    }
  }

  /** The heuristic step neither loses nor invents a block. */
  lemma StepKeepsWidths()
    ensures KeepsThreePegs(Step) && KeepsWidths(Step)
  {
    StepKeepsThreePegs();
    forall q | WellFormed(q)
      ensures Widths(Step(q).pegs) == Widths(q)
    {
      StepConserves(q);
    }
  }

  /** The heuristic step collects one block from every placed state. */
  lemma StepAlwaysCollectsOne()
    ensures KeepsThreePegs(Step) && AlwaysCollectsOne(Step)
  {
    StepKeepsThreePegs();
    forall q | WellFormed(q) && Placed(q)
      ensures CollectsOne(q, Step(q))
    {
      StepCounts(q);
    }
  }

  /** The heuristic step keeps a placed state in order. */
  lemma StepKeepsOrdered()
    ensures KeepsThreePegs(Step) && KeepsOrdered(Step)
  {
    StepKeepsThreePegs();
    forall q | WellFormed(q) && Placed(q) && Ordered(q)
      ensures Ordered(Step(q).pegs)
    {
      StepOrdered(q);
    }
  }

  /** Repeating a step that keeps blocks in their slots keeps every block in its slot. */
  lemma {:induction false} RepeatPlaced(step: Stacks --> StepOutcome, p: Stacks, k: nat)
    requires KeepsThreePegs(step) && KeepsPlaced(step) && WellFormed(p) && Placed(p)
    ensures Placed(Repeat(step, p, k).pegs)
  {
    if k > 0 {
      RepeatPlaced(step, p, k - 1);
    }
  }

  /** Repeating a step that keeps every block keeps every block. */
  lemma {:induction false} RepeatWidths(step: Stacks --> StepOutcome, p: Stacks, k: nat)
    requires KeepsThreePegs(step) && KeepsWidths(step) && WellFormed(p)
    ensures Widths(Repeat(step, p, k).pegs) == Widths(p)
  {
    if k > 0 {
      RepeatWidths(step, p, k - 1);
    }
  }

  /**
   * Repeating a step that collects one block k times collects min(k, n)
   * blocks, where n is the number on pegs 0 and 1, with at least one move each.
   */
  lemma {:induction false} RepeatCollects(step: Stacks --> StepOutcome, p: Stacks, k: nat)
    requires KeepsThreePegs(step) && KeepsPlaced(step) && AlwaysCollectsOne(step)
    requires WellFormed(p) && Placed(p)
    ensures var o := Repeat(step, p, k); var n := |p[0]| + |p[1]|;
      && |o.pegs[0]| + |o.pegs[1]| == (if k < n then n - k else 0)
      && |o.pegs[2]| == |p[2]| + (if k < n then k else n)
      && o.moves >= (if k < n then k else n)
  {
    if k > 0 {
      RepeatCollects(step, p, k - 1);
      RepeatPlaced(step, p, k - 1);
      var before := Repeat(step, p, k - 1);
      assert CollectsOne(before.pegs, step(before.pegs));
    }
  }

  /** Repeating a step that keeps a placed state in order keeps it in order. */
  lemma {:induction false} RepeatOrdered(step: Stacks --> StepOutcome, p: Stacks, k: nat)
    requires KeepsThreePegs(step) && KeepsPlaced(step) && KeepsOrdered(step)
    requires WellFormed(p) && Placed(p) && Ordered(p)
    ensures Ordered(Repeat(step, p, k).pegs)
  {
    if k > 0 {
      RepeatOrdered(step, p, k - 1);
      RepeatPlaced(step, p, k - 1);
    }
  }

  /** Repeating a step that collects one block never disturbs what peg 2 held. */
  lemma {:induction false} RepeatKeepsBottom(step: Stacks --> StepOutcome, p: Stacks, k: nat)
    requires KeepsThreePegs(step) && KeepsPlaced(step) && AlwaysCollectsOne(step)
    requires WellFormed(p) && Placed(p)
    ensures |Repeat(step, p, k).pegs[2]| >= |p[2]|
    ensures Repeat(step, p, k).pegs[2][..|p[2]|] == p[2]
  {
    if k == 0 {
      assert p[2][..|p[2]|] == p[2];
    } else {
      RepeatKeepsBottom(step, p, k - 1);
      RepeatPlaced(step, p, k - 1);
      var before := Repeat(step, p, k - 1);
      var last := step(before.pegs);
      assert CollectsOne(before.pegs, last);
      assert last.pegs[2][..|p[2]|] == last.pegs[2][..|before.pegs[2]|][..|p[2]|];
    }
  }

  /**
   * k steps deliver min(k, n) blocks to peg 2, where n is the number of
   * blocks on pegs 0 and 1, keep what peg 2 held at its bottom, keep every
   * block in its slot and make at least one move per delivered block.
   */
  lemma RunCollects(p: Stacks, k: nat)
    requires WellFormed(p) && Placed(p)
    ensures var o := Run(p, k); var n := |p[0]| + |p[1]|;
      && Placed(o.pegs) && Widths(o.pegs) == Widths(p)
      && |o.pegs[0]| + |o.pegs[1]| == (if k < n then n - k else 0)
      && |o.pegs[2]| == |p[2]| + (if k < n then k else n)
      && o.pegs[2][..|p[2]|] == p[2]
      && o.moves >= (if k < n then k else n)
  {
    StepKeepsPlaced();
    StepKeepsWidths();
    StepAlwaysCollectsOne();
    RepeatPlaced(Step, p, k);
    RepeatWidths(Step, p, k);
    RepeatCollects(Step, p, k);
    RepeatKeepsBottom(Step, p, k);
  }

  /**
   * From an ordered state, any number of steps keeps peg 2 narrowing going
   * up, with nothing left on pegs 0 and 1 wider than its top.
   */
  lemma RunOrdered(p: Stacks, k: nat)
    requires WellFormed(p) && Placed(p) && Ordered(p)
    ensures Ordered(Run(p, k).pegs)
  {
    StepKeepsPlaced();
    StepKeepsOrdered();
    RepeatOrdered(Step, p, k);
  }

  /** With pegs 0 and 1 empty, every step fails and nothing moves. */
  lemma {:induction false} RunIdle(p: Stacks, k: nat)
    requires WellFormed(p) && p[0] == [] && p[1] == []
    ensures Run(p, k) == RunOutcome(p, 0)
  {
    if k > 0 {
      RunIdle(p, k - 1);
      assert Select(p) == Selection(1, -1);
    }
  }

  /**
   * The program's run: from the initial layout of at most ten blocks, the
   * ten steps leave pegs 0 and 1 empty and every block on peg 2, the widest
   * at the bottom, having moved at least once per block; with no blocks
   * nothing moves.
   */
  lemma SolveFromLayout(count: int, draws: seq<int>)
    requires 0 <= count <= ITERATIONS && count <= |draws| && DrawsInRange(draws)
    ensures var p := Layout(count, draws); var o := Run(p, ITERATIONS);
      && o.pegs[0] == [] && o.pegs[1] == [] && |o.pegs[2]| == count
      && StackWidths(o.pegs[2]) == StackWidths(p[0])
      && Descending(o.pegs[2])
      && o.moves >= count
      && (count == 0 ==> o.moves == 0)
  {
    var p := Layout(count, draws);
    RunCollects(p, ITERATIONS);
    RunOrdered(p, ITERATIONS);
    var o := Run(p, ITERATIONS);
    assert o.pegs[0] == [] && o.pegs[1] == [];
    assert Widths(o.pegs) == StackWidths(o.pegs[2]);
    assert Widths(p) == StackWidths(p[0]);
    if count == 0 {
      RunIdle(p, ITERATIONS);
    }
  }
}
