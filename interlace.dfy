/**
 * The row order of an interlaced GIF raster (Appendix E of the GIF89a
 * specification): four passes starting at rows 0, 4, 2, 1 and stepping by
 * 8, 8, 4, 2 rows. The raster stores the rows in pass order; `Order(h)` is
 * the destination row of each stored row and `Rank(h, y)` the stored
 * position of destination row `y`.
 */
module Interlace {
  import opened Base


  /** First row of pass `z`: 0, 4, 2, 1. */
  function PassOffset(z: nat): nat
  {
    if z == 0 then 0 else if z == 1 then 4 else if z == 2 then 2 else 1
  }

  /** Rows between two steps of pass `z`: 8, 8, 4, 2. */
  function PassJump(z: nat): (jump: nat)
    ensures jump > 0
  {
    if z == 0 then 8 else if z == 1 then 8 else if z == 2 then 4 else 2
  }

  /** Rows offset, offset + jump, offset + 2 * jump, ... that lie below `height`. */
  function PassRows(offset: nat, jump: nat, height: nat): seq<nat>
    requires jump > 0
    decreases height - offset
  {
    if offset >= height then [] else [offset] + PassRows(offset + jump, jump, height)
  }

  /** The rows visited by pass `z` (0 to 3). */
  function Pass(z: nat, height: nat): seq<nat>
    requires z < 4
  {
    PassRows(PassOffset(z), PassJump(z), height)
  }

  /** Destination rows in the order the interlaced raster stores them. */
  function Order(height: nat): seq<nat>
  {
    Pass(0, height) + Pass(1, height) + Pass(2, height) + Pass(3, height)
  }

  /** Number of rows stored by the passes before pass `z`. */
  function PassStart(z: nat, height: nat): nat
    requires z <= 4
  {
    var l0, l1, l2 := |Pass(0, height)|, |Pass(1, height)|, |Pass(2, height)|;
    if z == 0 then 0
    else if z == 1 then l0
    else if z == 2 then l0 + l1
    else if z == 3 then l0 + l1 + l2
    else l0 + l1 + l2 + |Pass(3, height)|
  }

  /** Position in the interlaced raster of destination row `row`. */
  function Rank(height: nat, row: nat): nat
    requires row < height
  {
    PassStart(PassOf(row), height) + StepOf(row)
  }

  lemma {:induction false} PassRowsAt(offset: nat, jump: nat, height: nat, i: nat)
    requires jump > 0 && i < |PassRows(offset, jump, height)|
    ensures PassRows(offset, jump, height)[i] == offset + i * jump < height
    decreases i
  {
    if i > 0 {
      PassRowsAt(offset + jump, jump, height, i - 1);
    }
  }

  lemma {:induction false} PassRowsHas(offset: nat, jump: nat, height: nat, i: nat)
    requires jump > 0 && offset + i * jump < height
    ensures i < |PassRows(offset, jump, height)|
    ensures PassRows(offset, jump, height)[i] == offset + i * jump
    decreases i
  {
    if i > 0 {
      PassRowsHas(offset + jump, jump, height, i - 1);
    }
  }

  /** A pass stops at the first multiple of its jump that reaches `height`. */
  lemma {:induction false} PassRowsLength(offset: nat, jump: nat, height: nat)
    requires jump > 0
    ensures offset + |PassRows(offset, jump, height)| * jump >= height
    ensures |PassRows(offset, jump, height)| > 0 ==> offset + (|PassRows(offset, jump, height)| - 1) * jump < height
    decreases height - offset
  {
    if offset < height {
      PassRowsLength(offset + jump, jump, height);
    }
  }

  /** A pass that has not run past `height` visits `offset` and then continues one jump further. */
  lemma {:induction false} PassRowsStep(offset: nat, jump: nat, height: nat)
    requires jump > 0 && offset < height
    ensures PassRows(offset, jump, height)[0] == offset
    ensures PassRows(offset, jump, height)[1..] == PassRows(offset + jump, jump, height)
  {
  }

  /** Stored position PassStart(z) + i holds step i of pass z. */
  lemma OrderAtPass(height: nat, z: nat, i: nat)
    requires z < 4 && i < |Pass(z, height)|
    ensures PassStart(z, height) + i < |Order(height)|
    ensures Order(height)[PassStart(z, height) + i] == Pass(z, height)[i]
  {
    var p0, p1, p2, p3 := Pass(0, height), Pass(1, height), Pass(2, height), Pass(3, height);
    assert Order(height) == p0 + p1 + p2 + p3;
  }

  lemma OrderLengthIsPassStart(height: nat)
    ensures |Order(height)| == PassStart(4, height)
  {
  }

  lemma PassStartNext(z: nat, height: nat)
    requires z < 4
    ensures PassStart(z + 1, height) == PassStart(z, height) + |Pass(z, height)|
  {
  }

  /** Pass lengths in closed form. */
  lemma PassLengths(height: nat)
    ensures |Pass(0, height)| == (height + 7) / 8
    ensures |Pass(1, height)| == if height <= 4 then 0 else (height + 3) / 8
    ensures |Pass(2, height)| == if height <= 2 then 0 else (height + 1) / 4
    ensures |Pass(3, height)| == height / 2
  {
    PassRowsLength(0, 8, height);
    PassRowsLength(4, 8, height);
    PassRowsLength(2, 4, height);
    PassRowsLength(1, 2, height);
  }

  /** The four passes together store exactly `height` rows. */
  lemma OrderLength(height: nat)
    ensures |Order(height)| == height
  {
    PassLengths(height);
    var q, r := height / 8, height % 8;
    assert height == 8 * q + r;
    assert (height + 7) / 8 == q + (if r > 0 then 1 else 0);
    assert (if height <= 4 then 0 else (height + 3) / 8) == q + (if r > 4 then 1 else 0);
    assert (if height <= 2 then 0 else (height + 1) / 4) == 2 * q + (if r > 6 then 2 else if r > 2 then 1 else 0);
    assert height / 2 == 4 * q + r / 2;
  }

  /** Destination row `row` is stored at position Rank(height, row). */
  lemma OrderAtRank(height: nat, row: nat)
    requires row < height
    ensures Rank(height, row) < |Order(height)|
    ensures Order(height)[Rank(height, row)] == row
  {
    var z, i := PassOf(row), StepOf(row);
    PassStepOf(row);
    PassRowsHas(PassOffset(z), PassJump(z), height, i);
    OrderAtPass(height, z, i);
  }

  /** The pass that visits `row`. */
  function PassOf(row: nat): (z: nat)
    ensures z < 4
  {
    if row % 8 == 0 then 0 else if row % 8 == 4 then 1 else if row % 4 == 2 then 2 else 3
  }

  /** The step of its pass at which `row` is visited. */
  function StepOf(row: nat): nat
  {
    row / PassJump(PassOf(row))
  }

  lemma PassStepOf(row: nat)
    ensures row == PassOffset(PassOf(row)) + StepOf(row) * PassJump(PassOf(row))
  {
    if row % 8 == 0 {
      assert row == 0 + (row / 8) * 8;
    } else if row % 8 == 4 {
      assert row == 4 + (row / 8) * 8;
    } else if row % 4 == 2 {
      assert row == 2 + (row / 4) * 4;
    } else {
      assert row == 1 + (row / 2) * 2;
    }
  }

  /** Position `k` of the interlaced raster is step `i` of pass `z`. */
  lemma PositionInPass(height: nat, k: nat) returns (z: nat, i: nat)
    requires k < |Order(height)|
    ensures z < 4 && i < |Pass(z, height)| && k == PassStart(z, height) + i
  {
    OrderLengthIsPassStart(height);
    if k < PassStart(1, height) {
      z := 0;
    } else if k < PassStart(2, height) {
      z := 1;
    } else if k < PassStart(3, height) {
      z := 2;
    } else {
      z := 3;
    }
    PassStartNext(z, height);
    i := k - PassStart(z, height);
  }

  /** Every stored row is a destination row, and its rank is its position. */
  lemma RankAtOrder(height: nat, k: nat)
    requires k < |Order(height)|
    ensures Order(height)[k] < height
    ensures Rank(height, Order(height)[k]) == k
  {
    var z, i := PositionInPass(height, k);
    PassRowsAt(PassOffset(z), PassJump(z), height, i);
    OrderAtPass(height, z, i);
    PassOfStep(z, i);
  }

  /** Step `i` of pass `z` visits a row whose pass is `z` and whose step is `i`. */
  lemma PassOfStep(z: nat, i: nat)
    requires z < 4
    ensures PassOf(PassOffset(z) + i * PassJump(z)) == z
    ensures StepOf(PassOffset(z) + i * PassJump(z)) == i
  {
    var row := PassOffset(z) + i * PassJump(z);
    if z == 0 {
      DivModOf(row, 8, i, 0);
    } else if z == 1 {
      DivModOf(row, 8, i, 4);
    } else if z == 2 {
      DivModOf(row, 8, i / 2, 2 + 4 * (i % 2));
      DivModOf(row, 4, i, 2);
    } else {
      DivModOf(row, 8, i / 4, 2 * (i % 4) + 1);
      DivModOf(row, 4, i / 2, 2 * (i % 2) + 1);
      DivModOf(row, 2, i, 1);
    }
  }

  /**
   * The four passes write every destination row below `height` exactly
   * once: row `row` is stored at position Rank(height, row) and nowhere else.
   */
  lemma EveryRowStoredOnce(height: nat, row: nat)
    requires row < height
    ensures |Order(height)| == height && Rank(height, row) < height
    ensures forall k :: 0 <= k < height ==> (Order(height)[k] == row <==> k == Rank(height, row))
  {
    OrderLength(height);
    OrderAtRank(height, row);
    forall k | 0 <= k < height
      ensures Order(height)[k] == row <==> k == Rank(height, row)
    {
      RankAtOrder(height, k);
    }
  }

  /** The destination row of the `k`-th row stored in an interlaced raster. */
  function StoredRow(height: nat, k: nat): (row: nat)
    requires k < height
    ensures row < height && Rank(height, row) == k
  {
    OrderLength(height);
    RankAtOrder(height, k);
    Order(height)[k]
  }

  /** Rank is a bijection on the rows below `height`; StoredRow is its inverse. */
  lemma RankBijection(height: nat, row: nat)
    requires row < height
    ensures Rank(height, row) < height && StoredRow(height, Rank(height, row)) == row
  {
    OrderLength(height);
    OrderAtRank(height, row);
  }
}
