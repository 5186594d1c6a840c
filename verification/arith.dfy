/** Facts about multiplication that the row-major layouts of the frame
    buffer and the tile map rely on. */
module Arith {

  lemma {:induction false} MulMonotone(a: int, b: int, w: nat)
    requires a <= b
    ensures a * w <= b * w
    decreases w
  {
    if w > 0 {
      MulMonotone(a, b, w - 1);
      assert a * w == a * (w - 1) + a;
      assert b * w == b * (w - 1) + b;
    }
  }

  /** Row `y` of a `w`-wide row-major layout with `rows` rows lies inside it. */
  lemma RowInside(y: nat, rows: nat, w: nat)
    requires y < rows
    ensures 0 <= y * w && y * w + w <= rows * w
  {
    MulMonotone(y + 1, rows, w);
    assert (y + 1) * w == y * w + w;
    MulMonotone(0, y, w);
  }

  /** Index `i` of a `w`-wide row-major layout with `rows` rows lies in row
      `i / w`, at column `i % w`. */
  lemma RowOfIndex(i: int, rows: nat, w: nat)
    requires 0 <= i < rows * w
    ensures w > 0 && 0 <= i / w < rows && 0 <= i % w < w
    ensures (i / w) * w + i % w == i
  {
    if rows <= i / w {
      MulMonotone(rows, i / w, w);
    }
  }
}
