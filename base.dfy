/** Shared value types: optional values, machine-width integers and Rust's
    truncating integer division. */
module Base {

  datatype Option<+T> = None | Some(value: T)

  /** Machine integers as subset types of `int`. */
  type byte = x: int | 0 <= x < 0x100
  type u16 = x: int | 0 <= x < 0x1_0000
  type u32 = x: int | 0 <= x < 0x1_0000_0000

  /** `x as u16` in Rust: keep the low 16 bits. */
  function TruncU16(x: nat): (r: u16)
    ensures x < 0x1_0000 ==> r == x
    ensures r <= x
  {
    x % 0x1_0000
  }

  /** Rust's `/` on signed integers rounds toward zero (Dafny's `/` is Euclidean). */
  function Quot(a: int, b: int): int
    requires b > 0
  {
    if a >= 0 then a / b else -((-a) / b)
  }

  function Max(a: int, b: int): int { if a >= b then a else b }
  function Min(a: int, b: int): int { if a <= b then a else b }

  lemma MulAtLeast(m: int, w: int)
    requires m >= 1 && w > 0
    ensures m * w >= w
  {
    assert m * w == (m - 1) * w + w;
  }

  /** Row-major addressing: cell (x, y) of a grid `w` wide sits at `y * w + x`,
      and division and remainder by `w` recover the coordinates. */
  lemma RowMajor(x: int, y: int, w: int)
    requires 0 <= x < w && 0 <= y
    ensures (y * w + x) / w == y && (y * w + x) % w == x
  {
    var a := y * w + x;
    var q, r := a / w, a % w;
    assert (y - q) * w == r - x;
    if q < y {
      MulAtLeast(y - q, w);
    } else if q > y {
      MulAtLeast(q - y, w);
    }
  }

  /** Multiplying by a non-negative factor preserves order. */
  lemma MulLeMono(a: int, b: int, p: int)
    requires 0 <= a <= b && 0 <= p
    ensures a * p <= b * p
  {
    if a < b && p > 0 {
      MulAtLeast(b - a, p);
      assert b * p - a * p == (b - a) * p;
    }
  }

  /** Cell (x, y) of a w-by-h grid has a row-major index below w*h. */
  lemma IndexInGrid(x: nat, y: nat, w: nat, h: nat)
    requires x < w && y < h
    ensures y * w + x < w * h
  {
    MulLeMono(y + 1, h, w);
    assert (y + 1) * w == y * w + w;
  }
}
