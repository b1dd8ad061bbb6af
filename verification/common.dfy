/** Shared vocabulary: optional values, bytes, JavaScript's 32-bit integer
    conversion and natural powers. */
module Common {

  datatype Option<+T> = None | Some(value: T)

  /** The result of an operation that can throw. The source has no
      `try`/`finally`, so a throw leaves behind whatever the operation had
      already changed: `Threw` carries that partial state. */
  datatype Outcome<+S> = Done(value: S) | Threw(partial: S)
  {
    function State(): S {
      match this
      case Done(v) => v
      case Threw(v) => v
    }
  }

  /** An unsigned 8-bit value, as stored in a `Uint8Array` or read back by
      `gl.readPixels`. */
  newtype Byte = x: int | 0 <= x < 256

  const TWO_32: int := 0x1_0000_0000
  const TWO_31: int := 0x8000_0000

  /** ECMAScript ToInt32 on an integral number: wrap modulo 2^32 into
      the signed range. Every bitwise operator of JavaScript applies it. */
  function Int32(v: int): (r: int)
    ensures -TWO_31 <= r < TWO_31
    ensures (r - v) % TWO_32 == 0
    ensures -TWO_31 <= v < TWO_31 ==> r == v
  {
    (v + TWO_31) % TWO_32 - TWO_31
  }

  function Pow(b: nat, n: nat): (r: nat)
    decreases n
  {
    if n == 0 then 1 else b * Pow(b, n - 1)
  }

  lemma {:induction false} PowPositive(b: nat, n: nat)
    requires b > 0
    ensures Pow(b, n) > 0
    decreases n
  {
    if n > 0 {
      PowPositive(b, n - 1);
    }
  }

  /** Euclidean division is unique: a quotient and remainder in range are
      the ones Dafny's `/` and `%` compute. */
  lemma DivModUnique(n: int, d: int, q: int, rem: int)
    requires d > 0 && 0 <= rem < d && n == q * d + rem
    ensures n / d == q && n % d == rem
  {
    var q0, r0 := n / d, n % d;
    if q0 < q {
      MulLe(q0 + 1, q, d);
      assert false;
    } else if q < q0 {
      MulLe(q + 1, q0, d);
      assert false;
    }
  }

  lemma MulLe(x: int, y: int, p: nat)
    requires x <= y
    ensures x * p <= y * p
  {
  }

  /** Bitwise OR of two non-negative integers, bit by bit from the least
      significant end (JavaScript's `|` on values below 2^31). */
  function BitOr(x: nat, y: nat): nat
    decreases x + y
  {
    if x == 0 && y == 0 then 0
    else 2 * BitOr(x / 2, y / 2) + (if x % 2 == 1 || y % 2 == 1 then 1 else 0)
  }

  lemma {:induction false} BitOrZero(y: nat)
    ensures BitOr(0, y) == y
    decreases y
  {
    if y > 0 {
      BitOrZero(y / 2);
    }
  }

  /** OR-ing a value below 2^k with a multiple of 2^k adds them: the bits
      do not overlap. */
  lemma {:induction false} BitOrDisjoint(x: nat, y: nat, k: nat)
    requires x < Pow(2, k)
    ensures BitOr(x, y * Pow(2, k)) == x + y * Pow(2, k)
    decreases k
  {
    if k == 0 {
      BitOrZero(y);
    } else {
      var p := Pow(2, k - 1);
      assert y * Pow(2, k) == 2 * (y * p);
      assert (y * Pow(2, k)) / 2 == y * p;
      assert (y * Pow(2, k)) % 2 == 0;
      BitOrDisjoint(x / 2, y, k - 1);
    }
  }

  /** Bounds on a product bound the quotient. */
  lemma DivBounds(n: int, d: int, lo: int, hi: int)
    requires d > 0 && d * lo <= n < d * hi
    ensures lo <= n / d < hi
  {
    var m := n - d * lo;
    DivModUnique(n, d, lo + m / d, m % d);
    var m2 := d * hi - 1 - n;
    DivModUnique(n, d, hi - 1 - m2 / d, d - 1 - m2 % d);
  }
}
