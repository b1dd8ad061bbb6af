/** The recursive subdivision generator of the fractal demo
    (`Assignment1.subdivideTri` and `Assignment1.subdivideSquare`).

    Points are an abstract type `P`; the library's `mix(u, v, 0.5)` is the
    parameter `mid`. The instance flag `gasketMode` is the parameter
    `gasket`. The source concatenates two-number arrays, so its result is
    the flat coordinate list of the point sequence returned here. */
module Subdivision {
  import opened Common

  datatype Tri<P> = Tri(a: P, b: P, c: P)
  datatype Quad<P> = Quad(a: P, b: P, c: P, d: P)

  /** Children kept per level: the centre child is dropped in gasket mode. */
  function Branching(gasket: bool): nat {
    if gasket then 3 else 4
  }

  // ------------------------------------------------------------ triangles

  /** `subdivideTri(A, B, C, n)`. At depth 0 the triangle itself; otherwise
      the children AB-B-BC, A-AB-AC, AC-BC-C and, unless in gasket mode,
      the centre AC-AB-BC, each subdivided again while depth remains and
      emitted as a leaf triangle when it does not. */
  function SubdivideTri<P>(mid: (P, P) -> P, gasket: bool, a: P, b: P, c: P, n: nat): seq<P>
    decreases n, 1
  {
    if n == 0 then [a, b, c]
    else
      var k := n - 1;
      var ab := mid(a, b);
      var ac := mid(a, c);
      var bc := mid(b, c);
      TriOrLeaf(mid, gasket, ab, b, bc, k)
      + TriOrLeaf(mid, gasket, a, ab, ac, k)
      + TriOrLeaf(mid, gasket, ac, bc, c, k)
      + (if gasket then [] else TriOrLeaf(mid, gasket, ac, ab, bc, k))
  }

  /** The source's inner `subDivideOrNot` for triangles. */
  function TriOrLeaf<P>(mid: (P, P) -> P, gasket: bool, x: P, y: P, z: P, k: nat): seq<P>
    decreases k + 1, 0
  {
    if k > 0 then SubdivideTri(mid, gasket, x, y, z, k) else [x, y, z]
  }

  /** Child `i` of a triangle, in the order the generator emits them; child
      3 is the centre (medial) triangle. */
  function TriChild<P>(mid: (P, P) -> P, t: Tri<P>, i: nat): Tri<P>
    requires i < 4
  {
    var ab := mid(t.a, t.b);
    var ac := mid(t.a, t.c);
    var bc := mid(t.b, t.c);
    if i == 0 then Tri(ab, t.b, bc)
    else if i == 1 then Tri(t.a, ab, ac)
    else if i == 2 then Tri(ac, bc, t.c)
    else Tri(ac, ab, bc)
  }

  predicate DigitsBelow(path: seq<nat>, base: nat) {
    forall i :: 0 <= i < |path| ==> path[i] < base
  }

  /** The cell reached from `t` by following child indices, outermost first. */
  function TriCell<P>(mid: (P, P) -> P, t: Tri<P>, path: seq<nat>): Tri<P>
    requires DigitsBelow(path, 4)
    decreases |path|
  {
    if |path| == 0 then t else TriCell(mid, TriChild(mid, t, path[0]), path[1..])
  }

  function Corner<P>(t: Tri<P>, c: nat): P
    requires c < 3
  {
    if c == 0 then t.a else if c == 1 then t.b else t.c
  }

  // --------------------------------------------------------------- squares

  /** `subdivideSquare(A, B, C, D, n)`. At depth 0 the triangles ABC and
      BCD; otherwise the children A-AB-mid-AD, AB-B-BC-mid, mid-BC-C-CD and,
      unless in gasket mode, the centre AD-mid-CD-D. A child at the last
      level is emitted as the triangles v0 v1 v2 and v2 v3 v0. */
  function SubdivideSquare<P>(mid: (P, P) -> P, gasket: bool, a: P, b: P, c: P, d: P, n: nat): seq<P>
    decreases n, 1
  {
    if n == 0 then [a, b, c, b, c, d]
    else
      var k := n - 1;
      var ab := mid(a, b);
      var ad := mid(a, d);
      var bc := mid(b, c);
      var cd := mid(c, d);
      var m := mid(ab, cd);
      QuadOrLeaf(mid, gasket, Quad(a, ab, m, ad), k)
      + QuadOrLeaf(mid, gasket, Quad(ab, b, bc, m), k)
      + QuadOrLeaf(mid, gasket, Quad(m, bc, c, cd), k)
      + (if gasket then [] else QuadOrLeaf(mid, gasket, Quad(ad, m, cd, d), k))
  }

  /** The triangulation of a square reached inside the recursion. */
  function QuadLeaf<P>(q: Quad<P>): seq<P> {
    [q.a, q.b, q.c, q.c, q.d, q.a]
  }

  /** The source's inner `subDivideOrNot` for squares. */
  function QuadOrLeaf<P>(mid: (P, P) -> P, gasket: bool, q: Quad<P>, k: nat): seq<P>
    decreases k + 1, 0
  {
    if k > 0 then SubdivideSquare(mid, gasket, q.a, q.b, q.c, q.d, k) else QuadLeaf(q)
  }

  /** Child `i` of a square in emission order; child 3 is the one gasket
      mode drops. */
  function QuadChild<P>(mid: (P, P) -> P, q: Quad<P>, i: nat): Quad<P>
    requires i < 4
  {
    var ab := mid(q.a, q.b);
    var ad := mid(q.a, q.d);
    var bc := mid(q.b, q.c);
    var cd := mid(q.c, q.d);
    var m := mid(ab, cd);
    if i == 0 then Quad(q.a, ab, m, ad)
    else if i == 1 then Quad(ab, q.b, bc, m)
    else if i == 2 then Quad(m, bc, q.c, cd)
    else Quad(ad, m, cd, q.d)
  }

  function QuadCell<P>(mid: (P, P) -> P, q: Quad<P>, path: seq<nat>): Quad<P>
    requires DigitsBelow(path, 4)
    decreases |path|
  {
    if |path| == 0 then q else QuadCell(mid, QuadChild(mid, q, path[0]), path[1..])
  }

  /** A path's first step picks the child the rest of the path starts from. */
  lemma TriCellHead<P>(mid: (P, P) -> P, t: Tri<P>, i: nat, rest: seq<nat>)
    requires i < 4 && DigitsBelow(rest, 4)
    ensures DigitsBelow([i] + rest, 4)
    ensures TriCell(mid, t, [i] + rest) == TriCell(mid, TriChild(mid, t, i), rest)
  {
    assert ([i] + rest)[1..] == rest;
  }

  lemma QuadCellHead<P>(mid: (P, P) -> P, q: Quad<P>, i: nat, rest: seq<nat>)
    requires i < 4 && DigitsBelow(rest, 4)
    ensures DigitsBelow([i] + rest, 4)
    ensures QuadCell(mid, q, [i] + rest) == QuadCell(mid, QuadChild(mid, q, i), rest)
  {
    assert ([i] + rest)[1..] == rest;
  }

  // ------------------------------------------------------ cell addressing

  /** The `n` base-`base` digits of `m`, most significant first: the path
      from the root to the `m`-th emitted cell. */
  function Digits(m: nat, base: nat, n: nat): (ds: seq<nat>)
    requires base > 0
    ensures |ds| == n
    decreases n
  {
    if n == 0 then []
    else
      PowPositive(base, n - 1);
      [m / Pow(base, n - 1) % base] + Digits(m % Pow(base, n - 1), base, n - 1)
  }

  lemma {:induction false} DigitsBounded(m: nat, base: nat, n: nat)
    requires base > 0
    ensures DigitsBelow(Digits(m, base, n), base)
    decreases n
  {
    if n > 0 {
      PowPositive(base, n - 1);
      DigitsBounded(m % Pow(base, n - 1), base, n - 1);
    }
  }

  /** Splitting `m < base^n` into its leading digit and the rest. */
  lemma DigitsHead(m: nat, base: nat, n: nat) returns (i: nat, rest: nat)
    requires base > 0 && n > 0 && m < Pow(base, n)
    ensures i < base && rest < Pow(base, n - 1)
    ensures m == i * Pow(base, n - 1) + rest
    ensures Digits(m, base, n) == [i] + Digits(rest, base, n - 1)
  {
    var p := Pow(base, n - 1);
    PowPositive(base, n - 1);
    assert m < p * base by {
      assert Pow(base, n) == base * p;
    }
    DivBounds(m, p, 0, base);
    DivModUnique(m / p, base, 0, m / p);
    i, rest := m / p, m % p;
  }

  lemma ScaleIndex(m: int, i: int, p: int, m': int, w: int, c: int)
    requires m == i * p + m'
    ensures w * m + c == i * (w * p) + (w * m' + c)
  {
  }

  /** Position `i * L + j` of four (or, with an empty fourth, three)
      concatenated blocks of length `L`. */
  lemma BlockIndex<P>(s0: seq<P>, s1: seq<P>, s2: seq<P>, s3: seq<P>, L: nat, i: nat, j: nat)
    requires |s0| == L && |s1| == L && |s2| == L && (|s3| == L || |s3| == 0)
    requires j < L && (i < 3 || (i == 3 && |s3| == L))
    ensures i * L + j < |s0 + s1 + s2 + s3|
    ensures (s0 + s1 + s2 + s3)[i * L + j] == [s0, s1, s2, s3][i][j]
  {
  }

  // ------------------------------------------------------ triangle lemmas

  lemma TriOrLeafIsSubdivide<P>(mid: (P, P) -> P, gasket: bool, x: P, y: P, z: P, k: nat)
    ensures TriOrLeaf(mid, gasket, x, y, z, k) == SubdivideTri(mid, gasket, x, y, z, k)
  {
  }

  /** A triangle subdivided to depth `n` yields 3 * 4^n vertices, or
      3 * 3^n in gasket mode. */
  lemma {:induction false} TriVertexCount<P>(mid: (P, P) -> P, gasket: bool, a: P, b: P, c: P, n: nat)
    ensures |SubdivideTri(mid, gasket, a, b, c, n)| == 3 * Pow(Branching(gasket), n)
    decreases n
  {
    if n > 0 {
      var k := n - 1;
      var ab, ac, bc := mid(a, b), mid(a, c), mid(b, c);
      TriVertexCount(mid, gasket, ab, b, bc, k);
      TriVertexCount(mid, gasket, a, ab, ac, k);
      TriVertexCount(mid, gasket, ac, bc, c, k);
      TriVertexCount(mid, gasket, ac, ab, bc, k);
      TriOrLeafIsSubdivide(mid, gasket, ab, b, bc, k);
      TriOrLeafIsSubdivide(mid, gasket, a, ab, ac, k);
      TriOrLeafIsSubdivide(mid, gasket, ac, bc, c, k);
      TriOrLeafIsSubdivide(mid, gasket, ac, ab, bc, k);
    }
  }

  /** Everything the generator emits for child `i` of `t`. */
  function TriChildOut<P>(mid: (P, P) -> P, gasket: bool, t: Tri<P>, k: nat, i: nat): seq<P>
    requires i < 4
  {
    var ch := TriChild(mid, t, i);
    SubdivideTri(mid, gasket, ch.a, ch.b, ch.c, k)
  }

  lemma TriSplit<P>(mid: (P, P) -> P, gasket: bool, t: Tri<P>, n: nat)
    requires n > 0
    ensures SubdivideTri(mid, gasket, t.a, t.b, t.c, n)
            == TriChildOut(mid, gasket, t, n - 1, 0) + TriChildOut(mid, gasket, t, n - 1, 1)
               + TriChildOut(mid, gasket, t, n - 1, 2)
               + (if gasket then [] else TriChildOut(mid, gasket, t, n - 1, 3))
  {
    var k := n - 1;
    var ab, ac, bc := mid(t.a, t.b), mid(t.a, t.c), mid(t.b, t.c);
    TriOrLeafIsSubdivide(mid, gasket, ab, t.b, bc, k);
    TriOrLeafIsSubdivide(mid, gasket, t.a, ab, ac, k);
    TriOrLeafIsSubdivide(mid, gasket, ac, bc, t.c, k);
    TriOrLeafIsSubdivide(mid, gasket, ac, ab, bc, k);
  }

  /** The output of `subdivideTri` read as a sequence of triangles: the
      `m`-th triangle is the cell whose path from the input triangle is the
      base-4 (gasket: base-3) expansion of `m`. So children are emitted in
      the fixed order AB-B-BC, A-AB-AC, AC-BC-C, AC-AB-BC, depth first, and
      a gasket path never takes the centre child 3. At depth 0 the single
      triangle is the input itself. */
  lemma {:induction false} TriCellIndex<P>(mid: (P, P) -> P, gasket: bool, t: Tri<P>, n: nat, m: nat, c: nat)
    requires m < Pow(Branching(gasket), n) && c < 3
    ensures DigitsBelow(Digits(m, Branching(gasket), n), 4)
    ensures 3 * m + c < |SubdivideTri(mid, gasket, t.a, t.b, t.c, n)|
    ensures SubdivideTri(mid, gasket, t.a, t.b, t.c, n)[3 * m + c]
            == Corner(TriCell(mid, t, Digits(m, Branching(gasket), n)), c)
    decreases n
  {
    var B := Branching(gasket);
    DigitsBounded(m, B, n);
    TriVertexCount(mid, gasket, t.a, t.b, t.c, n);
    if n > 0 {
      var k := n - 1;
      var p := Pow(B, k);
      var i, m' := DigitsHead(m, B, n);
      var ch := TriChild(mid, t, i);
      TriCellIndex(mid, gasket, ch, k, m', c);
      DigitsBounded(m', B, k);
      TriCellHead(mid, t, i, Digits(m', B, k));
      TriVertexCount(mid, gasket, ch.a, ch.b, ch.c, k);
      ScaleIndex(m, i, p, m', 3, c);
      TriBlockIndex(mid, gasket, t, k, i, 3 * m' + c);
      assert SubdivideTri(mid, gasket, t.a, t.b, t.c, n)[3 * m + c]
          == SubdivideTri(mid, gasket, ch.a, ch.b, ch.c, k)[3 * m' + c];
    } else {
      assert Digits(m, B, n) == [];
    }
  }

  /** Number `x` of child `i`'s output sits at `i * 3 * B^k + x` of the
      parent's output one level up. */
  lemma TriBlockIndex<P>(mid: (P, P) -> P, gasket: bool, t: Tri<P>, k: nat, i: nat, x: nat)
    requires i < Branching(gasket) && x < 3 * Pow(Branching(gasket), k)
    ensures |TriChildOut(mid, gasket, t, k, i)| == 3 * Pow(Branching(gasket), k)
    ensures i * (3 * Pow(Branching(gasket), k)) + x < |SubdivideTri(mid, gasket, t.a, t.b, t.c, k + 1)|
    ensures SubdivideTri(mid, gasket, t.a, t.b, t.c, k + 1)[i * (3 * Pow(Branching(gasket), k)) + x]
            == TriChildOut(mid, gasket, t, k, i)[x]
  {
    var p := Pow(Branching(gasket), k);
    TriSplit(mid, gasket, t, k + 1);
    var s0, s1, s2 := TriChildOut(mid, gasket, t, k, 0), TriChildOut(mid, gasket, t, k, 1), TriChildOut(mid, gasket, t, k, 2);
    var s3 := if gasket then [] else TriChildOut(mid, gasket, t, k, 3);
    forall j | 0 <= j < 4
      ensures |TriChildOut(mid, gasket, t, k, j)| == 3 * p
    {
      var cj := TriChild(mid, t, j);
      TriVertexCount(mid, gasket, cj.a, cj.b, cj.c, k);
    }
    BlockIndex(s0, s1, s2, s3, 3 * p, i, x);
    assert [s0, s1, s2, s3][i] == TriChildOut(mid, gasket, t, k, i);
  }

  // -------------------------------------------------------- square lemmas

  /** Everything the generator emits for child `i` of `q` one level down. */
  function QuadChildOut<P>(mid: (P, P) -> P, gasket: bool, q: Quad<P>, k: nat, i: nat): seq<P>
    requires i < 4
  {
    QuadOrLeaf(mid, gasket, QuadChild(mid, q, i), k)
  }

  lemma QuadSplit<P>(mid: (P, P) -> P, gasket: bool, q: Quad<P>, n: nat)
    requires n > 0
    ensures SubdivideSquare(mid, gasket, q.a, q.b, q.c, q.d, n)
            == QuadChildOut(mid, gasket, q, n - 1, 0) + QuadChildOut(mid, gasket, q, n - 1, 1)
               + QuadChildOut(mid, gasket, q, n - 1, 2)
               + (if gasket then [] else QuadChildOut(mid, gasket, q, n - 1, 3))
  {
  }

  /** A square subdivided to depth `n` yields 6 * 4^n vertices, or 6 * 3^n
      in gasket mode; so does a child emitted `k` levels above the leaves. */
  lemma {:induction false} QuadVertexCount<P>(mid: (P, P) -> P, gasket: bool, q: Quad<P>, n: nat)
    ensures |SubdivideSquare(mid, gasket, q.a, q.b, q.c, q.d, n)| == 6 * Pow(Branching(gasket), n)
    ensures |QuadOrLeaf(mid, gasket, q, n)| == 6 * Pow(Branching(gasket), n)
    decreases n
  {
    if n > 0 {
      var k := n - 1;
      QuadSplit(mid, gasket, q, n);
      forall j | 0 <= j < 4
        ensures |QuadChildOut(mid, gasket, q, k, j)| == 6 * Pow(Branching(gasket), k)
      {
        QuadVertexCount(mid, gasket, QuadChild(mid, q, j), k);
      }
    }
  }

  /** Inside the recursion every six vertices are the leaf triangulation
      v0 v1 v2, v2 v3 v0 of the cell whose path is the base-4 (gasket:
      base-3) expansion of the cell's index. */
  lemma {:induction false} QuadCellIndex<P>(mid: (P, P) -> P, gasket: bool, q: Quad<P>, n: nat, m: nat, c: nat)
    requires m < Pow(Branching(gasket), n) && c < 6
    ensures DigitsBelow(Digits(m, Branching(gasket), n), 4)
    ensures 6 * m + c < |QuadOrLeaf(mid, gasket, q, n)|
    ensures QuadOrLeaf(mid, gasket, q, n)[6 * m + c]
            == QuadLeaf(QuadCell(mid, q, Digits(m, Branching(gasket), n)))[c]
    decreases n
  {
    var B := Branching(gasket);
    DigitsBounded(m, B, n);
    QuadVertexCount(mid, gasket, q, n);
    if n > 0 {
      var k := n - 1;
      var p := Pow(B, k);
      var i, m' := DigitsHead(m, B, n);
      var ch := QuadChild(mid, q, i);
      QuadCellIndex(mid, gasket, ch, k, m', c);
      DigitsBounded(m', B, k);
      QuadCellHead(mid, q, i, Digits(m', B, k));
      ScaleIndex(m, i, p, m', 6, c);
      QuadBlockIndex(mid, gasket, q, k, i, 6 * m' + c);
      assert QuadChildOut(mid, gasket, q, k, i) == QuadOrLeaf(mid, gasket, ch, k);
      assert QuadOrLeaf(mid, gasket, q, n)[6 * m + c] == QuadOrLeaf(mid, gasket, ch, k)[6 * m' + c];
    } else {
      assert Digits(m, B, n) == [];
    }
  }

  /** Number `x` of child `i`'s output sits at `i * 6 * B^k + x` of the
      parent's output one level up. */
  lemma QuadBlockIndex<P>(mid: (P, P) -> P, gasket: bool, q: Quad<P>, k: nat, i: nat, x: nat)
    requires i < Branching(gasket) && x < 6 * Pow(Branching(gasket), k)
    ensures |QuadChildOut(mid, gasket, q, k, i)| == 6 * Pow(Branching(gasket), k)
    ensures i * (6 * Pow(Branching(gasket), k)) + x < |QuadOrLeaf(mid, gasket, q, k + 1)|
    ensures QuadOrLeaf(mid, gasket, q, k + 1)[i * (6 * Pow(Branching(gasket), k)) + x]
            == QuadChildOut(mid, gasket, q, k, i)[x]
  {
    var p := Pow(Branching(gasket), k);
    QuadSplit(mid, gasket, q, k + 1);
    var s0, s1, s2 := QuadChildOut(mid, gasket, q, k, 0), QuadChildOut(mid, gasket, q, k, 1), QuadChildOut(mid, gasket, q, k, 2);
    var s3 := if gasket then [] else QuadChildOut(mid, gasket, q, k, 3);
    forall j | 0 <= j < 4
      ensures |QuadChildOut(mid, gasket, q, k, j)| == 6 * p
    {
      QuadVertexCount(mid, gasket, QuadChild(mid, q, j), k);
    }
    BlockIndex(s0, s1, s2, s3, 6 * p, i, x);
    assert [s0, s1, s2, s3][i] == QuadChildOut(mid, gasket, q, k, i);
  }

  /** From depth 1 on, `subdivideSquare` emits only leaf triangulations,
      cell by cell in path order. */
  lemma SquareCellIndex<P>(mid: (P, P) -> P, gasket: bool, q: Quad<P>, n: nat, m: nat, c: nat)
    requires n > 0 && m < Pow(Branching(gasket), n) && c < 6
    ensures DigitsBelow(Digits(m, Branching(gasket), n), 4)
    ensures 6 * m + c < |SubdivideSquare(mid, gasket, q.a, q.b, q.c, q.d, n)|
    ensures SubdivideSquare(mid, gasket, q.a, q.b, q.c, q.d, n)[6 * m + c]
            == QuadLeaf(QuadCell(mid, q, Digits(m, Branching(gasket), n)))[c]
  {
    QuadCellIndex(mid, gasket, q, n, m, c);
  }

  /** The depth-0 square is the triangles ABC and BCD, not the leaf pattern
      ABC, CDA used one level further in: the two agree only when all four
      corners coincide. A triangle leaf, by contrast, is its depth-0 case. */
  lemma SquareDepthZero<P>(mid: (P, P) -> P, gasket: bool, q: Quad<P>)
    ensures SubdivideSquare(mid, gasket, q.a, q.b, q.c, q.d, 0) == [q.a, q.b, q.c, q.b, q.c, q.d]
    ensures SubdivideSquare(mid, gasket, q.a, q.b, q.c, q.d, 0) == QuadLeaf(q)
            <==> q.b == q.c && q.c == q.d && q.d == q.a
    ensures forall x: P, y: P, z: P :: TriOrLeaf(mid, gasket, x, y, z, 0) == SubdivideTri(mid, gasket, x, y, z, 0)
  {
    var s := SubdivideSquare(mid, gasket, q.a, q.b, q.c, q.d, 0);
    if s == QuadLeaf(q) {
      assert s[3] == QuadLeaf(q)[3] && s[4] == QuadLeaf(q)[4] && s[5] == QuadLeaf(q)[5];
    }
  }

  // ------------------------------------------- gasket mode against normal

  /** The number whose base-`base` digits, most significant first, are `ds`. */
  function FromDigits(ds: seq<nat>, base: nat): nat
    decreases |ds|
  {
    if |ds| == 0 then 0 else ds[0] * Pow(base, |ds| - 1) + FromDigits(ds[1..], base)
  }

  lemma {:induction false} FromDigitsBound(ds: seq<nat>, base: nat)
    requires base > 0 && DigitsBelow(ds, base)
    ensures FromDigits(ds, base) < Pow(base, |ds|)
    decreases |ds|
  {
    if |ds| > 0 {
      var p := Pow(base, |ds| - 1);
      FromDigitsBound(ds[1..], base);
      assert ds[0] < base;
      LeadingBound(ds[0], FromDigits(ds[1..], base), base, p);
      assert Pow(base, |ds|) == base * p;
    }
  }

  /** A leading digit below `base` followed by less than `p` stays below
      `base * p`. */
  lemma LeadingBound(d: nat, rest: nat, base: nat, p: nat)
    requires d < base && rest < p
    ensures d * p + rest < base * p
  {
    MulLe(d + 1, base, p);
    assert (d + 1) * p == d * p + p;
  }

  lemma {:induction false} DigitsOfFromDigits(ds: seq<nat>, base: nat)
    requires base > 0 && DigitsBelow(ds, base)
    ensures FromDigits(ds, base) < Pow(base, |ds|)
    ensures Digits(FromDigits(ds, base), base, |ds|) == ds
    decreases |ds|
  {
    FromDigitsBound(ds, base);
    if |ds| > 0 {
      var n := |ds|;
      var m := FromDigits(ds, base);
      var rest := FromDigits(ds[1..], base);
      FromDigitsBound(ds[1..], base);
      DigitsOfFromDigits(ds[1..], base);
      var i, r := DigitsHead(m, base, n);
      var p := Pow(base, n - 1);
      DivModUnique(m, p, i, r);
      DivModUnique(m, p, ds[0], rest);
      assert ds == [ds[0]] + ds[1..];
    }
  }

  lemma {:induction false} FromDigitsOfDigits(m: nat, base: nat, n: nat)
    requires base > 0 && m < Pow(base, n)
    ensures FromDigits(Digits(m, base, n), base) == m
    decreases n
  {
    if n > 0 {
      var i, r := DigitsHead(m, base, n);
      FromDigitsOfDigits(r, base, n - 1);
      var ds := Digits(m, base, n);
      assert ds[0] == i && ds[1..] == Digits(r, base, n - 1);
    }
  }

  /** Where the `m`-th gasket cell sits among the cells of normal mode:
      the same path, read in base 4. */
  function Lift(m: nat, n: nat): nat {
    FromDigits(Digits(m, 3, n), 4)
  }

  /** Numbers compare as their (leading digit, rest) pairs do. */
  lemma LeadingDigitOrder(m1: int, m2: int, i1: int, r1: int, i2: int, r2: int, p: int)
    requires 0 <= r1 < p && 0 <= r2 < p
    requires m1 == i1 * p + r1 && m2 == i2 * p + r2 && m1 < m2
    ensures i1 < i2 || (i1 == i2 && r1 < r2)
  {
    if i2 < i1 {
      MulLe(i2 + 1, i1, p);
      assert false;
    }
  }

  lemma LeadingDigitLess(i1: int, x1: int, i2: int, x2: int, p: nat)
    requires i1 < i2 && 0 <= x1 < p && 0 <= x2
    ensures i1 * p + x1 < i2 * p + x2
  {
    MulLe(i1 + 1, i2, p);
  }

  lemma {:induction false} LiftMonotone(m1: nat, m2: nat, n: nat)
    requires m1 < m2 < Pow(3, n)
    ensures Lift(m1, n) < Lift(m2, n)
    decreases n
  {
    if n == 0 {
      assert false;
    }
    var i1, r1 := DigitsHead(m1, 3, n);
    var i2, r2 := DigitsHead(m2, 3, n);
    var p4 := Pow(4, n - 1);
    DigitsBounded(r1, 3, n - 1);
    var d1, d2 := Digits(r1, 3, n - 1), Digits(r2, 3, n - 1);
    assert Digits(m1, 3, n)[1..] == d1;
    assert Digits(m2, 3, n)[1..] == d2;
    assert Lift(m1, n) == i1 * p4 + Lift(r1, n - 1);
    assert Lift(m2, n) == i2 * p4 + Lift(r2, n - 1);
    LeadingDigitOrder(m1, m2, i1, r1, i2, r2, Pow(3, n - 1));
    if i1 == i2 {
      LiftMonotone(r1, r2, n - 1);
    } else {
      FromDigitsBound(d1, 4);
      LeadingDigitLess(i1, Lift(r1, n - 1), i2, Lift(r2, n - 1), p4);
    }
  }

  /** The cells normal mode emits with no centre step in their path are
      exactly the lifted gasket cells. */
  lemma LiftOnto(m4: nat, n: nat) returns (m: nat)
    requires m4 < Pow(4, n) && DigitsBelow(Digits(m4, 4, n), 3)
    ensures m < Pow(3, n) && Lift(m, n) == m4
  {
    var ds := Digits(m4, 4, n);
    m := FromDigits(ds, 3);
    DigitsOfFromDigits(ds, 3);
    FromDigitsOfDigits(m4, 4, n);
  }

  /** Gasket mode keeps, in the same relative order, exactly the triangles
      of normal mode whose path avoids the centre child: its `m`-th
      triangle is normal mode's `Lift(m, n)`-th, `Lift` is increasing, and
      (`LiftOnto`) every centre-free triangle of normal mode is reached. */
  lemma TriGasketInNormal<P>(mid: (P, P) -> P, t: Tri<P>, n: nat, m: nat, c: nat)
    requires m < Pow(3, n) && c < 3
    ensures Lift(m, n) < Pow(4, n)
    ensures DigitsBelow(Digits(Lift(m, n), 4, n), 3)
    ensures 3 * m + c < |SubdivideTri(mid, true, t.a, t.b, t.c, n)|
    ensures 3 * Lift(m, n) + c < |SubdivideTri(mid, false, t.a, t.b, t.c, n)|
    ensures SubdivideTri(mid, true, t.a, t.b, t.c, n)[3 * m + c]
            == SubdivideTri(mid, false, t.a, t.b, t.c, n)[3 * Lift(m, n) + c]
  {
    var ds := Digits(m, 3, n);
    DigitsBounded(m, 3, n);
    DigitsOfFromDigits(ds, 4);
    TriCellIndex(mid, true, t, n, m, c);
    TriCellIndex(mid, false, t, n, Lift(m, n), c);
  }

  /** The same for squares, for every level of the recursion. */
  lemma QuadGasketInNormal<P>(mid: (P, P) -> P, q: Quad<P>, n: nat, m: nat, c: nat)
    requires m < Pow(3, n) && c < 6
    ensures Lift(m, n) < Pow(4, n)
    ensures DigitsBelow(Digits(Lift(m, n), 4, n), 3)
    ensures 6 * m + c < |QuadOrLeaf(mid, true, q, n)|
    ensures 6 * Lift(m, n) + c < |QuadOrLeaf(mid, false, q, n)|
    ensures QuadOrLeaf(mid, true, q, n)[6 * m + c] == QuadOrLeaf(mid, false, q, n)[6 * Lift(m, n) + c]
  {
    var ds := Digits(m, 3, n);
    DigitsBounded(m, 3, n);
    DigitsOfFromDigits(ds, 4);
    QuadCellIndex(mid, true, q, n, m, c);
    QuadCellIndex(mid, false, q, n, Lift(m, n), c);
  }
}
