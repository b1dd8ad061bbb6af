/** Buffer layout of the primitive meshes (`GG.cube`, `GG.cone`,
    `GG.cylinder`, `GG.sphere` and their `initialise`).

    A mesh is modelled as the vertex stream it emits; the array handed to
    `gl.bufferData` is that stream flattened, six numbers per vertex
    (position, normal) or eight (position, normal, texture coordinate).
    Coordinates are reals; `Math.cos`, `Math.sin`, `Math.atan2`,
    `Math.asin`, `Math.PI` and the library's `normalize` are the fields of
    `MathLib`. Loops that step a floating-point angle are modelled by the
    integer index of the step. */
module Mesh {
  import opened Common

  datatype Vec3 = Vec3(x: real, y: real, z: real)

  type Positive = r: real | r > 0.0 witness 1.0

  datatype MathLib = MathLib(cos: real -> real, sin: real -> real, normalize: Vec3 -> Vec3,
                             atan2: (real, real) -> real, asin: real -> real, pi: Positive)

  function Sub(u: Vec3, v: Vec3): Vec3 {
    Vec3(u.x - v.x, u.y - v.y, u.z - v.z)
  }

  function Cross(u: Vec3, v: Vec3): Vec3 {
    Vec3(u.y * v.z - u.z * v.y, u.z * v.x - u.x * v.z, u.x * v.y - u.y * v.x)
  }

  function Dot(u: Vec3, v: Vec3): real {
    u.x * v.x + u.y * v.y + u.z * v.z
  }

  function Radians(m: MathLib, degrees: real): real {
    degrees * m.pi / 180.0
  }

  /** One vertex of a buffer; `uv` is empty for meshes without texture
      coordinates. */
  datatype Vertex = Vertex(pos: Vec3, normal: Vec3, uv: seq<real>)

  function Floats(v: Vertex): seq<real> {
    [v.pos.x, v.pos.y, v.pos.z, v.normal.x, v.normal.y, v.normal.z] + v.uv
  }

  /** The interleaved number array built by the `data.concat(...)` calls. */
  function Flatten(vs: seq<Vertex>): seq<real> {
    if |vs| == 0 then [] else Floats(vs[0]) + Flatten(vs[1..])
  }

  /** Every vertex of `vs` takes `w` numbers. */
  predicate Width(vs: seq<Vertex>, w: nat) {
    forall v :: v in vs ==> |Floats(v)| == w
  }

  /** Positions and normals of a stream, without texture coordinates. */
  function Geometry(vs: seq<Vertex>): seq<(Vec3, Vec3)> {
    seq(|vs|, i requires 0 <= i < |vs| => (vs[i].pos, vs[i].normal))
  }

  /** The output of a loop of `n` steps whose step `s` emits `f(s)`. */
  function Steps(n: nat, f: nat -> seq<Vertex>): seq<Vertex>
    decreases n
  {
    if n == 0 then [] else Steps(n - 1, f) + f(n - 1)
  }

  // ------------------------------------------------------- stream lemmas

  /** Block `k` of width `w` ends inside `n` blocks. */
  lemma IndexBound(w: nat, k: nat, c: nat, n: nat)
    requires k < n && c < w
    ensures w * k + c < w * n
  {
    MulLe(k + 1, n, w);
  }

  lemma MulSucc(w: nat, k: nat)
    requires k > 0
    ensures w * k == w + w * (k - 1)
  {
  }

  lemma {:induction false} FlattenAppend(a: seq<Vertex>, b: seq<Vertex>)
    ensures Flatten(a + b) == Flatten(a) + Flatten(b)
    decreases |a|
  {
    if |a| == 0 {
      assert a + b == b;
    } else {
      assert (a + b)[0] == a[0];
      assert (a + b)[1..] == a[1..] + b;
      FlattenAppend(a[1..], b);
    }
  }

  lemma {:induction false} FlattenLength(vs: seq<Vertex>, w: nat)
    requires Width(vs, w)
    ensures |Flatten(vs)| == w * |vs|
    decreases |vs|
  {
    if |vs| > 0 {
      assert vs[0] in vs;
      assert Width(vs[1..], w) by {
        forall v | v in vs[1..] ensures |Floats(v)| == w {
          assert v in vs;
        }
      }
      FlattenLength(vs[1..], w);
      MulSucc(w, |vs|);
    }
  }

  /** Vertex `k` of a stream of width `w` occupies numbers `w * k` to
      `w * k + w - 1` of the flattened array. */
  lemma FlattenIndex(vs: seq<Vertex>, w: nat, k: nat, c: nat)
    requires Width(vs, w) && k < |vs| && c < w
    ensures w * k + c < |Flatten(vs)| && Flatten(vs)[w * k + c] == Floats(vs[k])[c]
  {
    var front, back := vs[..k], vs[k..];
    assert vs == front + back;
    WidthPrefix(vs, w, k);
    assert vs[k] in vs;
    FlattenAppend(front, back);
    FlattenLength(front, w);
    FlattenLength(vs, w);
    IndexBound(w, k, c, |vs|);
    assert back[0] == vs[k];
    FlattenHead(back, c);
  }

  lemma WidthPrefix(vs: seq<Vertex>, w: nat, k: nat)
    requires Width(vs, w) && k <= |vs|
    ensures Width(vs[..k], w)
  {
    forall v | v in vs[..k] ensures |Floats(v)| == w {
      assert v in vs;
    }
  }

  /** The first vertex's numbers open the flattened array. */
  lemma FlattenHead(vs: seq<Vertex>, c: nat)
    requires |vs| > 0 && c < |Floats(vs[0])|
    ensures c < |Flatten(vs)| && Flatten(vs)[c] == Floats(vs[0])[c]
  {
    assert Flatten(vs) == Floats(vs[0]) + Flatten(vs[1..]);
  }

  lemma {:induction false} StepsLength(n: nat, w: nat, f: nat -> seq<Vertex>)
    requires forall k :: 0 <= k < n ==> |f(k)| == w
    ensures |Steps(n, f)| == n * w
    decreases n
  {
    if n > 0 {
      StepsLength(n - 1, w, f);
      assert n * w == (n - 1) * w + w;
    }
  }

  lemma {:induction false} StepsIndex(n: nat, w: nat, f: nat -> seq<Vertex>, s: nat, j: nat)
    requires forall k :: 0 <= k < n ==> |f(k)| == w
    requires s < n && j < w
    ensures w * s + j < |Steps(n, f)|
    ensures Steps(n, f)[w * s + j] == f(s)[j]
    decreases n
  {
    StepsLength(n, w, f);
    StepsLength(n - 1, w, f);
    if s < n - 1 {
      MulLe(s + 1, n - 1, w);
      StepsIndex(n - 1, w, f, s, j);
    } else {
      assert w * s + j == |Steps(n - 1, f)| + j;
    }
  }

  lemma {:induction false} StepsWidth(n: nat, w: nat, f: nat -> seq<Vertex>)
    requires forall k :: 0 <= k < n ==> Width(f(k), w)
    ensures Width(Steps(n, f), w)
    decreases n
  {
    if n > 0 {
      StepsWidth(n - 1, w, f);
      assert Width(f(n - 1), w);
    }
  }

  lemma GeometryAppend(a: seq<Vertex>, b: seq<Vertex>)
    ensures Geometry(a + b) == Geometry(a) + Geometry(b)
  {
  }

  lemma {:induction false} StepsGeometry(n: nat, f: nat -> seq<Vertex>, g: nat -> seq<Vertex>)
    requires forall k :: 0 <= k < n ==> Geometry(f(k)) == Geometry(g(k))
    ensures Geometry(Steps(n, f)) == Geometry(Steps(n, g))
    decreases n
  {
    if n > 0 {
      StepsGeometry(n - 1, f, g);
      GeometryAppend(Steps(n - 1, f), f(n - 1));
      GeometryAppend(Steps(n - 1, g), g(n - 1));
    }
  }

  // ------------------------------------------------------------ triangles

  /** The `addTri` closure shared by cone and cylinder: three vertices with
      the normalised face normal of `(v2 - v1) x (v3 - v1)`. */
  function AddTri(m: MathLib, v1: Vec3, v2: Vec3, v3: Vec3): seq<Vertex> {
    var n := m.normalize(Cross(Sub(v2, v1), Sub(v3, v1)));
    [Vertex(v1, n, []), Vertex(v2, n, []), Vertex(v3, n, [])]
  }

  /** The point of the unit circle at height 1 reached after `s` angle steps
      of `360 / div` degrees: `[cos(theta), 1, sin(theta)]`. */
  function Rim(m: MathLib, div: nat, s: nat): Vec3
    requires div > 0
  {
    var theta := Radians(m, s as real * (360.0 / div as real));
    Vec3(m.cos(theta), 1.0, m.sin(theta))
  }

  /** All three vertices of triangle `t` of `vs` carry the same normal. */
  predicate SharedNormal(vs: seq<Vertex>, t: nat)
    requires 3 * t + 2 < |vs|
  {
    vs[3 * t].normal == vs[3 * t + 1].normal == vs[3 * t + 2].normal
  }

  // ----------------------------------------------------------------- cone

  const CONE_DIVISIONS: nat := 12

  /** Angle step `s` of part `part`: part 0 is the side, a fan from the apex
      (0, 0, 0) to the rim; part 1 is the cap, from (0, 1, 0) with the rim
      points in the opposite order. */
  function ConeStep(m: MathLib, div: nat, part: nat, s: nat): seq<Vertex>
    requires div > 0
  {
    if part == 0 then AddTri(m, Vec3(0.0, 0.0, 0.0), Rim(m, div, s), Rim(m, div, s + 1))
    else AddTri(m, Vec3(0.0, 1.0, 0.0), Rim(m, div, s + 1), Rim(m, div, s))
  }

  function ConeStepFn(m: MathLib, div: nat, part: nat): nat -> seq<Vertex>
    requires div > 0
  {
    (s: nat) => ConeStep(m, div, part, s)
  }

  function ConeVertices(m: MathLib, div: nat): seq<Vertex>
    requires div > 0
  {
    Steps(div, ConeStepFn(m, div, 0)) + Steps(div, ConeStepFn(m, div, 1))
  }

  lemma ConeIndex(m: MathLib, div: nat, part: nat, s: nat, j: nat)
    requires div > 0 && part < 2 && s < div && j < 3
    ensures |ConeVertices(m, div)| == 6 * div
    ensures var i := (if part == 0 then 0 else 3 * div) + 3 * s + j;
            i < 6 * div && ConeVertices(m, div)[i] == ConeStep(m, div, part, s)[j]
  {
    ConeStepsLength(m, div, 0);
    ConeStepsLength(m, div, 1);
    PairedStepsIndex(div, ConeStepFn(m, div, 0), ConeStepFn(m, div, 1), s, j);
  }

  lemma ConeStepsLength(m: MathLib, div: nat, part: nat)
    requires div > 0
    ensures forall k :: 0 <= k < div ==> |ConeStepFn(m, div, part)(k)| == 3
  {
  }

  /** Two loops of `n` three-vertex steps run one after the other: step
      `s` of the first starts at `3 * s`, step `s` of the second at
      `3 * n + 3 * s`. */
  lemma PairedStepsIndex(n: nat, f: nat -> seq<Vertex>, g: nat -> seq<Vertex>, s: nat, j: nat)
    requires forall k :: 0 <= k < n ==> |f(k)| == 3
    requires forall k :: 0 <= k < n ==> |g(k)| == 3
    requires s < n && j < 3
    ensures |Steps(n, f) + Steps(n, g)| == 6 * n
    ensures (Steps(n, f) + Steps(n, g))[3 * s + j] == f(s)[j]
    ensures (Steps(n, f) + Steps(n, g))[3 * n + 3 * s + j] == g(s)[j]
  {
    var a, b := Steps(n, f), Steps(n, g);
    StepsLength(n, 3, f);
    StepsLength(n, 3, g);
    StepsIndex(n, 3, f, s, j);
    StepsIndex(n, 3, g, s, j);
    assert (a + b)[|a| + (3 * s + j)] == b[3 * s + j];
  }

  /** Step `s` of a cone stream: the side triangle starts at the apex, the
      cap triangle at the cap centre, and the cap lists the side's two rim
      points in reverse order. */
  predicate ConeStepShape(vs: seq<Vertex>, div: nat, s: nat)
    requires |vs| == 6 * div && s < div
  {
    vs[3 * s].pos == Vec3(0.0, 0.0, 0.0) && vs[3 * div + 3 * s].pos == Vec3(0.0, 1.0, 0.0) &&
    vs[3 * div + 3 * s + 1].pos == vs[3 * s + 2].pos &&
    vs[3 * div + 3 * s + 2].pos == vs[3 * s + 1].pos
  }

  /** Two triangles per angle step, six numbers per vertex: `36 * div`
      numbers, so the face count `length / 18` is `2 * div`. */
  lemma ConeSize(m: MathLib, div: nat)
    requires div > 0
    ensures var vs := ConeVertices(m, div);
            |vs| == 6 * div && |Flatten(vs)| == 36 * div && |Flatten(vs)| / 18 == 2 * div
  {
    var vs := ConeVertices(m, div);
    ConeIndex(m, div, 0, 0, 0);
    ConeWidth(m, div);
    FlattenLength(vs, 6);
  }

  /** The cone stream's size as above; side and cap
      triangles of a step share their rim points in reversed order, every
      cap vertex lies in the plane y = 1, and each triangle's three
      vertices share one normal. */
  lemma ConeLayout(m: MathLib, div: nat)
    requires div > 0
    ensures var vs := ConeVertices(m, div);
            |vs| == 6 * div && |Flatten(vs)| == 36 * div && |Flatten(vs)| / 18 == 2 * div
    ensures var vs := ConeVertices(m, div);
            forall s :: 0 <= s < div ==> ConeStepShape(vs, div, s)
    ensures var vs := ConeVertices(m, div);
            forall i :: 3 * div <= i < 6 * div ==> vs[i].pos.y == 1.0
    ensures var vs := ConeVertices(m, div);
            forall t :: 0 <= t < 2 * div ==> SharedNormal(vs, t)
  {
    ConeSize(m, div);
    ConeShapes(m, div);
    ConeCapPlane(m, div);
    ConeNormals(m, div);
  }

  lemma ConeShapes(m: MathLib, div: nat)
    requires div > 0
    ensures |ConeVertices(m, div)| == 6 * div
    ensures forall s :: 0 <= s < div ==> ConeStepShape(ConeVertices(m, div), div, s)
  {
    ConeIndex(m, div, 0, 0, 0);
    forall s | 0 <= s < div
      ensures ConeStepShape(ConeVertices(m, div), div, s)
    {
      ConeShapeAt(m, div, s);
    }
  }

  lemma ConeShapeAt(m: MathLib, div: nat, s: nat)
    requires div > 0 && s < div
    ensures |ConeVertices(m, div)| == 6 * div && ConeStepShape(ConeVertices(m, div), div, s)
  {
    ConeIndex(m, div, 0, s, 0);
    ConeIndex(m, div, 0, s, 1);
    ConeIndex(m, div, 0, s, 2);
    ConeIndex(m, div, 1, s, 0);
    ConeIndex(m, div, 1, s, 1);
    ConeIndex(m, div, 1, s, 2);
  }

  lemma ConeCapPlane(m: MathLib, div: nat)
    requires div > 0
    ensures |ConeVertices(m, div)| == 6 * div
    ensures forall i :: 3 * div <= i < 6 * div ==> ConeVertices(m, div)[i].pos.y == 1.0
  {
    ConeIndex(m, div, 0, 0, 0);
    forall i | 3 * div <= i < 6 * div
      ensures ConeVertices(m, div)[i].pos.y == 1.0
    {
      var s, j := (i - 3 * div) / 3, (i - 3 * div) % 3;
      assert i == 3 * div + 3 * s + j;
      ConeIndex(m, div, 1, s, j);
    }
  }

  lemma ConeNormals(m: MathLib, div: nat)
    requires div > 0
    ensures |ConeVertices(m, div)| == 6 * div
    ensures forall t :: 0 <= t < 2 * div ==> SharedNormal(ConeVertices(m, div), t)
  {
    ConeIndex(m, div, 0, 0, 0);
    forall t | 0 <= t < 2 * div
      ensures SharedNormal(ConeVertices(m, div), t)
    {
      var part, s := if t < div then 0 else 1, if t < div then t else t - div;
      ConeIndex(m, div, part, s, 0);
      ConeIndex(m, div, part, s, 1);
      ConeIndex(m, div, part, s, 2);
    }
  }

  lemma ConeWidth(m: MathLib, div: nat)
    requires div > 0
    ensures Width(ConeVertices(m, div), 6)
  {
    StepsWidth(div, 6, ConeStepFn(m, div, 0));
    StepsWidth(div, 6, ConeStepFn(m, div, 1));
  }

  // ------------------------------------------------------------- cylinder

  const CYLINDER_DIVISIONS: nat := 15

  /** Angle step `s`: the top cap triangle, the two triangles of the wall
      and the bottom cap triangle, interleaved in the order `initialise`
      adds them. */
  function CylinderStep(m: MathLib, div: nat, s: nat): seq<Vertex>
    requires div > 0
  {
    var top, bottom := Vec3(0.0, 1.0, 0.0), Vec3(0.0, 0.0, 0.0);
    var t1, t2 := Rim(m, div, s), Rim(m, div, s + 1);
    var b1, b2 := Vec3(t1.x, 0.0, t1.z), Vec3(t2.x, 0.0, t2.z);
    AddTri(m, top, t2, t1) + AddTri(m, t2, b2, b1) + AddTri(m, b2, bottom, b1) + AddTri(m, b1, t1, t2)
  }

  function CylinderStepFn(m: MathLib, div: nat): nat -> seq<Vertex>
    requires div > 0
  {
    (s: nat) => CylinderStep(m, div, s)
  }

  function CylinderVertices(m: MathLib, div: nat): seq<Vertex>
    requires div > 0
  {
    Steps(div, CylinderStepFn(m, div))
  }

  lemma CylinderIndex(m: MathLib, div: nat, s: nat, j: nat)
    requires div > 0 && s < div && j < 12
    ensures |CylinderVertices(m, div)| == 12 * div
    ensures 12 * s + j < 12 * div && CylinderVertices(m, div)[12 * s + j] == CylinderStep(m, div, s)[j]
  {
    StepsLength(div, 12, CylinderStepFn(m, div));
    StepsIndex(div, 12, CylinderStepFn(m, div), s, j);
  }

  /** Step `s` of a cylinder stream: its first triangle lies in the plane
      y = 1 (top cap), its third in y = 0 (bottom cap), and the wall
      triangles join the rim points of angles `s` and `s + 1` at both
      heights. */
  predicate CylinderStepShape(vs: seq<Vertex>, m: MathLib, div: nat, s: nat)
    requires div > 0 && |vs| == 12 * div && s < div
  {
    var t1, t2 := Rim(m, div, s), Rim(m, div, s + 1);
    vs[12 * s].pos.y == vs[12 * s + 1].pos.y == vs[12 * s + 2].pos.y == 1.0 &&
    vs[12 * s + 6].pos.y == vs[12 * s + 7].pos.y == vs[12 * s + 8].pos.y == 0.0 &&
    vs[12 * s + 3].pos == t2 && vs[12 * s + 4].pos == Vec3(t2.x, 0.0, t2.z) &&
    vs[12 * s + 5].pos == Vec3(t1.x, 0.0, t1.z) &&
    vs[12 * s + 9].pos == Vec3(t1.x, 0.0, t1.z) && vs[12 * s + 10].pos == t1 &&
    vs[12 * s + 11].pos == t2
  }

  lemma CylinderShapeAt(m: MathLib, div: nat, s: nat)
    requires div > 0 && s < div
    ensures |CylinderVertices(m, div)| == 12 * div
    ensures CylinderStepShape(CylinderVertices(m, div), m, div, s)
  {
    var st := CylinderStep(m, div, s);
    CylinderIndex(m, div, s, 0);
    CylinderIndex(m, div, s, 1);
    CylinderIndex(m, div, s, 2);
    CylinderIndex(m, div, s, 3);
    CylinderIndex(m, div, s, 4);
    CylinderIndex(m, div, s, 5);
    CylinderIndex(m, div, s, 6);
    CylinderIndex(m, div, s, 7);
    CylinderIndex(m, div, s, 8);
    CylinderIndex(m, div, s, 9);
    CylinderIndex(m, div, s, 10);
    CylinderIndex(m, div, s, 11);
  }

  lemma CylinderStepNormals(m: MathLib, div: nat, s: nat, q: nat)
    requires div > 0 && q < 4
    ensures var st := CylinderStep(m, div, s);
            |st| == 12 && st[3 * q].normal == st[3 * q + 1].normal == st[3 * q + 2].normal
  {
    var st := CylinderStep(m, div, s);
    if q == 0 {
      assert st[0].normal == st[1].normal == st[2].normal;
    } else if q == 1 {
      assert st[3].normal == st[4].normal == st[5].normal;
    } else if q == 2 {
      assert st[6].normal == st[7].normal == st[8].normal;
    } else {
      assert st[9].normal == st[10].normal == st[11].normal;
    }
  }

  lemma CylinderNormalsAt(m: MathLib, div: nat, t: nat)
    requires div > 0 && t < 4 * div
    ensures |CylinderVertices(m, div)| == 12 * div
    ensures SharedNormal(CylinderVertices(m, div), t)
  {
    var s, q := t / 4, t % 4;
    QuarterSplit(t, div);
    CylinderStepNormals(m, div, s, q);
    CylinderIndex(m, div, s, 3 * q);
    CylinderIndex(m, div, s, 3 * q + 1);
    CylinderIndex(m, div, s, 3 * q + 2);
  }

  lemma QuarterSplit(t: nat, div: nat)
    requires t < 4 * div
    ensures t / 4 < div && t % 4 < 4 && 3 * t == 12 * (t / 4) + 3 * (t % 4)
  {
  }

  /** Four triangles per step: `72 * div` numbers and `length / 18` =
      `4 * div` faces. */
  lemma CylinderSize(m: MathLib, div: nat)
    requires div > 0
    ensures var vs := CylinderVertices(m, div);
            |vs| == 12 * div && |Flatten(vs)| == 72 * div && |Flatten(vs)| / 18 == 4 * div
  {
    var vs := CylinderVertices(m, div);
    forall k | 0 <= k < div
      ensures Width(CylinderStepFn(m, div)(k), 6) && |CylinderStepFn(m, div)(k)| == 12
    {
      CylinderStepWidth(m, div, k);
    }
    StepsLength(div, 12, CylinderStepFn(m, div));
    StepsWidth(div, 6, CylinderStepFn(m, div));
    FlattenLength(vs, 6);
  }

  lemma CylinderStepWidth(m: MathLib, div: nat, s: nat)
    requires div > 0
    ensures Width(CylinderStep(m, div, s), 6) && |CylinderStep(m, div, s)| == 12
  {
    var top, bottom := Vec3(0.0, 1.0, 0.0), Vec3(0.0, 0.0, 0.0);
    var t1, t2 := Rim(m, div, s), Rim(m, div, s + 1);
    var b1, b2 := Vec3(t1.x, 0.0, t1.z), Vec3(t2.x, 0.0, t2.z);
    var a1, a2, a3, a4 := AddTri(m, top, t2, t1), AddTri(m, t2, b2, b1), AddTri(m, b2, bottom, b1), AddTri(m, b1, t1, t2);
    AddTriWidth(m, top, t2, t1);
    AddTriWidth(m, t2, b2, b1);
    AddTriWidth(m, b2, bottom, b1);
    AddTriWidth(m, b1, t1, t2);
    WidthConcat(a1, a2, 6);
    WidthConcat(a1 + a2, a3, 6);
    WidthConcat(a1 + a2 + a3, a4, 6);
  }

  lemma AddTriWidth(m: MathLib, v1: Vec3, v2: Vec3, v3: Vec3)
    ensures Width(AddTri(m, v1, v2, v3), 6) && |AddTri(m, v1, v2, v3)| == 3
  {
  }

  lemma WidthConcat(a: seq<Vertex>, b: seq<Vertex>, w: nat)
    requires Width(a, w) && Width(b, w)
    ensures Width(a + b, w)
  {
  }

  /** The cylinder stream's size as above, each step shaped as above, and
      each triangle's three vertices sharing one normal. */
  lemma CylinderLayout(m: MathLib, div: nat)
    requires div > 0
    ensures var vs := CylinderVertices(m, div);
            |vs| == 12 * div && |Flatten(vs)| == 72 * div && |Flatten(vs)| / 18 == 4 * div
    ensures var vs := CylinderVertices(m, div);
            forall s :: 0 <= s < div ==> CylinderStepShape(vs, m, div, s)
    ensures var vs := CylinderVertices(m, div);
            forall t :: 0 <= t < 4 * div ==> SharedNormal(vs, t)
  {
    var vs := CylinderVertices(m, div);
    CylinderSize(m, div);
    forall s | 0 <= s < div
      ensures CylinderStepShape(vs, m, div, s)
    {
      CylinderShapeAt(m, div, s);
    }
    forall t | 0 <= t < 4 * div
      ensures SharedNormal(vs, t)
    {
      CylinderNormalsAt(m, div, t);
    }
  }

  // --------------------------------------------------------------- sphere

  const SPHERE_DIVISIONS: nat := 13

  /** `sphere.uvProjection`. The source also tests for a `POLAR` value that
      the enumeration does not define; that test is always false, so the
      texture coordinate always comes from `generateUVs`. */
  datatype UVProjection = Planar | Spherical

  /** `sphere.generateUVs`: the planar projection drops y; the spherical
      one maps longitude and latitude into [0, 1]. */
  function GenerateUVs(m: MathLib, proj: UVProjection, v: Vec3): (uv: seq<real>)
    ensures |uv| == 2
    ensures proj == Planar ==> uv == [v.x, v.z]
  {
    match proj
    case Planar => [v.x, v.z]
    case Spherical => [m.atan2(v.z, v.x) / (2.0 * m.pi) + 0.5, 0.5 - m.asin(v.y) / m.pi]
  }

  /** Latitude band `t` (from -90 degrees upwards) and longitude sector `p`:
      corners v1..v4, each with its normalised position as normal. */
  function SphereCell(m: MathLib, proj: UVProjection, div: nat, t: nat, p: nat): seq<Vertex>
    requires div > 0
  {
    var dtheta, dphi := 180.0 / div as real, 360.0 / div as real;
    var theta, phi := -90.0 + t as real * dtheta, p as real * dphi;
    var theta1, theta2 := Radians(m, theta), Radians(m, theta + dtheta);
    var phi1, phi2 := Radians(m, phi), Radians(m, phi + dphi);
    var cT1, cT2, sT1, sT2 := m.cos(theta1), m.cos(theta2), m.sin(theta1), m.sin(theta2);
    var cP1, cP2, sP1, sP2 := m.cos(phi1), m.cos(phi2), m.sin(phi1), m.sin(phi2);
    var v1 := Vec3(cT1 * cP2, cT1 * sP2, sT1);
    var v2 := Vec3(cT2 * cP2, cT2 * sP2, sT2);
    var v3 := Vec3(cT2 * cP1, cT2 * sP1, sT2);
    var v4 := Vec3(cT1 * cP1, cT1 * sP1, sT1);
    [Vertex(v1, m.normalize(v1), GenerateUVs(m, proj, v1)),
     Vertex(v2, m.normalize(v2), GenerateUVs(m, proj, v2)),
     Vertex(v3, m.normalize(v3), GenerateUVs(m, proj, v3)),
     Vertex(v4, m.normalize(v4), GenerateUVs(m, proj, v4))]
  }

  /** Cells in loop order: latitude outer, longitude inner. */
  function SphereCellFn(m: MathLib, proj: UVProjection, div: nat): nat -> seq<Vertex>
    requires div > 0
  {
    (k: nat) => SphereCell(m, proj, div, k / div, k % div)
  }

  function SphereVertices(m: MathLib, proj: UVProjection, div: nat): seq<Vertex>
    requires div > 0
  {
    Steps(div * div, SphereCellFn(m, proj, div))
  }

  lemma SphereWidth(m: MathLib, proj: UVProjection, div: nat)
    requires div > 0
    ensures Width(SphereVertices(m, proj, div), 8)
    ensures |SphereVertices(m, proj, div)| == 4 * (div * div)
  {
    var f := SphereCellFn(m, proj, div);
    forall k | 0 <= k < div * div
      ensures Width(f(k), 8) && |f(k)| == 4
    {
      SphereCellWidth(m, proj, div, k / div, k % div);
    }
    StepsWidth(div * div, 8, f);
    StepsLength(div * div, 4, f);
  }

  lemma SphereCellWidth(m: MathLib, proj: UVProjection, div: nat, t: nat, p: nat)
    requires div > 0
    ensures Width(SphereCell(m, proj, div, t, p), 8) && |SphereCell(m, proj, div, t, p)| == 4
  {
  }

  /** One four-vertex, eight-number quad per cell: `32 * div^2` numbers and
      `div^2` faces; every normal is the normalised position. */
  lemma SphereLayout(m: MathLib, proj: UVProjection, div: nat)
    requires div > 0
    ensures var vs := SphereVertices(m, proj, div);
            |vs| == 4 * (div * div) && |Flatten(vs)| == 32 * (div * div) &&
            |Flatten(vs)| / 32 == div * div
    ensures forall v :: v in SphereVertices(m, proj, div) ==> v.normal == m.normalize(v.pos)
  {
    SphereSize(m, proj, div);
    SphereMembers(m, proj, div);
  }

  lemma SphereSize(m: MathLib, proj: UVProjection, div: nat)
    requires div > 0
    ensures var vs := SphereVertices(m, proj, div);
            |vs| == 4 * (div * div) && |Flatten(vs)| == 32 * (div * div) &&
            |Flatten(vs)| / 32 == div * div
  {
    var vs := SphereVertices(m, proj, div);
    var n := div * div;
    SphereWidth(m, proj, div);
    FlattenLength(vs, 8);
    assert |Flatten(vs)| == 32 * n;
    DivModUnique(32 * n, 32, n, 0);
  }

  lemma SphereMembers(m: MathLib, proj: UVProjection, div: nat)
    requires div > 0
    ensures forall v :: v in SphereVertices(m, proj, div) ==>
              v.normal == m.normalize(v.pos) && v.uv == GenerateUVs(m, proj, v.pos)
  {
    var f := SphereCellFn(m, proj, div);
    var P := (v: Vertex) => SphereVertexGood(m, proj, v);
    forall k, v | 0 <= k < div * div && v in f(k)
      ensures P(v)
    {
      SphereStepMembers(m, proj, div, k);
    }
    StepsMembers(div * div, f, P);
  }

  /** A sphere vertex carries its normalised position as normal and its
      projection as texture coordinate. */
  predicate SphereVertexGood(m: MathLib, proj: UVProjection, v: Vertex) {
    v.normal == m.normalize(v.pos) && v.uv == GenerateUVs(m, proj, v.pos)
  }

  lemma SphereStepMembers(m: MathLib, proj: UVProjection, div: nat, k: nat)
    requires div > 0
    ensures forall v :: v in SphereCellFn(m, proj, div)(k) ==> SphereVertexGood(m, proj, v)
  {
    SphereCellFnAt(m, proj, div, k);
    SphereCellMembers(m, proj, div, k / div, k % div);
  }

  lemma SphereCellFnAt(m: MathLib, proj: UVProjection, div: nat, k: nat)
    requires div > 0
    ensures SphereCellFn(m, proj, div)(k) == SphereCell(m, proj, div, k / div, k % div)
  {
  }

  /** Every corner of a cell carries its normalised position as normal and
      its projection as texture coordinate. */
  lemma SphereCellMembers(m: MathLib, proj: UVProjection, div: nat, t: nat, p: nat)
    requires div > 0
    ensures forall v :: v in SphereCell(m, proj, div, t, p) ==> SphereVertexGood(m, proj, v)
  {
  }

  lemma {:induction false} StepsMembers(n: nat, f: nat -> seq<Vertex>, P: Vertex -> bool)
    requires forall k, v :: 0 <= k < n && v in f(k) ==> P(v)
    ensures forall v :: v in Steps(n, f) ==> P(v)
    decreases n
  {
    if n > 0 {
      StepsMembers(n - 1, f, P);
    }
  }

  /** The buffer with the planar projection stores (x, z) as the texture
      coordinate of each vertex: number `8k + 6` repeats number `8k` and
      number `8k + 7` repeats number `8k + 2`. */
  lemma SpherePlanarUV(m: MathLib, div: nat, k: nat)
    requires div > 0 && k < 4 * (div * div)
    ensures var data := Flatten(SphereVertices(m, Planar, div));
            8 * k + 7 < |data| && data[8 * k + 6] == data[8 * k] && data[8 * k + 7] == data[8 * k + 2]
  {
    var vs := SphereVertices(m, Planar, div);
    SphereWidth(m, Planar, div);
    PlanarVertexAt(m, div, k);
    PlanarFloats(vs[k]);
    FlattenIndex(vs, 8, k, 0);
    FlattenIndex(vs, 8, k, 2);
    FlattenIndex(vs, 8, k, 6);
    FlattenIndex(vs, 8, k, 7);
  }

  lemma PlanarVertexAt(m: MathLib, div: nat, k: nat)
    requires div > 0 && k < |SphereVertices(m, Planar, div)|
    ensures var v := SphereVertices(m, Planar, div)[k]; v.uv == [v.pos.x, v.pos.z]
  {
    var vs := SphereVertices(m, Planar, div);
    SphereMembers(m, Planar, div);
    assert vs[k] in vs;
  }

  lemma PlanarFloats(v: Vertex)
    requires v.uv == [v.pos.x, v.pos.z]
    ensures |Floats(v)| == 8 && Floats(v)[6] == Floats(v)[0] && Floats(v)[7] == Floats(v)[2]
  {
  }

  /** Positions and normals do not depend on the projection: the two
      buffers have the same length and agree on the first six numbers of
      every vertex. */
  lemma SphereProjectionIndependent(m: MathLib, div: nat, p1: UVProjection, p2: UVProjection, i: nat)
    requires div > 0
    ensures |Flatten(SphereVertices(m, p1, div))| == |Flatten(SphereVertices(m, p2, div))|
    ensures i < |Flatten(SphereVertices(m, p1, div))| && i % 8 < 6 ==>
              Flatten(SphereVertices(m, p1, div))[i] == Flatten(SphereVertices(m, p2, div))[i]
  {
    var vs1, vs2 := SphereVertices(m, p1, div), SphereVertices(m, p2, div);
    SphereWidth(m, p1, div);
    SphereWidth(m, p2, div);
    FlattenLength(vs1, 8);
    FlattenLength(vs2, 8);
    if i < |Flatten(vs1)| && i % 8 < 6 {
      var k, c := i / 8, i % 8;
      DivBounds(i, 8, 0, |vs1|);
      FlattenIndex(vs1, 8, k, c);
      FlattenIndex(vs2, 8, k, c);
      SphereGeometry(m, div, p1, p2);
      assert Geometry(vs1)[k] == Geometry(vs2)[k];
    }
  }

  lemma SphereGeometry(m: MathLib, div: nat, p1: UVProjection, p2: UVProjection)
    requires div > 0
    ensures Geometry(SphereVertices(m, p1, div)) == Geometry(SphereVertices(m, p2, div))
  {
    forall q | 0 <= q < div * div
      ensures Geometry(SphereCellFn(m, p1, div)(q)) == Geometry(SphereCellFn(m, p2, div)(q))
    {
      SphereStepGeometry(m, div, p1, p2, q);
    }
    StepsGeometry(div * div, SphereCellFn(m, p1, div), SphereCellFn(m, p2, div));
  }

  lemma SphereStepGeometry(m: MathLib, div: nat, p1: UVProjection, p2: UVProjection, q: nat)
    requires div > 0
    ensures Geometry(SphereCellFn(m, p1, div)(q)) == Geometry(SphereCellFn(m, p2, div)(q))
  {
    SphereCellFnAt(m, p1, div, q);
    SphereCellFnAt(m, p2, div, q);
    SphereCellGeometry(m, div, p1, p2, q / div, q % div);
  }

  /** A cell's positions and normals do not depend on the projection. */
  lemma SphereCellGeometry(m: MathLib, div: nat, p1: UVProjection, p2: UVProjection, t: nat, p: nat)
    requires div > 0
    ensures Geometry(SphereCell(m, p1, div, t, p)) == Geometry(SphereCell(m, p2, div, t, p))
  {
  }

  // ----------------------------------------------------------------- cube

  const CUBE_CORNERS: seq<Vec3> := [
    Vec3(-1.0, -1.0, -1.0), Vec3(1.0, -1.0, -1.0), Vec3(1.0, 1.0, -1.0), Vec3(-1.0, 1.0, -1.0),
    Vec3(1.0, -1.0, 1.0), Vec3(-1.0, -1.0, 1.0), Vec3(-1.0, 1.0, 1.0), Vec3(1.0, 1.0, 1.0)]

  /** Front, back, right, left, top, bottom. */
  const CUBE_NORMALS: seq<Vec3> := [
    Vec3(0.0, 0.0, -1.0), Vec3(0.0, 0.0, 1.0), Vec3(1.0, 0.0, 0.0),
    Vec3(-1.0, 0.0, 0.0), Vec3(0.0, 1.0, 0.0), Vec3(0.0, -1.0, 0.0)]

  /** The corner indices of each face, in the order they are emitted. */
  const CUBE_FACES: seq<seq<nat>> := [
    [3, 2, 1, 0], [7, 6, 5, 4], [2, 7, 4, 1], [6, 3, 0, 5], [6, 7, 2, 3], [0, 1, 4, 5]]

  function CubeFace(f: nat): seq<Vertex>
    requires f < 6
  {
    var c, n := CUBE_FACES[f], CUBE_NORMALS[f];
    [Vertex(CUBE_CORNERS[c[0]], n, []), Vertex(CUBE_CORNERS[c[1]], n, []),
     Vertex(CUBE_CORNERS[c[2]], n, []), Vertex(CUBE_CORNERS[c[3]], n, [])]
  }

  function CubeVertices(): seq<Vertex> {
    CubeFace(0) + CubeFace(1) + CubeFace(2) + CubeFace(3) + CubeFace(4) + CubeFace(5)
  }

  /** A face of four vertices: all carry normal `n`, lie on the plane
      position . n = 1, and are four different points. */
  predicate FaceShape(face: seq<Vertex>, n: Vec3) {
    |face| == 4 &&
    (forall j :: 0 <= j < 4 ==> face[j].normal == n && Dot(face[j].pos, n) == 1.0) &&
    (forall j1, j2 :: 0 <= j1 < j2 < 4 ==> face[j1].pos != face[j2].pos)
  }

  /** Face `f` of a 24-vertex cube stream is shaped as above with normal
      `f`: its four vertices are four different corners of that face. */
  predicate CubeFaceShape(vs: seq<Vertex>, f: nat)
    requires |vs| == 24 && f < 6
  {
    FaceShape(vs[4 * f..4 * f + 4], CUBE_NORMALS[f])
  }

  lemma CubeFaceAt(f: nat)
    requires f < 6
    ensures |CubeVertices()| == 24 && CubeVertices()[4 * f..4 * f + 4] == CubeFace(f)
  {
    var vs := CubeVertices();
    if f == 0 {
      assert vs[0..4] == CubeFace(0);
    } else if f == 1 {
      assert vs[4..8] == CubeFace(1);
    } else if f == 2 {
      assert vs[8..12] == CubeFace(2);
    } else if f == 3 {
      assert vs[12..16] == CubeFace(3);
    } else if f == 4 {
      assert vs[16..20] == CubeFace(4);
    } else {
      assert vs[20..24] == CubeFace(5);
    }
  }

  /** 6 faces of 4 vertices of 6 numbers, each face shaped as above. */
  lemma CubeLayout()
    ensures |CubeVertices()| == 24 && |Flatten(CubeVertices())| == 144
    ensures forall f :: 0 <= f < 6 ==> CubeFaceShape(CubeVertices(), f)
  {
    var vs := CubeVertices();
    CubeSize();
    forall f | 0 <= f < 6
      ensures CubeFaceShape(vs, f)
    {
      CubeFaceShapeAt(f);
    }
  }

  lemma CubeSize()
    ensures |CubeVertices()| == 24 && |Flatten(CubeVertices())| == 144
  {
    CubeWidth();
    FlattenLength(CubeVertices(), 6);
  }

  lemma CubeWidth()
    ensures |CubeVertices()| == 24 && Width(CubeVertices(), 6)
  {
    CubeFaceWidth(0);
    CubeFaceWidth(1);
    CubeFaceWidth(2);
    CubeFaceWidth(3);
    CubeFaceWidth(4);
    CubeFaceWidth(5);
    var f0, f1, f2, f3, f4, f5 := CubeFace(0), CubeFace(1), CubeFace(2), CubeFace(3), CubeFace(4), CubeFace(5);
    WidthConcat(f0, f1, 6);
    WidthConcat(f0 + f1, f2, 6);
    WidthConcat(f0 + f1 + f2, f3, 6);
    WidthConcat(f0 + f1 + f2 + f3, f4, 6);
    WidthConcat(f0 + f1 + f2 + f3 + f4, f5, 6);
  }

  lemma CubeFaceWidth(f: nat)
    requires f < 6
    ensures |CubeFace(f)| == 4 && Width(CubeFace(f), 6)
  {
  }

  lemma CubeFaceShapeAt(f: nat)
    requires f < 6
    ensures |CubeVertices()| == 24 && CubeFaceShape(CubeVertices(), f)
  {
    CubeFaceAt(f);
    CubeFaceGood(f);
  }

  lemma CubeFaceGood(f: nat)
    requires f < 6
    ensures FaceShape(CubeFace(f), CUBE_NORMALS[f])
  {
    if f == 0 {
      FrontFaceGood(f);
    } else if f == 1 {
      BackFaceGood(f);
    } else if f == 2 {
      RightFaceGood(f);
    } else if f == 3 {
      LeftFaceGood(f);
    } else if f == 4 {
      TopFaceGood(f);
    } else {
      BottomFaceGood(f);
    }
  }

  lemma FrontFaceGood(f: nat)
    requires f == 0
    ensures FaceShape(CubeFace(f), CUBE_NORMALS[f])
  {
    var n := Vec3(0.0, 0.0, -1.0);
    var p0, p1 := Vec3(-1.0, 1.0, -1.0), Vec3(1.0, 1.0, -1.0);
    var p2, p3 := Vec3(1.0, -1.0, -1.0), Vec3(-1.0, -1.0, -1.0);
    assert CubeFace(f) == [Vertex(p0, n, []), Vertex(p1, n, []), Vertex(p2, n, []), Vertex(p3, n, [])];
    FaceOf(p0, p1, p2, p3, n);
  }

  lemma BackFaceGood(f: nat)
    requires f == 1
    ensures FaceShape(CubeFace(f), CUBE_NORMALS[f])
  {
    var n := Vec3(0.0, 0.0, 1.0);
    var p0, p1 := Vec3(1.0, 1.0, 1.0), Vec3(-1.0, 1.0, 1.0);
    var p2, p3 := Vec3(-1.0, -1.0, 1.0), Vec3(1.0, -1.0, 1.0);
    assert CubeFace(f) == [Vertex(p0, n, []), Vertex(p1, n, []), Vertex(p2, n, []), Vertex(p3, n, [])];
    FaceOf(p0, p1, p2, p3, n);
  }

  lemma RightFaceGood(f: nat)
    requires f == 2
    ensures FaceShape(CubeFace(f), CUBE_NORMALS[f])
  {
    var n := Vec3(1.0, 0.0, 0.0);
    var p0, p1 := Vec3(1.0, 1.0, -1.0), Vec3(1.0, 1.0, 1.0);
    var p2, p3 := Vec3(1.0, -1.0, 1.0), Vec3(1.0, -1.0, -1.0);
    assert CubeFace(f) == [Vertex(p0, n, []), Vertex(p1, n, []), Vertex(p2, n, []), Vertex(p3, n, [])];
    FaceOf(p0, p1, p2, p3, n);
  }

  lemma LeftFaceGood(f: nat)
    requires f == 3
    ensures FaceShape(CubeFace(f), CUBE_NORMALS[f])
  {
    var n := Vec3(-1.0, 0.0, 0.0);
    var p0, p1 := Vec3(-1.0, 1.0, 1.0), Vec3(-1.0, 1.0, -1.0);
    var p2, p3 := Vec3(-1.0, -1.0, -1.0), Vec3(-1.0, -1.0, 1.0);
    assert CubeFace(f) == [Vertex(p0, n, []), Vertex(p1, n, []), Vertex(p2, n, []), Vertex(p3, n, [])];
    FaceOf(p0, p1, p2, p3, n);
  }

  lemma TopFaceGood(f: nat)
    requires f == 4
    ensures FaceShape(CubeFace(f), CUBE_NORMALS[f])
  {
    var n := Vec3(0.0, 1.0, 0.0);
    var p0, p1 := Vec3(-1.0, 1.0, 1.0), Vec3(1.0, 1.0, 1.0);
    var p2, p3 := Vec3(1.0, 1.0, -1.0), Vec3(-1.0, 1.0, -1.0);
    assert CubeFace(f) == [Vertex(p0, n, []), Vertex(p1, n, []), Vertex(p2, n, []), Vertex(p3, n, [])];
    FaceOf(p0, p1, p2, p3, n);
  }

  lemma BottomFaceGood(f: nat)
    requires f == 5
    ensures FaceShape(CubeFace(f), CUBE_NORMALS[f])
  {
    var n := Vec3(0.0, -1.0, 0.0);
    var p0, p1 := Vec3(-1.0, -1.0, -1.0), Vec3(1.0, -1.0, -1.0);
    var p2, p3 := Vec3(1.0, -1.0, 1.0), Vec3(-1.0, -1.0, 1.0);
    assert CubeFace(f) == [Vertex(p0, n, []), Vertex(p1, n, []), Vertex(p2, n, []), Vertex(p3, n, [])];
    FaceOf(p0, p1, p2, p3, n);
  }

  /** Four different points on the plane position . n = 1, all with
      normal `n`, form a face. */
  lemma FaceOf(p0: Vec3, p1: Vec3, p2: Vec3, p3: Vec3, n: Vec3)
    requires Dot(p0, n) == Dot(p1, n) == Dot(p2, n) == Dot(p3, n) == 1.0
    requires p0 != p1 && p0 != p2 && p0 != p3 && p1 != p2 && p1 != p3 && p2 != p3
    ensures FaceShape([Vertex(p0, n, []), Vertex(p1, n, []), Vertex(p2, n, []), Vertex(p3, n, [])], n)
  {
  }

  // ------------------------------------------------------- initialisation

  /** The primitives with an `initialise`; `Sphere` carries its
      `uvProjection`, which defaults to the spherical one. */
  datatype Primitive = Cube | Cone | Cylinder | Sphere(projection: UVProjection)

  /** `vertsPerFace`: 3 from the renderable constructor, 4 for cube and
      sphere. */
  function VertsPerFace(kind: Primitive): nat {
    match kind
    case Cube => 4
    case Sphere(_) => 4
    case _ => 3
  }

  function FloatsPerVertex(kind: Primitive): nat {
    if kind.Sphere? then 8 else 6
  }

  /** What `initialise` hands to `bufferData`, with the `faces` it leaves. */
  datatype Buffer = Buffer(data: seq<real>, faces: nat)

  /** `initialise` of each primitive. The cube's face count is its
      constructor's constant; cone and cylinder divide the array length by
      `3 * vertsPerFace * 2`; the sphere by `8 * vertsPerFace`. The result
      is consistent: `faces * vertsPerFace` vertices of the buffer's width
      are exactly the buffer. */
  function Initialise(m: MathLib, kind: Primitive): (b: Buffer)
    ensures b.faces == match kind
                       case Cube => 6
                       case Cone => 2 * CONE_DIVISIONS
                       case Cylinder => 4 * CYLINDER_DIVISIONS
                       case Sphere(_) => SPHERE_DIVISIONS * SPHERE_DIVISIONS
  {
    match kind
    case Cube => CubeBuffer()
    case Cone => ConeBuffer(m)
    case Cylinder => CylinderBuffer(m)
    case Sphere(proj) => SphereBuffer(m, proj)
  }

  /** The buffer `initialise` leaves is consistent with the draw loop:
      `faces * vertsPerFace` vertices of the primitive's width are exactly
      the buffer. */
  lemma InitialiseConsistent(m: MathLib, kind: Primitive)
    ensures var b := Initialise(m, kind);
            b.faces * VertsPerFace(kind) * FloatsPerVertex(kind) == |b.data|
  {
  }

  function CubeBuffer(): (b: Buffer)
    ensures b.faces == 6 && b.faces * 4 * 6 == |b.data|
  {
    CubeSize();
    Buffer(Flatten(CubeVertices()), 6)
  }

  function ConeBuffer(m: MathLib): (b: Buffer)
    ensures b.faces == 24 && b.faces * 3 * 6 == |b.data|
  {
    var data := Flatten(ConeVertices(m, CONE_DIVISIONS));
    ConeSize(m, CONE_DIVISIONS);
    Buffer(data, |data| / (3 * 3 * 2))
  }

  function CylinderBuffer(m: MathLib): (b: Buffer)
    ensures b.faces == 60 && b.faces * 3 * 6 == |b.data|
  {
    var data := Flatten(CylinderVertices(m, CYLINDER_DIVISIONS));
    CylinderSize(m, CYLINDER_DIVISIONS);
    Buffer(data, |data| / (3 * 3 * 2))
  }

  function SphereBuffer(m: MathLib, proj: UVProjection): (b: Buffer)
    ensures b.faces == 169 && b.faces * 4 * 8 == |b.data|
  {
    var data := Flatten(SphereVertices(m, proj, SPHERE_DIVISIONS));
    SphereSize(m, proj, SPHERE_DIVISIONS);
    Buffer(data, |data| / (8 * 4))
  }
}
