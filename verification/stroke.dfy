/** The stroke buffers of the drawing demo (`Assignment2`): two GPU vertex
    buffers, one for a plain line strip and one for a thick "poly" triangle
    strip, filled point by point as the mouse moves. The GPU is a log of the
    calls made on it; what a buffer holds is read back from the log.
    `normalize` comes from a library that is not part of this model and is
    a parameter. */
module Stroke {
  import opened Common

  /** `new Float32Array([137]).byteLength`. */
  const SIZE_OF_FLOAT: nat := 4
  const VERTEX_COMPONENTS: nat := 2
  const COLOR_COMPONENTS: nat := 4
  /** Floats per stored point: a position then a colour. */
  const POINT_FLOATS: nat := VERTEX_COMPONENTS + COLOR_COMPONENTS
  /** Bytes per stored point, the attribute stride. */
  const STRIDE: nat := SIZE_OF_FLOAT * POINT_FLOATS
  const MAX_PTS: nat := 10000

  datatype Vec2 = Vec2(x: real, y: real)

  datatype Colour4 = Colour4(r: real, g: real, b: real, a: real)

  /** The colour start-and-end points are drawn with, so the strip looks
      broken between strokes. */
  const TRANSPARENT: Colour4 := Colour4(0.0, 0.0, 0.0, 0.0)

  function ColourFloats(c: Colour4): seq<real> {
    [c.r, c.g, c.b, c.a]
  }

  function Sub(a: Vec2, b: Vec2): Vec2 {
    Vec2(a.x - b.x, a.y - b.y)
  }

  function Add(a: Vec2, b: Vec2): Vec2 {
    Vec2(a.x + b.x, a.y + b.y)
  }

  function Scale(k: real, v: Vec2): Vec2 {
    Vec2(k * v.x, k * v.y)
  }

  function Dot(a: Vec2, b: Vec2): real {
    a.x * b.x + a.y * b.y
  }

  datatype Strip = LineStrip | TriangleStrip

  /** The calls the demo makes on the GPU. */
  datatype GpuCall =
    | Allocate(buffer: nat, bytes: nat)
    | BindArray(buffer: nat)
    | SubData(buffer: nat, byteOffset: nat, data: seq<real>)
    | ClearCanvas
    | DrawStrip(mode: Strip, count: nat)

  /** The renderer's drawing state: the current colour, the two buffer
      handles (null until `initBuffers`), the previous poly point, the
      point counts of both buffers, the half-width of the poly strip, and
      the GPU log. */
  datatype Strokes = Strokes(
    color: Colour4,
    lineBuffer: Option<nat>,
    polyBuffer: Option<nat>,
    prevPt: Vec2,
    nLinePts: nat,
    nPolyPts: nat,
    thickness: real,
    log: seq<GpuCall>)

  // ------------------------------------------------------------ GPU memory

  /** Write `data` into float slots `slot`, `slot + 1`, ... of `mem`. */
  function Store(mem: map<nat, real>, slot: nat, data: seq<real>): map<nat, real>
    decreases |data|
  {
    if |data| == 0 then mem else Store(mem[slot := data[0]], slot + 1, data[1..])
  }

  /** After a store the written slots hold the data and every other slot is
      as it was. */
  lemma {:induction false} StoreAt(mem: map<nat, real>, slot: nat, data: seq<real>)
    ensures forall k :: slot <= k < slot + |data| ==> k in Store(mem, slot, data) && Store(mem, slot, data)[k] == data[k - slot]
    ensures forall k :: (k < slot || slot + |data| <= k) ==>
              (k in Store(mem, slot, data) <==> k in mem) &&
              (k in mem ==> Store(mem, slot, data)[k] == mem[k])
    decreases |data|
  {
    if |data| > 0 {
      StoreAt(mem[slot := data[0]], slot + 1, data[1..]);
      forall k | slot < k < slot + |data|
        ensures k in Store(mem, slot, data) && Store(mem, slot, data)[k] == data[k - slot]
      {
        assert data[1..][k - (slot + 1)] == data[k - slot];
      }
    }
  }

  /** The floats `buffer` holds after the calls of `log`, by float slot. */
  function Contents(log: seq<GpuCall>, buffer: nat): map<nat, real>
    decreases |log|
  {
    if |log| == 0 then map[]
    else
      var mem := Contents(log[..|log| - 1], buffer);
      var call := log[|log| - 1];
      if call.SubData? && call.buffer == buffer then Store(mem, call.byteOffset / SIZE_OF_FLOAT, call.data)
      else mem
  }

  /** No call of `calls` writes vertex data. */
  predicate NoWrites(calls: seq<GpuCall>) {
    forall i :: 0 <= i < |calls| ==> !calls[i].SubData?
  }

  /** Calls that write nothing leave every buffer's contents alone. */
  lemma {:induction false} ContentsNoWrites(log: seq<GpuCall>, calls: seq<GpuCall>, buffer: nat)
    requires NoWrites(calls)
    ensures Contents(log + calls, buffer) == Contents(log, buffer)
    decreases |calls|
  {
    if |calls| > 0 {
      var front := calls[..|calls| - 1];
      assert (log + calls)[..|log + calls| - 1] == log + front;
      ContentsNoWrites(log, front, buffer);
    } else {
      assert log + calls == log;
    }
  }

  /** A single write to `buffer`, after a bind, appended to the log. */
  lemma ContentsWrite(log: seq<GpuCall>, id: nat, byteOffset: nat, data: seq<real>, buffer: nat)
    ensures Contents(log + [BindArray(id), SubData(id, byteOffset, data)], buffer) ==
            if id == buffer then Store(Contents(log, buffer), byteOffset / SIZE_OF_FLOAT, data)
            else Contents(log, buffer)
  {
    var log1 := log + [BindArray(id)];
    var log2 := log1 + [SubData(id, byteOffset, data)];
    assert log + [BindArray(id), SubData(id, byteOffset, data)] == log2;
    assert log2[..|log2| - 1] == log1;
    ContentsNoWrites(log, [BindArray(id)], buffer);
  }

  // ------------------------------------------------------------- rendering

  /** `doRender`: clear, then draw each bound buffer as a strip of as many
      points as it holds. */
  function DoRender(s: Strokes): (calls: seq<GpuCall>)
    ensures NoWrites(calls)
  {
    [ClearCanvas]
    + (match s.lineBuffer case Some(id) => [BindArray(id), DrawStrip(LineStrip, s.nLinePts)] case None => [])
    + (match s.polyBuffer case Some(id) => [BindArray(id), DrawStrip(TriangleStrip, s.nPolyPts)] case None => [])
  }

  /** The constructor with `init`: black drawing colour, empty buffers, a
      thickness of 1/512; `initBuffers` creates the line buffer (handle
      `next`) then the poly buffer (handle `next + 1`), each with room for
      `MAX_PTS` points; then a first render. */
  function NewStrokes(next: nat): (s: Strokes)
    ensures s.lineBuffer == Some(next) && s.polyBuffer == Some(next + 1)
    ensures s.nLinePts == 0 && s.nPolyPts == 0
    ensures Contents(s.log, next) == map[] && Contents(s.log, next + 1) == map[]
  {
    var allocs := [BindArray(next), Allocate(next, STRIDE * MAX_PTS), BindArray(next + 1), Allocate(next + 1, STRIDE * MAX_PTS)];
    var s := Strokes(Colour4(0.0, 0.0, 0.0, 1.0), Some(next), Some(next + 1), Vec2(0.0, 0.0), 0, 0, 1.0 / 512.0, []);
    var log := allocs + DoRender(s);
    ContentsNoWrites([], log, next);
    ContentsNoWrites([], log, next + 1);
    assert [] + log == log;
    s.(log := log)
  }

  /** `setColor`: change the colour of later points and re-render. */
  function SetColor(s: Strokes, c: Colour4): (s': Strokes)
    ensures s'.color == c
    ensures s' == s.(color := c, log := s'.log)
    ensures forall b :: Contents(s'.log, b) == Contents(s.log, b)
  {
    var calls := DoRender(s);
    forall b ensures Contents(s.log + calls, b) == Contents(s.log, b) {
      ContentsNoWrites(s.log, calls, b);
    }
    s.(color := c, log := s.log + calls)
  }

  // ------------------------------------------------------------ line strip

  /** The floats one line point occupies: its position, then the colour. */
  function LinePoint(xy: Vec2, c: Colour4): seq<real> {
    [xy.x, xy.y] + ColourFloats(c)
  }

  /** `addLinePos`: with a line buffer, write the point just past the last
      one, count it, and re-render; without one, do nothing. */
  function AddLinePos(s: Strokes, xy: Vec2): (s': Strokes)
    ensures s.lineBuffer.None? ==> s' == s
    ensures s.lineBuffer.Some? ==> s' == s.(nLinePts := s.nLinePts + 1, log := s'.log)
  {
    match s.lineBuffer
    case None => s
    case Some(id) =>
      var s1 := s.(nLinePts := s.nLinePts + 1);
      s1.(log := s.log + [BindArray(id), SubData(id, s.nLinePts * STRIDE, LinePoint(xy, s.color))] + DoRender(s1))
  }

  /** A line point lands in float slots `6n .. 6n + 5` of the line buffer,
      where n is the count before the call; the slots of earlier points and
      every other buffer keep what they held. */
  lemma LinePosStored(s: Strokes, xy: Vec2, buffer: nat)
    requires s.lineBuffer.Some?
    ensures var s', n, id := AddLinePos(s, xy), s.nLinePts, s.lineBuffer.value;
            var mem, mem' := Contents(s.log, buffer), Contents(s'.log, buffer);
            if buffer == id then
              (forall k :: POINT_FLOATS * n <= k < POINT_FLOATS * (n + 1) ==>
                 k in mem' && mem'[k] == LinePoint(xy, s.color)[k - POINT_FLOATS * n]) &&
              (forall k :: k < POINT_FLOATS * n ==> (k in mem' <==> k in mem) && (k in mem ==> mem'[k] == mem[k]))
            else mem' == mem
  {
    var id, n := s.lineBuffer.value, s.nLinePts;
    var s1 := s.(nLinePts := n + 1);
    var data := LinePoint(xy, s.color);
    var prefix := s.log + [BindArray(id), SubData(id, n * STRIDE, data)];
    ContentsNoWrites(prefix, DoRender(s1), buffer);
    ContentsWrite(s.log, id, n * STRIDE, data, buffer);
    DivModUnique(n * STRIDE, SIZE_OF_FLOAT, POINT_FLOATS * n, 0);
    StoreAt(Contents(s.log, buffer), POINT_FLOATS * n, data);
  }

  /** `startOrEndDrawingLine`: add a transparent point, then restore the
      drawing colour. */
  function StartOrEndDrawingLine(s: Strokes, xy: Vec2): (s': Strokes)
    ensures s'.color == s.color
    ensures s' == AddLinePos(s.(color := TRANSPARENT), xy).(color := s.color)
  {
    AddLinePos(s.(color := TRANSPARENT), xy).(color := s.color)
  }

  /** The point a stroke starts or ends with is written with colour
      (0, 0, 0, 0); otherwise it is an ordinary line point. */
  lemma StartOrEndLineTransparent(s: Strokes, xy: Vec2)
    requires s.lineBuffer.Some?
    ensures var s', n := StartOrEndDrawingLine(s, xy), s.nLinePts;
            var mem' := Contents(s'.log, s.lineBuffer.value);
            s'.nLinePts == n + 1 &&
            forall k :: POINT_FLOATS * n + 2 <= k < POINT_FLOATS * (n + 1) ==> k in mem' && mem'[k] == 0.0
  {
    LinePosStored(s.(color := TRANSPARENT), xy, s.lineBuffer.value);
  }

  // ------------------------------------------------------------ poly strip

  /** The two perpendicular offsets of a direction `(dx, dy)`: `dirB` is
      `(-dy, dx)` and `dirT` is `(dy, -dx)`, computed in the source by a
      component-wise multiply and a reverse. */
  function DirB(dir: Vec2): (v: Vec2) {
    var m := Vec2(1.0 * dir.x, -1.0 * dir.y);
    Vec2(m.y, m.x)
  }

  function DirT(dir: Vec2): (v: Vec2) {
    var m := Vec2(-1.0 * dir.x, 1.0 * dir.y);
    Vec2(m.y, m.x)
  }

  /** The offsets point in opposite directions, both at right angles to
      `dir` and as long as it. */
  lemma OffsetsPerpendicular(dir: Vec2)
    ensures DirT(dir) == Scale(-1.0, DirB(dir))
    ensures Dot(DirB(dir), dir) == 0.0 && Dot(DirT(dir), dir) == 0.0
    ensures Dot(DirB(dir), DirB(dir)) == Dot(dir, dir) == Dot(DirT(dir), DirT(dir))
  {
  }

  /** The top and bottom edge points of the strip at `p`. */
  function Top(p: Vec2, thickness: real, dir: Vec2): Vec2 {
    Add(p, Scale(thickness, DirT(dir)))
  }

  function Bottom(p: Vec2, thickness: real, dir: Vec2): Vec2 {
    Add(p, Scale(thickness, DirB(dir)))
  }

  /** The point is the midpoint of its top and bottom edge points, and the
      segment between them is perpendicular to the direction of travel. */
  lemma EdgesAroundPoint(p: Vec2, thickness: real, dir: Vec2)
    ensures Scale(0.5, Add(Top(p, thickness, dir), Bottom(p, thickness, dir))) == p
    ensures Dot(Sub(Top(p, thickness, dir), Bottom(p, thickness, dir)), dir) == 0.0
  {
    OffsetsPerpendicular(dir);
    var t, b := Top(p, thickness, dir), Bottom(p, thickness, dir);
    assert Sub(t, b) == Scale(2.0 * thickness, DirT(dir));
  }

  /** The floats one poly step occupies: the top point and the colour, then
      the bottom point and the colour. */
  function PolyPoints(t: Vec2, b: Vec2, c: Colour4): seq<real> {
    [t.x, t.y] + ColourFloats(c) + [b.x, b.y] + ColourFloats(c)
  }

  /** `addPolyPos`: with a poly buffer, write the top and bottom points of
      the new position just past the last ones, count both, remember the
      position, and re-render; without one, do nothing. */
  function AddPolyPos(s: Strokes, xy: Vec2, normalize: Vec2 -> Vec2): (s': Strokes)
    ensures s.polyBuffer.None? ==> s' == s
    ensures s.polyBuffer.Some? ==> s' == s.(nPolyPts := s.nPolyPts + 2, prevPt := xy, log := s'.log)
  {
    match s.polyBuffer
    case None => s
    case Some(id) =>
      var dir := normalize(Sub(xy, s.prevPt));
      var data := PolyPoints(Top(xy, s.thickness, dir), Bottom(xy, s.thickness, dir), s.color);
      var s1 := s.(nPolyPts := s.nPolyPts + 2, prevPt := xy);
      s1.(log := s.log + [BindArray(id), SubData(id, s.nPolyPts * STRIDE, data)] + DoRender(s1))
  }

  /** A poly step lands in float slots `6n .. 6n + 11` of the poly buffer,
      where n is the count before the call; the slots of earlier points and
      every other buffer keep what they held. */
  lemma PolyPosStored(s: Strokes, xy: Vec2, normalize: Vec2 -> Vec2, buffer: nat)
    requires s.polyBuffer.Some?
    ensures var s', n, id := AddPolyPos(s, xy, normalize), s.nPolyPts, s.polyBuffer.value;
            var dir := normalize(Sub(xy, s.prevPt));
            var data := PolyPoints(Top(xy, s.thickness, dir), Bottom(xy, s.thickness, dir), s.color);
            var mem, mem' := Contents(s.log, buffer), Contents(s'.log, buffer);
            if buffer == id then
              (forall k :: POINT_FLOATS * n <= k < POINT_FLOATS * (n + 2) ==>
                 k in mem' && mem'[k] == data[k - POINT_FLOATS * n]) &&
              (forall k :: k < POINT_FLOATS * n ==> (k in mem' <==> k in mem) && (k in mem ==> mem'[k] == mem[k]))
            else mem' == mem
  {
    var id, n := s.polyBuffer.value, s.nPolyPts;
    var dir := normalize(Sub(xy, s.prevPt));
    var data := PolyPoints(Top(xy, s.thickness, dir), Bottom(xy, s.thickness, dir), s.color);
    var s1 := s.(nPolyPts := n + 2, prevPt := xy);
    var prefix := s.log + [BindArray(id), SubData(id, n * STRIDE, data)];
    ContentsNoWrites(prefix, DoRender(s1), buffer);
    ContentsWrite(s.log, id, n * STRIDE, data, buffer);
    DivModUnique(n * STRIDE, SIZE_OF_FLOAT, POINT_FLOATS * n, 0);
    StoreAt(Contents(s.log, buffer), POINT_FLOATS * n, data);
  }

  /** `startOrEndDrawingPoly`: add a transparent step, then restore the
      drawing colour. */
  function StartOrEndDrawingPoly(s: Strokes, xy: Vec2, normalize: Vec2 -> Vec2): (s': Strokes)
    ensures s'.color == s.color
    ensures s' == AddPolyPos(s.(color := TRANSPARENT), xy, normalize).(color := s.color)
  {
    AddPolyPos(s.(color := TRANSPARENT), xy, normalize).(color := s.color)
  }

  /** Both points of a start-or-end step are written with colour
      (0, 0, 0, 0). */
  lemma StartOrEndPolyTransparent(s: Strokes, xy: Vec2, normalize: Vec2 -> Vec2)
    requires s.polyBuffer.Some?
    ensures var s', n := StartOrEndDrawingPoly(s, xy, normalize), s.nPolyPts;
            var mem' := Contents(s'.log, s.polyBuffer.value);
            s'.nPolyPts == n + 2 && s'.prevPt == xy &&
            forall k :: POINT_FLOATS * n <= k < POINT_FLOATS * (n + 2) && (k - POINT_FLOATS * n) % POINT_FLOATS >= 2 ==>
              k in mem' && mem'[k] == 0.0
  {
    PolyPosStored(s.(color := TRANSPARENT), xy, normalize, s.polyBuffer.value);
  }

  // ---------------------------------------------------------- independence

  /** The line and poly state do not touch each other: adding a line point
      keeps the poly count, the previous poly point and the poly buffer's
      contents, and adding a poly step keeps the line count and the line
      buffer's contents, as long as the two buffers are distinct. */
  lemma LineAndPolyIndependent(s: Strokes, xy: Vec2, normalize: Vec2 -> Vec2)
    requires s.lineBuffer.Some? && s.polyBuffer.Some? && s.lineBuffer != s.polyBuffer
    ensures var l := AddLinePos(s, xy);
            l.nPolyPts == s.nPolyPts && l.prevPt == s.prevPt &&
            Contents(l.log, s.polyBuffer.value) == Contents(s.log, s.polyBuffer.value)
    ensures var p := AddPolyPos(s, xy, normalize);
            p.nLinePts == s.nLinePts &&
            Contents(p.log, s.lineBuffer.value) == Contents(s.log, s.lineBuffer.value)
  {
    LinePosStored(s, xy, s.polyBuffer.value);
    PolyPosStored(s, xy, normalize, s.lineBuffer.value);
  }

  /** Points are stored back to back: the byte offset of the next write is
      the offset of this one plus the bytes it wrote, in both buffers. */
  lemma WritesContiguous(s: Strokes, xy: Vec2, normalize: Vec2 -> Vec2)
    ensures AddLinePos(s, xy).nLinePts * STRIDE == s.nLinePts * STRIDE + (if s.lineBuffer.Some? then SIZE_OF_FLOAT * |LinePoint(xy, s.color)| else 0)
    ensures var dir := normalize(Sub(xy, s.prevPt));
            AddPolyPos(s, xy, normalize).nPolyPts * STRIDE ==
            s.nPolyPts * STRIDE + (if s.polyBuffer.Some? then SIZE_OF_FLOAT * |PolyPoints(Top(xy, s.thickness, dir), Bottom(xy, s.thickness, dir), s.color)| else 0)
  {
  }
}
