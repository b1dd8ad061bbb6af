/** A drawable node (`GG.renderable` and the primitives built on it): lazy
    shader and buffer creation, attribute and uniform binding, one-time
    geometry initialisation, and one draw call per face. */
module Renderables {
  import opened Common
  import opened Colour
  import opened GlLog
  import opened Textures
  import opened Mesh

  /** The renderable's state. `None` stands for the source's `null` handles
      and for `vBufferId == -1`; `inScene` records whether a scene has
      given the renderable its `bindToScene` function. `faces` is the
      number of faces to draw, `VertsPerFace(kind)` vertices each. */
  datatype Renderable = Renderable(
    kind: Primitive,
    color: Rgb,
    useUnlit: bool,
    shaders: Shaders,
    vBufferId: Option<nat>,
    initialised: bool,
    textureManager: TextureManager,
    textures: seq<Texture>,
    faces: nat,
    inScene: bool)

  /** The default colour 0.4 grey, as a byte (0.4 * 255 = 102). */
  const DEFAULT_GREY: Byte := 102

  /** A new primitive: the constructor's defaults, with the cube's face
      count set by its own constructor. */
  function NewRenderable(kind: Primitive, textures: seq<Texture>): (r: Renderable)
    ensures !r.useUnlit && !r.initialised && !r.inScene
    ensures r.shaders == Shaders(None, None) && r.vBufferId.None?
    ensures r.textureManager.curTexUnit == 0 && r.faces == (if kind.Cube? then 6 else 0)
  {
    Renderable(kind, Rgb(DEFAULT_GREY, DEFAULT_GREY, DEFAULT_GREY), false, Shaders(None, None), None, false,
               NewTextureManager(), textures, if kind.Cube? then 6 else 0, false)
  }

  /** One `createProgram`: a fresh handle and a logged compilation. */
  function Compile(next: nat, unlit: bool): (r: (nat, Effect))
    ensures r.0 == next && r.1 == Effect(next + 1, [CompileProgram(next, unlit)])
    ensures Plain(r.1.events)
  {
    SinglePlain(CompileProgram(next, unlit));
    (next, Effect(next + 1, [CompileProgram(next, unlit)]))
  }

  /** The lit and the unlit program, `None` until compiled. */
  datatype Shaders = Shaders(lit: Option<nat>, unlit: Option<nat>)

  /** The program the current mode draws with. */
  function ActiveProgram(sh: Shaders, useUnlit: bool): Option<nat> {
    if useUnlit then sh.unlit else sh.lit
  }

  /** `useShader`: compile the lit program if there is none, the unlit one
      if it is wanted and there is none, and use the program of the current
      mode. Programs, once compiled, are kept. */
  function UseShader(sh: Shaders, useUnlit: bool, next: nat): (res: (Shaders, Effect))
    ensures res.0.lit.Some? && (useUnlit ==> res.0.unlit.Some?)
    ensures sh.lit.Some? ==> res.0.lit == sh.lit
    ensures sh.unlit.Some? || !useUnlit ==> res.0.unlit == sh.unlit
    ensures next <= res.1.next && Plain(res.1.events) && |res.1.events| > 0
    ensures res.1.events[|res.1.events| - 1] == UseProgram(ActiveProgram(res.0, useUnlit).value)
    ensures sh.lit.Some? && (sh.unlit.Some? || !useUnlit) ==>
              res.0 == sh && res.1 == Effect(next, [UseProgram(ActiveProgram(sh, useUnlit).value)])
  {
    var lit := EnsureProgram(sh.lit, true, false, next);
    var unlit := EnsureProgram(sh.unlit, useUnlit, true, lit.1.next);
    var sh' := Shaders(lit.0, unlit.0);
    var use := Effect(unlit.1.next, [UseProgram(ActiveProgram(sh', useUnlit).value)]);
    SinglePlain(use.events[0]);
    ThenEvents(lit.1, unlit.1);
    ThenEvents(Then(lit.1, unlit.1), use);
    (sh', Then(Then(lit.1, unlit.1), use))
  }

  /** Compile a program if one is wanted and there is none yet. */
  function EnsureProgram(p: Option<nat>, wanted: bool, unlit: bool, next: nat): (r: (Option<nat>, Effect))
    ensures wanted ==> r.0.Some?
    ensures p.Some? || !wanted ==> r == (p, Idle(next))
    ensures next <= r.1.next && Plain(r.1.events)
  {
    if wanted && p.None? then
      var (h, e) := Compile(next, unlit);
      (Some(h), e)
    else (p, Idle(next))
  }

  /** What `bind` leaves behind: the vertex buffer, the textures and the
      texture manager, and what it did to the context. */
  datatype Binding = Binding(buffer: nat, textures: seq<Texture>, manager: TextureManager, effect: Effect)

  /** `renderable.bind`: create the vertex buffer if there is none and bind
      it; then, with the unlit program, set the flat colour uniform to the
      renderable's colour and touch no texture; with the lit program, set
      the material uniforms and bind every texture in order. Only the lit
      path can throw, and it throws exactly when some texture has neither a
      GL texture nor an image. */
  function Bind(vBufferId: Option<nat>, useUnlit: bool, color: Rgb, textures: seq<Texture>,
                tm: TextureManager, next: nat): (res: Outcome<Binding>)
    ensures res.Threw? <==> !useUnlit && Unbindable(textures)
    ensures vBufferId.Some? ==> res.State().buffer == vBufferId.value
    ensures next <= res.State().effect.next && Uploads(res.State().effect.events) == 0
    ensures FlatColours(res.State().effect.events) == (if useUnlit then {color} else {})
    ensures |res.State().textures| == |textures|
    ensures UnitsFresh(textures, tm) ==> UnitsFresh(res.State().textures, res.State().manager)
    ensures useUnlit ==> res.State().textures == textures && res.State().manager == tm
    ensures res.Done? && !useUnlit ==> AllBound(res.State().textures)
  {
    var (buf, e1) := BindVertexBuffer(vBufferId, next);
    SinglePlain(e1.events[0]);
    if useUnlit then
      var flat := Effect(e1.next, [FlatColour(color)]);
      assert flat.events[1..] == [];
      ThenEvents(e1, flat);
      Done(Binding(buf, textures, tm, Then(e1, flat)))
    else
      var lit := BindLit(buf, textures, tm, e1.next);
      var b := lit.State();
      ThenEvents(e1, b.effect);
      var b' := b.(effect := Then(e1, b.effect));
      if lit.Done? then Done(b') else Threw(b')
  }

  /** The first step of `bind`: create the vertex buffer if there is none,
      and bind it. */
  function BindVertexBuffer(vBufferId: Option<nat>, next: nat): (r: (nat, Effect))
    ensures vBufferId.Some? ==> r.0 == vBufferId.value && r.1.next == next
    ensures vBufferId.None? ==> r.0 == next && r.1.next == next + 1
    ensures r.1.events == [BindBuffer(r.0)]
  {
    var (buf, next') := if vBufferId.None? then (next, next + 1) else (vBufferId.value, next);
    (buf, Effect(next', [BindBuffer(buf)]))
  }

  /** The lit branch of `bind`: set the material uniforms, then bind every
      texture in order. */
  function BindLit(buf: nat, textures: seq<Texture>, tm: TextureManager, next: nat): (res: Outcome<Binding>)
    ensures res.Threw? <==> Unbindable(textures)
    ensures res.State().buffer == buf && |res.State().textures| == |textures|
    ensures next <= res.State().effect.next && Plain(res.State().effect.events)
    ensures UnitsFresh(textures, tm) ==> UnitsFresh(res.State().textures, res.State().manager)
    ensures res.Done? ==> AllBound(res.State().textures)
  {
    var uniforms := Effect(next, [LitUniforms]);
    SinglePlain(LitUniforms);
    var out := BindTextures(textures, tm, next);
    var (ts, tm', e) := out.State();
    BindTexturesPlain(textures, tm, next);
    ThenEvents(uniforms, e);
    var b := Binding(buf, ts, tm', Then(uniforms, e));
    if out.Done? then Done(b) else Threw(b)
  }

  function Mode(outlineMode: bool): DrawMode {
    if outlineMode then LineLoop else TriangleFan
  }

  /** `renderable.draw`: one `drawArrays` per face, in face order. */
  function DrawCalls(faces: nat, vertsPerFace: nat, outlineMode: bool): (calls: seq<GlEvent>)
    ensures |calls| == faces
    decreases faces
  {
    if faces == 0 then []
    else DrawCalls(faces - 1, vertsPerFace, outlineMode) +
         [DrawArrays(Mode(outlineMode), (faces - 1) * vertsPerFace, vertsPerFace)]
  }

  /** Call `k` draws `vertsPerFace` vertices from offset `k * vertsPerFace`,
      as a line loop in outline mode and as a triangle fan otherwise. */
  lemma {:induction false} DrawCallsAt(faces: nat, vertsPerFace: nat, outlineMode: bool)
    ensures var calls := DrawCalls(faces, vertsPerFace, outlineMode);
            forall k :: 0 <= k < faces ==>
              calls[k] == DrawArrays(Mode(outlineMode), k * vertsPerFace, vertsPerFace)
    decreases faces
  {
    if faces > 0 {
      DrawCallsAt(faces - 1, vertsPerFace, outlineMode);
    }
  }

  /** Drawing sets no flat colour and uploads no vertex data. */
  lemma {:induction false} DrawCallsPlain(faces: nat, vertsPerFace: nat, outlineMode: bool)
    ensures Plain(DrawCalls(faces, vertsPerFace, outlineMode))
    decreases faces
  {
    if faces > 0 {
      var last := DrawArrays(Mode(outlineMode), (faces - 1) * vertsPerFace, vertsPerFace);
      DrawCallsPlain(faces - 1, vertsPerFace, outlineMode);
      SinglePlain(last);
      EventsConcat(DrawCalls(faces - 1, vertsPerFace, outlineMode), [last]);
    }
  }

  /** Vertex `v` lies in the range a draw call draws. */
  predicate Covers(call: GlEvent, v: nat)
    requires call.DrawArrays?
  {
    call.first <= v < call.first + call.count
  }

  /** The draw ranges are contiguous, pairwise disjoint, and together
      cover the vertices `[0, faces * vertsPerFace)`: every vertex below the
      bound lies in exactly the range of call `v / vertsPerFace`. */
  lemma DrawRangesPartition(faces: nat, vertsPerFace: nat, outlineMode: bool)
    requires vertsPerFace > 0
    ensures var calls := DrawCalls(faces, vertsPerFace, outlineMode);
            (forall k :: 0 <= k < faces ==> calls[k].DrawArrays?) &&
            (faces > 0 ==> calls[0].first == 0 &&
                           calls[faces - 1].first + calls[faces - 1].count == faces * vertsPerFace) &&
            (forall k :: 0 <= k < faces - 1 ==> calls[k].first + calls[k].count == calls[k + 1].first) &&
            (forall v, k :: 0 <= v < faces * vertsPerFace && 0 <= k < faces ==>
               (Covers(calls[k], v) <==> k == v / vertsPerFace))
  {
    var calls := DrawCalls(faces, vertsPerFace, outlineMode);
    DrawCallsAt(faces, vertsPerFace, outlineMode);
    forall k | 0 <= k < faces - 1
      ensures calls[k].first + calls[k].count == calls[k + 1].first
    {
      assert (k + 1) * vertsPerFace == k * vertsPerFace + vertsPerFace;
    }
    if faces > 0 {
      assert (faces - 1) * vertsPerFace + vertsPerFace == faces * vertsPerFace;
    }
    forall v, k | 0 <= v < faces * vertsPerFace && 0 <= k < faces
      ensures Covers(calls[k], v) <==> k == v / vertsPerFace
    {
      InRangeIffQuotient(v, k, vertsPerFace);
    }
  }

  lemma InRangeIffQuotient(v: nat, k: nat, w: nat)
    requires w > 0
    ensures k * w <= v < k * w + w <==> k == v / w
  {
    if k * w <= v < k * w + w {
      DivModUnique(v, w, k, v - k * w);
    }
    if k == v / w {
      assert v == (v / w) * w + v % w;
    }
  }

  /** The scene's `bindToScene`, which `render` calls when a scene has
      handed it over: set the view, projection and model matrices and, for
      the lit program, the normal matrix and then one uniform block per
      entry of the scene's `lights`. `lights` says whether the scene's
      `lights` array has been assigned; the scene constructor never does,
      so reading its length throws a TypeError for a lit renderable until
      the application assigns it. The matrix uniforms are set by then. */
  function BindToScene(r: Renderable, lights: bool, next: nat): (res: Outcome<Effect>)
    ensures res.Threw? <==> r.inScene && !r.useUnlit && !lights
    ensures res.State().next == next && Plain(res.State().events)
    ensures !r.inScene ==> res.State().events == []
  {
    SinglePlain(SceneBinding(r.useUnlit));
    if !r.inScene then Done(Idle(next))
    else if !r.useUnlit && !lights then Threw(Effect(next, [SceneBinding(false)]))
    else Done(Effect(next, [SceneBinding(r.useUnlit)]))
  }

  /** What `render` does once the scene binding has succeeded: build and
      upload the geometry the first time, and draw the faces as triangle
      fans, after the events `before` already logged. */
  function Draw(m: MathLib, r: Renderable, before: Effect): (res: (Renderable, Effect))
    ensures res.0 == r.(initialised := true, faces := res.0.faces)
    ensures res.0.faces == (if r.initialised then r.faces else Initialise(m, r.kind).faces)
    ensures res.1.next == before.next && FlatColours(res.1.events) == FlatColours(before.events)
    ensures Uploads(res.1.events) == Uploads(before.events) + (if r.initialised then 0 else 1)
    ensures |res.1.events| >= res.0.faces &&
            res.1.events[|res.1.events| - res.0.faces..] == DrawCalls(res.0.faces, VertsPerFace(r.kind), false)
  {
    var buffer := Initialise(m, r.kind);
    var faces := if r.initialised then r.faces else buffer.faces;
    DrawLog(before, r.initialised, buffer.data, faces, VertsPerFace(r.kind));
    (r.(initialised := true, faces := faces),
     Then(before, Effect(before.next, DrawEvents(r.initialised, buffer.data, faces, VertsPerFace(r.kind)))))
  }

  /** The events of one draw: the upload of the first one, then the draw
      calls. */
  function DrawEvents(initialised: bool, data: seq<real>, faces: nat, vertsPerFace: nat): seq<GlEvent> {
    (if initialised then [] else [BufferData(data)]) + DrawCalls(faces, vertsPerFace, false)
  }

  /** A draw logged after `before` sets no flat colour, uploads at most
      once, and ends with its draw calls. */
  lemma DrawLog(before: Effect, initialised: bool, data: seq<real>, faces: nat, vertsPerFace: nat)
    ensures var e := Then(before, Effect(before.next, DrawEvents(initialised, data, faces, vertsPerFace)));
            e.next == before.next && FlatColours(e.events) == FlatColours(before.events) &&
            Uploads(e.events) == Uploads(before.events) + (if initialised then 0 else 1) &&
            |e.events| >= faces && e.events[|e.events| - faces..] == DrawCalls(faces, vertsPerFace, false)
  {
    var upload := if initialised then [] else [BufferData(data)];
    var calls := DrawCalls(faces, vertsPerFace, false);
    var drawn := Effect(before.next, upload + calls);
    SingleUpload(data);
    DrawCallsPlain(faces, vertsPerFace, false);
    EventsConcat(upload, calls);
    SuffixOfConcat(upload, calls, |calls|);
    ThenEvents(before, drawn);
    ThenSuffix(before, drawn, faces);
  }

  lemma SingleUpload(data: seq<real>)
    ensures FlatColours([BufferData(data)]) == {} && Uploads([BufferData(data)]) == 1
  {
    assert [BufferData(data)][1..] == [];
  }

  /** The first half of `renderable.render`: use the shader, then bind.
      Only the shaders, the vertex buffer and the textures change. */
  function Prepare(r: Renderable, next: nat): (res: Outcome<(Renderable, Effect)>)
    ensures res.Threw? <==> !r.useUnlit && Unbindable(r.textures)
    ensures var p := res.State();
            p.0 == r.(shaders := p.0.shaders, vBufferId := p.0.vBufferId, textures := p.0.textures,
                      textureManager := p.0.textureManager) &&
            next <= p.1.next && |p.0.textures| == |r.textures|
    ensures var p := res.State();
            FlatColours(p.1.events) == (if r.useUnlit then {r.color} else {}) && Uploads(p.1.events) == 0
    ensures var p := res.State();
            UnitsFresh(r.textures, r.textureManager) ==> UnitsFresh(p.0.textures, p.0.textureManager)
    ensures res.Done? && !r.useUnlit ==> AllBound(res.value.0.textures)
  {
    var used := UseShader(r.shaders, r.useUnlit, next);
    var b := Bind(r.vBufferId, r.useUnlit, r.color, r.textures, r.textureManager, used.1.next);
    var bs := b.State();
    var r' := r.(shaders := used.0, vBufferId := Some(bs.buffer), textures := bs.textures,
                 textureManager := bs.manager);
    ThenEvents(used.1, bs.effect);
    if b.Threw? then Threw((r', Then(used.1, bs.effect))) else Done((r', Then(used.1, bs.effect)))
  }

  /** Whether `render` throws: only the lit program can, either because a
      texture can be neither created nor bound or because the renderable
      belongs to a scene whose `lights` is unassigned. */
  predicate RenderThrows(r: Renderable, lights: bool) {
    !r.useUnlit && (Unbindable(r.textures) || (r.inScene && !lights))
  }

  /** `renderable.render`: use the shader, bind, let the scene bind its
      uniforms, initialise once and draw. A throw from `bind` or from the
      scene binding ends the call there, with the state it reached. */
  function Render(m: MathLib, r: Renderable, lights: bool, next: nat): (res: Outcome<(Renderable, Effect)>)
    ensures res.Threw? <==> RenderThrows(r, lights)
    ensures var p := res.State();
            next <= p.1.next && p.0.kind == r.kind && p.0.color == r.color && p.0.useUnlit == r.useUnlit &&
            p.0.inScene == r.inScene && |p.0.textures| == |r.textures|
    ensures res.Done? ==> var p := res.value;
              p.0.initialised && (r.useUnlit || AllBound(p.0.textures)) &&
              p.0.faces == (if r.initialised then r.faces else Initialise(m, r.kind).faces)
    ensures res.Done? ==> var p := res.value;
              |p.1.events| >= p.0.faces &&
              p.1.events[|p.1.events| - p.0.faces..] == DrawCalls(p.0.faces, VertsPerFace(r.kind), false)
  {
    var prepared := Prepare(r, next);
    if prepared.Threw? then prepared
    else
      var (r1, e1) := prepared.value;
      var bound := BindToScene(r1, lights, e1.next);
      var e2 := Then(e1, bound.State());
      if bound.Threw? then Threw((r1, e2))
      else
        Done(Draw(m, r1, e2))
  }

  /** In unlit mode the only flat colour a render sets is the renderable's
      own; in lit mode it sets none. */
  lemma RenderFlatColours(m: MathLib, r: Renderable, lights: bool, next: nat)
    ensures FlatColours(Render(m, r, lights, next).State().1.events) == (if r.useUnlit then {r.color} else {})
  {
    var prepared := Prepare(r, next);
    if prepared.Done? {
      var (r1, e1) := prepared.value;
      var bound := BindToScene(r1, lights, e1.next);
      var e2 := Then(e1, bound.State());
      ThenEvents(e1, bound.State());
    }
  }

  /** The geometry is uploaded exactly once, by the first render that gets
      past `bind`. */
  lemma RenderUploads(m: MathLib, r: Renderable, lights: bool, next: nat)
    ensures var res := Render(m, r, lights, next);
            Uploads(res.State().1.events) == (if res.Done? && !r.initialised then 1 else 0)
  {
    var prepared := Prepare(r, next);
    if prepared.Done? {
      var (r1, e1) := prepared.value;
      var bound := BindToScene(r1, lights, e1.next);
      var e2 := Then(e1, bound.State());
      ThenEvents(e1, bound.State());
    }
  }

  /** A render keeps the units of the renderable's textures distinct and
      below its manager's counter. */
  lemma RenderKeepsUnitsFresh(m: MathLib, r: Renderable, lights: bool, next: nat)
    requires UnitsFresh(r.textures, r.textureManager)
    ensures var r' := Render(m, r, lights, next).State().0;
            UnitsFresh(r'.textures, r'.textureManager)
  {
  }

  lemma SuffixOfConcat<T>(a: seq<T>, b: seq<T>, n: nat)
    requires n <= |b|
    ensures (a + b)[|a + b| - n..] == b[|b| - n..]
  {
  }

  /** The last `n` events of `b` stay last once `b` follows `a`. */
  lemma ThenSuffix(a: Effect, b: Effect, n: nat)
    requires n <= |b.events|
    ensures var ev := Then(a, b).events;
            n <= |ev| && ev[|ev| - n..] == b.events[|b.events| - n..]
  {
    SuffixOfConcat(a.events, b.events, n);
  }

  /** Once a render has succeeded, the next one succeeds too, uploads no
      geometry, and draws the same number of faces. */
  lemma RenderAgain(m: MathLib, r: Renderable, lights: bool, next: nat)
    requires Render(m, r, lights, next).Done?
    ensures var first := Render(m, r, lights, next).value;
            var res := Render(m, first.0, lights, first.1.next);
            res.Done? && Uploads(res.value.1.events) == 0 && res.value.0.faces == first.0.faces
  {
    var first := Render(m, r, lights, next).value;
    var r1 := first.0;
    assert r1.initialised && (r1.useUnlit || AllBound(r1.textures));
    if !r1.useUnlit {
      AllBoundBindable(r1.textures);
    }
    var res := Render(m, r1, lights, first.1.next);
    assert res.Done?;
    RenderUploads(m, r1, lights, first.1.next);
  }
}
