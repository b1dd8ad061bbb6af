/** `GG.scene`: the registry of renderables keyed by their picking colour,
    rendering in key order, and colour picking. The camera, the lights,
    `bindToScene`'s matrix and light uniforms and the off-screen framebuffer
    that `pick` renders into are outside the model; the colour
    `gl.readPixels` returns is a parameter of `Pick`. */
module Scenes {
  import opened Common
  import opened Colour
  import opened GlLog
  import opened Textures
  import opened Mesh
  import opened Renderables

  /** `renderables` is the object keyed by `rgbToInt` of each renderable's
      colour; `initialised` is set by the first `render`; `lights` says
      whether the application has assigned the scene's `lights` array,
      which the constructor leaves undefined. */
  datatype Scene = Scene(renderables: map<int, Renderable>, initialised: bool, lights: bool)

  function NewScene(): (s: Scene)
    ensures s.renderables == map[] && !s.initialised && !s.lights
  {
    Scene(map[], false, false)
  }

  /** Every entry sits under the key of its own colour, that key is a 24-bit
      colour key, and the entry has been given the scene's binding. */
  predicate Valid(s: Scene) {
    forall k :: k in s.renderables ==>
      0 <= k < KEY_SPACE && Key(s.renderables[k].color) == k && s.renderables[k].inScene
  }

  // ------------------------------------------------------------ registry

  /** One accepted candidate: the renderable takes colour `c` and the scene
      binding and is stored under `c`'s key. */
  function Register(s: Scene, r: Renderable, c: Rgb): (res: (Scene, Renderable))
    ensures res.1.color == c && res.1.inScene
    ensures res.0.renderables.Keys == s.renderables.Keys + {Key(c)}
    ensures res.0.renderables[Key(c)] == res.1
    ensures forall k :: k in s.renderables && k != Key(c) ==> res.0.renderables[k] == s.renderables[k]
  {
    var r' := r.(color := c, inScene := true);
    (s.(renderables := s.renderables[Key(c) := r']), r')
  }

  /** The index of the first candidate whose key the scene does not hold. */
  function FirstFree(keys: set<int>, candidates: seq<Rgb>): (i: Option<nat>)
    ensures i.Some? ==> i.value < |candidates| && Key(candidates[i.value]) !in keys
    ensures i.Some? ==> forall j :: 0 <= j < i.value ==> Key(candidates[j]) in keys
    ensures i.None? ==> forall j :: 0 <= j < |candidates| ==> Key(candidates[j]) in keys
    decreases |candidates|
  {
    if |candidates| == 0 then None
    else if Key(candidates[0]) !in keys then Some(0)
    else
      var tail := candidates[1..];
      assert forall j :: 1 <= j < |candidates| ==> candidates[j] == tail[j - 1];
      match FirstFree(keys, tail)
      case None => None
      case Some(i) => Some(i + 1)
  }

  /** `scene.addRenderable`: draw colours from `candidates` (the successive
      results of `GG.nextRgb`) until one has a key the scene does not hold,
      then register the renderable under it. `None` means the candidates ran
      out while every key was taken; the source would keep drawing. */
  method AddRenderable(s: Scene, r: Renderable, candidates: seq<Rgb>) returns (res: Option<(Scene, Renderable)>)
    ensures res.None? <==> forall j :: 0 <= j < |candidates| ==> Key(candidates[j]) in s.renderables
    ensures res.Some? ==> exists i :: 0 <= i < |candidates| && FirstFree(s.renderables.Keys, candidates) == Some(i) &&
                                      res.value == Register(s, r, candidates[i])
    ensures res.Some? ==> Key(res.value.1.color) !in s.renderables
    ensures res.Some? && Valid(s) ==> Valid(res.value.0)
    ensures res.Some? ==> Remove(res.value.0, res.value.1).renderables == s.renderables
  {
    var i := 0;
    while i < |candidates|
      invariant 0 <= i <= |candidates|
      invariant forall j :: 0 <= j < i ==> Key(candidates[j]) in s.renderables
    {
      if Key(candidates[i]) !in s.renderables {
        FirstFreeIs(s.renderables.Keys, candidates, i);
        var added := Register(s, r, candidates[i]);
        RegisterKeepsValid(s, r, candidates[i]);
        RemoveAfterRegister(s, r, candidates[i]);
        return Some(added);
      }
      i := i + 1;
    }
    return None;
  }

  /** The first free index is the one a left-to-right scan stops at. */
  lemma FirstFreeIs(keys: set<int>, candidates: seq<Rgb>, i: nat)
    requires i < |candidates| && Key(candidates[i]) !in keys
    requires forall j :: 0 <= j < i ==> Key(candidates[j]) in keys
    ensures FirstFree(keys, candidates) == Some(i)
  {
  }

  lemma RegisterKeepsValid(s: Scene, r: Renderable, c: Rgb)
    ensures Valid(s) ==> Valid(Register(s, r, c).0)
  {
    RgbKeyBound(c);
  }

  lemma RgbKeyBound(c: Rgb)
    ensures 0 <= Key(c) < KEY_SPACE
  {
  }

  /** `scene.remove`: delete the key of the renderable's colour. Whatever is
      stored there goes, whether or not it is this renderable. */
  function Remove(s: Scene, r: Renderable): (s': Scene)
    ensures s'.renderables.Keys == s.renderables.Keys - {Key(r.color)}
    ensures forall k :: k in s'.renderables ==> s'.renderables[k] == s.renderables[k]
    ensures s'.initialised == s.initialised
  {
    s.(renderables := s.renderables - {Key(r.color)})
  }

  /** Removing an absent key changes nothing. */
  lemma RemoveAbsent(s: Scene, r: Renderable)
    requires Key(r.color) !in s.renderables
    ensures Remove(s, r) == s
  {
    assert Remove(s, r).renderables == s.renderables;
  }

  /** Registering under a free key and removing the renderable that came
      back restores the registry. */
  lemma RemoveAfterRegister(s: Scene, r: Renderable, c: Rgb)
    requires Key(c) !in s.renderables
    ensures var (s', r') := Register(s, r, c); Remove(s', r').renderables == s.renderables
  {
    var (s', r') := Register(s, r, c);
    assert Remove(s', r').renderables == s.renderables;
  }

  /** Validity survives removal. */
  lemma RemoveKeepsValid(s: Scene, r: Renderable)
    requires Valid(s)
    ensures Valid(Remove(s, r))
  {
  }

  // ----------------------------------------------------------- key order

  /** The keys of `keys` below `n`, ascending: the order in which `for ...
      in` visits integer keys of an object. */
  function KeysBelow(keys: set<int>, n: nat): (ks: seq<int>)
    decreases n
  {
    if n == 0 then [] else KeysBelow(keys, n - 1) + (if n - 1 in keys then [n - 1] else [])
  }

  /** The order lists exactly the keys below `n`, each once, ascending. */
  lemma {:induction false} KeysBelowOrder(keys: set<int>, n: nat)
    ensures forall k :: k in KeysBelow(keys, n) <==> k in keys && 0 <= k < n
    ensures forall i, j :: 0 <= i < j < |KeysBelow(keys, n)| ==> KeysBelow(keys, n)[i] < KeysBelow(keys, n)[j]
    decreases n
  {
    if n > 0 {
      KeysBelowOrder(keys, n - 1);
      var front := KeysBelow(keys, n - 1);
      var ks := KeysBelow(keys, n);
      forall i, j | 0 <= i < j < |ks| ensures ks[i] < ks[j] {
        if j >= |front| {
          assert ks[j] == n - 1;
          assert ks[i] == front[i] && ks[i] in front;
        }
      }
    }
  }

  /** The order `render` and `pick` visit the scene's renderables in. */
  function Order(s: Scene): seq<int> {
    KeysBelow(s.renderables.Keys, KEY_SPACE)
  }

  lemma OrderOfValid(s: Scene)
    requires Valid(s)
    ensures forall k :: k in Order(s) <==> k in s.renderables
    ensures Distinct(Order(s))
  {
    KeysBelowOrder(s.renderables.Keys, KEY_SPACE);
  }

  predicate Distinct(keys: seq<int>) {
    forall i, j :: 0 <= i < j < |keys| ==> keys[i] != keys[j]
  }

  // ----------------------------------------------------------- rendering

  /** The part of a renderable a render leaves alone. */
  predicate SameIdentity(a: Renderable, b: Renderable) {
    a.kind == b.kind && a.color == b.color && a.useUnlit == b.useUnlit && a.inScene == b.inScene
  }

  /** Same keys, and every entry has kept its identity. */
  predicate SameEntries(rs: map<int, Renderable>, rs': map<int, Renderable>) {
    rs'.Keys == rs.Keys && forall k :: k in rs ==> SameIdentity(rs[k], rs'[k])
  }

  predicate AllIn(keys: seq<int>, rs: map<int, Renderable>) {
    forall i :: 0 <= i < |keys| ==> keys[i] in rs
  }

  /** Render the renderables under `keys`, in that order, each with the GL
      state the previous one left. A throw stops the loop; the renderable
      that threw keeps the state it reached. */
  function RenderEach(m: MathLib, rs: map<int, Renderable>, keys: seq<int>, lights: bool, next: nat)
    : (res: Outcome<(map<int, Renderable>, Effect)>)
    requires AllIn(keys, rs)
    ensures SameEntries(rs, res.State().0)
    ensures next <= res.State().1.next
    decreases |keys|
  {
    if |keys| == 0 then Done((rs, Idle(next)))
    else
      var one := Render(m, rs[keys[0]], lights, next);
      var rs1 := rs[keys[0] := one.State().0];
      RenderKeepsEntries(m, rs, keys[0], lights, next);
      if one.Threw? then Threw((rs1, one.State().1))
      else
        var rest := RenderEach(m, rs1, keys[1..], lights, one.value.1.next);
        var e := Then(one.value.1, rest.State().1);
        SameEntriesTrans(rs, rs1, rest.State().0);
        if rest.Threw? then Threw((rest.State().0, e)) else Done((rest.State().0, e))
  }

  /** Rendering one entry keeps the registry's keys and identities. */
  lemma RenderKeepsEntries(m: MathLib, rs: map<int, Renderable>, k: int, lights: bool, next: nat)
    requires k in rs
    ensures SameEntries(rs, rs[k := Render(m, rs[k], lights, next).State().0])
  {
    var r' := Render(m, rs[k], lights, next).State().0;
    assert SameIdentity(rs[k], r');
    var rs' := rs[k := r'];
    forall j | j in rs
      ensures SameIdentity(rs[j], rs'[j])
    {
    }
  }

  lemma SameEntriesTrans(a: map<int, Renderable>, b: map<int, Renderable>, c: map<int, Renderable>)
    requires SameEntries(a, b) && SameEntries(b, c)
    ensures SameEntries(a, c)
  {
  }

  /** The colours of the unlit renderables under `keys`. */
  function UnlitColours(rs: map<int, Renderable>, keys: seq<int>): set<Rgb>
    requires AllIn(keys, rs)
    decreases |keys|
  {
    if |keys| == 0 then {}
    else (if rs[keys[0]].useUnlit then {rs[keys[0]].color} else {}) + UnlitColours(rs, keys[1..])
  }

  /** Some renderable under `keys` throws when rendered. */
  predicate SomeThrows(rs: map<int, Renderable>, keys: seq<int>, lights: bool)
    requires AllIn(keys, rs)
  {
    exists i :: 0 <= i < |keys| && RenderThrows(rs[keys[i]], lights)
  }

  /** Rendering a list of distinct keys throws exactly when one of them
      throws on its own; when it does not throw, the flat colours it sets
      are exactly those of the unlit renderables. */
  lemma {:induction false} RenderEachOutcome(m: MathLib, rs: map<int, Renderable>, keys: seq<int>, lights: bool,
                                             next: nat)
    requires AllIn(keys, rs) && Distinct(keys)
    ensures RenderEach(m, rs, keys, lights, next).Threw? <==> SomeThrows(rs, keys, lights)
    ensures RenderEach(m, rs, keys, lights, next).Done? ==>
              FlatColours(RenderEach(m, rs, keys, lights, next).value.1.events) == UnlitColours(rs, keys)
    decreases |keys|
  {
    if |keys| > 0 {
      var k := keys[0];
      var one := Render(m, rs[k], lights, next);
      var rs1 := rs[k := one.State().0];
      RenderFlatColours(m, rs[k], lights, next);
      if one.Done? {
        var tail := keys[1..];
        TailUnchanged(rs, k, one.State().0, keys, lights);
        RenderEachOutcome(m, rs1, tail, lights, one.value.1.next);
        var rest := RenderEach(m, rs1, tail, lights, one.value.1.next);
        ThenEvents(one.value.1, rest.State().1);
        SomeThrowsStep(rs, keys, lights);
      } else {
        assert RenderThrows(rs[keys[0]], lights);
      }
    }
  }

  /** Replacing the entry at the head key leaves the entries of the other,
      distinct keys as they were. */
  lemma TailUnchanged(rs: map<int, Renderable>, k: int, r: Renderable, keys: seq<int>, lights: bool)
    requires AllIn(keys, rs) && Distinct(keys) && |keys| > 0 && k == keys[0]
    ensures AllIn(keys[1..], rs[k := r]) && Distinct(keys[1..])
    ensures SomeThrows(rs[k := r], keys[1..], lights) <==> SomeThrows(rs, keys[1..], lights)
    ensures UnlitColours(rs[k := r], keys[1..]) == UnlitColours(rs, keys[1..])
  {
    var tail := keys[1..];
    forall i | 0 <= i < |tail| ensures tail[i] != k && rs[k := r][tail[i]] == rs[tail[i]] {
      assert tail[i] == keys[i + 1];
    }
    UnlitColoursAgree(rs[k := r], rs, tail);
  }

  lemma {:induction false} UnlitColoursAgree(rs: map<int, Renderable>, rs': map<int, Renderable>, keys: seq<int>)
    requires AllIn(keys, rs) && AllIn(keys, rs')
    requires forall i :: 0 <= i < |keys| ==> rs[keys[i]] == rs'[keys[i]]
    ensures UnlitColours(rs, keys) == UnlitColours(rs', keys)
    decreases |keys|
  {
    if |keys| > 0 {
      UnlitColoursAgree(rs, rs', keys[1..]);
    }
  }

  lemma SomeThrowsStep(rs: map<int, Renderable>, keys: seq<int>, lights: bool)
    requires AllIn(keys, rs) && |keys| > 0
    ensures SomeThrows(rs, keys, lights) <==> RenderThrows(rs[keys[0]], lights) || SomeThrows(rs, keys[1..], lights)
  {
    if SomeThrows(rs, keys, lights) {
      var i :| 0 <= i < |keys| && RenderThrows(rs[keys[i]], lights);
      if i > 0 {
        assert keys[1..][i - 1] == keys[i];
      }
    }
    if SomeThrows(rs, keys[1..], lights) {
      var i :| 0 <= i < |keys[1..]| && RenderThrows(rs[keys[1..][i]], lights);
      assert keys[1..][i] == keys[i + 1];
    }
  }

  /** `scene.render`: clear, run `init` the first time, then render every
      renderable in key order. A throw from a renderable propagates. */
  function RenderScene(m: MathLib, s: Scene, next: nat): (res: Outcome<(Scene, Effect)>)
    requires Valid(s)
    ensures res.State().0.initialised && res.State().0.lights == s.lights
    ensures SameEntries(s.renderables, res.State().0.renderables)
    ensures |res.State().1.events| > 0 && res.State().1.events[0] == Clear
  {
    OrderOfValid(s);
    var setup := Effect(next, SetupEvents(s.initialised));
    var each := RenderEach(m, s.renderables, Order(s), s.lights, next);
    var out := (s.(renderables := each.State().0, initialised := true), Then(setup, each.State().1));
    if each.Threw? then Threw(out) else Done(out)
  }

  /** The colours of all entries, and of the unlit ones. */
  function Colours(rs: map<int, Renderable>): set<Rgb> {
    set k | k in rs :: rs[k].color
  }

  function UnlitOnes(rs: map<int, Renderable>): set<Rgb> {
    set k | k in rs && rs[k].useUnlit :: rs[k].color
  }

  /** Some lit entry has a texture that can be neither created nor bound. */
  predicate AnyUnbindable(rs: map<int, Renderable>) {
    exists k :: k in rs && !rs[k].useUnlit && Unbindable(rs[k].textures)
  }

  /** Some entry draws with the lit program. */
  predicate AnyLit(rs: map<int, Renderable>) {
    exists k :: k in rs && !rs[k].useUnlit
  }

  /** A valid scene's render throws exactly when one of its lit renderables
      has an unbindable texture, or when it holds a lit renderable and its
      `lights` has not been assigned. */
  lemma RenderSceneThrows(m: MathLib, s: Scene, next: nat)
    requires Valid(s)
    ensures RenderScene(m, s, next).Threw? <==>
              AnyUnbindable(s.renderables) || (!s.lights && AnyLit(s.renderables))
  {
    OrderOfValid(s);
    RenderEachOutcome(m, s.renderables, Order(s), s.lights, next);
    SomeThrowsAll(s.renderables, Order(s), s.lights);
  }

  /** A render that does not throw sets as flat colours exactly the colours
      of the scene's unlit renderables. */
  lemma RenderSceneColours(m: MathLib, s: Scene, next: nat)
    requires Valid(s)
    ensures RenderScene(m, s, next).Done? ==>
              FlatColours(RenderScene(m, s, next).value.1.events) == UnlitOnes(s.renderables)
  {
    OrderOfValid(s);
    var rs, keys := s.renderables, Order(s);
    RenderEachOutcome(m, rs, keys, s.lights, next);
    SetupThen(s.initialised, next, RenderEach(m, rs, keys, s.lights, next).State().1);
    UnlitColoursAll(rs, keys);
  }

  /** Over a list of keys that holds every key of a map whose entries all
      belong to the scene, some entry throws exactly when one is lit with an
      unbindable texture or one is lit while the lights are unassigned. */
  lemma SomeThrowsAll(rs: map<int, Renderable>, keys: seq<int>, lights: bool)
    requires AllIn(keys, rs) && forall k :: k in rs ==> k in keys && rs[k].inScene
    ensures SomeThrows(rs, keys, lights) <==> AnyUnbindable(rs) || (!lights && AnyLit(rs))
  {
    if AnyUnbindable(rs) {
      var k :| k in rs && !rs[k].useUnlit && Unbindable(rs[k].textures);
      var i := IndexOf(keys, k);
      assert RenderThrows(rs[keys[i]], lights);
    }
    if !lights && AnyLit(rs) {
      var k :| k in rs && !rs[k].useUnlit;
      var i := IndexOf(keys, k);
      assert RenderThrows(rs[keys[i]], lights);
    }
    if SomeThrows(rs, keys, lights) {
      var i :| 0 <= i < |keys| && RenderThrows(rs[keys[i]], lights);
      var k := keys[i];
      assert k in rs && !rs[k].useUnlit;
      if Unbindable(rs[k].textures) {
        assert AnyUnbindable(rs);
      } else {
        assert !lights && AnyLit(rs);
      }
    }
  }

  /** What `render` does before the renderables: clear, and run `init` the
      first time. */
  function SetupEvents(initialised: bool): seq<GlEvent> {
    if initialised then [Clear] else [Clear, SceneSetup]
  }

  /** The set-up sets no flat colour, so a render's flat colours are those of
      its renderables. */
  lemma SetupThen(initialised: bool, next: nat, e: Effect)
    ensures FlatColours(Then(Effect(next, SetupEvents(initialised)), e).events) == FlatColours(e.events)
  {
    var es := SetupEvents(initialised);
    SinglePlain(Clear);
    SinglePlain(SceneSetup);
    EventsConcat([Clear], [SceneSetup]);
    assert initialised || es == [Clear] + [SceneSetup];
    ThenEvents(Effect(next, es), e);
  }

  lemma IndexOf(keys: seq<int>, k: int) returns (i: nat)
    requires k in keys
    ensures i < |keys| && keys[i] == k
  {
    i :| 0 <= i < |keys| && keys[i] == k;
  }

  /** Over a list of keys that holds every key of the map, the unlit
      colours are those of every unlit entry. */
  lemma UnlitColoursAll(rs: map<int, Renderable>, keys: seq<int>)
    requires AllIn(keys, rs) && forall k :: k in rs ==> k in keys
    ensures UnlitColours(rs, keys) == UnlitOnes(rs)
  {
    UnlitColoursMembers(rs, keys);
    var lhs, rhs := UnlitColours(rs, keys), UnlitOnes(rs);
    forall c | c in rhs ensures c in lhs {
      var k :| k in rs && rs[k].useUnlit && rs[k].color == c;
      var i := IndexOf(keys, k);
      assert rs[keys[i]].useUnlit && rs[keys[i]].color == c;
    }
    forall c | c in lhs ensures c in rhs {
      var i :| 0 <= i < |keys| && rs[keys[i]].useUnlit && rs[keys[i]].color == c;
      var k := keys[i];
      assert k in rs && rs[k].useUnlit && rs[k].color == c;
    }
  }

  lemma {:induction false} UnlitColoursMembers(rs: map<int, Renderable>, keys: seq<int>)
    requires AllIn(keys, rs)
    ensures forall c :: c in UnlitColours(rs, keys) <==>
              exists i :: 0 <= i < |keys| && rs[keys[i]].useUnlit && rs[keys[i]].color == c
    decreases |keys|
  {
    if |keys| > 0 {
      UnlitColoursMembers(rs, keys[1..]);
      forall c ensures c in UnlitColours(rs, keys) <==>
                       exists i :: 0 <= i < |keys| && rs[keys[i]].useUnlit && rs[keys[i]].color == c
      {
        if c in UnlitColours(rs, keys[1..]) {
          var i :| 0 <= i < |keys[1..]| && rs[keys[1..][i]].useUnlit && rs[keys[1..][i]].color == c;
          assert keys[1..][i] == keys[i + 1];
        }
        if exists i :: 0 <= i < |keys| && rs[keys[i]].useUnlit && rs[keys[i]].color == c {
          var i :| 0 <= i < |keys| && rs[keys[i]].useUnlit && rs[keys[i]].color == c;
          if i > 0 {
            assert keys[1..][i - 1] == keys[i];
          }
        }
      }
    }
  }

  // ------------------------------------------------------------- picking

  /** Set every renderable's `useUnlit` flag, as the loops in `pick` do. */
  function SetUnlit(rs: map<int, Renderable>, flag: bool): (rs': map<int, Renderable>)
    ensures rs'.Keys == rs.Keys
    ensures forall k :: k in rs ==> rs'[k] == rs[k].(useUnlit := flag)
  {
    map k | k in rs :: rs[k].(useUnlit := flag)
  }

  /** `scene.pick`: switch every renderable to its unlit shader, render,
      read the pixel (its colour is `pixel`), switch back, and look the
      colour's key up. A pick cannot throw, even while the scene's lights
      are unassigned: every renderable is unlit while it renders, so the
      render it makes always completes. An answer is always the renderable
      of exactly the pixel's colour. */
  function Pick(m: MathLib, s: Scene, next: nat, pixel: Rgb): (res: (Scene, Option<Renderable>, Effect))
    requires Valid(s)
    ensures res.1.Some? ==> res.1.value.color == pixel
  {
    PickRenders(m, s, next);
    var (s1, e1) := RenderScene(m, Flagged(s), next).value;
    var s2 := s1.(renderables := SetUnlit(s1.renderables, false));
    var e2 := Then(e1, Effect(e1.next, [ReadPixels]));
    var k := Key(pixel);
    if k in s2.renderables then
      KeyInjective(s2.renderables[k].color, pixel);
      (s2, Some(s2.renderables[k]), e2)
    else (s2, None, e2)
  }

  /** The scene as `pick` renders it: every renderable unlit. */
  function Flagged(s: Scene): Scene {
    s.(renderables := SetUnlit(s.renderables, true))
  }

  lemma FlaggedValid(s: Scene)
    requires Valid(s)
    ensures Valid(Flagged(s))
    ensures UnlitOnes(Flagged(s).renderables) == Colours(s.renderables)
    ensures !AnyUnbindable(Flagged(s).renderables) && !AnyLit(Flagged(s).renderables)
  {
  }

  /** The render inside a pick completes. */
  lemma PickRenders(m: MathLib, s: Scene, next: nat)
    requires Valid(s)
    ensures Valid(Flagged(s)) && RenderScene(m, Flagged(s), next).Done?
  {
    FlaggedValid(s);
    RenderSceneThrows(m, Flagged(s), next);
  }

  /** After a pick every renderable is lit again, the registry holds the
      same keys and colours, the scene is initialised, and it is still
      valid. */
  lemma PickRestores(m: MathLib, s: Scene, next: nat, pixel: Rgb)
    requires Valid(s)
    ensures var s' := Pick(m, s, next, pixel).0;
            s'.initialised && s'.lights == s.lights && s'.renderables.Keys == s.renderables.Keys && Valid(s') &&
            forall k :: k in s'.renderables ==>
              !s'.renderables[k].useUnlit && s'.renderables[k].color == s.renderables[k].color
  {
    PickRenders(m, s, next);
  }

  /** The pick answers with the renderable registered under the pixel's
      key, as it stands after the pick, or with nothing. */
  lemma PickAnswer(m: MathLib, s: Scene, next: nat, pixel: Rgb)
    requires Valid(s)
    ensures var res := Pick(m, s, next, pixel);
            res.0.renderables.Keys == s.renderables.Keys &&
            res.1 == (if Key(pixel) in res.0.renderables then Some(res.0.renderables[Key(pixel)]) else None)
  {
    PickRenders(m, s, next);
    var s1 := RenderScene(m, Flagged(s), next).value.0;
    assert s1.renderables.Keys == s.renderables.Keys;
    assert Pick(m, s, next, pixel).0.renderables.Keys == s.renderables.Keys;
  }

  /** The colours the pick's render puts on screen are exactly the colours
      of the registered renderables. */
  lemma PickColours(m: MathLib, s: Scene, next: nat, pixel: Rgb)
    requires Valid(s)
    ensures FlatColours(Pick(m, s, next, pixel).2.events) == Colours(s.renderables)
  {
    var flagged := Flagged(s);
    FlaggedValid(s);
    PickRenders(m, s, next);
    RenderSceneColours(m, flagged, next);
    var e1 := RenderScene(m, flagged, next).value.1;
    SinglePlain(ReadPixels);
    ThenEvents(e1, Effect(e1.next, [ReadPixels]));
  }

  /** A pixel painted by the pick's render is found: the answer is the
      renderable of exactly that colour. */
  lemma PickFinds(m: MathLib, s: Scene, next: nat, pixel: Rgb)
    requires Valid(s)
    ensures var res := Pick(m, s, next, pixel);
            pixel in FlatColours(res.2.events) ==> res.1.Some? && res.1.value.color == pixel
  {
    PickColours(m, s, next, pixel);
    PickAnswer(m, s, next, pixel);
    PickRestores(m, s, next, pixel);
    if pixel in Colours(s.renderables) {
      var k :| k in s.renderables && s.renderables[k].color == pixel;
      assert Key(pixel) == k;
    }
  }
}
