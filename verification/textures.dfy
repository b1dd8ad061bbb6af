/** Texture units and the texture lifecycle (`GG.textureManager`,
    `GG.texture`). A texture keeps its pixel source in `tmpImage` until the
    first `bind` uploads it; it is given a texture unit by its renderable's
    manager the first time it is bound, and keeps that unit. The manager's
    `resolveTextureUnit` turns unit `n` into the constant `gl.TEXTUREn`; it
    is the identity on unit numbers here. */
module Textures {
  import opened Common
  import opened GlLog

  datatype TextureManager = TextureManager(curTexUnit: nat)

  function NewTextureManager(): (tm: TextureManager)
    ensures tm.curTexUnit == 0
  {
    TextureManager(0)
  }

  /** `requestTexUnit`: hand out the current unit and advance the counter.
      Every unit handed out earlier is below the old counter, so the new
      unit differs from all of them and is below the new counter. */
  function RequestTexUnit(tm: TextureManager): (r: (nat, TextureManager))
    ensures tm.curTexUnit <= r.0 < r.1.curTexUnit
    ensures r.1.curTexUnit - tm.curTexUnit == 1
  {
    (tm.curTexUnit, TextureManager(tm.curTexUnit + 1))
  }

  /** `n` successive requests. */
  function RequestMany(tm: TextureManager, n: nat): (r: (seq<nat>, TextureManager))
    decreases n
  {
    if n == 0 then ([], tm)
    else
      var (u, tm1) := RequestTexUnit(tm);
      var (us, tm2) := RequestMany(tm1, n - 1);
      ([u] + us, tm2)
  }

  /** Successive requests return `cur, cur + 1, ...`: strictly increasing,
      hence pairwise distinct, and all below the advanced counter. */
  lemma {:induction false} RequestsIncrease(tm: TextureManager, n: nat)
    ensures var (us, tm') := RequestMany(tm, n);
            |us| == n && tm'.curTexUnit == tm.curTexUnit + n &&
            (forall i :: 0 <= i < n ==> us[i] == tm.curTexUnit + i) &&
            (forall i, j :: 0 <= i < j < n ==> us[i] < us[j]) &&
            (forall i :: 0 <= i < n ==> tm.curTexUnit <= us[i] < tm'.curTexUnit)
    decreases n
  {
    if n > 0 {
      var (u, tm1) := RequestTexUnit(tm);
      RequestsIncrease(tm1, n - 1);
    }
  }

  datatype Texture = Texture(tmpImage: Option<Image>, width: nat, height: nat,
                             tex: Option<nat>, texUnit: Option<nat>)

  /** The constructor: an image (possibly null), no GL texture, no unit. */
  function NewTexture(image: Option<Image>, width: nat, height: nat): (t: Texture)
    ensures t.tmpImage == image && t.tex.None? && t.texUnit.None?
    ensures Uploaded(t)
  {
    Texture(image, width, height, None, None)
  }

  /** Once a GL texture exists its image has been handed over and dropped. */
  predicate Uploaded(t: Texture) {
    t.tex.Some? ==> t.tmpImage.None?
  }

  /** The upload `init` performs: with width and height for a byte array,
      without them for an element. */
  function UploadEvent(h: nat, t: Texture, image: Image): GlEvent {
    match image
    case Pixels(bytes) => UploadPixels(h, t.width, t.height, bytes)
    case Element(id) => UploadElement(h, id)
  }

  /** `texture.init`: create a GL texture, upload `tmpImage` to it and
      clear `tmpImage`. It is only reached from `bind` with an image. */
  function TexInit(t: Texture, next: nat): (r: (Texture, Effect))
    requires t.tmpImage.Some?
    ensures r.0.tex == Some(next) && r.1.next == next + 1
    ensures r.0.tmpImage.None? && Uploaded(r.0)
    ensures r.0.width == t.width && r.0.height == t.height && r.0.texUnit == t.texUnit
    ensures r.1.events == [CreateTexture(next), UploadEvent(next, t, t.tmpImage.value)]
    ensures Plain(r.1.events)
  {
    var events := [CreateTexture(next), UploadEvent(next, t, t.tmpImage.value)];
    EventsConcat([events[0]], [events[1]]);
    assert [events[0]] + [events[1]] == events;
    SinglePlain(events[0]);
    SinglePlain(events[1]);
    (t.(tex := Some(next), tmpImage := None), Effect(next + 1, events))
  }

  /** `texture.bind`. Throws, changing nothing, when there is neither a GL
      texture nor an image to make one from. Otherwise initialises the
      texture if it has no GL texture yet, asks the manager for a unit only
      if it has none, and activates the unit and binds the texture. */
  function TexBind(t: Texture, tm: TextureManager, next: nat): (r: Outcome<(Texture, TextureManager, Effect)>)
    ensures r.Threw? <==> t.tex.None? && t.tmpImage.None?
    ensures r.Threw? ==> r.partial == (t, tm, Idle(next))
    ensures r.Done? ==> var (t', tm', e) := r.value;
              t'.tex.Some? && t'.texUnit.Some? && t'.width == t.width && t'.height == t.height &&
              |e.events| >= 2 &&
              e.events[|e.events| - 2..] == [ActiveTexture(t'.texUnit.value), BindTexture(t'.tex.value)]
    ensures r.Done? && t.tex.Some? ==>
              r.value.0.tex == t.tex && r.value.0.tmpImage == t.tmpImage && r.value.2.next == next
    ensures r.Done? && t.tex.None? ==> r.value.0.tex == Some(next) && r.value.0.tmpImage.None?
    ensures r.Done? && t.texUnit.Some? ==> r.value.0.texUnit == t.texUnit && r.value.1 == tm
    ensures r.Done? && t.texUnit.None? ==>
              r.value.0.texUnit == Some(tm.curTexUnit) && r.value.1.curTexUnit == tm.curTexUnit + 1
    ensures r.Done? && Uploaded(t) ==> Uploaded(r.value.0)
    ensures next <= r.State().2.next && Plain(r.State().2.events)
  {
    if t.tex.None? && t.tmpImage.None? then Threw((t, tm, Idle(next)))
    else
      var (t1, e1) := if t.tex.None? then TexInit(t, next) else (t, Idle(next));
      var (t2, tm2) := if t1.texUnit.None?
                       then var (u, tm') := RequestTexUnit(tm); (t1.(texUnit := Some(u)), tm')
                       else (t1, tm);
      var pair := [ActiveTexture(t2.texUnit.value), BindTexture(t2.tex.value)];
      EventsConcat([pair[0]], [pair[1]]);
      assert [pair[0]] + [pair[1]] == pair;
      SinglePlain(pair[0]);
      SinglePlain(pair[1]);
      ThenEvents(e1, Effect(e1.next, pair));
      Done((t2, tm2, Then(e1, Effect(e1.next, pair))))
  }

  /** Binding again after a successful bind uploads nothing and requests no
      unit: the texture and the manager are unchanged, and only the
      activate-and-bind pair is logged. */
  lemma TexBindAgain(t: Texture, tm: TextureManager, next: nat)
    requires TexBind(t, tm, next).Done?
    ensures var (t', tm', e) := TexBind(t, tm, next).value;
            var r := TexBind(t', tm', e.next);
            r.Done? && r.value.0 == t' && r.value.1 == tm' && r.value.2.next == e.next &&
            r.value.2.events == [ActiveTexture(t'.texUnit.value), BindTexture(t'.tex.value)]
  {
  }

  // ----------------------------------------------- the loop in renderable.bind

  /** Units already given to textures of `ts` are pairwise distinct and
      below the manager's counter. */
  predicate UnitsFresh(ts: seq<Texture>, tm: TextureManager) {
    (forall i :: 0 <= i < |ts| && ts[i].texUnit.Some? ==> ts[i].texUnit.value < tm.curTexUnit) &&
    (forall i, j :: 0 <= i < j < |ts| && ts[i].texUnit.Some? && ts[j].texUnit.Some? ==>
       ts[i].texUnit.value != ts[j].texUnit.value)
  }

  /** Each texture of `ts'` kept the unit it had in `ts`, or had none and
      was given one at or above `lo`. */
  predicate KeptOrNew(ts: seq<Texture>, ts': seq<Texture>, lo: nat) {
    |ts'| == |ts| &&
    forall i :: 0 <= i < |ts| && ts'[i].texUnit.Some? ==>
      ts'[i].texUnit == ts[i].texUnit || (ts[i].texUnit.None? && lo <= ts'[i].texUnit.value)
  }

  /** Some texture has neither a GL texture nor an image. */
  predicate Unbindable(ts: seq<Texture>) {
    exists i :: 0 <= i < |ts| && ts[i].tex.None? && ts[i].tmpImage.None?
  }

  /** Every texture has a GL texture and a unit. */
  predicate AllBound(ts: seq<Texture>) {
    forall i :: 0 <= i < |ts| ==> ts[i].tex.Some? && ts[i].texUnit.Some?
  }

  lemma AllBoundCons(t: Texture, ts: seq<Texture>)
    requires t.tex.Some? && t.texUnit.Some?
    ensures AllBound(ts) ==> AllBound([t] + ts)
  {
    if AllBound(ts) {
      forall i | 0 <= i < |[t] + ts| ensures ([t] + ts)[i].tex.Some? && ([t] + ts)[i].texUnit.Some? {
        if i > 0 {
          assert ([t] + ts)[i] == ts[i - 1];
        }
      }
    }
  }

  /** A bound sequence of textures cannot throw. */
  lemma AllBoundBindable(ts: seq<Texture>)
    requires AllBound(ts)
    ensures !Unbindable(ts)
  {
  }

  /** The loop over `this.textures` in `renderable.bind`: bind each texture
      with the renderable's manager, then set its sampler uniform to its
      unit. A throw stops the loop with the textures before it bound. */
  function BindTextures(ts: seq<Texture>, tm: TextureManager, next: nat): (r: Outcome<(seq<Texture>, TextureManager, Effect)>)
    ensures r.Threw? <==> Unbindable(ts)
    ensures KeptOrNew(ts, r.State().0, tm.curTexUnit)
    ensures r.Done? ==> AllBound(r.value.0)
    ensures tm.curTexUnit <= r.State().1.curTexUnit && next <= r.State().2.next
    ensures UnitsFresh(ts, tm) ==> UnitsFresh(r.State().0, r.State().1)
    decreases |ts|
  {
    if |ts| == 0 then Done((ts, tm, Idle(next)))
    else
      match TexBind(ts[0], tm, next)
      case Threw(_) =>
        assert Unbindable(ts) by { assert ts[0].tex.None? && ts[0].tmpImage.None?; }
        Threw((ts, tm, Idle(next)))
      case Done((t', tm1, e1)) =>
        var e2 := Then(e1, Effect(e1.next, [TexSampler(t'.texUnit.value)]));
        var rest := BindTextures(ts[1..], tm1, e2.next);
        var (ts', tm', e3) := rest.State();
        UnbindableTail(ts);
        FreshStep(ts, tm, t', tm1, ts', tm');
        AllBoundCons(t', ts');
        var out := ([t'] + ts', tm', Then(e2, e3));
        if rest.Done? then Done(out) else Threw(out)
  }

  /** Binding textures logs neither a flat colour nor vertex data. */
  lemma {:induction false} BindTexturesPlain(ts: seq<Texture>, tm: TextureManager, next: nat)
    ensures Plain(BindTextures(ts, tm, next).State().2.events)
    decreases |ts|
  {
    if |ts| > 0 {
      match TexBind(ts[0], tm, next)
      case Threw(_) =>
      case Done((t', tm1, e1)) =>
        var sampler := Effect(e1.next, [TexSampler(t'.texUnit.value)]);
        SinglePlain(sampler.events[0]);
        ThenEvents(e1, sampler);
        var e2 := Then(e1, sampler);
        BindTexturesPlain(ts[1..], tm1, e2.next);
        ThenEvents(e2, BindTextures(ts[1..], tm1, e2.next).State().2);
    }
  }

  lemma UnbindableTail(ts: seq<Texture>)
    requires |ts| > 0 && (ts[0].tex.Some? || ts[0].tmpImage.Some?)
    ensures Unbindable(ts) <==> Unbindable(ts[1..])
  {
    if Unbindable(ts) {
      var i :| 0 <= i < |ts| && ts[i].tex.None? && ts[i].tmpImage.None?;
      assert ts[1..][i - 1] == ts[i];
    }
    if Unbindable(ts[1..]) {
      var i :| 0 <= i < |ts[1..]| && ts[1..][i].tex.None? && ts[1..][i].tmpImage.None?;
      assert ts[i + 1] == ts[1..][i];
    }
  }

  /** One step of the loop: the bound head followed by the rest keeps or
      freshly assigns units, and keeps them fresh. */
  lemma FreshStep(ts: seq<Texture>, tm: TextureManager, t': Texture, tm1: TextureManager,
                  ts': seq<Texture>, tm': TextureManager)
    requires |ts| > 0 && t'.texUnit.Some?
    requires ts[0].texUnit.Some? ==> t'.texUnit == ts[0].texUnit && tm1 == tm
    requires ts[0].texUnit.None? ==> t'.texUnit == Some(tm.curTexUnit) && tm1.curTexUnit == tm.curTexUnit + 1
    requires tm1.curTexUnit <= tm'.curTexUnit
    requires KeptOrNew(ts[1..], ts', tm1.curTexUnit)
    requires UnitsFresh(ts[1..], tm1) ==> UnitsFresh(ts', tm')
    ensures KeptOrNew(ts, [t'] + ts', tm.curTexUnit)
    ensures UnitsFresh(ts, tm) ==> UnitsFresh([t'] + ts', tm')
  {
    var all := [t'] + ts';
    forall i | 0 <= i < |ts| && all[i].texUnit.Some?
      ensures all[i].texUnit == ts[i].texUnit || (ts[i].texUnit.None? && tm.curTexUnit <= all[i].texUnit.value)
    {
      if i > 0 {
        assert all[i] == ts'[i - 1] && ts[1..][i - 1] == ts[i];
      }
    }
    if UnitsFresh(ts, tm) {
      assert UnitsFresh(ts[1..], tm1) by {
        forall i | 0 <= i < |ts[1..]| && ts[1..][i].texUnit.Some?
          ensures ts[1..][i].texUnit.value < tm1.curTexUnit
        {
          assert ts[1..][i] == ts[i + 1];
        }
        forall i, j | 0 <= i < j < |ts[1..]| && ts[1..][i].texUnit.Some? && ts[1..][j].texUnit.Some?
          ensures ts[1..][i].texUnit.value != ts[1..][j].texUnit.value
        {
          assert ts[1..][i] == ts[i + 1] && ts[1..][j] == ts[j + 1];
        }
      }
      forall j | 0 <= j < |ts'| && ts'[j].texUnit.Some?
        ensures ts'[j].texUnit.value != t'.texUnit.value
      {
        assert ts[1..][j] == ts[j + 1];
      }
      forall i | 0 <= i < |all| && all[i].texUnit.Some?
        ensures all[i].texUnit.value < tm'.curTexUnit
      {
        if i > 0 {
          assert all[i] == ts'[i - 1];
        }
      }
      forall i, j | 0 <= i < j < |all| && all[i].texUnit.Some? && all[j].texUnit.Some?
        ensures all[i].texUnit.value != all[j].texUnit.value
      {
        assert all[j] == ts'[j - 1];
        if i > 0 {
          assert all[i] == ts'[i - 1];
        }
      }
    }
  }
}
