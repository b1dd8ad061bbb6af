/** The WebGL context as the core sees it: a source of fresh object handles
    and a log of the calls made on it. Shader compilation, uniform values
    other than the picking colour, and everything the GPU does with the
    calls are outside the model. */
module GlLog {
  import opened Common
  import opened Colour

  /** Pixel data handed to `texImage2D`: a procedurally generated
      `Uint8Array`, or an image or canvas element. */
  datatype Image = Pixels(bytes: seq<Byte>) | Element(id: nat)

  datatype DrawMode = LineLoop | TriangleFan

  datatype GlEvent =
    | CreateTexture(texture: nat)
    | UploadPixels(texture: nat, width: nat, height: nat, bytes: seq<Byte>)
    | UploadElement(texture: nat, element: nat)
    | ActiveTexture(unit: nat)
    | BindTexture(texture: nat)
    | CompileProgram(program: nat, unlit: bool)
    | UseProgram(program: nat)
    | CreateBuffer(buffer: nat)
    | BindBuffer(buffer: nat)
    | FlatColour(colour: Rgb)
    | LitUniforms
    | TexSampler(unit: nat)
    | SceneBinding(unlit: bool)
    | BufferData(data: seq<real>)
    | DrawArrays(mode: DrawMode, first: nat, count: nat)
    | Clear
    | SceneSetup
    | ReadPixels

  /** What a piece of code did to the WebGL context: `next` is the handle
      the next `gl.create*` call returns afterwards, and `events` are the
      calls it made, in order. Every operation takes the counter as it
      finds it and returns its own calls; the caller concatenates them. */
  datatype Effect = Effect(next: nat, events: seq<GlEvent>)

  /** Nothing done: the counter as it was, no calls. */
  function Idle(next: nat): (e: Effect)
    ensures e.next == next && e.events == []
  {
    Effect(next, [])
  }

  /** `a` followed by `b`, where `b` started from `a`'s counter. */
  function Then(a: Effect, b: Effect): (e: Effect)
    ensures e.next == b.next && e.events == a.events + b.events
  {
    Effect(b.next, a.events + b.events)
  }

  /** The colours the flat-colour uniform is set to among `events`. */
  function FlatColours(events: seq<GlEvent>): (cs: set<Rgb>)
    decreases |events|
  {
    if |events| == 0 then {}
    else (if events[0].FlatColour? then {events[0].colour} else {}) + FlatColours(events[1..])
  }

  /** How many vertex-data uploads `events` holds. */
  function Uploads(events: seq<GlEvent>): (n: nat)
    decreases |events|
  {
    if |events| == 0 then 0
    else (if events[0].BufferData? then 1 else 0) + Uploads(events[1..])
  }

  /** Both counts add up over a concatenation. */
  lemma {:induction false} EventsConcat(a: seq<GlEvent>, b: seq<GlEvent>)
    ensures FlatColours(a + b) == FlatColours(a) + FlatColours(b)
    ensures Uploads(a + b) == Uploads(a) + Uploads(b)
    decreases |a|
  {
    if |a| > 0 {
      assert (a + b)[1..] == a[1..] + b;
      EventsConcat(a[1..], b);
    } else {
      assert a + b == b;
    }
  }

  /** The colours `FlatColours` collects are exactly those of the
      flat-colour events. */
  lemma {:induction false} FlatColoursMembers(events: seq<GlEvent>, c: Rgb)
    ensures c in FlatColours(events) <==> FlatColour(c) in events
    decreases |events|
  {
    if |events| > 0 {
      FlatColoursMembers(events[1..], c);
      assert events == [events[0]] + events[1..];
    }
  }

  /** No event of `events` sets the flat colour or uploads vertex data. */
  predicate Plain(events: seq<GlEvent>) {
    FlatColours(events) == {} && Uploads(events) == 0
  }

  lemma SinglePlain(e: GlEvent)
    requires !e.FlatColour? && !e.BufferData?
    ensures Plain([e])
  {
    assert [e][1..] == [];
  }

  /** Sequencing adds up the flat colours and the uploads. */
  lemma ThenEvents(a: Effect, b: Effect)
    ensures FlatColours(Then(a, b).events) == FlatColours(a.events) + FlatColours(b.events)
    ensures Uploads(Then(a, b).events) == Uploads(a.events) + Uploads(b.events)
  {
    EventsConcat(a.events, b.events);
  }
}
