/** The signature pad: a two-state stroke recorder (idle or drawing) with a last-point
    register, fed by mouse and touch events. Drawing a segment is reported as a value
    instead of being rasterised. */
module Signature {
  import opened Common
  import opened Raster

  /** `drawing` and `[lastX, lastY]`. */
  datatype Recorder = Recorder(drawing: bool, last: Point)

  /** The script starts idle with the last point at the origin. */
  const Initial := Recorder(false, Point(0, 0))

  /** A line from `from` to `to` stroked on the pad. */
  datatype Segment = Segment(from: Point, to: Point)

  /** The recorder after one event, and the segment that event strokes, if any. */
  datatype Step = Step(rec: Recorder, stroke: Option<Segment>)

  /** `startDraw`: drawing, with the pointer as the last point, whatever the prior state. */
  function StartDraw(r: Recorder, p: Point): (s: Recorder)
    ensures s.drawing && s.last == p
  {
    Recorder(true, p)
  }

  /** `draw`: while idle nothing happens; while drawing the segment from the last point to
      the pointer is stroked and the pointer becomes the last point. */
  function Draw(r: Recorder, p: Point): (s: Step)
    ensures !r.drawing ==> s == Step(r, None)
    ensures r.drawing ==> s.rec.drawing && s.rec.last == p
    ensures r.drawing ==> s.stroke == Some(Segment(r.last, p))
  {
    if !r.drawing then Step(r, None) else Step(Recorder(true, p), Some(Segment(r.last, p)))
  }

  /** `endDraw`: idle from either state; the last point is kept. */
  function EndDraw(r: Recorder): (s: Recorder)
    ensures !s.drawing && s.last == r.last
  {
    r.(drawing := false)
  }

  lemma EndDrawIdempotent(r: Recorder)
    ensures EndDraw(EndDraw(r)) == EndDraw(r)
    ensures !r.drawing ==> EndDraw(r) == r
  {
  }

  /** The events the pad listens to. Mouse events carry the pad-relative offset; touch
      events carry the viewport position of the first touch. */
  datatype PadEvent =
    | MouseDown(offset: Point) | MouseMove(offset: Point) | MouseUp | MouseLeave
    | TouchStart(client: Point) | TouchMove(client: Point) | TouchEnd

  predicate IsStart(e: PadEvent) {
    e.MouseDown? || e.TouchStart?
  }

  predicate IsEnd(e: PadEvent) {
    e.MouseUp? || e.MouseLeave? || e.TouchEnd?
  }

  predicate IsMove(e: PadEvent) {
    e.MouseMove? || e.TouchMove?
  }

  /** `getXY`: a touch is translated by the pad's viewport origin, a mouse offset is used
      as it is. */
  function Locate(e: PadEvent, origin: Point): (p: Point)
    requires !IsEnd(e)
    ensures (e.MouseDown? || e.MouseMove?) ==> p == e.offset
    ensures (e.TouchStart? || e.TouchMove?) ==> p.x + origin.x == e.client.x && p.y + origin.y == e.client.y
  {
    match e
    case MouseDown(o) => o
    case MouseMove(o) => o
    case TouchStart(c) => Point(c.x - origin.x, c.y - origin.y)
    case TouchMove(c) => Point(c.x - origin.x, c.y - origin.y)
  }

  /** The listener table: down/start begin a stroke, move extends it, up/leave/end stop. */
  function Handle(r: Recorder, e: PadEvent, origin: Point): (s: Step)
    ensures IsStart(e) ==> s.rec.drawing && s.stroke.None?
    ensures IsEnd(e) ==> !s.rec.drawing && s.stroke.None?
    ensures s.stroke.Some? ==> r.drawing && s.stroke.value.from == r.last && s.stroke.value.to == s.rec.last
    ensures IsStart(e) ==> s.rec.last == Locate(e, origin)
    ensures IsEnd(e) ==> s.rec.last == r.last
    ensures IsMove(e) ==> (s.stroke.Some? <==> r.drawing)
    ensures IsMove(e) && !r.drawing ==> s.rec == r
    ensures IsMove(e) && r.drawing ==> s.rec.drawing && s.rec.last == Locate(e, origin)
  {
    if IsStart(e) then Step(StartDraw(r, Locate(e, origin)), None)
    else if IsEnd(e) then Step(EndDraw(r), None)
    else Draw(r, Locate(e, origin))
  }

  /** The recorder after a run of events, with every segment stroked, in order. */
  datatype Trace = Trace(rec: Recorder, strokes: seq<Segment>)

  /** The listeners run once per event, in order; each event strokes at most one
      segment. */
  function Replay(r: Recorder, events: seq<PadEvent>, origin: Point): (t: Trace)
    ensures |t.strokes| <= |events|
  {
    if |events| == 0 then Trace(r, [])
    else
      var t := Replay(r, events[..|events| - 1], origin);
      var s := Handle(t.rec, events[|events| - 1], origin);
      Trace(s.rec, t.strokes + (if s.stroke.Some? then [s.stroke.value] else []))
  }

  /** Whether the latest start or end event in `events` was a start; `None` when there is
      neither. */
  function LastSwitch(events: seq<PadEvent>): Option<bool> {
    if |events| == 0 then None
    else if IsStart(events[|events| - 1]) then Some(true)
    else if IsEnd(events[|events| - 1]) then Some(false)
    else LastSwitch(events[..|events| - 1])
  }

  /** After any run of events the pad is drawing exactly when the latest start/end event
      was a start (or, with neither, when it was drawing before). */
  lemma {:induction false} ReplayDrawingState(r: Recorder, events: seq<PadEvent>, origin: Point)
    ensures Replay(r, events, origin).rec.drawing
         == (match LastSwitch(events) case None => r.drawing case Some(b) => b)
  {
    if |events| > 0 {
      ReplayDrawingState(r, events[..|events| - 1], origin);
    }
  }

  /** Starting idle, events with no start never stroke anything. */
  lemma {:induction false} NoStartNoStrokes(r: Recorder, events: seq<PadEvent>, origin: Point)
    requires !r.drawing
    requires forall k :: 0 <= k < |events| ==> !IsStart(events[k])
    ensures Replay(r, events, origin).strokes == []
    ensures !Replay(r, events, origin).rec.drawing
  {
    if |events| > 0 {
      NoStartNoStrokes(r, events[..|events| - 1], origin);
    }
  }

  /** Event `j` of the run is a move that arrives while the pad is drawing. */
  predicate MovesWhileDrawing(r: Recorder, events: seq<PadEvent>, origin: Point, j: int)
    requires 0 <= j < |events|
  {
    IsMove(events[j]) && Replay(r, events[..j], origin).rec.drawing
  }

  /** A run strokes at least one segment exactly when one of its moves arrives while the
      pad is drawing, that is, between a start and the next end. */
  lemma {:induction false} StrokesIffMoveWhileDrawing(r: Recorder, events: seq<PadEvent>, origin: Point)
    ensures Replay(r, events, origin).strokes != []
        <==> exists j :: 0 <= j < |events| && MovesWhileDrawing(r, events, origin, j)
  {
    if |events| > 0 {
      var n := |events|;
      var pre := events[..n - 1];
      StrokesIffMoveWhileDrawing(r, pre, origin);
      forall j | 0 <= j < n - 1
        ensures MovesWhileDrawing(r, pre, origin, j) == MovesWhileDrawing(r, events, origin, j)
      {
        assert pre[..j] == events[..j];
      }
      assert events[..n - 1] == pre;
      if Replay(r, events, origin).strokes != [] && Replay(r, pre, origin).strokes == [] {
        assert MovesWhileDrawing(r, events, origin, n - 1);
      }
      if MovesWhileDrawing(r, events, origin, n - 1) {
        assert Handle(Replay(r, pre, origin).rec, events[n - 1], origin).stroke.Some?;
      }
    }
  }

  /** Pressing at `p` and moving to `q` strokes exactly one segment, from `p` to `q`. */
  lemma DownThenMoveStrokesOnce(r: Recorder, p: Point, q: Point, origin: Point)
    ensures Replay(r, [MouseDown(p), MouseMove(q)], origin) == Trace(Recorder(true, q), [Segment(p, q)])
  {
    assert [MouseDown(p), MouseMove(q)][..1] == [MouseDown(p)];
    assert [MouseDown(p)][..0] == [];
  }

  /** Consecutive strokes of one run are joined: each stroke begins where the previous one
      ended, as long as no start event comes in between. */
  lemma {:induction false} StrokesConnect(r: Recorder, events: seq<PadEvent>, origin: Point)
    requires forall k :: 0 <= k < |events| ==> !IsStart(events[k])
    ensures var t := Replay(r, events, origin);
      && (forall k :: 0 <= k < |t.strokes| - 1 ==> t.strokes[k].to == t.strokes[k + 1].from)
      && (|t.strokes| > 0 ==> t.strokes[|t.strokes| - 1].to == t.rec.last && t.strokes[0].from == r.last)
      && (|t.strokes| == 0 ==> t.rec.last == r.last)
  {
    if |events| > 0 {
      StrokesConnect(r, events[..|events| - 1], origin);
    }
  }

  /** The pad: the recorder and the ink on the canvas. */
  datatype Pad = Pad(rec: Recorder, ink: Surface)

  /** The clear button: the canvas is blank afterwards whatever the recorder's state, and
      the recorder is untouched. */
  function ClearPad(p: Pad): (q: Pad)
    ensures q.rec == p.rec
    ensures IsCanvasBlank(q.ink)
    ensures |q.ink| == |p.ink| && forall i :: 0 <= i < |p.ink| ==> |q.ink[i]| == |p.ink[i]|
  {
    Pad(p.rec, Clear(p.ink))
  }
}
