/** The gesture recogniser: an eight-state machine over mouse packets with byte-wide accumulators. */
module Gesture {
  import opened Bits
  import opened Sequences
  import opened Packets
  import Mouse

  datatype State = Zero | Init | FirstLine | EndFirstLine | Vertex | SecondLine | EndSecondLine | End

  datatype Machine = Machine(state: State, absX: U8, absY: U8)

  /** The arguments of a run: the least horizontal length of a line and the tolerance. */
  datatype Limits = Limits(xLen: U8, tolerance: U8)

  const START := Machine(Zero, 0, 0)

  // ---- the transition function ----------------------------------------------------------

  predicate NoButton(p: Report) { !p.lb && !p.rb && !p.mb }
  predicate LeftOnly(p: Report) { p.lb && !p.rb && !p.mb }
  predicate RightOnly(p: Report) { p.rb && !p.lb && !p.mb }

  /** Not negative, or negative by no more than the tolerance. */
  predicate Forward(d: I16, l: Limits) {
    !Bit(d, 15) || (Bit(d, 15) && Abs(d) <= l.tolerance)
  }

  /** C's `!x`. */
  function Not(x: int): nat { if x == 0 then 1 else 0 }

  /** The vertical test of the second line, as written: `!` binds tighter than `&`. */
  predicate Downward(d: I16, l: Limits) {
    Bit(d, 15) || (Bit(Not(d), 15) && d <= l.tolerance)
  }

  /** The accumulators after adding one packet's displacements to 8-bit variables. */
  function Add(m: Machine, p: Report): Machine {
    Machine(m.state, ToU8(m.absX + p.deltaX), ToU8(m.absY + p.deltaY))
  }

  /** Long enough, and steeper than the diagonal. */
  predicate Drawn(m: Machine, l: Limits) {
    m.absX >= l.xLen && m.absY > m.absX + 1
  }

  function Step(m: Machine, p: Report, l: Limits): Machine {
    match m.state
    case Zero => if NoButton(p) then m.(state := Init) else m
    case Init => Machine(if LeftOnly(p) then FirstLine else Init, 0, 0)
    case FirstLine =>
      if Forward(p.deltaX, l) && LeftOnly(p) && Forward(p.deltaY, l) then
        var m' := Add(m, p);
        if Drawn(m', l) then m'.(state := EndFirstLine) else m'
      else m.(state := if NoButton(p) then Init else Zero)
    case EndFirstLine =>
      if NoButton(p) then m.(state := Vertex)
      else if p.rb || p.mb then m.(state := Zero)
      else m
    case Vertex =>
      var next :=
        if RightOnly(p) then SecondLine
        else if LeftOnly(p) then FirstLine
        else if Abs(p.deltaX) <= l.tolerance && Abs(p.deltaY) <= l.tolerance && NoButton(p) then Vertex
        else Zero;
      Machine(next, 0, 0)
    case SecondLine =>
      if Forward(p.deltaX, l) && RightOnly(p) && Downward(p.deltaY, l) then
        var m' := Add(m, p);
        if Drawn(m', l) then m'.(state := EndSecondLine) else m'
      else m.(state := if NoButton(p) then Init else Zero)
    case EndSecondLine =>
      if NoButton(p) then m.(state := End)
      else if p.lb || p.mb then m.(state := Zero)
      else m
    case End => m
  }

  /** The machine after a history of packets. */
  function Run(h: seq<Report>, l: Limits): Machine {
    if h == [] then START else Step(Run(h[..|h| - 1], l), h[|h| - 1], l)
  }

  lemma RunAppend(h: seq<Report>, p: Report, l: Limits)
    ensures Run(h + [p], l) == Step(Run(h, l), p, l)
  {
    assert (h + [p])[..|h|] == h;
  }

  // ---- what the tests mean ------------------------------------------------------------------

  lemma ForwardMeans(d: I16, l: Limits)
    ensures Forward(d, l) <==> d + l.tolerance >= 0
  {
    SignOfI16(d);
  }

  /** The second line accepts exactly the packets that move down; the tolerance plays no part. */
  lemma DownwardMeans(d: I16, l: Limits)
    ensures Downward(d, l) <==> d < 0
  {
    SignOfI16(d);
    SignOfI16(Not(d));
  }

  // ---- strokes -----------------------------------------------------------------------------

  function SumX(s: seq<Report>): int {
    if s == [] then 0 else SumX(s[..|s| - 1]) + s[|s| - 1].deltaX
  }

  function SumY(s: seq<Report>): int {
    if s == [] then 0 else SumY(s[..|s| - 1]) + s[|s| - 1].deltaY
  }

  /** The button that draws a line, and no other. */
  predicate Holds(p: Report, second: bool) { if second then RightOnly(p) else LeftOnly(p) }

  /** A packet that may belong to the stroke of a line. */
  predicate Moves(p: Report, l: Limits, second: bool) {
    Holds(p, second) && p.deltaX + l.tolerance >= 0 && (if second then p.deltaY < 0 else p.deltaY + l.tolerance >= 0)
  }

  /** The sums of the displacements, modulo 256, pass the test for a drawn line. */
  predicate Passes(s: seq<Report>, l: Limits) {
    Drawn(Machine(Zero, ToU8(SumX(s)), ToU8(SumY(s))), l)
  }

  /** No nonempty part of the stroke up to now passes. */
  ghost predicate Open(s: seq<Report>, l: Limits) {
    forall k :: 1 <= k <= |s| ==> !Passes(s[..k], l)
  }

  /** The stroke passes at its last packet and not before. */
  ghost predicate Complete(s: seq<Report>, l: Limits) {
    s != [] && Passes(s, l) && Open(s[..|s| - 1], l)
  }

  ghost predicate Stroke(s: seq<Report>, l: Limits, second: bool) {
    forall i :: 0 <= i < |s| ==> Moves(s[i], l, second)
  }

  ghost predicate Held(s: seq<Report>, second: bool) {
    forall i :: 0 <= i < |s| ==> Holds(s[i], second)
  }

  ghost predicate Rests(s: seq<Report>, l: Limits) {
    forall i :: 0 <= i < |s| ==> NoButton(s[i]) && Abs(s[i].deltaX) <= l.tolerance && Abs(s[i].deltaY) <= l.tolerance
  }

  /** A line drawn by hand: press, stroke, hold, release. */
  datatype Line = Line(press: Report, stroke: seq<Report>, hold: seq<Report>, release: Report) {
    function Packets(): seq<Report> { [press] + stroke + hold + [release] }

    ghost predicate Good(l: Limits, second: bool) {
      Holds(press, second) && Stroke(stroke, l, second) && Complete(stroke, l) && Held(hold, second) && NoButton(release)
    }
  }

  /** Two lines with the mouse at rest in between. */
  datatype Drawing = Drawing(before: seq<Report>, first: Line, still: seq<Report>, second: Line) {
    function Packets(): seq<Report> { before + first.Packets() + still + second.Packets() }

    /** The first line starts where one may start. */
    ghost predicate Good(l: Limits) {
      Ready(before, l, false) && first.Good(l, false) && Rests(still, l) && second.Good(l, true)
    }
  }

  function LineState(second: bool): State { if second then SecondLine else FirstLine }
  function HoldState(second: bool): State { if second then EndSecondLine else EndFirstLine }

  ghost predicate CanEnter(before: seq<Report>, l: Limits, second: bool) {
    var s := Run(before, l).state;
    s == Vertex || (!second && s == Init)
  }

  /** In a line state the accumulators are the sums since that state was entered, modulo 256. */
  ghost predicate InStroke(l: Limits, second: bool, before: seq<Report>, press: Report, stroke: seq<Report>) {
    && CanEnter(before, l, second) && Holds(press, second)
    && Stroke(stroke, l, second) && Open(stroke, l)
  }

  lemma OpenAppend(s: seq<Report>, p: Report, l: Limits)
    ensures Open(s + [p], l) <==> Open(s, l) && !Passes(s + [p], l)
    ensures SumX(s + [p]) == SumX(s) + p.deltaX && SumY(s + [p]) == SumY(s) + p.deltaY
  {
    assert (s + [p])[..|s|] == s;
    assert (s + [p])[..|s| + 1] == s + [p];
    assert forall k :: 0 <= k <= |s| ==> (s + [p])[..k] == s[..k];
  }

  lemma CompleteAppend(s: seq<Report>, p: Report, l: Limits)
    ensures Complete(s + [p], l) <==> Open(s, l) && Passes(s + [p], l)
  {
    assert (s + [p])[..|s|] == s;
  }

  /** A stroke of one packet. */
  lemma SingleMove(p: Report, l: Limits)
    ensures SumX([p]) == p.deltaX && SumY([p]) == p.deltaY
    ensures Open([p], l) <==> !Passes([p], l)
    ensures Complete([p], l) <==> Passes([p], l)
  {
    assert [] + [p] == [p];
    OpenAppend([], p, l);
    CompleteAppend([], p, l);
  }

  /** What one packet does in a line state. */
  lemma StepInLine(m: Machine, p: Report, l: Limits, second: bool)
    requires m.state == LineState(second)
    ensures Moves(p, l, second) ==>
              Step(m, p, l) == Add(m, p).(state := if Drawn(Add(m, p), l) then HoldState(second) else LineState(second))
    ensures !Moves(p, l, second) ==> Step(m, p, l).state in {Zero, Init}
  {
    ForwardMeans(p.deltaX, l);
    ForwardMeans(p.deltaY, l);
    DownwardMeans(p.deltaY, l);
  }

  /** A line state is entered only from a waiting state, by the line's button, with cleared accumulators. */
  lemma StepIntoLine(m: Machine, p: Report, l: Limits, second: bool)
    requires m.state != LineState(second)
    ensures Step(m, p, l).state == LineState(second) <==> Holds(p, second) && (m.state == Vertex || (!second && m.state == Init))
    ensures Step(m, p, l).state == LineState(second) ==> Step(m, p, l) == Machine(LineState(second), 0, 0)
  {
  }

  /** The machine whose accumulators hold a stroke. */
  function Holding(state: State, s: seq<Report>): Machine {
    Machine(state, ToU8(SumX(s)), ToU8(SumY(s)))
  }

  /** 8-bit addition of the next packet is the sum modulo 256. */
  lemma AddHolding(state: State, s: seq<Report>, p: Report)
    ensures Add(Holding(state, s), p) == Holding(state, s + [p])
  {
    assert (s + [p])[..|s|] == s;
    ModAdd(SumX(s), p.deltaX, 0x100);
    ModAdd(SumY(s), p.deltaY, 0x100);
  }

  /** How a line state is reached: from itself by a move that does not finish the line, or afresh. */
  lemma LastIntoLine(h: seq<Report>, p: Report, l: Limits, second: bool)
    requires Run(h + [p], l).state == LineState(second)
    ensures if Run(h, l).state == LineState(second) then
              Moves(p, l, second) && Run(h + [p], l) == Add(Run(h, l), p) && !Drawn(Add(Run(h, l), p), l)
            else
              CanEnter(h, l, second) && Holds(p, second) && Run(h + [p], l) == Machine(LineState(second), 0, 0)
  {
    RunAppend(h, p, l);
    if Run(h, l).state == LineState(second) {
      StepInLine(Run(h, l), p, l, second);
    } else {
      StepIntoLine(Run(h, l), p, l, second);
    }
  }

  /** One more move of a stroke that has not passed yet. */
  lemma NextMove(h: seq<Report>, s: seq<Report>, p: Report, l: Limits, second: bool)
    requires Run(h, l) == Holding(LineState(second), s) && Moves(p, l, second)
    ensures Run(h + [p], l) == Holding(if Passes(s + [p], l) then HoldState(second) else LineState(second), s + [p])
  {
    RunAppend(h, p, l);
    StepInLine(Run(h, l), p, l, second);
    AddHolding(LineState(second), s, p);
  }

  lemma StrokeGrows(before: seq<Report>, press: Report, stroke: seq<Report>, p: Report, l: Limits, second: bool)
    requires InStroke(l, second, before, press, stroke) && Moves(p, l, second) && !Passes(stroke + [p], l)
    ensures InStroke(l, second, before, press, stroke + [p])
    ensures before + [press] + stroke + [p] == before + [press] + (stroke + [p])
  {
    OpenAppend(stroke, p, l);
    Reassociate(before + [press], stroke, [p]);
  }

  /** Being in a line state means being in the middle of that line's stroke. */
  lemma {:induction false} StrokeHistory(h: seq<Report>, l: Limits, second: bool)
    returns (before: seq<Report>, press: Report, stroke: seq<Report>)
    requires Run(h, l).state == LineState(second)
    ensures h == before + [press] + stroke && InStroke(l, second, before, press, stroke)
    ensures Run(h, l) == Holding(LineState(second), stroke)
  {
    var h', p := h[..|h| - 1], h[|h| - 1];
    assert h == h' + [p];
    LastIntoLine(h', p, l, second);
    if Run(h', l).state == LineState(second) {
      before, press, stroke := StrokeHistory(h', l, second);
      AddHolding(LineState(second), stroke, p);
      StrokeGrows(before, press, stroke, p, l, second);
      stroke := stroke + [p];
    } else {
      before, press, stroke := h', p, [];
    }
  }

  /** A stroke under way keeps the machine in the line state with the sums of the stroke. */
  lemma {:induction false} StrokeRuns(before: seq<Report>, press: Report, stroke: seq<Report>, l: Limits, second: bool)
    requires InStroke(l, second, before, press, stroke)
    ensures Run(before + [press] + stroke, l) == Holding(LineState(second), stroke)
    decreases |stroke|
  {
    if stroke == [] {
      assert before + [press] + stroke == before + [press];
      RunAppend(before, press, l);
      StepIntoLine(Run(before, l), press, l, second);
    } else {
      var s, p := stroke[..|stroke| - 1], stroke[|stroke| - 1];
      var h := before + [press] + s;
      assert stroke == s + [p];
      OpenAppend(s, p, l);
      StrokeRuns(before, press, s, l, second);
      NextMove(h, s, p, l, second);
      assert before + [press] + stroke == h + [p];
    }
  }

  /** A start, a completed stroke, and the button still held. */
  ghost predicate InHold(l: Limits, second: bool, before: seq<Report>, press: Report, stroke: seq<Report>, hold: seq<Report>) {
    && CanEnter(before, l, second) && Holds(press, second)
    && Stroke(stroke, l, second) && Complete(stroke, l) && Held(hold, second)
  }

  lemma StepInHold(m: Machine, p: Report, l: Limits, second: bool)
    requires m.state == HoldState(second)
    ensures Holds(p, second) ==> Step(m, p, l) == m
    ensures NoButton(p) ==> Step(m, p, l) == m.(state := if second then End else Vertex)
    ensures !Holds(p, second) && !NoButton(p) ==> Step(m, p, l).state == Zero
  {
  }

  lemma LastIntoHold(h: seq<Report>, p: Report, l: Limits, second: bool)
    requires Run(h + [p], l).state == HoldState(second)
    ensures if Run(h, l).state == HoldState(second) then Holds(p, second)
            else Run(h, l).state == LineState(second) && Moves(p, l, second) && Drawn(Add(Run(h, l), p), l)
  {
    RunAppend(h, p, l);
    if Run(h, l).state == HoldState(second) {
      StepInHold(Run(h, l), p, l, second);
    } else if Run(h, l).state == LineState(second) {
      StepInLine(Run(h, l), p, l, second);
    }
  }

  lemma NextHold(h: seq<Report>, p: Report, l: Limits, second: bool)
    requires Run(h, l).state == HoldState(second) && Holds(p, second)
    ensures Run(h + [p], l).state == HoldState(second)
  {
    RunAppend(h, p, l);
    StepInHold(Run(h, l), p, l, second);
  }

  /** After a line is drawn and before its button is released. */
  lemma {:induction false} HoldHistory(h: seq<Report>, l: Limits, second: bool)
    returns (before: seq<Report>, press: Report, stroke: seq<Report>, hold: seq<Report>)
    requires Run(h, l).state == HoldState(second)
    ensures h == before + [press] + stroke + hold && InHold(l, second, before, press, stroke, hold)
  {
    var h', p := h[..|h| - 1], h[|h| - 1];
    assert h == h' + [p];
    LastIntoHold(h', p, l, second);
    if Run(h', l).state == HoldState(second) {
      before, press, stroke, hold := HoldHistory(h', l, second);
      Reassociate(before + [press] + stroke, hold, [p]);
      hold := hold + [p];
    } else {
      before, press, stroke := FinishedHistory(h', p, l, second);
      hold := [];
    }
  }

  /** The move that finishes a line completes its stroke. */
  lemma FinishedHistory(h: seq<Report>, p: Report, l: Limits, second: bool)
    returns (before: seq<Report>, press: Report, stroke: seq<Report>)
    requires Run(h, l).state == LineState(second) && Moves(p, l, second) && Drawn(Add(Run(h, l), p), l)
    ensures h + [p] == before + [press] + stroke && InHold(l, second, before, press, stroke, [])
  {
    before, press, stroke := StrokeHistory(h, l, second);
    AddHolding(LineState(second), stroke, p);
    CompleteAppend(stroke, p, l);
    Reassociate(before + [press], stroke, [p]);
    stroke := stroke + [p];
  }

  /** The last move of a complete stroke finishes the line. */
  lemma CompleteRuns(before: seq<Report>, press: Report, stroke: seq<Report>, l: Limits, second: bool)
    requires InHold(l, second, before, press, stroke, [])
    ensures Run(before + [press] + stroke, l).state == HoldState(second)
  {
    var s, p := stroke[..|stroke| - 1], stroke[|stroke| - 1];
    StrokeRuns(before, press, s, l, second);
    assert stroke == s + [p];
    NextMove(before + [press] + s, s, p, l, second);
    Reassociate(before + [press], s, [p]);
  }

  lemma {:induction false} StaysHeld(h: seq<Report>, hold: seq<Report>, l: Limits, second: bool)
    requires Run(h, l).state == HoldState(second) && Held(hold, second)
    ensures Run(h + hold, l).state == HoldState(second)
    decreases |hold|
  {
    if hold == [] {
      assert h + hold == h;
    } else {
      var rest, p := hold[..|hold| - 1], hold[|hold| - 1];
      StaysHeld(h, rest, l, second);
      NextHold(h + rest, p, l, second);
      Reassociate(h, rest, [p]);
      assert hold == rest + [p];
    }
  }

  lemma HoldRuns(before: seq<Report>, press: Report, stroke: seq<Report>, hold: seq<Report>, l: Limits, second: bool)
    requires InHold(l, second, before, press, stroke, hold)
    ensures Run(before + [press] + stroke + hold, l).state == HoldState(second)
  {
    CompleteRuns(before, press, stroke, l, second);
    StaysHeld(before + [press] + stroke, hold, l, second);
  }

  /** A whole line, from a start to the state after its release. */
  lemma LineRuns(before: seq<Report>, line: Line, l: Limits, second: bool)
    requires CanEnter(before, l, second) && line.Good(l, second)
    ensures Run(before + line.Packets(), l).state == if second then End else Vertex
  {
    var h := before + [line.press] + line.stroke + line.hold;
    HoldRuns(before, line.press, line.stroke, line.hold, l, second);
    assert before + line.Packets() == h + [line.release];
    RunAppend(h, line.release, l);
    StepInHold(Run(h, l), line.release, l, second);
  }

  /** The release that ends a hold completes a line. */
  lemma LineHistory(h: seq<Report>, p: Report, l: Limits, second: bool) returns (before: seq<Report>, line: Line)
    requires Run(h, l).state == HoldState(second) && NoButton(p)
    ensures h + [p] == before + line.Packets() && CanEnter(before, l, second) && line.Good(l, second)
  {
    var press, stroke, hold;
    before, press, stroke, hold := HoldHistory(h, l, second);
    line := Line(press, stroke, hold, p);
    assert h + [p] == before + line.Packets();
  }

  lemma LastIntoVertex(h: seq<Report>, p: Report, l: Limits)
    requires Run(h + [p], l).state == Vertex
    ensures NoButton(p)
    ensures if Run(h, l).state == Vertex then Rests([p], l) else Run(h, l).state == EndFirstLine
  {
    RunAppend(h, p, l);
  }

  /** Waiting at the vertex means: a first line, then rest. */
  lemma {:induction false} VertexHistory(h: seq<Report>, l: Limits) returns (before: seq<Report>, line: Line, still: seq<Report>)
    requires Run(h, l).state == Vertex
    ensures h == before + line.Packets() + still && CanEnter(before, l, false) && line.Good(l, false) && Rests(still, l)
  {
    var h', p := h[..|h| - 1], h[|h| - 1];
    assert h == h' + [p];
    LastIntoVertex(h', p, l);
    if Run(h', l).state == Vertex {
      before, line, still := VertexHistory(h', l);
      Reassociate(before + line.Packets(), still, [p]);
      assert p == [p][0];
      still := still + [p];
    } else {
      before, line := LineHistory(h', p, l, false);
      still := [];
      assert h == before + line.Packets() + still;
    }
  }

  lemma {:induction false} RestRuns(h: seq<Report>, still: seq<Report>, l: Limits)
    requires Run(h, l).state == Vertex && Rests(still, l)
    ensures Run(h + still, l).state == Vertex
  {
    if still == [] {
      assert h + still == h;
    } else {
      var rest, p := still[..|still| - 1], still[|still| - 1];
      RestRuns(h, rest, l);
      assert h + still == (h + rest) + [p];
      RunAppend(h + rest, p, l);
    }
  }

  // ---- every state from the packets alone ---------------------------------------------------------

  /** A line may start here: after a release that found nothing to keep, or at the vertex. */
  ghost predicate Ready(h: seq<Report>, l: Limits, second: bool)
    decreases |h|, 2
  {
    AtVertex(h, l) || (!second && Fresh(h, l))
  }

  /** A first line has been drawn, and the mouse has been at rest since. */
  ghost predicate AtVertex(h: seq<Report>, l: Limits)
    decreases |h|, 0
  {
    exists b: nat, line: Line, still: seq<Report> ::
      b < |h| && Ready(h[..b], l, false) && line.Good(l, false) && Rests(still, l) && h == h[..b] + line.Packets() + still
  }

  /** A line is being drawn and has not passed yet. */
  ghost predicate MidStroke(h: seq<Report>, l: Limits, second: bool)
    decreases |h|, 0
  {
    exists b: nat, press: Report, stroke: seq<Report> ::
      b < |h| && Ready(h[..b], l, second) && Holds(press, second) && Stroke(stroke, l, second) && Open(stroke, l)
      && h == h[..b] + [press] + stroke
  }

  /** A line has passed, and its button has been held since. */
  ghost predicate AfterStroke(h: seq<Report>, l: Limits, second: bool)
    decreases |h|, 0
  {
    exists b: nat, press: Report, stroke: seq<Report>, hold: seq<Report> ::
      b < |h| && Ready(h[..b], l, second) && Holds(press, second) && Stroke(stroke, l, second) && Complete(stroke, l)
      && Held(hold, second) && h == h[..b] + [press] + stroke + hold
  }

  /** Packet `p` spoils what is under way: a wrong move or button, or too much movement at the vertex. */
  ghost predicate Spoils(h: seq<Report>, p: Report, l: Limits)
    decreases |h|, 1
  {
    || (MidStroke(h, l, false) && !Moves(p, l, false) && !NoButton(p))
    || (MidStroke(h, l, true) && !Moves(p, l, true) && !NoButton(p))
    || (AfterStroke(h, l, false) && !Holds(p, false) && !NoButton(p))
    || (AfterStroke(h, l, true) && !Holds(p, true) && !NoButton(p))
    || (AtVertex(h, l) && !RightOnly(p) && !LeftOnly(p) && !Rests([p], l))
  }

  /** Nothing can start: since the beginning, or since something was spoilt, there was no release. */
  ghost predicate Lost(h: seq<Report>, l: Limits)
    decreases |h|, 1
  {
    exists n: nat :: LostSince(h, n, l)
  }

  ghost predicate LostSince(h: seq<Report>, n: nat, l: Limits)
    decreases |h|, 0
  {
    n <= |h| && (n == 0 || Spoils(h[..n - 1], h[n - 1], l)) && forall i :: n <= i < |h| ==> !NoButton(h[i])
  }

  /** A release ended a loss, or an unfinished line, and the left button alone has not been pressed since. */
  ghost predicate Fresh(h: seq<Report>, l: Limits)
    decreases |h|, 1
  {
    exists n: nat :: FreshSince(h, n, l)
  }

  ghost predicate FreshSince(h: seq<Report>, n: nat, l: Limits)
    decreases |h|, 0
  {
    && n < |h| && NoButton(h[n])
    && (Lost(h[..n], l) || MidStroke(h[..n], l, false) || MidStroke(h[..n], l, true))
    && forall i :: n < i < |h| ==> !LeftOnly(h[i])
  }

  lemma LostStep(h: seq<Report>, p: Report, l: Limits)
    ensures Lost([], l)
    ensures Lost(h + [p], l) <==> (Lost(h, l) && !NoButton(p)) || Spoils(h, p, l)
  {
    assert LostSince([], 0, l);
    var g := h + [p];
    assert g[..|h|] == h;
    if n: nat :| LostSince(g, n, l) {
      if n == |g| {
        assert Spoils(h, p, l);
      } else {
        LostPrefix(h, p, n, l);
        assert NoButton(g[|h|]) == NoButton(p);
        assert LostSince(h, n, l);
      }
    }
    if Lost(h, l) && !NoButton(p) {
      assert Lost(h, l);
      var n: nat :| LostSince(h, n, l);
      LostPrefix(h, p, n, l);
      assert LostSince(g, n, l);
    }
    if Spoils(h, p, l) {
      assert LostSince(g, |g|, l);
    }
  }

  lemma LostPrefix(h: seq<Report>, p: Report, n: nat, l: Limits)
    requires n <= |h|
    ensures LostSince(h + [p], n, l) <==> LostSince(h, n, l) && !NoButton(p)
  {
    var g := h + [p];
    if n > 0 {
      assert g[..n - 1] == h[..n - 1] && g[n - 1] == h[n - 1];
    }
    assert forall i :: n <= i < |h| ==> g[i] == h[i];
    assert g[|h|] == p;
  }

  lemma FreshStep(h: seq<Report>, p: Report, l: Limits)
    ensures !Fresh([], l)
    ensures Fresh(h + [p], l)
       <==> (Fresh(h, l) && !LeftOnly(p)) || (NoButton(p) && (Lost(h, l) || MidStroke(h, l, false) || MidStroke(h, l, true)))
  {
    var g := h + [p];
    assert g[..|h|] == h && g[|h|] == p;
    forall n: nat | n < |h|
      ensures FreshSince(g, n, l) <==> FreshSince(h, n, l) && !LeftOnly(p)
    {
      FreshPrefix(h, p, n, l);
    }
    if Fresh(h, l) && !LeftOnly(p) {
      assert Fresh(h, l);
      var n: nat :| FreshSince(h, n, l);
      assert FreshSince(g, n, l);
    }
    if NoButton(p) && (Lost(h, l) || MidStroke(h, l, false) || MidStroke(h, l, true)) {
      assert FreshSince(g, |h|, l);
    }
  }

  lemma FreshPrefix(h: seq<Report>, p: Report, n: nat, l: Limits)
    requires n < |h|
    ensures FreshSince(h + [p], n, l) <==> FreshSince(h, n, l) && !LeftOnly(p)
  {
    var g := h + [p];
    assert g[..n] == h[..n];
    assert forall i :: n <= i < |h| ==> g[i] == h[i];
    assert g[|h|] == p;
  }

  /** The state after these packets is what the packets alone say. */
  ghost predicate Agrees(h: seq<Report>, l: Limits) {
    var s := Run(h, l).state;
    && (s == Zero <==> Lost(h, l))
    && (s == Init <==> Fresh(h, l))
    && (s == Vertex <==> AtVertex(h, l))
    && (s == FirstLine <==> MidStroke(h, l, false))
    && (s == SecondLine <==> MidStroke(h, l, true))
    && (s == EndFirstLine <==> AfterStroke(h, l, false))
    && (s == EndSecondLine <==> AfterStroke(h, l, true))
  }

  ghost predicate AgreesBefore(h: seq<Report>, l: Limits) {
    forall b :: 0 <= b < |h| ==> Agrees(h[..b], l)
  }

  lemma VertexAgrees(h: seq<Report>, l: Limits)
    requires AgreesBefore(h, l)
    ensures Run(h, l).state == Vertex <==> AtVertex(h, l)
  {
    if Run(h, l).state == Vertex {
      VertexIsAtVertex(h, l);
    }
    AtVertexWaits(h, l);
  }

  lemma VertexIsAtVertex(h: seq<Report>, l: Limits)
    requires AgreesBefore(h, l) && Run(h, l).state == Vertex
    ensures AtVertex(h, l)
  {
    var before, line, still := VertexHistory(h, l);
    var b := |before|;
    assert h[..b] == before;
    assert Agrees(h[..b], l);
  }

  lemma AtVertexWaits(h: seq<Report>, l: Limits)
    requires AgreesBefore(h, l)
    ensures AtVertex(h, l) ==> Run(h, l).state == Vertex
  {
    if AtVertex(h, l) {
      var b: nat, line: Line, still: seq<Report> :|
        b < |h| && Ready(h[..b], l, false) && line.Good(l, false) && Rests(still, l) && h == h[..b] + line.Packets() + still;
      assert Agrees(h[..b], l);
      LineRuns(h[..b], line, l, false);
      RestRuns(h[..b] + line.Packets(), still, l);
    }
  }

  lemma StrokeAgrees(h: seq<Report>, l: Limits, second: bool)
    requires AgreesBefore(h, l)
    ensures Run(h, l).state == LineState(second) <==> MidStroke(h, l, second)
  {
    if Run(h, l).state == LineState(second) {
      LineIsMidStroke(h, l, second);
    }
    if MidStroke(h, l, second) {
      MidStrokeDraws(h, l, second);
    }
  }

  lemma LineIsMidStroke(h: seq<Report>, l: Limits, second: bool)
    requires AgreesBefore(h, l) && Run(h, l).state == LineState(second)
    ensures MidStroke(h, l, second)
  {
    var before, press, stroke := StrokeHistory(h, l, second);
    var b := |before|;
    assert h[..b] == before;
    assert Agrees(h[..b], l);
  }

  lemma MidStrokeDraws(h: seq<Report>, l: Limits, second: bool)
    requires AgreesBefore(h, l) && MidStroke(h, l, second)
    ensures Run(h, l).state == LineState(second)
  {
    var b: nat, press: Report, stroke: seq<Report> :|
      b < |h| && Ready(h[..b], l, second) && Holds(press, second) && Stroke(stroke, l, second) && Open(stroke, l)
      && h == h[..b] + [press] + stroke;
    assert Agrees(h[..b], l);
    StrokeRuns(h[..b], press, stroke, l, second);
  }

  lemma HoldAgrees(h: seq<Report>, l: Limits, second: bool)
    requires AgreesBefore(h, l)
    ensures Run(h, l).state == HoldState(second) <==> AfterStroke(h, l, second)
  {
    if Run(h, l).state == HoldState(second) {
      HoldIsAfterStroke(h, l, second);
    }
    if AfterStroke(h, l, second) {
      AfterStrokeHolds(h, l, second);
    }
  }

  lemma HoldIsAfterStroke(h: seq<Report>, l: Limits, second: bool)
    requires AgreesBefore(h, l) && Run(h, l).state == HoldState(second)
    ensures AfterStroke(h, l, second)
  {
    var before, press, stroke, hold := HoldHistory(h, l, second);
    var b := |before|;
    assert h[..b] == before;
    assert Agrees(h[..b], l);
  }

  lemma AfterStrokeHolds(h: seq<Report>, l: Limits, second: bool)
    requires AgreesBefore(h, l) && AfterStroke(h, l, second)
    ensures Run(h, l).state == HoldState(second)
  {
    var b: nat, press: Report, stroke: seq<Report>, hold: seq<Report> :|
      b < |h| && Ready(h[..b], l, second) && Holds(press, second) && Stroke(stroke, l, second) && Complete(stroke, l)
      && Held(hold, second) && h == h[..b] + [press] + stroke + hold;
    assert Agrees(h[..b], l);
    HoldRuns(h[..b], press, stroke, hold, l, second);
  }

  /** How one packet leads to the two waiting states that no line ends in. */
  lemma StepToStart(m: Machine, p: Report, l: Limits)
    ensures Step(m, p, l).state == Zero <==> match m.state
              case Zero => !NoButton(p)
              case FirstLine => !Moves(p, l, false) && !NoButton(p)
              case SecondLine => !Moves(p, l, true) && !NoButton(p)
              case EndFirstLine => !Holds(p, false) && !NoButton(p)
              case EndSecondLine => !Holds(p, true) && !NoButton(p)
              case Vertex => !RightOnly(p) && !LeftOnly(p) && !Rests([p], l)
              case _ => false
    ensures Step(m, p, l).state == Init <==> match m.state
              case Zero => NoButton(p)
              case Init => !LeftOnly(p)
              case FirstLine => NoButton(p)
              case SecondLine => NoButton(p)
              case _ => false
  {
    ForwardMeans(p.deltaX, l);
    ForwardMeans(p.deltaY, l);
    DownwardMeans(p.deltaY, l);
    assert [p][0] == p;
  }

  /** After any packets, the state of the machine is told by the packets alone. */
  lemma {:induction false} StatesFromPackets(h: seq<Report>, l: Limits)
    ensures Agrees(h, l)
    decreases |h|
  {
    forall b | 0 <= b < |h|
      ensures Agrees(h[..b], l)
    {
      StatesFromPackets(h[..b], l);
    }
    VertexAgrees(h, l);
    StrokeAgrees(h, l, false);
    StrokeAgrees(h, l, true);
    HoldAgrees(h, l, false);
    HoldAgrees(h, l, true);
    if h == [] {
      LostStep([], IDLE, l);
      FreshStep([], IDLE, l);
    } else {
      var rest, p := h[..|h| - 1], h[|h| - 1];
      assert h == rest + [p];
      assert h[..|rest|] == rest;
      assert Agrees(rest, l);
      StartAgrees(rest, p, l);
    }
  }

  lemma StartAgrees(h: seq<Report>, p: Report, l: Limits)
    requires Agrees(h, l)
    ensures Run(h + [p], l).state == Zero <==> Lost(h + [p], l)
    ensures Run(h + [p], l).state == Init <==> Fresh(h + [p], l)
  {
    RunAppend(h, p, l);
    LostStep(h, p, l);
    FreshStep(h, p, l);
    StepToStart(Run(h, l), p, l);
  }

  lemma ReadyMeans(h: seq<Report>, l: Limits, second: bool)
    ensures Ready(h, l, second) <==> CanEnter(h, l, second)
  {
    StatesFromPackets(h, l);
  }

  /** A spoilt line, hold or vertex needs a release: until then nothing else counts. */
  lemma {:induction false} SpoiltNeedsRelease(h: seq<Report>, p: Report, s: seq<Report>, l: Limits)
    requires Spoils(h, p, l) && forall i :: 0 <= i < |s| ==> !NoButton(s[i])
    ensures Run(h + [p] + s, l).state == Zero
    decreases |s|
  {
    if s == [] {
      assert h + [p] + s == h + [p];
      StatesFromPackets(h + [p], l);
      LostStep(h, p, l);
    } else {
      var rest, q := s[..|s| - 1], s[|s| - 1];
      SpoiltNeedsRelease(h, p, rest, l);
      assert h + [p] + s == h + [p] + rest + [q];
      RunAppend(h + [p] + rest, q, l);
    }
  }

  /** The parts of a gesture in numbers. */
  lemma PartsInNumbers(p: Report, s: seq<Report>, l: Limits)
    ensures Moves(p, l, false) <==> p.lb && !p.rb && !p.mb && p.deltaX >= -(l.tolerance as int) && p.deltaY >= -(l.tolerance as int)
    ensures Moves(p, l, true) <==> !p.lb && p.rb && !p.mb && p.deltaX >= -(l.tolerance as int) && p.deltaY < 0
    ensures var t: int := l.tolerance; Rests([p], l) <==> !p.lb && !p.rb && !p.mb && -t <= p.deltaX <= t && -t <= p.deltaY <= t
    ensures Passes(s, l) <==> SumX(s) % 0x100 >= l.xLen && SumY(s) % 0x100 > SumX(s) % 0x100 + 1
  {
    assert [p][0] == p;
  }

  /** The buttons that matter are the low three bits of a packet's first byte. */
  lemma ButtonsInNumbers(b0: U8, b1: U8, b2: U8)
    ensures NoButton(Packets.Decode(b0, b1, b2)) <==> b0 % 8 == 0
    ensures Holds(Packets.Decode(b0, b1, b2), false) <==> b0 % 8 == 1
    ensures Holds(Packets.Decode(b0, b1, b2), true) <==> b0 % 8 == 2
  {
    PacketInNumbers(b0, b1, b2);
    LowThreeBits(b0);
  }

  // ---- whole runs ---------------------------------------------------------------------------

  /** The end state is entered with this history's last packet. */
  ghost predicate JustEnded(h: seq<Report>, l: Limits) {
    h != [] && Run(h, l).state == End && Run(h[..|h| - 1], l).state != End
  }

  /** Safety: the end is reached only by two lines drawn one after the other. */
  lemma EndNeedsDrawing(h: seq<Report>, l: Limits) returns (d: Drawing)
    requires JustEnded(h, l)
    ensures d.Good(l) && d.Packets() == h
  {
    var h', p := h[..|h| - 1], h[|h| - 1];
    assert h == h' + [p];
    assert Run(h', l).state == EndSecondLine && NoButton(p);
    var middle, second := LineHistory(h', p, l, true);
    var before, first, still := VertexHistory(middle, l);
    ReadyMeans(before, l, false);
    d := Drawing(before, first, still, second);
  }

  /** Completeness: two such lines always reach the end. */
  lemma DrawingEnds(d: Drawing, l: Limits)
    requires d.Good(l)
    ensures JustEnded(d.Packets(), l)
  {
    ReadyMeans(d.before, l, false);
    LineRuns(d.before, d.first, l, false);
    RestRuns(d.before + d.first.Packets(), d.still, l);
    var middle := d.before + d.first.Packets() + d.still;
    LineRuns(middle, d.second, l, true);
    HoldRuns(middle, d.second.press, d.second.stroke, d.second.hold, l, true);
    AllButRelease(middle, d.second);
  }

  lemma AllButRelease(before: seq<Report>, line: Line)
    ensures var h := before + line.Packets();
            h != [] && h[..|h| - 1] == before + [line.press] + line.stroke + line.hold
  {
    var h := before + [line.press] + line.stroke + line.hold;
    assert before + line.Packets() == h + [line.release];
  }

  lemma {:induction false} EndAbsorbs(h: seq<Report>, n: nat, l: Limits)
    requires n <= |h| && Run(h[..n], l).state == End
    ensures Run(h, l).state == End
    decreases |h|
  {
    if n == |h| {
      assert h[..n] == h;
    } else {
      assert h[..|h| - 1][..n] == h[..n];
      EndAbsorbs(h[..|h| - 1], n, l);
    }
  }

  lemma {:induction false} FirstEnd(h: seq<Report>, l: Limits) returns (n: nat)
    requires Run(h, l).state == End
    ensures n <= |h| && JustEnded(h[..n], l)
  {
    var h' := h[..|h| - 1];
    if Run(h', l).state == End {
      n := FirstEnd(h', l);
      assert h'[..n] == h[..n];
    } else {
      n := |h|;
      assert h[..n] == h;
    }
  }

  /** Some initial part of the history is a drawing. */
  ghost predicate ContainsDrawing(h: seq<Report>, l: Limits) {
    exists n: nat :: DrawnBy(h, n, l)
  }

  /** The first `n` packets of the history are a drawing. */
  ghost predicate DrawnBy(h: seq<Report>, n: nat, l: Limits) {
    n <= |h| && exists d: Drawing :: d.Good(l) && d.Packets() == h[..n]
  }

  /** The gesture is recognised in exactly the runs of which some initial part is a drawing. */
  lemma Recognised(h: seq<Report>, l: Limits)
    ensures Run(h, l).state == End <==> ContainsDrawing(h, l)
  {
    if Run(h, l).state == End {
      var n := FirstEnd(h, l);
      var d := EndNeedsDrawing(h[..n], l);
      assert DrawnBy(h, n, l);
    }
    if n: nat :| DrawnBy(h, n, l) {
      var d: Drawing :| d.Good(l) && d.Packets() == h[..n];
      DrawingEnds(d, l);
      EndAbsorbs(h, n, l);
    }
  }

  /** From the wire to the gesture: what a mouse sends is recognised exactly when it is a drawing. */
  lemma SentDrawingRecognised(stream: seq<Sent>, l: Limits)
    requires forall i :: 0 <= i < |stream| ==> CanSend(stream[i])
    ensures Run(Reports(Split(Transmit(stream)).segments), l).state == End
       <==> ContainsDrawing(SentReports(stream), l)
  {
    RoundTrip(stream);
    Recognised(SentReports(stream), l);
  }

  /** One packet at rest makes the machine wait for a line, whatever happened before. */
  lemma RestArms(h: seq<Report>, rest: Report, l: Limits)
    requires Rests([rest], l)
    ensures var s := Run(h + [rest], l).state; s == End || CanEnter(h + [rest], l, false)
  {
    RunAppend(h, rest, l);
    assert [rest][0] == rest;
  }

  /**
   * Completeness without reference to the machine: after any packets at all, one packet at
   * rest and two lines drawn with rest in between end the gesture.
   */
  lemma DrawnAfterRest(h: seq<Report>, rest: Report, first: Line, still: seq<Report>, second: Line, l: Limits)
    requires Rests([rest], l) && first.Good(l, false) && Rests(still, l) && second.Good(l, true)
    ensures Run(h + [rest] + first.Packets() + still + second.Packets(), l).state == End
  {
    var d := Drawing(h + [rest], first, still, second);
    RestArms(h, rest, l);
    ReadyMeans(d.before, l, false);
    if Run(d.before, l).state == End {
      assert d.Packets()[..|d.before|] == d.before;
      EndAbsorbs(d.Packets(), |d.before|, l);
    } else {
      DrawingEnds(d, l);
    }
  }

  /** Safety without reference to the machine: nothing starts before all buttons were up once. */
  lemma {:induction false} StartNeedsRelease(h: seq<Report>, l: Limits)
    requires Run(h, l).state != Zero
    ensures exists i :: 0 <= i < |h| && NoButton(h[i])
  {
    var h', p := h[..|h| - 1], h[|h| - 1];
    if Run(h', l).state == Zero {
      assert NoButton(h[|h| - 1]);
    } else {
      StartNeedsRelease(h', l);
      var i :| 0 <= i < |h'| && NoButton(h'[i]);
      assert NoButton(h[i]);
    }
  }

  // ---- which lengths can be drawn ------------------------------------------------------------------

  lemma {:induction false} LongLinesNeverPass(h: seq<Report>, l: Limits)
    requires l.xLen >= 254
    ensures Run(h, l).state !in {EndFirstLine, Vertex, SecondLine, EndSecondLine, End}
  {
    if h != [] {
      LongLinesNeverPass(h[..|h| - 1], l);
    }
  }

  /** The shortest line of a given length: one press, one move, one release. */
  function ShortLine(l: Limits, second: bool): Line
  {
    Line(Button(second), [Button(second).(deltaX := l.xLen, deltaY := if second then -1 else 0xFF)], [], IDLE)
  }

  const IDLE := Report(false, false, false, 0, 0, false, false)

  function Button(second: bool): Report { IDLE.(lb := !second, rb := second) }

  lemma ShortLineGood(l: Limits, second: bool)
    requires l.xLen <= 253
    ensures ShortLine(l, second).Good(l, second)
  {
    SingleMove(ShortLine(l, second).stroke[0], l);
  }

  /** With 8-bit counters the gesture can be made at all exactly for lengths up to 253. */
  lemma EndReachable(l: Limits)
    ensures (exists h :: Run(h, l).state == End) <==> l.xLen <= 253
  {
    if l.xLen <= 253 {
      ShortLineGood(l, false);
      ShortLineGood(l, true);
      var h := [] + [IDLE] + ShortLine(l, false).Packets() + [] + ShortLine(l, true).Packets();
      DrawnAfterRest([], IDLE, ShortLine(l, false), [], ShortLine(l, true), l);
      assert Run(h, l).state == End;
    } else {
      forall h: seq<Report> ensures Run(h, l).state != End {
        LongLinesNeverPass(h, l);
      }
    }
  }

  // ---- what a recognised line really is ---------------------------------------------------------

  /** The true, unwrapped sums pass the test. */
  predicate ReallyPasses(s: seq<Report>, l: Limits) {
    SumX(s) >= l.xLen && SumY(s) > SumX(s) + 1
  }

  predicate InByte(s: seq<Report>) {
    0 <= SumX(s) < 0x100 && 0 <= SumY(s) < 0x100
  }

  lemma NoWrapNoDifference(s: seq<Report>, l: Limits)
    requires InByte(s)
    ensures Passes(s, l) == ReallyPasses(s, l)
  {
  }

  /** The line leaves its state at the first packet where the sums pass, and then stays held. */
  lemma {:induction false} StrokeOutcome(before: seq<Report>, press: Report, stroke: seq<Report>, l: Limits, second: bool)
    requires CanEnter(before, l, second) && Holds(press, second) && Stroke(stroke, l, second)
    ensures Run(before + [press] + stroke, l).state == if Open(stroke, l) then LineState(second) else HoldState(second)
    decreases |stroke|
  {
    if Open(stroke, l) {
      StrokeRuns(before, press, stroke, l, second);
    } else {
      var s, p := stroke[..|stroke| - 1], stroke[|stroke| - 1];
      assert stroke == s + [p];
      var h := before + [press] + s;
      assert before + [press] + stroke == h + [p];
      StrokeOutcome(before, press, s, l, second);
      OpenAppend(s, p, l);
      if Open(s, l) {
        StrokeRuns(before, press, s, l, second);
        NextMove(h, s, p, l, second);
      } else {
        NextHold(h, p, l, second);
      }
    }
  }

  /**
   * While the true sums of the first stroke stay within a byte, the first line is taken as
   * drawn exactly when some part of the stroke really is long and steep enough.
   */
  lemma FirstLineExact(before: seq<Report>, press: Report, stroke: seq<Report>, l: Limits)
    requires CanEnter(before, l, false) && Holds(press, false) && Stroke(stroke, l, false)
    requires forall k :: 1 <= k <= |stroke| ==> InByte(stroke[..k])
    ensures Run(before + [press] + stroke, l).state
         == if exists k :: 1 <= k <= |stroke| && ReallyPasses(stroke[..k], l) then EndFirstLine else FirstLine
  {
    StrokeOutcome(before, press, stroke, l, false);
    forall k | 1 <= k <= |stroke|
      ensures Passes(stroke[..k], l) == ReallyPasses(stroke[..k], l)
    {
      assert InByte(stroke[..k]);
      NoWrapNoDifference(stroke[..k], l);
    }
  }

  /**
   * In general, a first line that passes is really long and steep enough exactly when its sums
   * have not wrapped below zero and the vertical one has wrapped at least as often.
   */
  lemma PassedFirstLine(s: seq<Report>, l: Limits)
    requires Passes(s, l)
    ensures ReallyPasses(s, l) <==> 0 <= SumX(s) / 0x100 <= SumY(s) / 0x100
  {
    var x, y := SumX(s), SumY(s);
    assert x == x / 0x100 * 0x100 + ToU8(x) && y == y / 0x100 * 0x100 + ToU8(y);
  }

  /**
   * The other way round, a stroke that really is long and steep passes exactly when what is left
   * of its width after wrapping is still long enough, and its height has wrapped no more often
   * than its width or is what is left of it still steep enough.
   */
  lemma RealFirstLine(s: seq<Report>, l: Limits)
    requires ReallyPasses(s, l)
    ensures Passes(s, l) <==>
              && ToU8(SumX(s)) >= l.xLen
              && (SumX(s) / 0x100 == SumY(s) / 0x100 || ToU8(SumY(s)) > ToU8(SumX(s)) + 1)
  {
    var x, y := SumX(s), SumY(s);
    assert x == x / 0x100 * 0x100 + ToU8(x) && y == y / 0x100 * 0x100 + ToU8(y);
  }

  lemma FirstRelease(idle: Report, l: Limits)
    requires NoButton(idle)
    ensures CanEnter([idle], l, false)
  {
    RunAppend([], idle, l);
    assert [] + [idle] == [idle];
  }

  /** Beyond a byte it need not be: a stroke that ends below its start can be taken for a steep one. */
  lemma WrappedStroke(press: Report, move: Report, idle: Report)
    requires NoButton(idle) && LeftOnly(press) && LeftOnly(move) && move.deltaX == 10 && move.deltaY == -1
    ensures var l := Limits(10, 1);
            Run([idle] + [press] + [move], l).state == EndFirstLine && !ReallyPasses([move], l)
  {
    var l := Limits(10, 1);
    FirstRelease(idle, l);
    OneFirstMove([idle], press, move, l);
    WrapsSteep([move], l);
  }

  lemma WrapsSteep(s: seq<Report>, l: Limits)
    requires SumX(s) == 10 && SumY(s) == -1 && l.xLen == 10
    ensures Passes(s, l) && !ReallyPasses(s, l)
  {
  }

  /** A first line of one move. */
  lemma OneFirstMove(before: seq<Report>, press: Report, move: Report, l: Limits)
    requires CanEnter(before, l, false) && LeftOnly(press) && Moves(move, l, false)
    ensures SumX([move]) == move.deltaX && SumY([move]) == move.deltaY
    ensures Run(before + [press] + [move], l).state == if Passes([move], l) then EndFirstLine else FirstLine
  {
    SingleMove(move, l);
    StrokeOutcome(before, press, [move], l, false);
  }

  /** Nor the other way round: a stroke that really is long and steep can be missed. */
  lemma MissedStroke(before: seq<Report>, press: Report, a: Report, b: Report)
    requires var l := Limits(200, 0); CanEnter(before, l, false) && LeftOnly(press) && LeftOnly(a) && LeftOnly(b)
    requires (a.deltaX, a.deltaY) == (100, 100) && (b.deltaX, b.deltaY) == (100, 156)
    ensures var l := Limits(200, 0);
            Run(before + [press] + [a, b], l).state == FirstLine && ReallyPasses([a, b], l)
  {
    var l := Limits(200, 0);
    SingleMove(a, l);
    OpenAppend([a], b, l);
    assert [a] + [b] == [a, b];
    StrokeOutcome(before, press, [a, b], l, false);
  }

  // ---- the second line goes down ---------------------------------------------------------------------

  /** The true sums describe a long and steep line downward. */
  predicate ReallyDown(s: seq<Report>, l: Limits) {
    SumX(s) >= l.xLen && -SumY(s) > SumX(s) + 1
  }

  /** What the wrapped test accepts of a downward line within a byte: a short enough way to go. */
  predicate ShallowDown(s: seq<Report>, l: Limits) {
    SumX(s) >= l.xLen && SumX(s) - SumY(s) < 0xFF
  }

  predicate InByteDown(s: seq<Report>) {
    0 <= SumX(s) < 0x100 && -0x100 <= SumY(s) < 0
  }

  lemma PassesIsShallow(s: seq<Report>, l: Limits)
    requires InByteDown(s)
    ensures Passes(s, l) == ShallowDown(s, l)
  {
    var y := SumY(s);
    assert y == -1 * 0x100 + (y + 0x100);
  }

  /**
   * While the true sums of the second stroke stay within a byte, the second line is taken as
   * drawn exactly when some part of the stroke is long enough and its width and depth together
   * are below 255. Steepness, which the test is for, is not what decides.
   */
  lemma SecondLineExact(before: seq<Report>, press: Report, stroke: seq<Report>, l: Limits)
    requires CanEnter(before, l, true) && Holds(press, true) && Stroke(stroke, l, true)
    requires forall k :: 1 <= k <= |stroke| ==> InByteDown(stroke[..k])
    ensures Run(before + [press] + stroke, l).state
         == if exists k :: 1 <= k <= |stroke| && ShallowDown(stroke[..k], l) then EndSecondLine else SecondLine
  {
    StrokeOutcome(before, press, stroke, l, true);
    forall k | 1 <= k <= |stroke|
      ensures Passes(stroke[..k], l) == ShallowDown(stroke[..k], l)
    {
      assert InByteDown(stroke[..k]);
      PassesIsShallow(stroke[..k], l);
    }
  }

  /** Such a stroke is judged as a steep line downward would be exactly under this condition. */
  lemma SecondLineJudged(s: seq<Report>, l: Limits)
    requires InByteDown(s)
    ensures Passes(s, l) == ReallyDown(s, l)
       <==> SumX(s) < l.xLen || (SumX(s) + 1 < -SumY(s) < 0xFF - SumX(s)) || (0xFF - SumX(s) <= -SumY(s) <= SumX(s) + 1)
  {
    PassesIsShallow(s, l);
  }

  /** A finished stroke of the second line, within a byte, that really is a steep line downward. */
  ghost predicate RightlyTaken(s: seq<Report>, l: Limits) {
    Stroke(s, l, true) && Complete(s, l) && InByteDown(s) && ReallyDown(s, l)
  }

  /**
   * Within a byte, the second line is ever taken rightly only for lengths up to 126: with any
   * greater length no steep line downward finishes it.
   */
  lemma RightlyTakenUpTo(l: Limits)
    ensures (exists s :: RightlyTaken(s, l)) <==> l.xLen <= 126
  {
    if s :| RightlyTaken(s, l) {
      PassesIsShallow(s, l);
    }
    if l.xLen <= 126 {
      SteepMove(l);
      assert RightlyTaken([Report(false, true, false, l.xLen, -2 - l.xLen, false, false)], l);
    }
  }

  lemma SteepMove(l: Limits)
    requires l.xLen <= 126
    ensures RightlyTaken([Report(false, true, false, l.xLen, -2 - l.xLen, false, false)], l)
  {
    var move := Report(false, true, false, l.xLen, -2 - l.xLen, false, false);
    SingleMove(move, l);
    PassesIsShallow([move], l);
  }

  /** A second line of one move, from the vertex. */
  lemma OneMove(before: seq<Report>, press: Report, move: Report, l: Limits)
    requires CanEnter(before, l, true) && Holds(press, true) && Moves(move, l, true)
    requires 0 <= move.deltaX < 0x100 && -0x100 <= move.deltaY < 0
    ensures SumX([move]) == move.deltaX && SumY([move]) == move.deltaY
    ensures Run(before + [press] + [move], l).state == if ShallowDown([move], l) then EndSecondLine else SecondLine
  {
    SingleMove(move, l);
    assert [move][..1] == [move];
    SecondLineExact(before, press, [move], l);
  }

  /** A flat stroke is taken for the second line. */
  lemma FlatStrokeAccepted(before: seq<Report>, press: Report, move: Report)
    requires var l := Limits(10, 0); CanEnter(before, l, true) && RightOnly(press) && RightOnly(move)
    requires move.deltaX == 10 && move.deltaY == -1
    ensures var l := Limits(10, 0); Run(before + [press] + [move], l).state == EndSecondLine && !ReallyDown([move], l)
  {
    OneMove(before, press, move, Limits(10, 0));
  }

  /** A steep stroke is not. */
  lemma SteepStrokeRejected(before: seq<Report>, press: Report, move: Report)
    requires var l := Limits(10, 0); CanEnter(before, l, true) && RightOnly(press) && RightOnly(move)
    requires move.deltaX == 10 && move.deltaY == -250
    ensures var l := Limits(10, 0); Run(before + [press] + [move], l).state == SecondLine && ReallyDown([move], l)
  {
    OneMove(before, press, move, Limits(10, 0));
  }

  /**
   * In every recognised gesture the second line went down, and within a byte its width and
   * depth together stayed below 255.
   */
  lemma SecondLineGoesDown(h: seq<Report>, l: Limits) returns (d: Drawing)
    requires JustEnded(h, l)
    ensures d.Good(l) && d.Packets() == h && SumY(d.second.stroke) < 0
    ensures InByteDown(d.second.stroke) ==> ShallowDown(d.second.stroke, l)
  {
    d := EndNeedsDrawing(h, l);
    StrokeGoesDown(d.second.stroke, l);
    if InByteDown(d.second.stroke) {
      PassesIsShallow(d.second.stroke, l);
    }
  }

  lemma {:induction false} StrokeGoesDown(s: seq<Report>, l: Limits)
    requires s != [] && Stroke(s, l, true)
    ensures SumY(s) < 0
  {
    if |s| > 1 {
      StrokeGoesDown(s[..|s| - 1], l);
    }
  }

  // ---- the driver loop ---------------------------------------------------------------------------

  /** The recogniser's globals and its per-packet procedure. */
  class Recogniser {
    var state: State
    var absX: U8
    var absY: U8

    function Now(): Machine
      reads this
    {
      Machine(state, absX, absY)
    }

    constructor ()
      ensures Now() == START
    {
      state, absX, absY := Zero, 0, 0;
    }

    method ProcessPacket(p: Report, l: Limits)
      modifies this
      ensures Now() == Step(old(Now()), p, l)
    {
      match state
      case Zero =>
        if NoButton(p) { state := Init; }
      case Init =>
        absX, absY := 0, 0;
        if LeftOnly(p) { state := FirstLine; }
      case FirstLine =>
        if Forward(p.deltaX, l) && LeftOnly(p) {
          if Forward(p.deltaY, l) {
            absX := ToU8(absX + p.deltaX);
            absY := ToU8(absY + p.deltaY);
            if absX >= l.xLen && absY > absX + 1 { state := EndFirstLine; }
            return;
          }
        }
        state := if NoButton(p) then Init else Zero;
      case EndFirstLine =>
        if NoButton(p) { state := Vertex; }
        else if p.rb || p.mb { state := Zero; }
      case Vertex =>
        absX, absY := 0, 0;
        if RightOnly(p) { state := SecondLine; }
        else if LeftOnly(p) { state := FirstLine; }
        else if Abs(p.deltaX) <= l.tolerance && Abs(p.deltaY) <= l.tolerance && NoButton(p) { }
        else { state := Zero; }
      case SecondLine =>
        if Forward(p.deltaX, l) && RightOnly(p) {
          if Downward(p.deltaY, l) {
            absX := ToU8(absX + p.deltaX);
            absY := ToU8(absY + p.deltaY);
            if absX >= l.xLen && absY > absX + 1 { state := EndSecondLine; }
            return;
          }
        }
        state := if NoButton(p) then Init else Zero;
      case EndSecondLine =>
        if NoButton(p) { state := End; }
        else if p.lb || p.mb { state := Zero; }
      case End =>
    }

    /** One turn of the loop; `h` is the packets so far. */
    method OnGestureEvent(mouse: Mouse.Driver, l: Limits, ghost start: seq<U8>, ghost byte: U8,
        events: seq<Mouse.Event>, n: nat, ghost h: seq<Report>) returns (ghost h': seq<Report>)
      requires n < |events| && mouse.InStep(start, byte, events, n) && mouse as object != this
      requires h == Mouse.Received(start, byte, events, n) && Now() == Run(h, l)
      modifies this, mouse`byteReceived, mouse`bytesRead, mouse`pp, mouse.ppBytes
      ensures mouse.InStep(start, byte, events, n + 1)
      ensures h' == Mouse.Received(start, byte, events, n + 1) && Now() == Run(h', l)
    {
      var complete := mouse.OnEvent(start, byte, events, n);
      h' := h;
      if complete {
        ProcessPacket(mouse.pp, l);
        RunAppend(h, mouse.pp, l);
        h' := h + [mouse.pp];
      }
    }

    /**
     * Feeds the recogniser every packet of the stream until the gesture is seen: it stops at
     * the first loop head where the packets received so far contain a drawing.
     */
    method TestGesture(mouse: Mouse.Driver, l: Limits, events: seq<Mouse.Event>) returns (consumed: nat)
      requires mouse.Valid() && Now() == START && mouse as object != this
      modifies this, mouse`byteReceived, mouse`bytesRead, mouse`pp, mouse.ppBytes
      ensures consumed <= |events| && mouse.InStep(old(mouse.Pending()), old(mouse.byteReceived), events, consumed)
      ensures Now() == Run(Mouse.Received(old(mouse.Pending()), old(mouse.byteReceived), events, consumed), l)
      ensures state == End || consumed == |events|
      ensures state == End <==> ContainsDrawing(Mouse.Received(old(mouse.Pending()), old(mouse.byteReceived), events, consumed), l)
      ensures consumed > 0 ==> Run(Mouse.Received(old(mouse.Pending()), old(mouse.byteReceived), events, consumed - 1), l).state != End
    {
      consumed := 0;
      mouse.StartsInStep(events);
      ghost var start, byte := mouse.Pending(), mouse.byteReceived;
      ghost var h: seq<Report> := [];
      while state != End && consumed < |events|
        invariant consumed <= |events| && mouse.InStep(start, byte, events, consumed)
        invariant h == Mouse.Received(start, byte, events, consumed) && Now() == Run(h, l)
        invariant consumed > 0 ==> Run(Mouse.Received(start, byte, events, consumed - 1), l).state != End
        decreases |events| - consumed
      {
        h := OnGestureEvent(mouse, l, start, byte, events, consumed, h);
        consumed := consumed + 1;
      }
      Recognised(h, l);
    }
  }
}
