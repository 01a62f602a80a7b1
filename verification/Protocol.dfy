/**
 The command language as a pure function of the bytes received so far: what one pass of the
 parse loop does (`Step`) and what the loop does until it has to wait for more bytes (`Run`).
 */
module Protocol {
  import opened Bytes
  import opened Numbers
  import opened Pixels

  const PX: seq<byte> := [80, 88]
  const SIZE: seq<byte> := [83, 73, 90, 69]
  const OFFSET: seq<byte> := [79, 70, 70, 83, 69, 84]

  /** Longest token that the whitespace search accepts. */
  const MAX_TOKEN: nat := 32

  /** A parsed command; the connection's offset has not been added yet. */
  datatype Command =
    | Set(x: uint32, y: uint32, pixel: Pixel)
    | Get(x: uint32, y: uint32)
    | Size
    | Offset(x: uint32, y: uint32)
    | Unknown

  /**
   Result of one pass: a command and the number of bytes it used, or one of three reasons to
   stop.  After `NeedMore` and `Stuck` no byte has been used.
   */
  datatype Outcome = Done(cmd: Command, used: nat) | NeedMore | Stuck | Abort

  datatype Field = Found(start: nat, end: nat) | Missing | Garbled

  predicate StartsWith(s: seq<byte>, keyword: seq<byte>): (b: bool)
    ensures b ==> |keyword| <= |s|
  {
    |keyword| <= |s| && s[..|keyword|] == keyword
  }

  /** The argument after a separator at `i`; it must be closed by whitespace. */
  function Arg(s: seq<byte>, i: nat): (f: Field)
    requires i <= |s|
    ensures f.Found? ==>
      && i < f.start < f.end < |s| && f.end - f.start <= MAX_TOKEN
      && IsWhitespace(s[f.end])
  {
    var a := WsEnd(s, i);
    if a == i then
      if i == |s| then Missing else Garbled
    else
      var b := TokEnd(s, a);
      if b - a > MAX_TOKEN then Garbled
      else if b == |s| then Missing
      else Found(a, b)
  }

  /** Six digits or fewer are an opaque RGB colour, more are RGB and alpha. */
  function Colour(t: seq<byte>): Pixel {
    if |t| > 6 then FromAbgr(Hex(t)) else FromAbgr(Hex(t) * 0x100 % TWO_32).(alpha := 0xff)
  }

  function Incomplete(f: Field): (o: Outcome)
    requires !f.Found?
    ensures o.NeedMore? || o.Stuck?
  {
    if f.Missing? then NeedMore else Stuck
  }

  /** Two decimal arguments, each after a separator and closed by whitespace. */
  datatype Args = Both(x: uint32, y: uint32, end: nat) | Lacking(o: Outcome)

  function TwoArgs(s: seq<byte>, i: nat): (p: Args)
    requires i <= |s|
    ensures p.Both? ==> i < p.end < |s| && IsWhitespace(s[p.end])
    ensures p.Lacking? ==> p.o.NeedMore? || p.o.Stuck?
  {
    var fx := Arg(s, i);
    if !fx.Found? then Lacking(Incomplete(fx)) else
    var fy := Arg(s, fx.end);
    if !fy.Found? then Lacking(Incomplete(fy))
    else Both(Dec(s[fx.start..fx.end]), Dec(s[fy.start..fy.end]), fy.end)
  }

  /** The last whitespace byte at hand after the Y coordinate decides between get and set. */
  function StepPx(s: seq<byte>): (o: Outcome)
    requires StartsWith(s, PX)
    ensures o.Done? ==> 2 < o.used <= |s| && (o.used < |s| ==> !IsWhitespace(s[o.used]))
    ensures !o.Abort?
  {
    var p := TwoArgs(s, |PX|);
    if p.Lacking? then p.o else
    var w := WsEnd(s, p.end);
    if IsNewline(s[w - 1]) then Done(Get(p.x, p.y), w) else
    var f := Arg(s, p.end);
    if !f.Found? then Incomplete(f)
    else Done(Set(p.x, p.y, Colour(s[f.start..f.end])), WsEnd(s, f.end))
  }

  function StepOffset(s: seq<byte>): (o: Outcome)
    requires StartsWith(s, OFFSET)
    ensures o.Done? ==> 6 < o.used <= |s| && (o.used < |s| ==> !IsWhitespace(s[o.used]))
    ensures !o.Abort?
  {
    var p := TwoArgs(s, |OFFSET|);
    if p.Lacking? then p.o else Done(Offset(p.x, p.y), WsEnd(s, p.end))
  }

  function StepUnknown(s: seq<byte>): (o: Outcome)
    requires s != []
    ensures o.Done? ==> 0 < o.used <= |s| && (o.used < |s| ==> !IsWhitespace(s[o.used]))
    ensures o.Done? ==> o.cmd.Unknown?
    ensures !o.Stuck?
  {
    var b := TokEnd(s, 0);
    if b > MAX_TOKEN then Abort
    else if b == |s| then NeedMore
    else Done(Unknown, WsEnd(s, b))
  }

  /** One pass of the parse loop over the unread bytes `s`. */
  function Step(s: seq<byte>): (o: Outcome)
    requires s != []
    ensures o.Done? ==> 0 < o.used <= |s| && (o.used < |s| ==> !IsWhitespace(s[o.used]))
  {
    if StartsWith(s, PX) then StepPx(s)
    else if StartsWith(s, SIZE) then Done(Size, WsEnd(s, |SIZE|))
    else if StartsWith(s, OFFSET) then StepOffset(s)
    else StepUnknown(s)
  }

  datatype Status = Waiting | Blocked | Aborted

  /** Commands executed, why the loop stopped, and the bytes that stay in the ring. */
  datatype Result = Result(cmds: seq<Command>, status: Status, rest: seq<byte>)

  const START := Result([], Waiting, [])

  /** Unknown tokens are dropped without effect. */
  function Effective(c: Command): seq<Command> {
    if c.Unknown? then [] else [c]
  }

  function Run(s: seq<byte>): (r: Result)
    decreases |s|
  {
    if s == [] then START else
    match Step(s)
    case Done(c, used) => var r := Run(s[used..]); r.(cmds := Effective(c) + r.cmds)
    case NeedMore => Result([], Waiting, s)
    case Stuck => Result([], Blocked, s)
    case Abort => Result([], Aborted, s)
  }

  /** The next bytes `t` arrive after the loop stopped with result `r`. */
  function Continue(r: Result, t: seq<byte>): Result {
    if r.status.Aborted? then r.(rest := r.rest + t)
    else var q := Run(r.rest + t); Result(r.cmds + q.cmds, q.status, q.rest)
  }

  /** The stream arrives in chunks, with one run of the parse loop after each. */
  function Feed(r: Result, chunks: seq<seq<byte>>): Result
    decreases |chunks|
  {
    if chunks == [] then r else Feed(Continue(r, chunks[0]), chunks[1..])
  }

  function Concat(chunks: seq<seq<byte>>): seq<byte> {
    if chunks == [] then [] else chunks[0] + Concat(chunks[1..])
  }

  /** What an executed command asks of the framebuffer, in absolute coordinates. */
  datatype Event =
    | SetPixel(x: uint32, y: uint32, pixel: Pixel)
    | GetPixel(x: uint32, y: uint32)
    | ReportSize

  datatype Origin = Origin(x: uint32, y: uint32)

  /** Offset addition wraps like `unsigned int`. */
  function Shift(a: uint32, b: uint32): uint32 {
    (a + b) % TWO_32
  }

  function EventOf(o: Origin, c: Command): seq<Event> {
    match c
    case Set(x, y, p) => [SetPixel(Shift(x, o.x), Shift(y, o.y), p)]
    case Get(x, y) => [GetPixel(Shift(x, o.x), Shift(y, o.y))]
    case Size => [ReportSize]
    case _ => []
  }

  function OriginAfter(o: Origin, c: Command): Origin {
    if c.Offset? then Origin(c.x, c.y) else o
  }

  function Origins(o: Origin, cmds: seq<Command>): Origin
    decreases |cmds|
  {
    if cmds == [] then o else Origins(OriginAfter(o, cmds[0]), cmds[1..])
  }

  function Events(o: Origin, cmds: seq<Command>): seq<Event>
    decreases |cmds|
  {
    if cmds == [] then [] else EventOf(o, cmds[0]) + Events(OriginAfter(o, cmds[0]), cmds[1..])
  }
}
