/**
 * The server channel as a transition system (src/core/modules/easn/easn_server_channel.cpp).
 * Coroutines give up control only in a yield, a poll or a resume, so each stretch of code
 * between two such points is one step.
 */
module ServerSpec {
  import opened Crc16
  import opened EasnPackage
  import opened PacketParser

  /** Seconds a connection may stay unauthenticated. */
  const TIMEOUT: int := 10

  /** The local variables of a coroutine that serves a descriptor, at its poll. */
  datatype Session = Session(fd: int, sid: nat, auth: bool, accepted: int, polled: int, timeout: int)

  /** A task is parked at its yield with fd = -1, or polls the descriptor it serves. */
  datatype Task = Parked | Serving(session: Session)

  /** What the server does to the outside; a Read without data is a read that returned nothing. */
  datatype Output =
    | Accept(fd: int)
    | Read(fd: int, data: seq<Byte>)
    | Ack(fd: int, bytes: seq<Byte>)
    | Dispatch(fd: int, sid: nat, packet: Packet)
    | Close(fd: int)

  /** What a read returns: bytes, with the parser's run over them; end of file; EAGAIN; an error. */
  datatype Input = Data(bytes: seq<Byte>, run: Calls) | Eof | Again | Error

  /** The pool's tasks, the stack of idle tasks (top last), the last clock reading, the outputs so far. */
  datatype State = State(tasks: seq<Task>, idle: seq<nat>, clock: int, trace: seq<Output>)

  datatype Step =
    | Connect(fd: int, sid: nat, accepted: int, now: int)
    | Wake(task: nat, input: Input, now: int)

  // ---------------------------------------------------------------------
  // The callback: dispatch and automatic authorisation
  // ---------------------------------------------------------------------

  /** A packet is dropped when it is not INIT and its session is not authorised. */
  predicate Passes(auth: bool, p: Packet) {
    auth || PacketType(p) == TYPE_INIT
  }

  function HandleOne(fd: int, sid: nat, auth: bool, event: Event): seq<Output> {
    match event
    case Write(bytes) => [Ack(fd, bytes)]
    case Callback(p) => if Passes(auth, p) then [Dispatch(fd, sid, p)] else []
  }

  /** The auth flag is set when an INIT packet is dispatched. */
  function AuthOne(auth: bool, event: Event): bool {
    auth || (event.Callback? && PacketType(event.packet) == TYPE_INIT)
  }

  /** The outputs of one run of the parser in a session. */
  function Handle(fd: int, sid: nat, auth: bool, events: seq<Event>): seq<Output>
    decreases |events|
  {
    if events == [] then []
    else HandleOne(fd, sid, auth, events[0]) + Handle(fd, sid, AuthOne(auth, events[0]), events[1..])
  }

  /** The session's auth flag after the run. */
  function AuthAfter(auth: bool, events: seq<Event>): bool
    decreases |events|
  {
    if events == [] then auth else AuthAfter(AuthOne(auth, events[0]), events[1..])
  }

  // ---------------------------------------------------------------------
  // The steps
  // ---------------------------------------------------------------------

  /** Milliseconds left to authenticate. */
  function TimeoutLeft(accepted: int, now: int): int {
    (TIMEOUT - (now - accepted)) * 1000
  }

  /** Leaving the session loop: close, forget the descriptor, push the task. */
  function Finish(s: State, i: nat, fd: int): State
    requires i < |s.tasks|
  {
    s.(tasks := s.tasks[i := Parked], idle := s.idle + [i], trace := s.trace + [Close(fd)])
  }

  /** The head of the session loop, up to the poll or the timeout. */
  function LoopTop(s: State, i: nat, session: Session, now: int): State
    requires i < |s.tasks|
  {
    if session.auth then
      s.(clock := now, tasks := s.tasks[i := Serving(session.(polled := now, timeout := -1))])
    else if TimeoutLeft(session.accepted, now) <= 0 then
      Finish(s.(clock := now), i, session.fd)
    else
      s.(clock := now,
         tasks := s.tasks[i := Serving(session.(polled := now, timeout := TimeoutLeft(session.accepted, now)))])
  }

  /** A connection: refused when no task is idle, else served by the task on top of the stack. */
  function ConnectStep(s: State, fd: int, sid: nat, accepted: int, now: int): State
    requires forall k :: 0 <= k < |s.idle| ==> s.idle[k] < |s.tasks|
  {
    if s.idle == [] then
      s.(clock := now, trace := s.trace + [Accept(fd), Close(fd)])
    else
      var i := s.idle[|s.idle| - 1];
      LoopTop(s.(idle := s.idle[..|s.idle| - 1], trace := s.trace + [Accept(fd)]), i,
              Session(fd, sid, false, accepted, now, 0), now)
  }

  /** A poll that returns: read, handle what came, and loop or leave. */
  function WakeStep(s: State, i: nat, input: Input, now: int): State
    requires i < |s.tasks| && s.tasks[i].Serving?
  {
    var session := s.tasks[i].session;
    var fd := session.fd;
    match input
    case Data(bytes, run) =>
      var read := s.(trace := s.trace + [Read(fd, bytes)]);
      if |bytes| < MIN_SIZE then LoopTop(read, i, session, now)
      else
        LoopTop(read.(trace := read.trace + Handle(fd, session.sid, session.auth, Events(run))), i,
                session.(auth := AuthAfter(session.auth, Events(run))), now)
    case Again =>
      var read := s.(trace := s.trace + [Read(fd, [])]);
      if session.auth then LoopTop(read, i, session, now) else Finish(read.(clock := now), i, fd)
    case Eof => Finish(s.(clock := now, trace := s.trace + [Read(fd, [])]), i, fd)
    case Error => Finish(s.(clock := now, trace := s.trace + [Read(fd, [])]), i, fd)
  }

  // ---------------------------------------------------------------------
  // Runs
  // ---------------------------------------------------------------------

  /** The descriptors accepted and not closed since. */
  function Open(trace: seq<Output>): set<int> {
    if trace == [] then {}
    else
      var before := Open(trace[..|trace| - 1]);
      match trace[|trace| - 1]
      case Accept(fd) => before + {fd}
      case Close(fd) => before - {fd}
      case _ => before
  }

  /** Bytes a read can return, with a run of the parser; a call that meets a length below 2 is its last. */
  ghost predicate Possible(input: Input) {
    input.Data? ==>
      && 1 <= |input.bytes| <= MAX_SIZE
      && (|input.bytes| >= MIN_SIZE ==> IsRun(input.bytes, 0, input.run))
  }

  /** Each idle index names a task of the pool. */
  predicate IdleInPool(s: State) {
    forall k :: 0 <= k < |s.idle| ==> s.idle[k] < |s.tasks|
  }

  /** accept returns a descriptor that is not open; the clock does not go back. */
  ghost predicate Enabled(s: State, step: Step) {
    IdleInPool(s) &&
    match step
    case Connect(fd, _, accepted, now) => fd >= 0 && fd !in Open(s.trace) && s.clock <= accepted <= now
    case Wake(i, input, now) =>
      i < |s.tasks| && s.tasks[i].Serving? && s.clock <= now && Possible(input)
  }

  ghost function Next(s: State, step: Step): State
    requires Enabled(s, step)
  {
    match step
    case Connect(fd, sid, accepted, now) => ConnectStep(s, fd, sid, accepted, now)
    case Wake(i, input, now) => WakeStep(s, i, input, now)
  }

  /** After init: n parked tasks, pushed in order. */
  function Start(n: nat, clock: int): State {
    State(seq(n, _ => Parked), seq(n, i => i), clock, [])
  }

  /** The state reached from a pool of n tasks; a step that is not enabled does not happen. */
  ghost function After(n: nat, clock: int, steps: seq<Step>): State {
    if steps == [] then Start(n, clock)
    else
      var before := After(n, clock, steps[..|steps| - 1]);
      var step := steps[|steps| - 1];
      if Enabled(before, step) then Next(before, step) else before
  }
}
