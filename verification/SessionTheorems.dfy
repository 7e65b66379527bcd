/** The authentication deadline, and what a session makes of a stream of frames. */
module SessionTheorems {
  import opened Crc16
  import opened EasnPackage
  import opened PacketParser
  import opened NoisyStream
  import opened ServerSpec
  import opened ServerTheorems

  // ---------------------------------------------------------------------
  // The deadline
  // ---------------------------------------------------------------------

  /** An unauthenticated session polls until exactly 10 s after its accept; others for ever. */
  predicate PollKept(session: Session, clock: int) {
    && session.accepted <= session.polled <= clock
    && if session.auth then session.timeout == -1
       else session.polled < session.accepted + 10 && 0 < session.timeout <= 10000
            && session.polled * 1000 + session.timeout == (session.accepted + 10) * 1000
  }

  ghost predicate PollsKept(s: State) {
    forall i :: 0 <= i < |s.tasks| && s.tasks[i].Serving? ==> PollKept(s.tasks[i].session, s.clock)
  }

  lemma LoopTopKeepsPolls(s: State, i: nat, session: Session, now: int)
    requires i < |s.tasks| && session.accepted <= now && s.clock <= now
    requires forall k :: 0 <= k < |s.tasks| && k != i && s.tasks[k].Serving? ==> PollKept(s.tasks[k].session, s.clock)
    ensures PollsKept(LoopTop(s, i, session, now))
  {
    var after := LoopTop(s, i, session, now);
    forall k | 0 <= k < |after.tasks| && after.tasks[k].Serving? ensures PollKept(after.tasks[k].session, now) {
      if k != i { assert after.tasks[k] == s.tasks[k]; }
    }
  }

  lemma NextKeepsPolls(s: State, step: Step)
    requires PollsKept(s) && Enabled(s, step)
    ensures PollsKept(Next(s, step))
  {
    match step
    case Connect(fd, sid, accepted, now) =>
      if s.idle != [] {
        var n := |s.idle| - 1;
        LoopTopKeepsPolls(s.(idle := s.idle[..n], trace := s.trace + [Accept(fd)]), s.idle[n],
                          Session(fd, sid, false, accepted, now, 0), now);
      }
    case Wake(i, input, now) =>
      var session := s.tasks[i].session;
      if input.Data? && |input.bytes| >= MIN_SIZE {
        var read := s.(trace := s.trace + [Read(session.fd, input.bytes)]);
        var handled := read.(trace := read.trace + Handle(session.fd, session.sid, session.auth, Events(input.run)));
        LoopTopKeepsPolls(handled, i, session.(auth := AuthAfter(session.auth, Events(input.run))), now);
      } else {
        var data := if input.Data? then input.bytes else [];
        LoopTopKeepsPolls(s.(trace := s.trace + [Read(session.fd, data)]), i, session, now);
      }
  }

  /**
   * In every reachable state, a poll of an unauthenticated session has a timeout in (0, 10000] ms
   * that ends exactly 10 s after the accept.
   */
  lemma {:induction false} PollsEndAtDeadline(n: nat, clock: int, steps: seq<Step>)
    ensures PollsKept(After(n, clock, steps))
  {
    if steps != [] {
      var before := After(n, clock, steps[..|steps| - 1]);
      PollsEndAtDeadline(n, clock, steps[..|steps| - 1]);
      if Enabled(before, steps[|steps| - 1]) { NextKeepsPolls(before, steps[|steps| - 1]); }
    }
  }

  /** A step taken before any pending poll with a timeout should have returned, or just then. */
  ghost predicate OnTime(s: State, step: Step) {
    forall i :: 0 <= i < |s.tasks| && s.tasks[i].Serving? && s.tasks[i].session.timeout >= 0 ==>
      step.now * 1000 <= s.tasks[i].session.polled * 1000 + s.tasks[i].session.timeout
  }

  /** A run in which every poll returns by its timeout. */
  ghost predicate Punctual(n: nat, clock: int, steps: seq<Step>) {
    steps == [] ||
    (var before := After(n, clock, steps[..|steps| - 1]);
     Punctual(n, clock, steps[..|steps| - 1])
     && (Enabled(before, steps[|steps| - 1]) ==> OnTime(before, steps[|steps| - 1])))
  }

  lemma ClockMoves(s: State, step: Step)
    requires Enabled(s, step)
    ensures Next(s, step).clock == step.now >= s.clock
  {
  }

  /** A session that is unauthenticated after a step at the deadline was so before, and was not woken. */
  lemma WokenInTime(s: State, i: nat, input: Input, now: int)
    requires i < |s.tasks| && s.tasks[i].Serving? && now >= s.tasks[i].session.accepted + 10
    ensures var after := WakeStep(s, i, input, now).tasks[i]; after.Parked? || after.session.auth
  {
  }

  /**
   * With punctual polls, no session is unauthenticated later than 10 s after its accept; one woken
   * at that moment leaves the step authenticated or closed.
   */
  lemma {:induction false} DeadlineHolds(n: nat, clock: int, steps: seq<Step>, i: nat)
    requires Punctual(n, clock, steps)
    ensures var s := After(n, clock, steps);
            i < |s.tasks| && s.tasks[i].Serving? && !s.tasks[i].session.auth ==>
              s.clock <= s.tasks[i].session.accepted + 10
  {
    if steps != [] {
      var before, step := After(n, clock, steps[..|steps| - 1]), steps[|steps| - 1];
      DeadlineHolds(n, clock, steps[..|steps| - 1], i);
      PollsEndAtDeadline(n, clock, steps[..|steps| - 1]);
      PollsEndAtDeadline(n, clock, steps);
      if Enabled(before, step) {
        ClockMoves(before, step);
        UnauthSource(before, step, i);
      }
    }
  }

  /** An unauthenticated session after a step was just polled again, or was not touched. */
  lemma UnauthSource(s: State, step: Step, i: nat)
    requires PollsKept(s) && Enabled(s, step)
    ensures var after := Next(s, step);
            i < |after.tasks| && after.tasks[i].Serving? && !after.tasks[i].session.auth ==>
              after.tasks[i].session.polled == step.now || (i < |s.tasks| && after.tasks[i] == s.tasks[i])
  {
  }

  // ---------------------------------------------------------------------
  // Sessions end to end
  // ---------------------------------------------------------------------

  function ReadOn(before: seq<seq<Byte>>, out: Output, fd: int): seq<seq<Byte>> {
    match out
    case Accept(g) => if g == fd then [] else before
    case Read(g, data) => if g == fd then before + [data] else before
    case _ => before
  }

  function SentOn(before: seq<seq<Byte>>, out: Output, fd: int): seq<seq<Byte>> {
    match out
    case Accept(g) => if g == fd then [] else before
    case Dispatch(g, _, p) => if g == fd then before + [Frame(p)] else before
    case _ => before
  }

  /** What has been read from fd since it was last accepted. */
  function ReadsSince(trace: seq<Output>, fd: int): seq<seq<Byte>> {
    if trace == [] then [] else ReadOn(ReadsSince(trace[..|trace| - 1], fd), trace[|trace| - 1], fd)
  }

  /** The frames dispatched from fd since it was last accepted. */
  function SentSince(trace: seq<Output>, fd: int): seq<seq<Byte>> {
    if trace == [] then [] else SentOn(SentSince(trace[..|trace| - 1], fd), trace[|trace| - 1], fd)
  }

  /** The messages from the first INIT, of type 1, on. */
  function FromInit(msgs: seq<Message>): seq<Message> {
    if msgs == [] then []
    else if msgs[0].kind == 1 then msgs
    else FromInit(msgs[1..])
  }

  function HasInit(msgs: seq<Message>): bool {
    msgs != [] && (msgs[0].kind == 1 || HasInit(msgs[1..]))
  }

  /** What a session with the given flag dispatches of the messages. */
  function Passed(auth: bool, msgs: seq<Message>): seq<Message> {
    if auth then msgs else FromInit(msgs)
  }

  lemma {:induction false} FromInitAppend(a: seq<Message>, b: seq<Message>)
    ensures FromInit(a + b) == FromInit(a) + Passed(HasInit(a), b)
    ensures HasInit(a + b) == (HasInit(a) || HasInit(b))
  {
    if a == [] {
      assert a + b == b;
    } else {
      assert (a + b)[1..] == a[1..] + b;
      FromInitAppend(a[1..], b);
    }
  }

  predicate AllSmall(msgs: seq<Message>) {
    forall i :: 0 <= i < |msgs| ==> msgs[i].Fits()
  }

  function Frames(msgs: seq<Message>): (frames: seq<seq<Byte>>)
    requires AllSmall(msgs)
    ensures |frames| == |msgs|
  {
    seq(|msgs|, i requires 0 <= i < |msgs| => Encode(msgs[i]))
  }

  // ---------------------------------------------------------------------
  // One run of the parser in a session
  // ---------------------------------------------------------------------

  /** The frames a session dispatches of the events of one run. */
  function SentOf(auth: bool, events: seq<Event>): seq<seq<Byte>>
    decreases |events|
  {
    if events == [] then [] else SentOne(auth, events[0]) + SentOf(AuthOne(auth, events[0]), events[1..])
  }

  lemma OutputSnoc(trace: seq<Output>, out: Output, fd: int)
    ensures ReadsSince(trace + [out], fd) == ReadOn(ReadsSince(trace, fd), out, fd)
    ensures SentSince(trace + [out], fd) == SentOn(SentSince(trace, fd), out, fd)
  {
    assert (trace + [out])[..|trace|] == trace;
  }

  /** What one event adds to the frames sent. */
  function SentOne(auth: bool, event: Event): seq<seq<Byte>> {
    if event.Callback? && Passes(auth, event.packet) then [Frame(event.packet)] else []
  }

  lemma Join<T>(a: seq<T>, b: seq<T>, c: seq<T>, d: seq<T>)
    requires d == b + c
    ensures (a + b) + c == a + d
  {
  }

  /** Handling a run adds to what was sent from its descriptor, and to nothing else. */
  lemma {:induction false} HandleSends(trace: seq<Output>, fd: int, sid: nat, auth: bool, events: seq<Event>, g: int)
    ensures var after := trace + Handle(fd, sid, auth, events);
            && ReadsSince(after, g) == ReadsSince(trace, g)
            && SentSince(after, g)
               == (if g == fd then SentSince(trace, g) + SentOf(auth, events) else SentSince(trace, g))
    decreases |events|
  {
    if events == [] {
      assert trace + [] == trace;
    } else {
      HandleUnfolds(trace, fd, sid, auth, events);
      OneSends(trace, fd, sid, auth, events[0], g);
      HandleSends(trace + HandleOne(fd, sid, auth, events[0]), fd, sid, AuthOne(auth, events[0]), events[1..], g);
      Join(SentSince(trace, g), SentOne(auth, events[0]), SentOf(AuthOne(auth, events[0]), events[1..]),
           SentOf(auth, events));
    }
  }

  lemma OneSends(trace: seq<Output>, fd: int, sid: nat, auth: bool, event: Event, g: int)
    ensures var after := trace + HandleOne(fd, sid, auth, event);
            && ReadsSince(after, g) == ReadsSince(trace, g)
            && SentSince(after, g)
               == (if g == fd then SentSince(trace, g) + SentOne(auth, event) else SentSince(trace, g))
  {
    match event
    case Write(bytes) => OutputSnoc(trace, Ack(fd, bytes), g);
    case Callback(p) =>
      OutputSnoc(trace, Dispatch(fd, sid, p), g);
      assert trace + [] == trace;
  }

  lemma {:induction false} ChunksFit(chunks: seq<Chunk>)
    requires AllFit(chunks)
    ensures AllSmall(Messages(chunks))
  {
    if chunks != [] { ChunksFit(chunks[1..]); }
  }

  lemma KindOfFrame(p: Packet, m: Message)
    requires m.Fits() && Frame(p) == Encode(m)
    ensures PacketType(p) == m.kind
  {
    FieldsOfEncode(m);
    assert p[2] == Frame(p)[2];
  }

  lemma {:induction false} ObservedPair(events: seq<Event>, a: Observation, b: Observation, rest: seq<Observation>)
    requires Observe(events) == [a, b] + rest
    ensures |events| >= 2 && ObserveOne(events[0]) == a && ObserveOne(events[1]) == b
    ensures Observe(events[2..]) == rest
  {
    PairSplits(a, b, rest);
    ObservedFirst(events, a, [b] + rest);
    ObservedFirst(events[1..], b, rest);
    DropTwo(events);
  }

  lemma PairSplits<T>(a: T, b: T, rest: seq<T>)
    ensures [a, b] + rest == [a] + ([b] + rest)
  {
  }

  lemma DropTwo<T>(s: seq<T>)
    requires |s| >= 2
    ensures s[1..][1..] == s[2..]
  {
  }

  lemma {:induction false} ObservedFirst(events: seq<Event>, a: Observation, rest: seq<Observation>)
    requires Observe(events) == [a] + rest
    ensures events != [] && ObserveOne(events[0]) == a && Observe(events[1..]) == rest
  {
    assert events != [];
    assert Observe(events)[1..] == rest;
  }

  /** Of two events that are a write and a callback, what is sent and whether the flag is set. */
  lemma PairSent(auth: bool, events: seq<Event>, frame: seq<Byte>, kind: Byte)
    requires |events| >= 2 && events[0].Write? && events[1].Callback?
    requires Frame(events[1].packet) == frame && PacketType(events[1].packet) == kind
    ensures var auth' := auth || kind == TYPE_INIT;
            && SentOf(auth, events) == (if auth' then [frame] else []) + SentOf(auth', events[2..])
            && AuthAfter(auth, events) == AuthAfter(auth', events[2..])
  {
    var later := events[1..];
    assert later[1..] == events[2..] && later[0] == events[1];
    assert SentOf(auth, events) == [] + SentOf(auth, later);
  }

  /** The frames of one more message. */
  lemma PassedCons(auth: bool, m: Message, msgs: seq<Message>)
    requires m.Fits() && AllSmall(msgs)
    ensures AllSmall([m] + msgs)
    ensures AllSmall(Passed(auth, [m] + msgs)) && AllSmall(Passed(auth || m.kind == TYPE_INIT, msgs))
    ensures var auth' := auth || m.kind == TYPE_INIT;
            Frames(Passed(auth, [m] + msgs)) == (if auth' then [Encode(m)] else []) + Frames(Passed(auth', msgs))
    ensures HasInit([m] + msgs) == (m.kind == TYPE_INIT || HasInit(msgs))
  {
    assert ([m] + msgs)[1..] == msgs;
    FromInitSmall(msgs);
    FromInitSmall([m] + msgs);
    if auth || m.kind == TYPE_INIT { FramesCons(m, msgs); }
  }

  lemma FramesCons(m: Message, msgs: seq<Message>)
    requires m.Fits() && AllSmall(msgs)
    ensures AllSmall([m] + msgs) && Frames([m] + msgs) == [Encode(m)] + Frames(msgs)
  {
  }

  /** Of observed frames a session dispatches those it passes, and INIT sets its flag. */
  lemma {:induction false} ObservedSent(auth: bool, events: seq<Event>, chunks: seq<Chunk>)
    requires AllFit(chunks) && Observe(events) == Expected(chunks)
    ensures AllSmall(Passed(auth, Messages(chunks)))
    ensures SentOf(auth, events) == Frames(Passed(auth, Messages(chunks)))
    ensures AuthAfter(auth, events) == (auth || HasInit(Messages(chunks)))
    decreases |chunks|
  {
    if chunks == [] {
      assert events == [];
    } else {
      var m := chunks[0].msg;
      ObservedPair(events, Sent(Reply(m)), Got(Encode(m)), Expected(chunks[1..]));
      KindOfFrame(events[1].packet, m);
      PairSent(auth, events, Encode(m), m.kind);
      ObservedSent(auth || m.kind == TYPE_INIT, events[2..], chunks[1..]);
      ChunksFit(chunks[1..]);
      PassedCons(auth, m, Messages(chunks[1..]));
    }
  }

  lemma {:induction false} FromInitSmall(msgs: seq<Message>)
    requires AllSmall(msgs)
    ensures AllSmall(FromInit(msgs))
  {
    if msgs != [] && msgs[0].kind != TYPE_INIT { FromInitSmall(msgs[1..]); }
  }

  // ---------------------------------------------------------------------
  // Every run, every grouping
  // ---------------------------------------------------------------------

  /** One read's worth of whole frames, with noise around them. */
  datatype Group = Group(chunks: seq<Chunk>, tail: seq<Byte>)

  /** The reads of a session are these groups of frames. */
  ghost predicate Carries(groups: seq<Group>, inputs: seq<seq<Byte>>) {
    && |groups| == |inputs|
    && forall k :: 0 <= k < |groups| ==> IsGroup(groups[k], inputs[k])
  }

  ghost predicate IsGroup(g: Group, bytes: seq<Byte>) {
    AllFit(g.chunks) && Quiet(g.tail) && bytes == Stream(g.chunks, g.tail)
  }

  function AllMessages(groups: seq<Group>): seq<Message> {
    if groups == [] then [] else AllMessages(groups[..|groups| - 1]) + Messages(groups[|groups| - 1].chunks)
  }

  /** The frames sent are those of the messages from the first INIT on, and the flag says it came. */
  ghost predicate Refines(msgs: seq<Message>, sent: seq<seq<Byte>>, auth: bool) {
    AllSmall(FromInit(msgs)) && sent == Frames(FromInit(msgs)) && auth == HasInit(msgs)
  }

  ghost predicate Faithful(trace: seq<Output>, fd: int, auth: bool) {
    forall groups: seq<Group> :: Carries(groups, ReadsSince(trace, fd)) ==>
      Refines(AllMessages(groups), SentSince(trace, fd), auth)
  }

  lemma CarriesSnoc(groups: seq<Group>, inputs: seq<seq<Byte>>, bytes: seq<Byte>)
    requires Carries(groups, inputs + [bytes])
    ensures groups != [] && Carries(groups[..|groups| - 1], inputs) && IsGroup(groups[|groups| - 1], bytes)
  {
    var n := |groups| - 1;
    assert (inputs + [bytes])[n] == bytes;
    forall k | 0 <= k < n ensures IsGroup(groups[..n][k], inputs[k]) {
      assert (inputs + [bytes])[k] == inputs[k];
    }
  }

  lemma FramesAppend(a: seq<Message>, b: seq<Message>)
    requires AllSmall(a) && AllSmall(b)
    ensures AllSmall(a + b) && Frames(a + b) == Frames(a) + Frames(b)
  {
  }

  /** More messages, and what the session makes of them. */
  lemma RefinesMore(a: seq<Message>, sent: seq<seq<Byte>>, auth: bool,
                    b: seq<Message>, more: seq<seq<Byte>>, auth': bool)
    requires Refines(a, sent, auth)
    requires AllSmall(Passed(auth, b)) && more == Frames(Passed(auth, b)) && auth' == (auth || HasInit(b))
    ensures Refines(a + b, sent + more, auth')
  {
    FromInitAppend(a, b);
    FramesAppend(FromInit(a), Passed(auth, b));
  }

  lemma {:induction false} GroupHandled(g: Group, bytes: seq<Byte>, run: Calls, auth: bool)
    requires IsGroup(g, bytes) && IsRun(bytes, 0, run)
    ensures var msgs, events := Messages(g.chunks), Events(run);
            && AllSmall(Passed(auth, msgs)) && SentOf(auth, events) == Frames(Passed(auth, msgs))
            && AuthAfter(auth, events) == (auth || HasInit(msgs))
  {
    assert bytes[0..] == bytes;
    RoundTrip(bytes, 0, run, g.chunks, g.tail);
    ObservedSent(auth, Events(run), g.chunks);
  }

  /** A read handled by the parser keeps the session faithful. */
  lemma {:induction false} DataFaithful(trace: seq<Output>, fd: int, sid: nat, auth: bool, bytes: seq<Byte>, run: Calls)
    requires Faithful(trace, fd, auth) && IsRun(bytes, 0, run)
    ensures Faithful(trace + [Read(fd, bytes)] + Handle(fd, sid, auth, Events(run)), fd, AuthAfter(auth, Events(run)))
  {
    var read := trace + [Read(fd, bytes)];
    var after := read + Handle(fd, sid, auth, Events(run));
    OutputSnoc(trace, Read(fd, bytes), fd);
    HandleSends(read, fd, sid, auth, Events(run), fd);
    forall groups: seq<Group> | Carries(groups, ReadsSince(after, fd))
      ensures Refines(AllMessages(groups), SentSince(after, fd), AuthAfter(auth, Events(run)))
    {
      var n := |groups| - 1;
      CarriesSnoc(groups, ReadsSince(trace, fd), bytes);
      GroupHandled(groups[n], bytes, run, auth);
      RefinesMore(AllMessages(groups[..n]), SentSince(trace, fd), auth,
                  Messages(groups[n].chunks), SentOf(auth, Events(run)), AuthAfter(auth, Events(run)));
    }
  }

  /** A read too short for a frame, or without data, carries no message. */
  lemma ShortFaithful(trace: seq<Output>, fd: int, auth: bool, bytes: seq<Byte>)
    requires Faithful(trace, fd, auth) && |bytes| < MIN_SIZE
    ensures Faithful(trace + [Read(fd, bytes)], fd, auth)
  {
    var after := trace + [Read(fd, bytes)];
    OutputSnoc(trace, Read(fd, bytes), fd);
    forall groups: seq<Group> | Carries(groups, ReadsSince(after, fd))
      ensures Refines(AllMessages(groups), SentSince(after, fd), auth)
    {
      var n := |groups| - 1;
      CarriesSnoc(groups, ReadsSince(trace, fd), bytes);
      ShortGroup(groups[n], bytes);
      NothingMore(groups);
      assert Refines(AllMessages(groups[..n]), SentSince(trace, fd), auth);
    }
  }

  lemma NothingMore(groups: seq<Group>)
    requires groups != [] && groups[|groups| - 1].chunks == []
    ensures AllMessages(groups) == AllMessages(groups[..|groups| - 1])
  {
    assert Messages([]) == [];
  }

  lemma ShortGroup(g: Group, bytes: seq<Byte>)
    requires IsGroup(g, bytes) && |bytes| < MIN_SIZE
    ensures g.chunks == []
  {
  }

  lemma AcceptFaithful(trace: seq<Output>, fd: int)
    ensures Faithful(trace + [Accept(fd)], fd, false)
  {
    OutputSnoc(trace, Accept(fd), fd);
    forall groups: seq<Group> | Carries(groups, ReadsSince(trace + [Accept(fd)], fd))
      ensures Refines(AllMessages(groups), SentSince(trace + [Accept(fd)], fd), false)
    {
      assert groups == [];
    }
  }

  lemma SameFaithful(trace: seq<Output>, after: seq<Output>, fd: int, auth: bool)
    requires Faithful(trace, fd, auth)
    requires ReadsSince(after, fd) == ReadsSince(trace, fd) && SentSince(after, fd) == SentSince(trace, fd)
    ensures Faithful(after, fd, auth)
  {
  }

  ghost predicate SessionsFaithful(tasks: seq<Task>, trace: seq<Output>) {
    forall i :: 0 <= i < |tasks| && tasks[i].Serving? ==>
      Faithful(trace, tasks[i].session.fd, tasks[i].session.auth)
  }

  lemma CloseFaithful(tasks: seq<Task>, trace: seq<Output>, fd: int)
    requires SessionsFaithful(tasks, trace)
    ensures SessionsFaithful(tasks, trace + [Close(fd)])
  {
    forall i | 0 <= i < |tasks| && tasks[i].Serving?
      ensures Faithful(trace + [Close(fd)], tasks[i].session.fd, tasks[i].session.auth)
    {
      OutputSnoc(trace, Close(fd), tasks[i].session.fd);
      SameFaithful(trace, trace + [Close(fd)], tasks[i].session.fd, tasks[i].session.auth);
    }
  }

  lemma LoopTopFaithful(s: State, i: nat, session: Session, now: int)
    requires i < |s.tasks| && SessionsFaithful(s.tasks[i := Serving(session)], s.trace)
    ensures var after := LoopTop(s, i, session, now); SessionsFaithful(after.tasks, after.trace)
  {
    var entered := s.tasks[i := Serving(session)];
    var after := LoopTop(s, i, session, now);
    assert forall k :: 0 <= k < |after.tasks| && after.tasks[k].Serving? ==>
      entered[k].Serving? && after.tasks[k].session.fd == entered[k].session.fd
      && after.tasks[k].session.auth == entered[k].session.auth;
    CloseFaithful(entered, s.trace, session.fd);
  }

  lemma OthersRead(tasks: seq<Task>, trace: seq<Output>, i: nat, session: Session, data: seq<Byte>)
    requires FdsKept(tasks, trace) && SessionsFaithful(tasks, trace) && i < |tasks| && Serves(tasks[i], session.fd)
    requires Faithful(trace + [Read(session.fd, data)], session.fd, session.auth)
    ensures SessionsFaithful(tasks[i := Serving(session)], trace + [Read(session.fd, data)])
  {
    var tasks' := tasks[i := Serving(session)];
    var after := trace + [Read(session.fd, data)];
    forall k | 0 <= k < |tasks'| && tasks'[k].Serving?
      ensures Faithful(after, tasks'[k].session.fd, tasks'[k].session.auth)
    {
      if k != i {
        OutputSnoc(trace, Read(session.fd, data), tasks[k].session.fd);
        SameFaithful(trace, after, tasks[k].session.fd, tasks[k].session.auth);
      }
    }
  }

  lemma OthersHandled(tasks: seq<Task>, trace: seq<Output>, i: nat, session: Session,
                      bytes: seq<Byte>, events: seq<Event>)
    requires FdsKept(tasks, trace) && SessionsFaithful(tasks, trace) && i < |tasks| && tasks[i] == Serving(session)
    requires Faithful(trace + [Read(session.fd, bytes)] + Handle(session.fd, session.sid, session.auth, events),
                      session.fd, AuthAfter(session.auth, events))
    ensures SessionsFaithful(tasks[i := Serving(session.(auth := AuthAfter(session.auth, events)))],
                             trace + [Read(session.fd, bytes)] + Handle(session.fd, session.sid, session.auth, events))
  {
    var tasks' := tasks[i := Serving(session.(auth := AuthAfter(session.auth, events)))];
    var read := trace + [Read(session.fd, bytes)];
    var after := read + Handle(session.fd, session.sid, session.auth, events);
    forall k | 0 <= k < |tasks'| && tasks'[k].Serving?
      ensures Faithful(after, tasks'[k].session.fd, tasks'[k].session.auth)
    {
      if k != i {
        var g := tasks[k].session.fd;
        OutputSnoc(trace, Read(session.fd, bytes), g);
        HandleSends(read, session.fd, session.sid, session.auth, events, g);
        SameFaithful(trace, after, g, tasks[k].session.auth);
      }
    }
  }

  lemma WakeFaithful(s: State, i: nat, input: Input, now: int)
    requires FdsKept(s.tasks, s.trace) && SessionsFaithful(s.tasks, s.trace)
    requires i < |s.tasks| && s.tasks[i].Serving? && Possible(input)
    ensures var after := WakeStep(s, i, input, now); SessionsFaithful(after.tasks, after.trace)
  {
    var session := s.tasks[i].session;
    if input.Data? && |input.bytes| >= MIN_SIZE {
      var events := Events(input.run);
      DataFaithful(s.trace, session.fd, session.sid, session.auth, input.bytes, input.run);
      OthersHandled(s.tasks, s.trace, i, session, input.bytes, events);
      LoopTopFaithful(s.(trace := s.trace + [Read(session.fd, input.bytes)]
                                  + Handle(session.fd, session.sid, session.auth, events)),
                      i, session.(auth := AuthAfter(session.auth, events)), now);
    } else {
      var data := if input.Data? then input.bytes else [];
      ShortFaithful(s.trace, session.fd, session.auth, data);
      OthersRead(s.tasks, s.trace, i, session, data);
      assert s.tasks[i := Serving(session)] == s.tasks;
      var read := s.(trace := s.trace + [Read(session.fd, data)]);
      LoopTopFaithful(read, i, session, now);
      CloseFaithful(s.tasks, read.trace, session.fd);
    }
  }

  lemma ConnectFaithful(s: State, fd: int, sid: nat, accepted: int, now: int)
    requires IdleInPool(s) && FdsKept(s.tasks, s.trace) && SessionsFaithful(s.tasks, s.trace) && fd !in Open(s.trace)
    ensures var after := ConnectStep(s, fd, sid, accepted, now); SessionsFaithful(after.tasks, after.trace)
  {
    var accepting := s.trace + [Accept(fd)];
    forall k | 0 <= k < |s.tasks| && s.tasks[k].Serving?
      ensures Faithful(accepting, s.tasks[k].session.fd, s.tasks[k].session.auth)
    {
      OutputSnoc(s.trace, Accept(fd), s.tasks[k].session.fd);
      SameFaithful(s.trace, accepting, s.tasks[k].session.fd, s.tasks[k].session.auth);
    }
    if s.idle == [] {
      CloseFaithful(s.tasks, accepting, fd);
      assert accepting + [Close(fd)] == s.trace + [Accept(fd), Close(fd)];
    } else {
      var n := |s.idle| - 1;
      AcceptFaithful(s.trace, fd);
      LoopTopFaithful(s.(idle := s.idle[..n], trace := accepting), s.idle[n],
                      Session(fd, sid, false, accepted, now, 0), now);
    }
  }

  lemma {:induction false} AllFaithful(n: nat, clock: int, steps: seq<Step>)
    ensures var s := After(n, clock, steps); SessionsFaithful(s.tasks, s.trace)
  {
    if steps != [] {
      var before := After(n, clock, steps[..|steps| - 1]);
      AllFaithful(n, clock, steps[..|steps| - 1]);
      FdsConserved(n, clock, steps[..|steps| - 1]);
      if Enabled(before, steps[|steps| - 1]) {
        match steps[|steps| - 1]
        case Connect(fd, sid, accepted, now) => ConnectFaithful(before, fd, sid, accepted, now);
        case Wake(i, input, now) => WakeFaithful(before, i, input, now);
      }
    }
  }

  /**
   * In every run, if what a session has read is whole frames in noise, grouped in any way into
   * reads, then it has dispatched exactly those frames from the first INIT on, in order, and it is
   * authorised exactly when an INIT came. The other sessions' steps in between do not matter.
   */
  lemma {:induction false} SessionDispatchesFromInit(n: nat, clock: int, steps: seq<Step>, i: nat, groups: seq<Group>)
    requires var s := After(n, clock, steps);
             i < |s.tasks| && s.tasks[i].Serving? && Carries(groups, ReadsSince(s.trace, s.tasks[i].session.fd))
    ensures var s := After(n, clock, steps);
            Refines(AllMessages(groups), SentSince(s.trace, s.tasks[i].session.fd), s.tasks[i].session.auth)
  {
    AllFaithful(n, clock, steps);
  }
}
