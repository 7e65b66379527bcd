/**
 * What one step of a run does, read off the outputs: what a read leads to, when a session ends,
 * and under which sid its messages go out.
 */
module SessionSteps {
  import opened Crc16
  import opened EasnPackage
  import opened PacketParser
  import opened ParserDelivery
  import opened ServerSpec
  import opened ServerTheorems

  // ---------------------------------------------------------------------
  // One run of the parser in a session
  // ---------------------------------------------------------------------

  /** The packets a run of the parser hands over. */
  function Packets(events: seq<Event>): seq<Packet> {
    if events == [] then []
    else (if events[0].Callback? then [events[0].packet] else []) + Packets(events[1..])
  }

  /** The replies it writes. */
  function Replies(events: seq<Event>): seq<seq<Byte>> {
    if events == [] then []
    else (if events[0].Write? then [events[0].bytes] else []) + Replies(events[1..])
  }

  function Dispatched(outs: seq<Output>): seq<Packet> {
    if outs == [] then []
    else (if outs[0].Dispatch? then [outs[0].packet] else []) + Dispatched(outs[1..])
  }

  function Acked(outs: seq<Output>): seq<seq<Byte>> {
    if outs == [] then []
    else (if outs[0].Ack? then [outs[0].bytes] else []) + Acked(outs[1..])
  }

  /** The packets from the first one of type 1 on. */
  function SinceInit(packets: seq<Packet>): seq<Packet> {
    if packets == [] then []
    else if packets[0][2] == 1 then packets
    else SinceInit(packets[1..])
  }

  predicate InitAmong(packets: seq<Packet>) {
    packets != [] && (packets[0][2] == 1 || InitAmong(packets[1..]))
  }

  /** Replies on fd, and dispatches from fd under sid, and nothing else. */
  predicate OnSession(outs: seq<Output>, fd: int, sid: nat) {
    forall k :: 0 <= k < |outs| ==>
      outs[k].fd == fd && (outs[k].Ack? || (outs[k].Dispatch? && outs[k].sid == sid))
  }

  lemma {:induction false} DispatchedAppend(a: seq<Output>, b: seq<Output>)
    ensures Dispatched(a + b) == Dispatched(a) + Dispatched(b)
  {
    if a == [] {
      assert a + b == b;
    } else {
      assert (a + b)[1..] == a[1..] + b;
      DispatchedAppend(a[1..], b);
    }
  }

  lemma {:induction false} AckedAppend(a: seq<Output>, b: seq<Output>)
    ensures Acked(a + b) == Acked(a) + Acked(b)
  {
    if a == [] {
      assert a + b == b;
    } else {
      assert (a + b)[1..] == a[1..] + b;
      AckedAppend(a[1..], b);
    }
  }

  lemma OneOutput(fd: int, sid: nat, auth: bool, event: Event)
    ensures var outs := HandleOne(fd, sid, auth, event);
            && OnSession(outs, fd, sid)
            && Acked(outs) == (if event.Write? then [event.bytes] else [])
            && Dispatched(outs)
               == (if event.Callback? && (auth || event.packet[2] == 1) then [event.packet] else [])
  {
    var outs := HandleOne(fd, sid, auth, event);
    if outs != [] { assert outs[1..] == []; }
  }

  /**
   * Of any events, a session writes the replies and dispatches the packets: all of them when it is
   * authorised, else those from the first of type 1 on; and that one authorises it.
   */
  lemma {:induction false} HandleOutputs(fd: int, sid: nat, auth: bool, events: seq<Event>)
    ensures var outs := Handle(fd, sid, auth, events);
            && OnSession(outs, fd, sid) && Acked(outs) == Replies(events)
            && Dispatched(outs) == (if auth then Packets(events) else SinceInit(Packets(events)))
    ensures AuthAfter(auth, events) == (auth || InitAmong(Packets(events)))
    decreases |events|
  {
    if events != [] {
      var auth' := AuthOne(auth, events[0]);
      var head, rest := HandleOne(fd, sid, auth, events[0]), Handle(fd, sid, auth', events[1..]);
      var packets := Packets(events[1..]);
      HandleOutputs(fd, sid, auth', events[1..]);
      OneOutput(fd, sid, auth, events[0]);
      DispatchedAppend(head, rest);
      AckedAppend(head, rest);
      OnSessionAppend(head, rest, fd, sid);
      if events[0].Callback? {
        PacketsCons(events[0].packet, packets);
      } else {
        assert [] + packets == packets;
      }
    }
  }

  lemma OnSessionAppend(a: seq<Output>, b: seq<Output>, fd: int, sid: nat)
    requires OnSession(a, fd, sid) && OnSession(b, fd, sid)
    ensures OnSession(a + b, fd, sid)
  {
  }

  lemma PacketsCons(p: Packet, packets: seq<Packet>)
    ensures SinceInit([p] + packets) == (if p[2] == 1 then [p] + packets else SinceInit(packets))
    ensures InitAmong([p] + packets) == (p[2] == 1 || InitAmong(packets))
  {
    assert ([p] + packets)[1..] == packets;
  }

  /** A dispatch comes right after the reply with code 0 to its packet, on the same descriptor. */
  predicate AckedAt(outs: seq<Output>, k: nat)
    requires k < |outs|
  {
    outs[k].Dispatch? ==>
      k > 0 && outs[k - 1].Ack? && outs[k - 1].fd == outs[k].fd && AckOf(outs[k - 1].bytes, outs[k].packet, 0)
  }

  ghost predicate AckedFirst(outs: seq<Output>) {
    forall k :: 0 <= k < |outs| ==> AckedAt(outs, k)
  }

  lemma AckedFirstAppend(a: seq<Output>, b: seq<Output>)
    requires AckedFirst(a) && AckedFirst(b)
    ensures AckedFirst(a + b)
  {
    var r := a + b;
    forall k | 0 <= k < |r| ensures AckedAt(r, k) {
      if k < |a| {
        assert AckedAt(a, k);
        if k > 0 { assert r[k - 1] == a[k - 1]; }
      } else {
        assert AckedAt(b, k - |a|);
        if k > |a| { assert r[k - 1] == b[k - |a| - 1]; }
      }
    }
  }

  lemma {:induction false} PairAcked(fd: int, sid: nat, auth: bool, w: Packet)
    ensures AckedFirst(Handle(fd, sid, auth, [Write(AckBytes(w, SUCCESS)), Callback(w)]))
  {
    AckBytesAre(w, SUCCESS, 0);
    PairHandled(fd, sid, auth, AckBytes(w, SUCCESS), w);
  }

  lemma {:induction false} PairHandled(fd: int, sid: nat, auth: bool, bytes: seq<Byte>, w: Packet)
    requires AckOf(bytes, w, 0)
    ensures AckedFirst(Handle(fd, sid, auth, [Write(bytes), Callback(w)]))
  {
    var ack, call := Write(bytes), Callback(w);
    HandleAppend(fd, sid, auth, [ack], [call]);
    HandleSingle(fd, sid, auth, ack);
    HandleSingle(fd, sid, AuthAfter(auth, [ack]), call);
    assert [ack] + [call] == [ack, call];
  }

  lemma {:induction false} RunAcked(fd: int, sid: nat, auth: bool, t: Calls)
    ensures AckedFirst(Handle(fd, sid, auth, Events(t)))
    decreases t
  {
    if t.Accepted? {
      var pair := [Write(AckBytes(t.window, SUCCESS)), Callback(t.window)];
      PairAcked(fd, sid, auth, t.window);
      HandleAppend(fd, sid, auth, pair, Events(t.rest));
      RunAcked(fd, sid, AuthAfter(auth, pair), t.rest);
      AckedFirstAppend(Handle(fd, sid, auth, pair), Handle(fd, sid, AuthAfter(auth, pair), Events(t.rest)));
    } else if t.Rejected? {
      var reply := [Write(AckBytes(t.window, CRC_ERROR))];
      var auth' := AuthAfter(auth, reply);
      var auth'' := AuthAfter(auth, reply + Events(t.retry));
      HandleSingle(fd, sid, auth, reply[0]);
      HandleAppend(fd, sid, auth, reply, Events(t.retry));
      RunAcked(fd, sid, auth', t.retry);
      AckedFirstAppend(Handle(fd, sid, auth, reply), Handle(fd, sid, auth', Events(t.retry)));
      HandleAppend(fd, sid, auth, reply + Events(t.retry), Events(t.rest));
      RunAcked(fd, sid, auth'', t.rest);
      AckedFirstAppend(Handle(fd, sid, auth, reply + Events(t.retry)), Handle(fd, sid, auth'', Events(t.rest)));
    }
  }

  // ---------------------------------------------------------------------
  // The end of a poll
  // ---------------------------------------------------------------------

  /** What the parser makes of the bytes of a read, if they are enough for a packet. */
  function EventsOf(input: Input): seq<Event> {
    if input.Data? && |input.bytes| >= 11 then Events(input.run) else []
  }

  function BytesOf(input: Input): seq<Byte> {
    if input.Data? then input.bytes else []
  }

  /**
   * A session ends when its client has closed or failed, when it gets nothing to read before it is
   * authorised, and when it is not authorised 10 s after its accept.
   */
  predicate Ends(session: Session, was: bool, input: Input, auth: bool, now: int) {
    || input.Eof? || input.Error?
    || (input.Again? && !was)
    || (input.Data? && !auth && now >= session.accepted + 10)
  }

  /** Task i is parked and pushed, or polls again for as long as it may; the other tasks stay as they are. */
  predicate LeftOrPolls(s: State, after: State, i: nat, session: Session, ends: bool, auth: bool, now: int)
    requires i < |s.tasks|
  {
    && after.clock == now
    && if ends then after.tasks == s.tasks[i := Parked] && after.idle == s.idle + [i]
       else
         && after.idle == s.idle
         && after.tasks == s.tasks[i := Serving(Session(session.fd, session.sid, auth, session.accepted, now,
                                                        if auth then -1 else (session.accepted + 10 - now) * 1000))]
  }

  function CloseIf(ends: bool, fd: int): seq<Output> {
    if ends then [Close(fd)] else []
  }

  lemma LoopTopOutcome(s: State, i: nat, session: Session, now: int)
    requires i < |s.tasks|
    ensures var ends := !session.auth && now >= session.accepted + 10;
            var after := LoopTop(s, i, session, now);
            && LeftOrPolls(s, after, i, session, ends, session.auth, now)
            && after.trace == s.trace + CloseIf(ends, session.fd)
  {
  }

  lemma DataOutcome(s: State, i: nat, bytes: seq<Byte>, run: Calls, now: int)
    requires i < |s.tasks| && s.tasks[i].Serving?
    ensures var session := s.tasks[i].session;
            var events := EventsOf(Data(bytes, run));
            var auth := AuthAfter(session.auth, events);
            var ends := !auth && now >= session.accepted + 10;
            var after := WakeStep(s, i, Data(bytes, run), now);
            && LeftOrPolls(s, after, i, session, ends, auth, now)
            && after.trace == s.trace + [Read(session.fd, bytes)]
                            + Handle(session.fd, session.sid, session.auth, events) + CloseIf(ends, session.fd)
  {
    var session := s.tasks[i].session;
    var read := s.(trace := s.trace + [Read(session.fd, bytes)]);
    if |bytes| < 11 {
      LoopTopOutcome(read, i, session, now);
      assert read.trace + [] == read.trace;
    } else {
      var events := Events(run);
      LoopTopOutcome(read.(trace := read.trace + Handle(session.fd, session.sid, session.auth, events)), i,
                     session.(auth := AuthAfter(session.auth, events)), now);
    }
  }

  lemma NothingOutcome(s: State, i: nat, input: Input, now: int)
    requires i < |s.tasks| && s.tasks[i].Serving? && !input.Data?
    ensures var session := s.tasks[i].session;
            var ends := Ends(session, session.auth, input, session.auth, now);
            var after := WakeStep(s, i, input, now);
            && LeftOrPolls(s, after, i, session, ends, session.auth, now)
            && after.trace == s.trace + [Read(session.fd, [])] + CloseIf(ends, session.fd)
  {
    if input.Again? {
      LoopTopOutcome(s.(trace := s.trace + [Read(s.tasks[i].session.fd, [])]), i, s.tasks[i].session, now);
    }
  }

  lemma {:induction false} WakeOutcome(s: State, i: nat, input: Input, now: int)
    requires i < |s.tasks| && s.tasks[i].Serving?
    ensures var session := s.tasks[i].session;
            var auth := AuthAfter(session.auth, EventsOf(input));
            var ends := Ends(session, session.auth, input, auth, now);
            var after := WakeStep(s, i, input, now);
            && LeftOrPolls(s, after, i, session, ends, auth, now)
            && after.trace == s.trace + [Read(session.fd, BytesOf(input))]
                            + Handle(session.fd, session.sid, session.auth, EventsOf(input)) + CloseIf(ends, session.fd)
  {
    if input.Data? {
      DataOutcome(s, i, input.bytes, input.run, now);
    } else {
      var read := s.trace + [Read(s.tasks[i].session.fd, [])];
      NothingOutcome(s, i, input, now);
      assert read + [] == read;
    }
  }

  /**
   * In every run, the return of a poll leads to a read, to the replies and dispatches of the packets
   * read, all on the session's own descriptor and under its own sid, and to nothing else, except
   * that the session closes and its task goes back on the stack exactly when it ends.
   */
  lemma {:induction false} SessionEndsIff(n: nat, clock: int, steps: seq<Step>, i: nat, input: Input, now: int)
    returns (handled: seq<Output>)
    requires Enabled(After(n, clock, steps), Wake(i, input, now))
    ensures var s := After(n, clock, steps);
            var after := After(n, clock, steps + [Wake(i, input, now)]);
            var session := s.tasks[i].session;
            var was := session.fd in Authed(s.trace);
            var packets := Packets(EventsOf(input));
            var auth := was || InitAmong(packets);
            var ends := Ends(session, was, input, auth, now);
            && after.trace == s.trace + [Read(session.fd, BytesOf(input))] + handled + CloseIf(ends, session.fd)
            && OnSession(handled, session.fd, session.sid) && Acked(handled) == Replies(EventsOf(input))
            && Dispatched(handled) == (if was then packets else SinceInit(packets)) && AckedFirst(handled)
            && LeftOrPolls(s, after, i, session, ends, auth, now)
  {
    var s := After(n, clock, steps);
    var session := s.tasks[i].session;
    FdsConserved(n, clock, steps);
    RunExtends(n, clock, steps, Wake(i, input, now));
    WakeOutcome(s, i, input, now);
    handled := Handle(session.fd, session.sid, session.auth, EventsOf(input));
    HandleOutputs(session.fd, session.sid, session.auth, EventsOf(input));
    RunAcked(session.fd, session.sid, session.auth, if EventsOf(input) == [] then Ended else input.run);
  }

  // ---------------------------------------------------------------------
  // Where a session comes from
  // ---------------------------------------------------------------------

  /** The last accept of fd before k is at p. */
  predicate AcceptedAt(trace: seq<Output>, p: nat, fd: int, k: nat) {
    && p < k <= |trace| && trace[p] == Accept(fd)
    && forall m :: p < m < k ==> trace[m] != Accept(fd)
  }

  /** A run by its outputs, its steps, and where in the outputs each step begins and the last one ends. */
  datatype Record = Record(trace: seq<Output>, steps: seq<Step>, marks: seq<nat>)

  predicate Marked(r: Record) {
    |r.marks| == |r.steps| + 1 && r.marks[|r.steps|] == |r.trace|
  }

  /** Step j has put out something, and accepted fd with the given sid; no other has accepted fd until k. */
  ghost predicate OpenedBy(r: Record, j: nat, fd: int, sid: nat, k: nat) {
    && j < |r.steps| && |r.marks| == |r.steps| + 1 && r.marks[j] < r.marks[j + 1]
    && r.steps[j].Connect? && r.steps[j].fd == fd && r.steps[j].sid == sid
    && AcceptedAt(r.trace, r.marks[j], fd, k)
  }

  ghost predicate SessionOpenedBy(r: Record, session: Session, j: nat) {
    OpenedBy(r, j, session.fd, session.sid, |r.trace|) && r.steps[j].accepted == session.accepted
  }

  ghost predicate SessionOpened(r: Record, session: Session) {
    exists j: nat :: SessionOpenedBy(r, session, j)
  }

  /** Every serving task's session was opened by a step, with its sid and its time of accept. */
  ghost predicate SessionsOpened(r: Record, tasks: seq<Task>) {
    forall i :: 0 <= i < |tasks| && tasks[i].Serving? ==> SessionOpened(r, tasks[i].session)
  }

  ghost predicate DispatchOpened(r: Record, k: nat, out: Output) {
    out.Dispatch? ==> exists j: nat :: OpenedBy(r, j, out.fd, out.sid, k)
  }

  /** And so was the session of every dispatch. */
  ghost predicate DispatchesOpened(r: Record) {
    forall k :: 0 <= k < |r.trace| ==> DispatchOpened(r, k, r.trace[k])
  }

  function Extend(r: Record, step: Step, news: seq<Output>): Record {
    Record(r.trace + news, r.steps + [step], r.marks + [|r.trace + news|])
  }

  lemma OpenedLater(r: Record, step: Step, news: seq<Output>, j: nat, fd: int, sid: nat, k: nat, later: nat)
    requires Marked(r) && OpenedBy(r, j, fd, sid, k)
    requires later == k || (k == |r.trace| <= later <= k + |news| && Accept(fd) !in news)
    ensures OpenedBy(Extend(r, step, news), j, fd, sid, later)
  {
  }

  /** The task serves the same connection as before. */
  predicate SameSession(before: Task, after: Task) {
    && before.Serving? && after.Serving? && after.session.fd == before.session.fd
    && after.session.sid == before.session.sid && after.session.accepted == before.session.accepted
  }

  /** A session goes on being opened by its step while others, or it itself, put out more. */
  lemma SessionLater(r: Record, step: Step, news: seq<Output>, before: Task, after: Task)
    requires Marked(r) && SameSession(before, after) && SessionOpened(r, before.session)
    requires Accept(before.session.fd) !in news
    ensures SessionOpened(Extend(r, step, news), after.session)
  {
    var j: nat :| SessionOpenedBy(r, before.session, j);
    OpenedLater(r, step, news, j, before.session.fd, before.session.sid, |r.trace|, |r.trace| + |news|);
    assert SessionOpenedBy(Extend(r, step, news), after.session, j);
  }

  lemma FirstOpened(r: Record, step: Step, session: Session)
    requires Marked(r) && step.Connect?
    requires step.fd == session.fd && step.sid == session.sid && step.accepted == session.accepted
    ensures SessionOpened(Extend(r, step, [Accept(step.fd)]), session)
  {
    assert SessionOpenedBy(Extend(r, step, [Accept(step.fd)]), session, |r.steps|);
  }

  lemma DispatchOfSession(r: Record, step: Step, news: seq<Output>, session: Session, m: nat)
    requires Marked(r) && SessionOpened(r, session) && Accept(session.fd) !in news && m < |news|
    requires news[m].Dispatch? ==> news[m].fd == session.fd && news[m].sid == session.sid
    ensures DispatchOpened(Extend(r, step, news), |r.trace| + m, news[m])
  {
    var j: nat :| SessionOpenedBy(r, session, j);
    OpenedLater(r, step, news, j, session.fd, session.sid, |r.trace|, |r.trace| + m);
  }

  lemma DispatchStays(r: Record, step: Step, news: seq<Output>, k: nat)
    requires Marked(r) && k < |r.trace| && DispatchOpened(r, k, r.trace[k])
    ensures DispatchOpened(Extend(r, step, news), k, r.trace[k])
  {
    var out := r.trace[k];
    if out.Dispatch? {
      var j: nat :| OpenedBy(r, j, out.fd, out.sid, k);
      OpenedLater(r, step, news, j, out.fd, out.sid, k, k);
    }
  }

  lemma DispatchesLater(r: Record, step: Step, news: seq<Output>)
    requires Marked(r) && DispatchesOpened(r)
    requires forall m :: 0 <= m < |news| ==> DispatchOpened(Extend(r, step, news), |r.trace| + m, news[m])
    ensures DispatchesOpened(Extend(r, step, news))
  {
    var after := r.trace + news;
    forall k | 0 <= k < |after| ensures DispatchOpened(Extend(r, step, news), k, after[k]) {
      if k < |r.trace| {
        DispatchStays(r, step, news, k);
      } else {
        assert after[k] == news[k - |r.trace|];
      }
    }
  }

  /** Outputs that accept nothing, and dispatch only from the session's descriptor and under its sid. */
  ghost predicate NewsOf(news: seq<Output>, session: Session) {
    forall m :: 0 <= m < |news| ==> NewsItem(news[m], session)
  }

  predicate NewsItem(out: Output, session: Session) {
    !out.Accept? && (out.Dispatch? ==> out.fd == session.fd && out.sid == session.sid)
  }

  lemma {:induction false} WakeNews(n: nat, clock: int, steps: seq<Step>, i: nat, input: Input, now: int)
    returns (news: seq<Output>)
    requires Enabled(After(n, clock, steps), Wake(i, input, now))
    ensures var s := After(n, clock, steps); var after := After(n, clock, steps + [Wake(i, input, now)]);
            after.trace == s.trace + news && NewsOf(news, s.tasks[i].session) && SameSessions(s.tasks, after.tasks)
  {
    var s, after := After(n, clock, steps), After(n, clock, steps + [Wake(i, input, now)]);
    var session := s.tasks[i].session;
    var handled := SessionEndsIff(n, clock, steps, i, input, now);
    var was := session.fd in Authed(s.trace);
    var auth := was || InitAmong(Packets(EventsOf(input)));
    var ends := Ends(session, was, input, auth, now);
    news := PollNews(s.trace, after.trace, session, BytesOf(input), handled, ends);
    SameAfterPoll(s, after, i, ends, auth, now);
  }

  lemma {:induction false} PollNews(trace: seq<Output>, after: seq<Output>, session: Session,
                                    bytes: seq<Byte>, handled: seq<Output>, ends: bool) returns (news: seq<Output>)
    requires after == trace + [Read(session.fd, bytes)] + handled + CloseIf(ends, session.fd)
    requires OnSession(handled, session.fd, session.sid)
    ensures after == trace + news && NewsOf(news, session)
  {
    news := [Read(session.fd, bytes)] + handled + CloseIf(ends, session.fd);
    Regroup(trace, [Read(session.fd, bytes)], handled, CloseIf(ends, session.fd));
  }

  /** The tasks that serve after a step have served the same connections before. */
  ghost predicate SameSessions(before: seq<Task>, after: seq<Task>) {
    |after| == |before| && forall k :: 0 <= k < |before| && after[k].Serving? ==> SameSession(before[k], after[k])
  }

  lemma SameAfterPoll(s: State, after: State, i: nat, ends: bool, auth: bool, now: int)
    requires i < |s.tasks| && s.tasks[i].Serving? && LeftOrPolls(s, after, i, s.tasks[i].session, ends, auth, now)
    ensures SameSessions(s.tasks, after.tasks)
  {
  }

  lemma Regroup<T>(a: seq<T>, b: seq<T>, c: seq<T>, d: seq<T>)
    ensures a + b + c + d == a + (b + c + d)
  {
  }

  /** A poll's outputs keep everything opened. */
  lemma PollOpens(r: Record, step: Step, news: seq<Output>, before: seq<Task>, after: seq<Task>, i: nat)
    requires Marked(r) && SessionsOpened(r, before) && DispatchesOpened(r)
    requires i < |before| && before[i].Serving? && NewsOf(news, before[i].session) && SameSessions(before, after)
    ensures SessionsOpened(Extend(r, step, news), after) && DispatchesOpened(Extend(r, step, news))
  {
    NothingAccepted(news, before[i].session);
    forall k | 0 <= k < |after| && after[k].Serving? ensures SessionOpened(Extend(r, step, news), after[k].session) {
      assert SameSession(before[k], after[k]);
      SessionLater(r, step, news, before[k], after[k]);
    }
    forall m | 0 <= m < |news| ensures DispatchOpened(Extend(r, step, news), |r.trace| + m, news[m]) {
      assert NewsItem(news[m], before[i].session);
      DispatchOfSession(r, step, news, before[i].session, m);
    }
    DispatchesLater(r, step, news);
  }

  lemma NothingAccepted(news: seq<Output>, session: Session)
    requires NewsOf(news, session)
    ensures forall fd :: Accept(fd) !in news
  {
    assert forall m :: 0 <= m < |news| ==> NewsItem(news[m], session);
  }

  /** So does an accept of a descriptor that no task serves. */
  lemma AcceptOpens(r: Record, step: Step, news: seq<Output>, before: seq<Task>, after: seq<Task>)
    requires Marked(r) && SessionsOpened(r, before) && DispatchesOpened(r) && step.Connect?
    requires forall k :: 0 <= k < |before| && before[k].Serving? ==> before[k].session.fd != step.fd
    requires news == [Accept(step.fd)] || news == [Accept(step.fd), Close(step.fd)]
    requires |after| == |before|
    requires forall k :: 0 <= k < |after| && after[k].Serving? ==>
               after[k] == before[k] || TakenBy(news, step, after[k])
    ensures SessionsOpened(Extend(r, step, news), after) && DispatchesOpened(Extend(r, step, news))
  {
    forall k | 0 <= k < |after| && after[k].Serving? ensures SessionOpened(Extend(r, step, news), after[k].session) {
      if after[k] == before[k] {
        SessionLater(r, step, news, before[k], after[k]);
      } else {
        assert TakenBy(news, step, after[k]);
        FirstOpened(r, step, after[k].session);
      }
    }
    DispatchesLater(r, step, news);
  }

  /** The task has taken the connection of this step. */
  predicate TakenBy(news: seq<Output>, step: Step, task: Task)
    requires step.Connect?
  {
    && news == [Accept(step.fd)] && task.Serving? && task.session.fd == step.fd
    && task.session.sid == step.sid && task.session.accepted == step.accepted
  }

  // ---------------------------------------------------------------------
  // In every run
  // ---------------------------------------------------------------------

  ghost function Marks(n: nat, clock: int, steps: seq<Step>): seq<nat> {
    (if steps == [] then [] else Marks(n, clock, steps[..|steps| - 1])) + [|After(n, clock, steps).trace|]
  }

  ghost function RecordOf(n: nat, clock: int, steps: seq<Step>): Record {
    Record(After(n, clock, steps).trace, steps, Marks(n, clock, steps))
  }

  lemma {:induction false} MarksAt(n: nat, clock: int, steps: seq<Step>, j: nat)
    requires j <= |steps|
    ensures |Marks(n, clock, steps)| == |steps| + 1
    ensures Marks(n, clock, steps)[j] == |After(n, clock, steps[..j]).trace|
  {
    if steps != [] {
      var front := steps[..|steps| - 1];
      MarksAt(n, clock, front, if j < |steps| then j else 0);
      if j < |steps| { assert front[..j] == steps[..j]; } else { assert steps[..j] == steps; }
    } else {
      assert steps[..j] == steps;
    }
  }

  lemma RecordExtends(n: nat, clock: int, steps: seq<Step>, step: Step, news: seq<Output>)
    requires After(n, clock, steps + [step]).trace == After(n, clock, steps).trace + news
    ensures Marked(RecordOf(n, clock, steps))
    ensures RecordOf(n, clock, steps + [step]) == Extend(RecordOf(n, clock, steps), step, news)
  {
    MarksAt(n, clock, steps, |steps|);
    assert steps[..|steps|] == steps && (steps + [step])[..|steps|] == steps;
  }

  ghost predicate AllOpened(n: nat, clock: int, steps: seq<Step>) {
    var r := RecordOf(n, clock, steps);
    SessionsOpened(r, After(n, clock, steps).tasks) && DispatchesOpened(r)
  }

  lemma WakeOpens(n: nat, clock: int, steps: seq<Step>, i: nat, input: Input, now: int)
    requires AllOpened(n, clock, steps) && Enabled(After(n, clock, steps), Wake(i, input, now))
    ensures AllOpened(n, clock, steps + [Wake(i, input, now)])
  {
    var step := Wake(i, input, now);
    var news := WakeNews(n, clock, steps, i, input, now);
    RecordExtends(n, clock, steps, step, news);
    PollOpens(RecordOf(n, clock, steps), step, news, After(n, clock, steps).tasks,
              After(n, clock, steps + [step]).tasks, i);
  }

  lemma OtherServed(n: nat, clock: int, steps: seq<Step>, k: nat, fd: int)
    requires fd !in Open(After(n, clock, steps).trace)
    requires var tasks := After(n, clock, steps).tasks; k < |tasks| && tasks[k].Serving?
    ensures After(n, clock, steps).tasks[k].session.fd != fd
  {
    FdsConserved(n, clock, steps);
  }

  lemma ConnectNews(n: nat, clock: int, steps: seq<Step>, step: Step) returns (news: seq<Output>)
    requires step.Connect? && Enabled(After(n, clock, steps), step)
    ensures var s, after := After(n, clock, steps), After(n, clock, steps + [step]);
            && after.trace == s.trace + news && |after.tasks| == |s.tasks|
            && (news == [Accept(step.fd)] || news == [Accept(step.fd), Close(step.fd)])
            && forall k :: 0 <= k < |after.tasks| && after.tasks[k].Serving? ==>
                 after.tasks[k] == s.tasks[k] || TakenBy(news, step, after.tasks[k])
  {
    RefusedIffFull(n, clock, steps, step.fd, step.sid, step.accepted, step.now);
    var s, after := After(n, clock, steps), After(n, clock, steps + [step]);
    news := if |after.trace| == |s.trace| + 1 then [Accept(step.fd)] else [Accept(step.fd), Close(step.fd)];
  }

  lemma ConnectOpens(n: nat, clock: int, steps: seq<Step>, step: Step)
    requires AllOpened(n, clock, steps) && step.Connect? && Enabled(After(n, clock, steps), step)
    ensures AllOpened(n, clock, steps + [step])
  {
    var s := After(n, clock, steps);
    var news := ConnectNews(n, clock, steps, step);
    RecordExtends(n, clock, steps, step, news);
    forall k | 0 <= k < |s.tasks| && s.tasks[k].Serving? ensures s.tasks[k].session.fd != step.fd {
      OtherServed(n, clock, steps, k, step.fd);
    }
    AcceptOpens(RecordOf(n, clock, steps), step, news, s.tasks, After(n, clock, steps + [step]).tasks);
  }

  lemma NothingOpens(n: nat, clock: int, steps: seq<Step>, step: Step)
    requires AllOpened(n, clock, steps) && !Enabled(After(n, clock, steps), step)
    ensures AllOpened(n, clock, steps + [step])
  {
    var s := After(n, clock, steps);
    var r := RecordOf(n, clock, steps);
    assert (steps + [step])[..|steps|] == steps && s.trace + [] == s.trace;
    RecordExtends(n, clock, steps, step, []);
    forall k | 0 <= k < |s.tasks| && s.tasks[k].Serving?
      ensures SessionOpened(Extend(r, step, []), s.tasks[k].session)
    {
      SessionLater(r, step, [], s.tasks[k], s.tasks[k]);
    }
    DispatchesLater(r, step, []);
  }

  /** In every run, sessions and dispatches are those of the connections that their descriptors come from. */
  lemma {:induction false} EverythingOpened(n: nat, clock: int, steps: seq<Step>)
    ensures AllOpened(n, clock, steps)
  {
    if steps != [] {
      var front, step := steps[..|steps| - 1], steps[|steps| - 1];
      EverythingOpened(n, clock, front);
      assert steps == front + [step];
      if !Enabled(After(n, clock, front), step) {
        NothingOpens(n, clock, front, step);
      } else if step.Connect? {
        ConnectOpens(n, clock, front, step);
      } else {
        WakeOpens(n, clock, front, step.task, step.input, step.now);
      }
    }
  }

  /** Step j was taken, on the given descriptor and sid, and is the last accept of the descriptor before k. */
  ghost predicate ComesFrom(n: nat, clock: int, steps: seq<Step>, j: nat, fd: int, sid: nat, k: nat) {
    && j < |steps| && steps[j].Connect? && steps[j].fd == fd && steps[j].sid == sid
    && Enabled(After(n, clock, steps[..j]), steps[j])
    && AcceptedAt(After(n, clock, steps).trace, |After(n, clock, steps[..j]).trace|, fd, k)
  }

  lemma {:induction false} OpenedComesFrom(n: nat, clock: int, steps: seq<Step>, j: nat, fd: int, sid: nat, k: nat)
    requires OpenedBy(RecordOf(n, clock, steps), j, fd, sid, k)
    ensures ComesFrom(n, clock, steps, j, fd, sid, k)
  {
    MarksAt(n, clock, steps, j);
    MarksAt(n, clock, steps, j + 1);
    var next := steps[..j + 1];
    assert next[..|next| - 1] == steps[..j] && next[j] == steps[j];
  }

  /**
   * In every run a message is dispatched under the sid of the connection whose accept of the
   * descriptor is the last before it.
   */
  lemma {:induction false} DispatchedUnderSid(n: nat, clock: int, steps: seq<Step>, k: nat) returns (j: nat)
    requires var trace := After(n, clock, steps).trace; k < |trace| && trace[k].Dispatch?
    ensures var out := After(n, clock, steps).trace[k]; ComesFrom(n, clock, steps, j, out.fd, out.sid, k)
  {
    EverythingOpened(n, clock, steps);
    var out := After(n, clock, steps).trace[k];
    assert DispatchOpened(RecordOf(n, clock, steps), k, out);
    j :| OpenedBy(RecordOf(n, clock, steps), j, out.fd, out.sid, k);
    OpenedComesFrom(n, clock, steps, j, out.fd, out.sid, k);
  }

  /** And a task serves the session of that connection: its sid, and the time of its accept. */
  lemma {:induction false} ServedSinceAccept(n: nat, clock: int, steps: seq<Step>, i: nat) returns (j: nat)
    requires var tasks := After(n, clock, steps).tasks; i < |tasks| && tasks[i].Serving?
    ensures var s := After(n, clock, steps); var session := s.tasks[i].session;
            ComesFrom(n, clock, steps, j, session.fd, session.sid, |s.trace|) && steps[j].accepted == session.accepted
  {
    EverythingOpened(n, clock, steps);
    var session := After(n, clock, steps).tasks[i].session;
    assert SessionOpened(RecordOf(n, clock, steps), session);
    j :| SessionOpenedBy(RecordOf(n, clock, steps), session, j);
    OpenedComesFrom(n, clock, steps, j, session.fd, session.sid, |After(n, clock, steps).trace|);
  }

  /** In every run a message is dispatched right after its packet was acknowledged with code 0. */
  lemma {:induction false} DispatchedOnceAcked(n: nat, clock: int, steps: seq<Step>)
    ensures AckedFirst(After(n, clock, steps).trace)
  {
    if steps != [] {
      var front, step := steps[..|steps| - 1], steps[|steps| - 1];
      var s := After(n, clock, front);
      DispatchedOnceAcked(n, clock, front);
      assert steps == front + [step];
      if Enabled(s, step) {
        if step.Connect? {
          var news := ConnectNews(n, clock, front, step);
          AckedFirstAppend(s.trace, news);
        } else {
          PollAcked(n, clock, front, step.task, step.input, step.now);
        }
      }
    }
  }

  lemma {:induction false} PollAcked(n: nat, clock: int, steps: seq<Step>, i: nat, input: Input, now: int)
    requires Enabled(After(n, clock, steps), Wake(i, input, now)) && AckedFirst(After(n, clock, steps).trace)
    ensures AckedFirst(After(n, clock, steps + [Wake(i, input, now)]).trace)
  {
    var s := After(n, clock, steps);
    var session := s.tasks[i].session;
    var handled := SessionEndsIff(n, clock, steps, i, input, now);
    var was := session.fd in Authed(s.trace);
    var ends := Ends(session, was, input, was || InitAmong(Packets(EventsOf(input))), now);
    var read := [Read(session.fd, BytesOf(input))];
    AckedFirstAppend(s.trace, read);
    AckedFirstAppend(s.trace + read, handled);
    AckedFirstAppend(s.trace + read + handled, CloseIf(ends, session.fd));
  }
}
