/** What a session has dispatched by the time its descriptor is closed, read off the outputs alone. */
module ClosedSessions {
  import opened Crc16
  import opened EasnPackage
  import opened PacketParser
  import opened ParserDelivery
  import opened ServerSpec
  import opened ServerTheorems
  import opened SessionTheorems

  /** At each close the session was faithful to what it had read, and authorised if INIT had come. */
  ghost predicate ClosesFaithful(trace: seq<Output>) {
    trace == [] ||
    (ClosesFaithful(trace[..|trace| - 1]) && FaithfulClose(trace[..|trace| - 1], trace[|trace| - 1]))
  }

  ghost predicate FaithfulClose(before: seq<Output>, out: Output) {
    out.Close? ==> Faithful(before, out.fd, out.fd in Authed(before))
  }

  lemma ClosesSnoc(trace: seq<Output>, out: Output)
    requires ClosesFaithful(trace) && FaithfulClose(trace, out)
    ensures ClosesFaithful(trace + [out])
  {
    assert (trace + [out])[..|trace|] == trace;
  }

  /** A run of the parser closes nothing. */
  lemma {:induction false} HandleCloses(trace: seq<Output>, fd: int, sid: nat, auth: bool, events: seq<Event>)
    requires ClosesFaithful(trace)
    ensures ClosesFaithful(trace + Handle(fd, sid, auth, events))
    decreases |events|
  {
    if events == [] {
      assert trace + [] == trace;
    } else {
      HandleUnfolds(trace, fd, sid, auth, events);
      OneCloses(trace, fd, sid, auth, events[0]);
      HandleCloses(trace + HandleOne(fd, sid, auth, events[0]), fd, sid, AuthOne(auth, events[0]), events[1..]);
    }
  }

  lemma OneCloses(trace: seq<Output>, fd: int, sid: nat, auth: bool, event: Event)
    requires ClosesFaithful(trace)
    ensures ClosesFaithful(trace + HandleOne(fd, sid, auth, event))
  {
    match event
    case Write(bytes) => ClosesSnoc(trace, Ack(fd, bytes));
    case Callback(p) =>
      ClosesSnoc(trace, Dispatch(fd, sid, p));
      assert trace + [] == trace;
  }

  /** The session may be closed here. */
  ghost predicate MayClose(trace: seq<Output>, session: Session) {
    && ClosesFaithful(trace) && Faithful(trace, session.fd, session.auth)
    && (session.auth <==> session.fd in Authed(trace))
  }

  lemma LoopTopCloses(s: State, i: nat, session: Session, now: int)
    requires i < |s.tasks| && MayClose(s.trace, session)
    ensures ClosesFaithful(LoopTop(s, i, session, now).trace)
  {
    ClosesSnoc(s.trace, Close(session.fd));
  }

  lemma DataCloses(s: State, i: nat, bytes: seq<Byte>, run: Calls, now: int)
    requires FdsKept(s.tasks, s.trace) && SessionsFaithful(s.tasks, s.trace) && ClosesFaithful(s.trace)
    requires i < |s.tasks| && s.tasks[i].Serving? && |bytes| >= MIN_SIZE && IsRun(bytes, 0, run)
    ensures ClosesFaithful(WakeStep(s, i, Data(bytes, run), now).trace)
  {
    var session := s.tasks[i].session;
    var read := s.trace + [Read(session.fd, bytes)];
    var handled := read + Handle(session.fd, session.sid, session.auth, Events(run));
    var session' := session.(auth := AuthAfter(session.auth, Events(run)));
    ReadKeepsFds(s, i, bytes);
    SuccessBeforeCallback(bytes, 0, run);
    HandleIsOrderly(read, session.fd, session.sid, session.auth, Events(run));
    DataFaithful(s.trace, session.fd, session.sid, session.auth, bytes, run);
    ClosesSnoc(s.trace, Read(session.fd, bytes));
    HandleCloses(read, session.fd, session.sid, session.auth, Events(run));
    LoopTopCloses(s.(trace := handled), i, session', now);
  }

  lemma WakeCloses(s: State, i: nat, input: Input, now: int)
    requires FdsKept(s.tasks, s.trace) && SessionsFaithful(s.tasks, s.trace) && ClosesFaithful(s.trace)
    requires i < |s.tasks| && s.tasks[i].Serving? && Possible(input)
    ensures ClosesFaithful(WakeStep(s, i, input, now).trace)
  {
    if input.Data? && |input.bytes| >= MIN_SIZE {
      DataCloses(s, i, input.bytes, input.run, now);
    } else {
      var session := s.tasks[i].session;
      var data := if input.Data? then input.bytes else [];
      var read := s.(trace := s.trace + [Read(session.fd, data)]);
      ReadKeepsFds(s, i, data);
      ShortFaithful(s.trace, session.fd, session.auth, data);
      ClosesSnoc(s.trace, Read(session.fd, data));
      LoopTopCloses(read, i, session, now);
      ClosesSnoc(read.trace, Close(session.fd));
    }
  }

  lemma ConnectCloses(s: State, fd: int, sid: nat, accepted: int, now: int)
    requires IdleInPool(s) && ClosesFaithful(s.trace)
    ensures ClosesFaithful(ConnectStep(s, fd, sid, accepted, now).trace)
  {
    var accepting := s.trace + [Accept(fd)];
    AcceptFaithful(s.trace, fd);
    ClosesSnoc(s.trace, Accept(fd));
    assert fd !in Authed(accepting) by { assert accepting[..|s.trace|] == s.trace; }
    if s.idle == [] {
      ClosesSnoc(accepting, Close(fd));
      assert accepting + [Close(fd)] == s.trace + [Accept(fd), Close(fd)];
    } else {
      var n := |s.idle| - 1;
      LoopTopCloses(s.(idle := s.idle[..n], trace := accepting), s.idle[n],
                    Session(fd, sid, false, accepted, now, 0), now);
    }
  }

  lemma {:induction false} AllCloses(n: nat, clock: int, steps: seq<Step>)
    ensures ClosesFaithful(After(n, clock, steps).trace)
  {
    if steps != [] {
      var front := steps[..|steps| - 1];
      var before := After(n, clock, front);
      AllCloses(n, clock, front);
      AllFaithful(n, clock, front);
      FdsConserved(n, clock, front);
      if Enabled(before, steps[|steps| - 1]) {
        match steps[|steps| - 1]
        case Connect(fd, sid, accepted, now) => ConnectCloses(before, fd, sid, accepted, now);
        case Wake(i, input, now) => WakeCloses(before, i, input, now);
      }
    }
  }

  lemma {:induction false} CloseInTrace(trace: seq<Output>, k: nat)
    requires ClosesFaithful(trace) && k < |trace|
    ensures FaithfulClose(trace[..k], trace[k])
  {
    var n := |trace| - 1;
    if k < n {
      CloseInTrace(trace[..n], k);
      assert trace[..n][..k] == trace[..k];
    }
  }

  /**
   * In every run, at every close: if what was read from the descriptor since its accept is whole
   * frames in noise, grouped in any way into reads, then exactly those from the first INIT on have
   * been dispatched, in order, and the descriptor counts as authorised exactly if an INIT came.
   */
  lemma {:induction false} ClosedAfterInit(n: nat, clock: int, steps: seq<Step>, k: nat, groups: seq<Group>)
    requires var trace := After(n, clock, steps).trace;
             k < |trace| && trace[k].Close? && Carries(groups, ReadsSince(trace[..k], trace[k].fd))
    ensures var trace := After(n, clock, steps).trace; var before := trace[..k];
            Refines(AllMessages(groups), SentSince(before, trace[k].fd), trace[k].fd in Authed(before))
  {
    AllCloses(n, clock, steps);
    CloseInTrace(After(n, clock, steps).trace, k);
  }
}
