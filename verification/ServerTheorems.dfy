/** Properties of every reachable state of the server channel. */
module ServerTheorems {
  import opened Crc16
  import opened CrcCheck
  import opened EasnPackage
  import opened PacketParser
  import opened ParserDelivery
  import opened ServerSpec

  // ---------------------------------------------------------------------
  // The pool
  // ---------------------------------------------------------------------

  function Active(tasks: seq<Task>): nat {
    if tasks == [] then 0
    else Active(tasks[..|tasks| - 1]) + (if tasks[|tasks| - 1].Serving? then 1 else 0)
  }

  lemma {:induction false} ActiveUpdate(tasks: seq<Task>, i: nat, t: Task)
    requires i < |tasks|
    ensures Active(tasks[i := t])
         == Active(tasks) - (if tasks[i].Serving? then 1 else 0) + (if t.Serving? then 1 else 0)
  {
    var n := |tasks| - 1;
    if i < n {
      ActiveUpdate(tasks[..n], i, t);
      assert tasks[i := t][..n] == tasks[..n][i := t];
    } else {
      assert tasks[i := t][..n] == tasks[..n];
    }
  }

  lemma {:induction false} NoneActive(n: nat)
    ensures Active(seq(n, _ => Parked)) == 0
  {
    if n > 0 {
      assert seq(n, _ => Parked)[..n - 1] == seq(n - 1, _ => Parked);
      NoneActive(n - 1);
    }
  }

  ghost predicate Distinct(s: seq<nat>) {
    forall i, j :: 0 <= i < j < |s| ==> s[i] != s[j]
  }

  /**
   * A task is in the stack exactly when it is parked, and once; idle and serving tasks add up
   * to the pool.
   */
  ghost predicate PoolKept(s: State) {
    && IdleInPool(s) && Distinct(s.idle)
    && (forall i :: 0 <= i < |s.tasks| ==> (s.tasks[i].Parked? <==> i in s.idle))
    && |s.idle| + Active(s.tasks) == |s.tasks|
  }

  /** The same but for task i, which is not in the stack, whatever it does. */
  ghost predicate ButOne(tasks: seq<Task>, idle: seq<nat>, i: nat) {
    && i < |tasks| && (forall k :: 0 <= k < |idle| ==> idle[k] < |tasks|) && Distinct(idle) && i !in idle
    && (forall k :: 0 <= k < |tasks| && k != i ==> (tasks[k].Parked? <==> k in idle))
    && |idle| + 1 + Active(tasks[i := Parked]) == |tasks|
  }

  lemma ServingButOne(s: State, i: nat)
    requires PoolKept(s) && i < |s.tasks| && s.tasks[i].Serving?
    ensures ButOne(s.tasks, s.idle, i)
  {
    ActiveUpdate(s.tasks, i, Parked);
  }

  lemma FinishKeepsPool(s: State, i: nat, fd: int)
    requires ButOne(s.tasks, s.idle, i)
    ensures PoolKept(Finish(s, i, fd))
  {
    var idle := s.idle + [i];
    forall k | 0 <= k < |s.tasks| ensures s.tasks[i := Parked][k].Parked? <==> k in idle {
      assert k in idle <==> k in s.idle || k == i;
    }
  }

  lemma LoopTopKeepsPool(s: State, i: nat, session: Session, now: int)
    requires ButOne(s.tasks, s.idle, i)
    ensures PoolKept(LoopTop(s, i, session, now))
    ensures |LoopTop(s, i, session, now).tasks| == |s.tasks|
  {
    if !session.auth && TimeoutLeft(session.accepted, now) <= 0 {
      FinishKeepsPool(s.(clock := now), i, session.fd);
    } else {
      var after := LoopTop(s, i, session, now);
      ActiveUpdate(s.tasks, i, Parked);
      ActiveUpdate(s.tasks, i, after.tasks[i]);
    }
  }

  lemma LoopTopOverwrites(s: State, i: nat, t: Task, session: Session, now: int)
    requires i < |s.tasks|
    ensures LoopTop(s.(tasks := s.tasks[i := t]), i, session, now) == LoopTop(s, i, session, now)
  {
    var after := LoopTop(s, i, session, now);
    assert s.tasks[i := t][i := after.tasks[i]] == s.tasks[i := after.tasks[i]];
  }

  /** The task on top of the stack, and the stack without it. */
  lemma PopIdle(s: State, i: nat, idle: seq<nat>)
    requires PoolKept(s) && s.idle == idle + [i]
    ensures i < |s.tasks| && s.tasks[i].Parked? && i !in idle && Distinct(idle)
    ensures forall k :: 0 <= k < |s.tasks| && k != i ==> (s.tasks[k].Parked? <==> k in idle)
  {
    assert s.idle[|idle|] == i && i in s.idle;
    assert Distinct(idle) by {
      forall j, k | 0 <= j < k < |idle| ensures idle[j] != idle[k] { assert s.idle[j] != s.idle[k]; }
    }
    forall k | 0 <= k < |idle| ensures idle[k] != i { assert s.idle[k] != s.idle[|idle|]; }
  }

  lemma ConnectKeepsPool(s: State, fd: int, sid: nat, accepted: int, now: int)
    requires PoolKept(s)
    ensures PoolKept(ConnectStep(s, fd, sid, accepted, now))
    ensures |ConnectStep(s, fd, sid, accepted, now).tasks| == |s.tasks|
  {
    if s.idle != [] {
      var n := |s.idle| - 1;
      var i := s.idle[n];
      PopIdle(s, i, s.idle[..n]);
      assert s.tasks[i := Parked] == s.tasks;
      LoopTopKeepsPool(s.(idle := s.idle[..n], trace := s.trace + [Accept(fd)]), i,
                       Session(fd, sid, false, accepted, now, 0), now);
    }
  }

  lemma WakeKeepsPool(s: State, i: nat, input: Input, now: int)
    requires PoolKept(s) && i < |s.tasks| && s.tasks[i].Serving?
    ensures PoolKept(WakeStep(s, i, input, now))
    ensures |WakeStep(s, i, input, now).tasks| == |s.tasks|
  {
    var session := s.tasks[i].session;
    ServingButOne(s, i);
    match input
    case Data(bytes, run) =>
      var read := s.(trace := s.trace + [Read(session.fd, bytes)]);
      if |bytes| < MIN_SIZE {
        LoopTopKeepsPool(read, i, session, now);
      } else {
        var handled := read.(trace := read.trace + Handle(session.fd, session.sid, session.auth, Events(run)));
        LoopTopKeepsPool(handled, i, session.(auth := AuthAfter(session.auth, Events(run))), now);
      }
    case Again =>
      var read := s.(trace := s.trace + [Read(session.fd, [])]);
      if session.auth {
        LoopTopKeepsPool(read, i, session, now);
      } else {
        FinishKeepsPool(read.(clock := now), i, session.fd);
      }
    case Eof => FinishKeepsPool(s.(clock := now, trace := s.trace + [Read(session.fd, [])]), i, session.fd);
    case Error => FinishKeepsPool(s.(clock := now, trace := s.trace + [Read(session.fd, [])]), i, session.fd);
  }

  lemma NextKeepsPool(s: State, step: Step)
    requires PoolKept(s) && Enabled(s, step)
    ensures PoolKept(Next(s, step)) && |Next(s, step).tasks| == |s.tasks|
  {
    match step
    case Connect(fd, sid, accepted, now) => ConnectKeepsPool(s, fd, sid, accepted, now);
    case Wake(i, input, now) => WakeKeepsPool(s, i, input, now);
  }

  /** In every reachable state the pool of n is conserved. */
  lemma {:induction false} PoolConserved(n: nat, clock: int, steps: seq<Step>)
    ensures PoolKept(After(n, clock, steps)) && |After(n, clock, steps).tasks| == n
  {
    if steps == [] {
      NoneActive(n);
      var s := Start(n, clock);
      forall i | 0 <= i < n ensures i in s.idle { assert s.idle[i] == i; }
    } else {
      var before := After(n, clock, steps[..|steps| - 1]);
      PoolConserved(n, clock, steps[..|steps| - 1]);
      if Enabled(before, steps[|steps| - 1]) { NextKeepsPool(before, steps[|steps| - 1]); }
    }
  }

  lemma LateConnect(s: State, fd: int, sid: nat, accepted: int, now: int)
    requires PoolKept(s) && s.idle != [] && now >= accepted + 10
    ensures var after := ConnectStep(s, fd, sid, accepted, now);
            && after.tasks == s.tasks && after.idle == s.idle && after.clock == now
            && after.trace == s.trace + [Accept(fd), Close(fd)]
  {
    var n := |s.idle| - 1;
    PopIdle(s, s.idle[n], s.idle[..n]);
    assert s.tasks[s.idle[n] := Parked] == s.tasks && s.idle[..n] + [s.idle[n]] == s.idle;
    assert s.trace + [Accept(fd)] + [Close(fd)] == s.trace + [Accept(fd), Close(fd)];
  }

  lemma TimelyConnect(s: State, fd: int, sid: nat, accepted: int, now: int, session: Session)
    requires IdleInPool(s) && s.idle != [] && now < accepted + 10
    requires session == Session(fd, sid, false, accepted, now, (accepted + 10 - now) * 1000)
    ensures var after := ConnectStep(s, fd, sid, accepted, now);
            && after.tasks == s.tasks[s.idle[|s.idle| - 1] := Serving(session)]
            && after.idle == s.idle[..|s.idle| - 1] && after.clock == now && after.trace == s.trace + [Accept(fd)]
  {
  }

  lemma OneMoreActive(s: State, session: Session)
    requires PoolKept(s) && s.idle != []
    ensures Active(s.tasks[s.idle[|s.idle| - 1] := Serving(session)]) == Active(s.tasks) + 1
  {
    var n := |s.idle| - 1;
    PopIdle(s, s.idle[n], s.idle[..n]);
    ActiveUpdate(s.tasks, s.idle[n], Serving(session));
  }

  /**
   * A connection is refused exactly when all n tasks are serving: then it is closed at once and
   * nothing else changes. Otherwise the task on top of the stack serves it, unauthorised, and polls
   * until 10 s after the accept; if that time is up already, it closes and goes back on the stack.
   */
  lemma RefusedIffFull(n: nat, clock: int, steps: seq<Step>, fd: int, sid: nat, accepted: int, now: int)
    requires Enabled(After(n, clock, steps), Connect(fd, sid, accepted, now))
    ensures var s := After(n, clock, steps);
            var after := After(n, clock, steps + [Connect(fd, sid, accepted, now)]);
            if Active(s.tasks) == n || now >= accepted + 10 then
              && after.tasks == s.tasks && after.idle == s.idle && after.clock == now
              && after.trace == s.trace + [Accept(fd), Close(fd)]
            else
              && s.idle != [] && after.idle == s.idle[..|s.idle| - 1] && after.clock == now
              && Active(after.tasks) == Active(s.tasks) + 1 && after.trace == s.trace + [Accept(fd)]
              && after.tasks == s.tasks[s.idle[|s.idle| - 1] :=
                   Serving(Session(fd, sid, false, accepted, now, (accepted + 10 - now) * 1000))]
  {
    var s := After(n, clock, steps);
    PoolConserved(n, clock, steps);
    RunExtends(n, clock, steps, Connect(fd, sid, accepted, now));
    if s.idle != [] {
      if now >= accepted + 10 {
        LateConnect(s, fd, sid, accepted, now);
      } else {
        var session := Session(fd, sid, false, accepted, now, (accepted + 10 - now) * 1000);
        TimelyConnect(s, fd, sid, accepted, now, session);
        OneMoreActive(s, session);
      }
    }
  }

  lemma IdleStays(n: nat, clock: int, steps: seq<Step>)
    ensures IdleInPool(After(n, clock, steps))
  {
    PoolConserved(n, clock, steps);
  }

  /** The states reached are those of one enabled step after another. */
  lemma RunExtends(n: nat, clock: int, steps: seq<Step>, step: Step)
    requires Enabled(After(n, clock, steps), step)
    ensures After(n, clock, steps + [step]) == Next(After(n, clock, steps), step)
  {
    assert (steps + [step])[..|steps|] == steps;
  }

  // ---------------------------------------------------------------------
  // Runs of the parser put together
  // ---------------------------------------------------------------------

  lemma {:induction false} AuthAppend(auth: bool, a: seq<Event>, b: seq<Event>)
    ensures AuthAfter(auth, a + b) == AuthAfter(AuthAfter(auth, a), b)
    decreases |a|
  {
    if a == [] {
      assert a + b == b;
    } else {
      assert (a + b)[1..] == a[1..] + b;
      AuthAppend(AuthOne(auth, a[0]), a[1..], b);
    }
  }

  lemma {:induction false} HandleAppend(fd: int, sid: nat, auth: bool, a: seq<Event>, b: seq<Event>)
    ensures Handle(fd, sid, auth, a + b)
         == Handle(fd, sid, auth, a) + Handle(fd, sid, AuthAfter(auth, a), b)
    decreases |a|
  {
    if a == [] {
      assert a + b == b;
    } else {
      assert (a + b)[1..] == a[1..] + b;
      HandleAppend(fd, sid, AuthOne(auth, a[0]), a[1..], b);
    }
  }

  lemma HandleSingle(fd: int, sid: nat, auth: bool, event: Event)
    ensures Handle(fd, sid, auth, [event]) == HandleOne(fd, sid, auth, event)
    ensures AuthAfter(auth, [event]) == AuthOne(auth, event)
  {
    assert [event][1..] == [];
  }

  // ---------------------------------------------------------------------
  // Descriptors and authentication, over the outputs
  // ---------------------------------------------------------------------

  /** The open descriptors on which an INIT, of type 1, was dispatched since they were accepted. */
  function Authed(trace: seq<Output>): set<int> {
    if trace == [] then {}
    else
      var before := Authed(trace[..|trace| - 1]);
      match trace[|trace| - 1]
      case Accept(fd) => before - {fd}
      case Close(fd) => before - {fd}
      case Dispatch(fd, _, p) => if p[2] == 1 then before + {fd} else before
      case _ => before
  }

  /** The output is in order after the given ones. */
  predicate InOrderAfter(before: seq<Output>, out: Output) {
    match out
    case Accept(fd) => fd !in Open(before)
    case Read(fd, _) => fd in Open(before)
    case Ack(fd, _) => fd in Open(before)
    case Close(fd) => fd in Open(before)
    case Dispatch(fd, _, p) =>
      && fd in Open(before)
      && SizeofPacket(p) >= 2 && CrcOk(Frame(p))
      && (p[2] == 1 || fd in Authed(before))
  }

  predicate Orderly(trace: seq<Output>) {
    trace == [] || (Orderly(trace[..|trace| - 1]) && InOrderAfter(trace[..|trace| - 1], trace[|trace| - 1]))
  }

  lemma TraceSnoc(trace: seq<Output>, out: Output)
    ensures var t := trace + [out]; t[..|t| - 1] == trace && t[|t| - 1] == out
    ensures Orderly(trace + [out]) <==> Orderly(trace) && InOrderAfter(trace, out)
  {
  }

  /** Every packet the parser hands over has passed its check. */
  ghost predicate Checked(events: seq<Event>) {
    forall k :: 0 <= k < |events| && events[k].Callback? ==>
      SizeofPacket(events[k].packet) >= 2 && CrcOk(Frame(events[k].packet))
  }

  /** The outputs are in order, and fd is open and authorised or not. */
  ghost predicate Standing(trace: seq<Output>, fd: int, auth: bool) {
    Orderly(trace) && fd in Open(trace) && (auth <==> fd in Authed(trace))
  }

  /** The second list of outputs keeps the open descriptors, and may have authorised fd. */
  ghost predicate OnlyAuthorises(before: seq<Output>, after: seq<Output>, fd: int, auth: bool) {
    && Open(after) == Open(before)
    && Authed(after) == (if auth then Authed(before) + {fd} else Authed(before))
  }

  lemma AckStands(trace: seq<Output>, fd: int, auth: bool, bytes: seq<Byte>)
    requires Standing(trace, fd, auth)
    ensures Standing(trace + [Ack(fd, bytes)], fd, auth)
    ensures Open(trace + [Ack(fd, bytes)]) == Open(trace) && Authed(trace + [Ack(fd, bytes)]) == Authed(trace)
  {
    TraceSnoc(trace, Ack(fd, bytes));
  }

  lemma DispatchStands(trace: seq<Output>, fd: int, sid: nat, auth: bool, p: Packet)
    requires Standing(trace, fd, auth) && Passes(auth, p) && SizeofPacket(p) >= 2 && CrcOk(Frame(p))
    ensures Standing(trace + [Dispatch(fd, sid, p)], fd, true)
    ensures OnlyAuthorises(trace, trace + [Dispatch(fd, sid, p)], fd, true)
  {
    TraceSnoc(trace, Dispatch(fd, sid, p));
  }

  lemma CheckedTail(events: seq<Event>)
    requires Checked(events) && events != []
    ensures Checked(events[1..])
  {
  }

  lemma {:induction false} AuthGrows(auth: bool, events: seq<Event>)
    ensures auth ==> AuthAfter(auth, events)
    decreases |events|
  {
    if events != [] { AuthGrows(AuthOne(auth, events[0]), events[1..]); }
  }

  lemma OneEventStands(trace: seq<Output>, fd: int, sid: nat, auth: bool, event: Event)
    requires Standing(trace, fd, auth)
    requires event.Callback? ==> SizeofPacket(event.packet) >= 2 && CrcOk(Frame(event.packet))
    ensures var next := trace + HandleOne(fd, sid, auth, event);
            Standing(next, fd, AuthOne(auth, event)) && OnlyAuthorises(trace, next, fd, AuthOne(auth, event))
  {
    match event
    case Write(bytes) => AckStands(trace, fd, auth, bytes);
    case Callback(p) =>
      if Passes(auth, p) {
        DispatchStands(trace, fd, sid, auth, p);
        if PacketType(p) != TYPE_INIT { assert auth; }
      } else {
        assert trace + [] == trace;
      }
  }

  lemma AuthorisesTwice(a: seq<Output>, b: seq<Output>, c: seq<Output>, fd: int, first: bool, second: bool)
    requires OnlyAuthorises(a, b, fd, first) && OnlyAuthorises(b, c, fd, second) && (first ==> second)
    ensures OnlyAuthorises(a, c, fd, second)
  {
  }

  /** What the outputs of a run of the parser do to a session's standing. */
  lemma {:induction false} HandleIsOrderly(trace: seq<Output>, fd: int, sid: nat, auth: bool, events: seq<Event>)
    requires Standing(trace, fd, auth) && Checked(events)
    ensures Standing(trace + Handle(fd, sid, auth, events), fd, AuthAfter(auth, events))
    ensures OnlyAuthorises(trace, trace + Handle(fd, sid, auth, events), fd, AuthAfter(auth, events))
    decreases |events|
  {
    if events == [] {
      NothingHappens(trace, fd, auth);
    } else {
      var next, auth' := trace + HandleOne(fd, sid, auth, events[0]), AuthOne(auth, events[0]);
      CheckedTail(events);
      OneEventStands(trace, fd, sid, auth, events[0]);
      HandleIsOrderly(next, fd, sid, auth', events[1..]);
      AuthGrows(auth', events[1..]);
      HandleUnfolds(trace, fd, sid, auth, events);
      AuthorisesTwice(trace, next, next + Handle(fd, sid, auth', events[1..]), fd, auth', AuthAfter(auth, events));
    }
  }

  lemma NothingHappens(trace: seq<Output>, fd: int, auth: bool)
    requires Standing(trace, fd, auth)
    ensures trace + [] == trace && OnlyAuthorises(trace, trace, fd, auth)
  {
  }

  lemma HandleUnfolds(trace: seq<Output>, fd: int, sid: nat, auth: bool, events: seq<Event>)
    requires events != []
    ensures trace + Handle(fd, sid, auth, events)
         == (trace + HandleOne(fd, sid, auth, events[0])) + Handle(fd, sid, AuthOne(auth, events[0]), events[1..])
  {
  }

  predicate Serves(t: Task, fd: int) {
    t.Serving? && t.session.fd == fd
  }

  /** Each open descriptor is served by exactly one task, whose auth flag says whether INIT came. */
  ghost predicate FdsKept(tasks: seq<Task>, trace: seq<Output>) {
    && Orderly(trace) && Authed(trace) <= Open(trace)
    && (forall i :: 0 <= i < |tasks| && tasks[i].Serving? ==>
          tasks[i].session.fd in Open(trace)
          && (tasks[i].session.auth <==> tasks[i].session.fd in Authed(trace)))
    && (forall fd :: fd in Open(trace) ==> exists i :: 0 <= i < |tasks| && Serves(tasks[i], fd))
    && (forall i, j :: 0 <= i < j < |tasks| && tasks[i].Serving? && tasks[j].Serving? ==>
          tasks[i].session.fd != tasks[j].session.fd)
  }

  lemma SessionContinues(tasks: seq<Task>, trace: seq<Output>, i: nat, session: Session, trace': seq<Output>)
    requires FdsKept(tasks, trace) && i < |tasks| && Serves(tasks[i], session.fd)
    requires Standing(trace', session.fd, session.auth) && OnlyAuthorises(trace, trace', session.fd, session.auth)
    ensures FdsKept(tasks[i := Serving(session)], trace')
  {
    var tasks' := tasks[i := Serving(session)];
    forall fd | fd in Open(trace') ensures exists k :: 0 <= k < |tasks'| && Serves(tasks'[k], fd) {
      var k :| 0 <= k < |tasks| && Serves(tasks[k], fd);
      assert Serves(tasks'[k], fd);
    }
  }

  lemma SessionCloses(tasks: seq<Task>, trace: seq<Output>, i: nat, fd: int)
    requires FdsKept(tasks, trace) && i < |tasks| && Serves(tasks[i], fd)
    ensures FdsKept(tasks[i := Parked], trace + [Close(fd)])
  {
    var tasks' := tasks[i := Parked];
    TraceSnoc(trace, Close(fd));
    forall g | g in Open(trace) - {fd} ensures exists k :: 0 <= k < |tasks'| && Serves(tasks'[k], g) {
      var k :| 0 <= k < |tasks| && Serves(tasks[k], g);
      assert Serves(tasks'[k], g);
    }
  }

  lemma SessionOpens(tasks: seq<Task>, trace: seq<Output>, i: nat, session: Session)
    requires FdsKept(tasks, trace) && i < |tasks| && tasks[i].Parked?
    requires session.fd !in Open(trace) && !session.auth
    ensures FdsKept(tasks[i := Serving(session)], trace + [Accept(session.fd)])
  {
    var tasks' := tasks[i := Serving(session)];
    TraceSnoc(trace, Accept(session.fd));
    assert Serves(tasks'[i], session.fd);
    forall g | g in Open(trace) ensures exists k :: 0 <= k < |tasks'| && Serves(tasks'[k], g) {
      var k :| 0 <= k < |tasks| && Serves(tasks[k], g);
      assert Serves(tasks'[k], g);
    }
  }

  lemma ConnectionRefused(tasks: seq<Task>, trace: seq<Output>, fd: int)
    requires FdsKept(tasks, trace) && fd !in Open(trace)
    ensures FdsKept(tasks, trace + [Accept(fd), Close(fd)])
  {
    TraceSnoc(trace, Accept(fd));
    TraceSnoc(trace + [Accept(fd)], Close(fd));
    assert trace + [Accept(fd), Close(fd)] == (trace + [Accept(fd)]) + [Close(fd)];
    var after := trace + [Accept(fd), Close(fd)];
    assert Open(after) == Open(trace) && Authed(after) == Authed(trace);
  }

  lemma LoopTopKeepsFds(s: State, i: nat, session: Session, now: int)
    requires i < |s.tasks| && FdsKept(s.tasks[i := Serving(session)], s.trace)
    ensures var after := LoopTop(s, i, session, now); FdsKept(after.tasks, after.trace)
  {
    var entered := s.tasks[i := Serving(session)];
    var after := LoopTop(s, i, session, now);
    if !session.auth && TimeoutLeft(session.accepted, now) <= 0 {
      SessionCloses(entered, s.trace, i, session.fd);
      assert entered[i := Parked] == after.tasks;
    } else {
      SessionContinues(entered, s.trace, i, after.tasks[i].session, s.trace);
      assert entered[i := after.tasks[i]] == after.tasks;
    }
  }

  lemma ReadKeepsFds(s: State, i: nat, data: seq<Byte>)
    requires FdsKept(s.tasks, s.trace) && i < |s.tasks| && s.tasks[i].Serving?
    ensures var fd := s.tasks[i].session.fd;
            && FdsKept(s.tasks, s.trace + [Read(fd, data)])
            && Open(s.trace + [Read(fd, data)]) == Open(s.trace)
            && Authed(s.trace + [Read(fd, data)]) == Authed(s.trace)
  {
    TraceSnoc(s.trace, Read(s.tasks[i].session.fd, data));
  }

  lemma DataKeepsFds(s: State, i: nat, bytes: seq<Byte>, run: Calls, now: int)
    requires FdsKept(s.tasks, s.trace) && i < |s.tasks| && s.tasks[i].Serving?
    requires |bytes| >= MIN_SIZE && IsRun(bytes, 0, run)
    ensures var after := WakeStep(s, i, Data(bytes, run), now); FdsKept(after.tasks, after.trace)
  {
    var session := s.tasks[i].session;
    var read := s.trace + [Read(session.fd, bytes)];
    var session' := session.(auth := AuthAfter(session.auth, Events(run)));
    ReadKeepsFds(s, i, bytes);
    SuccessBeforeCallback(bytes, 0, run);
    HandleIsOrderly(read, session.fd, session.sid, session.auth, Events(run));
    var handled := read + Handle(session.fd, session.sid, session.auth, Events(run));
    SessionContinues(s.tasks, read, i, session', handled);
    LoopTopKeepsFds(s.(trace := handled), i, session', now);
  }

  lemma WakeKeepsFds(s: State, i: nat, input: Input, now: int)
    requires FdsKept(s.tasks, s.trace) && i < |s.tasks| && s.tasks[i].Serving? && Possible(input)
    ensures var after := WakeStep(s, i, input, now); FdsKept(after.tasks, after.trace)
  {
    var session := s.tasks[i].session;
    if input.Data? && |input.bytes| >= MIN_SIZE {
      DataKeepsFds(s, i, input.bytes, input.run, now);
    } else {
      var data := if input.Data? then input.bytes else [];
      var read := s.(trace := s.trace + [Read(session.fd, data)]);
      ReadKeepsFds(s, i, data);
      assert s.tasks[i := Serving(session)] == s.tasks;
      LoopTopKeepsFds(read, i, session, now);
      SessionCloses(s.tasks, read.trace, i, session.fd);
    }
  }

  lemma {:induction false} ConnectKeepsFds(s: State, fd: int, sid: nat, accepted: int, now: int)
    requires PoolKept(s) && FdsKept(s.tasks, s.trace) && fd !in Open(s.trace)
    ensures var after := ConnectStep(s, fd, sid, accepted, now); FdsKept(after.tasks, after.trace)
  {
    if s.idle == [] {
      ConnectionRefused(s.tasks, s.trace, fd);
    } else {
      var i := s.idle[|s.idle| - 1];
      assert i in s.idle;
      var session := Session(fd, sid, false, accepted, now, 0);
      SessionOpens(s.tasks, s.trace, i, session);
      LoopTopKeepsFds(s.(idle := s.idle[..|s.idle| - 1], trace := s.trace + [Accept(fd)]), i, session, now);
    }
  }

  /** In every reachable state the outputs are in order and the open descriptors are the served ones. */
  lemma {:induction false} FdsConserved(n: nat, clock: int, steps: seq<Step>)
    ensures var s := After(n, clock, steps); FdsKept(s.tasks, s.trace)
  {
    if steps != [] {
      var before := After(n, clock, steps[..|steps| - 1]);
      FdsConserved(n, clock, steps[..|steps| - 1]);
      PoolConserved(n, clock, steps[..|steps| - 1]);
      if Enabled(before, steps[|steps| - 1]) {
        match steps[|steps| - 1]
        case Connect(fd, sid, accepted, now) => ConnectKeepsFds(before, fd, sid, accepted, now);
        case Wake(i, input, now) => WakeKeepsFds(before, i, input, now);
      }
    }
  }

  // ---------------------------------------------------------------------
  // The same, output by output
  // ---------------------------------------------------------------------

  predicate Uses(out: Output, fd: int) {
    match out
    case Accept(_) => false
    case Read(g, _) => g == fd
    case Ack(g, _) => g == fd
    case Dispatch(g, _, _) => g == fd
    case Close(g) => g == fd
  }

  /** Since position j the descriptor has been open: accepted there and neither closed nor accepted again. */
  ghost predicate OpenSince(trace: seq<Output>, fd: int, j: int, k: int) {
    && 0 <= j < k <= |trace| && trace[j] == Accept(fd)
    && forall m :: j < m < k ==> trace[m] != Close(fd) && trace[m] != Accept(fd)
  }

  lemma {:induction false} OpenWitness(trace: seq<Output>, fd: int) returns (j: int)
    requires Orderly(trace) && fd in Open(trace)
    ensures OpenSince(trace, fd, j, |trace|)
  {
    var n := |trace| - 1;
    if trace[n] == Accept(fd) {
      j := n;
    } else {
      j := OpenWitness(trace[..n], fd);
    }
  }

  lemma {:induction false} OrderlyPrefix(trace: seq<Output>, k: nat)
    requires Orderly(trace) && k < |trace|
    ensures Orderly(trace[..k]) && InOrderAfter(trace[..k], trace[k])
  {
    var n := |trace| - 1;
    if k < n {
      OrderlyPrefix(trace[..n], k);
      assert trace[..n][..k] == trace[..k];
    }
  }

  lemma SincePrefix(trace: seq<Output>, fd: int, j: int, k: nat)
    requires k <= |trace| && OpenSince(trace[..k], fd, j, k)
    ensures OpenSince(trace, fd, j, k)
  {
    forall m | j < m < k ensures trace[m] != Close(fd) && trace[m] != Accept(fd) {
      assert trace[..k][m] == trace[m];
    }
  }

  /**
   * In every run a descriptor is read, answered, dispatched from or closed only between its
   * accept and its close: nothing is used after its close, and nothing is closed twice.
   */
  lemma UsedOnlyWhileOpen(n: nat, clock: int, steps: seq<Step>, k: nat, fd: int) returns (j: int)
    requires var trace := After(n, clock, steps).trace; k < |trace| && Uses(trace[k], fd)
    ensures OpenSince(After(n, clock, steps).trace, fd, j, k)
  {
    var trace := After(n, clock, steps).trace;
    FdsConserved(n, clock, steps);
    OrderlyPrefix(trace, k);
    j := OpenWitness(trace[..k], fd);
    SincePrefix(trace, fd, j, k);
  }

  /** At any time an accepted descriptor not closed since is served by one task, and by no other. */
  lemma {:induction false} OwnedByOneTask(n: nat, clock: int, steps: seq<Step>, fd: int)
    ensures var s := After(n, clock, steps);
            fd in Open(s.trace) <==> exists i :: 0 <= i < |s.tasks| && Serves(s.tasks[i], fd)
    ensures var s := After(n, clock, steps);
            forall i, j :: 0 <= i < j < |s.tasks| ==> !(Serves(s.tasks[i], fd) && Serves(s.tasks[j], fd))
  {
    FdsConserved(n, clock, steps);
  }

  lemma {:induction false} AuthedWitness(trace: seq<Output>, fd: int) returns (j: int)
    requires Orderly(trace) && fd in Authed(trace)
    ensures 0 <= j < |trace| && trace[j].Dispatch? && trace[j].fd == fd && trace[j].packet[2] == 1
    ensures forall m :: j < m < |trace| ==> trace[m] != Close(fd) && trace[m] != Accept(fd)
  {
    var n := |trace| - 1;
    if trace[n].Dispatch? && trace[n].fd == fd && trace[n].packet[2] == 1 {
      j := n;
    } else {
      j := AuthedWitness(trace[..n], fd);
    }
  }

  /**
   * In every run, on any bytes, a dispatched packet has passed its checksum; and one that is not
   * INIT follows an INIT dispatched from the same descriptor in the same session.
   */
  lemma {:induction false} DispatchedOnlyAfterInit(n: nat, clock: int, steps: seq<Step>, k: nat) returns (j: int)
    requires var trace := After(n, clock, steps).trace; k < |trace| && trace[k].Dispatch?
    ensures var trace := After(n, clock, steps).trace;
            SizeofPacket(trace[k].packet) >= 2 && CrcOk(Frame(trace[k].packet))
    ensures var trace := After(n, clock, steps).trace;
            trace[k].packet[2] != 1 ==>
              && 0 <= j < k && trace[j].Dispatch? && trace[j].fd == trace[k].fd
              && trace[j].packet[2] == 1
              && SizeofPacket(trace[j].packet) >= 2 && CrcOk(Frame(trace[j].packet))
              && forall m :: j < m < k ==> trace[m] != Close(trace[k].fd) && trace[m] != Accept(trace[k].fd)
  {
    var trace := After(n, clock, steps).trace;
    FdsConserved(n, clock, steps);
    OrderlyPrefix(trace, k);
    j := -1;
    if trace[k].packet[2] != 1 {
      j := AuthedWitness(trace[..k], trace[k].fd);
      OrderlyPrefix(trace, j);
      assert trace[..k][j] == trace[j];
      forall m | j < m < k ensures trace[m] != Close(trace[k].fd) && trace[m] != Accept(trace[k].fd) {
        assert trace[..k][m] == trace[m];
      }
    }
  }

  lemma LoopTopKeepsAuth(s: State, k: nat, session: Session, now: int, i: nat)
    requires k < |s.tasks| && i < |s.tasks|
    requires k == i ==> session.auth
    ensures var after := LoopTop(s, k, session, now);
            && |after.tasks| == |s.tasks|
            && (if k == i then Serves(after.tasks[i], session.fd) && after.tasks[i].session.auth
                else after.tasks[i] == s.tasks[i])
  {
  }

  /** Within a session the auth flag never returns to 0. */
  lemma AuthNeverLost(s: State, step: Step, i: nat)
    requires PoolKept(s) && Enabled(s, step)
    requires i < |s.tasks| && s.tasks[i].Serving? && s.tasks[i].session.auth
    ensures var after := Next(s, step);
            i < |after.tasks| &&
            (after.tasks[i].Serving? ==>
               after.tasks[i].session.auth && after.tasks[i].session.fd == s.tasks[i].session.fd)
  {
    match step
    case Connect(fd, sid, accepted, now) =>
      if s.idle != [] {
        var n := |s.idle| - 1;
        assert s.idle[n] in s.idle;
        LoopTopKeepsAuth(s.(idle := s.idle[..n], trace := s.trace + [Accept(fd)]), s.idle[n],
                         Session(fd, sid, false, accepted, now, 0), now, i);
      }
    case Wake(k, input, now) =>
      WakeKeepsAuth(s, k, input, now, i);
  }

  lemma WakeKeepsAuth(s: State, k: nat, input: Input, now: int, i: nat)
    requires k < |s.tasks| && s.tasks[k].Serving?
    requires i < |s.tasks| && s.tasks[i].Serving? && s.tasks[i].session.auth
    ensures var after := WakeStep(s, k, input, now);
            i < |after.tasks| &&
            (after.tasks[i].Serving? ==>
               after.tasks[i].session.auth && after.tasks[i].session.fd == s.tasks[i].session.fd)
  {
    var session := s.tasks[k].session;
    var fd := session.fd;
    match input
    case Data(bytes, run) =>
      var read := s.(trace := s.trace + [Read(fd, bytes)]);
      if |bytes| < MIN_SIZE {
        LoopTopKeepsAuth(read, k, session, now, i);
      } else {
        AuthGrows(session.auth, Events(run));
        LoopTopKeepsAuth(read.(trace := read.trace + Handle(fd, session.sid, session.auth, Events(run))), k,
                         session.(auth := AuthAfter(session.auth, Events(run))), now, i);
      }
    case Again =>
      if session.auth {
        LoopTopKeepsAuth(s.(trace := s.trace + [Read(fd, [])]), k, session, now, i);
      }
    case Eof =>
    case Error =>
  }
}
