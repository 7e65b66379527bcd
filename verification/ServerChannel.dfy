/**
 * The server channel's own code (src/core/modules/easn/easn_server_channel.cpp), stretch by
 * stretch, against the transition system of ServerSpec.
 */
module ServerChannel {
  import opened Crc16
  import opened CrcCheck
  import opened ClientManager
  import opened EasnPackage
  import opened PacketParser
  import Spec = ServerSpec
  import ServerTheorems
  import SessionSteps

  /** What read returns: bytes, end of file, EAGAIN, or another error. */
  datatype ReadResult = Bytes(bytes: seq<Byte>) | Eof | Again | Error

  /** task_t, with the local variables of its coroutine. */
  class Task {
    var fd: int
    var session: Connection?
    var accepted: int
    var polled: int
    var timeout: int
    ghost const slot: nat

    constructor (ghost slot: nat)
      ensures fd == -1 && session == null && this.slot == slot
    {
      this.slot := slot;
      fd, session, accepted, polled, timeout := -1, null, 0, 0, 0;
    }

    /** The task's fields are those of the model's task. */
    ghost predicate Shows(m: Spec.Task)
      reads this, session
    {
      match m
      case Parked => fd == -1
      case Serving(s) =>
        && fd == s.fd >= 0 && session != null
        && session.sid == s.sid && session.auth == s.auth && session.socketFd == fd
        && accepted == s.accepted && polled == s.polled && timeout == s.timeout
    }
  }

  lemma Concat4<T>(t: seq<T>, a: seq<T>, b: seq<T>, c: seq<T>)
    ensures ((t + a) + b) + c == t + (a + b + c)
  {
  }

  /** An accepted packet's outputs, then those of the call after it. */
  lemma AcceptedHandled(fd: int, sid: nat, auth: bool, run: Calls, ack: Event, call: Event)
    requires run.Accepted? && ack == Write(AckBytes(run.window, SUCCESS)) && call == Callback(run.window)
    ensures var auth' := Spec.AuthOne(auth, call);
            && Spec.Handle(fd, sid, auth, Events(run))
               == Spec.HandleOne(fd, sid, auth, ack) + Spec.HandleOne(fd, sid, auth, call)
                + Spec.Handle(fd, sid, auth', Events(run.rest))
            && Spec.AuthAfter(auth, Events(run)) == Spec.AuthAfter(auth', Events(run.rest))
  {
    ServerTheorems.HandleSingle(fd, sid, auth, ack);
    ServerTheorems.HandleSingle(fd, sid, auth, call);
    ServerTheorems.HandleAppend(fd, sid, auth, [ack], [call]);
    ServerTheorems.AuthAppend(auth, [ack], [call]);
    assert [ack] + [call] == [ack, call];
    ServerTheorems.HandleAppend(fd, sid, auth, [ack, call], Events(run.rest));
    ServerTheorems.AuthAppend(auth, [ack, call], Events(run.rest));
  }

  /** A rejected packet's reply, then the outputs of both recursions. */
  lemma RejectedHandled(fd: int, sid: nat, auth: bool, run: Calls, ack: Event)
    requires run.Rejected? && ack == Write(AckBytes(run.window, CRC_ERROR))
    ensures var auth' := Spec.AuthAfter(auth, Events(run.retry));
            && Spec.Handle(fd, sid, auth, Events(run))
               == Spec.HandleOne(fd, sid, auth, ack) + Spec.Handle(fd, sid, auth, Events(run.retry))
                + Spec.Handle(fd, sid, auth', Events(run.rest))
            && Spec.AuthAfter(auth, Events(run)) == Spec.AuthAfter(auth', Events(run.rest))
  {
    ServerTheorems.HandleSingle(fd, sid, auth, ack);
    ServerTheorems.HandleAppend(fd, sid, auth, [ack], Events(run.retry));
    ServerTheorems.AuthAppend(auth, [ack], Events(run.retry));
    ServerTheorems.HandleAppend(fd, sid, auth, [ack] + Events(run.retry), Events(run.rest));
    ServerTheorems.AuthAppend(auth, [ack] + Events(run.retry), Events(run.rest));
  }

  class Channel {
    const manager: Manager
    var tasks: seq<Task>
    var idle: seq<Task>
    var trace: seq<Spec.Output>
    ghost const size: nat
    ghost const started: int
    ghost var steps: seq<Spec.Step>
    ghost var model: Spec.State
    ghost var owner: map<Connection, nat>

    /** The channel stands as in its model, which is the state its steps so far reach. */
    ghost predicate Valid()
      reads this, manager, manager.connections.Values, tasks
      reads set t | t in tasks && t.session != null :: t.session
    {
      manager.Valid() && Represents(model) && Known() && model == Spec.After(size, started, steps)
    }

    /** Every task's session is a connection that the index was told of, under its own sid. */
    ghost predicate Known()
      reads this`tasks, manager`history, tasks, set t | t in tasks && t.session != null :: t.session
    {
      forall i :: 0 <= i < |tasks| && tasks[i].session != null ==> Listed(tasks[i].session)
    }

    ghost predicate Listed(session: Connection)
      reads session, manager`history
    {
      New(session.sid, session) in manager.history
    }

    /** Tasks, stack and outputs are those of m. */
    ghost predicate Represents(m: Spec.State)
      reads this`trace, this`tasks, this`idle, this`owner, tasks
      reads set t | t in tasks && t.session != null :: t.session
    {
      && trace == m.trace && |tasks| == |m.tasks| && |idle| == |m.idle|
      && (forall i :: 0 <= i < |tasks| ==> InPlace(tasks[i], i) && tasks[i].Shows(m.tasks[i]))
      && (forall k :: 0 <= k < |idle| ==> m.idle[k] < |tasks| && idle[k] == tasks[m.idle[k]])
    }

    /** A task has one place in the pool, and its session belongs to no other task. */
    ghost predicate InPlace(t: Task, i: nat)
      reads this`owner, t
    {
      t.slot == i && (t.session != null ==> t.session in owner && owner[t.session] == i)
    }

    // -------------------------------------------------------------------
    // handle_packet
    // -------------------------------------------------------------------

    /** The callback: dispatch what the session may send, and authorise it on INIT. */
    method OnPacket(fd: int, session: Connection, p: Packet)
      modifies this`trace, session`auth
      ensures trace == old(trace) + Spec.HandleOne(fd, session.sid, old(session.auth), Callback(p))
      ensures session.auth == Spec.AuthOne(old(session.auth), Callback(p))
      ensures old(session.auth) || p[2] == 1 ==>
                session.auth && trace == old(trace) + [Spec.Dispatch(fd, session.sid, p)]
      ensures !old(session.auth) && p[2] != 1 ==> !session.auth && trace == old(trace)
    {
      if PacketType(p) != TYPE_INIT && !session.auth {
        // not an authentication packet, and the connection is not authorised
      } else {
        trace := trace + [Spec.Dispatch(fd, session.sid, p)];
        if PacketType(p) == TYPE_INIT {
          session.auth := true;
        }
      }
    }

    /** The first output since then is the reply with the given code to the packet. */
    predicate Replied(before: seq<Spec.Output>, fd: int, w: Packet, code: Byte)
      reads this`trace
    {
      && |before| < |trace| && trace[|before|].Ack? && trace[|before|].fd == fd
      && AckOf(trace[|before|].bytes, w, code)
    }

    method WriteAck(fd: int, session: Connection, ptk: array<Byte>, code: nat)
      requires ptk.Length == MAX_SIZE && code < 0x1_0000
      modifies this`trace
      ensures trace == old(trace) + Spec.HandleOne(fd, session.sid, session.auth, Write(AckBytes(ptk[..], code)))
    {
      var ack := NewAck();
      FillAckPacket(ack, ptk, code);
      trace := trace + [Spec.Ack(fd, ack[..])];
    }

    method HandlePacket(fd: int, session: Connection, buf: array<Byte>, pos: nat, len: nat)
      returns (ghost run: Calls)
      requires pos <= len <= buf.Length && len <= MAX_SIZE
      modifies this`trace, session`auth
      ensures IsRun(buf[..len], pos, run)
      ensures trace == old(trace) + Spec.Handle(fd, session.sid, old(session.auth), Events(run))
      ensures session.auth == Spec.AuthAfter(old(session.auth), Events(run))
      decreases len - pos, 3
    {
      var start := FindHeaderPosition(buf, pos, len);
      if start == -1 {
        run := Nothing;
      } else {
        var ptk := CopyPacket(buf, start, len);
        run := HandleCandidate(fd, session, buf, pos, start, len, ptk);
      }
    }

    /** The rest of the call, for the packet it found. */
    method HandleCandidate(fd: int, session: Connection, buf: array<Byte>, ghost pos: nat, start: nat, len: nat,
                           ptk: array<Byte>) returns (ghost run: Calls)
      requires len <= buf.Length && len <= MAX_SIZE && FirstHeader(buf[..len], pos, start)
      requires ptk.Length == MAX_SIZE && IsWindow(buf[..len], start, ptk[..])
      modifies this`trace, session`auth
      ensures IsRun(buf[..len], pos, run)
      ensures trace == old(trace) + Spec.Handle(fd, session.sid, old(session.auth), Events(run))
      ensures session.auth == Spec.AuthAfter(old(session.auth), Events(run))
      decreases len - start, 2
    {
      ghost var w: Packet := ptk[..];
      var size := SizeofPacket(ptk[..]);
      if size < 2 {
        run := Undefined(start, w);
        return;
      }
      var ok := CheckCrc(ptk, size);
      if ok {
        run := FinishAccepted(fd, session, buf, start, len, ptk, w);
      } else {
        run := FinishRejected(fd, session, buf, start, len, ptk, w);
      }
      CandidateRun(buf[..len], pos, start, run);
    }

    /** rece_ptk: the input from the header on, and whatever the stack holds behind it. */
    static method CopyPacket(buf: array<Byte>, start: nat, len: nat) returns (ptk: array<Byte>)
      requires start <= len <= buf.Length && len <= MAX_SIZE
      ensures fresh(ptk) && ptk.Length == MAX_SIZE && IsWindow(buf[..len], start, ptk[..])
    {
      ptk := new Byte[MAX_SIZE];
      CopyInto(ptk, 0, buf[start..len]);
      assert buf[..len][start..] == buf[start..len];
    }

    /** The last step of a call: another one after the packet, when input is left there. */
    method HandleRest(fd: int, session: Connection, buf: array<Byte>, start: nat, len: nat,
                      ptk: array<Byte>, ghost w: Packet) returns (ghost rest: Calls)
      requires start < len <= buf.Length && len <= MAX_SIZE
      requires ptk.Length == MAX_SIZE && ptk[..] == w && SizeofPacket(w) >= 2
      modifies this`trace, session`auth
      ensures IsRest(buf[..len], start, w, rest)
      ensures trace == old(trace) + Spec.Handle(fd, session.sid, old(session.auth), Events(rest))
      ensures session.auth == Spec.AuthAfter(old(session.auth), Events(rest))
      decreases len - start, 0
    {
      rest := Ended;
      if Declared(ptk[..]) < len - start {
        rest := HandlePacket(fd, session, buf, start + SizeofPacket(ptk[..]), len);
      }
    }

    /** The CRC matched: reply, call back, and go on after the packet. */
    method FinishAccepted(fd: int, session: Connection, buf: array<Byte>, start: nat, len: nat,
                          ptk: array<Byte>, ghost w: Packet) returns (ghost run: Calls)
      requires start < len <= buf.Length && len <= MAX_SIZE
      requires ptk.Length == MAX_SIZE && ptk[..] == w && SizeofPacket(w) >= 2
      modifies this`trace, session`auth
      ensures run.Accepted? && run.start == start && run.window == w && IsRest(buf[..len], start, w, run.rest)
      ensures Replied(old(trace), fd, w, 0)
      ensures trace == old(trace) + Spec.Handle(fd, session.sid, old(session.auth), Events(run))
      ensures session.auth == Spec.AuthAfter(old(session.auth), Events(run))
      decreases len - start, 1
    {
      ghost var auth, sid, ack, call := session.auth, session.sid, Write(AckBytes(w, SUCCESS)), Callback(w);
      AckBytesAre(w, SUCCESS, 0);
      WriteAck(fd, session, ptk, SUCCESS);
      OnPacket(fd, session, ptk[..]);
      ghost var rest := HandleRest(fd, session, buf, start, len, ptk, w);
      run := Accepted(start, w, rest);
      AcceptedHandled(fd, sid, auth, run, ack, call);
      Concat4(old(trace), Spec.HandleOne(fd, sid, auth, ack), Spec.HandleOne(fd, sid, auth, call),
              Spec.Handle(fd, sid, Spec.AuthOne(auth, call), Events(rest)));
    }

    /** The CRC did not match: reply, search on two bytes later, and also go on after the packet. */
    method FinishRejected(fd: int, session: Connection, buf: array<Byte>, start: nat, len: nat,
                          ptk: array<Byte>, ghost w: Packet) returns (ghost run: Calls)
      requires start + 2 <= len <= buf.Length && len <= MAX_SIZE
      requires ptk.Length == MAX_SIZE && ptk[..] == w && SizeofPacket(w) >= 2
      modifies this`trace, session`auth
      ensures run.Rejected? && run.start == start && run.window == w
      ensures Replied(old(trace), fd, w, 1)
      ensures IsRun(buf[..len], start + 2, run.retry) && IsRest(buf[..len], start, w, run.rest)
      ensures trace == old(trace) + Spec.Handle(fd, session.sid, old(session.auth), Events(run))
      ensures session.auth == Spec.AuthAfter(old(session.auth), Events(run))
      decreases len - start, 1
    {
      ghost var auth, sid, ack := session.auth, session.sid, Write(AckBytes(w, CRC_ERROR));
      AckBytesAre(w, CRC_ERROR, 1);
      WriteAck(fd, session, ptk, CRC_ERROR);
      ghost var retry := HandlePacket(fd, session, buf, start + 2, len);
      ghost var auth' := session.auth;
      ghost var rest := HandleRest(fd, session, buf, start, len, ptk, w);
      run := Rejected(start, w, retry, rest);
      RejectedHandled(fd, sid, auth, run, ack);
      Concat4(old(trace), Spec.HandleOne(fd, sid, auth, ack), Spec.Handle(fd, sid, auth, Events(retry)),
              Spec.Handle(fd, sid, auth', Events(rest)));
    }

    // -------------------------------------------------------------------
    // init
    // -------------------------------------------------------------------

    constructor (n: nat, ghost clock: int)
      ensures Valid() && size == n && steps == [] && model == Spec.Start(n, clock)
      ensures fresh(manager) && fresh(tasks) && |tasks| == n && idle == tasks && trace == []
      ensures forall t :: t in tasks ==> t.fd == -1 && t.session == null
    {
      manager := new Manager();
      tasks, idle, trace := [], [], [];
      size, started, steps, model, owner := n, clock, [], Spec.Start(n, clock), map[];
      new;
      AddTasks(n, clock);
    }

    method AddTasks(n: nat, ghost clock: int)
      requires Represents(Spec.Start(0, clock))
      modifies this`tasks, this`idle
      ensures Represents(Spec.Start(n, clock)) && fresh(tasks) && forall t :: t in tasks ==> t.session == null
    {
      for i := 0 to n
        invariant Represents(Spec.Start(i, clock)) && fresh(tasks) && forall t :: t in tasks ==> t.session == null
      {
        AddTask(i, Spec.Start(i, clock));
        StartGrows(i, clock);
      }
    }

    /** One more task, parked at its first yield and pushed on the stack. */
    method AddTask(ghost i: nat, ghost m: Spec.State)
      requires Represents(m) && |tasks| == i
      modifies this`tasks, this`idle
      ensures Represents(m.(tasks := m.tasks + [Spec.Parked], idle := m.idle + [i]))
      ensures exists t: Task :: fresh(t) && t.session == null && tasks == old(tasks) + [t]
    {
      var task := new Task(i);
      tasks, idle := tasks + [task], idle + [task];
    }

    static lemma StartGrows(i: nat, clock: int)
      ensures var m := Spec.Start(i, clock);
              Spec.Start(i + 1, clock) == m.(tasks := m.tasks + [Spec.Parked], idle := m.idle + [i])
    {
    }

    // -------------------------------------------------------------------
    // server_read_write
    // -------------------------------------------------------------------

    /** The task has closed its descriptor as its last output since then, and is on top of the stack. */
    predicate Left(task: Task, fd: int, before: seq<Spec.Output>, stack: seq<Task>)
      reads this`trace, this`idle, task`fd
    {
      task.fd == -1 && trace == before + [Spec.Close(fd)] && idle == stack + [task]
    }

    /** The task polls its descriptor: for ever when it is authorised, else until 10 s after its accept. */
    predicate Polls(task: Task, fd: int, before: seq<Spec.Output>, stack: seq<Task>, now: int)
      reads this`trace, this`idle, task, task.session
    {
      && task.fd == fd && trace == before && idle == stack && task.session != null && task.polled == now
      && task.timeout == (if task.session.auth then -1 else (task.accepted + 10 - now) * 1000)
    }

    /** Leaving the session loop: close the descriptor, park the task and push it. */
    method EndSession(task: Task, ghost i: nat, ghost m: Spec.State)
      requires Represents(m) && i < |tasks| && task == tasks[i] && m.tasks[i].Serving?
      modifies this`trace, this`idle, task`fd
      ensures Represents(Spec.Finish(m, i, m.tasks[i].session.fd))
      ensures Left(task, old(task.fd), old(trace), old(idle))
    {
      trace := trace + [Spec.Close(task.fd)];
      task.fd := -1;
      idle := idle + [task];
    }

    /** The head of the session loop: give up on a late session, or poll. */
    method LoopHead(task: Task, ghost i: nat, now: int, ghost m: Spec.State)
      requires Represents(m) && i < |tasks| && task == tasks[i] && m.tasks[i].Serving?
      modifies this`trace, this`idle, task`fd, task`polled, task`timeout
      ensures Represents(Spec.LoopTop(m, i, m.tasks[i].session, now)) && task.session != null
      ensures if !task.session.auth && now >= task.accepted + 10 then Left(task, old(task.fd), old(trace), old(idle))
              else Polls(task, old(task.fd), old(trace), old(idle), now)
    {
      var timeoutLeft := -1;
      if !task.session.auth {
        timeoutLeft := (Spec.TIMEOUT - (now - task.accepted)) * 1000;
        if timeoutLeft <= 0 {
          EndSession(task, i, m.(clock := now));
          return;
        }
      }
      task.polled, task.timeout := now, timeoutLeft;
    }

    /** The model's input for a result, with the run that the parser made over bytes enough for a packet. */
    static ghost predicate Reads(result: ReadResult, input: Spec.Input) {
      match result
      case Bytes(bytes) =>
        input.Data? && input.bytes == bytes && (|bytes| >= MIN_SIZE ==> IsRun(bytes, 0, input.run))
      case Eof => input == Spec.Eof
      case Again => input == Spec.Again
      case Error => input == Spec.Error
    }

    /** A read that returned no bytes: loop when the session may wait, else leave. */
    method ReadNothing(task: Task, ghost i: nat, now: int, wait: bool, ghost input: Spec.Input, ghost m: Spec.State)
      requires Represents(m) && i < |tasks| && task == tasks[i] && m.tasks[i].Serving?
      requires !input.Data? && wait == (input.Again? && m.tasks[i].session.auth)
      modifies this`trace, this`idle, task`fd, task`polled, task`timeout
      ensures Represents(Spec.WakeStep(m, i, input, now))
      ensures var read := old(trace) + [Spec.Read(old(task.fd), [])];
              if wait then Polls(task, old(task.fd), read, old(idle), now)
              else Left(task, old(task.fd), read, old(idle))
    {
      ghost var read := m.(trace := m.trace + [Spec.Read(task.fd, [])]);
      trace := trace + [Spec.Read(task.fd, [])];
      if wait {
        LoopHead(task, i, now, read);
      } else {
        EndSession(task, i, read.(clock := now));
      }
    }

    /** A read that returned bytes: too few for a packet, or handed to the parser. */
    method ReadBytes(task: Task, ghost i: nat, bytes: seq<Byte>, now: int, ghost m: Spec.State)
      returns (ghost input: Spec.Input, ghost sent: seq<Spec.Output>)
      requires Represents(m) && i < |tasks| && task == tasks[i] && m.tasks[i].Serving?
      requires 1 <= |bytes| <= MAX_SIZE
      modifies this`trace, this`idle, task`fd, task`polled, task`timeout, task.session`auth
      ensures input.Data? && input.bytes == bytes && (|bytes| >= MIN_SIZE ==> IsRun(bytes, 0, input.run))
      ensures Represents(Spec.WakeStep(m, i, input, now)) && task.session != null
      ensures var before := old(trace) + [Spec.Read(old(task.fd), bytes)] + sent;
              if !task.session.auth && now >= task.accepted + 10 then Left(task, old(task.fd), before, old(idle))
              else Polls(task, old(task.fd), before, old(idle), now)
    {
      ghost var s := m.tasks[i].session;
      trace := trace + [Spec.Read(task.fd, bytes)];
      ghost var read := m.(trace := m.trace + [Spec.Read(s.fd, bytes)]);
      if |bytes| < MIN_SIZE {
        input, sent := Spec.Data(bytes, Ended), [];
        LoopHead(task, i, now, read);
      } else {
        ghost var run, auth;
        run, sent, auth := HandleBytes(task, i, bytes, read);
        input := Spec.Data(bytes, run);
        ghost var s' := s.(auth := Spec.AuthAfter(s.auth, Events(run)));
        ghost var handled := read.(trace := read.trace + Spec.Handle(s.fd, s.sid, s.auth, Events(run)));
        LoopHead(task, i, now, handled.(tasks := handled.tasks[i := Spec.Serving(s')]));
        ServerTheorems.LoopTopOverwrites(handled, i, Spec.Serving(s'), s', now);
      }
    }

    /** The parser's run over the bytes of a read, what the session sends in it, and its auth flag after it. */
    static ghost predicate Parsed(bytes: seq<Byte>, s: Spec.Session, run: Calls, sent: seq<Spec.Output>, auth: bool) {
      && IsRun(bytes, 0, run)
      && sent == Spec.Handle(s.fd, s.sid, s.auth, Events(run))
      && auth == Spec.AuthAfter(s.auth, Events(run))
    }

    /** The parser over the bytes of one read. */
    method Parse(fd: int, session: Connection, bytes: seq<Byte>, ghost s: Spec.Session)
      returns (ghost run: Calls, ghost sent: seq<Spec.Output>)
      requires |bytes| <= MAX_SIZE && fd == s.fd && session.sid == s.sid && session.auth == s.auth
      modifies this`trace, session`auth
      ensures Parsed(bytes, s, run, sent, session.auth)
      ensures trace == old(trace) + sent
    {
      var buf := new Byte[MAX_SIZE](_ => 0x00);
      CopyInto(buf, 0, bytes);
      assert buf[..|bytes|] == bytes;
      run := HandlePacket(fd, session, buf, 0, |bytes|);
      sent := Spec.Handle(s.fd, s.sid, s.auth, Events(run));
    }

    method HandleBytes(task: Task, ghost i: nat, bytes: seq<Byte>, ghost m: Spec.State)
      returns (ghost run: Calls, ghost sent: seq<Spec.Output>, ghost auth: bool)
      requires Represents(m) && i < |tasks| && task == tasks[i] && m.tasks[i].Serving?
      requires |bytes| <= MAX_SIZE
      modifies this`trace, task.session`auth
      ensures Parsed(bytes, m.tasks[i].session, run, sent, auth)
      ensures Represents(m.(tasks := m.tasks[i := Spec.Serving(m.tasks[i].session.(auth := auth))],
                            trace := m.trace + sent))
    {
      run, sent := Parse(task.fd, task.session, bytes, m.tasks[i].session);
      auth := task.session.auth;
      ghost var s := m.tasks[i].session;
      ghost var mid := m.(tasks := m.tasks[i := Spec.Serving(s.(auth := auth))], trace := m.trace + sent);
      forall j | 0 <= j < |tasks| ensures InPlace(tasks[j], j) && tasks[j].Shows(mid.tasks[j]) {
        assert InPlace(tasks[j], j);
      }
    }

    /** The session ends: its client is gone, or it has not authenticated in time. */
    static predicate SessionOver(result: ReadResult, was: bool, auth: bool, accepted: int, now: int) {
      || result.Eof? || result.Error?
      || (result.Again? && !was)
      || (result.Bytes? && !auth && now >= accepted + 10)
    }

    /** One pass of the session loop after its poll, up to the next poll or the end of the session. */
    method Pass(task: Task, ghost i: nat, result: ReadResult, now: int, ghost m: Spec.State)
      returns (ghost input: Spec.Input, ghost sent: seq<Spec.Output>)
      requires Represents(m) && i < |tasks| && task == tasks[i] && m.tasks[i].Serving?
      requires result.Bytes? ==> 1 <= |result.bytes| <= MAX_SIZE
      modifies this`trace, this`idle, task`fd, task`polled, task`timeout, task.session`auth
      ensures Reads(result, input)
      ensures Represents(Spec.WakeStep(m, i, input, now)) && task.session != null
      ensures var before := old(trace) + [Spec.Read(old(task.fd), SessionSteps.BytesOf(input))] + sent;
              if SessionOver(result, old(task.session.auth), task.session.auth, task.accepted, now)
              then Left(task, old(task.fd), before, old(idle))
              else Polls(task, old(task.fd), before, old(idle), now)
    {
      sent := [];
      match result
      case Bytes(bytes) =>
        input, sent := ReadBytes(task, i, bytes, now, m);
      case Eof =>
        input := Spec.Eof;
        ReadNothing(task, i, now, false, input, m);
      case Again =>
        input := Spec.Again;
        ReadNothing(task, i, now, task.session.auth, input, m);
      case Error =>
        input := Spec.Error;
        ReadNothing(task, i, now, false, input, m);
    }

    /** A poll has returned: read, handle what came, and go round the loop or leave it. */
    method ServerReadWrite(task: Task, ghost i: nat, result: ReadResult, now: int)
      returns (ghost input: Spec.Input, ghost sent: seq<Spec.Output>)
      requires Valid() && i < |tasks| && task == tasks[i] && model.tasks[i].Serving? && model.clock <= now
      requires result.Bytes? ==> 1 <= |result.bytes| <= MAX_SIZE
      modifies this`trace, this`idle, this`model, this`steps, task`fd, task`polled, task`timeout, task.session`auth
      ensures Reads(result, input) && steps == old(steps) + [Spec.Wake(i, input, now)]
      ensures Valid() && model == Spec.WakeStep(old(model), i, input, now) && task.session != null
      ensures var before := old(trace) + [Spec.Read(old(task.fd), SessionSteps.BytesOf(input))] + sent;
              if SessionOver(result, old(task.session.auth), task.session.auth, task.accepted, now)
              then Left(task, old(task.fd), before, old(idle))
              else Polls(task, old(task.fd), before, old(idle), now)
    {
      input, sent := Pass(task, i, result, now, model);
      Record(Spec.Wake(i, input, now));
    }

    /** A step has been made: the run goes on by it. */
    ghost method Record(step: Spec.Step)
      requires manager.Valid() && model == Spec.After(size, started, steps) && Spec.Enabled(model, step)
      requires Known() && Represents(Spec.Next(model, step))
      modifies this`steps, this`model
      ensures Valid() && steps == old(steps) + [step] && model == Spec.Next(old(model), step)
    {
      ServerTheorems.RunExtends(size, started, steps, step);
      steps := steps + [step];
      model := Spec.Next(model, step);
    }

    // -------------------------------------------------------------------
    // server_accept
    // -------------------------------------------------------------------

    /** As Represents, but for task i, which has been given its descriptor and not yet run. */
    ghost predicate Awaits(m: Spec.State, i: nat)
      reads this`trace, this`tasks, this`idle, this`owner, tasks
      reads set t | t in tasks && t.session != null :: t.session
    {
      && trace == m.trace && i < |tasks| == |m.tasks| && |idle| == |m.idle|
      && (forall j :: 0 <= j < |tasks| ==> InPlace(tasks[j], j) && (j != i ==> tasks[j].Shows(m.tasks[j])))
      && (forall k :: 0 <= k < |idle| ==> m.idle[k] < |tasks| && idle[k] == tasks[m.idle[k]])
    }

    /** The task has a new connection on fd, which the index was told of and holds if its sid was free. */
    ghost predicate Opens(task: Task, timestamp: nat, fd: int, history: seq<Op<Connection>>,
                          connections: map<nat, Connection>)
      reads task, task.session, manager`history, manager`connections
    {
      task.session != null &&
      var session: Connection := task.session;
      && session.sid == timestamp && session.socketFd == fd
      && manager.history == history + [New(timestamp, session)]
      && manager.connections == if timestamp in connections then connections else connections[timestamp := session]
    }

    /** A resumed task opens a session on its descriptor and comes to the head of the session loop. */
    method StartSession(task: Task, ghost i: nat, timestamp: nat, accepted: int, now: int, ghost m: Spec.State)
      requires manager.Valid() && Known() && Awaits(m, i) && task == tasks[i] && task.fd >= 0
      modifies this`owner, this`trace, this`idle, manager, task
      ensures manager.Valid()
      ensures Represents(Spec.LoopTop(m, i, Spec.Session(old(task.fd), timestamp, false, accepted, now, 0), now))
      ensures Known() && task.session != null && fresh(task.session)
      ensures Opens(task, timestamp, old(task.fd), old(manager.history), old(manager.connections))
    {
      ghost var s := Spec.Session(task.fd, timestamp, false, accepted, now, 0);
      OpenSession(task, i, timestamp, accepted, now, m);
      LoopHead(task, i, now, m.(tasks := m.tasks[i := Spec.Serving(s)]));
      ServerTheorems.LoopTopOverwrites(m, i, Spec.Serving(s), s, now);
    }

    method OpenSession(task: Task, ghost i: nat, timestamp: nat, accepted: int, now: int, ghost m: Spec.State)
      requires manager.Valid() && Known() && Awaits(m, i) && task == tasks[i] && task.fd >= 0
      modifies this`owner, manager, task`session, task`accepted, task`polled, task`timeout
      ensures manager.Valid()
      ensures var s := Spec.Session(task.fd, timestamp, false, accepted, now, 0);
              Represents(m.(tasks := m.tasks[i := Spec.Serving(s)]))
      ensures Known() && task.session != null && fresh(task.session)
      ensures Opens(task, timestamp, old(task.fd), old(manager.history), old(manager.connections))
    {
      var session := manager.NewConnection(timestamp, task.fd);
      forall j | 0 <= j < |tasks| && tasks[j].session != null ensures Listed(tasks[j].session) {
        assert old(Listed(tasks[j].session));
      }
      Adopt(task, i, session, accepted, now, m);
    }

    /** The task takes a connection that no other task has. */
    method Adopt(task: Task, ghost i: nat, session: Connection, accepted: int, now: int, ghost m: Spec.State)
      requires Awaits(m, i) && task == tasks[i] && task.fd == session.socketFd >= 0 && !session.auth
      requires Known() && Listed(session) && forall t :: t in tasks ==> t.session != session
      modifies this`owner, task`session, task`accepted, task`polled, task`timeout
      ensures Known() && task.session == session
      ensures var s := Spec.Session(task.fd, session.sid, false, accepted, now, 0);
              Represents(m.(tasks := m.tasks[i := Spec.Serving(s)]))
    {
      task.session, task.accepted, task.polled, task.timeout := session, accepted, now, 0;
      owner := owner[session := i];
      ghost var s := Spec.Session(task.fd, session.sid, false, accepted, now, 0);
      forall j | 0 <= j < |tasks|
        ensures InPlace(tasks[j], j) && tasks[j].Shows(m.tasks[i := Spec.Serving(s)][j])
      {
        assert InPlace(tasks[j], j);
      }
    }

    /** The pool is full: close the connection at once. */
    method Refuse(connfd: int, ghost timestamp: nat, ghost accepted: int, ghost now: int, ghost m: Spec.State)
      requires Represents(m) && |idle| == 0 && Spec.IdleInPool(m)
      modifies this`trace
      ensures Represents(Spec.ConnectStep(m, connfd, timestamp, accepted, now))
    {
      trace := trace + [Spec.Accept(connfd), Spec.Close(connfd)];
    }

    /** The task on top of the stack takes the connection. */
    method Hand(connfd: int, timestamp: nat, accepted: int, now: int, ghost m: Spec.State)
      requires manager.Valid() && Known() && Represents(m) && |idle| > 0 && Spec.IdleInPool(m) && connfd >= 0
      modifies this`owner, this`trace, this`idle, manager, tasks
      ensures manager.Valid() && Represents(Spec.ConnectStep(m, connfd, timestamp, accepted, now))
      ensures Known() && var task := old(idle[|idle| - 1]);
              && task.session != null && fresh(task.session)
              && Opens(task, timestamp, connfd, old(manager.history), old(manager.connections))
    {
      ghost var last := |idle| - 1;
      ghost var popped := m.(idle := m.idle[..last], trace := m.trace + [Spec.Accept(connfd)]);
      var task := idle[|idle| - 1];
      task.fd := connfd;
      idle := idle[..|idle| - 1];
      trace := trace + [Spec.Accept(connfd)];
      assert Awaits(popped, m.idle[last]);
      StartSession(task, m.idle[last], timestamp, accepted, now, popped);
    }

    /** One pass of the accept loop after a connection: refuse it, or hand it to an idle task. */
    method Take(connfd: int, timestamp: nat, accepted: int, now: int, ghost m: Spec.State)
      requires manager.Valid() && Known() && Represents(m) && Spec.IdleInPool(m) && connfd >= 0
      modifies this`owner, this`trace, this`idle, manager, tasks
      ensures manager.Valid() && Known() && Represents(Spec.ConnectStep(m, connfd, timestamp, accepted, now))
      ensures |old(idle)| == 0 ==>
                manager.history == old(manager.history) && manager.connections == old(manager.connections)
      ensures |old(idle)| > 0 ==> var task := old(idle[|idle| - 1]);
                && task.session != null && fresh(task.session)
                && Opens(task, timestamp, connfd, old(manager.history), old(manager.connections))
    {
      if |idle| == 0 {
        Refuse(connfd, timestamp, accepted, now, m);
      } else {
        Hand(connfd, timestamp, accepted, now, m);
      }
    }

    /** A connection has been accepted, on a descriptor that is not open. */
    method ServerAccept(connfd: int, timestamp: nat, accepted: int, now: int)
      requires Valid() && connfd >= 0 && connfd !in Spec.Open(trace) && model.clock <= accepted <= now
      modifies this`owner, this`trace, this`idle, this`model, this`steps, manager, tasks
      ensures Valid() && model == Spec.ConnectStep(old(model), connfd, timestamp, accepted, now)
      ensures steps == old(steps) + [Spec.Connect(connfd, timestamp, accepted, now)]
      ensures |old(idle)| == 0 ==>
                manager.history == old(manager.history) && manager.connections == old(manager.connections)
      ensures |old(idle)| > 0 ==> var task := old(idle[|idle| - 1]);
                && task.session != null && fresh(task.session)
                && Opens(task, timestamp, connfd, old(manager.history), old(manager.connections))
    {
      ServerTheorems.IdleStays(size, started, steps);
      Take(connfd, timestamp, accepted, now, model);
      Record(Spec.Connect(connfd, timestamp, accepted, now));
    }

    /** At any time the channel's outputs and tasks are those of a run, with all that holds in every run. */
    lemma StandsInRun()
      requires Valid()
      ensures trace == Spec.After(size, started, steps).trace && |tasks| == size
      ensures ServerTheorems.PoolKept(model) && ServerTheorems.FdsKept(model.tasks, trace)
    {
      ServerTheorems.PoolConserved(size, started, steps);
      ServerTheorems.FdsConserved(size, started, steps);
    }
  }
}
