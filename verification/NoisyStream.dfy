/** Well-formed frames in noise: what every run of the parser makes of them. */
module NoisyStream {
  import opened Crc16
  import opened CrcCheck
  import opened CrcAlgebra
  import opened CrcDetection
  import opened EasnPackage
  import opened PacketParser
  import opened ParserDelivery

  /** Some noise and the message whose frame follows it. */
  datatype Chunk = Chunk(noise: seq<Byte>, msg: Message)

  /** Noise holds no header of its own. */
  ghost predicate Quiet(noise: seq<Byte>) {
    NoHeader(noise, 0, |noise|)
  }

  ghost predicate AllFit(chunks: seq<Chunk>) {
    forall i :: 0 <= i < |chunks| ==> Quiet(chunks[i].noise) && chunks[i].msg.Fits()
  }

  ghost function Stream(chunks: seq<Chunk>, tail: seq<Byte>): seq<Byte>
    requires AllFit(chunks)
  {
    if chunks == [] then tail
    else chunks[0].noise + Encode(chunks[0].msg) + Stream(chunks[1..], tail)
  }

  function Messages(chunks: seq<Chunk>): seq<Message> {
    if chunks == [] then [] else [chunks[0].msg] + Messages(chunks[1..])
  }

  /** Where the frames begin, for a stream that begins at pos. */
  function FrameStarts(chunks: seq<Chunk>, pos: nat): seq<nat> {
    if chunks == [] then []
    else
      var start := pos + |chunks[0].noise|;
      [start] + FrameStarts(chunks[1..], start + |chunks[0].msg.payload| + MIN_SIZE)
  }

  /** What an observer sees of an event: bytes written, or the frame handed over. */
  datatype Observation = Sent(bytes: seq<Byte>) | Got(frame: seq<Byte>)

  function ObserveOne(event: Event): Observation {
    match event
    case Write(bytes) => Sent(bytes)
    case Callback(p) => Got(Frame(p))
  }

  function Observe(events: seq<Event>): seq<Observation> {
    if events == [] then [] else [ObserveOne(events[0])] + Observe(events[1..])
  }

  /** The reply with code 0 to a message, itself a frame. */
  function Reply(m: Message): seq<Byte>
    requires m.Fits()
  {
    Encode(Message(m.kind, m.index, [0x00, 0x00]))
  }

  ghost function Expected(chunks: seq<Chunk>): seq<Observation>
    requires AllFit(chunks)
  {
    if chunks == [] then []
    else [Sent(Reply(chunks[0].msg)), Got(Encode(chunks[0].msg))] + Expected(chunks[1..])
  }

  // ---------------------------------------------------------------------
  // Finding the next frame
  // ---------------------------------------------------------------------

  /** No header straddles the boundary from noise into a frame. */
  lemma NoStraddle(noise: seq<Byte>, m: Message, after: seq<Byte>, i: nat)
    requires Quiet(noise) && m.Fits() && i < |noise|
    ensures !HeaderAt(noise + Encode(m) + after, i)
  {
    var s := noise + Encode(m) + after;
    FieldsOfEncode(m);
    assert s[|noise|] == 0xaa;
    if i + 1 < |noise| {
      assert s[i] == noise[i] && s[i + 1] == noise[i + 1];
      assert !HeaderAt(noise, i);
    }
  }

  lemma ShiftedHeader(buf: seq<Byte>, pos: nat, s: seq<Byte>, i: nat)
    requires pos <= |buf| && buf[pos..] == s
    ensures HeaderAt(buf, pos + i) <==> HeaderAt(s, i)
  {
    if pos + i + 1 < |buf| {
      assert buf[pos + i] == s[i] && buf[pos + i + 1] == s[i + 1];
    }
  }

  lemma FirstFrame(buf: seq<Byte>, pos: nat, c: Chunk, after: seq<Byte>)
    requires pos <= |buf| && Quiet(c.noise) && c.msg.Fits()
    requires buf[pos..] == c.noise + Encode(c.msg) + after
    ensures FirstHeader(buf, pos, pos + |c.noise|)
    ensures buf[pos + |c.noise|..] == Encode(c.msg) + after
  {
    var n := |c.noise|;
    FieldsOfEncode(c.msg);
    FrameFollows(buf, pos, c.noise, Encode(c.msg), after);
    forall i | pos <= i < pos + n ensures !HeaderAt(buf, i) {
      NoStraddle(c.noise, c.msg, after, i - pos);
      ShiftedHeader(buf, pos, c.noise + Encode(c.msg) + after, i - pos);
    }
  }

  lemma FrameFollows(buf: seq<Byte>, pos: nat, noise: seq<Byte>, frame: seq<Byte>, after: seq<Byte>)
    requires pos <= |buf| && buf[pos..] == noise + frame + after
    requires |frame| >= 2 && frame[0] == 0xaa && frame[1] == 0x55
    ensures HeaderAt(buf, pos + |noise|) && buf[pos + |noise|..] == frame + after
  {
    var n := |noise|;
    assert buf[pos + n..] == buf[pos..][n..];
    assert (noise + frame + after)[n..] == frame + after;
    assert buf[pos + n] == buf[pos + n..][0] && buf[pos + n + 1] == buf[pos + n..][1];
  }

  lemma SeesFrame(buf: seq<Byte>, start: nat, w: Packet, m: Message, after: seq<Byte>)
    requires IsWindow(buf, start, w) && m.Fits() && buf[start..] == Encode(m) + after
    ensures Frame(w) == Encode(m) && CrcOk(Frame(w)) && SizeofPacket(w) == Declared(w) == |Encode(m)|
    ensures AckBytes(w, SUCCESS) == Reply(m)
  {
    assert Encode(m) <= w by {
      assert (Encode(m) + after)[..|Encode(m)|] == Encode(m);
    }
    DecodeEncode(m, w);
    AckIsFrame(w, SUCCESS);
    assert Decode(w) == m;
  }

  /** The first call on a stream accepts the first frame. */
  lemma AcceptsFirst(buf: seq<Byte>, pos: nat, t: Calls, c: Chunk, after: seq<Byte>)
    requires pos <= |buf| && IsRun(buf, pos, t) && Quiet(c.noise) && c.msg.Fits()
    requires buf[pos..] == c.noise + Encode(c.msg) + after
    ensures t.Accepted? && t.start == pos + |c.noise|
    ensures buf[t.start..] == Encode(c.msg) + after
    ensures Frame(t.window) == Encode(c.msg) && AckBytes(t.window, SUCCESS) == Reply(c.msg)
    ensures SizeofPacket(t.window) == Declared(t.window) == |Encode(c.msg)|
  {
    var start := pos + |c.noise|;
    FirstFrame(buf, pos, c, after);
    StartsAt(buf, pos, start, t);
    SeesFrame(buf, start, t.window, c.msg, after);
  }

  lemma AfterFrame(buf: seq<Byte>, start: nat, frame: seq<Byte>, after: seq<Byte>)
    requires start <= |buf| && buf[start..] == frame + after
    ensures start + |frame| <= |buf| && buf[start + |frame|..] == after
  {
    assert buf[start + |frame|..] == buf[start..][|frame|..];
  }

  lemma QuietTail(buf: seq<Byte>, pos: nat, t: Calls)
    requires pos <= |buf| && Quiet(buf[pos..]) && IsRun(buf, pos, t)
    ensures t == Nothing
  {
    forall i | pos <= i ensures !HeaderAt(buf, i) {
      ShiftedHeader(buf, pos, buf[pos..], i - pos);
      if i < |buf| { assert !HeaderAt(buf[pos..], i - pos); }
    }
  }

  lemma ObservePair(w: Packet, rest: seq<Event>)
    ensures Observe([Write(AckBytes(w, SUCCESS)), Callback(w)] + rest)
         == [Sent(AckBytes(w, SUCCESS)), Got(Frame(w))] + Observe(rest)
  {
    var events := [Write(AckBytes(w, SUCCESS)), Callback(w)] + rest;
    assert events[1..] == [Callback(w)] + rest;
    assert events[1..][1..] == rest;
  }

  /** One frame of the stream consumed: where the parser stands after it. */
  lemma FirstStep(buf: seq<Byte>, pos: nat, t: Calls, chunks: seq<Chunk>, tail: seq<Byte>) returns (next: nat)
    requires pos <= |buf| && AllFit(chunks) && chunks != []
    requires buf[pos..] == Stream(chunks, tail) && IsRun(buf, pos, t)
    ensures t.Accepted? && t.start == pos + |chunks[0].noise|
    ensures next == t.start + |chunks[0].msg.payload| + MIN_SIZE <= |buf|
    ensures buf[next..] == Stream(chunks[1..], tail)
    ensures if chunks[1..] == [] && tail == [] then t.rest == Ended else IsRun(buf, next, t.rest)
  {
    var after := Stream(chunks[1..], tail);
    AcceptsFirst(buf, pos, t, chunks[0], after);
    next := SkipFrame(buf, t, chunks[0].msg, after);
    if after == [] { EmptyStream(chunks[1..], tail); }
  }

  lemma SkipFrame(buf: seq<Byte>, t: Calls, m: Message, after: seq<Byte>) returns (next: nat)
    requires t.Accepted? && t.start <= |buf| && m.Fits() && buf[t.start..] == Encode(m) + after
    requires SizeofPacket(t.window) == Declared(t.window) == |Encode(m)|
    requires IsRest(buf, t.start, t.window, t.rest)
    ensures next == t.start + |m.payload| + MIN_SIZE <= |buf| && buf[next..] == after
    ensures if after == [] then t.rest == Ended else IsRun(buf, next, t.rest)
  {
    AfterFrame(buf, t.start, Encode(m), after);
    next := t.start + |Encode(m)|;
  }

  /** What the first call writes and hands over. */
  lemma FirstReply(buf: seq<Byte>, pos: nat, t: Calls, chunks: seq<Chunk>, tail: seq<Byte>)
    requires pos <= |buf| && AllFit(chunks) && chunks != []
    requires buf[pos..] == Stream(chunks, tail) && IsRun(buf, pos, t)
    ensures t.Accepted?
    ensures Observe(Events(t))
         == [Sent(Reply(chunks[0].msg)), Got(Encode(chunks[0].msg))] + Observe(Events(t.rest))
  {
    AcceptsFirst(buf, pos, t, chunks[0], Stream(chunks[1..], tail));
    ObservePair(t.window, Events(t.rest));
  }

  /** The parser is to make t of what is left of the stream. */
  ghost predicate Ahead(buf: seq<Byte>, pos: nat, t: Calls, chunks: seq<Chunk>, tail: seq<Byte>) {
    && pos <= |buf| && AllFit(chunks) && Quiet(tail) && buf[pos..] == Stream(chunks, tail)
    && if chunks == [] && tail == [] then t == Ended || t == Nothing else IsRun(buf, pos, t)
  }

  lemma NothingAhead(buf: seq<Byte>, pos: nat, t: Calls, tail: seq<Byte>)
    requires Ahead(buf, pos, t, [], tail)
    ensures t == Ended || t == Nothing
  {
    if tail != [] { QuietTail(buf, pos, t); }
  }

  lemma {:induction false} NextAhead(buf: seq<Byte>, pos: nat, t: Calls, chunks: seq<Chunk>, tail: seq<Byte>)
    returns (next: nat)
    requires Ahead(buf, pos, t, chunks, tail) && chunks != []
    ensures t.Accepted? && t.start == pos + |chunks[0].noise|
    ensures next == t.start + |chunks[0].msg.payload| + MIN_SIZE && Ahead(buf, next, t.rest, chunks[1..], tail)
    ensures Observe(Events(t))
         == [Sent(Reply(chunks[0].msg)), Got(Encode(chunks[0].msg))] + Observe(Events(t.rest))
  {
    next := FirstStep(buf, pos, t, chunks, tail);
    FirstReply(buf, pos, t, chunks, tail);
  }

  /** The calls accept the frames of the stream one after the other. */
  ghost predicate Follows(t: Calls, chunks: seq<Chunk>, pos: nat)
    decreases |chunks|
  {
    if chunks == [] then t == Ended || t == Nothing
    else
      var start := pos + |chunks[0].noise|;
      t.Accepted? && t.start == start && Follows(t.rest, chunks[1..], start + |chunks[0].msg.payload| + MIN_SIZE)
  }

  lemma FollowsCons(t: Calls, chunks: seq<Chunk>, pos: nat, next: nat)
    requires chunks != [] && t.Accepted? && t.start == pos + |chunks[0].noise|
    requires next == t.start + |chunks[0].msg.payload| + MIN_SIZE && Follows(t.rest, chunks[1..], next)
    ensures Follows(t, chunks, pos)
  {
  }

  lemma {:induction false} StreamFollowed(buf: seq<Byte>, pos: nat, t: Calls, chunks: seq<Chunk>, tail: seq<Byte>)
    requires Ahead(buf, pos, t, chunks, tail)
    ensures Follows(t, chunks, pos)
    decreases |chunks|
  {
    if chunks == [] {
      NothingAhead(buf, pos, t, tail);
    } else {
      var next := NextAhead(buf, pos, t, chunks, tail);
      StreamFollowed(buf, next, t.rest, chunks[1..], tail);
      FollowsCons(t, chunks, pos, next);
    }
  }

  lemma {:induction false} FollowsPositions(t: Calls, chunks: seq<Chunk>, pos: nat)
    requires Follows(t, chunks, pos)
    ensures Defined(t) && Failures(t) == {} && Delivered(t) == FrameStarts(chunks, pos)
    decreases |chunks|
  {
    if chunks != [] {
      var next := t.start + |chunks[0].msg.payload| + MIN_SIZE;
      FollowsPositions(t.rest, chunks[1..], next);
      assert Delivered(t) == [t.start] + Delivered(t.rest);
      assert FrameStarts(chunks, pos) == [t.start] + FrameStarts(chunks[1..], next);
    }
  }

  lemma {:induction false} RoundTripEvents(buf: seq<Byte>, pos: nat, t: Calls, chunks: seq<Chunk>, tail: seq<Byte>)
    requires Ahead(buf, pos, t, chunks, tail)
    ensures AllFit(chunks) && Observe(Events(t)) == Expected(chunks)
    decreases |chunks|
  {
    if chunks == [] {
      NothingAhead(buf, pos, t, tail);
    } else {
      var next := NextAhead(buf, pos, t, chunks, tail);
      RoundTripEvents(buf, next, t.rest, chunks[1..], tail);
    }
  }

  /**
   * Frames in noise are delivered exactly once each, in order, each after one SUCCESS reply,
   * and nothing else happens: from every position, in every run, whatever the stack held.
   */
  lemma RoundTrip(buf: seq<Byte>, pos: nat, t: Calls, chunks: seq<Chunk>, tail: seq<Byte>)
    requires pos <= |buf| && AllFit(chunks) && Quiet(tail)
    requires buf[pos..] == Stream(chunks, tail) && IsRun(buf, pos, t)
    ensures Defined(t) && Failures(t) == {} && Delivered(t) == FrameStarts(chunks, pos)
    ensures Observe(Events(t)) == Expected(chunks)
  {
    if chunks == [] { QuietTail(buf, pos, t); }
    StreamFollowed(buf, pos, t, chunks, tail);
    FollowsPositions(t, chunks, pos);
    RoundTripEvents(buf, pos, t, chunks, tail);
  }

  lemma EmptyStream(chunks: seq<Chunk>, tail: seq<Byte>)
    requires AllFit(chunks) && Stream(chunks, tail) == []
    ensures chunks == [] && tail == []
  {
  }

  // ---------------------------------------------------------------------
  // Acknowledgements parse as frames
  // ---------------------------------------------------------------------

  /** The parser run on an acknowledgement delivers it as one packet carrying type, index and code. */
  lemma AckParses(p: Packet, code: nat, t: Calls)
    requires code < 0x1_0000 && IsRun(AckBytes(p, code), 0, t)
    ensures t.Accepted? && t.start == 0 && t.rest == Ended
    ensures SizeofPacket(t.window) == ACK_SIZE
         && Decode(t.window) == Message(PacketType(p), Ntohl(p[3..7]), Htons(code))
  {
    var m := Message(PacketType(p), Ntohl(p[3..7]), Htons(code));
    AckIsFrame(p, code);
    var buf := AckBytes(p, code);
    assert buf[0..] == [] + Encode(m) + [];
    AcceptsFirst(buf, 0, t, Chunk([], m), []);
    assert Encode(m) <= t.window;
    DecodeEncode(m, t.window);
  }

  // ---------------------------------------------------------------------
  // Damaged frames
  // ---------------------------------------------------------------------

  /** The error spares the header and the length field. */
  predicate SparesFraming(error: seq<Byte>) {
    |error| >= MIN_SIZE && error[0] == 0 && error[1] == 0 && error[7] == 0 && error[8] == 0
  }

  lemma XorZero(b: Byte)
    ensures b ^ 0 == b
  {
  }

  lemma DamagedLength(buf: seq<Byte>, q: nat, m: Message, error: seq<Byte>)
    requires m.Fits() && |error| == |Encode(m)| && SparesFraming(error)
    requires q + |error| <= |buf| && buf[q..q + |error|] == XorBytes(Encode(m), error)
    ensures DeclaredAt(buf, q) == |error|
  {
    var f, damaged := Encode(m), buf[q..q + |error|];
    FieldsOfEncode(m);
    XorBytesAt(f, error, 7);
    XorBytesAt(f, error, 8);
    XorZero(f[7]);
    XorZero(f[8]);
    assert damaged[7] == buf[q + 7] && damaged[8] == buf[q + 8];
  }

  /**
   * A frame with one to three bits flipped outside its header and length is never delivered,
   * whatever surrounds it and wherever the parser comes from.
   */
  lemma DamagedNotDelivered(buf: seq<Byte>, pos: nat, t: Calls, q: nat, m: Message, error: seq<Byte>)
    requires IsRun(buf, pos, t) && m.Fits() && |error| == |Encode(m)| <= 4095
    requires SparesFraming(error) && 1 <= Flips(error) <= 3
    requires q + |error| <= |buf| && buf[q..q + |error|] == XorBytes(Encode(m), error)
    ensures q !in Delivered(t)
  {
    EncodeOk(m);
    FewFlipsDetected(Encode(m), error);
    DamagedLength(buf, q, m, error);
    NeverDelivered(buf, pos, t, q, |error|);
  }

  lemma FailsItsCheck(buf: seq<Byte>, q: nat, n: nat)
    requires MIN_SIZE <= n && q + n <= |buf|
    requires DeclaredAt(buf, q) == n && !CrcOk(buf[q..q + n])
    ensures !Valid(buf, q) && !Overruns(buf, q)
  {
  }

  lemma {:induction false} NeverDelivered(buf: seq<Byte>, pos: nat, t: Calls, q: nat, n: nat)
    requires IsRun(buf, pos, t) && MIN_SIZE <= n && q + n <= |buf|
    requires DeclaredAt(buf, q) == n && !CrcOk(buf[q..q + n])
    ensures q !in Delivered(t)
  {
    FailsItsCheck(buf, q, n);
    if q in Delivered(t) { DeliveredIsSound(buf, pos, t, q); }
  }
}
