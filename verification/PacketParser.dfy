/**
 * The resynchronising parser handle_packet (src/core/modules/easn/easn_server_channel.cpp),
 * as the tree of its recursive calls.
 */
module PacketParser {
  import opened Crc16
  import opened CrcCheck
  import opened EasnPackage

  /**
   * One call of handle_packet and the calls it makes. The window is the packet_t of that call:
   * the input from the header on, and whatever the stack held after it. Ended stands for a
   * call that is not made, Undefined for a length below 2, on which check_crc reads out of bounds.
   */
  datatype Calls =
    | Ended
    | Nothing
    | Undefined(start: nat, window: Packet)
    | Accepted(start: nat, window: Packet, rest: Calls)
    | Rejected(start: nat, window: Packet, retry: Calls, rest: Calls)

  /** A packet_t filled from the input at start; the bytes past the input are arbitrary. */
  ghost predicate IsWindow(buf: seq<Byte>, start: nat, w: Packet) {
    start <= |buf| && buf[start..] <= w
  }

  ghost predicate IsCandidate(buf: seq<Byte>, pos: nat, start: nat, w: Packet) {
    FirstHeader(buf, pos, start) && IsWindow(buf, start, w)
  }

  /** t is a possible execution of handle_packet on the input from pos on. */
  ghost predicate IsRun(buf: seq<Byte>, pos: nat, t: Calls)
    decreases t, 0
  {
    match t
    case Ended => false
    case Nothing => NoHeader(buf, pos, |buf|)
    case Undefined(start, w) => IsCandidate(buf, pos, start, w) && SizeofPacket(w) < 2
    case Accepted(start, w, rest) =>
      && IsCandidate(buf, pos, start, w) && SizeofPacket(w) >= 2
      && CrcOk(Frame(w))
      && IsRest(buf, start, w, rest)
    case Rejected(start, w, retry, rest) =>
      && IsCandidate(buf, pos, start, w) && SizeofPacket(w) >= 2
      && !CrcOk(Frame(w))
      && IsRun(buf, start + 2, retry)
      && IsRest(buf, start, w, rest)
  }

  /** The last step of a call: go on after the declared length when input is left there. */
  ghost predicate IsRest(buf: seq<Byte>, start: nat, w: Packet, rest: Calls)
    decreases rest, 1
  {
    if Declared(w) < |buf| - start then IsRun(buf, start + SizeofPacket(w), rest) else rest == Ended
  }

  /** No call met a length below 2. */
  predicate Defined(t: Calls) {
    match t
    case Ended => true
    case Nothing => true
    case Undefined(_, _) => false
    case Accepted(_, _, rest) => Defined(rest)
    case Rejected(_, _, retry, rest) => Defined(retry) && Defined(rest)
  }

  // ---------------------------------------------------------------------
  // What a run does
  // ---------------------------------------------------------------------

  datatype Event = Write(bytes: seq<Byte>) | Callback(packet: Packet)

  /** The writes and callbacks, in program order. */
  function Events(t: Calls): seq<Event> {
    match t
    case Ended => []
    case Nothing => []
    case Undefined(_, _) => []
    case Accepted(_, w, rest) => [Write(AckBytes(w, SUCCESS)), Callback(w)] + Events(rest)
    case Rejected(_, w, retry, rest) => [Write(AckBytes(w, CRC_ERROR))] + Events(retry) + Events(rest)
  }

  /** The positions whose packets are passed to the callback, in order. */
  function Delivered(t: Calls): seq<nat> {
    match t
    case Ended => []
    case Nothing => []
    case Undefined(_, _) => []
    case Accepted(start, _, rest) => [start] + Delivered(rest)
    case Rejected(_, _, retry, rest) => Delivered(retry) + Delivered(rest)
  }

  // ---------------------------------------------------------------------
  // Packets of the input itself
  // ---------------------------------------------------------------------

  /** The declared length of a header whose length field lies in the input. */
  function DeclaredAt(buf: seq<Byte>, p: nat): nat
    requires p + 9 <= |buf|
  {
    Ntohs(buf[p + 7], buf[p + 8])
  }

  /** The packet at p reaches past the input, so its check reads bytes the input did not supply. */
  predicate Overruns(buf: seq<Byte>, p: nat) {
    p + 9 > |buf| || p + DeclaredAt(buf, p) > |buf|
  }

  /** A header with its whole packet in the input, and a matching checksum. */
  predicate Valid(buf: seq<Byte>, p: nat) {
    && HeaderAt(buf, p) && !Overruns(buf, p) && DeclaredAt(buf, p) >= 2
    && CrcOk(buf[p..p + DeclaredAt(buf, p)])
  }

  lemma WindowByte(buf: seq<Byte>, start: nat, w: Packet, i: nat)
    requires IsWindow(buf, start, w) && start + i < |buf|
    ensures w[i] == buf[start + i]
  {
    assert buf[start..][i] == w[i];
  }

  /** Where the input supplies the whole packet, the window shows exactly that packet. */
  lemma WindowShows(buf: seq<Byte>, start: nat, w: Packet)
    requires IsWindow(buf, start, w) && !Overruns(buf, start)
    ensures Declared(w) == DeclaredAt(buf, start) == SizeofPacket(w)
    ensures Frame(w) == buf[start..start + DeclaredAt(buf, start)]
  {
    WindowByte(buf, start, w, 7);
    WindowByte(buf, start, w, 8);
    var n := DeclaredAt(buf, start);
    assert w[..n] == buf[start..][..n];
  }

  lemma FailedIsInvalid(buf: seq<Byte>, start: nat, w: Packet)
    requires IsWindow(buf, start, w) && SizeofPacket(w) >= 2 && !CrcOk(Frame(w))
    ensures !Valid(buf, start)
    ensures !Overruns(buf, start) ==> SizeofPacket(w) == DeclaredAt(buf, start)
  {
    if !Overruns(buf, start) { WindowShows(buf, start, w); }
  }

  /** What the call at the next header is. */
  lemma StartsAt(buf: seq<Byte>, pos: nat, start: nat, t: Calls)
    requires IsRun(buf, pos, t) && FirstHeader(buf, pos, start)
    ensures t != Nothing && t.start == start && IsWindow(buf, start, t.window)
    ensures t.Undefined? ==> SizeofPacket(t.window) < 2
    ensures !t.Undefined? ==> IsRest(buf, start, t.window, t.rest) && SizeofPacket(t.window) >= 2
    ensures !t.Undefined? ==> (t.Accepted? <==> CrcOk(Frame(t.window)))
    ensures t.Rejected? ==> IsRun(buf, start + 2, t.retry)
  {
  }

  /** And the other way round. */
  lemma CandidateRun(buf: seq<Byte>, pos: nat, start: nat, t: Calls)
    requires FirstHeader(buf, pos, start) && (t.Accepted? || t.Rejected?) && t.start == start
    requires IsWindow(buf, start, t.window) && SizeofPacket(t.window) >= 2
    requires t.Accepted? <==> CrcOk(Frame(t.window))
    requires IsRest(buf, start, t.window, t.rest)
    requires t.Rejected? ==> IsRun(buf, start + 2, t.retry)
    ensures IsRun(buf, pos, t)
  {
  }

  // ---------------------------------------------------------------------
  // Soundness
  // ---------------------------------------------------------------------

  lemma PassedIsValid(buf: seq<Byte>, start: nat, w: Packet)
    requires HeaderAt(buf, start) && IsWindow(buf, start, w) && SizeofPacket(w) >= 2 && CrcOk(Frame(w))
    ensures Valid(buf, start) || Overruns(buf, start)
  {
    if !Overruns(buf, start) { WindowShows(buf, start, w); }
  }

  /** The window of a delivered packet. */
  lemma {:induction false} DeliveredWindow(buf: seq<Byte>, pos: nat, t: Calls, p: nat) returns (w: Packet)
    requires t == Ended || IsRun(buf, pos, t)
    requires p in Delivered(t)
    ensures pos <= p && HeaderAt(buf, p) && IsWindow(buf, p, w) && SizeofPacket(w) >= 2 && CrcOk(Frame(w))
    decreases t
  {
    if t.Accepted? && p == t.start {
      w := t.window;
    } else if t.Rejected? && p in Delivered(t.retry) {
      w := DeliveredWindow(buf, t.start + 2, t.retry, p);
    } else {
      w := DeliveredWindow(buf, t.start + SizeofPacket(t.window), t.rest, p);
    }
  }

  /** Whatever is delivered is a packet of the input, or reaches past the input. */
  lemma {:induction false} DeliveredIsSound(buf: seq<Byte>, pos: nat, t: Calls, p: nat)
    requires t == Ended || IsRun(buf, pos, t)
    requires p in Delivered(t)
    ensures pos <= p && HeaderAt(buf, p) && (Valid(buf, p) || Overruns(buf, p))
  {
    var w := DeliveredWindow(buf, pos, t, p);
    PassedIsValid(buf, p, w);
  }

  // ---------------------------------------------------------------------
  // Completeness
  // ---------------------------------------------------------------------

  /** No packet delivered before q reaches past q. */
  ghost predicate ClearUpTo(buf: seq<Byte>, t: Calls, q: nat) {
    forall p :: p in Delivered(t) && p < q ==> !Overruns(buf, p) && p + DeclaredAt(buf, p) <= q
  }

  /** Headers cannot overlap, so resuming two bytes on skips none. */
  lemma HeaderNotNext(buf: seq<Byte>, start: nat, q: nat)
    requires HeaderAt(buf, start) && HeaderAt(buf, q) && start < q
    ensures start + 2 <= q
  {
  }

  lemma FirstUpTo(buf: seq<Byte>, pos: nat, start: nat, q: nat)
    requires FirstHeader(buf, pos, start) && HeaderAt(buf, q) && pos <= q
    ensures start <= q
  {
  }

  /** After a packet that ends by q, the parser does go on, and no further than q. */
  lemma GoesOn(buf: seq<Byte>, start: nat, w: Packet, rest: Calls, q: nat)
    requires IsWindow(buf, start, w) && !Overruns(buf, start) && IsRest(buf, start, w, rest)
    requires start + DeclaredAt(buf, start) <= q < |buf|
    ensures IsRun(buf, start + SizeofPacket(w), rest) && start + SizeofPacket(w) <= q
  {
    WindowShows(buf, start, w);
  }

  lemma ClearRest(buf: seq<Byte>, t: Calls, part: Calls, q: nat)
    requires ClearUpTo(buf, t, q)
    requires (t.Accepted? && part == t.rest) || (t.Rejected? && (part == t.retry || part == t.rest))
    ensures ClearUpTo(buf, part, q)
  {
    forall p | p in Delivered(part) && p < q ensures !Overruns(buf, p) && p + DeclaredAt(buf, p) <= q {
      assert p in Delivered(t);
    }
  }

  /** A valid packet is delivered unless a packet delivered before it covers its start. */
  lemma {:induction false} AtLeastOnce(buf: seq<Byte>, pos: nat, t: Calls, q: nat)
    requires IsRun(buf, pos, t) && Defined(t)
    requires pos <= q && Valid(buf, q) && ClearUpTo(buf, t, q)
    ensures q in Delivered(t)
    decreases t
  {
    if t.Accepted? {
      FirstUpTo(buf, pos, t.start, q);
      assert t.start in Delivered(t);
      if t.start < q {
        ClearRest(buf, t, t.rest, q);
        GoesOn(buf, t.start, t.window, t.rest, q);
        AtLeastOnce(buf, t.start + SizeofPacket(t.window), t.rest, q);
      }
    } else if t.Rejected? {
      FirstUpTo(buf, pos, t.start, q);
      if t.start < q {
        HeaderNotNext(buf, t.start, q);
        ClearRest(buf, t, t.retry, q);
        AtLeastOnce(buf, t.start + 2, t.retry, q);
      } else {
        WindowShows(buf, q, t.window);
      }
    }
  }

  /** No delivered packet reached past the input. */
  ghost predicate WithinInput(buf: seq<Byte>, t: Calls) {
    forall p :: p in Delivered(t) ==> !Overruns(buf, p)
  }

  ghost predicate NoOverlap(buf: seq<Byte>, pos: nat) {
    forall p, q :: pos <= p < q && Valid(buf, p) && Valid(buf, q) ==> p + DeclaredAt(buf, p) <= q
  }

  /** Resynchronisation is sound and complete: exactly the valid packets are delivered. */
  lemma DeliveredIffValid(buf: seq<Byte>, pos: nat, t: Calls, q: nat)
    requires IsRun(buf, pos, t) && Defined(t)
    requires WithinInput(buf, t) && NoOverlap(buf, pos)
    ensures q in Delivered(t) <==> pos <= q && Valid(buf, q)
  {
    if q in Delivered(t) {
      DeliveredIsSound(buf, pos, t, q);
    }
    if pos <= q && Valid(buf, q) {
      forall p | p in Delivered(t) && p < q ensures p + DeclaredAt(buf, p) <= q {
        DeliveredIsSound(buf, pos, t, p);
      }
      AtLeastOnce(buf, pos, t, q);
    }
  }

  ghost predicate DeliversExactlyValid(buf: seq<Byte>, pos: nat, t: Calls) {
    forall q: nat :: q in Delivered(t) <==> pos <= q && Valid(buf, q)
  }

  /** That holds exactly of the runs in which no delivered packet overruns the input. */
  lemma ResynchronisedIff(buf: seq<Byte>, pos: nat, t: Calls)
    requires IsRun(buf, pos, t) && Defined(t) && NoOverlap(buf, pos)
    ensures DeliversExactlyValid(buf, pos, t) <==> WithinInput(buf, t)
  {
    if WithinInput(buf, t) {
      forall q: nat ensures q in Delivered(t) <==> pos <= q && Valid(buf, q) { DeliveredIffValid(buf, pos, t, q); }
    }
    if DeliversExactlyValid(buf, pos, t) {
      forall p | p in Delivered(t) ensures !Overruns(buf, p) { assert Valid(buf, p); }
    }
  }

  /** Every header declares a length of at least 2 that ends within the input. */
  predicate HeadersInBounds(buf: seq<Byte>, pos: nat) {
    forall p :: pos <= p < |buf| && HeaderAt(buf, p) ==> !Overruns(buf, p) && DeclaredAt(buf, p) >= 2
  }

  lemma InBoundsSize(buf: seq<Byte>, pos: nat, start: nat, w: Packet)
    requires HeadersInBounds(buf, pos) && pos <= start && HeaderAt(buf, start) && IsWindow(buf, start, w)
    ensures !Overruns(buf, start) && SizeofPacket(w) >= 2
  {
    WindowShows(buf, start, w);
  }

  lemma {:induction false} InBoundsDefined(buf: seq<Byte>, pos: nat, t: Calls)
    requires t == Ended || IsRun(buf, pos, t)
    requires HeadersInBounds(buf, pos)
    ensures Defined(t)
    decreases t
  {
    if t != Ended && t != Nothing {
      InBoundsSize(buf, pos, t.start, t.window);
      if t.Rejected? { InBoundsDefined(buf, t.start + 2, t.retry); }
      InBoundsDefined(buf, t.start + SizeofPacket(t.window), t.rest);
    }
  }

  /** A condition on the input alone under which the conditions on the run hold. */
  lemma InBoundsRun(buf: seq<Byte>, pos: nat, t: Calls)
    requires t == Ended || IsRun(buf, pos, t)
    requires HeadersInBounds(buf, pos)
    ensures Defined(t) && WithinInput(buf, t)
  {
    InBoundsDefined(buf, pos, t);
    forall p | p in Delivered(t) ensures !Overruns(buf, p) { DeliveredIsSound(buf, pos, t, p); }
  }
}
