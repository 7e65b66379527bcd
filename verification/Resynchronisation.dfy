/**
 * On which inputs handle_packet delivers exactly the valid packets, whatever the stack holds:
 * conditions on the bytes alone.
 */
module Resynchronisation {
  import opened Crc16
  import opened CrcCheck
  import opened EasnPackage
  import opened PacketParser

  // ---------------------------------------------------------------------
  // Headers whose packets reach past the input
  // ---------------------------------------------------------------------

  /** Every header whose length field lies in the input declares at least 2. */
  predicate LengthsDefined(buf: seq<Byte>, pos: nat) {
    forall p {:trigger DeclaredAt(buf, p)} :: pos <= p && p + 9 <= |buf| && HeaderAt(buf, p) ==> DeclaredAt(buf, p) >= 2
  }

  /** sizeof_packet of a header whose length field lies in the input. */
  function SizeAt(buf: seq<Byte>, p: nat): (n: nat)
    requires p + 9 <= |buf|
    ensures n <= MAX_SIZE
  {
    if DeclaredAt(buf, p) > MAX_SIZE then MAX_SIZE else DeclaredAt(buf, p)
  }

  /** The window passes its check. */
  predicate Passing(w: Packet) {
    SizeofPacket(w) >= 2 && CrcOk(Frame(w))
  }

  /**
   * The packet at p reaches past the input and passes its check for some content of the stack:
   * its length or both its checksum bytes come from the stack, or the input fits as far as it goes.
   */
  predicate MayAccept(buf: seq<Byte>, p: nat) {
    && p <= |buf| && Overruns(buf, p)
    && (p + 9 > |buf| ||
        (var past := p + SizeAt(buf, p) - |buf|;
         || past >= 2
         || (past == 1 && buf[|buf| - 1] == CrcBytes(buf[p..|buf| - 1])[0])
         || (past == 0 && CrcOk(buf[p..]))))
  }

  /** A window that continues the input with bytes that make a defined length. */
  function Padded(buf: seq<Byte>, p: nat): Packet
    requires p <= |buf| <= MAX_SIZE
  {
    buf[p..] + seq(MAX_SIZE - |buf| + p, _ => 0x0b)
  }

  lemma FieldsShown(buf: seq<Byte>, p: nat, w: Packet)
    requires IsWindow(buf, p, w) && p + 9 <= |buf|
    ensures Declared(w) == DeclaredAt(buf, p) && SizeofPacket(w) == SizeAt(buf, p)
  {
    WindowByte(buf, p, w, 7);
    WindowByte(buf, p, w, 8);
  }

  lemma PaddedLength(buf: seq<Byte>, p: nat)
    requires p <= |buf| <= MAX_SIZE && p + 9 > |buf|
    ensures SizeofPacket(Padded(buf, p)) >= 11 && Declared(Padded(buf, p)) >= 11
  {
    assert Padded(buf, p)[8] == 0x0b;
  }

  /** The window with the checksum its length asks for. */
  function Sealed(w: Packet): Packet
    requires SizeofPacket(w) >= 2
  {
    var n := SizeofPacket(w);
    w[..n - 2] + CrcBytes(w[..n - 2]) + w[n..]
  }

  lemma SealedLength(w: Packet)
    requires SizeofPacket(w) >= 11
    ensures Declared(Sealed(w)) == Declared(w)
  {
    var n := SizeofPacket(w);
    assert Sealed(w)[..n - 2] == w[..n - 2];
    assert Sealed(w)[7] == w[..n - 2][7] && Sealed(w)[8] == w[..n - 2][8];
  }

  lemma SealedPasses(w: Packet)
    requires SizeofPacket(w) >= 11
    ensures Declared(Sealed(w)) == Declared(w) && Passing(Sealed(w))
  {
    var n := SizeofPacket(w);
    SealedLength(w);
    TakeTwo(w[..n - 2], CrcBytes(w[..n - 2]), w[n..]);
    CrcOkIff(w[..n - 2], CrcBytes(w[..n - 2]));
  }

  lemma TakeTwo<T>(a: seq<T>, b: seq<T>, c: seq<T>)
    ensures (a + b + c)[..|a| + |b|] == a + b
  {
  }

  lemma SealedShows(buf: seq<Byte>, p: nat, w: Packet)
    requires IsWindow(buf, p, w) && SizeofPacket(w) >= 2 && |buf| - p <= SizeofPacket(w) - 2
    ensures IsWindow(buf, p, Sealed(w))
  {
    var k := |buf| - p;
    assert w[..k] == buf[p..];
    assert Sealed(w)[..k] == w[..k];
  }

  lemma OneMore<T>(s: seq<T>, w: seq<T>)
    requires s != [] && s <= w && |w| > |s|
    ensures w[..|s| + 1] == s[..|s| - 1] + [s[|s| - 1], w[|s|]]
  {
    assert w[..|s|] == s;
  }

  lemma MidSlice<T>(s: seq<T>, p: nat)
    requires p < |s|
    ensures s[p..][..|s| - p - 1] == s[p..|s| - 1] && s[p..][|s| - p - 1] == s[|s| - 1]
  {
  }

  lemma EndsPast<T>(s: seq<T>, p: nat, w: seq<T>)
    requires p < |s| && s[p..] <= w && |s| - p < |w|
    ensures w[..|s| - p + 1] == s[p..|s| - 1] + [s[|s| - 1], w[|s| - p]]
  {
    OneMore(s[p..], w);
    MidSlice(s, p);
  }

  lemma LastByteMissing(buf: seq<Byte>, p: nat, w: Packet)
    requires IsWindow(buf, p, w) && p + 2 <= |buf| && SizeofPacket(w) == |buf| - p + 1
    ensures CrcOk(Frame(w)) <==> CrcBytes(buf[p..|buf| - 1]) == [buf[|buf| - 1], w[|buf| - p]]
  {
    EndsPast(buf, p, w);
    CrcOkIff(buf[p..|buf| - 1], [buf[|buf| - 1], w[|buf| - p]]);
  }

  lemma OneMissingByte(buf: seq<Byte>, p: nat) returns (w: Packet)
    requires p + 9 <= |buf| <= MAX_SIZE && p + SizeAt(buf, p) == |buf| + 1
    requires buf[|buf| - 1] == CrcBytes(buf[p..|buf| - 1])[0]
    ensures IsWindow(buf, p, w) && Passing(w) && Declared(w) >= |buf| - p
  {
    var k := |buf| - p;
    w := buf[p..] + [CrcBytes(buf[p..|buf| - 1])[1]] + seq(MAX_SIZE - k - 1, _ => 0x0b);
    FieldsShown(buf, p, w);
    LastByteMissing(buf, p, w);
  }

  /** A window of the stack's choosing under which the packet at p is accepted. */
  lemma AcceptingWindow(buf: seq<Byte>, p: nat) returns (w: Packet)
    requires p <= |buf| <= MAX_SIZE && MayAccept(buf, p)
    ensures IsWindow(buf, p, w) && Passing(w) && Declared(w) >= |buf| - p
  {
    w := Padded(buf, p);
    if p + 9 > |buf| {
      PaddedLength(buf, p);
      SealedShows(buf, p, w);
      SealedPasses(w);
      w := Sealed(w);
    } else {
      FieldsShown(buf, p, w);
      var past := p + SizeAt(buf, p) - |buf|;
      if past >= 2 {
        SealedShows(buf, p, w);
        SealedPasses(w);
        w := Sealed(w);
      } else if past == 1 {
        w := OneMissingByte(buf, p);
      } else {
        assert Frame(w) == buf[p..];
      }
    }
  }

  lemma AcceptedMayBe(buf: seq<Byte>, p: nat, w: Packet)
    requires p <= |buf| <= MAX_SIZE && Overruns(buf, p) && IsWindow(buf, p, w) && Passing(w)
    ensures MayAccept(buf, p)
  {
    if p + 9 <= |buf| {
      FieldsShown(buf, p, w);
      var past := p + SizeAt(buf, p) - |buf|;
      if past == 1 {
        LastByteMissing(buf, p, w);
      } else if past == 0 {
        assert Frame(w) == buf[p..];
      }
    }
  }

  /** MayAccept reads off the bytes whether some content of the stack makes the packet pass. */
  lemma MayAcceptIff(buf: seq<Byte>, p: nat)
    requires p <= |buf| <= MAX_SIZE && Overruns(buf, p)
    ensures MayAccept(buf, p) <==> exists w: Packet :: IsWindow(buf, p, w) && Passing(w)
  {
    if MayAccept(buf, p) {
      var w := AcceptingWindow(buf, p);
    }
    forall w: Packet | IsWindow(buf, p, w) && Passing(w) ensures MayAccept(buf, p) { AcceptedMayBe(buf, p, w); }
  }

  // ---------------------------------------------------------------------
  // The headers a scan can come to
  // ---------------------------------------------------------------------

  /**
   * The headers a scan from pos can come to: the next one; after a valid packet those behind it;
   * after any other header those two bytes on, and those behind its length where that ends in the input.
   */
  function Reached(buf: seq<Byte>, pos: nat): set<nat>
    decreases |buf| - pos
  {
    if pos + 1 >= |buf| then {}
    else if !HeaderAt(buf, pos) then Reached(buf, pos + 1)
    else if Valid(buf, pos) then {pos} + Reached(buf, pos + DeclaredAt(buf, pos))
    else if Overruns(buf, pos) || DeclaredAt(buf, pos) < 2 then {pos} + Reached(buf, pos + 2)
    else {pos} + Reached(buf, pos + 2) + Reached(buf, pos + DeclaredAt(buf, pos))
  }

  lemma {:induction false} ReachedFirst(buf: seq<Byte>, pos: nat, start: nat)
    requires FirstHeader(buf, pos, start)
    ensures Reached(buf, pos) == Reached(buf, start)
    decreases start - pos
  {
    if pos < start {
      assert !HeaderAt(buf, pos);
      ReachedFirst(buf, pos + 1, start);
    }
  }

  lemma {:induction false} ReachedIsHeader(buf: seq<Byte>, pos: nat, p: nat)
    requires p in Reached(buf, pos)
    ensures pos <= p && HeaderAt(buf, p)
    decreases |buf| - pos
  {
    if !HeaderAt(buf, pos) {
      ReachedIsHeader(buf, pos + 1, p);
    } else if p != pos {
      if p in Reached(buf, pos + 2) {
        ReachedIsHeader(buf, pos + 2, p);
      } else {
        ReachedIsHeader(buf, pos + DeclaredAt(buf, pos), p);
      }
    }
  }

  /** No header the scan can come to may be accepted past the end of the input. */
  ghost predicate Safe(buf: seq<Byte>, pos: nat) {
    forall p :: p in Reached(buf, pos) ==> !MayAccept(buf, p)
  }

  /** Safe in particular are the inputs whose headers all end in them. */
  lemma InBoundsSafe(buf: seq<Byte>, pos: nat)
    requires HeadersInBounds(buf, pos)
    ensures Safe(buf, pos) && LengthsDefined(buf, pos)
  {
    forall p | p in Reached(buf, pos) ensures !MayAccept(buf, p) { ReachedIsHeader(buf, pos, p); }
  }

  lemma SafeParts(buf: seq<Byte>, pos: nat, start: nat)
    requires Safe(buf, pos) && LengthsDefined(buf, pos) && FirstHeader(buf, pos, start)
    ensures !MayAccept(buf, start) && LengthsDefined(buf, start + 2)
    ensures !Valid(buf, start) ==> Safe(buf, start + 2)
    ensures !Overruns(buf, start) ==> DeclaredAt(buf, start) >= 2 && Safe(buf, start + DeclaredAt(buf, start))
  {
    ReachedFirst(buf, pos, start);
    assert start in Reached(buf, start);
  }

  /** A candidate that may not be accepted past the end: its length is defined, and the input says where it ends. */
  lemma SafeSize(buf: seq<Byte>, p: nat, w: Packet)
    requires p <= |buf| <= MAX_SIZE && HeaderAt(buf, p) && IsWindow(buf, p, w)
    requires LengthsDefined(buf, p) && !MayAccept(buf, p)
    ensures SizeofPacket(w) >= 2
    ensures Overruns(buf, p) ==> Declared(w) >= |buf| - p
  {
    assert p + 9 <= |buf|;
    FieldsShown(buf, p, w);
  }

  lemma {:induction false} NextHeader(buf: seq<Byte>, pos: nat) returns (start: int)
    ensures start == -1 ==> NoHeader(buf, pos, |buf|) && Reached(buf, pos) == {}
    ensures start != -1 ==> start >= 0 && FirstHeader(buf, pos, start)
    decreases |buf| - pos
  {
    if pos + 1 >= |buf| {
      start := -1;
    } else if HeaderAt(buf, pos) {
      start := pos;
    } else {
      start := NextHeader(buf, pos + 1);
    }
  }

  /** Every run from pos is defined and delivers nothing that reaches past the input. */
  ghost predicate RunsSafe(buf: seq<Byte>, pos: nat) {
    forall t: Calls :: IsRun(buf, pos, t) ==> Defined(t) && WithinInput(buf, t)
  }

  /** What becomes of a candidate that may not be accepted past the end. */
  lemma SafeOutcome(buf: seq<Byte>, p: nat, w: Packet)
    requires p <= |buf| <= MAX_SIZE && HeaderAt(buf, p) && IsWindow(buf, p, w)
    requires LengthsDefined(buf, p) && !MayAccept(buf, p)
    ensures SizeofPacket(w) >= 2
    ensures CrcOk(Frame(w)) ==> !Overruns(buf, p)
    ensures !CrcOk(Frame(w)) ==> !Valid(buf, p)
    ensures Declared(w) < |buf| - p ==> !Overruns(buf, p) && SizeofPacket(w) == DeclaredAt(buf, p)
  {
    SafeSize(buf, p, w);
    if !Overruns(buf, p) { WindowShows(buf, p, w); }
    if CrcOk(Frame(w)) {
      if Overruns(buf, p) { AcceptedMayBe(buf, p, w); }
    } else {
      FailedIsInvalid(buf, p, w);
    }
  }

  lemma SafeAccepted(buf: seq<Byte>, t: Calls)
    requires t.Accepted? && !Overruns(buf, t.start)
    requires (t.rest == Ended || (Defined(t.rest) && WithinInput(buf, t.rest)))
    ensures Defined(t) && WithinInput(buf, t)
  {
  }

  lemma SafeRejected(buf: seq<Byte>, t: Calls)
    requires t.Rejected? && Defined(t.retry) && WithinInput(buf, t.retry)
    requires t.rest == Ended || (Defined(t.rest) && WithinInput(buf, t.rest))
    ensures Defined(t) && WithinInput(buf, t)
  {
  }

  lemma SafeRest(buf: seq<Byte>, start: nat, w: Packet, rest: Calls)
    requires IsRest(buf, start, w, rest)
    requires Declared(w) < |buf| - start ==> RunsSafe(buf, start + SizeofPacket(w))
    ensures rest == Ended || (Defined(rest) && WithinInput(buf, rest))
  {
  }

  /** A call, when the calls it makes are safe. */
  lemma {:induction false} SafeCall(buf: seq<Byte>, pos: nat, start: nat, t: Calls)
    requires |buf| <= MAX_SIZE && IsRun(buf, pos, t)
    requires FirstHeader(buf, pos, start) && LengthsDefined(buf, pos) && !MayAccept(buf, start)
    requires !Valid(buf, start) ==> RunsSafe(buf, start + 2)
    requires !Overruns(buf, start) ==> RunsSafe(buf, start + DeclaredAt(buf, start))
    ensures Defined(t) && WithinInput(buf, t)
  {
    StartsAt(buf, pos, start, t);
    SafeOutcome(buf, start, t.window);
    SafeRest(buf, start, t.window, t.rest);
    if t.Accepted? { SafeAccepted(buf, t); } else { SafeRejected(buf, t); }
  }

  lemma SafeCalls(buf: seq<Byte>, pos: nat, start: nat)
    requires |buf| <= MAX_SIZE
    requires FirstHeader(buf, pos, start) && LengthsDefined(buf, pos) && !MayAccept(buf, start)
    requires !Valid(buf, start) ==> RunsSafe(buf, start + 2)
    requires !Overruns(buf, start) ==> RunsSafe(buf, start + DeclaredAt(buf, start))
    ensures RunsSafe(buf, pos)
  {
    forall t: Calls | IsRun(buf, pos, t) ensures Defined(t) && WithinInput(buf, t) { SafeCall(buf, pos, start, t); }
  }

  lemma NoCalls(buf: seq<Byte>, pos: nat)
    requires NoHeader(buf, pos, |buf|)
    ensures RunsSafe(buf, pos)
  {
    forall t: Calls | IsRun(buf, pos, t) ensures t == Nothing {}
  }

  /** On a safe input every run is defined and delivers nothing that reaches past the input. */
  lemma {:induction false} SafeRuns(buf: seq<Byte>, pos: nat)
    requires |buf| <= MAX_SIZE && Safe(buf, pos) && LengthsDefined(buf, pos)
    ensures RunsSafe(buf, pos)
    decreases |buf| - pos
  {
    var start := NextHeader(buf, pos);
    if start == -1 {
      NoCalls(buf, pos);
    } else {
      SafeParts(buf, pos, start);
      if !Valid(buf, start) { SafeRuns(buf, start + 2); }
      if !Overruns(buf, start) { SafeRuns(buf, start + DeclaredAt(buf, start)); }
      SafeCalls(buf, pos, start);
    }
  }

  // ---------------------------------------------------------------------
  // Runs exist
  // ---------------------------------------------------------------------

  lemma PaddedDefined(buf: seq<Byte>, p: nat)
    requires p <= |buf| <= MAX_SIZE && HeaderAt(buf, p) && LengthsDefined(buf, p)
    ensures IsWindow(buf, p, Padded(buf, p)) && SizeofPacket(Padded(buf, p)) >= 2
  {
    if p + 9 > |buf| { PaddedLength(buf, p); } else { FieldsShown(buf, p, Padded(buf, p)); }
  }

  /** A call at the next header, from the calls it makes. */
  lemma {:induction false} BuildRun(buf: seq<Byte>, pos: nat, start: nat, w: Packet, retry: Calls, rest: Calls)
    returns (t: Calls)
    requires FirstHeader(buf, pos, start) && IsWindow(buf, start, w) && SizeofPacket(w) >= 2
    requires !CrcOk(Frame(w)) ==> IsRun(buf, start + 2, retry) && Defined(retry)
    requires IsRest(buf, start, w, rest) && Defined(rest)
    ensures IsRun(buf, pos, t) && Defined(t)
    ensures forall p :: p in Delivered(rest) ==> p in Delivered(t)
    ensures !CrcOk(Frame(w)) ==> forall p :: p in Delivered(retry) ==> p in Delivered(t)
  {
    t := if CrcOk(Frame(w)) then Accepted(start, w, rest) else Rejected(start, w, retry, rest);
  }

  /** The parser has a defined run on every input whose lengths are at least 2. */
  lemma {:induction false} AnyRun(buf: seq<Byte>, pos: nat) returns (t: Calls)
    requires |buf| <= MAX_SIZE && LengthsDefined(buf, pos)
    ensures IsRun(buf, pos, t) && Defined(t)
    decreases |buf| - pos, 1
  {
    var start := NextHeader(buf, pos);
    t := Nothing;
    if start != -1 {
      var w := Padded(buf, start);
      PaddedDefined(buf, start);
      var rest := AnyRest(buf, start, w);
      var retry := AnyRun(buf, start + 2);
      t := BuildRun(buf, pos, start, w, retry, rest);
    }
  }

  lemma {:induction false} AnyRest(buf: seq<Byte>, start: nat, w: Packet) returns (rest: Calls)
    requires start < |buf| <= MAX_SIZE && SizeofPacket(w) >= 2 && LengthsDefined(buf, start)
    ensures IsRest(buf, start, w, rest) && Defined(rest)
    decreases |buf| - start, 0
  {
    rest := Ended;
    if Declared(w) < |buf| - start { rest := AnyRun(buf, start + SizeofPacket(w)); }
  }

  /** From a header that may be accepted past the end, some run does accept one. */
  lemma {:induction false} OverrunningRun(buf: seq<Byte>, pos: nat, b: nat) returns (t: Calls, p: nat)
    requires |buf| <= MAX_SIZE && LengthsDefined(buf, pos)
    requires b in Reached(buf, pos) && MayAccept(buf, b)
    ensures IsRun(buf, pos, t) && Defined(t) && p in Delivered(t) && Overruns(buf, p)
    decreases |buf| - pos, 1
  {
    var start := NextHeader(buf, pos);
    ReachedFirst(buf, pos, start);
    if MayAccept(buf, start) {
      var w := AcceptingWindow(buf, start);
      t, p := Accepted(start, w, Ended), start;
    } else {
      var w := Padded(buf, start);
      PaddedDecides(buf, start);
      if b in Reached(buf, start + 2) && !Valid(buf, start) {
        t, p := OverrunInRetry(buf, pos, start, w, b);
      } else {
        t, p := OverrunInRest(buf, pos, start, w, b);
      }
    }
  }

  lemma {:induction false} OverrunInRetry(buf: seq<Byte>, pos: nat, start: nat, w: Packet, b: nat)
    returns (t: Calls, p: nat)
    requires |buf| <= MAX_SIZE && LengthsDefined(buf, pos) && FirstHeader(buf, pos, start)
    requires IsWindow(buf, start, w) && SizeofPacket(w) >= 2 && !CrcOk(Frame(w))
    requires b in Reached(buf, start + 2) && MayAccept(buf, b)
    ensures IsRun(buf, pos, t) && Defined(t) && p in Delivered(t) && Overruns(buf, p)
    decreases |buf| - pos, 0
  {
    var retry;
    retry, p := OverrunningRun(buf, start + 2, b);
    var rest := AnyRest(buf, start, w);
    t := BuildRun(buf, pos, start, w, retry, rest);
  }

  lemma {:induction false} OverrunInRest(buf: seq<Byte>, pos: nat, start: nat, w: Packet, b: nat)
    returns (t: Calls, p: nat)
    requires |buf| <= MAX_SIZE && LengthsDefined(buf, pos) && FirstHeader(buf, pos, start)
    requires IsWindow(buf, start, w) && SizeofPacket(w) == Declared(w) >= 2
    requires b in Reached(buf, start + SizeofPacket(w)) && MayAccept(buf, b)
    ensures IsRun(buf, pos, t) && Defined(t) && p in Delivered(t) && Overruns(buf, p)
    decreases |buf| - pos, 0
  {
    ReachedWithin(buf, start + SizeofPacket(w), b);
    var rest;
    rest, p := OverrunningRun(buf, start + SizeofPacket(w), b);
    var retry := AnyRun(buf, start + 2);
    t := BuildRun(buf, pos, start, w, retry, rest);
  }

  lemma ReachedWithin(buf: seq<Byte>, pos: nat, b: nat)
    requires b in Reached(buf, pos)
    ensures pos < |buf|
  {
  }

  /** Where no stack content matters, the padded window passes exactly if the packet is valid. */
  lemma PaddedDecides(buf: seq<Byte>, p: nat)
    requires p <= |buf| <= MAX_SIZE && HeaderAt(buf, p) && LengthsDefined(buf, p) && !MayAccept(buf, p)
    ensures CrcOk(Frame(Padded(buf, p))) <==> Valid(buf, p)
    ensures IsWindow(buf, p, Padded(buf, p)) && SizeofPacket(Padded(buf, p)) >= 2
    ensures !Overruns(buf, p) ==> Declared(Padded(buf, p)) == SizeofPacket(Padded(buf, p)) == DeclaredAt(buf, p)
  {
    var w := Padded(buf, p);
    PaddedDefined(buf, p);
    if Overruns(buf, p) {
      if CrcOk(Frame(w)) { AcceptedMayBe(buf, p, w); }
    } else {
      WindowShows(buf, p, w);
    }
  }

  // ---------------------------------------------------------------------
  // Exactly when
  // ---------------------------------------------------------------------

  /** Every defined run from pos delivers exactly the valid packets. */
  ghost predicate AlwaysResynchronises(buf: seq<Byte>, pos: nat) {
    forall t: Calls :: IsRun(buf, pos, t) && Defined(t) ==> DeliversExactlyValid(buf, pos, t)
  }

  /**
   * Resynchronisation is sound and complete in every run, however many corrupted headers lie
   * between, exactly on the inputs where no header the scan can come to may be accepted past the end.
   */
  lemma ResynchronisesIff(buf: seq<Byte>, pos: nat)
    requires |buf| <= MAX_SIZE && LengthsDefined(buf, pos) && NoOverlap(buf, pos)
    ensures AlwaysResynchronises(buf, pos) <==> Safe(buf, pos)
  {
    if Safe(buf, pos) {
      SafeRuns(buf, pos);
      forall t: Calls | IsRun(buf, pos, t) && Defined(t) ensures DeliversExactlyValid(buf, pos, t) {
        ResynchronisedIff(buf, pos, t);
      }
    } else {
      var b: nat :| b in Reached(buf, pos) && MayAccept(buf, b);
      var t, p := OverrunningRun(buf, pos, b);
      assert p in Delivered(t) && !Valid(buf, p);
      assert !DeliversExactlyValid(buf, pos, t);
    }
  }

  /** A packet that reaches past the input may be delivered alone, from an input without a valid packet there. */
  lemma OverrunMayBeDelivered(buf: seq<Byte>, pos: nat, start: nat) returns (t: Calls)
    requires |buf| <= MAX_SIZE && FirstHeader(buf, pos, start) && MayAccept(buf, start)
    ensures IsRun(buf, pos, t) && Defined(t) && Delivered(t) == [start] && !Valid(buf, start)
  {
    var w := AcceptingWindow(buf, start);
    t := Accepted(start, w, Ended);
  }

  /** A first packet that reaches past the input is delivered in some run exactly if MayAccept says so. */
  lemma OverrunDeliveredIff(buf: seq<Byte>, pos: nat, start: nat)
    requires |buf| <= MAX_SIZE && FirstHeader(buf, pos, start) && Overruns(buf, start)
    ensures MayAccept(buf, start) <==> exists t: Calls :: IsRun(buf, pos, t) && Defined(t) && start in Delivered(t)
  {
    if MayAccept(buf, start) {
      var t := OverrunMayBeDelivered(buf, pos, start);
    }
    forall t: Calls | IsRun(buf, pos, t) && Defined(t) && start in Delivered(t) ensures MayAccept(buf, start) {
      assert t.start == start;
      if t.Accepted? {
        AcceptedMayBe(buf, start, t.window);
      } else {
        LaterDeliveries(buf, t);
      }
    }
  }

  lemma LaterDeliveries(buf: seq<Byte>, t: Calls)
    requires t.Rejected? && IsRun(buf, t.start + 2, t.retry) && IsRest(buf, t.start, t.window, t.rest)
    requires SizeofPacket(t.window) >= 2
    ensures t.start !in Delivered(t)
  {
    if t.start in Delivered(t.retry) { DeliveredIsSound(buf, t.start + 2, t.retry, t.start); }
    if t.start in Delivered(t.rest) {
      DeliveredIsSound(buf, t.start + SizeofPacket(t.window), t.rest, t.start);
    }
  }
}
