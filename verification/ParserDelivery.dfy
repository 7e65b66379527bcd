/** How often, in what order and with what replies handle_packet delivers. */
module ParserDelivery {
  import opened Crc16
  import opened CrcCheck
  import opened EasnPackage
  import opened PacketParser

  // ---------------------------------------------------------------------
  // Exactly once
  // ---------------------------------------------------------------------

  function Occurrences(s: seq<nat>, q: nat): nat {
    multiset(s)[q]
  }

  /** The candidates of the run that failed their check, with their sizes. */
  function Failures(t: Calls): set<(nat, nat)> {
    match t
    case Ended => {}
    case Nothing => {}
    case Undefined(_, _) => {}
    case Accepted(_, _, rest) => Failures(rest)
    case Rejected(start, w, retry, rest) => {(start, SizeofPacket(w))} + Failures(retry) + Failures(rest)
  }

  lemma {:induction false} DeliveredFrom(buf: seq<Byte>, pos: nat, t: Calls)
    requires t == Ended || IsRun(buf, pos, t)
    ensures forall p :: p in Delivered(t) ==> pos <= p
    decreases t
  {
    forall p | p in Delivered(t) ensures pos <= p { DeliveredIsSound(buf, pos, t, p); }
  }

  lemma {:induction false} FailuresFrom(buf: seq<Byte>, pos: nat, t: Calls)
    requires t == Ended || IsRun(buf, pos, t)
    ensures forall f :: f in Failures(t) ==> pos <= f.0
    decreases t
  {
    if t.Accepted? {
      FailuresFrom(buf, t.start + SizeofPacket(t.window), t.rest);
    } else if t.Rejected? {
      FailuresFrom(buf, t.start + 2, t.retry);
      FailuresFrom(buf, t.start + SizeofPacket(t.window), t.rest);
    }
  }

  /** No failed candidate before q declared a length that ends by q. */
  predicate NoFailureEndsBy(t: Calls, q: nat) {
    forall f :: f in Failures(t) && f.0 < q ==> f.0 + f.1 > q
  }

  lemma OccursPrepended(start: nat, s: seq<nat>, q: nat)
    ensures Occurrences([start] + s, q) == (if start == q then 1 else 0) + Occurrences(s, q)
  {
    assert multiset([start] + s) == multiset([start]) + multiset(s);
  }

  lemma OccursAppended(a: seq<nat>, b: seq<nat>, q: nat)
    ensures Occurrences(a + b, q) == Occurrences(a, q) + Occurrences(b, q)
  {
    assert multiset(a + b) == multiset(a) + multiset(b);
  }

  lemma OccursIffIn(s: seq<nat>, q: nat)
    ensures q in s <==> Occurrences(s, q) >= 1
  {
    assert q in s <==> q in multiset(s);
  }

  lemma NotBefore(buf: seq<Byte>, pos: nat, t: Calls, q: nat)
    requires t == Ended || IsRun(buf, pos, t)
    requires q < pos
    ensures Occurrences(Delivered(t), q) == 0 && NoFailureEndsBy(t, q)
  {
    DeliveredFrom(buf, pos, t);
    OccursIffIn(Delivered(t), q);
    FailuresFrom(buf, pos, t);
  }

  lemma AcceptedOnce(buf: seq<Byte>, pos: nat, t: Calls, q: nat)
    requires IsRun(buf, pos, t) && t.Accepted? && t.start == q
    ensures Occurrences(Delivered(t), q) == 1 && NoFailureEndsBy(t, q)
  {
    OccursPrepended(q, Delivered(t.rest), q);
    NotBefore(buf, q + SizeofPacket(t.window), t.rest, q);
  }

  lemma SizeBelowInput(buf: seq<Byte>, start: nat, w: Packet, q: nat)
    requires IsWindow(buf, start, w) && start + SizeofPacket(w) <= q < |buf|
    ensures Declared(w) < |buf| - start
  {
    assert |buf[start..]| <= MAX_SIZE;
  }

  /** The second recursion after a failed check contributes exactly when it starts by q. */
  lemma RestContributes(buf: seq<Byte>, t: Calls, q: nat)
    requires t.Rejected? && IsWindow(buf, t.start, t.window) && IsRest(buf, t.start, t.window, t.rest)
    requires Defined(t.rest) && Valid(buf, q) && ClearUpTo(buf, t.rest, q)
    ensures t.start + SizeofPacket(t.window) <= q ==> Occurrences(Delivered(t.rest), q) >= 1
    ensures t.start + SizeofPacket(t.window) > q
        ==> Occurrences(Delivered(t.rest), q) == 0 && NoFailureEndsBy(t.rest, q)
  {
    var next := t.start + SizeofPacket(t.window);
    if next <= q {
      SizeBelowInput(buf, t.start, t.window, q);
      AtLeastOnce(buf, next, t.rest, q);
      OccursIffIn(Delivered(t.rest), q);
    } else {
      NotBefore(buf, next, t.rest, q);
    }
  }

  /**
   * A reachable valid packet is delivered exactly once when no failed candidate before it
   * declared a length ending by it; otherwise the second recursion delivers it again.
   */
  lemma {:induction false} ExactlyOnceIff(buf: seq<Byte>, pos: nat, t: Calls, q: nat)
    requires |buf| <= MAX_SIZE && IsRun(buf, pos, t) && Defined(t)
    requires pos <= q && Valid(buf, q) && ClearUpTo(buf, t, q)
    ensures Occurrences(Delivered(t), q) == 1 <==> NoFailureEndsBy(t, q)
    decreases t
  {
    if t.Accepted? {
      FirstUpTo(buf, pos, t.start, q);
      if t.start < q {
        assert t.start in Delivered(t);
        ClearRest(buf, t, t.rest, q);
        GoesOn(buf, t.start, t.window, t.rest, q);
        ExactlyOnceIff(buf, t.start + SizeofPacket(t.window), t.rest, q);
        OccursPrepended(t.start, Delivered(t.rest), q);
      } else {
        AcceptedOnce(buf, pos, t, q);
      }
    } else if t.Rejected? {
      FirstUpTo(buf, pos, t.start, q);
      if t.start == q { WindowShows(buf, q, t.window); }
      HeaderNotNext(buf, t.start, q);
      ClearRest(buf, t, t.retry, q);
      ClearRest(buf, t, t.rest, q);
      AtLeastOnce(buf, t.start + 2, t.retry, q);
      ExactlyOnceIff(buf, t.start + 2, t.retry, q);
      RestContributes(buf, t, q);
      OccursAppended(Delivered(t.retry), Delivered(t.rest), q);
      FailuresSplit(t, q);
    }
  }

  lemma FailuresSplit(t: Calls, q: nat)
    requires t.Rejected?
    ensures NoFailureEndsBy(t, q) <==>
      && (t.start < q ==> t.start + SizeofPacket(t.window) > q)
      && NoFailureEndsBy(t.retry, q) && NoFailureEndsBy(t.rest, q)
  {
    assert (t.start, SizeofPacket(t.window)) in Failures(t);
    assert Failures(t.retry) <= Failures(t) && Failures(t.rest) <= Failures(t);
  }

  ghost predicate Ascending(s: seq<nat>) {
    forall i, j :: 0 <= i < j < |s| ==> s[i] < s[j]
  }

  /** Deliveries are in input order, each position once, where no failed candidate ends by any of them. */
  lemma {:induction false} InOrder(buf: seq<Byte>, pos: nat, t: Calls)
    requires t == Ended || IsRun(buf, pos, t)
    requires forall q :: q in Delivered(t) ==> NoFailureEndsBy(t, q)
    ensures Ascending(Delivered(t))
    decreases t
  {
    if t.Accepted? {
      var next := t.start + SizeofPacket(t.window);
      forall q | q in Delivered(t.rest) ensures NoFailureEndsBy(t.rest, q) { assert q in Delivered(t); }
      InOrder(buf, next, t.rest);
      DeliveredFrom(buf, next, t.rest);
      AscendingFrom(t.start, Delivered(t.rest));
    } else if t.Rejected? {
      NothingAgain(buf, pos, t);
      forall q | q in Delivered(t.retry) ensures NoFailureEndsBy(t.retry, q) {
        assert q in Delivered(t);
        FailuresSplit(t, q);
      }
      InOrder(buf, t.start + 2, t.retry);
    }
  }

  /** Then the second recursion after a failed check delivers nothing. */
  lemma NothingAgain(buf: seq<Byte>, pos: nat, t: Calls)
    requires IsRun(buf, pos, t) && t.Rejected?
    requires forall q :: q in Delivered(t) ==> NoFailureEndsBy(t, q)
    ensures Delivered(t) == Delivered(t.retry)
  {
    if Delivered(t.rest) != [] {
      var q := Delivered(t.rest)[0];
      DeliveredFrom(buf, t.start + SizeofPacket(t.window), t.rest);
      assert q in Delivered(t.rest) && q in Delivered(t);
      FailuresSplit(t, q);
      assert false;
    }
  }

  lemma AscendingFrom(start: nat, s: seq<nat>)
    requires Ascending(s) && forall p :: p in s ==> start < p
    ensures Ascending([start] + s)
  {
    var r := [start] + s;
    forall i, j | 0 <= i < j < |r| ensures r[i] < r[j] {
      assert r[j] == s[j - 1] && s[j - 1] in s;
      if i > 0 { assert r[i] == s[i - 1]; }
    }
  }

  // ---------------------------------------------------------------------
  // Termination and replies
  // ---------------------------------------------------------------------

  /** The header candidates a run processes. */
  function Candidates(t: Calls): nat {
    match t
    case Ended => 0
    case Nothing => 0
    case Undefined(_, _) => 0
    case Accepted(_, _, rest) => 1 + Candidates(rest)
    case Rejected(_, _, retry, rest) => 1 + Candidates(retry) + Candidates(rest)
  }

  function Writes(events: seq<Event>): nat {
    if events == [] then 0 else Writes(events[..|events| - 1]) + (if events[|events| - 1].Write? then 1 else 0)
  }

  function Callbacks(events: seq<Event>): nat {
    if events == [] then 0 else Callbacks(events[..|events| - 1]) + (if events[|events| - 1].Callback? then 1 else 0)
  }

  lemma {:induction false} CountsAppend(a: seq<Event>, b: seq<Event>)
    ensures Writes(a + b) == Writes(a) + Writes(b) && Callbacks(a + b) == Callbacks(a) + Callbacks(b)
  {
    if b == [] {
      assert a + b == a;
    } else {
      var n := |b| - 1;
      assert (a + b)[..|a| + n] == a + b[..n];
      CountsAppend(a, b[..n]);
    }
  }

  lemma CountOne(e: Event)
    ensures Writes([e]) == (if e.Write? then 1 else 0) && Callbacks([e]) == (if e.Callback? then 1 else 0)
  {
    assert [e][..0] == [];
  }

  /** One reply per candidate, one callback per delivery. */
  lemma {:induction false} OneReplyEach(t: Calls)
    ensures Writes(Events(t)) == Candidates(t) && Callbacks(Events(t)) == |Delivered(t)|
  {
    match t
    case Ended =>
    case Nothing =>
    case Undefined(_, _) =>
    case Accepted(_, w, rest) =>
      OneReplyEach(rest);
      var ack, call := Write(AckBytes(w, SUCCESS)), Callback(w);
      CountOne(ack);
      CountOne(call);
      CountsAppend([ack], [call]);
      assert [ack] + [call] == [ack, call];
      CountsAppend([ack, call], Events(rest));
    case Rejected(_, w, retry, rest) =>
      OneReplyEach(retry);
      OneReplyEach(rest);
      var ack := Write(AckBytes(w, CRC_ERROR));
      CountOne(ack);
      CountsAppend([ack], Events(retry));
      CountsAppend([ack] + Events(retry), Events(rest));
  }

  /** Every callback comes right after the reply with code 0 to the same, checked packet. */
  ghost predicate RepliedFirst(events: seq<Event>) {
    forall i :: 0 <= i < |events| && events[i].Callback? ==> RepliedAt(events, i)
  }

  predicate RepliedAt(events: seq<Event>, i: nat)
    requires i < |events| && events[i].Callback?
  {
    && i > 0 && events[i - 1].Write? && AckOf(events[i - 1].bytes, events[i].packet, 0)
    && SizeofPacket(events[i].packet) >= 2 && CrcOk(Frame(events[i].packet))
  }

  /** A reply says 0 when a callback follows it, for that packet, and 1 otherwise. */
  predicate CodedAt(events: seq<Event>, i: nat)
    requires i < |events| && events[i].Write?
  {
    if i + 1 < |events| && events[i + 1].Callback? then AckOf(events[i].bytes, events[i + 1].packet, 0)
    else |events[i].bytes| == 13 && events[i].bytes[9..11] == [0x00, 0x01]
  }

  ghost predicate RepliesCoded(events: seq<Event>) {
    forall i :: 0 <= i < |events| && events[i].Write? ==> CodedAt(events, i)
  }

  lemma AcceptedPair(w: Packet)
    requires SizeofPacket(w) >= 2 && CrcOk(Frame(w))
    ensures RepliedFirst([Write(AckBytes(w, SUCCESS)), Callback(w)])
  {
    AckBytesAre(w, SUCCESS, 0);
  }

  lemma RejectedReply(w: Packet)
    ensures var events := [Write(AckBytes(w, CRC_ERROR))]; RepliedFirst(events) && RepliesCoded(events)
    ensures AckOf(AckBytes(w, CRC_ERROR), w, 1)
  {
    AckBytesAre(w, CRC_ERROR, 1);
    var bytes := AckBytes(w, CRC_ERROR);
    assert bytes[9..11] == bytes[7..11][2..4];
  }

  lemma {:induction false} SuccessBeforeCallback(buf: seq<Byte>, pos: nat, t: Calls)
    requires t == Ended || IsRun(buf, pos, t)
    ensures RepliedFirst(Events(t))
    decreases t
  {
    if t.Accepted? {
      SuccessBeforeCallback(buf, t.start + SizeofPacket(t.window), t.rest);
      AcceptedPair(t.window);
      RepliedFirstAppend([Write(AckBytes(t.window, SUCCESS)), Callback(t.window)], Events(t.rest));
    } else if t.Rejected? {
      SuccessBeforeCallback(buf, t.start + 2, t.retry);
      SuccessBeforeCallback(buf, t.start + SizeofPacket(t.window), t.rest);
      RejectedReply(t.window);
      RepliedFirstAppend([Write(AckBytes(t.window, CRC_ERROR))], Events(t.retry));
      RepliedFirstAppend([Write(AckBytes(t.window, CRC_ERROR))] + Events(t.retry), Events(t.rest));
    }
  }

  lemma RepliedFirstAppend(a: seq<Event>, b: seq<Event>)
    requires RepliedFirst(a) && RepliedFirst(b)
    ensures RepliedFirst(a + b)
  {
    var r := a + b;
    forall i | 0 <= i < |r| && r[i].Callback? ensures RepliedAt(r, i) {
      if i < |a| {
        assert RepliedAt(a, i) && r[i - 1] == a[i - 1];
      } else {
        assert RepliedAt(b, i - |a|) && r[i - 1] == b[i - |a| - 1];
      }
    }
  }

  lemma ReplyFirst(t: Calls)
    ensures Events(t) == [] || Events(t)[0].Write?
  {
  }

  lemma PairCoded(w: Packet)
    ensures RepliesCoded([Write(AckBytes(w, SUCCESS)), Callback(w)])
  {
    AckBytesAre(w, SUCCESS, 0);
  }

  /** In every run each reply carries code 0 if a callback follows it directly, and 1 if not. */
  lemma {:induction false} ReplyCodes(t: Calls)
    ensures RepliesCoded(Events(t))
  {
    if t.Accepted? {
      ReplyCodes(t.rest);
      ReplyFirst(t.rest);
      PairCoded(t.window);
      CodedAppend([Write(AckBytes(t.window, SUCCESS)), Callback(t.window)], Events(t.rest));
    } else if t.Rejected? {
      ReplyCodes(t.retry);
      ReplyFirst(t.retry);
      ReplyCodes(t.rest);
      ReplyFirst(t.rest);
      RejectedReply(t.window);
      CodedAppend([Write(AckBytes(t.window, CRC_ERROR))], Events(t.retry));
      CodedAppend([Write(AckBytes(t.window, CRC_ERROR))] + Events(t.retry), Events(t.rest));
    }
  }

  lemma CodedAppend(a: seq<Event>, b: seq<Event>)
    requires RepliesCoded(a) && RepliesCoded(b) && (b == [] || b[0].Write?)
    ensures RepliesCoded(a + b)
  {
    var r := a + b;
    forall i | 0 <= i < |r| && r[i].Write? ensures CodedAt(r, i) {
      if i < |a| {
        assert CodedAt(a, i);
        if i + 1 == |a| < |r| { assert r[i + 1] == b[0]; }
      } else {
        assert CodedAt(b, i - |a|);
        if i + 1 < |r| { assert r[i + 1] == b[i + 1 - |a|]; }
      }
    }
  }

  lemma EventBehind(a: seq<Event>, b: seq<Event>, i: nat)
    requires i < |b|
    ensures |a| + i < |a + b| && (a + b)[|a| + i] == b[i]
  {
  }

  lemma EventAhead(a: seq<Event>, b: seq<Event>, i: nat)
    requires i < |a|
    ensures i < |a + b| && (a + b)[i] == a[i]
  {
  }

  lemma EventOfRest(t: Calls, i: nat) returns (k: nat)
    requires (t.Accepted? || t.Rejected?) && i < |Events(t.rest)|
    ensures k < |Events(t)| && Events(t)[k] == Events(t.rest)[i]
  {
    var head := if t.Accepted? then [Write(AckBytes(t.window, SUCCESS)), Callback(t.window)]
                else [Write(AckBytes(t.window, CRC_ERROR))] + Events(t.retry);
    EventBehind(head, Events(t.rest), i);
    k := |head| + i;
  }

  lemma EventOfRetry(t: Calls, i: nat) returns (k: nat)
    requires t.Rejected? && i < |Events(t.retry)|
    ensures k < |Events(t)| && Events(t)[k] == Events(t.retry)[i]
  {
    var head := [Write(AckBytes(t.window, CRC_ERROR))];
    EventBehind(head, Events(t.retry), i);
    EventAhead(head + Events(t.retry), Events(t.rest), 1 + i);
    k := 1 + i;
  }

  lemma {:induction false} FailureEvent(buf: seq<Byte>, pos: nat, t: Calls, f: (nat, nat)) returns (i: nat, w: Packet)
    requires (t == Ended || IsRun(buf, pos, t)) && f in Failures(t)
    ensures IsWindow(buf, f.0, w) && SizeofPacket(w) == f.1
    ensures i < |Events(t)| && Events(t)[i] == Write(AckBytes(w, CRC_ERROR))
    decreases t
  {
    if f in Failures(t.rest) {
      i, w := FailureEvent(buf, t.start + SizeofPacket(t.window), t.rest, f);
      i := EventOfRest(t, i);
    } else if f in Failures(t.retry) {
      i, w := FailureEvent(buf, t.start + 2, t.retry, f);
      i := EventOfRetry(t, i);
    } else {
      i, w := 0, t.window;
    }
  }

  /** Every failed candidate is answered with its own type and index, code 1 and a valid checksum. */
  lemma {:induction false} FailureReplied(buf: seq<Byte>, pos: nat, t: Calls, f: (nat, nat)) returns (i: nat, w: Packet)
    requires IsRun(buf, pos, t) && f in Failures(t)
    ensures IsWindow(buf, f.0, w) && SizeofPacket(w) == f.1
    ensures i < |Events(t)| && Events(t)[i].Write? && AckOf(Events(t)[i].bytes, w, 1)
  {
    i, w := FailureEvent(buf, pos, t, f);
    RejectedReply(w);
  }

  function Power2(n: nat): nat {
    if n == 0 then 1 else 2 * Power2(n - 1)
  }

  lemma {:induction false} Power2Monotone(m: nat, n: nat)
    requires m <= n
    ensures 1 <= Power2(m) <= Power2(n)
  {
    if m < n {
      Power2Monotone(m, n - 1);
    } else if m > 0 {
      Power2Monotone(m - 1, n - 1);
    }
  }

  lemma HalfLess(len: nat, pos: nat, next: nat)
    requires pos + 2 <= next <= len
    ensures 2 * Power2((len - next) / 2) <= Power2((len - pos) / 2)
  {
    var half := (len - pos) / 2;
    Power2Monotone((len - next) / 2, half - 1);
  }

  /** A run makes at most 2^(half the input) - 1 replies. */
  lemma {:induction false} ReplyBound(buf: seq<Byte>, pos: nat, t: Calls)
    requires t == Ended || IsRun(buf, pos, t)
    requires pos <= |buf|
    ensures Candidates(t) <= Power2((|buf| - pos) / 2) - 1
    decreases t, 1
  {
    Power2Monotone(0, (|buf| - pos) / 2);
    if t.Accepted? {
      LaterBound(buf, pos, t.start + SizeofPacket(t.window), t.rest);
    } else if t.Rejected? {
      LaterBound(buf, pos, t.start + 2, t.retry);
      LaterBound(buf, pos, t.start + SizeofPacket(t.window), t.rest);
    }
  }

  lemma {:induction false} LaterBound(buf: seq<Byte>, pos: nat, next: nat, t: Calls)
    requires t == Ended || (IsRun(buf, next, t) && next <= |buf|)
    requires pos + 2 <= |buf| && pos + 2 <= next
    ensures 2 * (Candidates(t) + 1) <= Power2((|buf| - pos) / 2)
    decreases t, 2
  {
    if t == Ended {
      Power2Monotone(1, (|buf| - pos) / 2);
    } else {
      ReplyBound(buf, next, t);
      HalfLess(|buf|, pos, next);
    }
  }

  /** With no failed candidate, at most one reply per two bytes of input. */
  lemma {:induction false} CleanReplyBound(buf: seq<Byte>, pos: nat, t: Calls)
    requires t == Ended || IsRun(buf, pos, t)
    requires pos <= |buf| && Failures(t) == {}
    ensures Candidates(t) <= (|buf| - pos) / 2
    decreases t
  {
    if t.Accepted? {
      assert t.start + 2 <= |buf|;
      if t.rest != Ended { CleanReplyBound(buf, t.start + SizeofPacket(t.window), t.rest); }
    }
  }
}
