/**
 * Which inputs make handle_packet deliver a packet more than once, and how many replies it can
 * make: conditions on the bytes alone.
 */
module ParserRepeats {
  import opened Crc16
  import opened CrcCheck
  import opened EasnPackage
  import opened PacketParser
  import opened ParserDelivery
  import opened Resynchronisation
  import opened NoisyStream

  // ---------------------------------------------------------------------
  // Stray headers
  // ---------------------------------------------------------------------

  /** p lies inside a valid packet that begins before it. */
  ghost predicate Inside(buf: seq<Byte>, pos: nat, p: nat) {
    exists v: nat :: Covers(buf, pos, v, p)
  }

  predicate Covers(buf: seq<Byte>, pos: nat, v: nat, p: nat) {
    pos <= v < p && Valid(buf, v) && p < v + DeclaredAt(buf, v)
  }

  /** A header that is not valid and lies inside no valid packet. */
  ghost predicate Stray(buf: seq<Byte>, pos: nat, p: nat) {
    pos <= p && HeaderAt(buf, p) && !Valid(buf, p) && !Inside(buf, pos, p)
  }

  /** A stray header before q declares a length that ends by q. */
  ghost predicate StrayEndsBy(buf: seq<Byte>, pos: nat, q: nat) {
    exists p: nat :: Stray(buf, pos, p) && p < q && !Overruns(buf, p) && p + DeclaredAt(buf, p) <= q
  }

  lemma StrayLater(buf: seq<Byte>, pos: nat, next: nat, p: nat)
    requires Stray(buf, pos, p) && pos <= next <= p
    ensures Stray(buf, next, p)
  {
    forall v: nat | Covers(buf, next, v, p) ensures false { assert Covers(buf, pos, v, p); }
  }

  /** A valid candidate that covers no stray header lets the scan go on to it. */
  lemma StrayBehind(buf: seq<Byte>, pos: nat, start: nat, p: nat)
    requires Stray(buf, pos, p) && pos <= start <= p && Valid(buf, start)
    ensures start + DeclaredAt(buf, start) <= p < |buf|
  {
    assert start < p;
    assert !Covers(buf, pos, start, p);
  }

  /** An accepted call that delivers nothing past the input, and the call after it. */
  lemma AcceptedCall(buf: seq<Byte>, pos: nat, t: Calls)
    requires IsRun(buf, pos, t) && t.Accepted? && WithinInput(buf, t)
    ensures FirstHeader(buf, pos, t.start) && Valid(buf, t.start)
    ensures SizeofPacket(t.window) == DeclaredAt(buf, t.start) && WithinInput(buf, t.rest)
    ensures if t.start + DeclaredAt(buf, t.start) < |buf|
            then IsRun(buf, t.start + DeclaredAt(buf, t.start), t.rest) else t.rest == Ended
  {
    assert t.start in Delivered(t);
    DeliveredIsSound(buf, pos, t, t.start);
    WindowShows(buf, t.start, t.window);
    WithinRest(buf, t, t.rest);
  }

  lemma RejectedCall(buf: seq<Byte>, pos: nat, t: Calls)
    requires IsRun(buf, pos, t) && t.Rejected? && WithinInput(buf, t)
    ensures FirstHeader(buf, pos, t.start) && !Valid(buf, t.start)
    ensures !Overruns(buf, t.start) ==> SizeofPacket(t.window) == DeclaredAt(buf, t.start)
    ensures WithinInput(buf, t.retry) && WithinInput(buf, t.rest)
    ensures IsRun(buf, t.start + 2, t.retry)
    ensures t.rest == Ended || IsRun(buf, t.start + SizeofPacket(t.window), t.rest)
  {
    FailedIsInvalid(buf, t.start, t.window);
    WithinRest(buf, t, t.retry);
    WithinRest(buf, t, t.rest);
  }

  /** Every run comes to every stray header, and fails there. */
  lemma {:induction false} StrayFails(buf: seq<Byte>, pos: nat, t: Calls, p: nat) returns (size: nat)
    requires IsRun(buf, pos, t) && Defined(t) && WithinInput(buf, t) && Stray(buf, pos, p)
    ensures (p, size) in Failures(t) && (!Overruns(buf, p) ==> size == DeclaredAt(buf, p))
    decreases t
  {
    FirstUpTo(buf, pos, t.start, p);
    if t.Accepted? {
      AcceptedCall(buf, pos, t);
      var next := t.start + DeclaredAt(buf, t.start);
      StrayBehind(buf, pos, t.start, p);
      StrayLater(buf, pos, next, p);
      size := StrayFails(buf, next, t.rest, p);
    } else {
      RejectedCall(buf, pos, t);
      if t.start == p {
        size := SizeofPacket(t.window);
      } else {
        HeaderNotNext(buf, t.start, p);
        StrayLater(buf, pos, t.start + 2, p);
        size := StrayFails(buf, t.start + 2, t.retry, p);
      }
    }
  }

  lemma WithinRest(buf: seq<Byte>, t: Calls, part: Calls)
    requires WithinInput(buf, t)
    requires (t.Accepted? && part == t.rest) || (t.Rejected? && (part == t.retry || part == t.rest))
    ensures WithinInput(buf, part)
  {
    forall p | p in Delivered(part) ensures !Overruns(buf, p) { assert p in Delivered(t); }
  }

  /** The window of a failed candidate. */
  lemma {:induction false} FailureWindow(buf: seq<Byte>, pos: nat, t: Calls, f: (nat, nat)) returns (w: Packet)
    requires (t == Ended || IsRun(buf, pos, t)) && f in Failures(t)
    ensures HeaderAt(buf, f.0) && IsWindow(buf, f.0, w) && SizeofPacket(w) == f.1 >= 2 && !CrcOk(Frame(w))
    decreases t
  {
    if t.Accepted? || f in Failures(t.rest) {
      w := FailureWindow(buf, t.start + SizeofPacket(t.window), t.rest, f);
    } else if f in Failures(t.retry) {
      w := FailureWindow(buf, t.start + 2, t.retry, f);
    } else {
      w := t.window;
    }
  }

  lemma {:induction false} FailureIs(buf: seq<Byte>, pos: nat, t: Calls, f: (nat, nat))
    requires (t == Ended || IsRun(buf, pos, t)) && f in Failures(t)
    ensures pos <= f.0 && HeaderAt(buf, f.0) && !Valid(buf, f.0)
    ensures f.0 + 9 <= |buf| ==> f.1 == SizeAt(buf, f.0)
  {
    FailuresFrom(buf, pos, t);
    var w := FailureWindow(buf, pos, t, f);
    FailedIsInvalid(buf, f.0, w);
    if f.0 + 9 <= |buf| { FieldsShown(buf, f.0, w); }
  }

  /** A candidate that fails inside a valid packet was jumped to, from a failure before that packet. */
  lemma {:induction false} JumpedInto(buf: seq<Byte>, pos: nat, t: Calls, f: (nat, nat), v: nat) returns (g: (nat, nat))
    requires IsRun(buf, pos, t) && WithinInput(buf, t) && NoOverlap(buf, pos)
    requires f in Failures(t) && Covers(buf, pos, v, f.0)
    ensures g in Failures(t) && g.0 < v && g.0 + g.1 <= f.0
    decreases t, 2
  {
    FirstUpTo(buf, pos, t.start, v);
    if t.Accepted? {
      g := JumpedBehind(buf, pos, t, f, v);
    } else {
      RejectedCall(buf, pos, t);
      HeaderNotNext(buf, t.start, v);
      if f in Failures(t.retry) {
        g := JumpedInto(buf, t.start + 2, t.retry, f, v);
      } else {
        g := JumpedFrom(buf, pos, t, f, v);
      }
    }
  }

  lemma {:induction false} JumpedBehind(buf: seq<Byte>, pos: nat, t: Calls, f: (nat, nat), v: nat)
    returns (g: (nat, nat))
    requires IsRun(buf, pos, t) && t.Accepted? && WithinInput(buf, t) && NoOverlap(buf, pos)
    requires f in Failures(t.rest) && t.start <= v && Covers(buf, pos, v, f.0)
    ensures g in Failures(t.rest) && g.0 < v && g.0 + g.1 <= f.0
    decreases t, 1
  {
    AcceptedCall(buf, pos, t);
    FailuresFrom(buf, t.start + DeclaredAt(buf, t.start), t.rest);
    BehindAccepted(buf, pos, t.start, v, f.0);
    g := JumpedInto(buf, t.start + DeclaredAt(buf, t.start), t.rest, f, v);
  }

  /** A valid packet that covers something behind an accepted one begins behind it. */
  lemma BehindAccepted(buf: seq<Byte>, pos: nat, start: nat, v: nat, p: nat)
    requires NoOverlap(buf, pos) && pos <= start <= v && Valid(buf, start) && Covers(buf, pos, v, p)
    requires start + DeclaredAt(buf, start) <= p
    ensures start + DeclaredAt(buf, start) <= v
  {
  }

  /** The same for a failure of the second recursion, or of the call itself. */
  lemma {:induction false} JumpedFrom(buf: seq<Byte>, pos: nat, t: Calls, f: (nat, nat), v: nat) returns (g: (nat, nat))
    requires IsRun(buf, pos, t) && t.Rejected? && WithinInput(buf, t) && NoOverlap(buf, pos)
    requires f in Failures(t) && f !in Failures(t.retry) && t.start < v && Covers(buf, pos, v, f.0)
    ensures g in Failures(t) && g.0 < v && g.0 + g.1 <= f.0
    decreases t, 0
  {
    RejectedCall(buf, pos, t);
    var next := t.start + SizeofPacket(t.window);
    FailuresFrom(buf, next, t.rest);
    if next <= v {
      g := JumpedInto(buf, next, t.rest, f, v);
    } else {
      g := (t.start, SizeofPacket(t.window));
    }
  }

  /** Every failure goes back to a stray header, itself or one that ends by it. */
  lemma {:induction false} StrayBefore(buf: seq<Byte>, pos: nat, t: Calls, f: (nat, nat)) returns (p: nat)
    requires |buf| <= MAX_SIZE && IsRun(buf, pos, t) && WithinInput(buf, t) && NoOverlap(buf, pos)
    requires f in Failures(t)
    ensures Stray(buf, pos, p)
    ensures p == f.0 || (!Overruns(buf, p) && p + DeclaredAt(buf, p) <= f.0)
    decreases f.0
  {
    FailureIs(buf, pos, t, f);
    p := f.0;
    if Inside(buf, pos, f.0) {
      var v: nat :| Covers(buf, pos, v, f.0);
      var g := JumpedInto(buf, pos, t, f, v);
      FailureIs(buf, pos, t, g);
      p := StrayBefore(buf, pos, t, g);
      EndsInInput(buf, g.0, g.1, f.0);
    }
  }

  lemma EndsInInput(buf: seq<Byte>, p: nat, size: nat, q: nat)
    requires |buf| <= MAX_SIZE && p + 9 <= |buf| && size == SizeAt(buf, p) && p + size <= q < |buf|
    ensures !Overruns(buf, p) && size == DeclaredAt(buf, p)
  {
  }

  lemma EndingFailure(buf: seq<Byte>, pos: nat, t: Calls, q: nat)
    requires |buf| <= MAX_SIZE && IsRun(buf, pos, t) && WithinInput(buf, t) && NoOverlap(buf, pos)
    requires Valid(buf, q) && !NoFailureEndsBy(t, q)
    ensures StrayEndsBy(buf, pos, q)
  {
    var f :| f in Failures(t) && f.0 < q && f.0 + f.1 <= q;
    FailureIs(buf, pos, t, f);
    EndsInInput(buf, f.0, f.1, q);
    var p := StrayBefore(buf, pos, t, f);
  }

  // ---------------------------------------------------------------------
  // Exactly once, in order, without failures
  // ---------------------------------------------------------------------

  lemma NoFailureEndsByIff(buf: seq<Byte>, pos: nat, t: Calls, q: nat)
    requires |buf| <= MAX_SIZE && IsRun(buf, pos, t)
    requires Safe(buf, pos) && LengthsDefined(buf, pos) && NoOverlap(buf, pos) && Valid(buf, q)
    ensures NoFailureEndsBy(t, q) <==> !StrayEndsBy(buf, pos, q)
  {
    SafeRuns(buf, pos);
    if StrayEndsBy(buf, pos, q) { StrayFailureEnds(buf, pos, t, q); }
    if !NoFailureEndsBy(t, q) { EndingFailure(buf, pos, t, q); }
  }

  lemma StrayFailureEnds(buf: seq<Byte>, pos: nat, t: Calls, q: nat)
    requires IsRun(buf, pos, t) && Defined(t) && WithinInput(buf, t) && StrayEndsBy(buf, pos, q)
    ensures !NoFailureEndsBy(t, q)
  {
    var p: nat :| Stray(buf, pos, p) && p < q && !Overruns(buf, p) && p + DeclaredAt(buf, p) <= q;
    var size := StrayFails(buf, pos, t, p);
  }

  /**
   * On safe inputs without overlaps a valid packet is delivered exactly once, in every run, if no
   * stray header before it declares a length that ends by it; else every run delivers it again.
   */
  lemma DeliveredOnceIff(buf: seq<Byte>, pos: nat, t: Calls, q: nat)
    requires |buf| <= MAX_SIZE && IsRun(buf, pos, t)
    requires Safe(buf, pos) && LengthsDefined(buf, pos) && NoOverlap(buf, pos)
    requires pos <= q && Valid(buf, q)
    ensures Occurrences(Delivered(t), q) >= 1
    ensures Occurrences(Delivered(t), q) == 1 <==> !StrayEndsBy(buf, pos, q)
  {
    SafeRuns(buf, pos);
    forall p | p in Delivered(t) && p < q ensures !Overruns(buf, p) && p + DeclaredAt(buf, p) <= q {
      DeliveredIsSound(buf, pos, t, p);
    }
    AtLeastOnce(buf, pos, t, q);
    OccursIffIn(Delivered(t), q);
    ExactlyOnceIff(buf, pos, t, q);
    NoFailureEndsByIff(buf, pos, t, q);
  }

  /** On such inputs the deliveries ascend exactly if no stray header ends by a valid packet. */
  lemma InOrderIff(buf: seq<Byte>, pos: nat, t: Calls)
    requires |buf| <= MAX_SIZE && IsRun(buf, pos, t)
    requires Safe(buf, pos) && LengthsDefined(buf, pos) && NoOverlap(buf, pos)
    ensures Ascending(Delivered(t)) <==> forall q: nat :: pos <= q && Valid(buf, q) ==> !StrayEndsBy(buf, pos, q)
  {
    SafeRuns(buf, pos);
    if Ascending(Delivered(t)) {
      forall q: nat | pos <= q && Valid(buf, q) ensures !StrayEndsBy(buf, pos, q) {
        AscendingOnce(Delivered(t), q);
        DeliveredOnceIff(buf, pos, t, q);
      }
    }
    if forall q: nat :: pos <= q && Valid(buf, q) ==> !StrayEndsBy(buf, pos, q) {
      forall q | q in Delivered(t) ensures NoFailureEndsBy(t, q) {
        DeliveredIsSound(buf, pos, t, q);
        NoFailureEndsByIff(buf, pos, t, q);
      }
      InOrder(buf, pos, t);
    }
  }

  /** By the time a position is delivered, those before it that are ever delivered have been. */
  ghost predicate FirstsInOrder(s: seq<nat>) {
    forall j, p :: 0 <= j < |s| && p in s && p < s[j] ==> p in s[..j]
  }

  lemma FirstsAhead(start: nat, s: seq<nat>)
    requires FirstsInOrder(s) && forall p :: p in s ==> start < p
    ensures FirstsInOrder([start] + s)
  {
    var r := [start] + s;
    forall j, p | 0 <= j < |r| && p in r && p < r[j] ensures p in r[..j] {
      if j > 0 {
        assert r[j] == s[j - 1] && r[..j] == [start] + s[..j - 1];
        assert p == start || p in s[..j - 1];
      }
    }
  }

  lemma FirstsRepeated(a: seq<nat>, b: seq<nat>)
    requires FirstsInOrder(a) && forall p :: p in b ==> p in a
    ensures FirstsInOrder(a + b)
  {
    var r := a + b;
    forall j, p | 0 <= j < |r| && p in r && p < r[j] ensures p in r[..j] {
      assert p in a;
      if j < |a| {
        assert r[..j] == a[..j];
      } else {
        assert r[..j][..|a|] == a;
        var i :| 0 <= i < |a| && a[i] == p;
        assert r[..j][i] == p;
      }
    }
  }

  /** The second recursion after a failed check delivers only what the first one has delivered before. */
  lemma RestRepeats(buf: seq<Byte>, pos: nat, t: Calls, q: nat)
    requires IsRun(buf, pos, t) && t.Rejected? && Defined(t) && WithinInput(buf, t) && NoOverlap(buf, pos)
    requires q in Delivered(t.rest)
    ensures q in Delivered(t.retry)
  {
    RejectedCall(buf, pos, t);
    DeliveredIsSound(buf, t.start + SizeofPacket(t.window), t.rest, q);
    DeliveredIffValid(buf, t.start + 2, t.retry, q);
  }

  lemma {:induction false} FirstsOfRun(buf: seq<Byte>, pos: nat, t: Calls)
    requires t == Ended || IsRun(buf, pos, t)
    requires Defined(t) && WithinInput(buf, t) && NoOverlap(buf, pos)
    ensures FirstsInOrder(Delivered(t))
    decreases t
  {
    if t.Accepted? {
      AcceptedCall(buf, pos, t);
      var next := t.start + DeclaredAt(buf, t.start);
      FirstsOfRun(buf, next, t.rest);
      DeliveredFrom(buf, next, t.rest);
      FirstsAhead(t.start, Delivered(t.rest));
    } else if t.Rejected? {
      RejectedCall(buf, pos, t);
      FirstsOfRun(buf, t.start + 2, t.retry);
      forall q | q in Delivered(t.rest) ensures q in Delivered(t.retry) { RestRepeats(buf, pos, t, q); }
      FirstsRepeated(Delivered(t.retry), Delivered(t.rest));
    }
  }

  /**
   * On such inputs the first deliveries are in input order, whatever is delivered again: what is
   * found two bytes after a failed header comes before what is found after its length.
   */
  lemma FirstDeliveriesInOrder(buf: seq<Byte>, pos: nat, t: Calls)
    requires |buf| <= MAX_SIZE && IsRun(buf, pos, t)
    requires Safe(buf, pos) && LengthsDefined(buf, pos) && NoOverlap(buf, pos)
    ensures FirstsInOrder(Delivered(t))
  {
    SafeRuns(buf, pos);
    FirstsOfRun(buf, pos, t);
  }

  lemma {:induction false} AscendingOnce(s: seq<nat>, q: nat)
    requires Ascending(s)
    ensures Occurrences(s, q) <= 1
  {
    if s != [] {
      var tail := s[1..];
      assert s == [s[0]] + tail;
      OccursPrepended(s[0], tail, q);
      AscendingOnce(tail, q);
      forall i | 0 <= i < |tail| ensures s[0] < tail[i] { assert s[0] < s[i + 1]; }
      OccursIffIn(tail, q);
    }
  }

  /** On such inputs a run has no failed candidate exactly if there is no stray header. */
  lemma NoFailureIff(buf: seq<Byte>, pos: nat, t: Calls)
    requires |buf| <= MAX_SIZE && IsRun(buf, pos, t)
    requires Safe(buf, pos) && LengthsDefined(buf, pos) && NoOverlap(buf, pos)
    ensures Failures(t) == {} <==> forall p: nat :: !Stray(buf, pos, p)
  {
    SafeRuns(buf, pos);
    if Failures(t) == {} {
      forall p: nat ensures !Stray(buf, pos, p) {
        if Stray(buf, pos, p) { var size := StrayFails(buf, pos, t, p); }
      }
    } else {
      var f :| f in Failures(t);
      var p := StrayBefore(buf, pos, t, f);
    }
  }

  /** Then it makes at most one reply per two bytes. */
  lemma NoStrayReplyBound(buf: seq<Byte>, pos: nat, t: Calls)
    requires pos <= |buf| <= MAX_SIZE && IsRun(buf, pos, t)
    requires Safe(buf, pos) && LengthsDefined(buf, pos) && NoOverlap(buf, pos)
    requires forall p: nat :: !Stray(buf, pos, p)
    ensures Candidates(t) <= (|buf| - pos) / 2
  {
    NoFailureIff(buf, pos, t);
    CleanReplyBound(buf, pos, t);
  }

  // ---------------------------------------------------------------------
  // Damaged frames repeat what follows them
  // ---------------------------------------------------------------------

  /** A whole packet with no header inside. */
  ghost predicate FramedAt(buf: seq<Byte>, p: nat) {
    && HeaderAt(buf, p) && !Overruns(buf, p) && DeclaredAt(buf, p) >= MIN_SIZE
    && NoHeader(buf, p + 2, p + DeclaredAt(buf, p))
  }

  /** Such a packet that fails its check. */
  ghost predicate DamagedAt(buf: seq<Byte>, p: nat) {
    FramedAt(buf, p) && !CrcOk(buf[p..p + DeclaredAt(buf, p)])
  }

  /** k such packets, one after the other, up to the end of the input. */
  ghost predicate DamagedFrom(buf: seq<Byte>, pos: nat, k: nat)
    decreases k
  {
    if k == 0 then pos == |buf|
    else DamagedAt(buf, pos) && DamagedFrom(buf, pos + DeclaredAt(buf, pos), k - 1)
  }

  /** A call at a whole packet that fails its check. */
  lemma FailsAt(buf: seq<Byte>, pos: nat, t: Calls)
    requires IsRun(buf, pos, t) && HeaderAt(buf, pos) && !Overruns(buf, pos) && DeclaredAt(buf, pos) >= 2
    requires !CrcOk(buf[pos..pos + DeclaredAt(buf, pos)])
    ensures t.Rejected? && IsRun(buf, pos + 2, t.retry)
    ensures var next := pos + DeclaredAt(buf, pos);
            if next < |buf| then IsRun(buf, next, t.rest) else t.rest == Ended
  {
    StartsAt(buf, pos, pos, t);
    WindowShows(buf, pos, t.window);
  }

  lemma RunSkips(buf: seq<Byte>, pos: nat, next: nat, t: Calls)
    requires IsRun(buf, pos, t) && pos <= next && NoHeader(buf, pos, next)
    ensures IsRun(buf, next, t)
  {
  }

  /** Behind a damaged packet both recursions of the failing call begin. */
  lemma DamagedForks(buf: seq<Byte>, pos: nat, t: Calls)
    requires IsRun(buf, pos, t) && DamagedAt(buf, pos)
    ensures var next := pos + DeclaredAt(buf, pos);
            && t.Rejected? && IsRun(buf, next, t.retry)
            && (if next < |buf| then IsRun(buf, next, t.rest) else t.rest == Ended)
  {
    FailsAt(buf, pos, t);
    RunSkips(buf, pos + 2, pos + DeclaredAt(buf, pos), t.retry);
  }

  /** In every run on a damaged packet and an intact frame, the frame is delivered twice. */
  lemma {:induction false} DeliveredTwice(buf: seq<Byte>, pos: nat, t: Calls, m: Message)
    requires IsRun(buf, pos, t) && DamagedAt(buf, pos) && m.Fits()
    requires buf[pos + DeclaredAt(buf, pos)..] == Encode(m)
    ensures Delivered(t) == [pos + DeclaredAt(buf, pos), pos + DeclaredAt(buf, pos)]
  {
    DamagedForks(buf, pos, t);
    OneFrameLeft(buf, pos + DeclaredAt(buf, pos), m, t.retry);
    OneFrameLeft(buf, pos + DeclaredAt(buf, pos), m, t.rest);
  }

  lemma {:induction false} OneFrameLeft(buf: seq<Byte>, pos: nat, m: Message, t: Calls)
    requires pos <= |buf| && m.Fits() && buf[pos..] == Encode(m) && IsRun(buf, pos, t)
    ensures Delivered(t) == [pos]
  {
    Unpadded(Encode(m));
    AcceptsFirst(buf, pos, t, Chunk([], m), []);
    LastFrame(buf, pos, t, |Encode(m)|);
  }

  lemma Unpadded(frame: seq<Byte>)
    ensures [] + frame + [] == frame
  {
  }

  lemma LastFrame(buf: seq<Byte>, pos: nat, t: Calls, n: nat)
    requires pos <= |buf| && n == |buf[pos..]| && IsRun(buf, pos, t)
    requires t.Accepted? && t.start == pos && Declared(t.window) == n
    ensures Delivered(t) == [pos]
  {
    assert t.rest == Ended;
  }

  /** Every call fails, k deep, and makes both recursions. */
  predicate Doubling(t: Calls, k: nat)
    decreases k
  {
    if k == 0 then t == Ended || t == Nothing
    else t.Rejected? && Doubling(t.retry, k - 1) && Doubling(t.rest, k - 1)
  }

  lemma {:induction false} DoublingReplies(t: Calls, k: nat)
    requires Doubling(t, k)
    ensures Candidates(t) == Power2(k) - 1
    decreases k
  {
    if k > 0 {
      DoublingReplies(t.retry, k - 1);
      DoublingReplies(t.rest, k - 1);
    }
  }

  ghost predicate RunsDouble(buf: seq<Byte>, pos: nat, k: nat) {
    forall t: Calls :: IsRun(buf, pos, t) ==> Doubling(t, k)
  }

  lemma ForkDoubles(buf: seq<Byte>, pos: nat, t: Calls, k: nat)
    requires IsRun(buf, pos, t) && DamagedAt(buf, pos)
    requires var next := pos + DeclaredAt(buf, pos); RunsDouble(buf, next, k) && (k > 0 ==> next < |buf|)
    ensures Doubling(t, k + 1)
  {
    DamagedForks(buf, pos, t);
    var next := pos + DeclaredAt(buf, pos);
    assert Doubling(t.retry, k);
    assert Doubling(t.rest, k);
  }

  lemma ForksDouble(buf: seq<Byte>, pos: nat, k: nat)
    requires k > 0 && DamagedAt(buf, pos)
    requires var next := pos + DeclaredAt(buf, pos); RunsDouble(buf, next, k - 1) && (k > 1 ==> next < |buf|)
    ensures RunsDouble(buf, pos, k)
  {
    forall t: Calls | IsRun(buf, pos, t) ensures Doubling(t, k) { ForkDoubles(buf, pos, t, k - 1); }
  }

  lemma RunsEnd(buf: seq<Byte>)
    ensures RunsDouble(buf, |buf|, 0)
  {
    forall t: Calls | IsRun(buf, |buf|, t) ensures t == Nothing {}
  }

  lemma DamagedParts(buf: seq<Byte>, pos: nat, k: nat)
    requires k > 0 && DamagedFrom(buf, pos, k)
    ensures DamagedAt(buf, pos)
    ensures var next := pos + DeclaredAt(buf, pos); DamagedFrom(buf, next, k - 1) && (k > 1 ==> next < |buf|)
  {
  }

  lemma {:induction false} DamagedDouble(buf: seq<Byte>, pos: nat, k: nat)
    requires DamagedFrom(buf, pos, k)
    ensures RunsDouble(buf, pos, k)
    decreases k
  {
    if k == 0 {
      RunsEnd(buf);
    } else {
      DamagedParts(buf, pos, k);
      DamagedDouble(buf, pos + DeclaredAt(buf, pos), k - 1);
      ForksDouble(buf, pos, k);
    }
  }

  /** In every run on k damaged packets the replies double with each: 2^k - 1 in all. */
  lemma RepliesDouble(buf: seq<Byte>, pos: nat, t: Calls, k: nat)
    requires IsRun(buf, pos, t) && DamagedFrom(buf, pos, k)
    ensures Candidates(t) == Power2(k) - 1
  {
    DamagedDouble(buf, pos, k);
    DoublingReplies(t, k);
  }

  // ---------------------------------------------------------------------
  // Such inputs
  // ---------------------------------------------------------------------

  /** A packet of the smallest size that fails its check. */
  lemma SmallestDamaged() returns (f: seq<Byte>)
    ensures DamagedAt(f, 0) && |f| == DeclaredAt(f, 0) == MIN_SIZE
  {
    var body := [0xaa, 0x55, 0x01, 0x00, 0x00, 0x00, 0x00, 0x00, 0x0b];
    f := body + [0x00, 0x00];
    if CrcOk(f) { f := body + [0x00, 0x01]; }
    CrcOkIff(body, [0x00, 0x00]);
    CrcOkIff(body, [0x00, 0x01]);
    assert body + [0x00, 0x00] != body + [0x00, 0x01];
    assert f[0..MIN_SIZE] == f;
  }

  /** A damaged packet stays one at the head of an input that goes on with a header or ends. */
  lemma DamagedMoves(f: seq<Byte>, buf: seq<Byte>, pos: nat, after: seq<Byte>)
    requires DamagedAt(f, 0) && |f| == DeclaredAt(f, 0)
    requires pos <= |buf| && buf[pos..] == f + after && (after == [] || after[0] == 0xaa)
    ensures DamagedAt(buf, pos) && DeclaredAt(buf, pos) == |f| && buf[pos + |f|..] == after
  {
    FramedMoves(f, buf, pos, after);
    CheckMoves(f, buf, pos, after);
  }

  lemma FramedMoves(f: seq<Byte>, buf: seq<Byte>, pos: nat, after: seq<Byte>)
    requires FramedAt(f, 0) && |f| == DeclaredAt(f, 0)
    requires pos <= |buf| && buf[pos..] == f + after && (after == [] || after[0] == 0xaa)
    ensures FramedAt(buf, pos) && DeclaredAt(buf, pos) == |f| && buf[pos + |f|..] == after
  {
    AfterFrame(buf, pos, f, after);
    CheckMoves(f, buf, pos, after);
    HeaderMoves(f, buf, pos, after, 0);
    forall i | pos + 2 <= i < pos + |f| ensures !HeaderAt(buf, i) { HeaderMoves(f, buf, pos, after, i - pos); }
  }

  lemma CheckMoves(f: seq<Byte>, buf: seq<Byte>, pos: nat, after: seq<Byte>)
    requires |f| >= MIN_SIZE && |f| == DeclaredAt(f, 0) && pos <= |buf| && buf[pos..] == f + after
    ensures pos + |f| <= |buf| && DeclaredAt(buf, pos) == |f| && buf[pos..pos + |f|] == f == f[0..|f|]
  {
    assert buf[pos..pos + |f|] == buf[pos..][..|f|];
    assert buf[pos + 7] == buf[pos..][7] && buf[pos + 8] == buf[pos..][8];
  }

  lemma HeaderMoves(f: seq<Byte>, buf: seq<Byte>, pos: nat, after: seq<Byte>, i: nat)
    requires pos <= |buf| && buf[pos..] == f + after && (after == [] || after[0] == 0xaa) && i < |f|
    ensures HeaderAt(buf, pos + i) <==> HeaderAt(f, i)
  {
    ShiftedHeader(buf, pos, f + after, i);
    HeaderAhead(f, after, i);
  }

  lemma HeaderAhead(f: seq<Byte>, after: seq<Byte>, i: nat)
    requires i < |f| && (after == [] || after[0] == 0xaa)
    ensures HeaderAt(f + after, i) <==> HeaderAt(f, i)
  {
  }

  /** Some input of a damaged packet and any given frame is delivered twice in every run. */
  lemma {:induction false} RepeatedFrame(m: Message) returns (buf: seq<Byte>)
    requires m.Fits()
    ensures |buf| == MIN_SIZE + |Encode(m)| && buf[MIN_SIZE..] == Encode(m)
    ensures forall t: Calls :: IsRun(buf, 0, t) ==> Delivered(t) == [MIN_SIZE, MIN_SIZE]
  {
    var f := SmallestDamaged();
    FieldsOfEncode(m);
    buf := DamagedAndFrame(f, Encode(m));
    TwiceInEveryRun(buf, m);
  }

  lemma {:induction false} DamagedAndFrame(f: seq<Byte>, frame: seq<Byte>) returns (buf: seq<Byte>)
    requires DamagedAt(f, 0) && |f| == DeclaredAt(f, 0) == MIN_SIZE && frame != [] && frame[0] == 0xaa
    ensures |buf| == MIN_SIZE + |frame| && buf[MIN_SIZE..] == frame
    ensures DamagedAt(buf, 0) && DeclaredAt(buf, 0) == MIN_SIZE
  {
    buf := f + frame;
    assert buf[0..] == buf;
    DamagedMoves(f, buf, 0, frame);
  }

  lemma {:induction false} TwiceInEveryRun(buf: seq<Byte>, m: Message)
    requires m.Fits() && DamagedAt(buf, 0) && DeclaredAt(buf, 0) == MIN_SIZE && buf[MIN_SIZE..] == Encode(m)
    ensures forall t: Calls :: IsRun(buf, 0, t) ==> Delivered(t) == [MIN_SIZE, MIN_SIZE]
  {
    forall t: Calls | IsRun(buf, 0, t) ensures Delivered(t) == [MIN_SIZE, MIN_SIZE] { DeliveredTwice(buf, 0, t, m); }
  }

  function Copies(f: seq<Byte>, k: nat): seq<Byte> {
    if k == 0 then [] else f + Copies(f, k - 1)
  }

  lemma {:induction false} CopiesDamaged(f: seq<Byte>, buf: seq<Byte>, pos: nat, k: nat)
    requires DamagedAt(f, 0) && |f| == DeclaredAt(f, 0) && pos <= |buf| && buf[pos..] == Copies(f, k)
    ensures DamagedFrom(buf, pos, k)
    decreases k
  {
    if k > 0 {
      CopiesBegin(f, k - 1);
      DamagedMoves(f, buf, pos, Copies(f, k - 1));
      CopiesDamaged(f, buf, pos + |f|, k - 1);
    }
  }

  lemma CopiesBegin(f: seq<Byte>, k: nat)
    requires HeaderAt(f, 0)
    ensures Copies(f, k) == [] || Copies(f, k)[0] == 0xaa
  {
  }

  lemma {:induction false} CopiesLength(f: seq<Byte>, k: nat)
    ensures |Copies(f, k)| == |f| * k
  {
    if k > 0 { CopiesLength(f, k - 1); }
  }

  /** For one full read, 2^1489 - 1 replies in every run. */
  lemma FullReadReplies() returns (buf: seq<Byte>)
    ensures |buf| <= MAX_SIZE
    ensures forall t: Calls :: IsRun(buf, 0, t) ==> Candidates(t) == Power2(1489) - 1
  {
    var f := SmallestDamaged();
    buf := Copies(f, 1489);
    CopiesLength(f, 1489);
    assert buf[0..] == buf;
    CopiesDamaged(f, buf, 0, 1489);
    forall t: Calls | IsRun(buf, 0, t) ensures Candidates(t) == Power2(1489) - 1 { RepliesDouble(buf, 0, t, 1489); }
  }
}
