/** Logs too close to the top of the address space: for every such `last` there is
    a memory in which the 64-bit event walk never ends; for every other there is
    none. */
module EndlessLog {
  import opened Common
  import opened RawMemory
  import opened EventLog
  import opened EventLog64
  import EventCodec
  import HeaderResync

  /** An event can start at `last`, but not every event. */
  predicate Crowded(last: nat) {
    NULL < last && last + 16 <= ADDRESS_SPACE < last + MAX_EVENT_SPAN
  }

  // ---- An event at `last` that ends at address 1 ----

  /** The bytes between the fixed fields of an event at `last` and the top. */
  function Gap(last: nat): nat
    requires Crowded(last)
  {
    ADDRESS_SPACE - last - 16
  }

  /** A SHA512 digest in the log takes 66 bytes. */
  function DigestsToTop(last: nat): (count: nat)
    requires Crowded(last)
    ensures count < 0x1_0000_0000 && 66 * count <= Gap(last)
    ensures Gap(last) - 66 * count < 0xFFFF_FFFF
  {
    if Gap(last) / 66 > 0xFFFF_FFFF then 0xFFFF_FFFF else Gap(last) / 66
  }

  function LongDigest(): (d: EventCodec.Digest)
    ensures EventCodec.Fits(d) && |EventCodec.SerialiseDigest(d)| == 66
  {
    EventCodec.Digest(ALG_SHA512, seq(64, _ => 0))
  }

  function LongDigests(count: nat): (ds: seq<EventCodec.Digest>)
    ensures |ds| == count && EventCodec.AllFit(ds)
  {
    seq(count, _ => LongDigest())
  }

  lemma {:induction false} LongDigestsSize(count: nat)
    ensures |EventCodec.SerialiseDigests(LongDigests(count))| == 66 * count
  {
    hide LongDigest;
    if count > 0 {
      LongDigestsSize(count - 1);
      assert LongDigests(count)[1..] == LongDigests(count - 1);
    }
  }

  function Bridge(last: nat): (e: EventCodec.Event)
    requires Crowded(last)
    ensures EventCodec.Sized(e) && EventCodec.AllFit(e.digests)
  {
    var count := DigestsToTop(last);
    EventCodec.Event(0, 0, LongDigests(count), seq(Gap(last) - 66 * count + 1, _ => 0))
  }

  /** Where memory holds that event, its body lies below the top, and the step from
      it arrives at 1. */
  lemma BridgeStep(m: Memory, last: nat)
    requires Crowded(last) && Holds(m, last, EventCodec.SerialiseEvent(Bridge(last)))
    ensures NextEvent64(m, last) == 1
  {
    hide Holds, LongDigests, EventBody, NextEvent64, EventCodec.ReadDigests, EventCodec.SerialiseEvent, U32, BytesAt;
    var e := Bridge(last);
    EventCodec.EventRoundTrip(m, last, e);
    LongDigestsSize(DigestsToTop(last));
    assert |EventCodec.SerialiseEvent(e)| == 16 + 66 * DigestsToTop(last) + |e.data|;
    assert NextEvent(m, last) == ADDRESS_SPACE + 1;
    assert U32(m, EventBody(m, last)) == |EventCodec.ReadEvent(m, last).data|;
    StepWraps(m, last);
  }

  // ---- A way from 1 to `last` ----

  /** The distance between the events on the way. */
  const STRIDE: nat := 0x1_0000_0000

  /** The length of the event at 1, after which whole strides lead to `last`. */
  function FirstSpan(last: nat): (span: nat)
    requires last > 0
    ensures 16 <= span < STRIDE + 16 && (1 + span - last) % STRIDE == 0
  {
    var r := (last - 1) % STRIDE;
    if r >= 16 then r else r + STRIDE
  }

  function StrideByte(r: int): byte {
    if r == 12 then 0xF0 else if 13 <= r < 16 then 0xFF else 0
  }

  /** Memory below `last`. */
  function WayByte(last: nat, a: nat): byte
    requires last > 0
  {
    if a >= 17 then StrideByte((a - last) % STRIDE)
    else if a >= 13 then Le32(FirstSpan(last) - 16)[a - 13]
    else 0
  }

  /** An event at 1, events without digests every `STRIDE` bytes up to `last`, and
      the bridge there. */
  function Endless(last: nat): Memory
    requires Crowded(last)
  {
    var bridge := EventCodec.SerialiseEvent(Bridge(last));
    (a: nat) =>
      if a < last then WayByte(last, a) else if a < last + |bridge| then bridge[a - last] else 0
  }

  /** The addresses the walk comes by. */
  predicate OnTheWay(last: nat, a: nat) {
    a == 1 || a == last || (17 <= a < last && (a - last) % STRIDE == 0)
  }

  lemma WordAt(m: Memory, a: nat, v: u32)
    requires m(a) == Le32(v)[0] && m(a + 1) == Le32(v)[1] && m(a + 2) == Le32(v)[2] && m(a + 3) == Le32(v)[3]
    ensures U32(m, a) == v
  {
    hide Le32, U32;
    var b := BytesAt(m, a, 4);
    forall i | 0 <= i < 4 ensures b[i] == Le32(v)[i] {
      BytesAtIndex(m, a, 4, i);
    }
    assert b == Le32(v);
    HoldsLe32(m, a, v);
  }

  lemma StrideByteAt(last: nat, a: nat, i: nat)
    requires Crowded(last) && 17 <= a < last && (a - last) % STRIDE == 0 && i < 16
    ensures Endless(last)(a + i) == StrideByte(i)
  {
    hide EventCodec.SerialiseEvent, Bridge, FirstSpan, StrideByte, Le32;
    assert a + STRIDE <= last;
    assert (a + i - last) % STRIDE == i;
  }

  /** An event without digests, of a length that stays within the address space. */
  lemma PlainStep(m: Memory, a: nat, size: u32)
    requires U32(m, a + 8) == 0 && U32(m, a + 12) == size && a + 16 + size < ADDRESS_SPACE
    ensures NextEvent64(m, a) == a + 16 + size
  {
    hide U32, NextEvent64;
    HeaderResync.NoDigests(m, a);
    StepFits(m, a);
  }

  lemma StrideStep(last: nat, a: nat)
    requires Crowded(last) && 17 <= a < last && (a - last) % STRIDE == 0
    ensures NextEvent64(Endless(last), a) == a + STRIDE <= last
  {
    hide Endless, NextEvent64, U32;
    var m := Endless(last);
    StrideByteAt(last, a, 8); StrideByteAt(last, a, 9); StrideByteAt(last, a, 10); StrideByteAt(last, a, 11);
    StrideByteAt(last, a, 12); StrideByteAt(last, a, 13); StrideByteAt(last, a, 14); StrideByteAt(last, a, 15);
    WordAt(m, a + 8, 0);
    WordAt(m, a + 12, 0xFFFF_FFF0);
    PlainStep(m, a, 0xFFFF_FFF0);
  }

  lemma FirstStep(last: nat)
    requires Crowded(last)
    ensures NextEvent64(Endless(last), 1) == 1 + FirstSpan(last) <= last
  {
    hide NextEvent64, U32, FirstSpan, EventCodec.SerialiseEvent, Bridge;
    var m := Endless(last);
    WordAt(m, 9, 0);
    WordAt(m, 13, FirstSpan(last) - 16);
    PlainStep(m, 1, FirstSpan(last) - 16);
  }

  lemma LastStep(last: nat)
    requires Crowded(last)
    ensures NextEvent64(Endless(last), last) == 1
  {
    hide NextEvent64, EventCodec.SerialiseEvent, Bridge, FirstSpan;
    var m, bridge := Endless(last), EventCodec.SerialiseEvent(Bridge(last));
    forall i: nat | i < |bridge| ensures BytesAt(m, last, |bridge|)[i] == bridge[i] {
      BytesAtIndex(m, last, |bridge|, i);
    }
    assert Holds(m, last, bridge);
    BridgeStep(m, last);
  }

  /** From any address on the way the walk goes on, for any number of visits, with
      `at` or anything above it as its last event. */
  lemma {:induction false} WalkNeverEnds(at: nat, last: nat, event: nat, n: nat)
    requires Crowded(at) && at <= last && OnTheWay(at, event)
    ensures |Visits64(Endless(at), event, last, n)| == n
    decreases n
  {
    hide Endless, NextEvent64, FirstSpan;
    if n > 0 {
      var next := NextEvent64(Endless(at), event);
      if event == at {
        LastStep(at);
      } else if event == 1 {
        FirstStep(at);
      } else {
        StrideStep(at, event);
      }
      WalkNeverEnds(at, last, next, n - 1);
    }
  }

  // ---- What a caller can check ----

  /** For every memory and first event, the 64-bit walk is the unbounded one. */
  ghost predicate AlwaysAgrees(last: nat) {
    forall m: Memory, first: nat, n: nat ::
      NULL < first <= last && n > |EventsFrom(m, first, last)| ==>
        Visits64(m, first, last, n) == EventsFrom(m, first, last)
  }

  /** From some number of visits on, no further ones are made. */
  ghost predicate Ends(m: Memory, first: nat, last: nat) {
    exists n: nat :: |Visits64(m, first, last, n)| < n
  }

  /** For every memory and first event, the 64-bit walk ends. */
  ghost predicate AlwaysEnds(last: nat) {
    forall m: Memory, first: nat :: NULL < first <= last ==> Ends(m, first, last)
  }

  /** Both hold if and only if there is room for one largest event above `last`. */
  lemma RoomIsExact(last: nat)
    requires NULL < last < ADDRESS_SPACE
    ensures AlwaysAgrees(last) <==> last + MAX_EVENT_SPAN <= ADDRESS_SPACE
    ensures AlwaysEnds(last) <==> last + MAX_EVENT_SPAN <= ADDRESS_SPACE
  {
    hide Visits64, EventsFrom, Endless;
    if last + MAX_EVENT_SPAN <= ADDRESS_SPACE {
      forall m: Memory, first: nat, n: nat | NULL < first <= last && n > |EventsFrom(m, first, last)|
        ensures Visits64(m, first, last, n) == EventsFrom(m, first, last)
      {
        WalkWithRoomFits(m, first, last, n);
      }
    } else {
      var at := if last + 16 <= ADDRESS_SPACE then last else ADDRESS_SPACE - 16;
      forall n: nat ensures |Visits64(Endless(at), at, last, n)| == n {
        WalkNeverEnds(at, last, at, n);
      }
      assert !Ends(Endless(at), at, last);
    }
    if AlwaysAgrees(last) {
      forall m: Memory, first: nat | NULL < first <= last ensures Ends(m, first, last) {
        var n := |EventsFrom(m, first, last)| + 1;
        assert Visits64(m, first, last, n) == EventsFrom(m, first, last);
      }
    }
  }

  /** A short log: one event of 48 bytes, 32 bytes below the top, after which the
      64-bit walk makes a second visit at 16. */
  lemma SecondVisit()
    ensures var e := EventCodec.Event(0, 0, [], seq(32, _ => 0));
      var m := MemoryOf(EventCodec.SerialiseEvent(e), ADDRESS_SPACE - 32);
      && EventsFrom(m, ADDRESS_SPACE - 32, ADDRESS_SPACE - 32) == [ADDRESS_SPACE - 32]
      && Visits64(m, ADDRESS_SPACE - 32, ADDRESS_SPACE - 32, 2) == [ADDRESS_SPACE - 32, 16]
  {
    var e := EventCodec.Event(0, 0, [], seq(32, _ => 0));
    var b, a := EventCodec.SerialiseEvent(e), ADDRESS_SPACE - 32;
    var m := MemoryOf(b, a);
    hide *;
    MemoryOfHolds(b, a);
    OneEvent(m, a, e);
  }

  lemma OneEvent(m: Memory, a: nat, e: EventCodec.Event)
    requires e.digests == [] && |e.data| == 32 && a == ADDRESS_SPACE - 32
    requires Holds(m, a, EventCodec.SerialiseEvent(e))
    ensures EventsFrom(m, a, a) == [a] && Visits64(m, a, a, 2) == [a, 16]
  {
    hide Holds, U32, EventBody, NextEvent64, EventCodec.ReadDigests, EventCodec.SerialiseEvent, BytesAt, Visits64;
    EventCodec.EventRoundTrip(m, a, e);
    assert |EventCodec.SerialiseEvent(e)| == 48;
    EventsStep(m, a, a);
    EventsStop(m, NextEvent(m, a), a);
    assert U32(m, EventBody(m, a)) == |EventCodec.ReadEvent(m, a).data|;
    StepWraps(m, a);
    Visits64Step(m, a, a, 2);
    Visits64Step(m, 16, a, 1);
    NoVisits(m, NextEvent64(m, 16), a);
  }

  lemma NoVisits(m: Memory, event: nat, last: nat)
    ensures Visits64(m, event, last, 0) == []
  {
  }
}
