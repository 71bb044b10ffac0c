/** The event walk in the arithmetic of 64-bit pointers and sizes, which wraps
    around, and when that makes a difference. */
module EventLog64 {
  import opened Common
  import opened RawMemory
  import opened EventLog

  function NextDigest64(m: Memory, digest: nat): nat {
    Wrap(digest + DIGEST2_SIZE + AlgSize(U16(m, digest)))
  }

  /** What the accumulator callback adds up over `n` digests; the loop over them
      also ends at a null pointer. */
  function DigestsSize64(m: Memory, digest: nat, n: nat): nat
    decreases n
  {
    if n == 0 || digest == NULL then 0
    else Wrap(SizeofDigest2(m, digest) + DigestsSize64(m, NextDigest64(m, digest), n - 1))
  }

  function EventBody64(m: Memory, header: nat): nat {
    var first := Wrap(FirstDigest(header));
    Wrap(first + DigestsSize64(m, first, DigestCount(m, header)))
  }

  /** `get_next_event`. */
  function NextEvent64(m: Memory, header: nat): nat {
    var body := EventBody64(m, header);
    Wrap(Wrap(body + EVENT2_SIZE) + U32(m, body))
  }

  /** The first `n` events `foreach_event2` visits, or all if there are fewer. */
  function Visits64(m: Memory, event: nat, last: nat, n: nat): seq<nat>
    decreases n
  {
    if n == 0 || event > last || event == NULL then []
    else [event] + Visits64(m, NextEvent64(m, event), last, n - 1)
  }

  lemma WrapFits(a: int)
    ensures 0 <= a < ADDRESS_SPACE ==> Wrap(a) == a
    ensures ADDRESS_SPACE <= a < 2 * ADDRESS_SPACE ==> Wrap(a) == a - ADDRESS_SPACE
  {
  }

  lemma {:induction false} DigestsSizeFits(m: Memory, digest: nat, n: nat)
    requires digest != NULL && DigestAt(m, digest, n) < ADDRESS_SPACE
    ensures DigestsSize64(m, digest, n) == DigestAt(m, digest, n) - digest
    decreases n
  {
    hide U16, AlgSize, Wrap;
    if n > 0 {
      assert NextDigest(m, digest) <= DigestAt(m, digest, n);
      WrapFits(NextDigest(m, digest));
      DigestsSizeFits(m, NextDigest(m, digest), n - 1);
      WrapFits(DigestAt(m, digest, n) - digest);
    }
  }

  /** A digest that ends at the top of the address space is the last one counted,
      and the event body is then taken to be at the null pointer. */
  lemma NullEndsDigests(m: Memory, digest: nat, n: nat)
    requires NULL < digest < ADDRESS_SPACE && n > 0
    requires digest + DIGEST2_SIZE + AlgSize(U16(m, digest)) == ADDRESS_SPACE
    ensures NextDigest64(m, digest) == NULL
    ensures digest + DigestsSize64(m, digest, n) == ADDRESS_SPACE
  {
    hide U16, AlgSize;
    assert DigestsSize64(m, NULL, n - 1) == 0;
  }

  lemma BodyFits(m: Memory, header: nat)
    requires EventBody(m, header) < ADDRESS_SPACE
    ensures EventBody64(m, header) == EventBody(m, header)
  {
    hide DigestCount, DigestAt, DigestsSize64;
    assert FirstDigest(header) < ADDRESS_SPACE;
    DigestsSizeFits(m, FirstDigest(header), DigestCount(m, header));
  }

  /** A step of which at most the event data lies beyond the address space ends
      where the unbounded one does, wrapped around. */
  lemma StepWraps(m: Memory, header: nat)
    requires EventBody(m, header) + EVENT2_SIZE <= ADDRESS_SPACE
    ensures NextEvent64(m, header) == Wrap(NextEvent(m, header))
  {
    hide U32, DigestCount, DigestAt, DigestsSize64, EventBody64;
    BodyFits(m, header);
  }

  /** A step that ends below the top of the address space is the same in both
      arithmetics; one that ends at the top becomes a null pointer. */
  lemma StepFits(m: Memory, header: nat)
    requires NextEvent(m, header) <= ADDRESS_SPACE
    ensures NextEvent(m, header) < ADDRESS_SPACE ==> NextEvent64(m, header) == NextEvent(m, header) != NULL
    ensures NextEvent(m, header) == ADDRESS_SPACE ==> NextEvent64(m, header) == NULL
  {
    hide U32, DigestCount, DigestAt, DigestsSize64, EventBody64, NextEvent64;
    StepWraps(m, header);
  }

  lemma Visits64Step(m: Memory, event: nat, last: nat, n: nat)
    ensures n > 0 && event != NULL && event <= last ==>
      Visits64(m, event, last, n) == [event] + Visits64(m, NextEvent64(m, event), last, n - 1)
    ensures event > last ==> Visits64(m, event, last, n) == []
  {
    hide NextEvent64;
  }

  lemma Visits64Stop(m: Memory, last: nat, n: nat)
    ensures Visits64(m, NULL, last, n) == []
  {
  }

  // ---- When both walks agree ----

  /** Exactly when: the 64-bit walk makes the visits of the unbounded one, and no
      more, if and only if the step from the last of them ends it. */
  lemma {:induction false} WalkAgreesIffItStops(m: Memory, first: nat, last: nat, n: nat)
    requires NULL < first <= last < ADDRESS_SPACE && n > |EventsFrom(m, first, last)|
    ensures var es := EventsFrom(m, first, last);
      && es != []
      && var next := NextEvent64(m, es[|es| - 1]);
         Visits64(m, first, last, n) == es <==> next == NULL || next > last
    decreases n
  {
    hide EventsFrom, Visits64, NextEvent, NextEvent64;
    var next := NextEvent(m, first);
    EventsStep(m, first, last);
    Visits64Step(m, first, last, n);
    if next <= last {
      StepFits(m, first);
      WalkAgreesIffItStops(m, next, last, n - 1);
      ConsCancels(first, Visits64(m, next, last, n - 1), EventsFrom(m, next, last));
    } else {
      EventsStop(m, next, last);
      var next64 := NextEvent64(m, first);
      Visits64Step(m, next64, last, n - 1);
      Visits64Stop(m, last, n - 1);
      ConsCancels(first, Visits64(m, next64, last, n - 1), []);
    }
  }

  lemma ConsCancels(a: nat, x: seq<nat>, y: seq<nat>)
    ensures [a] + x == [a] + y <==> x == y
  {
    assert ([a] + x)[1..] == x && ([a] + y)[1..] == y;
  }

  /** In terms of the unbounded walk, when every event it visits has at least its
      fixed fields below the top: the walks agree if and only if no visited event
      ends beyond the address space. One may end exactly there. */
  lemma WalkAgreesIffItFits(m: Memory, first: nat, last: nat, n: nat)
    requires NULL < first <= last < ADDRESS_SPACE && n > |EventsFrom(m, first, last)|
    requires forall e :: e in EventsFrom(m, first, last) ==> EventBody(m, e) + EVENT2_SIZE <= ADDRESS_SPACE
    ensures Visits64(m, first, last, n) == EventsFrom(m, first, last)
       <==> forall e :: e in EventsFrom(m, first, last) ==> NextEvent(m, e) <= ADDRESS_SPACE
  {
    hide EventsFrom, Visits64, NextEvent, NextEvent64, EventBody;
    var es := EventsFrom(m, first, last);
    WalkAgreesIffItStops(m, first, last, n);
    OnlyFinalLeaves(m, first, last);
    FinalStep(m, es[|es| - 1], last);
  }

  lemma OnlyFinalLeaves(m: Memory, first: nat, last: nat)
    requires first <= last
    ensures var es := EventsFrom(m, first, last);
      && es != [] && es[|es| - 1] in es
      && es[|es| - 1] <= last < NextEvent(m, es[|es| - 1])
      && forall e :: e in es ==> e == es[|es| - 1] || NextEvent(m, e) <= last
  {
    hide EventsFrom, NextEvent;
    WalkStaysInRange(m, first, last);
    WalkIsContiguous(m, first, last);
    WalkIsExhaustive(m, first, last);
    var es := EventsFrom(m, first, last);
    forall e | e in es ensures e == es[|es| - 1] || NextEvent(m, e) <= last {
      var i :| 0 <= i < |es| && es[i] == e;
      if i < |es| - 1 {
        assert es[i + 1] == NextEvent(m, es[i]);
      }
    }
  }

  lemma FinalStep(m: Memory, final: nat, last: nat)
    requires final <= last < ADDRESS_SPACE && last < NextEvent(m, final)
    requires EventBody(m, final) + EVENT2_SIZE <= ADDRESS_SPACE
    ensures var next := NextEvent64(m, final);
      next == NULL || next > last <==> NextEvent(m, final) <= ADDRESS_SPACE
  {
    hide NextEvent, NextEvent64, EventBody, Wrap;
    StepWraps(m, final);
    SpanBounds(m, final);
    WrapFits(NextEvent(m, final));
  }

  /** So the walks agree whenever no visited event ends beyond the address space,
      after as many steps as there are events. */
  lemma {:induction false} WalkFits(m: Memory, first: nat, last: nat, n: nat)
    requires first != NULL && last < ADDRESS_SPACE && n >= |EventsFrom(m, first, last)|
    requires forall e :: e in EventsFrom(m, first, last) ==> NextEvent(m, e) <= ADDRESS_SPACE
    ensures Visits64(m, first, last, n) == EventsFrom(m, first, last)
    decreases n
  {
    hide EventsFrom, Visits64, NextEvent, NextEvent64;
    Visits64Step(m, first, last, n);
    if first <= last {
      EventsStep(m, first, last);
      StepFits(m, first);
      var next := NextEvent(m, first);
      if next < ADDRESS_SPACE {
        WalkFits(m, next, last, n - 1);
      } else {
        EventsStop(m, next, last);
        Visits64Stop(m, last, n - 1);
      }
    } else {
      EventsStop(m, first, last);
    }
  }

  /** In particular when `last` leaves room for one largest event. */
  lemma WalkWithRoomFits(m: Memory, first: nat, last: nat, n: nat)
    requires first != NULL && n >= |EventsFrom(m, first, last)|
    requires last + MAX_EVENT_SPAN <= ADDRESS_SPACE
    ensures Visits64(m, first, last, n) == EventsFrom(m, first, last)
  {
    hide EventsFrom, Visits64, NextEvent;
    WalkStaysInRange(m, first, last);
    var es := EventsFrom(m, first, last);
    forall e | e in es ensures NextEvent(m, e) <= ADDRESS_SPACE {
      var i :| 0 <= i < |es| && es[i] == e;
      SpanBounds(m, e);
    }
    WalkFits(m, first, last, n);
  }
}
