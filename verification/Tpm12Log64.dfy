/** The walk over the SHA1-format log in the arithmetic of 64-bit pointers, which
    wraps around, and exactly when that makes a difference. */
module Tpm12Log64 {
  import opened Common
  import opened RawMemory
  import opened Tpm12Log

  /** `tpm12_event_next`. */
  function NextPcrEvent64(m: Memory, current: nat, last: nat): nat {
    if current == last then
      NULL
    else
      var next := Wrap(current + PCR_EVENT_SIZE + EventSize(m, current) - 1);
      if next > last then NULL else next
  }

  /** The first `n` entries the do-while loop visits from `event` on, or all if
      there are fewer. */
  function Visits64(m: Memory, event: nat, last: nat, n: nat): seq<nat>
    decreases n
  {
    if n == 0 then []
    else
      var next := NextPcrEvent64(m, event, last);
      [event] + if next == NULL then [] else Visits64(m, next, last, n - 1)
  }

  lemma Visits64Step(m: Memory, event: nat, last: nat, n: nat)
    requires n > 0
    ensures var next := NextPcrEvent64(m, event, last);
      Visits64(m, event, last, n) == [event] + if next == NULL then [] else Visits64(m, next, last, n - 1)
    ensures n > 1 ==> Visits64(m, event, last, n - 1) != []
  {
  }

  /** Where the unbounded step goes on, the 64-bit one goes the same way. */
  lemma StepAgrees(m: Memory, current: nat, last: nat)
    requires last < ADDRESS_SPACE && NextPcrEvent(m, current, last) != NULL
    ensures NextPcrEvent64(m, current, last) == NextPcrEvent(m, current, last)
  {
    hide EventSize;
  }

  /** Exactly when, for any two addresses: the 64-bit walk makes the visits of the
      unbounded one, and no more, if and only if it ends after the last of them. */
  lemma {:induction false} WalkAgreesIffItStops(m: Memory, first: nat, last: nat, n: nat)
    requires last < ADDRESS_SPACE && n > |VisitsFrom(m, first, last)|
    ensures var vs := VisitsFrom(m, first, last);
      && vs != []
      && (Visits64(m, first, last, n) == vs <==> NextPcrEvent64(m, vs[|vs| - 1], last) == NULL)
    decreases n
  {
    hide VisitsFrom, Visits64, NextPcrEvent, NextPcrEvent64;
    var next := NextPcrEvent(m, first, last);
    VisitsStep(m, first, last);
    Visits64Step(m, first, last, n);
    if next != NULL {
      StepAgrees(m, first, last);
      WalkAgreesIffItStops(m, next, last, n - 1);
      ConcatCancels([first], Visits64(m, next, last, n - 1), [first], VisitsFrom(m, next, last));
    } else {
      var next64 := NextPcrEvent64(m, first, last);
      Visits64Step(m, next64, last, n - 1);
      ConcatCancels([first], Visits64(m, next64, last, n - 1), [first], []);
    }
  }

  /** In terms of the unbounded walk: if and only if no visited entry but `last`
      ends beyond the address space. One may end exactly there. */
  lemma WalkAgreesIffItFits(m: Memory, first: nat, last: nat, n: nat)
    requires NULL < first <= last < ADDRESS_SPACE && n > |VisitsFrom(m, first, last)|
    ensures Visits64(m, first, last, n) == VisitsFrom(m, first, last)
       <==> forall v :: v in VisitsFrom(m, first, last) ==> v == last || v + 32 + EventSize(m, v) <= ADDRESS_SPACE
  {
    hide VisitsFrom, Visits64, EventSize;
    var vs := VisitsFrom(m, first, last);
    WalkAgreesIffItStops(m, first, last, n);
    VisitsStayInRange(m, first, last);
    VisitsAreContiguous(m, first, last);
    StopsAtLastOrOverruns(m, first, last);
    var final := vs[|vs| - 1];
    assert final in vs;
    forall v | v in vs ensures v == final || v + 32 + EventSize(m, v) <= last {
      var i :| 0 <= i < |vs| && vs[i] == v;
      if i < |vs| - 1 {
        assert vs[i + 1] == v + 32 + EventSize(m, v);
      }
    }
    FinalStep(m, final, last);
  }

  lemma FinalStep(m: Memory, final: nat, last: nat)
    requires final <= last < ADDRESS_SPACE
    requires final != last ==> last < final + 32 + EventSize(m, final)
    ensures NextPcrEvent64(m, final, last) == NULL
       <==> final == last || final + 32 + EventSize(m, final) <= ADDRESS_SPACE
  {
    hide EventSize;
    var end := final + 32 + EventSize(m, final);
    if end > ADDRESS_SPACE {
      assert Wrap(end) == end - ADDRESS_SPACE;
    }
  }

  // ---- What a caller can check ----

  /** For every memory and first entry, the 64-bit walk is the unbounded one. */
  ghost predicate AlwaysAgrees(last: nat) {
    forall m: Memory, first: nat, n: nat ::
      NULL < first <= last && n > |VisitsFrom(m, first, last)| ==>
        Visits64(m, first, last, n) == VisitsFrom(m, first, last)
  }

  /** The entry just below `last`, or as high as one fits, that ends at 1. */
  function WrapsFrom(last: nat): (first: nat)
    requires 1 < last < ADDRESS_SPACE
    ensures 0 < first < last
  {
    if last - 1 <= ADDRESS_SPACE - 32 then last - 1 else ADDRESS_SPACE - 32
  }

  function WrappingEntry(last: nat): (e: PcrEvent)
    requires 1 < last < ADDRESS_SPACE < last + 31 + 0xFFFF_FFFF
    ensures Wellformed(e) && WrapsFrom(last) + 32 + |e.data| == ADDRESS_SPACE + 1
  {
    PcrEvent(0, 0, seq(DIGEST_SIZE, _ => 0), seq(ADDRESS_SPACE - 31 - WrapsFrom(last), _ => 0))
  }

  /** If and only if there is room for one largest entry from just below `last`. */
  lemma RoomIsExact(last: nat)
    requires NULL < last < ADDRESS_SPACE
    ensures AlwaysAgrees(last) <==> last + 31 + 0xFFFF_FFFF <= ADDRESS_SPACE
  {
    hide Visits64, VisitsFrom, EventSize, WrapsFrom, WrappingEntry;
    if last + 31 + 0xFFFF_FFFF <= ADDRESS_SPACE {
      forall m: Memory, first: nat, n: nat | NULL < first <= last && n > |VisitsFrom(m, first, last)|
        ensures Visits64(m, first, last, n) == VisitsFrom(m, first, last)
      {
        VisitsStayInRange(m, first, last);
        WalkAgreesIffItFits(m, first, last, n);
      }
    } else {
      var first, b := WrapsFrom(last), SerialisePcrEvent(WrappingEntry(last));
      var m := MemoryOf(b, first);
      MemoryOfHolds(b, first);
      ReturnsToOne(m, last);
      assert Visits64(m, first, last, 2) != VisitsFrom(m, first, last);
    }
  }

  /** Where memory holds that entry, the 64-bit walk makes a second visit, at 1. */
  lemma ReturnsToOne(m: Memory, last: nat)
    requires 1 < last < ADDRESS_SPACE < last + 31 + 0xFFFF_FFFF
    requires Holds(m, WrapsFrom(last), SerialisePcrEvent(WrappingEntry(last)))
    ensures VisitsFrom(m, WrapsFrom(last), last) == [WrapsFrom(last)]
    ensures Visits64(m, WrapsFrom(last), last, 2) == [WrapsFrom(last), 1]
  {
    hide Holds, EventSize, SerialisePcrEvent, WrappingEntry, VisitsFrom, Visits64, ReadPcrEvent;
    var first := WrapsFrom(last);
    PcrEventRoundTrip(m, first, WrappingEntry(last));
    assert first + 32 + EventSize(m, first) == ADDRESS_SPACE + 1;
    VisitsStep(m, first, last);
    Visits64Step(m, first, last, 2);
    Visits64Step(m, 1, last, 1);
    NoVisits(m, NextPcrEvent64(m, 1, last), last);
  }

  lemma NoVisits(m: Memory, event: nat, last: nat)
    ensures Visits64(m, event, last, 0) == []
  {
  }
}
