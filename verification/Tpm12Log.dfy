/** The SHA1-format event log of the TPM 1.2 era (`example/tcg2-get-eventlog.c`;
    TCG EFI Protocol Specification, section 5.1). */
module Tpm12Log {
  import opened Common
  import opened RawMemory

  const DIGEST_SIZE: nat := 20
  const EVENT_SIZE_OFFSET := 28
  /** TCG_PCR_EVENT ends in a one-byte array, so its size counts one data byte. */
  const PCR_EVENT_SIZE := 33

  // ---- The walk ----

  function EventSize(m: Memory, event: nat): u32 {
    U32(m, event + EVENT_SIZE_OFFSET)
  }

  /** `tpm12_event_next`: null at the last entry and on overrunning it. */
  function NextPcrEvent(m: Memory, current: nat, last: nat): nat {
    if current == last then
      NULL
    else
      var next := current + PCR_EVENT_SIZE + EventSize(m, current) - 1;
      if next > last then NULL else next
  }

  /** The entries visited from `event` on; the first one always is. */
  function VisitsFrom(m: Memory, event: nat, last: nat): seq<nat>
    decreases last - event
  {
    var next := NextPcrEvent(m, event, last);
    [event] + if next == NULL then [] else VisitsFrom(m, next, last)
  }

  lemma VisitsStep(m: Memory, event: nat, last: nat)
    ensures var next := NextPcrEvent(m, event, last);
      && VisitsFrom(m, event, last) == [event] + (if next == NULL then [] else VisitsFrom(m, next, last))
      && (next != NULL ==> event < next <= last)
  {
  }

  /** `prettyprint_tpm12_eventlog`: the addresses of the entries it prints. */
  method PrettyprintEventlog(m: Memory, first: nat, last: nat) returns (printed: seq<nat>)
    ensures printed == if first == NULL then [] else VisitsFrom(m, first, last)
  {
    hide NextPcrEvent, VisitsFrom;
    printed := [];
    var event := first;
    while event != NULL
      invariant if event == NULL
                then printed == if first == NULL then [] else VisitsFrom(m, first, last)
                else first != NULL && VisitsFrom(m, first, last) == printed + VisitsFrom(m, event, last)
      decreases if event == NULL then 0 else 1, last - event
    {
      VisitsStep(m, event, last);
      printed := printed + [event];
      event := NextPcrEvent(m, event, last);
    }
  }

  // ---- Whatever memory holds ----

  lemma {:induction false} VisitsStayInRange(m: Memory, first: nat, last: nat)
    requires first <= last
    ensures var vs := VisitsFrom(m, first, last);
      && vs != [] && vs[0] == first
      && forall i :: 0 <= i < |vs| ==> first <= vs[i] <= last
    decreases last - first
  {
    var next := NextPcrEvent(m, first, last);
    if next != NULL {
      VisitsStayInRange(m, next, last);
    }
  }

  /** Visited entries are at least 32 bytes apart, none lies beyond `last`, and
      the loop ends within (last - first)/32 + 1 visits. */
  lemma {:induction false} VisitsAreBounded(m: Memory, first: nat, last: nat)
    requires first <= last
    ensures var vs := VisitsFrom(m, first, last);
      && |vs| <= (last - first) / 32 + 1
      && forall i, j :: 0 <= i < j < |vs| ==> vs[i] + 32 <= vs[j]
    decreases last - first
  {
    var next := NextPcrEvent(m, first, last);
    if next != NULL {
      VisitsStayInRange(m, next, last);
      VisitsAreBounded(m, next, last);
    }
  }

  /** Every visit but the first is where the entry before it ends. */
  lemma {:induction false} VisitsAreContiguous(m: Memory, first: nat, last: nat)
    requires first <= last
    ensures var vs := VisitsFrom(m, first, last);
      forall i, j :: 0 <= i < j < |vs| && j == i + 1 ==> vs[j] == vs[i] + 32 + EventSize(m, vs[i])
    decreases last - first
  {
    hide EventSize;
    var next := NextPcrEvent(m, first, last);
    if next != NULL {
      VisitsStayInRange(m, next, last);
      VisitsAreContiguous(m, next, last);
      var vs, rest := VisitsFrom(m, first, last), VisitsFrom(m, next, last);
      forall i, j | 0 <= i < j < |vs| && j == i + 1 ensures vs[j] == vs[i] + 32 + EventSize(m, vs[i]) {
        assert vs[j] == rest[i];
        assert i > 0 ==> vs[i] == rest[i - 1];
      }
    }
  }

  /** A log whose last entry precedes its first shows one entry. */
  lemma LastBeforeFirst(m: Memory, first: nat, last: nat)
    requires last < first
    ensures VisitsFrom(m, first, last) == [first]
  {
  }

  /** The loop stops at `last`, or else because the entry it stops at ends
      beyond `last`: the overrun it reports as an error. */
  lemma {:induction false} StopsAtLastOrOverruns(m: Memory, first: nat, last: nat)
    requires first <= last
    ensures var vs := VisitsFrom(m, first, last);
      var final := vs[|vs| - 1];
      && (last in vs <==> final == last)
      && (final != last <==> final < last < final + 32 + EventSize(m, final))
    decreases last - first
  {
    var next := NextPcrEvent(m, first, last);
    VisitsStayInRange(m, first, last);
    VisitsAreBounded(m, first, last);
    if next != NULL {
      StopsAtLastOrOverruns(m, next, last);
    }
  }

  // ---- Layout ----

  datatype PcrEvent = PcrEvent(pcr: u32, eventType: u32, digest: seq<byte>, data: seq<byte>)

  predicate Wellformed(e: PcrEvent) {
    |e.digest| == DIGEST_SIZE && |e.data| < 0x1_0000_0000
  }

  predicate AllWellformed(es: seq<PcrEvent>) {
    forall i :: 0 <= i < |es| ==> Wellformed(es[i])
  }

  function SerialisePcrEvent(e: PcrEvent): (b: seq<byte>)
    requires Wellformed(e)
    ensures |b| == 32 + |e.data|
  {
    Le32(e.pcr) + Le32(e.eventType) + e.digest + Le32(|e.data|) + e.data
  }

  function Serialise(es: seq<PcrEvent>): seq<byte>
    requires AllWellformed(es)
  {
    if es == [] then [] else SerialisePcrEvent(es[0]) + Serialise(es[1..])
  }

  function Offsets(es: seq<PcrEvent>, base: nat): (os: seq<nat>)
    ensures |os| == |es|
    ensures es != [] ==> os[0] == base
    ensures forall i :: 0 <= i < |os| ==> base <= os[i]
  {
    if es == [] then [] else [base] + Offsets(es[1..], base + 32 + |es[0].data|)
  }

  /** What `prettyprint_tpm12_event` shows of the entry at an address. */
  function ReadPcrEvent(m: Memory, a: nat): PcrEvent {
    PcrEvent(U32(m, a), U32(m, a + 4), BytesAt(m, a + 8, DIGEST_SIZE),
             BytesAt(m, a + 32, EventSize(m, a)))
  }

  lemma HoldsPcrEventFields(m: Memory, a: nat, e: PcrEvent)
    requires Wellformed(e)
    ensures Holds(m, a, SerialisePcrEvent(e)) <==>
      && Holds(m, a, Le32(e.pcr))
      && Holds(m, a + 4, Le32(e.eventType))
      && Holds(m, a + 8, e.digest)
      && Holds(m, a + 28, Le32(|e.data|))
      && Holds(m, a + 32, e.data)
  {
    hide Holds, Le32;
    var s1 := Le32(e.pcr);
    var s2 := s1 + Le32(e.eventType);
    var s3 := s2 + e.digest;
    var s4 := s3 + Le32(|e.data|);
    HoldsConcat(m, a, s4, e.data);
    HoldsConcat(m, a, s3, Le32(|e.data|));
    HoldsConcat(m, a, s2, e.digest);
    HoldsConcat(m, a, s1, Le32(e.eventType));
  }

  /** Memory holds a well-formed entry exactly when the program reads it there. */
  lemma PcrEventRoundTrip(m: Memory, a: nat, e: PcrEvent)
    requires Wellformed(e)
    ensures Holds(m, a, SerialisePcrEvent(e)) <==> ReadPcrEvent(m, a) == e
    ensures ReadPcrEvent(m, a) == e ==> EventSize(m, a) == |e.data|
  {
    hide BytesAt, U32, Le32, SerialisePcrEvent;
    HoldsPcrEventFields(m, a, e);
    HoldsLe32(m, a, e.pcr);
    HoldsLe32(m, a + 4, e.eventType);
    HoldsLe32(m, a + 28, |e.data|);
  }

  /** What memory that holds a log says about its first entry. */
  lemma HeadEntry(m: Memory, base: nat, es: seq<PcrEvent>)
    requires AllWellformed(es) && es != []
    requires Holds(m, base, Serialise(es))
    ensures ReadPcrEvent(m, base) == es[0]
    ensures EventSize(m, base) == |es[0].data|
    ensures Holds(m, base + 32 + |es[0].data|, Serialise(es[1..]))
  {
    hide Holds, SerialisePcrEvent, ReadPcrEvent, EventSize;
    HoldsConcat(m, base, SerialisePcrEvent(es[0]), Serialise(es[1..]));
    PcrEventRoundTrip(m, base, es[0]);
  }

  /** For every non-empty serialised log with `last` at its final entry, the
      loop visits exactly the entries' addresses, once each and in order, and
      stops at `last`. */
  lemma {:induction false} WalkVisitsOffsets(m: Memory, base: nat, es: seq<PcrEvent>)
    requires AllWellformed(es) && es != []
    requires Holds(m, base, Serialise(es))
    ensures VisitsFrom(m, base, Offsets(es, base)[|es| - 1]) == Offsets(es, base)
    decreases |es|
  {
    hide Holds, Serialise, EventSize, VisitsFrom;
    var last := Offsets(es, base)[|es| - 1];
    HeadEntry(m, base, es);
    VisitsStep(m, base, last);
    if |es| > 1 {
      var next := base + 32 + |es[0].data|;
      WalkVisitsOffsets(m, next, es[1..]);
      assert last == Offsets(es[1..], next)[|es| - 2];
    }
  }

  /** And it shows the entries that were written. */
  lemma {:induction false} WalkReadsEntries(m: Memory, base: nat, es: seq<PcrEvent>, k: nat)
    requires AllWellformed(es) && k < |es|
    requires Holds(m, base, Serialise(es))
    ensures ReadPcrEvent(m, Offsets(es, base)[k]) == es[k]
    decreases |es|
  {
    hide Holds, Serialise, EventSize, ReadPcrEvent;
    HeadEntry(m, base, es);
    if k > 0 {
      WalkReadsEntries(m, base + 32 + |es[0].data|, es[1..], k - 1);
    }
  }

  /** So equal bytes with an equal last entry are the same log. */
  lemma SerialiseInjective(es: seq<PcrEvent>, fs: seq<PcrEvent>)
    requires AllWellformed(es) && AllWellformed(fs) && es != [] && fs != []
    requires Serialise(es) == Serialise(fs)
    requires Offsets(es, 0)[|es| - 1] == Offsets(fs, 0)[|fs| - 1]
    ensures es == fs
  {
    hide Serialise, Offsets, VisitsFrom, ReadPcrEvent, Holds;
    var m := MemoryOf(Serialise(es), 0);
    MemoryOfHolds(Serialise(es), 0);
    WalkVisitsOffsets(m, 0, es);
    WalkVisitsOffsets(m, 0, fs);
    forall k: nat | k < |es| ensures es[k] == fs[k] {
      WalkReadsEntries(m, 0, es, k);
      WalkReadsEntries(m, 0, fs, k);
    }
  }
}
