/** A crypto-agile log starts with one SHA1-format entry (TCG EFI Protocol
    Specification, section 5.3), which `foreach_event2` reads as if it were
    crypto-agile too. These lemmas show where the walk goes from there. */
module HeaderResync {
  import opened RawMemory
  import opened EventLog
  import EventCodec
  import Tpm12Log

  /** The digest field of the header entry is all zero. */
  predicate IsHeader(h: Tpm12Log.PcrEvent) {
    Tpm12Log.Wellformed(h) && h.digest == seq(Tpm12Log.DIGEST_SIZE, _ => 0)
  }

  /** What memory that holds a header says at its offsets. */
  lemma HeaderFields(m: Memory, a: nat, h: Tpm12Log.PcrEvent)
    requires IsHeader(h) && Holds(m, a, Tpm12Log.SerialisePcrEvent(h))
    ensures U32(m, a + 8) == 0 && U32(m, a + 12) == 0 && U32(m, a + 24) == 0
    ensures U32(m, a + 28) == |h.data|
  {
    hide Holds, U32;
    var zero, middle := Le32(0), h.digest[8..16];
    assert h.digest == zero + zero + middle + zero;
    Tpm12Log.HoldsPcrEventFields(m, a, h);
    HoldsConcat(m, a + 8, zero + zero + middle, zero);
    HoldsConcat(m, a + 8, zero + zero, middle);
    HoldsConcat(m, a + 8, zero, zero);
    HoldsLe32(m, a + 8, 0);
    HoldsLe32(m, a + 12, 0);
    HoldsLe32(m, a + 24, 0);
    HoldsLe32(m, a + 28, |h.data|);
  }

  /** An entry without digests is 16 bytes of fixed fields and its data. */
  lemma NoDigests(m: Memory, a: nat)
    requires DigestCount(m, a) == 0
    ensures EventBody(m, a) == a + 12
    ensures NextEvent(m, a) == a + 16 + U32(m, a + 12)
  {
  }

  /** The walk's first step from an address is the shortest one exactly when the
      words at 8 and 12, the first two of a SHA1-format digest, are zero. */
  lemma ShortestStep(m: Memory, a: nat)
    ensures NextEvent(m, a) == a + 16 <==> U32(m, a + 8) == 0 && U32(m, a + 12) == 0
  {
    if U32(m, a + 8) == 0 {
      NoDigests(m, a);
    }
  }

  /** The header is read as two pseudo-events without digests, at its start and
      16 bytes on, and the walk then lands exactly where the header ends. */
  lemma HeaderIsTwoPseudoEvents(m: Memory, a: nat, h: Tpm12Log.PcrEvent)
    requires IsHeader(h) && Holds(m, a, Tpm12Log.SerialisePcrEvent(h))
    ensures DigestCount(m, a) == 0 && NextEvent(m, a) == a + 16
    ensures DigestCount(m, a + 16) == 0 && NextEvent(m, a + 16) == a + 32 + |h.data|
  {
    HeaderFields(m, a, h);
    NoDigests(m, a);
    NoDigests(m, a + 16);
  }

  /** With entries after the header the walk makes two callbacks for the header
      and then exactly one per entry, at its address, reading it back. */
  lemma WalkResynchronises(m: Memory, base: nat, h: Tpm12Log.PcrEvent, es: seq<EventCodec.Event>)
    requires IsHeader(h) && EventCodec.AllSized(es) && EventCodec.AllKnown(es) && es != []
    requires Holds(m, base, Tpm12Log.SerialisePcrEvent(h) + EventCodec.Serialise(es))
    ensures var start := base + 32 + |h.data|;
      var last := EventCodec.LastOffset(es, start);
      && EventsFrom(m, base, last) == [base, base + 16] + EventCodec.Offsets(es, start)
      && |EventsFrom(m, base, last)| == |es| + 2
      && EventCodec.ReadLog(m, start, last) == es
  {
    hide Holds, NextEvent, DigestCount, EventCodec.Serialise, Tpm12Log.SerialisePcrEvent, EventCodec.ReadLog,
      EventCodec.Offsets, EventCodec.LastOffset, EventCodec.AllSized, EventCodec.AllKnown, EventsFrom;
    var start := base + 32 + |h.data|;
    var last := EventCodec.LastOffset(es, start);
    HoldsConcat(m, base, Tpm12Log.SerialisePcrEvent(h), EventCodec.Serialise(es));
    HeaderIsTwoPseudoEvents(m, base, h);
    EventCodec.WalkInvertsSerialise(m, start, es);
    EventCodec.OffsetsBounds(es, start);
    EventsStep(m, base + 16, last);
    EventsStep(m, base, last);
  }

  /** A log of the header alone makes one callback, not two: the second
      pseudo-event already lies beyond `last`. */
  lemma HeaderAlone(m: Memory, base: nat, h: Tpm12Log.PcrEvent)
    requires IsHeader(h) && Holds(m, base, Tpm12Log.SerialisePcrEvent(h))
    ensures EventsFrom(m, base, base) == [base]
  {
    HeaderIsTwoPseudoEvents(m, base, h);
    assert EventsFrom(m, base + 16, base) == [];
  }
}
