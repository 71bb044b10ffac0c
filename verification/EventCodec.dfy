/** The layout of crypto-agile log entries as a serialiser and a reader
    (`src/tcg2-protocol.h`; TCG EFI Protocol Specification, sections 5.2 and
    6.5), and the proof that the walk of `EventLog` inverts it in both
    directions. */
module EventCodec {
  import opened Common
  import opened RawMemory
  import opened EventLog

  datatype Digest = Digest(alg: u16, value: seq<byte>)
  datatype Event = Event(pcr: u32, eventType: u32, digests: seq<Digest>, data: seq<byte>)

  /** The digest has the size this program expects of its algorithm. */
  predicate Fits(d: Digest) {
    |d.value| == AlgSize(d.alg)
  }

  predicate AllFit(ds: seq<Digest>) {
    forall i :: 0 <= i < |ds| ==> Fits(ds[i])
  }

  /** The counts fit their 32-bit fields, so that the event can be written. */
  predicate Sized(e: Event) {
    |e.digests| < 0x1_0000_0000 && |e.data| < 0x1_0000_0000
  }

  predicate AllSized(es: seq<Event>) {
    forall i :: 0 <= i < |es| ==> Sized(es[i])
  }

  /** Every digest of the log has the size this program expects. */
  predicate AllKnown(es: seq<Event>) {
    forall i :: 0 <= i < |es| ==> AllFit(es[i].digests)
  }

  // ---- Serialiser ----

  function SerialiseDigest(d: Digest): (b: seq<byte>)
    ensures |b| == DIGEST2_SIZE + |d.value|
  {
    Le16(d.alg) + d.value
  }

  function SerialiseDigests(ds: seq<Digest>): seq<byte> {
    if ds == [] then [] else SerialiseDigest(ds[0]) + SerialiseDigests(ds[1..])
  }

  function SerialiseEvent(e: Event): (b: seq<byte>)
    requires Sized(e)
    ensures |b| == EVENT_HEADER2_SIZE + |SerialiseDigests(e.digests)| + EVENT2_SIZE + |e.data|
  {
    Le32(e.pcr) + Le32(e.eventType) + Le32(|e.digests|)
    + SerialiseDigests(e.digests) + Le32(|e.data|) + e.data
  }

  function Serialise(es: seq<Event>): seq<byte>
    requires AllSized(es)
  {
    if es == [] then [] else SerialiseEvent(es[0]) + Serialise(es[1..])
  }

  /** The address of every entry of a log that starts at `base`. */
  function Offsets(es: seq<Event>, base: nat): (os: seq<nat>)
    requires AllSized(es)
    ensures |os| == |es|
  {
    if es == [] then [] else [base] + Offsets(es[1..], base + |SerialiseEvent(es[0])|)
  }

  /** What GetEventLog reports as the last entry. */
  function LastOffset(es: seq<Event>, base: nat): nat
    requires AllSized(es) && es != []
  {
    Offsets(es, base)[|es| - 1]
  }

  // ---- Reader: what the program finds at an address ----

  function ReadDigest(m: Memory, a: nat): Digest {
    Digest(U16(m, a), BytesAt(m, a + DIGEST2_SIZE, AlgSize(U16(m, a))))
  }

  function ReadDigests(m: Memory, a: nat, n: nat): (ds: seq<Digest>)
    ensures |ds| == n
    decreases n
  {
    if n == 0 then [] else [ReadDigest(m, a)] + ReadDigests(m, NextDigest(m, a), n - 1)
  }

  function ReadEvent(m: Memory, a: nat): Event {
    var body := EventBody(m, a);
    Event(U32(m, a), U32(m, a + EVENT_TYPE_OFFSET),
          ReadDigests(m, FirstDigest(a), DigestCount(m, a)),
          BytesAt(m, body + EVENT2_SIZE, U32(m, body)))
  }

  /** The events at the visited addresses. */
  function ReadLog(m: Memory, first: nat, last: nat): (es: seq<Event>)
    decreases last + 1 - first
  {
    if first > last then [] else [ReadEvent(m, first)] + ReadLog(m, NextEvent(m, first), last)
  }

  lemma {:induction false} ReadLogReadsEachVisit(m: Memory, first: nat, last: nat)
    ensures var visits := EventsFrom(m, first, last);
      && |ReadLog(m, first, last)| == |visits|
      && forall i :: 0 <= i < |visits| ==> ReadLog(m, first, last)[i] == ReadEvent(m, visits[i])
    decreases last + 1 - first
  {
    hide ReadEvent, NextEvent;
    if first <= last {
      ReadLogReadsEachVisit(m, NextEvent(m, first), last);
    }
  }

  // ---- Digests ----

  lemma HoldsDigest(m: Memory, a: nat, d: Digest)
    requires Fits(d)
    ensures Holds(m, a, SerialiseDigest(d)) <==> ReadDigest(m, a) == d
    ensures ReadDigest(m, a) == d ==> NextDigest(m, a) == a + |SerialiseDigest(d)|
  {
    HoldsConcat(m, a, Le16(d.alg), d.value);
    HoldsLe16(m, a, d.alg);
  }

  lemma NoDigestsRoundTrip(m: Memory, a: nat)
    ensures Holds(m, a, SerialiseDigests([])) && ReadDigests(m, a, 0) == [] && SerialiseDigests([]) == []
    ensures DigestAt(m, a, 0) == a
  {
  }

  /** How everything about a digest list unfolds at its first digest. */
  lemma DigestsStep(m: Memory, a: nat, ds: seq<Digest>)
    requires ds != []
    ensures AllFit(ds) <==> Fits(ds[0]) && AllFit(ds[1..])
    ensures SerialiseDigests(ds) == SerialiseDigest(ds[0]) + SerialiseDigests(ds[1..])
    ensures DigestAt(m, a, |ds|) == DigestAt(m, NextDigest(m, a), |ds| - 1)
    ensures ReadDigests(m, a, |ds|) == ds
       <==> ReadDigest(m, a) == ds[0] && ReadDigests(m, NextDigest(m, a), |ds| - 1) == ds[1..]
  {
    hide Fits, ReadDigest, NextDigest, SerialiseDigest;
    assert ds == [ds[0]] + ds[1..];
  }

  /** For digests of known size, memory holds their serialisation exactly when
      the digest walk reads them back; it then ends just past the last one. */
  lemma {:induction false} DigestsRoundTrip(m: Memory, a: nat, ds: seq<Digest>)
    requires AllFit(ds)
    ensures Holds(m, a, SerialiseDigests(ds)) <==> ReadDigests(m, a, |ds|) == ds
    ensures ReadDigests(m, a, |ds|) == ds ==> DigestAt(m, a, |ds|) == a + |SerialiseDigests(ds)|
    decreases |ds|
  {
    hide *;
    if ds == [] {
      NoDigestsRoundTrip(m, a);
    } else {
      DigestsStep(m, a, ds);
      HoldsConcat(m, a, SerialiseDigest(ds[0]), SerialiseDigests(ds[1..]));
      HoldsDigest(m, a, ds[0]);
      DigestsRoundTrip(m, a + |SerialiseDigest(ds[0])|, ds[1..]);
    }
  }

  lemma {:induction false} ReadDigestsFit(m: Memory, a: nat, n: nat)
    ensures AllFit(ReadDigests(m, a, n))
    decreases n
  {
    if n > 0 {
      ReadDigestsFit(m, NextDigest(m, a), n - 1);
    }
  }

  // ---- Events ----

  /** Memory holds the serialisation of an event with digests of known size
      exactly when the program reads that event there; the next event then starts
      just past it. */
  lemma EventRoundTrip(m: Memory, a: nat, e: Event)
    requires Sized(e) && AllFit(e.digests)
    ensures Holds(m, a, SerialiseEvent(e)) <==> ReadEvent(m, a) == e
    ensures ReadEvent(m, a) == e ==> NextEvent(m, a) == a + |SerialiseEvent(e)|
  {
    var ds := SerialiseDigests(e.digests);
    hide BytesAt, U32, Le32, SerialiseDigests, SerialiseEvent, ReadDigests, DigestAt;
    HoldsEventFields(m, a, e);
    HoldsLe32(m, a, e.pcr);
    HoldsLe32(m, a + 4, e.eventType);
    HoldsLe32(m, a + 8, |e.digests|);
    DigestsRoundTrip(m, a + 12, e.digests);
    HoldsLe32(m, a + 12 + |ds|, |e.data|);
  }

  lemma HoldsEventFields(m: Memory, a: nat, e: Event)
    requires Sized(e)
    ensures var n := |SerialiseDigests(e.digests)|;
      Holds(m, a, SerialiseEvent(e)) <==>
      && Holds(m, a, Le32(e.pcr))
      && Holds(m, a + 4, Le32(e.eventType))
      && Holds(m, a + 8, Le32(|e.digests|))
      && Holds(m, a + 12, SerialiseDigests(e.digests))
      && Holds(m, a + 12 + n, Le32(|e.data|))
      && Holds(m, a + 16 + n, e.data)
  {
    hide Holds, Le32, SerialiseDigests;
    var s1 := Le32(e.pcr);
    var s2 := s1 + Le32(e.eventType);
    var s3 := s2 + Le32(|e.digests|);
    var s4 := s3 + SerialiseDigests(e.digests);
    var s5 := s4 + Le32(|e.data|);
    HoldsConcat(m, a, s5, e.data);
    HoldsConcat(m, a, s4, Le32(|e.data|));
    HoldsConcat(m, a, s3, SerialiseDigests(e.digests));
    HoldsConcat(m, a, s2, Le32(|e.digests|));
    HoldsConcat(m, a, s1, Le32(e.eventType));
  }

  lemma ReadEventWellformed(m: Memory, a: nat)
    ensures Sized(ReadEvent(m, a)) && AllFit(ReadEvent(m, a).digests)
  {
    ReadDigestsFit(m, FirstDigest(a), DigestCount(m, a));
  }

  // ---- Logs ----

  lemma AllKnownCons(e: Event, rest: seq<Event>)
    ensures AllKnown([e] + rest) <==> AllFit(e.digests) && AllKnown(rest)
  {
    hide AllFit;
    var es := [e] + rest;
    assert es[0] == e && forall i :: 0 <= i < |rest| ==> es[i + 1] == rest[i];
    if AllKnown(es) {
      forall i | 0 <= i < |rest| ensures AllFit(rest[i].digests) {
        assert AllFit(es[i + 1].digests);
      }
    }
  }

  lemma AllSizedCons(e: Event, rest: seq<Event>)
    ensures AllSized([e] + rest) <==> Sized(e) && AllSized(rest)
  {
    hide Sized;
    var es := [e] + rest;
    assert es[0] == e && forall i :: 0 <= i < |rest| ==> es[i + 1] == rest[i];
    if AllSized(es) {
      forall i | 0 <= i < |rest| ensures Sized(rest[i]) {
        assert Sized(es[i + 1]);
      }
    }
  }

  lemma LogCons(e: Event, rest: seq<Event>, base: nat)
    requires Sized(e) && AllSized(rest)
    ensures var es := [e] + rest;
      && AllSized(es)
      && Serialise(es) == SerialiseEvent(e) + Serialise(rest)
      && Offsets(es, base) == [base] + Offsets(rest, base + |SerialiseEvent(e)|)
    ensures rest == [] ==> Serialise(rest) == []
  {
    hide SerialiseEvent, Sized, AllSized;
    AllSizedCons(e, rest);
    var es := [e] + rest;
    assert es[0] == e && es[1..] == rest;
  }

  lemma LastOffsetCons(e: Event, rest: seq<Event>, base: nat)
    requires Sized(e) && AllSized(rest)
    ensures var es := [e] + rest;
      && AllSized(es)
      && LastOffset(es, base) == if rest == [] then base else LastOffset(rest, base + |SerialiseEvent(e)|)
  {
    hide SerialiseEvent, Sized, AllSized, Serialise, Offsets;
    LogCons(e, rest, base);
  }

  lemma {:induction false} OffsetsBounds(es: seq<Event>, base: nat)
    requires AllSized(es) && es != []
    ensures base <= LastOffset(es, base)
    ensures |es| == 1 ==> LastOffset(es, base) == base
    ensures |es| > 1 ==>
      && AllSized(es[1..])
      && LastOffset(es, base) == LastOffset(es[1..], base + |SerialiseEvent(es[0])|)
      && base < base + |SerialiseEvent(es[0])| <= LastOffset(es, base)
  {
    if |es| > 1 {
      OffsetsBounds(es[1..], base + |SerialiseEvent(es[0])|);
    }
  }

  /** What memory that holds a log says about its first entry. */
  lemma HeadEntry(m: Memory, base: nat, es: seq<Event>)
    requires AllSized(es) && AllKnown(es) && es != []
    requires Holds(m, base, Serialise(es))
    ensures ReadEvent(m, base) == es[0]
    ensures NextEvent(m, base) == base + |SerialiseEvent(es[0])|
    ensures AllSized(es[1..]) && AllKnown(es[1..]) && Holds(m, NextEvent(m, base), Serialise(es[1..]))
  {
    hide *;
    AllSizedCons(es[0], es[1..]);
    AllKnownCons(es[0], es[1..]);
    assert es == [es[0]] + es[1..];
    LogCons(es[0], es[1..], base);
    HoldsConcat(m, base, SerialiseEvent(es[0]), Serialise(es[1..]));
    EventRoundTrip(m, base, es[0]);
  }

  /** How the log's addresses unfold at its first entry. */
  lemma OffsetsStep(es: seq<Event>, base: nat)
    requires AllSized(es) && es != []
    ensures Sized(es[0]) && AllSized(es[1..])
    ensures Offsets(es, base) == [base] + Offsets(es[1..], base + |SerialiseEvent(es[0])|)
  {
    hide SerialiseEvent;
  }

  lemma NoOffsets(base: nat)
    ensures AllSized([]) && Offsets([], base) == []
  {
  }

  lemma {:induction false} WalkVisitsOffsets(m: Memory, base: nat, es: seq<Event>)
    requires AllSized(es) && AllKnown(es) && es != []
    requires Holds(m, base, Serialise(es))
    ensures EventsFrom(m, base, LastOffset(es, base)) == Offsets(es, base)
    decreases |es|
  {
    hide *;
    HeadEntry(m, base, es);
    OffsetsBounds(es, base);
    OffsetsStep(es, base);
    var next, last := NextEvent(m, base), LastOffset(es, base);
    EventsStep(m, base, last);
    if |es| == 1 {
      EventsStop(m, next, last);
      assert es[1..] == [];
      NoOffsets(next);
    } else {
      WalkVisitsOffsets(m, next, es[1..]);
    }
  }

  /** Walk inverts serialisation: wherever memory holds a non-empty log and
      `last` is its final entry, the walk visits exactly the entries' addresses,
      in order, and reads the entries back. */
  lemma {:induction false} WalkInvertsSerialise(m: Memory, base: nat, es: seq<Event>)
    requires AllSized(es) && AllKnown(es) && es != []
    requires Holds(m, base, Serialise(es))
    ensures EventsFrom(m, base, LastOffset(es, base)) == Offsets(es, base)
    ensures ReadLog(m, base, LastOffset(es, base)) == es
    decreases |es|
  {
    hide *;
    WalkVisitsOffsets(m, base, es);
    HeadEntry(m, base, es);
    OffsetsBounds(es, base);
    var next, last := NextEvent(m, base), LastOffset(es, base);
    ReadLogStep(m, base, last);
    if |es| > 1 {
      WalkInvertsSerialise(m, next, es[1..]);
    }
    assert es == [es[0]] + es[1..];
  }

  lemma ReadLogStep(m: Memory, first: nat, last: nat)
    requires first <= last
    ensures ReadLog(m, first, last) == [ReadEvent(m, first)] + ReadLog(m, NextEvent(m, first), last)
    ensures NextEvent(m, first) > last ==> ReadLog(m, NextEvent(m, first), last) == []
  {
    hide ReadEvent, NextEvent;
  }

  /** So equal bytes with an equal last entry are the same log. */
  lemma SerialiseInjective(es: seq<Event>, fs: seq<Event>)
    requires AllSized(es) && AllSized(fs) && es != [] && fs != []
    requires AllKnown(es) && AllKnown(fs)
    requires Serialise(es) == Serialise(fs) && LastOffset(es, 0) == LastOffset(fs, 0)
    ensures es == fs
  {
    var m := MemoryOf(Serialise(es), 0);
    MemoryOfHolds(Serialise(es), 0);
    WalkInvertsSerialise(m, 0, es);
    WalkInvertsSerialise(m, 0, fs);
  }

  /** Conversely, whatever memory holds, the events read are well-formed and
      their serialisation is the memory walked over: no byte between `first` and
      the end of the last event is skipped, read twice, or left out. */
  lemma {:induction false} SerialiseInvertsWalk(m: Memory, first: nat, last: nat)
    ensures var es := ReadLog(m, first, last);
      && AllSized(es) && AllKnown(es)
      && Holds(m, first, Serialise(es))
      && Offsets(es, first) == EventsFrom(m, first, last)
      && (es != [] ==> first + |Serialise(es)| == NextEvent(m, LastOffset(es, first)))
    decreases last + 1 - first
  {
    hide *;
    if first <= last {
      var e, next := ReadEvent(m, first), NextEvent(m, first);
      var rest := ReadLog(m, next, last);
      ReadEventWellformed(m, first);
      EventRoundTrip(m, first, e);
      SerialiseInvertsWalk(m, next, last);
      ReadLogStep(m, first, last);
      EventsStep(m, first, last);
      LogCons(e, rest, first);
      AllKnownCons(e, rest);
      LastOffsetCons(e, rest, first);
      HoldsConcat(m, first, SerialiseEvent(e), Serialise(rest));
    } else {
      EmptyLog(m, first, last);
    }
  }

  lemma EmptyLog(m: Memory, first: nat, last: nat)
    requires first > last
    ensures ReadLog(m, first, last) == [] && EventsFrom(m, first, last) == []
    ensures AllSized([]) && AllKnown([]) && Holds(m, first, Serialise([])) && Offsets([], first) == []
  {
  }

  // ---- Unknown algorithms ----

  /** A log in memory is read back if and only if each of its digests has the size
      this program knows for its algorithm. */
  lemma ReadBackIffKnownSizes(m: Memory, base: nat, es: seq<Event>)
    requires AllSized(es) && es != []
    requires Holds(m, base, Serialise(es))
    ensures ReadLog(m, base, LastOffset(es, base)) == es <==> AllKnown(es)
  {
    hide *;
    if AllKnown(es) {
      WalkInvertsSerialise(m, base, es);
    }
    SerialiseInvertsWalk(m, base, LastOffset(es, base));
  }

  /** The digest length, in bits, that the TCG Algorithm Registry gives a hash
      algorithm; 0 for one not listed here. The last three are the SHA3 family. */
  function RegistryBits(alg: u16): nat {
    if alg == ALG_SHA1 then 160
    else if alg == ALG_SHA256 || alg == ALG_SM3_256 || alg == ALG_SHA3_256 then 256
    else if alg == ALG_SHA384 || alg == ALG_SHA3_384 then 384
    else if alg == ALG_SHA512 || alg == ALG_SHA3_512 then 512
    else 0
  }

  predicate IsSha3(alg: u16) {
    alg == ALG_SHA3_256 || alg == ALG_SHA3_384 || alg == ALG_SHA3_512
  }

  /** Digests as the registry sizes them. */
  predicate Standard(d: Digest) {
    RegistryBits(d.alg) > 0 && 8 * |d.value| == RegistryBits(d.alg)
  }

  /** Of logs whose digests have their standard lengths, exactly those without a
      SHA3 digest are read back. */
  lemma StandardLogReadBack(m: Memory, base: nat, es: seq<Event>)
    requires AllSized(es) && es != []
    requires forall i, k :: 0 <= i < |es| && 0 <= k < |es[i].digests| ==> Standard(es[i].digests[k])
    requires Holds(m, base, Serialise(es))
    ensures ReadLog(m, base, LastOffset(es, base)) == es
       <==> forall i, k :: 0 <= i < |es| && 0 <= k < |es[i].digests| ==> !IsSha3(es[i].digests[k].alg)
  {
    hide Holds, Serialise, ReadLog, LastOffset, AllSized, Standard, IsSha3, Fits;
    ReadBackIffKnownSizes(m, base, es);
    forall d: Digest | Standard(d) ensures Fits(d) <==> !IsSha3(d.alg) {
      StandardFits(d);
    }
  }

  lemma StandardFits(d: Digest)
    requires Standard(d)
    ensures Fits(d) <==> !IsSha3(d.alg)
  {
  }

  /** The address of digest `k` in the serialised digests. */
  function DigestOffset(ds: seq<Digest>, a: nat, k: nat): nat
    requires k <= |ds|
    decreases k
  {
    if k == 0 then a else DigestOffset(ds[1..], a + |SerialiseDigest(ds[0])|, k - 1)
  }

  /** The stepped pointer is at every serialised digest and at their end. */
  predicate Aligned(m: Memory, a: nat, ds: seq<Digest>) {
    forall k: nat | k <= |ds| :: DigestAt(m, a, k) == DigestOffset(ds, a, k)
  }

  lemma AlignedStep(m: Memory, a: nat, ds: seq<Digest>)
    requires ds != []
    ensures var next := a + |SerialiseDigest(ds[0])|;
      Aligned(m, a, ds) <==> NextDigest(m, a) == next && Aligned(m, next, ds[1..])
  {
    hide NextDigest, SerialiseDigest;
    var next := a + |SerialiseDigest(ds[0])|;
    if Aligned(m, a, ds) {
      assert DigestAt(m, a, 1) == DigestAt(m, NextDigest(m, a), 0) == NextDigest(m, a);
      assert DigestOffset(ds, a, 1) == DigestOffset(ds[1..], next, 0) == next;
      forall k: nat | k <= |ds[1..]| ensures DigestAt(m, next, k) == DigestOffset(ds[1..], next, k) {
        assert DigestAt(m, a, k + 1) == DigestOffset(ds, a, k + 1);
      }
    }
    if NextDigest(m, a) == next && Aligned(m, next, ds[1..]) {
      forall k: nat | k <= |ds| ensures DigestAt(m, a, k) == DigestOffset(ds, a, k) {
        assert k > 0 ==> DigestAt(m, next, k - 1) == DigestOffset(ds[1..], next, k - 1);
      }
    }
  }

  lemma NextDigestFits(m: Memory, a: nat, d: Digest)
    requires Holds(m, a, SerialiseDigest(d))
    ensures NextDigest(m, a) == a + |SerialiseDigest(d)| <==> Fits(d)
  {
    HoldsConcat(m, a, Le16(d.alg), d.value);
    HoldsLe16(m, a, d.alg);
  }

  lemma NoDigestsAligned(m: Memory, a: nat)
    ensures Aligned(m, a, []) && AllFit([])
  {
  }

  /** The digest walk is aligned exactly when every digest has the size this
      program knows for its algorithm: one algorithm it does not know, with a
      non-empty digest, breaks alignment. */
  lemma {:induction false} AlignedIffKnownSizes(m: Memory, a: nat, ds: seq<Digest>)
    requires Holds(m, a, SerialiseDigests(ds))
    ensures Aligned(m, a, ds) <==> AllFit(ds)
    decreases |ds|
  {
    hide *;
    if ds == [] {
      NoDigestsAligned(m, a);
    } else {
      var d, next := ds[0], a + |SerialiseDigest(ds[0])|;
      DigestsStep(m, a, ds);
      HoldsConcat(m, a, SerialiseDigest(d), SerialiseDigests(ds[1..]));
      NextDigestFits(m, a, d);
      AlignedStep(m, a, ds);
      AlignedIffKnownSizes(m, next, ds[1..]);
    }
  }

  /** A one-byte digest of SHA3-256, and the addresses where the walk is off: it
      takes the digest's byte for the start of what follows. */
  lemma UnknownAlgorithmMisaligns()
    ensures var ds := [Digest(ALG_SHA3_256, [1])];
      var m := MemoryOf(SerialiseDigests(ds), 100);
      Holds(m, 100, SerialiseDigests(ds)) && DigestAt(m, 100, 1) == 102 && DigestOffset(ds, 100, 1) == 103
  {
    var ds := [Digest(ALG_SHA3_256, [1])];
    var m := MemoryOf(SerialiseDigests(ds), 100);
    MemoryOfHolds(SerialiseDigests(ds), 100);
    HoldsConcat(m, 100, SerialiseDigest(ds[0]), SerialiseDigests(ds[1..]));
    HoldsConcat(m, 100, Le16(ALG_SHA3_256), [1]);
    HoldsLe16(m, 100, ALG_SHA3_256);
    assert DigestAt(m, 100, 1) == DigestAt(m, NextDigest(m, 100), 0);
    assert DigestOffset(ds, 100, 1) == DigestOffset(ds[1..], 103, 0);
  }

  /** A log of one event with that digest, which is not read back. */
  lemma UnknownAlgorithmMisread()
    ensures var es := [Event(0, 0, [Digest(ALG_SHA3_256, [1])], [])];
      && AllSized(es)
      && Holds(MemoryOf(Serialise(es), 100), 100, Serialise(es))
      && ReadLog(MemoryOf(Serialise(es), 100), 100, LastOffset(es, 100)) != es
  {
    var d := Digest(ALG_SHA3_256, [1]);
    var es := [Event(0, 0, [d], [])];
    assert AllSized(es) && !AllKnown(es) by {
      assert es[0].digests[0] == d && !Fits(d);
    }
    hide *;
    MemoryOfHolds(Serialise(es), 100);
    ReadBackIffKnownSizes(MemoryOf(Serialise(es), 100), 100, es);
  }
}
