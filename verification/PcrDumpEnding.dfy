/** The loop of reads over any TPM, conforming or not: exactly when it ends. */
module PcrDumpEnding {
  import opened Common
  import opened Callbacks
  import opened PcrBits
  import opened PcrSelection
  import opened PcrDump
  import opened PairLists
  import opened PcrRead
  import opened PcrDumpRun
  import opened ReferenceTpm

  // ---- A round over any reply ----

  /** A reply that can be unmarshalled; any other fails the read. */
  predicate Unmarshals(reply: Reply) {
    reply.Success? && IsWireList(reply.selection) && |reply.digests| <= MAX_DIGESTS
  }

  /** A read after which the loop goes on. */
  predicate GoesOn(reply: Reply) {
    Unmarshals(reply) && reply.digests != []
  }

  /** The pairs such a reply makes the loop show. */
  function Shown(reply: Reply): seq<Pair>
    requires GoesOn(reply)
  {
    var ps := Pairs(Received(reply.selection));
    ps[..Min(|ps|, |reply.digests|)]
  }

  /** None of them was still asked for. */
  predicate Fruitless(request: seq<Selection>, reply: Reply)
    requires IsSelectionList(request) && GoesOn(reply)
  {
    forall p :: p in Shown(reply) ==> p !in Pairs(request)
  }

  /** What a round (`PcrDumpLoop.ShowReply`) leaves of the request. */
  lemma RoundStrikesShown(s: DumpState, reply: Reply)
    requires GoesOn(reply) && s.digestI == 0
    ensures Feed(Pairs(Received(reply.selection)), DigestCallback, s.(digests := reply.digests)).data.request
         == StrikeAll(s.request, Shown(reply))
  {
    hide Feed, DigestCallback, Pairs, StrikeAll, Received;
    RoundShows(Pairs(Received(reply.selection)), s.(digests := reply.digests), 0);
  }

  // ---- Runs ----

  /** How many of the first `n` reads the loop makes. */
  function ReadsMade(tpm: Tpm, read: nat, request: seq<Selection>, n: nat): (made: nat)
    requires IsSelectionList(request)
    ensures made <= n
    decreases n
  {
    if n == 0 then 0
    else
      var reply := Ask(tpm, read, request);
      if GoesOn(reply) then 1 + ReadsMade(tpm, read + 1, StrikeAll(request, Shown(reply)), n - 1) else 1
  }

  /** How many of those are fruitless. */
  function FruitlessReads(tpm: Tpm, read: nat, request: seq<Selection>, n: nat): nat
    requires IsSelectionList(request)
    decreases n
  {
    if n == 0 then 0
    else
      var reply := Ask(tpm, read, request);
      if GoesOn(reply) then
        (if Fruitless(request, reply) then 1 else 0)
        + FruitlessReads(tpm, read + 1, StrikeAll(request, Shown(reply)), n - 1)
      else 0
  }

  ghost predicate Ends(tpm: Tpm, read: nat, request: seq<Selection>)
    requires IsSelectionList(request)
  {
    exists n: nat :: ReadsMade(tpm, read, request, n) < n
  }

  ghost predicate Bounded(tpm: Tpm, read: nat, request: seq<Selection>, bound: nat)
    requires IsSelectionList(request)
  {
    forall n: nat :: FruitlessReads(tpm, read, request, n) <= bound
  }

  lemma {:induction false} KeepDrops(ps: seq<Pair>, s: set<Pair>, p: Pair)
    requires p in ps && p !in s
    ensures |Keep(ps, s)| < |ps|
  {
    if ps[0] in s {
      KeepDrops(ps[1..], s, p);
    }
  }

  /** A fruitless round leaves the request as it is; any other one shrinks it. */
  lemma RoundShrinks(request: seq<Selection>, reply: Reply)
    requires IsSelectionList(request) && GoesOn(reply)
    ensures |Pairs(StrikeAll(request, Shown(reply)))| <= |Pairs(request)|
    ensures !Fruitless(request, reply) ==> |Pairs(StrikeAll(request, Shown(reply)))| < |Pairs(request)|
    ensures Fruitless(request, reply) ==> StrikeAll(request, Shown(reply)) == request
  {
    hide Pairs, StrikeAll, Shown, Keep;
    var ps, ds := Pairs(request), Shown(reply);
    PairsStrikeAll(request, ds);
    if Fruitless(request, reply) {
      StrikeAllAbsent(request, ds);
    } else {
      var p :| p in ds && p in ps;
      KeepDrops(ps, SetOf(ps) - SetOf(ds), p);
    }
  }

  lemma {:induction false} StrikeAllAbsent(request: seq<Selection>, ds: seq<Pair>)
    requires IsSelectionList(request) && forall p :: p in ds ==> p !in Pairs(request)
    ensures StrikeAll(request, ds) == request
    decreases |ds|
  {
    hide Pairs, Strike;
    if ds != [] {
      StrikeAbsent(request, ds[0]);
      StrikeAllAbsent(request, ds[1..]);
    }
  }

  lemma StrikeAbsent(request: seq<Selection>, p: Pair)
    requires IsSelectionList(request) && p !in Pairs(request)
    ensures Strike(request, p) == request
  {
    hide Pairs, StrikeEntry, IsSelected;
    PairsContains(request, p);
    forall i | 0 <= i < |request| ensures StrikeEntry(request[i], p) == request[i] {
      DeselectAbsent(request[i], p);
    }
  }

  lemma DeselectAbsent(s: Selection, p: Pair)
    requires |s.bits| == PCR_SELECT_BYTES
    requires s.hash == p.alg && p.pcr < MAX_PCRS ==> !IsSelected(s.bits, p.pcr)
    ensures StrikeEntry(s, p) == s
  {
    hide Members, IsSelected, WithDeselected;
    if s.hash == p.alg && p.pcr < MAX_PCRS {
      DeselectRemoves(s.bits, p.pcr);
      MembersAre(s.bits, p.pcr);
      MembersDetermineBits(s.bits, WithDeselected(s.bits, p.pcr));
    }
  }

  lemma MembersAre(bits: seq<bv8>, pcr: nat)
    requires pcr < 8 * |bits|
    ensures pcr in Members(bits) <==> IsSelected(bits, pcr)
  {
    hide IsSelected;
  }

  /** Every read but the last is fruitless or strikes off a PCR still asked for. */
  lemma {:induction false} ReadsAreFruitful(tpm: Tpm, read: nat, request: seq<Selection>, n: nat)
    requires IsSelectionList(request)
    ensures FruitlessReads(tpm, read, request, n) <= ReadsMade(tpm, read, request, n)
    ensures ReadsMade(tpm, read, request, n) <= |Pairs(request)| + FruitlessReads(tpm, read, request, n) + 1
    decreases n
  {
    hide Pairs, StrikeAll, Shown, Fruitless, GoesOn, Ask;
    var reply := Ask(tpm, read, request);
    if n > 0 && GoesOn(reply) {
      RoundShrinks(request, reply);
      ReadsAreFruitful(tpm, read + 1, StrikeAll(request, Shown(reply)), n - 1);
    }
  }

  lemma {:induction false} ReadsOnceEnded(tpm: Tpm, read: nat, request: seq<Selection>, k: nat, n: nat)
    requires IsSelectionList(request) && ReadsMade(tpm, read, request, k) < k
    ensures ReadsMade(tpm, read, request, n) <= k
    decreases n
  {
    hide Pairs, StrikeAll, Shown, GoesOn, Ask;
    var reply := Ask(tpm, read, request);
    if n > 0 && GoesOn(reply) {
      ReadsOnceEnded(tpm, read + 1, StrikeAll(request, Shown(reply)), k - 1, n - 1);
    }
  }

  /** Exactly when, for every TPM: the loop ends if and only if it does not go on
      and on with fruitless reads. */
  lemma EndsIffFewFruitless(tpm: Tpm, read: nat, request: seq<Selection>)
    requires IsSelectionList(request)
    ensures Ends(tpm, read, request) <==> exists bound: nat :: Bounded(tpm, read, request, bound)
  {
    hide ReadsMade, FruitlessReads, Pairs;
    if Ends(tpm, read, request) {
      var k: nat :| ReadsMade(tpm, read, request, k) < k;
      forall n: nat ensures FruitlessReads(tpm, read, request, n) <= k {
        ReadsAreFruitful(tpm, read, request, n);
        ReadsOnceEnded(tpm, read, request, k, n);
      }
      assert Bounded(tpm, read, request, k);
    }
    if bound: nat :| Bounded(tpm, read, request, bound) {
      var n := |Pairs(request)| + bound + 2;
      ReadsAreFruitful(tpm, read, request, n);
      assert ReadsMade(tpm, read, request, n) < n;
    }
  }

  // ---- TPMs that answer equal requests equally ----

  ghost predicate Memoryless(tpm: Tpm) {
    forall i: nat, j: nat, sent :: tpm.answer(i, sent) == tpm.answer(j, sent)
  }

  /** Such a TPM ends the loop if and only if no read is fruitless, and then after
      at most one read more than PCRs were asked for. */
  lemma MemorylessEndsIff(tpm: Tpm, read: nat, request: seq<Selection>)
    requires Memoryless(tpm) && IsSelectionList(request)
    ensures Ends(tpm, read, request) <==> Bounded(tpm, read, request, 0)
    ensures Ends(tpm, read, request) <==>
      forall n: nat :: ReadsMade(tpm, read, request, n) <= |Pairs(request)| + 1
  {
    hide ReadsMade, FruitlessReads, Pairs, Memoryless;
    EndsIffFewFruitless(tpm, read, request);
    if Ends(tpm, read, request) {
      var k: nat :| ReadsMade(tpm, read, request, k) < k;
      forall n: nat
        ensures FruitlessReads(tpm, read, request, n) <= 0
        ensures ReadsMade(tpm, read, request, n) <= |Pairs(request)| + 1
      {
        if FruitlessReads(tpm, read, request, n) > 0 {
          FruitlessForever(tpm, read, request, n, k);
        }
        ReadsAreFruitful(tpm, read, request, n);
      }
    }
    if forall n: nat :: ReadsMade(tpm, read, request, n) <= |Pairs(request)| + 1 {
      assert ReadsMade(tpm, read, request, |Pairs(request)| + 2) < |Pairs(request)| + 2;
    }
  }

  /** After one fruitless read, all are. */
  lemma {:induction false} FruitlessForever(tpm: Tpm, read: nat, request: seq<Selection>, k: nat, n: nat)
    requires Memoryless(tpm) && IsSelectionList(request)
    ensures FruitlessReads(tpm, read, request, k) > 0 ==> ReadsMade(tpm, read, request, n) == n
    decreases n
  {
    hide Pairs, StrikeAll, Shown, Fruitless, GoesOn, Sent;
    var reply := Ask(tpm, read, request);
    if n > 0 && FruitlessReads(tpm, read, request, k) > 0 {
      RoundShrinks(request, reply);
      if Fruitless(request, reply) {
        assert Ask(tpm, read + 1, request) == reply;
        FruitlessForever(tpm, read + 1, request, 1, n - 1);
      } else {
        FruitlessForever(tpm, read + 1, StrikeAll(request, Shown(reply)), k - 1, n - 1);
      }
    }
  }

  /** One that answers every request with PCR 0 of the SHA1 bank. */
  function Stubborn(digest: DigestBytes): Tpm {
    Tpm({Pair(ALG_SHA1, 0)}, (_, _) => digest, (_, _) => Success([Selection(ALG_SHA1, [1, 0, 0])], [digest]))
  }

  lemma {:induction false} StubbornNeverEnds(digest: DigestBytes, read: nat, request: seq<Selection>, n: nat)
    requires IsSelectionList(request)
    ensures ReadsMade(Stubborn(digest), read, request, n) == n
    decreases n
  {
    hide Pairs, StrikeAll, Shown;
    if n > 0 {
      var reply := Ask(Stubborn(digest), read, request);
      StubbornNeverEnds(digest, read + 1, StrikeAll(request, Shown(reply)), n - 1);
    }
  }

  // ---- Conforming TPMs ----

  /** Their reads are those of the run, and none is fruitless. */
  lemma {:induction false} ConformingReads(tpm: Tpm, read: nat, request: seq<Selection>, n: nat)
    requires Conforms(tpm) && Proper(tpm.implemented, request)
    ensures ReadsMade(tpm, read, request, n) == Min(n, DumpFrom(tpm, read, request).readCount)
    ensures FruitlessReads(tpm, read, request, n) == 0
    decreases n
  {
    hide StrikeAll, Wanted, NoRepeats, TopClear, Conforms, DumpFrom, Pairs, VisitsOf, Answers;
    if n > 0 {
      if Ask(tpm, read, request).Failure? {
        FailedRead(tpm, read, request, ALG_ERROR);
      } else {
        DumpStep(tpm, read, request);
        var reply := Ask(tpm, read, request);
        var wanted := Wanted(tpm.implemented, request);
        if reply.digests != [] {
          assert Shown(reply) == wanted[..|reply.digests|];
          WantedIsAskedFor(tpm.implemented, request, wanted[0]);
          assert wanted[0] == Shown(reply)[0] && wanted[0] in Shown(reply);
          ConformingReads(tpm, read + 1, StrikeAll(request, Shown(reply)), n - 1);
        }
      }
    }
  }

  lemma WantedIsAskedFor(implemented: set<Pair>, request: seq<Selection>, p: Pair)
    requires IsSelectionList(request) && p in Wanted(implemented, request)
    ensures p in Pairs(request)
  {
    hide Pairs, Keep;
    KeepContains(Pairs(request), implemented, p);
  }
}
