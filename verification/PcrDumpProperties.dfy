/** What a whole dump shows: coverage, order, pairing, headings and the number of
    reads, for every conforming TPM. */
module PcrDumpProperties {
  import opened Common
  import opened Callbacks
  import opened PcrBits
  import opened BankBitmap
  import opened PcrSelection
  import opened PcrDump
  import opened PairLists
  import opened PcrRead
  import opened PcrDumpRun

  // ---- Pairing digests with set bits ----

  /** Whatever a reply holds: on entry to each callback `digest_i` is the number
      of set bits already visited, and the walk visits the first
      max(1, digest count) of them. */
  lemma {:induction false} DigestIndexCountsVisits(ps: seq<Pair>, s: DumpState)
    ensures var o := Feed(ps, DigestCallback, s);
      && o.data.digestI == s.digestI + o.seen
      && o.data.digests == s.digests
      && o.seen == Min(|ps|, if s.digestI < |s.digests| then |s.digests| - s.digestI else 1)
    ensures forall k: nat | k <= |ps| :: DataAfter(ps, DigestCallback, s, k).digestI == s.digestI + k
    decreases |ps|
  {
    hide Strike, LinesFor;
    forall k: nat | k <= |ps| ensures DataAfter(ps, DigestCallback, s, k).digestI == s.digestI + k {
      DigestIndexAfter(ps, s, k);
    }
    if ps != [] {
      DigestIndexCountsVisits(ps[1..], DigestCallback(s, ps[0]).0);
    }
  }

  lemma {:induction false} DigestIndexAfter(ps: seq<Pair>, s: DumpState, k: nat)
    requires k <= |ps|
    ensures DataAfter(ps, DigestCallback, s, k).digestI == s.digestI + k
    decreases k
  {
    hide Strike, LinesFor;
    if k > 0 {
      DigestIndexAfter(ps, s, k - 1);
    }
  }

  /** A round pairs every set bit with a digest and uses every digest exactly when
      the set bits number the digest count. */
  lemma PairingIsExact(ps: seq<Pair>, s: DumpState)
    requires s.digestI == 0
    ensures var o := Feed(ps, DigestCallback, s);
      (o.seen == |ps| && o.data.digestI == |s.digests|) <==> |ps| == |s.digests|
  {
    DigestIndexCountsVisits(ps, s);
  }

  // ---- Coverage ----

  /** What is shown is always a prefix of what was asked for and implemented, and
      all of it when the run succeeds. */
  lemma {:induction false} RunShowsWanted(tpm: Tpm, read: nat, request: seq<Selection>)
    requires Conforms(tpm) && Proper(tpm.implemented, request)
    ensures var run := DumpFrom(tpm, read, request);
      var wanted := Wanted(tpm.implemented, request);
      && |run.visits| <= |wanted|
      && PairsOf(run.visits) == wanted[..|run.visits|]
      && (run.rc == 0 || run.rc == 1)
      && (run.rc == 0 ==> |run.visits| == |wanted|)
    decreases |Wanted(tpm.implemented, request)|
  {
    hide StrikeAll, Wanted, NoRepeats, TopClear, Conforms, DumpFrom, Pairs, VisitsOf, PairsOf, Answers;
    var wanted := Wanted(tpm.implemented, request);
    if Ask(tpm, read, request).Failure? {
      FailedRead(tpm, read, request, ALG_ERROR);
    } else {
      DumpStep(tpm, read, request);
      var Success(_, digests) := Ask(tpm, read, request);
      if digests != [] {
        var n := |digests|;
        RunShowsWanted(tpm, read + 1, StrikeAll(request, wanted[..n]));
        var rest := DumpFrom(tpm, read + 1, StrikeAll(request, wanted[..n])).visits;
        PairsOfRound(read, wanted[..n], digests, rest);
        assert wanted[..n] + wanted[n..][..|rest|] == wanted[..n + |rest|];
      }
    }
  }

  lemma PairsOfRound(read: nat, ps: seq<Pair>, digests: seq<DigestBytes>, rest: seq<Visit>)
    requires |ps| == |digests|
    ensures PairsOf(VisitsOf(read, ps, digests) + rest) == ps + PairsOf(rest)
  {
  }

  /** Every digest shown is the one the TPM had for that very pair in the read
      that returned it. */
  lemma {:induction false} RunShowsContents(tpm: Tpm, read: nat, request: seq<Selection>)
    requires Conforms(tpm) && Proper(tpm.implemented, request)
    ensures var run := DumpFrom(tpm, read, request);
      forall v :: v in run.visits ==>
        v.digest == tpm.contents(v.read, v.pair) && read <= v.read < read + run.readCount
    decreases |Wanted(tpm.implemented, request)|
  {
    hide StrikeAll, Wanted, NoRepeats, TopClear, Conforms, DumpFrom, Pairs, Answers;
    var wanted := Wanted(tpm.implemented, request);
    if Ask(tpm, read, request).Failure? {
      FailedRead(tpm, read, request, ALG_ERROR);
    } else {
      DumpStep(tpm, read, request);
      ReplyDigests(tpm, read, request);
      var Success(_, digests) := Ask(tpm, read, request);
      if digests != [] {
        RunShowsContents(tpm, read + 1, StrikeAll(request, wanted[..|digests|]));
      }
    }
  }

  lemma ReplyDigests(tpm: Tpm, read: nat, request: seq<Selection>)
    requires Conforms(tpm) && Proper(tpm.implemented, request) && Ask(tpm, read, request).Success?
    ensures var Success(_, digests) := Ask(tpm, read, request);
      var wanted := Wanted(tpm.implemented, request);
      && |digests| <= |wanted|
      && forall k :: 0 <= k < |digests| ==> digests[k] == tpm.contents(read, wanted[k])
  {
    hide Wanted, Proper;
    ReplyConforms(tpm, read, request);
  }

  lemma First24Selected(pcr: nat)
    requires pcr < MAX_PCRS
    ensures IsSelected(FIRST_24, pcr) <==> pcr < SELECTED_PCRS
  {
    MaskValues();
  }

  /** The first request wants exactly the implemented PCRs below 24 of the active
      banks this program knows. */
  lemma FirstRequestWants(tpm: Tpm, b: bv32, p: Pair)
    requires Conforms(tpm) && OneBits(b) <= MAX_SELECTIONS
    ensures p in Wanted(tpm.implemented, FirstRequest(b))
       <==> p in tpm.implemented && IsActive(b, p.alg) && p.pcr < SELECTED_PCRS
  {
    hide OneBits, KnownAlgs, IsActive, Pairs, IsSelected, Keep;
    var request := FirstRequest(b);
    KeepContains(Pairs(request), tpm.implemented, p);
    PairsContains(request, p);
    KnownAlgsProperties(b);
    KnownAlgsCount(b);
    if p.pcr < MAX_PCRS {
      First24Selected(p.pcr);
    }
    if p in tpm.implemented && IsActive(b, p.alg) {
      var i :| 0 <= i < |KnownAlgs(b)| && KnownAlgs(b)[i] == p.alg;
      assert request[i].hash == p.alg;
    }
  }

  /** Exactly once: for every bitmap of active banks and every TPM that keeps to
      its contract, however little it answers in each read, a successful run shows
      every implemented PCR below 24 of every active known bank once, and nothing
      else, in bank order and then ascending. A run cut short by a failed read
      has shown a prefix of that list. Each digest shown is the TPM's for that
      pair in the read that returned it. */
  lemma ExactlyOnce(tpm: Tpm, b: bv32)
    requires Conforms(tpm) && OneBits(b) <= MAX_SELECTIONS
    ensures Proper(tpm.implemented, FirstRequest(b))
    ensures var run := DumpFrom(tpm, 0, FirstRequest(b));
      var shown := PairsOf(run.visits);
      && InOrder(shown) && NoRepeats(shown)
      && (forall p :: p in shown ==> p in tpm.implemented && IsActive(b, p.alg) && p.pcr < SELECTED_PCRS)
      && (run.rc == 0 ==> forall p ::
            p in tpm.implemented && IsActive(b, p.alg) && p.pcr < SELECTED_PCRS ==> p in shown)
      && (run.rc != 0 ==> shown <= Wanted(tpm.implemented, FirstRequest(b)))
      && (forall v :: v in run.visits ==> v.digest == tpm.contents(v.read, v.pair))
  {
    hide OneBits, FirstRequest, Wanted, DumpFrom, IsActive, Conforms, Before, Proper;
    FirstRequestProper(tpm, b);
    RunShowsWanted(tpm, 0, FirstRequest(b));
    RunShowsContents(tpm, 0, FirstRequest(b));
    var wanted := Wanted(tpm.implemented, FirstRequest(b));
    forall p ensures p in wanted <==> p in tpm.implemented && IsActive(b, p.alg) && p.pcr < SELECTED_PCRS {
      FirstRequestWants(tpm, b, p);
    }
    InOrderNoRepeats(wanted);
  }

  // ---- How many reads ----

  /** A successful run makes at most one read more than there are PCRs to show,
      and no fewer than full replies would need. */
  lemma {:induction false} ReadsAreBounded(tpm: Tpm, read: nat, request: seq<Selection>)
    requires Conforms(tpm) && Proper(tpm.implemented, request)
    ensures var run := DumpFrom(tpm, read, request);
      var n := |Wanted(tpm.implemented, request)|;
      run.rc == 0 ==> run.readCount <= n + 1 && n <= MAX_DIGESTS * (run.readCount - 1)
    ensures DumpFrom(tpm, read, request).readCount <= |Wanted(tpm.implemented, request)| + 1
    decreases |Wanted(tpm.implemented, request)|
  {
    hide StrikeAll, Wanted, NoRepeats, TopClear, Conforms, DumpFrom, Pairs, VisitsOf, Answers;
    if Ask(tpm, read, request).Failure? {
      FailedRead(tpm, read, request, ALG_ERROR);
    } else {
      DumpStep(tpm, read, request);
      var Success(_, digests) := Ask(tpm, read, request);
      if digests != [] {
        ReadsAreBounded(tpm, read + 1,
          StrikeAll(request, Wanted(tpm.implemented, request)[..|digests|]));
      }
    }
  }

  /** The TPM never fails and always answers as much as a reply can hold. */
  ghost predicate Generous(tpm: Tpm) {
    forall read: nat, request :: Proper(tpm.implemented, request) ==> AnswersFully(tpm, read, request)
  }

  predicate AnswersFully(tpm: Tpm, read: nat, request: seq<Selection>)
    requires IsSelectionList(request)
  {
    var reply := Ask(tpm, read, request);
    reply.Success? && |reply.digests| == Min(MAX_DIGESTS, |Wanted(tpm.implemented, request)|)
  }

  lemma {:induction false} GenerousReads(tpm: Tpm, read: nat, request: seq<Selection>)
    requires Conforms(tpm) && Generous(tpm) && Proper(tpm.implemented, request)
    ensures var run := DumpFrom(tpm, read, request);
      run.rc == 0 && run.readCount == (|Wanted(tpm.implemented, request)| + MAX_DIGESTS - 1) / MAX_DIGESTS + 1
    decreases |Wanted(tpm.implemented, request)|
  {
    hide StrikeAll, Wanted, NoRepeats, TopClear, Conforms, DumpFrom, Pairs, VisitsOf, Answers;
    assert AnswersFully(tpm, read, request);
    DumpStep(tpm, read, request);
    var Success(_, digests) := Ask(tpm, read, request);
    if digests != [] {
      GenerousReads(tpm, read + 1, StrikeAll(request, Wanted(tpm.implemented, request)[..|digests|]));
    }
  }

  /** A TPM that implements the first 24 PCRs of every active known bank. */
  predicate ImplementsAll(tpm: Tpm, b: bv32) {
    forall alg, pcr :: alg in KnownAlgs(b) && 0 <= pcr < SELECTED_PCRS ==> Pair(alg, pcr) in tpm.implemented
  }

  lemma {:induction false} FullBank(implemented: set<Pair>, alg: u16, pcr: nat)
    requires pcr <= MAX_PCRS
    requires forall q: nat | q < SELECTED_PCRS :: Pair(alg, q) in implemented
    ensures |Keep(PcrsFrom(Selection(alg, FIRST_24), pcr), implemented)|
         == if pcr < SELECTED_PCRS then SELECTED_PCRS - pcr else 0
    decreases MAX_PCRS - pcr
  {
    hide IsSelected;
    if pcr < MAX_PCRS {
      var s := Selection(alg, FIRST_24);
      First24Selected(pcr);
      FullBank(implemented, alg, pcr + 1);
      KeepConcat(if IsSelected(s.bits, pcr) then [Pair(alg, pcr)] else [], PcrsFrom(s, pcr + 1), implemented);
    }
  }

  lemma {:induction false} NoBank(implemented: set<Pair>, s: Selection, pcr: nat)
    requires |s.bits| == PCR_SELECT_BYTES && pcr <= MAX_PCRS
    requires forall p :: p in implemented ==> p.alg != s.hash
    ensures Keep(PcrsFrom(s, pcr), implemented) == []
    decreases MAX_PCRS - pcr
  {
    hide IsSelected;
    if pcr < MAX_PCRS {
      NoBank(implemented, s, pcr + 1);
      KeepConcat(if IsSelected(s.bits, pcr) then [Pair(s.hash, pcr)] else [], PcrsFrom(s, pcr + 1), implemented);
    }
  }

  /** What a suffix of the first request wants, 24 PCRs for each known bank. */
  lemma {:induction false} FullBanks(tpm: Tpm, b: bv32, i: nat)
    requires Conforms(tpm) && OneBits(b) <= MAX_SELECTIONS && ImplementsAll(tpm, b)
    requires i <= OneBits(b)
    ensures |Wanted(tpm.implemented, FirstRequest(b)[i..])|
         == if i < |KnownAlgs(b)| then SELECTED_PCRS * (|KnownAlgs(b)| - i) else 0
    decreases OneBits(b) - i
  {
    hide OneBits, KnownAlgs, PcrsFrom;
    KnownAlgsCount(b);
    var request := FirstRequest(b);
    if i < OneBits(b) {
      FullBanks(tpm, b, i + 1);
      assert request[i..][0] == request[i] && request[i..][1..] == request[i + 1..];
      KeepConcat(PcrsFrom(request[i], 0), Pairs(request[i + 1..]), tpm.implemented);
      if i < |KnownAlgs(b)| {
        FullBank(tpm.implemented, KnownAlgs(b)[i], 0);
      } else {
        NoBank(tpm.implemented, request[i], 0);
      }
    }
  }

  /** With full replies and all 24 PCRs in each of the active known banks the
      dump makes three reads a bank and a last, empty one. */
  lemma ThreeReadsPerBank(tpm: Tpm, b: bv32)
    requires Conforms(tpm) && Generous(tpm) && OneBits(b) <= MAX_SELECTIONS && ImplementsAll(tpm, b)
    ensures Proper(tpm.implemented, FirstRequest(b))
    ensures DumpFrom(tpm, 0, FirstRequest(b)).readCount == 3 * |KnownAlgs(b)| + 1
  {
    hide OneBits, KnownAlgs, Wanted, DumpFrom, Conforms, Generous, ImplementsAll, Proper;
    FirstRequestProper(tpm, b);
    FullBanks(tpm, b, 0);
    assert FirstRequest(b)[0..] == FirstRequest(b);
    GenerousReads(tpm, 0, FirstRequest(b));
  }
}
