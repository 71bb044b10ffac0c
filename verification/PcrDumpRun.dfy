/** The whole multi-round dump (`prettyprint_pcrs_all`). */
module PcrDumpRun {
  import opened Common
  import opened Callbacks
  import opened PcrBits
  import opened BankBitmap
  import opened PcrSelection
  import opened PcrDump
  import opened PairLists
  import opened PcrRead

  /** One PCR shown: the read that returned it, the pair and its digest. */
  datatype Visit = Visit(read: nat, pair: Pair, digest: DigestBytes)

  /** A whole run: the exit code, what was shown, and how many reads were made. */
  datatype Run = Run(rc: int, visits: seq<Visit>, readCount: nat)

  function VisitsOf(read: nat, ps: seq<Pair>, digests: seq<DigestBytes>): (vs: seq<Visit>)
    requires |ps| == |digests|
    ensures |vs| == |ps|
  {
    seq(|ps|, k requires 0 <= k < |ps| => Visit(read, ps[k], digests[k]))
  }

  function PairsOf(vs: seq<Visit>): (ps: seq<Pair>)
    ensures |ps| == |vs|
    ensures forall k :: 0 <= k < |vs| ==> ps[k] == vs[k].pair
  {
    seq(|vs|, k requires 0 <= k < |vs| => vs[k].pair)
  }

  /** What the visits print, the last bank shown before them being `lastAlg`. */
  function Lines(lastAlg: u16, vs: seq<Visit>): seq<Line>
    decreases vs
  {
    if vs == [] then []
    else LinesFor(lastAlg, vs[0].pair, vs[0].digest) + Lines(vs[0].pair.alg, vs[1..])
  }

  function LastAlg(lastAlg: u16, vs: seq<Visit>): u16 {
    if vs == [] then lastAlg else vs[|vs| - 1].pair.alg
  }

  /** Reads until one fails or brings nothing, striking off what came back. */
  ghost function DumpFrom(tpm: Tpm, read: nat, request: seq<Selection>): Run
    requires Conforms(tpm) && Proper(tpm.implemented, request)
    decreases |Wanted(tpm.implemented, request)|
  {
    assert Answers(tpm, read, request);
    match Ask(tpm, read, request)
    case Failure(_) => Run(1, [], 1)
    case Success(selection, digests) =>
      if digests == [] then
        Run(0, [], 1)
      else
        WantedAfterStrikes(tpm.implemented, request, |digests|);
        var rest := DumpFrom(tpm, read + 1, StrikeAll(request, Pairs(Received(selection))));
        Run(rest.rc, VisitsOf(read, Pairs(Received(selection)), digests) + rest.visits, 1 + rest.readCount)
  }

  // ---- One round ----

  /** How many of the set bits a walk comes to. */
  function Reached(ps: seq<Pair>, s: DumpState): nat {
    Min(|ps|, if s.digestI < |s.digests| then |s.digests| - s.digestI else 1)
  }

  /** They are shown with the digests from `digest_i` on; one past the last digest
      is shown with an empty one. */
  function ReachedVisits(read: nat, ps: seq<Pair>, s: DumpState): (vs: seq<Visit>)
    ensures |vs| == Reached(ps, s)
  {
    seq(Reached(ps, s), k requires 0 <= k < Reached(ps, s) =>
      Visit(read, ps[k], if s.digestI + k < |s.digests| then s.digests[s.digestI + k] else []))
  }

  /** Whatever a reply holds, a walk shows and strikes off just those. */
  lemma {:induction false} RoundShows(ps: seq<Pair>, s: DumpState, read: nat)
    ensures var n, vs := Reached(ps, s), ReachedVisits(read, ps, s);
      Feed(ps, DigestCallback, s).data
      == DumpState(s.digestI + n, LastAlg(s.lastAlg, vs), s.digests, StrikeAll(s.request, ps[..n]),
                   s.printed + Lines(s.lastAlg, vs))
    decreases |ps|
  {
    hide Feed, Strike, StrikeAll, Lines, LinesFor;
    var n, vs := Reached(ps, s), ReachedVisits(read, ps, s);
    if ps == [] {
      NoRound(s);
      assert vs == [] && ps[..n] == [] && s.printed + [] == s.printed;
    } else {
      var (s', more) := DigestCallback(s, ps[0]);
      FeedFirst(ps, s);
      StrikeFirst(s.request, ps, n);
      LinesFirst(s.lastAlg, vs);
      assert vs[0] == Visit(read, ps[0], DigestBuffer(s.digests, s.digestI));
      ConcatAssociates(s.printed, LinesFor(s.lastAlg, ps[0], vs[0].digest), Lines(ps[0].alg, vs[1..]));
      if more {
        RoundShows(ps[1..], s', read);
        assert vs[1..] == ReachedVisits(read, ps[1..], s');
      } else {
        NoRound(s');
        assert n == 1 && vs[1..] == [] && ps[1..][..0] == [];
        assert s'.printed + [] == s'.printed;
      }
    }
  }

  lemma FeedFirst(ps: seq<Pair>, s: DumpState)
    requires ps != []
    ensures var (s', more) := DigestCallback(s, ps[0]);
      Feed(ps, DigestCallback, s).data == if more then Feed(ps[1..], DigestCallback, s').data else s'
  {
    hide DigestCallback;
  }

  lemma StrikeFirst(request: seq<Selection>, ps: seq<Pair>, n: nat)
    requires 0 < n <= |ps|
    ensures StrikeAll(request, ps[..n]) == StrikeAll(Strike(request, ps[0]), ps[1..][..n - 1])
  {
    hide Strike;
    assert ps[..n][0] == ps[0] && ps[..n][1..] == ps[1..][..n - 1];
  }

  lemma LinesFirst(lastAlg: u16, vs: seq<Visit>)
    requires vs != []
    ensures Lines(lastAlg, vs) == LinesFor(lastAlg, vs[0].pair, vs[0].digest) + Lines(vs[0].pair.alg, vs[1..])
    ensures LastAlg(lastAlg, vs) == LastAlg(vs[0].pair.alg, vs[1..])
  {
    hide LinesFor;
  }

  lemma NoRound(s: DumpState)
    ensures Feed([], DigestCallback, s).data == s
    ensures StrikeAll(s.request, []) == s.request && Lines(s.lastAlg, []) == [] && LastAlg(s.lastAlg, []) == s.lastAlg
  {
  }

  /** When the remaining set bits are as many as the digests not yet shown, the
      walk shows each bit with the digest at its own position. */
  lemma RoundShowsAll(ps: seq<Pair>, s: DumpState, read: nat)
    requires s.digestI + |ps| == |s.digests|
    ensures var vs := VisitsOf(read, ps, s.digests[s.digestI..]);
      Feed(ps, DigestCallback, s).data
      == DumpState(|s.digests|, LastAlg(s.lastAlg, vs), s.digests, StrikeAll(s.request, ps),
                   s.printed + Lines(s.lastAlg, vs))
  {
    hide Feed, DigestCallback, StrikeAll, Lines;
    RoundShows(ps, s, read);
    assert ps[..Reached(ps, s)] == ps;
    assert ReachedVisits(read, ps, s) == VisitsOf(read, ps, s.digests[s.digestI..]);
  }

  lemma {:induction false} LinesConcat(lastAlg: u16, vs: seq<Visit>, ws: seq<Visit>)
    ensures Lines(lastAlg, vs + ws) == Lines(lastAlg, vs) + Lines(LastAlg(lastAlg, vs), ws)
    decreases |vs|
  {
    hide LinesFor;
    if vs == [] {
      assert vs + ws == ws;
    } else {
      LinesConcat(vs[0].pair.alg, vs[1..], ws);
      assert (vs + ws)[0] == vs[0] && (vs + ws)[1..] == vs[1..] + ws;
      assert LastAlg(lastAlg, vs) == LastAlg(vs[0].pair.alg, vs[1..]);
      ConcatAssociates(LinesFor(lastAlg, vs[0].pair, vs[0].digest), Lines(vs[0].pair.alg, vs[1..]),
              Lines(LastAlg(lastAlg, vs), ws));
    }
  }

  // ---- The first request ----

  /** PCRs 0 to 23. */
  const FIRST_24: seq<bv8> := [0xff, 0xff, 0xff, 0x00]

  /** What `select_all_active_pcrs` makes of a zeroed list. */
  function FirstRequest(b: bv32): (request: seq<Selection>)
    requires OneBits(b) <= MAX_SELECTIONS
    ensures IsSelectionList(request) && TopClear(request)
  {
    seq(OneBits(b), i requires 0 <= i < OneBits(b) =>
      Selection(if i < |KnownAlgs(b)| then KnownAlgs(b)[i] else ALG_ERROR, FIRST_24))
  }

  lemma FirstRequestEntries(b: bv32, hash: seq<u16>, bytes: seq<bv8>, zeros: seq<bv8>)
    requires OneBits(b) <= MAX_SELECTIONS == |hash|
    requires forall i :: 0 <= i < MAX_SELECTIONS ==>
      hash[i] == if i < |KnownAlgs(b)| then KnownAlgs(b)[i] else 0
    requires |zeros| == |bytes| == MAX_SELECTIONS * PCR_SELECT_BYTES
    requires forall k :: 0 <= k < |zeros| ==> zeros[k] == 0
    requires bytes == SelectingAll(zeros, OneBits(b))
    ensures Entries(OneBits(b), hash, bytes) == FirstRequest(b)
  {
    hide OneBits, KnownAlgs, SelectingAll;
    forall i: nat | i < OneBits(b) ensures EntryBytes(bytes, i) == FIRST_24 {
      SelectingAllEntry(zeros, OneBits(b), i);
    }
  }

  /** For one active bank it names that bank's algorithm: SHA1, SHA256, SHA384,
      SHA512 and SM3_256, from the lowest bit. */
  lemma FirstRequestOfOneBank(b: bv32)
    requires b == 0x01 || b == 0x02 || b == 0x04 || b == 0x08 || b == 0x10
    ensures OneBits(b) == 1
    ensures FirstRequest(b) == [Selection(
      if b == 0x01 then 0x0004 else if b == 0x02 then 0x000B else if b == 0x04 then 0x000C
      else if b == 0x08 then 0x000D else 0x0012,
      [0xff, 0xff, 0xff, 0x00])]
  {
    hide OneBits, KnownAlgs;
    OneBankCounts(b);
    OneBankNames(b);
  }

  /** The first request asks for no implemented PCR twice, and in bank order: its
      named entries are distinct ascending banks, the others name none. */
  lemma FirstRequestProper(tpm: Tpm, b: bv32)
    requires Conforms(tpm) && OneBits(b) <= MAX_SELECTIONS
    ensures Proper(tpm.implemented, FirstRequest(b))
    ensures InOrder(Wanted(tpm.implemented, FirstRequest(b)))
  {
    hide KnownAlgs, OneBits, InOrder, Pairs;
    KnownAlgsProperties(b);
    WantedInOrder(tpm.implemented, FirstRequest(b));
    InOrderNoRepeats(Wanted(tpm.implemented, FirstRequest(b)));
  }

  /** The banks named by a request come in ascending order. */
  predicate BanksAscend(request: seq<Selection>) {
    forall i, j :: 0 <= i < j < |request| && request[j].hash != ALG_ERROR ==>
      BankBit(request[i].hash) < BankBit(request[j].hash)
  }

  lemma {:induction false} PcrsFromInOrder(implemented: set<Pair>, s: Selection, pcr: nat)
    requires |s.bits| == PCR_SELECT_BYTES && pcr <= MAX_PCRS
    ensures var ps := Keep(PcrsFrom(s, pcr), implemented);
      InOrder(ps) && forall p :: p in ps ==> p in implemented && p.alg == s.hash && pcr <= p.pcr
    decreases MAX_PCRS - pcr
  {
    hide IsSelected, BankBit, InOrder;
    if pcr == MAX_PCRS {
      ShortInOrder([]);
    } else {
      PcrsFromInOrder(implemented, s, pcr + 1);
      var rest := Keep(PcrsFrom(s, pcr + 1), implemented);
      var p := Pair(s.hash, pcr);
      if IsSelected(s.bits, pcr) && p in implemented {
        ShortInOrder([p]);
        InOrderConcat([p], rest);
        KeepConcat([p], PcrsFrom(s, pcr + 1), implemented);
        assert Keep([p], implemented) == [p];
      } else if IsSelected(s.bits, pcr) {
        KeepConcat([p], PcrsFrom(s, pcr + 1), implemented);
        assert Keep([p], implemented) == [] && [] + rest == rest;
      } else {
        assert PcrsFrom(s, pcr) == PcrsFrom(s, pcr + 1);
      }
    }
  }

  lemma {:induction false} WantedInOrder(implemented: set<Pair>, request: seq<Selection>)
    requires IsSelectionList(request) && BanksAscend(request)
    requires forall p :: p in implemented ==> p.alg != ALG_ERROR
    ensures InOrder(Wanted(implemented, request))
    decreases |request|
  {
    hide IsSelected, BankBit, PcrsFrom, InOrder;
    if request == [] {
      ShortInOrder([]);
    } else {
      var head, tail := PcrsFrom(request[0], 0), Pairs(request[1..]);
      PcrsFromInOrder(implemented, request[0], 0);
      assert forall i :: 0 <= i < |request[1..]| ==> request[1..][i] == request[i + 1];
      WantedInOrder(implemented, request[1..]);
      KeepConcat(head, tail, implemented);
      forall p, q | p in Keep(head, implemented) && q in Keep(tail, implemented) ensures Before(p, q) {
        KeepContains(tail, implemented, q);
        PairsContains(request[1..], q);
        var i :| 0 <= i < |request[1..]| && request[1..][i].hash == q.alg;
        assert request[i + 1].hash == q.alg;
      }
      InOrderConcat(Keep(head, implemented), Keep(tail, implemented));
    }
  }

  // ---- The loop ----

  lemma ReplyConforms(tpm: Tpm, read: nat, request: seq<Selection>)
    requires Conforms(tpm) && Proper(tpm.implemented, request)
    ensures Answers(tpm, read, request)
  {
  }

  lemma DumpStep(tpm: Tpm, read: nat, request: seq<Selection>)
    requires Conforms(tpm) && Proper(tpm.implemented, request) && Ask(tpm, read, request).Success?
    ensures var Success(selection, digests) := Ask(tpm, read, request);
      var wanted := Wanted(tpm.implemented, request);
      var run := DumpFrom(tpm, read, request);
      && IsWireList(selection) && |digests| <= MAX_DIGESTS && |digests| <= |wanted|
      && Pairs(Received(selection)) == wanted[..|digests|]
      && (digests == [] ==> run == Run(0, [], 1) && wanted == [])
      && (digests != [] ==>
            var request' := StrikeAll(request, wanted[..|digests|]);
            && Proper(tpm.implemented, request')
            && Wanted(tpm.implemented, request') == wanted[|digests|..]
            && var rest := DumpFrom(tpm, read + 1, request');
               run == Run(rest.rc, VisitsOf(read, wanted[..|digests|], digests) + rest.visits, 1 + rest.readCount))
  {
    hide StrikeAll, Wanted, NoRepeats, TopClear, Conforms, Pairs;
    ReplyConforms(tpm, read, request);
    WantedAfterStrikes(tpm.implemented, request, |Ask(tpm, read, request).digests|);
  }

  /** One round of the loop on the callback's data. */
  lemma RoundStep(tpm: Tpm, read: nat, s: DumpState)
    requires Conforms(tpm) && IsSelectionList(s.request) && Proper(tpm.implemented, s.request)
    requires Ask(tpm, read, s.request).Success?
    requires s.digestI == 0 && s.digests == Ask(tpm, read, s.request).digests
    ensures IsWireList(Ask(tpm, read, s.request).selection) && |s.digests| <= MAX_DIGESTS
    ensures var run := DumpFrom(tpm, read, s.request);
      var s' := Feed(Pairs(Received(Ask(tpm, read, s.request).selection)), DigestCallback, s).data;
      s'.digests == s.digests &&
      if s.digests == [] then
        run == Run(0, [], 1) && s'.printed == s.printed + Lines(s.lastAlg, run.visits)
      else
        && IsSelectionList(s'.request) && Proper(tpm.implemented, s'.request)
        && |Wanted(tpm.implemented, s'.request)| < |Wanted(tpm.implemented, s.request)|
        && var rest := DumpFrom(tpm, read + 1, s'.request);
           && run.rc == rest.rc && run.readCount == 1 + rest.readCount
           && s.printed + Lines(s.lastAlg, run.visits) == s'.printed + Lines(s'.lastAlg, rest.visits)
  {
    hide StrikeAll, Wanted, Proper, Conforms, Pairs, DumpFrom, LinesFor, Strike;
    var Success(selection, digests) := Ask(tpm, read, s.request);
    DumpStep(tpm, read, s.request);
    assert s.digests[0..] == digests;
    RoundShowsAll(Pairs(Received(selection)), s, read);
    var vs := VisitsOf(read, Pairs(Received(selection)), digests);
    if digests != [] {
      var s' := Feed(Pairs(Received(selection)), DigestCallback, s).data;
      LinesConcat(s.lastAlg, vs, DumpFrom(tpm, read + 1, s'.request).visits);
    }
  }

  lemma FailedRead(tpm: Tpm, read: nat, request: seq<Selection>, lastAlg: u16)
    requires Conforms(tpm) && Proper(tpm.implemented, request) && Ask(tpm, read, request).Failure?
    ensures DumpFrom(tpm, read, request) == Run(1, [], 1) && Lines(lastAlg, []) == []
  {
  }
}
