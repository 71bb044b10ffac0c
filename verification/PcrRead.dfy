/** The contract of TPM2_PCR_Read (TPM 2.0 Library, Part 3, section 22.4) and how
    striking off what was read shrinks what is still wanted. */
module PcrRead {
  import opened Common
  import opened PcrBits
  import opened PcrSelection
  import opened PcrDump
  import opened PairLists

  /** What one command brings back; a failure carries a response code. */
  datatype Reply =
    | Failure(code: nat)
    | Success(selection: seq<Selection>, digests: seq<DigestBytes>)

  /** A TPM: the PCRs it implements, their contents at the time of each read, and
      how it answers what is sent to it in a given read. */
  datatype Tpm = Tpm(
    implemented: set<Pair>,
    contents: (nat, Pair) -> DigestBytes,
    answer: (nat, seq<Selection>) -> Reply)

  /** The pairs a request still asks for, in the order the TPM processes them. */
  function Wanted(implemented: set<Pair>, request: seq<Selection>): seq<Pair>
    requires IsSelectionList(request)
  {
    Keep(Pairs(request), implemented)
  }

  /** A request that is sent whole and asks for no implemented PCR twice. */
  predicate Proper(implemented: set<Pair>, request: seq<Selection>) {
    IsSelectionList(request) && TopClear(request) && NoRepeats(Wanted(implemented, request))
  }

  /** The answer to what is sent of a request. */
  function Ask(tpm: Tpm, read: nat, request: seq<Selection>): Reply
    requires IsSelectionList(request)
  {
    tpm.answer(read, Sent(request))
  }

  /** A TPM may fail; otherwise it answers with a prefix of what is wanted, not
      empty while anything is, and with the contents of just those PCRs. */
  predicate Answers(tpm: Tpm, read: nat, request: seq<Selection>)
    requires IsSelectionList(request)
  {
    var wanted := Wanted(tpm.implemented, request);
    match Ask(tpm, read, request)
    case Failure(_) => true
    case Success(selection, digests) =>
      && IsWireList(selection)
      && |digests| <= MAX_DIGESTS && |digests| <= |wanted|
      && (wanted != [] ==> digests != [])
      && Pairs(Received(selection)) == wanted[..|digests|]
      && forall k :: 0 <= k < |digests| ==> digests[k] == tpm.contents(read, wanted[k])
  }

  ghost predicate Conforms(tpm: Tpm) {
    && (forall p :: p in tpm.implemented ==> p.alg != ALG_ERROR)
    && (forall read: nat, request :: Proper(tpm.implemented, request) ==> Answers(tpm, read, request))
  }

  // ---- Striking off ----

  function StrikeAll(request: seq<Selection>, ps: seq<Pair>): (r: seq<Selection>)
    ensures IsSelectionList(request) ==> IsSelectionList(r)
    decreases ps
  {
    if ps == [] then request else StrikeAll(Strike(request, ps[0]), ps[1..])
  }

  lemma {:induction false} PcrsFromStrike(s: Selection, p: Pair, pcr: nat)
    requires |s.bits| == PCR_SELECT_BYTES && pcr <= MAX_PCRS
    ensures PcrsFrom(StrikeEntry(s, p), pcr) == Without(PcrsFrom(s, pcr), p)
    decreases MAX_PCRS - pcr
  {
    hide IsSelected, WithDeselected;
    if pcr < MAX_PCRS {
      PcrsFromStrike(s, p, pcr + 1);
      StrikeEntrySelects(s, p, pcr);
      WithoutConcat(if IsSelected(s.bits, pcr) then [Pair(s.hash, pcr)] else [], PcrsFrom(s, pcr + 1), p);
    }
  }

  lemma StrikeEntrySelects(s: Selection, p: Pair, pcr: nat)
    requires |s.bits| == PCR_SELECT_BYTES && pcr < MAX_PCRS
    ensures IsSelected(StrikeEntry(s, p).bits, pcr) <==> IsSelected(s.bits, pcr) && Pair(s.hash, pcr) != p
  {
    hide IsSelected, WithDeselected;
    if s.hash == p.alg && p.pcr < MAX_PCRS {
      DeselectRemoves(s.bits, p.pcr);
    }
  }

  /** Striking a pair off a request removes exactly that pair from it. */
  lemma {:induction false} PairsStrike(request: seq<Selection>, p: Pair)
    requires IsSelectionList(request)
    ensures Pairs(Strike(request, p)) == Without(Pairs(request), p)
    decreases |request|
  {
    hide StrikeEntry, PcrsFrom;
    if request != [] {
      PcrsFromStrike(request[0], p, 0);
      PairsStrike(request[1..], p);
      assert Strike(request, p)[1..] == Strike(request[1..], p);
      WithoutConcat(PcrsFrom(request[0], 0), Pairs(request[1..]), p);
    }
  }

  /** Striking off leaves a request that is sent whole one that is. */
  lemma {:induction false} StrikeAllTopClear(request: seq<Selection>, ps: seq<Pair>)
    requires IsSelectionList(request) && TopClear(request)
    ensures TopClear(StrikeAll(request, ps))
    decreases ps
  {
    if ps != [] {
      forall i | 0 <= i < |request| ensures StrikeEntry(request[i], ps[0]).bits[SELECTED_BYTES] == 0 {
        StrikeEntryTop(request[i], ps[0]);
      }
      StrikeAllTopClear(Strike(request, ps[0]), ps[1..]);
    }
  }

  lemma StrikeOne(request: seq<Selection>, p: Pair)
    ensures StrikeAll(request, [p]) == Strike(request, p)
  {
    assert [p][1..] == [];
  }

  lemma StrikeEntryTop(s: Selection, p: Pair)
    requires |s.bits| == PCR_SELECT_BYTES && s.bits[SELECTED_BYTES] == 0
    ensures StrikeEntry(s, p).bits[SELECTED_BYTES] == 0
  {
    hide Mask;
  }

  /** Striking off a prefix of what is wanted leaves the rest wanted. */
  lemma {:induction false} WantedAfterStrikes(implemented: set<Pair>, request: seq<Selection>, k: nat)
    requires Proper(implemented, request) && k <= |Wanted(implemented, request)|
    ensures var wanted := Wanted(implemented, request);
      && Wanted(implemented, StrikeAll(request, wanted[..k])) == wanted[k..]
      && Proper(implemented, StrikeAll(request, wanted[..k]))
    decreases k
  {
    hide Strike, Keep, Pairs, TopClear;
    StrikeAllTopClear(request, Wanted(implemented, request)[..k]);
    var wanted := Wanted(implemented, request);
    if k > 0 {
      var p := wanted[0];
      PairsStrike(request, p);
      KeepWithout(Pairs(request), implemented, p);
      WithoutHead(wanted);
      StrikeAllTopClear(request, [p]);
      StrikeOne(request, p);
      WantedAfterStrikes(implemented, Strike(request, p), k - 1);
      assert wanted[..k][1..] == wanted[1..][..k - 1];
    }
  }
}
