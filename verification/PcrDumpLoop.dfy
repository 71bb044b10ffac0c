/** The loop of reads (`prettyprint_pcrs_all`), with all that is proved of its
    runs. */
module PcrDumpLoop {
  import opened Common
  import opened Callbacks
  import opened BankBitmap
  import opened PcrSelection
  import opened PcrDump
  import opened PairLists
  import opened PcrRead
  import opened PcrDumpRun
  import opened PcrDumpProperties
  import opened PcrDumpOutput

  /** The two lists share no memory. */
  predicate Disjoint(a: PcrSelectionList, b: PcrSelectionList) {
    && a != b
    && a.hash != b.hash && a.sizeofSelect != b.sizeofSelect && a.pcrSelect != b.pcrSelect
  }

  /** The part of a round after a successful read: unmarshal the reply, then show
      and strike off what it brought. */
  method ShowReply(cbdata: CallbackData, pcrSelectOut: PcrSelectionList,
                   selection: seq<Selection>, digests: seq<DigestBytes>)
    requires cbdata.Valid() && pcrSelectOut.Valid() && cbdata.digestI == 0
    requires Disjoint(cbdata.pcrSelect, pcrSelectOut) && FourthBytesClear(pcrSelectOut.pcrSelect[..])
    requires IsWireList(selection) && |digests| <= MAX_DIGESTS
    modifies cbdata, cbdata.pcrSelect.pcrSelect
    modifies pcrSelectOut, pcrSelectOut.hash, pcrSelectOut.sizeofSelect, pcrSelectOut.pcrSelect
    ensures cbdata.Valid() && pcrSelectOut.Valid() && FourthBytesClear(pcrSelectOut.pcrSelect[..])
    ensures cbdata.State()
         == Feed(Pairs(Received(selection)), DigestCallback, old(cbdata.State()).(digests := digests)).data
  {
    hide Entries, EntryBytes, Feed, Pairs;
    pcrSelectOut.StoreReply(selection);
    cbdata.digests := digests;
    cbdata.ForeachSelection(pcrSelectOut);
  }

  lemma ZeroedFourthBytes(bytes: seq<bv8>)
    requires |bytes| == MAX_SELECTIONS * PCR_SELECT_BYTES
    requires forall k :: 0 <= k < |bytes| ==> bytes[k] == 0
    ensures FourthBytesClear(bytes)
  {
  }

  /** `prettyprint_pcrs_all`. For every TPM that keeps to the contract and every
      bitmap of at most 16 banks it terminates; its output is sound, and complete
      when it returns 0; a failed read ends it with exit code 1. The number of
      reads is bounded by the PCRs shown, and is 3 a bank and one more for a TPM
      with all 24 PCRs in each that always fills its replies. In every round the
      fourth byte of each bitmap stays zero, in the request and in the reply. */
  method PrettyprintPcrsAll(tpm: Tpm, activeBanks: bv32)
    returns (rc: int, printed: seq<Line>, ghost readCount: nat)
    requires Conforms(tpm) && OneBits(activeBanks) <= MAX_SELECTIONS
    ensures Proper(tpm.implemented, FirstRequest(activeBanks))
    ensures var run := DumpFrom(tpm, 0, FirstRequest(activeBanks));
      rc == run.rc && printed == Lines(ALG_ERROR, run.visits)
    ensures readCount == DumpFrom(tpm, 0, FirstRequest(activeBanks)).readCount
    ensures Sound(tpm, activeBanks, printed, readCount)
    ensures rc == 0 ==> Complete(tpm, activeBanks, printed)
    ensures rc == 0 ==> readCount <= |PairsPrinted(printed)| + 1
    ensures rc == 0 ==> |PairsPrinted(printed)| <= MAX_DIGESTS * (readCount - 1)
    ensures Generous(tpm) && ImplementsAll(tpm, activeBanks) ==>
      rc == 0 && readCount == 3 * |KnownAlgs(activeBanks)| + 1
  {
    hide NoRepeats, TopClear, Conforms, Generous, ImplementsAll, Wanted, FirstRequest, OneBits, KnownAlgs, Lines,
      StrikeAll, Entries, EntryBytes, FourthBytesClear, DumpFrom, Feed, Pairs, Sound, Complete, PairsPrinted, Sent,
      SelectingAll;
    var request := new PcrSelectionList.Zeroed();
    var pcrSelectOut := new PcrSelectionList.Zeroed();
    ghost var zeros := request.pcrSelect[..];
    ZeroedFourthBytes(pcrSelectOut.pcrSelect[..]);
    request.SelectAllActivePcrs(activeBanks);
    FirstRequestEntries(activeBanks, request.hash[..], request.pcrSelect[..], zeros);
    FirstRequestProper(tpm, activeBanks);
    var cbdata := new CallbackData.Zeroed(request);
    ghost var run := DumpFrom(tpm, 0, FirstRequest(activeBanks));
    RunFacts(tpm, activeBanks);
    var round := 0;
    readCount := 0;
    while true
      invariant cbdata.Valid() && cbdata.pcrSelect == request && pcrSelectOut.Valid()
      invariant Disjoint(request, pcrSelectOut)
      invariant fresh(cbdata) && fresh(request.pcrSelect)
      invariant fresh(pcrSelectOut) && fresh(pcrSelectOut.hash)
      invariant fresh(pcrSelectOut.sizeofSelect) && fresh(pcrSelectOut.pcrSelect)
      invariant forall i :: 0 <= i < request.count ==> request.sizeofSelect[i] == SELECTED_BYTES
      invariant TopClear(request.View()) && FourthBytesClear(pcrSelectOut.pcrSelect[..])
      invariant Proper(tpm.implemented, request.View())
      invariant readCount == round
      invariant var rest := DumpFrom(tpm, round, request.View());
        && run.rc == rest.rc && run.readCount == readCount + rest.readCount
        && Lines(ALG_ERROR, run.visits) == cbdata.printed + Lines(cbdata.lastAlg, rest.visits)
      decreases |Wanted(tpm.implemented, request.View())|
    {
      cbdata.digestI := 0;
      cbdata.digests := [];
      var reply := tpm.answer(round, request.Marshal());
      readCount := readCount + 1;
      if reply.Failure? {
        FailedRead(tpm, round, request.View(), cbdata.lastAlg);
        return 1, cbdata.printed, readCount;
      }
      ghost var state := cbdata.State().(digests := reply.digests);
      RoundStep(tpm, round, state);
      ShowReply(cbdata, pcrSelectOut, reply.selection, reply.digests);
      assert cbdata.State().request == request.View() && cbdata.State().printed == cbdata.printed;
      round := round + 1;
      if !(|cbdata.digests| > 0) {
        return 0, cbdata.printed, readCount;
      }
    }
  }

  /** Everything proved of the run the loop makes. */
  lemma RunFacts(tpm: Tpm, b: bv32)
    requires Conforms(tpm) && OneBits(b) <= MAX_SELECTIONS
    ensures Proper(tpm.implemented, FirstRequest(b))
    ensures var run := DumpFrom(tpm, 0, FirstRequest(b));
      var printed := Lines(ALG_ERROR, run.visits);
      && Sound(tpm, b, printed, run.readCount)
      && (run.rc == 0 ==>
            && Complete(tpm, b, printed)
            && run.readCount <= |PairsPrinted(printed)| + 1
            && |PairsPrinted(printed)| <= MAX_DIGESTS * (run.readCount - 1))
      && (Generous(tpm) && ImplementsAll(tpm, b) ==> run.rc == 0 && run.readCount == 3 * |KnownAlgs(b)| + 1)
  {
    hide *;
    RunOutput(tpm, b);
    RunShowsWanted(tpm, 0, FirstRequest(b));
    ReadsAreBounded(tpm, 0, FirstRequest(b));
    PairsPrintedAreShown(DumpFrom(tpm, 0, FirstRequest(b)).visits);
    if Generous(tpm) && ImplementsAll(tpm, b) {
      GenerousReads(tpm, 0, FirstRequest(b));
      ThreeReadsPerBank(tpm, b);
    }
  }
}
