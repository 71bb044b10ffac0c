/** Printing every PCR of every active bank (`example/tpm2-get-pcrs.c`): a loop
    of TPM2_PCR_Read commands, each of which may answer only part of what is
    still asked for. */
module PcrDump {
  import opened Common
  import opened Callbacks
  import opened PcrBits
  import opened PcrSelection

  /** The capacity of a TPML_DIGEST. */
  const MAX_DIGESTS: nat := 8

  type DigestBytes = seq<byte>

  /** A line of output: the complaint about a digest's size, a bank heading, or a
      PCR with its digest. */
  datatype Line = Disagree | Bank(alg: u16) | Pcr(pcr: nat, digest: DigestBytes)

  // ---- One callback ----

  /** `callback_data_t` and what has been printed. */
  datatype DumpState = DumpState(
    digestI: nat,
    lastAlg: u16,
    digests: seq<DigestBytes>,
    request: seq<Selection>,
    printed: seq<Line>)

  /** The `i`-th digest buffer; those past the count were zeroed, so are empty. */
  function DigestBuffer(digests: seq<DigestBytes>, i: nat): DigestBytes {
    if i < |digests| then digests[i] else []
  }

  /** What is printed for one PCR of bank `alg` after one of bank `lastAlg`. */
  function LinesFor(lastAlg: u16, p: Pair, digest: DigestBytes): seq<Line> {
    (if AlgSize(p.alg) != |digest| then [Disagree] else [])
    + (if lastAlg != p.alg then [Bank(p.alg)] else [])
    + [Pcr(p.pcr, digest)]
  }

  /** The request with one PCR struck off in every entry for its bank. */
  function Strike(request: seq<Selection>, p: Pair): (r: seq<Selection>)
    ensures |r| == |request|
    ensures IsSelectionList(request) ==> IsSelectionList(r)
  {
    seq(|request|, i requires 0 <= i < |request| => StrikeEntry(request[i], p))
  }

  function StrikeEntry(s: Selection, p: Pair): (r: Selection)
    ensures r.hash == s.hash && |r.bits| == |s.bits|
  {
    if s.hash == p.alg && p.pcr / 8 < |s.bits| then s.(bits := WithDeselected(s.bits, p.pcr)) else s
  }

  /** `selected_digest_callback` as a state transition. */
  function DigestCallback(s: DumpState, p: Pair): (DumpState, bool) {
    var digest := DigestBuffer(s.digests, s.digestI);
    (s.(digestI := s.digestI + 1,
        lastAlg := p.alg,
        request := Strike(s.request, p),
        printed := s.printed + LinesFor(s.lastAlg, p, digest)),
     s.digestI + 1 < |s.digests|)
  }

  /** `callback_data_t`, with the console it prints to. */
  class CallbackData {
    var digestI: nat
    var lastAlg: u16
    var digests: seq<DigestBytes>
    const pcrSelect: PcrSelectionList
    var printed: seq<Line>

    predicate Valid()
      reads this, pcrSelect
    {
      pcrSelect.Valid() && |digests| <= MAX_DIGESTS
    }

    ghost function State(): (s: DumpState)
      requires Valid()
      reads this, pcrSelect, pcrSelect.hash, pcrSelect.pcrSelect
      ensures IsSelectionList(s.request)
    {
      DumpState(digestI, lastAlg, digests, pcrSelect.View(), printed)
    }

    /** `callback_data_t cbdata = { 0, }`. */
    constructor Zeroed(list: PcrSelectionList)
      requires list.Valid()
      ensures Valid() && pcrSelect == list
      ensures digestI == 0 && lastAlg == ALG_ERROR && digests == [] && printed == []
    {
      digestI, lastAlg, digests, printed := 0, ALG_ERROR, [], [];
      pcrSelect := list;
    }

    /** `selected_digest_callback`; without data it ends the walk. */
    static method SelectedDigest(p: Pair, cbdata: CallbackData?) returns (more: bool)
      requires cbdata != null ==> cbdata.Valid() && cbdata.digestI < MAX_DIGESTS
      requires p.pcr < MAX_PCRS
      modifies if cbdata == null then {} else {cbdata, cbdata.pcrSelect.pcrSelect}
      ensures cbdata == null ==> !more
      ensures cbdata != null ==>
        cbdata.Valid() && (cbdata.State(), more) == DigestCallback(old(cbdata.State()), p)
    {
      if cbdata == null {
        return false;
      }
      more := cbdata.ShowDigest(p);
    }

    method ShowDigest(p: Pair) returns (more: bool)
      requires Valid() && digestI < MAX_DIGESTS && p.pcr < MAX_PCRS
      modifies this, pcrSelect.pcrSelect
      ensures Valid() && (State(), more) == DigestCallback(old(State()), p)
    {
      hide Strike, AlgSize;
      var digest := DigestBuffer(digests, digestI);
      digestI := digestI + 1;
      if AlgSize(p.alg) != |digest| {
        printed := printed + [Disagree];
      }
      if lastAlg != p.alg {
        lastAlg := p.alg;
        printed := printed + [Bank(p.alg)];
      }
      printed := printed + [Pcr(p.pcr, digest)];
      assert printed == old(printed) + LinesFor(old(lastAlg), p, digest);
      assert pcrSelect.View() == old(pcrSelect.View());
      StrikeOff(p);
      more := digestI < |digests|;
    }

    method StrikeOff(p: Pair)
      requires Valid() && p.pcr < MAX_PCRS
      modifies pcrSelect.pcrSelect
      ensures pcrSelect.View() == Strike(old(pcrSelect.View()), p)
    {
      hide StrikeEntry, Strike;
      ghost var request := pcrSelect.View();
      StrikeEnds(request, p);
      for i := 0 to pcrSelect.count
        invariant pcrSelect.Valid()
        invariant pcrSelect.View() == Strike(request, p)[..i] + request[i..]
      {
        StrikeStep(request, p, i);
        assert pcrSelect.View()[i].hash == pcrSelect.hash[i];
        if pcrSelect.hash[i] == p.alg {
          pcrSelect.Deselect(i, p.pcr);
        }
      }
    }

    /** `foreach_selection` with `selected_digest_callback` and this data; a
        function value could not update it in place. */
    method ForeachSelection(list: PcrSelectionList)
      requires Valid() && list.Valid()
      requires list != pcrSelect && list.pcrSelect != pcrSelect.pcrSelect
      requires digestI == 0 || digestI < |digests|
      modifies this, pcrSelect.pcrSelect
      ensures Valid() && State() == Feed(Pairs(list.View()), DigestCallback, old(State())).data
    {
      hide ShownFrom, IsSelected, DigestCallback, Pairs, EntryBytes;
      ghost var all, start := list.View(), State();
      ShownAtEnds(all, start);
      for i := 0 to list.count
        invariant Valid() && list.Valid() && list.View() == all
        invariant digestI == 0 || digestI < |digests|
        invariant ShownFrom(all, 0, 0, start) == ShownFrom(all, i, 0, State())
      {
        for pcr := 0 to MAX_PCRS
          invariant Valid() && list.Valid() && list.View() == all
          invariant digestI == 0 || digestI < |digests|
          invariant ShownFrom(all, 0, 0, start) == ShownFrom(all, i, pcr, State())
        {
          ShownStep(all, i, pcr, State());
          if list.IsPcrSelected(i, pcr) {
            var more := ShowSelected(list, i, pcr);
            if !more {
              return;
            }
          }
        }
        ShownAfterEntry(all, i, State());
      }
      ShownAtEnds(all, State());
    }

    /** The innermost step, for a PCR that entry `i` selects. */
    method ShowSelected(list: PcrSelectionList, i: nat, pcr: nat) returns (more: bool)
      requires Valid() && list.Valid() && i < list.count && pcr < MAX_PCRS
      requires list != pcrSelect && list.pcrSelect != pcrSelect.pcrSelect
      requires digestI == 0 || digestI < |digests|
      modifies this, pcrSelect.pcrSelect
      ensures Valid() && list.Valid() && list.View() == old(list.View())
      ensures (State(), more) == DigestCallback(old(State()), Pair(list.View()[i].hash, pcr))
      ensures more ==> digestI < |digests|
    {
      hide EntryBytes, DigestCallback;
      var p := Pair(list.hash[i], pcr);
      CallbackCounts(State(), p);
      more := SelectedDigest(p, this);
    }
  }

  // ---- The walk over a reply ----

  /** The data after what `list` selects from PCR `pcr` of entry `i` on. */
  function ShownFrom(list: seq<Selection>, i: nat, pcr: nat, s: DumpState): DumpState
    requires IsSelectionList(list) && i <= |list| && pcr <= MAX_PCRS
  {
    Feed(PairsAfter(list, i, pcr), DigestCallback, s).data
  }

  lemma ShownAtEnds(list: seq<Selection>, s: DumpState)
    requires IsSelectionList(list)
    ensures ShownFrom(list, 0, 0, s) == Feed(Pairs(list), DigestCallback, s).data
    ensures ShownFrom(list, |list|, 0, s) == s
  {
    hide PairsAfter, DigestCallback;
    PairsAfterEnds(list);
  }

  lemma ShownStep(list: seq<Selection>, i: nat, pcr: nat, s: DumpState)
    requires IsSelectionList(list) && i < |list| && pcr < MAX_PCRS
    ensures ShownFrom(list, i, pcr, s)
         == if IsSelected(list[i].bits, pcr) then
              var (s', more) := DigestCallback(s, Pair(list[i].hash, pcr));
              if more then ShownFrom(list, i, pcr + 1, s') else s'
            else
              ShownFrom(list, i, pcr + 1, s)
  {
    hide PairsAfter, IsSelected, DigestCallback;
    PairsAfterStep(list, i, pcr);
    var left, rest := PairsAfter(list, i, pcr), PairsAfter(list, i, pcr + 1);
    if IsSelected(list[i].bits, pcr) {
      assert left[0] == Pair(list[i].hash, pcr) && left[1..] == rest;
    } else {
      assert left == rest;
    }
  }

  lemma ShownAfterEntry(list: seq<Selection>, i: nat, s: DumpState)
    requires IsSelectionList(list) && i < |list|
    ensures ShownFrom(list, i, MAX_PCRS, s) == ShownFrom(list, i + 1, 0, s)
  {
    hide PairsAfter, Feed;
    PairsAfterEntry(list, i);
  }

  lemma StrikeEnds(request: seq<Selection>, p: Pair)
    ensures Strike(request, p)[..0] + request[0..] == request
    ensures Strike(request, p)[..|request|] + request[|request|..] == Strike(request, p)
  {
  }

  lemma StrikeStep(request: seq<Selection>, p: Pair, i: nat)
    requires i < |request| && IsSelectionList(request) && p.pcr < MAX_PCRS
    ensures var list := Strike(request, p)[..i] + request[i..];
      && IsSelectionList(list) && list[i] == request[i]
      && Strike(request, p)[..i + 1] + request[i + 1..]
         == if list[i].hash == p.alg
            then list[i := list[i].(bits := WithDeselected(list[i].bits, p.pcr))] else list
  {
    hide WithDeselected;
  }

  lemma CallbackCounts(s: DumpState, p: Pair)
    ensures DigestCallback(s, p).1 ==> DigestCallback(s, p).0.digestI < |DigestCallback(s, p).0.digests|
  {
  }
}
