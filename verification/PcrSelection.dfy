/** Lists of PCR selections (TPML_PCR_SELECTION) and the walk over their set bits
    (`example/util.c`). */
module PcrSelection {
  import opened Common
  import opened Callbacks
  import opened PcrBits
  import opened BankBitmap

  const MAX_SELECTIONS: nat := 16
  const PCR_SELECT_BYTES: nat := 4
  const MAX_PCRS: nat := 32
  /** The bytes, and so the PCRs, that the dump asks for in each bank. */
  const SELECTED_BYTES: nat := 3
  const SELECTED_PCRS: nat := 24

  datatype Selection = Selection(hash: u16, bits: seq<bv8>)
  datatype Pair = Pair(alg: u16, pcr: nat)

  /** A selection list as the program holds it: each bitmap takes four bytes. */
  predicate IsSelectionList(list: seq<Selection>) {
    |list| <= MAX_SELECTIONS && forall i :: 0 <= i < |list| ==> |list[i].bits| == PCR_SELECT_BYTES
  }

  /** The set bits of one selection from `pcr` on, ascending. */
  function PcrsFrom(s: Selection, pcr: nat): seq<Pair>
    requires |s.bits| == PCR_SELECT_BYTES && pcr <= MAX_PCRS
    decreases MAX_PCRS - pcr
  {
    if pcr == MAX_PCRS then []
    else (if IsSelected(s.bits, pcr) then [Pair(s.hash, pcr)] else []) + PcrsFrom(s, pcr + 1)
  }

  /** The set (hash, pcr) pairs, in entry order and then ascending. */
  function Pairs(list: seq<Selection>): seq<Pair>
    requires forall i :: 0 <= i < |list| ==> |list[i].bits| == PCR_SELECT_BYTES
  {
    if list == [] then [] else PcrsFrom(list[0], 0) + Pairs(list[1..])
  }

  /** What is left of `Pairs` at PCR `pcr` of entry `i`. */
  function PairsAfter(list: seq<Selection>, i: nat, pcr: nat): seq<Pair>
    requires IsSelectionList(list) && i <= |list| && pcr <= MAX_PCRS
  {
    if i == |list| then [] else PcrsFrom(list[i], pcr) + Pairs(list[i + 1..])
  }

  /** A pair occurs exactly when some entry for its bank selects its PCR. */
  lemma {:induction false} PcrsFromContains(s: Selection, pcr: nat, p: Pair)
    requires |s.bits| == PCR_SELECT_BYTES && pcr <= MAX_PCRS
    ensures p in PcrsFrom(s, pcr) <==>
      p.alg == s.hash && pcr <= p.pcr < MAX_PCRS && IsSelected(s.bits, p.pcr)
    decreases MAX_PCRS - pcr
  {
    hide IsSelected;
    if pcr < MAX_PCRS {
      PcrsFromContains(s, pcr + 1, p);
    }
  }

  lemma {:induction false} PairsContains(list: seq<Selection>, p: Pair)
    requires forall i :: 0 <= i < |list| ==> |list[i].bits| == PCR_SELECT_BYTES
    ensures p in Pairs(list) <==>
      p.pcr < MAX_PCRS && exists i :: 0 <= i < |list| && list[i].hash == p.alg && IsSelected(list[i].bits, p.pcr)
    decreases |list|
  {
    hide IsSelected, PcrsFrom;
    if list != [] {
      PcrsFromContains(list[0], 0, p);
      PairsContains(list[1..], p);
      assert forall i :: 0 < i < |list| ==> list[i] == list[1..][i - 1];
    }
  }

  predicate Lower(p: Pair, q: Pair) {
    p.pcr < q.pcr
  }

  predicate Ascend(ps: seq<Pair>) {
    forall j, k :: 0 <= j < k < |ps| ==> Lower(ps[j], ps[k])
  }

  lemma AscendCons(p: Pair, rest: seq<Pair>)
    requires Ascend(rest) && forall q :: q in rest ==> Lower(p, q)
    ensures Ascend([p] + rest)
  {
    hide Lower;
    var ps := [p] + rest;
    forall j, k | 0 <= j < k < |ps| ensures Lower(ps[j], ps[k]) {
      assert ps[k] == rest[k - 1];
      if j > 0 {
        assert ps[j] == rest[j - 1];
      }
    }
  }

  /** The pairs of an entry come in ascending order. */
  lemma {:induction false} PcrsFromAscend(s: Selection, pcr: nat)
    requires |s.bits| == PCR_SELECT_BYTES && pcr <= MAX_PCRS
    ensures Ascend(PcrsFrom(s, pcr))
    decreases MAX_PCRS - pcr
  {
    hide IsSelected, Ascend;
    if pcr < MAX_PCRS {
      var p, rest := Pair(s.hash, pcr), PcrsFrom(s, pcr + 1);
      PcrsFromAscend(s, pcr + 1);
      forall q | q in rest ensures Lower(p, q) {
        PcrsFromContains(s, pcr + 1, q);
      }
      AscendCons(p, rest);
      assert [] + rest == rest;
    } else {
      NoneAscend();
    }
  }

  lemma NoneAscend()
    ensures Ascend([])
  {
  }

  /** And the entries in their own order, each whole. */
  lemma {:induction false} PairsConcat(list: seq<Selection>, rest: seq<Selection>)
    requires forall i :: 0 <= i < |list| ==> |list[i].bits| == PCR_SELECT_BYTES
    requires forall i :: 0 <= i < |rest| ==> |rest[i].bits| == PCR_SELECT_BYTES
    ensures Pairs(list + rest) == Pairs(list) + Pairs(rest)
    decreases |list|
  {
    hide PcrsFrom;
    if list == [] {
      assert list + rest == rest;
    } else {
      PairsConcat(list[1..], rest);
      assert (list + rest)[1..] == list[1..] + rest;
      ConcatAssociates(PcrsFrom(list[0], 0), Pairs(list[1..]), Pairs(rest));
    }
  }

  // ---- Lists on the wire ----

  /** A list in a command or reply of the dump: its bitmaps take three bytes. */
  predicate IsWireList(list: seq<Selection>) {
    |list| <= MAX_SELECTIONS && forall i :: 0 <= i < |list| ==> |list[i].bits| == SELECTED_BYTES
  }

  /** No bitmap selects a PCR in its fourth byte. */
  predicate TopClear(list: seq<Selection>)
    requires IsSelectionList(list)
  {
    forall i :: 0 <= i < |list| ==> list[i].bits[SELECTED_BYTES] == 0
  }

  /** What a command carries of a list: the first three bytes of each bitmap. */
  function Sent(list: seq<Selection>): (wire: seq<Selection>)
    requires IsSelectionList(list)
    ensures IsWireList(wire) && |wire| == |list|
  {
    seq(|list|, i requires 0 <= i < |list| => list[i].(bits := list[i].bits[..SELECTED_BYTES]))
  }

  /** What a list on the wire selects: nothing beyond its three bytes. */
  function Received(wire: seq<Selection>): (list: seq<Selection>)
    requires IsWireList(wire)
    ensures IsSelectionList(list) && |list| == |wire| && TopClear(list)
  {
    seq(|wire|, i requires 0 <= i < |wire| => wire[i].(bits := wire[i].bits + [0]))
  }

  /** Nothing is lost on the wire exactly when the fourth bytes are zero. */
  lemma SentIsAllIff(list: seq<Selection>)
    requires IsSelectionList(list)
    ensures Received(Sent(list)) == list <==> TopClear(list)
  {
    var back := Received(Sent(list));
    assert forall i :: 0 <= i < |list| ==>
      back[i].hash == list[i].hash && back[i].bits == list[i].bits[..SELECTED_BYTES] + [0];
    if TopClear(list) {
      forall i | 0 <= i < |list| ensures back[i] == list[i] {
        assert list[i].bits == list[i].bits[..SELECTED_BYTES] + [list[i].bits[SELECTED_BYTES]];
      }
    }
  }

  // ---- The list in memory ----

  /** The four bytes of entry `i`. */
  function EntryBytes(bytes: seq<bv8>, i: nat): (bits: seq<bv8>)
    requires i < MAX_SELECTIONS && |bytes| == MAX_SELECTIONS * PCR_SELECT_BYTES
    ensures |bits| == PCR_SELECT_BYTES
  {
    bytes[PCR_SELECT_BYTES * i..PCR_SELECT_BYTES * (i + 1)]
  }

  /** The selections in the parallel arrays of a list of `count` entries. */
  function Entries(count: nat, hash: seq<u16>, bytes: seq<bv8>): (list: seq<Selection>)
    requires count <= MAX_SELECTIONS == |hash| && |bytes| == MAX_SELECTIONS * PCR_SELECT_BYTES
    ensures IsSelectionList(list) && |list| == count
  {
    seq(count, i requires 0 <= i < count =>
      Selection(hash[i], EntryBytes(bytes, i)))
  }

  /** What a command carries: as many bytes of each bitmap as its size says. */
  function Marshalled(count: nat, hash: seq<u16>, sizes: seq<byte>, bytes: seq<bv8>): (wire: seq<Selection>)
    requires count <= MAX_SELECTIONS == |hash| == |sizes| && |bytes| == MAX_SELECTIONS * PCR_SELECT_BYTES
    requires forall i :: 0 <= i < count ==> sizes[i] <= PCR_SELECT_BYTES
    ensures |wire| == count
    ensures (forall i :: 0 <= i < count ==> sizes[i] == SELECTED_BYTES) ==>
      wire == Sent(Entries(count, hash, bytes))
  {
    seq(count, i requires 0 <= i < count => Selection(hash[i], EntryBytes(bytes, i)[..sizes[i]]))
  }

  /** The bytes after `bits` are written to the bitmap of entry `i`. */
  function StoredBytes(bytes: seq<bv8>, i: nat, bits: seq<bv8>): (r: seq<bv8>)
    ensures |r| == |bytes|
  {
    seq(|bytes|, k requires 0 <= k < |bytes| =>
      if PCR_SELECT_BYTES * i <= k < PCR_SELECT_BYTES * i + |bits| then bits[k - PCR_SELECT_BYTES * i] else bytes[k])
  }

  lemma StoredEntryBytes(bytes: seq<bv8>, i: nat, bits: seq<bv8>, j: nat)
    requires i < MAX_SELECTIONS && j < MAX_SELECTIONS && |bytes| == MAX_SELECTIONS * PCR_SELECT_BYTES
    requires |bits| <= PCR_SELECT_BYTES
    ensures EntryBytes(StoredBytes(bytes, i, bits), j)
         == if j == i then bits + EntryBytes(bytes, i)[|bits|..] else EntryBytes(bytes, j)
  {
  }

  /** The fourth byte of every entry is zero, beyond the count as well. */
  predicate FourthBytesClear(bytes: seq<bv8>)
    requires |bytes| == MAX_SELECTIONS * PCR_SELECT_BYTES
  {
    forall i: nat | i < MAX_SELECTIONS :: EntryBytes(bytes, i)[SELECTED_BYTES] == 0
  }

  /** The bytes with a bit cleared in the bitmap of entry `i`. */
  function DeselectedBytes(bytes: seq<bv8>, i: nat, pcr: nat): (r: seq<bv8>)
    requires i < MAX_SELECTIONS && |bytes| == MAX_SELECTIONS * PCR_SELECT_BYTES && pcr < MAX_PCRS
    ensures |r| == |bytes|
  {
    var offset := PCR_SELECT_BYTES * i;
    bytes[..offset] + WithDeselected(bytes[offset..], pcr)
  }

  lemma DeselectedEntryBytes(bytes: seq<bv8>, i: nat, pcr: nat, j: nat)
    requires i < MAX_SELECTIONS && |bytes| == MAX_SELECTIONS * PCR_SELECT_BYTES && pcr < MAX_PCRS
    requires j < MAX_SELECTIONS
    ensures EntryBytes(DeselectedBytes(bytes, i, pcr), j)
         == if j == i then WithDeselected(EntryBytes(bytes, i), pcr) else EntryBytes(bytes, j)
  {
    hide Mask;
    var offset := PCR_SELECT_BYTES * i;
    var bytes' := DeselectedBytes(bytes, i, pcr);
    forall k: nat | k < PCR_SELECT_BYTES && j == i
      ensures EntryBytes(bytes', i)[k] == WithDeselected(EntryBytes(bytes, i), pcr)[k]
    {
      assert bytes'[offset + k] == WithDeselected(bytes[offset..], pcr)[k];
    }
  }

  /** One entry's bitmap changes when a bit is cleared from its offset on. */
  lemma DeselectedEntries(count: nat, hash: seq<u16>, bytes: seq<bv8>, i: nat, pcr: nat)
    requires i < count <= MAX_SELECTIONS == |hash| && |bytes| == MAX_SELECTIONS * PCR_SELECT_BYTES && pcr < MAX_PCRS
    ensures var list := Entries(count, hash, bytes);
      Entries(count, hash, DeselectedBytes(bytes, i, pcr))
      == list[i := list[i].(bits := WithDeselected(list[i].bits, pcr))]
  {
    hide EntryBytes, WithDeselected, DeselectedBytes;
    forall j: nat | j < count
      ensures EntryBytes(DeselectedBytes(bytes, i, pcr), j)
           == if j == i then WithDeselected(EntryBytes(bytes, i), pcr) else EntryBytes(bytes, j)
    {
      DeselectedEntryBytes(bytes, i, pcr, j);
    }
  }

  /** The bytes once entry `i` selects PCRs 0 to 23. */
  function SelectingEntry(bytes: seq<bv8>, i: nat): seq<bv8> {
    seq(|bytes|, k requires 0 <= k < |bytes| =>
      if PCR_SELECT_BYTES * i <= k < PCR_SELECT_BYTES * i + SELECTED_BYTES then 0xff else bytes[k])
  }

  /** The bytes once the first `n` entries do. */
  function SelectingAll(bytes: seq<bv8>, n: nat): seq<bv8> {
    seq(|bytes|, k requires 0 <= k < |bytes| =>
      if k < PCR_SELECT_BYTES * n && k % PCR_SELECT_BYTES < SELECTED_BYTES then 0xff else bytes[k])
  }

  lemma SelectingAllEntry(bytes: seq<bv8>, n: nat, i: nat)
    requires |bytes| == MAX_SELECTIONS * PCR_SELECT_BYTES && i < MAX_SELECTIONS
    ensures EntryBytes(SelectingAll(bytes, n), i)
         == if i < n then [0xff, 0xff, 0xff, EntryBytes(bytes, i)[3]] else EntryBytes(bytes, i)
  {
    var all := SelectingAll(bytes, n);
    var bits := EntryBytes(all, i);
    assert bits[0] == all[4 * i] && bits[1] == all[4 * i + 1];
    assert bits[2] == all[4 * i + 2] && bits[3] == all[4 * i + 3];
    assert EntryBytes(bytes, i)[3] == bytes[4 * i + 3];
  }

  lemma SelectingNone(bytes: seq<bv8>)
    ensures SelectingAll(bytes, 0) == bytes
  {
  }

  lemma SelectingAllStep(bytes: seq<bv8>, soFar: seq<bv8>, n: nat)
    requires soFar == SelectingAll(bytes, n)
    ensures SelectingEntry(soFar, n) == SelectingAll(bytes, n + 1)
  {
  }

  /** TPML_PCR_SELECTION: `pcrSelections[i]` is index `i` of `hash` and of
      `sizeofSelect`, and four bytes of `pcrSelect` from `4 * i` on. */
  class PcrSelectionList {
    var count: nat
    const hash: array<u16>
    const sizeofSelect: array<byte>
    const pcrSelect: array<bv8>

    predicate Valid()
      reads this
    {
      && count <= MAX_SELECTIONS == hash.Length == sizeofSelect.Length
      && pcrSelect.Length == MAX_SELECTIONS * PCR_SELECT_BYTES
      && hash as object != sizeofSelect && hash as object != pcrSelect && sizeofSelect as object != pcrSelect
    }

    function View(): (list: seq<Selection>)
      requires Valid()
      reads this, hash, pcrSelect
      ensures IsSelectionList(list) && |list| == count
    {
      Entries(count, hash[..], pcrSelect[..])
    }

    /** `TPML_PCR_SELECTION x = { 0, }`. */
    constructor Zeroed()
      ensures Valid() && fresh(hash) && fresh(sizeofSelect) && fresh(pcrSelect)
      ensures count == 0
      ensures hash.Length == sizeofSelect.Length == 16 && pcrSelect.Length == 64
      ensures forall i :: 0 <= i < MAX_SELECTIONS ==> hash[i] == 0 && sizeofSelect[i] == 0
      ensures forall i :: 0 <= i < pcrSelect.Length ==> pcrSelect[i] == 0
    {
      count := 0;
      hash := new u16[MAX_SELECTIONS](_ => 0);
      sizeofSelect := new byte[MAX_SELECTIONS](_ => 0);
      pcrSelect := new bv8[MAX_SELECTIONS * PCR_SELECT_BYTES](_ => 0);
    }

    /** What a command carries of the list. */
    function Marshal(): (wire: seq<Selection>)
      requires Valid() && forall i :: 0 <= i < count ==> sizeofSelect[i] <= PCR_SELECT_BYTES
      reads this, hash, sizeofSelect, pcrSelect
      ensures (forall i :: 0 <= i < count ==> sizeofSelect[i] == SELECTED_BYTES) ==> wire == Sent(View())
      ensures |wire| == count
      ensures forall i :: 0 <= i < count ==>
        wire[i].hash == hash[i] && wire[i].bits == pcrSelect[4 * i..4 * i + sizeofSelect[i]]
    {
      Marshalled(count, hash[..], sizeofSelect[..], pcrSelect[..])
    }

    /** Receives a list from a reply: of each bitmap only the bytes that were sent
        are written, the others keep what an earlier reply left there. */
    method Store(list: seq<Selection>)
      requires Valid() && |list| <= MAX_SELECTIONS
      requires forall i :: 0 <= i < |list| ==> |list[i].bits| <= PCR_SELECT_BYTES
      modifies this, hash, sizeofSelect, pcrSelect
      ensures Valid() && count == |list|
      ensures forall i :: 0 <= i < |list| ==> hash[i] == list[i].hash && sizeofSelect[i] == |list[i].bits|
      ensures forall i: nat | i < MAX_SELECTIONS ::
        EntryBytes(pcrSelect[..], i)
        == if i < |list| then list[i].bits + EntryBytes(old(pcrSelect[..]), i)[|list[i].bits|..]
           else EntryBytes(old(pcrSelect[..]), i)
    {
      hide EntryBytes, StoredBytes;
      count := |list|;
      for i := 0 to count
        invariant Valid() && count == |list|
        invariant forall j :: 0 <= j < i ==> hash[j] == list[j].hash && sizeofSelect[j] == |list[j].bits|
        invariant forall j: nat | j < MAX_SELECTIONS ::
          EntryBytes(pcrSelect[..], j)
          == if j < i then list[j].bits + EntryBytes(old(pcrSelect[..]), j)[|list[j].bits|..]
             else EntryBytes(old(pcrSelect[..]), j)
      {
        hash[i] := list[i].hash;
        sizeofSelect[i] := |list[i].bits|;
        ghost var before := pcrSelect[..];
        StoreBytes(i, list[i].bits);
        forall j: nat | j < MAX_SELECTIONS
          ensures EntryBytes(pcrSelect[..], j)
               == if j == i then list[i].bits + EntryBytes(before, i)[|list[i].bits|..] else EntryBytes(before, j)
        {
          StoredEntryBytes(before, i, list[i].bits, j);
        }
      }
    }

    method StoreBytes(i: nat, bits: seq<bv8>)
      requires Valid() && i < MAX_SELECTIONS && |bits| <= PCR_SELECT_BYTES
      modifies pcrSelect
      ensures pcrSelect[..] == StoredBytes(old(pcrSelect[..]), i, bits)
    {
      for k := 0 to |bits|
        invariant forall j :: 0 <= j < pcrSelect.Length ==>
          pcrSelect[j] == if PCR_SELECT_BYTES * i <= j < PCR_SELECT_BYTES * i + k
                          then bits[j - PCR_SELECT_BYTES * i] else old(pcrSelect[j])
      {
        pcrSelect[PCR_SELECT_BYTES * i + k] := bits[k];
      }
    }

    /** With the fourth bytes zero from the start, a stored reply selects just what
        it selects on the wire, and they stay zero. */
    method StoreReply(wire: seq<Selection>)
      requires Valid() && IsWireList(wire) && FourthBytesClear(pcrSelect[..])
      modifies this, hash, sizeofSelect, pcrSelect
      ensures Valid() && View() == Received(wire) && FourthBytesClear(pcrSelect[..])
    {
      hide EntryBytes;
      ghost var before := pcrSelect[..];
      Store(wire);
      forall i: nat | i < |wire| ensures EntryBytes(pcrSelect[..], i) == wire[i].bits + [0] {
        assert EntryBytes(before, i)[SELECTED_BYTES..] == [EntryBytes(before, i)[SELECTED_BYTES]];
      }
    }

    /** `deselect_pcr` on entry `i`. */
    method Deselect(i: nat, pcr: nat)
      requires Valid() && i < count && pcr < MAX_PCRS
      modifies pcrSelect
      ensures View() == old(View())[i := old(View())[i].(bits := WithDeselected(old(View())[i].bits, pcr))]
    {
      DeselectedEntries(count, hash[..], pcrSelect[..], i, pcr);
      DeselectPcr(pcrSelect, PCR_SELECT_BYTES * i, pcr);
    }

    /** `select_all_active_pcrs`: one entry per set bit, each selecting PCRs 0 to
        23 in its first three bytes. The leading entries name the known active
        algorithms; the hash of any further entry, the fourth byte of every
        bitmap and all entries past the count stay as they were. */
    method SelectAllActivePcrs(activeBanks: bv32)
      requires Valid()
      requires OneBits(activeBanks) <= MAX_SELECTIONS
      modifies this, hash, sizeofSelect, pcrSelect
      ensures Valid() && count == OneBits(activeBanks)
      ensures forall i :: 0 <= i < count ==> sizeofSelect[i] == SELECTED_BYTES
      ensures forall i :: count <= i < MAX_SELECTIONS ==> sizeofSelect[i] == old(sizeofSelect[i])
      ensures forall i :: 0 <= i < MAX_SELECTIONS ==>
        hash[i] == if i < |KnownAlgs(activeBanks)| then KnownAlgs(activeBanks)[i] else old(hash[i])
      ensures pcrSelect[..] == SelectingAll(old(pcrSelect[..]), count)
      ensures forall i: nat | i < MAX_SELECTIONS ::
        EntryBytes(pcrSelect[..], i)
        == if i < count then [0xff, 0xff, 0xff, EntryBytes(old(pcrSelect[..]), i)[3]]
           else EntryBytes(old(pcrSelect[..]), i)
    {
      hide KnownAlgs, OneBits, SelectingAll, EntryBytes;
      var banks := activeBanks;
      SelectingNone(pcrSelect[..]);
      ghost var known := KnownAlgs(activeBanks);
      KnownAlgsCount(activeBanks);
      count := CountAlgsInBitmap(banks);
      for i := 0 to count
        invariant Valid() && count == OneBits(activeBanks)
        invariant KnownAlgs(banks) == if i < |known| then known[i..] else []
        invariant forall j :: 0 <= j < i ==> sizeofSelect[j] == SELECTED_BYTES
        invariant forall j :: i <= j < MAX_SELECTIONS ==> sizeofSelect[j] == old(sizeofSelect[j])
        invariant forall j :: 0 <= j < MAX_SELECTIONS ==>
          hash[j] == if j < i && j < |known| then known[j] else old(hash[j])
        invariant pcrSelect[..] == SelectingAll(old(pcrSelect[..]), i)
      {
        SelectingAllStep(old(pcrSelect[..]), pcrSelect[..], i);
        sizeofSelect[i] := SELECTED_BYTES;
        SetBytes(i);
        banks := NameBank(i, banks);
      }
      forall i: nat | i < MAX_SELECTIONS
        ensures EntryBytes(pcrSelect[..], i)
             == if i < count then [0xff, 0xff, 0xff, EntryBytes(old(pcrSelect[..]), i)[3]]
                else EntryBytes(old(pcrSelect[..]), i)
      {
        SelectingAllEntry(old(pcrSelect[..]), count, i);
      }
    }

    /** The `memset` of one entry's first three bytes. */
    method SetBytes(i: nat)
      requires Valid() && i < MAX_SELECTIONS
      modifies pcrSelect
      ensures pcrSelect[..] == SelectingEntry(old(pcrSelect[..]), i)
    {
      for k := 0 to SELECTED_BYTES
        invariant forall j :: 0 <= j < pcrSelect.Length ==>
          pcrSelect[j] == if PCR_SELECT_BYTES * i <= j < PCR_SELECT_BYTES * i + k
                          then 0xff else old(pcrSelect[j])
      {
        pcrSelect[PCR_SELECT_BYTES * i + k] := 0xff;
      }
    }

    /** The chain of bank tests: the lowest known bank left names entry `i` and is
        struck off; without one the entry keeps its hash. */
    method NameBank(i: nat, banks: bv32) returns (rest: bv32)
      requires Valid() && i < MAX_SELECTIONS
      modifies hash
      ensures KnownAlgs(rest) == if KnownAlgs(banks) == [] then [] else KnownAlgs(banks)[1..]
      ensures forall j :: 0 <= j < MAX_SELECTIONS ==>
        hash[j] == if j == i && KnownAlgs(banks) != [] then KnownAlgs(banks)[0] else old(hash[j])
    {
      hide KnownFrom, Bit;
      MaskTests(banks);
      if banks & 0x01 != 0 {
        ClearLowestBank(banks, 0);
        hash[i] := ALG_SHA1;
        return banks & !0x01;
      }
      if banks & 0x02 != 0 {
        ClearLowestBank(banks, 1);
        hash[i] := ALG_SHA256;
        return banks & !0x02;
      }
      if banks & 0x04 != 0 {
        ClearLowestBank(banks, 2);
        hash[i] := ALG_SHA384;
        return banks & !0x04;
      }
      if banks & 0x08 != 0 {
        ClearLowestBank(banks, 3);
        hash[i] := ALG_SHA512;
        return banks & !0x08;
      }
      if banks & 0x10 != 0 {
        ClearLowestBank(banks, 4);
        hash[i] := ALG_SM3_256;
        return banks & !0x10;
      }
      KnownFromSkips(banks, 0, KNOWN_BANKS);
      return banks;
    }

    /** `foreach_selection`, for any callback that leaves the list alone: the
        callback sees the set pairs in order, up to the first it rejects. */
    method ForeachSelection<S>(callback: (S, Pair) -> (S, bool), data: S)
      returns (data': S, ghost seen: nat)
      requires Valid()
      ensures data' == Feed(Pairs(View()), callback, data).data
      ensures seen == Feed(Pairs(View()), callback, data).seen
    {
      hide PairsAfter, Pairs, PcrsFrom, IsSelected, Mask;
      ghost var list := View();
      PairsAfterEnds(list);
      data', seen := data, 0;
      for i := 0 to count
        invariant Feed(Pairs(list), callback, data) == Later(seen, Feed(PairsAfter(list, i, 0), callback, data'))
      {
        for pcr := 0 to MAX_PCRS
          invariant Feed(Pairs(list), callback, data) == Later(seen, Feed(PairsAfter(list, i, pcr), callback, data'))
        {
          ghost var left, rest := PairsAfter(list, i, pcr), PairsAfter(list, i, pcr + 1);
          PairsAfterStep(list, i, pcr);
          if IsPcrSelected(i, pcr) {
            var answer := callback(data', Pair(hash[i], pcr));
            assert left[0] == Pair(hash[i], pcr) && left[1..] == rest;
            data', seen := answer.0, seen + 1;
            if !answer.1 {
              return;
            }
          } else {
            assert left == rest;
          }
        }
        PairsAfterEntry(list, i);
      }
    }

    /** `is_pcr_selected` on entry `i`. */
    predicate IsPcrSelected(i: nat, pcr: nat): (selected: bool)
      requires Valid() && i < count && pcr < MAX_PCRS
      reads this, hash, pcrSelect
      ensures selected == IsSelected(View()[i].bits, pcr)
    {
      pcrSelect[PCR_SELECT_BYTES * i + pcr / 8] & Mask(pcr % 8) != 0
    }
  }

  lemma PairsAfterEnds(list: seq<Selection>)
    requires IsSelectionList(list)
    ensures PairsAfter(list, 0, 0) == Pairs(list) && PairsAfter(list, |list|, 0) == []
  {
  }

  lemma PairsAfterStep(list: seq<Selection>, i: nat, pcr: nat)
    requires IsSelectionList(list) && i < |list| && pcr < MAX_PCRS
    ensures PairsAfter(list, i, pcr)
         == (if IsSelected(list[i].bits, pcr) then [Pair(list[i].hash, pcr)] else []) + PairsAfter(list, i, pcr + 1)
  {
  }

  lemma PairsAfterEntry(list: seq<Selection>, i: nat)
    requires IsSelectionList(list) && i < |list|
    ensures PairsAfter(list, i, MAX_PCRS) == PairsAfter(list, i + 1, 0)
  {
    if i + 1 < |list| {
      assert list[i + 1..][1..] == list[i + 2..];
    }
  }
}
