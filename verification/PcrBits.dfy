/** PCR selection bitmaps (`pcrSelect`), bit by bit and as sets of PCR indices. */
module PcrBits {

  function Mask(i: nat): bv8
    requires i < 8
  {
    (1 as bv8) << i
  }

  /** `is_pcr_selected`. */
  predicate IsSelected(bits: seq<bv8>, pcr: nat)
    requires pcr / 8 < |bits|
  {
    bits[pcr / 8] & Mask(pcr % 8) != 0
  }

  function WithSelected(bits: seq<bv8>, pcr: nat): (r: seq<bv8>)
    requires pcr / 8 < |bits|
    ensures |r| == |bits|
  {
    bits[pcr / 8 := bits[pcr / 8] | Mask(pcr % 8)]
  }

  function WithDeselected(bits: seq<bv8>, pcr: nat): (r: seq<bv8>)
    requires pcr / 8 < |bits|
    ensures |r| == |bits|
  {
    bits[pcr / 8 := bits[pcr / 8] & !Mask(pcr % 8)]
  }

  /** `select_pcr` on the bitmap at `a + offset`: one bit of one byte changes. */
  method SelectPcr(a: array<bv8>, offset: nat, pcr: nat)
    requires offset + pcr / 8 < a.Length
    modifies a
    ensures a[..] == old(a[..])[..offset] + WithSelected(old(a[..])[offset..], pcr)
  {
    a[offset + pcr / 8] := a[offset + pcr / 8] | Mask(pcr % 8);
  }

  /** `deselect_pcr` on the bitmap at `a + offset`. */
  method DeselectPcr(a: array<bv8>, offset: nat, pcr: nat)
    requires offset + pcr / 8 < a.Length
    modifies a
    ensures a[..] == old(a[..])[..offset] + WithDeselected(old(a[..])[offset..], pcr)
  {
    a[offset + pcr / 8] := a[offset + pcr / 8] & !Mask(pcr % 8);
  }

  // ---- Bitmaps as sets ----

  lemma MaskValues()
    ensures Mask(0) == 1 && Mask(1) == 2 && Mask(2) == 4 && Mask(3) == 8
    ensures Mask(4) == 16 && Mask(5) == 32 && Mask(6) == 64 && Mask(7) == 128
  {
  }

  /** The bitmap with a single bit: bit `i` of byte `k` is PCR `8 * k + i`. */
  lemma SingleBit(length: nat, k: nat, i: nat)
    requires k < length && i < 8
    ensures var bit: bv8 := [1, 2, 4, 8, 16, 32, 64, 128][i];
      Members(seq(length, _ => 0)[k := bit]) == {8 * k + i}
  {
    var bit: bv8 := [1, 2, 4, 8, 16, 32, 64, 128][i];
    var bits: seq<bv8> := seq(length, _ => 0)[k := bit];
    forall pcr: nat | pcr < 8 * length ensures IsSelected(bits, pcr) <==> pcr == 8 * k + i {
      BitOfMask(i, pcr % 8);
    }
  }

  lemma BitOfMask(i: nat, j: nat)
    requires i < 8 && j < 8
    ensures var bit: bv8 := [1, 2, 4, 8, 16, 32, 64, 128][i];
      bit & Mask(j) != 0 <==> i == j
    ensures (0 as bv8) & Mask(j) == 0
  {
    MaskValues();
  }

  lemma ByteBits(b: bv8, i: nat, j: nat)
    requires i < 8 && j < 8
    ensures ((b | Mask(i)) & Mask(j) != 0) <==> (i == j || b & Mask(j) != 0)
    ensures ((b & !Mask(i)) & Mask(j) != 0) <==> (i != j && b & Mask(j) != 0)
  {
    MaskValues();
  }

  lemma BytesEqualBits(b: bv8, c: bv8)
    requires forall i: nat | i < 8 :: (b & Mask(i) != 0) <==> (c & Mask(i) != 0)
    ensures b == c
  {
    MaskValues();
    assert (b & Mask(0) != 0) <==> (c & Mask(0) != 0);
    assert (b & Mask(1) != 0) <==> (c & Mask(1) != 0);
    assert (b & Mask(2) != 0) <==> (c & Mask(2) != 0);
    assert (b & Mask(3) != 0) <==> (c & Mask(3) != 0);
    assert (b & Mask(4) != 0) <==> (c & Mask(4) != 0);
    assert (b & Mask(5) != 0) <==> (c & Mask(5) != 0);
    assert (b & Mask(6) != 0) <==> (c & Mask(6) != 0);
    assert (b & Mask(7) != 0) <==> (c & Mask(7) != 0);
  }

  /** The PCRs a bitmap selects. */
  function Members(bits: seq<bv8>): set<nat> {
    set pcr: nat | pcr < 8 * |bits| && IsSelected(bits, pcr)
  }

  lemma SelectInserts(bits: seq<bv8>, pcr: nat)
    requires pcr / 8 < |bits|
    ensures Members(WithSelected(bits, pcr)) == Members(bits) + {pcr}
  {
    forall q: nat | q < 8 * |bits|
      ensures IsSelected(WithSelected(bits, pcr), q) <==> q == pcr || IsSelected(bits, q)
    {
      ByteBits(bits[pcr / 8], pcr % 8, q % 8);
    }
  }

  lemma DeselectRemoves(bits: seq<bv8>, pcr: nat)
    requires pcr / 8 < |bits|
    ensures Members(WithDeselected(bits, pcr)) == Members(bits) - {pcr}
    ensures forall q: nat | q < 8 * |bits| ::
      IsSelected(WithDeselected(bits, pcr), q) <==> q != pcr && IsSelected(bits, q)
  {
    forall q: nat | q < 8 * |bits|
      ensures IsSelected(WithDeselected(bits, pcr), q) <==> q != pcr && IsSelected(bits, q)
    {
      ByteBits(bits[pcr / 8], pcr % 8, q % 8);
    }
  }

  /** Nothing is lost in the set view: bitmaps of one length that select the same
      PCRs are the same bytes. */
  lemma MembersDetermineBits(b: seq<bv8>, c: seq<bv8>)
    requires |b| == |c| && Members(b) == Members(c)
    ensures b == c
  {
    forall k: nat | k < |b| ensures b[k] == c[k] {
      forall i: nat | i < 8 ensures (b[k] & Mask(i) != 0) <==> (c[k] & Mask(i) != 0) {
        var pcr := 8 * k + i;
        assert pcr in Members(b) <==> IsSelected(b, pcr);
        assert pcr in Members(c) <==> IsSelected(c, pcr);
      }
      BytesEqualBits(b[k], c[k]);
    }
  }

  datatype BitOp = Select(pcr: nat) | Deselect(pcr: nat)

  predicate InRange(ops: seq<BitOp>, length: nat) {
    forall k :: 0 <= k < |ops| ==> ops[k].pcr < 8 * length
  }

  function ApplyToBits(bits: seq<bv8>, ops: seq<BitOp>): seq<bv8>
    requires InRange(ops, |bits|)
    decreases ops
  {
    if ops == [] then bits
    else
      var op := ops[0];
      ApplyToBits(if op.Select? then WithSelected(bits, op.pcr) else WithDeselected(bits, op.pcr), ops[1..])
  }

  function ApplyToSet(s: set<nat>, ops: seq<BitOp>): set<nat>
    decreases ops
  {
    if ops == [] then s
    else
      var op := ops[0];
      ApplyToSet(if op.Select? then s + {op.pcr} else s - {op.pcr}, ops[1..])
  }

  /** Bit vectors refine sets: any run of selects and deselects of PCRs in range
      selects what the same inserts and removals leave in a set. */
  lemma {:induction false} BitsRefineSets(bits: seq<bv8>, ops: seq<BitOp>)
    requires InRange(ops, |bits|)
    ensures Members(ApplyToBits(bits, ops)) == ApplyToSet(Members(bits), ops)
    decreases |ops|
  {
    hide Members, WithSelected, WithDeselected;
    if ops != [] {
      var op := ops[0];
      if op.Select? {
        SelectInserts(bits, op.pcr);
        BitsRefineSets(WithSelected(bits, op.pcr), ops[1..]);
      } else {
        DeselectRemoves(bits, op.pcr);
        BitsRefineSets(WithDeselected(bits, op.pcr), ops[1..]);
      }
    }
  }
}
