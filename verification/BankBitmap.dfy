/** The firmware's bitmap of active PCR banks and the algorithms it names. */
module BankBitmap {
  import opened Common

  predicate Bit(b: bv32, i: nat)
    requires i < 32
  {
    (b >> i) & 1 == 1
  }

  /** The one-bits below position `n`. */
  function Ones(b: bv32, n: nat): set<nat>
    requires n <= 32
  {
    set i: nat | i < n && Bit(b, i)
  }

  function OneBits(b: bv32): nat {
    |Ones(b, 32)|
  }

  lemma BitValue(b: bv32, i: nat)
    requires i < 32
    ensures ((b >> i) & 1) as int == if Bit(b, i) then 1 else 0
  {
    var x := (b >> i) & 1;
    assert x == 0 || x == 1;
  }

  lemma OnesStep(b: bv32, n: nat)
    requires n < 32
    ensures |Ones(b, n + 1)| == |Ones(b, n)| + if Bit(b, n) then 1 else 0
  {
    hide Bit;
    if Bit(b, n) {
      assert Ones(b, n + 1) == Ones(b, n) + {n};
    } else {
      assert Ones(b, n + 1) == Ones(b, n);
    }
  }

  /** `count_algs_in_bitmap`. */
  method CountAlgsInBitmap(bitmap: bv32) returns (bitcount: nat)
    ensures bitcount == OneBits(bitmap)
  {
    bitcount := 0;
    for i := 0 to 32
      invariant bitcount == |Ones(bitmap, i)|
    {
      OnesStep(bitmap, i);
      BitValue(bitmap, i);
      bitcount := bitcount + ((bitmap >> i) & 1) as int;
    }
  }

  // ---- The algorithms ----

  const KNOWN_BANKS: nat := 5

  /** The algorithm of a bank, by its bit in the bitmap. */
  function BankAlg(bit: nat): u16
    requires bit < KNOWN_BANKS
  {
    [ALG_SHA1, ALG_SHA256, ALG_SHA384, ALG_SHA512, ALG_SM3_256][bit]
  }

  /** EFI_TCG2_BOOT_HASH_ALG_*: a bank's mask in the bitmap. */
  function BankMask(bit: nat): bv32
    requires bit < KNOWN_BANKS
  {
    match bit
    case 0 => 0x01
    case 1 => 0x02
    case 2 => 0x04
    case 3 => 0x08
    case _ => 0x10
  }

  function KnownFrom(b: bv32, bit: nat): (algs: seq<u16>)
    requires bit <= KNOWN_BANKS
    ensures |algs| <= KNOWN_BANKS - bit
    decreases KNOWN_BANKS - bit
  {
    if bit == KNOWN_BANKS then []
    else (if Bit(b, bit) then [BankAlg(bit)] else []) + KnownFrom(b, bit + 1)
  }

  /** The algorithms of the active banks this program knows, in bit order. */
  function KnownAlgs(b: bv32): (algs: seq<u16>) {
    KnownFrom(b, 0)
  }

  /** Whether the bitmap has the bank of `alg` active. */
  predicate IsActive(b: bv32, alg: u16) {
    exists bit: nat :: bit < KNOWN_BANKS && Bit(b, bit) && BankAlg(bit) == alg
  }

  /** `alg`'s bank bit, above all known ones for an unknown algorithm. */
  function BankBit(alg: u16): nat {
    match alg
    case 0x0004 => 0
    case 0x000B => 1
    case 0x000C => 2
    case 0x000D => 3
    case 0x0012 => 4
    case _ => KNOWN_BANKS
  }

  lemma BankBitInvertsBankAlg(bit: nat)
    requires bit < KNOWN_BANKS
    ensures BankBit(BankAlg(bit)) == bit
  {
  }

  /** The banks of the protocol header's masks and no others. */
  lemma ActiveBanks(b: bv32, alg: u16)
    ensures IsActive(b, alg) <==>
      || (alg == 0x0004 && b & 0x01 != 0)
      || (alg == 0x000B && b & 0x02 != 0)
      || (alg == 0x000C && b & 0x04 != 0)
      || (alg == 0x000D && b & 0x08 != 0)
      || (alg == 0x0012 && b & 0x10 != 0)
  {
    hide Bit;
    MaskTests(b);
    if IsActive(b, alg) {
      var bit: nat :| bit < KNOWN_BANKS && Bit(b, bit) && BankAlg(bit) == alg;
    }
    assert BankAlg(0) == 0x0004 && BankAlg(1) == 0x000B && BankAlg(2) == 0x000C;
    assert BankAlg(3) == 0x000D && BankAlg(4) == 0x0012;
  }

  /** Algorithms in ascending bit order, hence without repeats. */
  predicate Ascending(algs: seq<u16>) {
    forall j, k :: 0 <= j < k < |algs| ==> BankBit(algs[j]) < BankBit(algs[k])
  }

  lemma AscendingCons(alg: u16, rest: seq<u16>)
    requires Ascending(rest) && forall a :: a in rest ==> BankBit(alg) < BankBit(a)
    ensures Ascending([alg] + rest)
  {
    hide BankBit;
    var algs := [alg] + rest;
    forall j, k | 0 <= j < k < |algs| ensures BankBit(algs[j]) < BankBit(algs[k]) {
      assert algs[k] == rest[k - 1];
      if j > 0 {
        assert algs[j] == rest[j - 1];
      }
    }
  }

  lemma KnownFromStep(b: bv32, bit: nat)
    requires bit < KNOWN_BANKS
    ensures KnownFrom(b, bit)
         == if Bit(b, bit) then [BankAlg(bit)] + KnownFrom(b, bit + 1) else KnownFrom(b, bit + 1)
  {
    hide Bit, BankAlg;
  }

  lemma {:induction false} KnownFromAscends(b: bv32, bit: nat)
    requires bit <= KNOWN_BANKS
    ensures Ascending(KnownFrom(b, bit))
    ensures forall alg :: alg in KnownFrom(b, bit) ==> bit <= BankBit(alg) < KNOWN_BANKS
    decreases KNOWN_BANKS - bit
  {
    hide *;
    if bit == KNOWN_BANKS {
      NoneKnown(b);
    } else {
      KnownFromAscends(b, bit + 1);
      KnownFromStep(b, bit);
      BankBitInvertsBankAlg(bit);
      AscendingCons(BankAlg(bit), KnownFrom(b, bit + 1));
    }
  }

  lemma NoneKnown(b: bv32)
    ensures KnownFrom(b, KNOWN_BANKS) == [] && Ascending([])
  {
  }

  lemma {:induction false} KnownFromContains(b: bv32, bit: nat, alg: u16)
    requires bit <= KNOWN_BANKS
    ensures alg in KnownFrom(b, bit) <==>
      exists i: nat :: bit <= i < KNOWN_BANKS && Bit(b, i) && BankAlg(i) == alg
    decreases KNOWN_BANKS - bit
  {
    hide Bit, BankAlg;
    if bit < KNOWN_BANKS {
      KnownFromContains(b, bit + 1, alg);
    }
  }

  /** The known active algorithms are exactly those of the set bits, in ascending
      bit order and hence without repeats. */
  lemma KnownAlgsProperties(b: bv32)
    ensures forall alg :: alg in KnownAlgs(b) <==> IsActive(b, alg)
    ensures forall alg :: alg in KnownAlgs(b) ==> BankBit(alg) < KNOWN_BANKS
    ensures Ascending(KnownAlgs(b))
  {
    hide Bit, KnownFrom;
    KnownFromAscends(b, 0);
    forall alg ensures alg in KnownAlgs(b) <==> IsActive(b, alg) {
      KnownFromContains(b, 0, alg);
    }
  }

  lemma {:induction false} KnownFromCount(b: bv32, bit: nat)
    requires bit <= KNOWN_BANKS
    ensures |KnownFrom(b, bit)| + |Ones(b, bit)| == |Ones(b, KNOWN_BANKS)|
    decreases KNOWN_BANKS - bit
  {
    hide Bit;
    if bit < KNOWN_BANKS {
      OnesStep(b, bit);
      KnownFromCount(b, bit + 1);
    }
  }

  /** There are no more known active algorithms than one-bits. */
  lemma KnownAlgsCount(b: bv32)
    ensures |KnownAlgs(b)| <= OneBits(b)
  {
    KnownFromCount(b, 0);
    OnesMonotone(b, KNOWN_BANKS);
  }

  lemma {:induction false} OnesMonotone(b: bv32, n: nat)
    requires n <= 32
    ensures |Ones(b, n)| <= |Ones(b, 32)|
    decreases 32 - n
  {
    hide Bit;
    if n < 32 {
      OnesStep(b, n);
      OnesMonotone(b, n + 1);
    }
  }

  /** Clearing the lowest known bank drops the first known algorithm. */
  lemma ClearLowestBank(b: bv32, bit: nat)
    requires bit < KNOWN_BANKS
    requires Bit(b, bit) && forall i: nat | i < bit :: !Bit(b, i)
    ensures KnownAlgs(b) == [BankAlg(bit)] + KnownAlgs(b & !BankMask(bit))
  {
    ClearBit(b, bit);
    KnownFromSkips(b, 0, bit);
    KnownFromSkips(b & !BankMask(bit), 0, bit + 1);
    KnownFromAgrees(b, b & !BankMask(bit), bit + 1);
  }

  lemma ClearBit(b: bv32, bit: nat)
    requires bit < KNOWN_BANKS
    ensures forall i: nat | i < KNOWN_BANKS :: Bit(b & !BankMask(bit), i) <==> i != bit && Bit(b, i)
  {
    forall i: nat | i < KNOWN_BANKS
      ensures Bit(b & !BankMask(bit), i) <==> i != bit && Bit(b, i)
    {
      ClearBitAt(b, bit, i);
    }
  }

  lemma ClearBitAt(b: bv32, bit: nat, i: nat)
    requires bit < KNOWN_BANKS && i < KNOWN_BANKS
    ensures Bit(b & !BankMask(bit), i) <==> i != bit && Bit(b, i)
  {
    hide *;
    BankMasksDiffer(bit, i);
    BankMaskTests(b, i);
    BankMaskTests(b & !BankMask(bit), i);
    ClearMask(b, BankMask(bit), BankMask(i));
  }

  predicate IsBankMask(mask: bv32) {
    mask == 0x01 || mask == 0x02 || mask == 0x04 || mask == 0x08 || mask == 0x10
  }

  lemma BankMasksDiffer(i: nat, j: nat)
    requires i < KNOWN_BANKS && j < KNOWN_BANKS
    ensures IsBankMask(BankMask(i)) && IsBankMask(BankMask(j))
    ensures BankMask(i) == BankMask(j) <==> i == j
  {
  }

  lemma BankMaskTests(b: bv32, i: nat)
    requires i < KNOWN_BANKS
    ensures Bit(b, i) <==> b & BankMask(i) != 0
  {
    hide Bit;
    MaskTests(b);
  }

  lemma ClearMask(b: bv32, mask: bv32, other: bv32)
    requires IsBankMask(mask) && IsBankMask(other)
    ensures (b & !mask) & other != 0 <==> mask != other && b & other != 0
  {
  }

  lemma {:induction false} KnownFromSkips(b: bv32, from: nat, to: nat)
    requires from <= to <= KNOWN_BANKS && forall i: nat | from <= i < to :: !Bit(b, i)
    ensures KnownFrom(b, from) == KnownFrom(b, to)
    decreases KNOWN_BANKS - from
  {
    hide Bit;
    if from < to {
      KnownFromSkips(b, from + 1, to);
    }
  }

  lemma {:induction false} KnownFromAgrees(b: bv32, c: bv32, bit: nat)
    requires bit <= KNOWN_BANKS && forall i: nat | bit <= i < KNOWN_BANKS :: Bit(b, i) <==> Bit(c, i)
    ensures KnownFrom(b, bit) == KnownFrom(c, bit)
    decreases KNOWN_BANKS - bit
  {
    hide Bit;
    if bit < KNOWN_BANKS {
      KnownFromAgrees(b, c, bit + 1);
    }
  }

  /** The bank masks of the protocol header are the bits below `KNOWN_BANKS`. */
  lemma MaskTests(b: bv32)
    ensures b & 0x01 != 0 <==> Bit(b, 0)
    ensures b & 0x02 != 0 <==> Bit(b, 1)
    ensures b & 0x04 != 0 <==> Bit(b, 2)
    ensures b & 0x08 != 0 <==> Bit(b, 3)
    ensures b & 0x10 != 0 <==> Bit(b, 4)
  {
  }

  // ---- Single bits ----

  lemma OneBankCounts(b: bv32)
    requires IsBankMask(b)
    ensures OneBits(b) == 1
  {
    hide Bit;
    forall i: nat | i < 32 ensures Bit(b, i) <==> i == BitOf(b) {
      SingleBitAt(b, i);
    }
    assert Ones(b, 32) == {BitOf(b)};
  }

  function BitOf(b: bv32): nat
    requires IsBankMask(b)
  {
    if b == 0x01 then 0 else if b == 0x02 then 1 else if b == 0x04 then 2 else if b == 0x08 then 3 else 4
  }

  lemma SingleBitAt(b: bv32, i: nat)
    requires IsBankMask(b) && i < 32
    ensures Bit(b, i) <==> i == BitOf(b)
  {
    MaskTests(b);
  }

  lemma OneBankNames(b: bv32)
    requires IsBankMask(b)
    ensures KnownAlgs(b) == [BankAlg(BitOf(b))]
  {
    hide Bit, BankAlg;
    SingleBitAt(b, 0);
    SingleBitAt(b, 1);
    SingleBitAt(b, 2);
    SingleBitAt(b, 3);
    SingleBitAt(b, 4);
    KnownFromSkips(b, 0, BitOf(b));
    KnownFromStep(b, BitOf(b));
    KnownFromSkips(b, BitOf(b) + 1, KNOWN_BANKS);
  }

  /** The bitmap contains 2 to the power of `i`. */
  predicate HasPower(b: bv32, i: nat)
    requires i < 32
  {
    match i
    case 0 => b & 0x01 != 0
    case 1 => b & 0x02 != 0
    case 2 => b & 0x04 != 0
    case 3 => b & 0x08 != 0
    case 4 => b & 0x10 != 0
    case 5 => b & 0x20 != 0
    case 6 => b & 0x40 != 0
    case 7 => b & 0x80 != 0
    case 8 => b & 0x100 != 0
    case 9 => b & 0x200 != 0
    case 10 => b & 0x400 != 0
    case 11 => b & 0x800 != 0
    case 12 => b & 0x1000 != 0
    case 13 => b & 0x2000 != 0
    case 14 => b & 0x4000 != 0
    case 15 => b & 0x8000 != 0
    case 16 => b & 0x1_0000 != 0
    case 17 => b & 0x2_0000 != 0
    case 18 => b & 0x4_0000 != 0
    case 19 => b & 0x8_0000 != 0
    case 20 => b & 0x10_0000 != 0
    case 21 => b & 0x20_0000 != 0
    case 22 => b & 0x40_0000 != 0
    case 23 => b & 0x80_0000 != 0
    case 24 => b & 0x100_0000 != 0
    case 25 => b & 0x200_0000 != 0
    case 26 => b & 0x400_0000 != 0
    case 27 => b & 0x800_0000 != 0
    case 28 => b & 0x1000_0000 != 0
    case 29 => b & 0x2000_0000 != 0
    case 30 => b & 0x4000_0000 != 0
    case _ => b & 0x8000_0000 != 0
  }

  /** The count is of the powers of two that the bitmap contains. */
  lemma OneBitsArePowersOfTwo(b: bv32)
    ensures OneBits(b) == |set i: nat | i < 32 && HasPower(b, i)|
  {
    hide Bit, HasPower;
    forall i: nat | i < 32 ensures Bit(b, i) <==> HasPower(b, i) {
      PowerTestsBit(b, i);
    }
    assert Ones(b, 32) == set i: nat | i < 32 && HasPower(b, i);
  }

  lemma PowerTestsBit(b: bv32, i: nat)
    requires i < 32
    ensures Bit(b, i) <==> HasPower(b, i)
  {
    hide *;
    if i < 8 {
      LowPowers(b);
    } else if i < 16 {
      MiddlePowers(b);
    } else if i < 24 {
      HighPowers(b);
    } else {
      TopPowers(b);
    }
  }

  lemma LowPowers(b: bv32)
    ensures HasPower(b, 0) <==> Bit(b, 0)
    ensures HasPower(b, 1) <==> Bit(b, 1)
    ensures HasPower(b, 2) <==> Bit(b, 2)
    ensures HasPower(b, 3) <==> Bit(b, 3)
    ensures HasPower(b, 4) <==> Bit(b, 4)
    ensures HasPower(b, 5) <==> Bit(b, 5)
    ensures HasPower(b, 6) <==> Bit(b, 6)
    ensures HasPower(b, 7) <==> Bit(b, 7)
  {
  }

  lemma MiddlePowers(b: bv32)
    ensures HasPower(b, 8) <==> Bit(b, 8)
    ensures HasPower(b, 9) <==> Bit(b, 9)
    ensures HasPower(b, 10) <==> Bit(b, 10)
    ensures HasPower(b, 11) <==> Bit(b, 11)
    ensures HasPower(b, 12) <==> Bit(b, 12)
    ensures HasPower(b, 13) <==> Bit(b, 13)
    ensures HasPower(b, 14) <==> Bit(b, 14)
    ensures HasPower(b, 15) <==> Bit(b, 15)
  {
  }

  lemma HighPowers(b: bv32)
    ensures HasPower(b, 16) <==> Bit(b, 16)
    ensures HasPower(b, 17) <==> Bit(b, 17)
    ensures HasPower(b, 18) <==> Bit(b, 18)
    ensures HasPower(b, 19) <==> Bit(b, 19)
    ensures HasPower(b, 20) <==> Bit(b, 20)
    ensures HasPower(b, 21) <==> Bit(b, 21)
    ensures HasPower(b, 22) <==> Bit(b, 22)
    ensures HasPower(b, 23) <==> Bit(b, 23)
  {
  }

  lemma TopPowers(b: bv32)
    ensures HasPower(b, 24) <==> Bit(b, 24)
    ensures HasPower(b, 25) <==> Bit(b, 25)
    ensures HasPower(b, 26) <==> Bit(b, 26)
    ensures HasPower(b, 27) <==> Bit(b, 27)
    ensures HasPower(b, 28) <==> Bit(b, 28)
    ensures HasPower(b, 29) <==> Bit(b, 29)
    ensures HasPower(b, 30) <==> Bit(b, 30)
    ensures HasPower(b, 31) <==> Bit(b, 31)
  {
  }
}
