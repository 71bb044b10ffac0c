/** Vocabulary shared by every component: nullable values, machine integers and
    the hash-algorithm identifiers with their digest sizes. */
module Common {
  datatype Option<+T> = None | Some(value: T)

  type byte = x: int | 0 <= x < 0x100
  type u16 = x: int | 0 <= x < 0x1_0000
  type u32 = x: int | 0 <= x < 0x1_0000_0000

  /** The null pointer. */
  const NULL: nat := 0
  /** One past the largest address a 64-bit pointer can hold. */
  const ADDRESS_SPACE: nat := 0x1_0000_0000_0000_0000

  /** What 64-bit arithmetic makes of a result. */
  function Wrap(a: int): nat {
    a % ADDRESS_SPACE
  }

  /** EFI_STATUS: a 64-bit word, an error exactly when its high bit is set. */
  type Status = x: int | 0 <= x < 0x1_0000_0000_0000_0000

  const EFI_SUCCESS: Status := 0

  predicate IsError(s: Status) {
    s >= 0x8000_0000_0000_0000
  }

  // TPM_ALG_ID values of the TCG Algorithm Registry.
  const ALG_ERROR: u16 := 0x0000
  const ALG_SHA1: u16 := 0x0004
  const ALG_SHA256: u16 := 0x000B
  const ALG_SHA384: u16 := 0x000C
  const ALG_SHA512: u16 := 0x000D
  const ALG_SM3_256: u16 := 0x0012
  const ALG_SHA3_256: u16 := 0x0027
  const ALG_SHA3_384: u16 := 0x0028
  const ALG_SHA3_512: u16 := 0x0029

  const MAX_DIGEST_SIZE: nat := 64

  /** The digest size of a hash algorithm; 0 for an algorithm this program does
      not know. */
  function AlgSize(alg: u16): (size: nat)
    ensures size <= MAX_DIGEST_SIZE
  {
    match alg
    case 0x0004 => 20
    case 0x000B => 32
    case 0x000C => 48
    case 0x000D => 64
    case 0x0012 => 32
    case _ => 0
  }

  function Min(a: nat, b: nat): nat {
    if a < b then a else b
  }

  lemma ConcatAssociates<T>(a: seq<T>, b: seq<T>, c: seq<T>)
    ensures a + (b + c) == a + b + c
  {
  }
}
