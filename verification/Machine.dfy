// Machine arithmetic and result codes shared by the models.
module Machine {
  const POW2_64: int := 0x1_0000_0000_0000_0000
  const UINT64_MAX: int := 0xFFFF_FFFF_FFFF_FFFF

  type byte = x: int | 0 <= x < 256
  type u64 = x: int | 0 <= x < 0x1_0000_0000_0000_0000
  type i64 = x: int | -0x8000_0000_0000_0000 <= x < 0x8000_0000_0000_0000

  datatype Option<+T> = None | Some(value: T)

  // UBASE_ERR_NONE and UBASE_ERR_INVALID.
  datatype Code = ErrNone | ErrInvalid

  // Conversion to uint64_t: reduction modulo 2^64.
  function U64(x: int): u64 {
    x % 0x1_0000_0000_0000_0000
  }

  lemma SmallU64(x: int)
    ensures 0 <= x < POW2_64 ==> U64(x) == x
  {
  }
}
