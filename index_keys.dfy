/** `GetIndex`: the index value a column value is filed under. Integers are reinterpreted as
    unsigned 64-bit values and divided by INDEX_CHUNK_SIZE; strings and byte strings are hashed
    first; a float uses its absolute value. */
module IndexKeys {
  import opened Primitives
  import opened IndexFormat
  import opened AlbaTypes

  /** The library operations `get_index` relies on: the standard hasher over strings and byte
      strings, and two float operations. */
  datatype KeyOps = KeyOps(
    hashText: string -> u64,       // DefaultHasher over a String
    hashBytes: seq<byte> -> u64,   // DefaultHasher over a Vec<u8>
    isNan: F64 -> bool,            // f64::is_nan
    absAsU64: F64 -> u64)          // `f.abs() as u64`, saturating

  /** The largest index value any column value can have. */
  const MAX_BUCKET: nat := U64_MAX / INDEX_CHUNK_SIZE

  /** `get_index` for an integer of any width: `n as u64 / INDEX_CHUNK_SIZE`. A negative n is
      sign-extended, so it reads as n + 2^64. */
  function IntegerKey(n: int): (k: u64)
    requires I64_MIN <= n < U64_MODULUS
    ensures k <= MAX_BUCKET
    ensures n >= 0 ==> k == n / 4096
    ensures n < 0 ==> k == (n + U64_MODULUS) / 4096
  {
    AsU64(n) / INDEX_CHUNK_SIZE
  }

  /** `get_index` for AlbaTypes. */
  function GetIndex(v: AlbaType, ops: KeyOps): (k: u64)
    ensures k <= MAX_BUCKET
  {
    match v
    case Text(s) => ops.hashText(s) / INDEX_CHUNK_SIZE
    case Int(i) => IntegerKey(i)
    case Bigint(i) => IntegerKey(i)
    case Float(f) => if ops.isNan(f) then 0 else ops.absAsU64(f) / INDEX_CHUNK_SIZE
    case Bool(b) => if b then 1 else 0
    case Char(c) => IntegerKey(c as int)
    case NanoString(s) => ops.hashText(s) / INDEX_CHUNK_SIZE
    case SmallString(s) => ops.hashText(s) / INDEX_CHUNK_SIZE
    case MediumString(s) => ops.hashText(s) / INDEX_CHUNK_SIZE
    case BigString(s) => ops.hashText(s) / INDEX_CHUNK_SIZE
    case LargeString(s) => ops.hashText(s) / INDEX_CHUNK_SIZE
    case NanoBytes(b) => ops.hashBytes(b) / INDEX_CHUNK_SIZE
    case SmallBytes(b) => ops.hashBytes(b) / INDEX_CHUNK_SIZE
    case MediumBytes(b) => ops.hashBytes(b) / INDEX_CHUNK_SIZE
    case BigSBytes(b) => ops.hashBytes(b) / INDEX_CHUNK_SIZE
    case LargeBytes(b) => ops.hashBytes(b) / INDEX_CHUNK_SIZE
    case NONE => 0
  }

  /** Booleans, characters and NONE have fixed keys, independent of the library operations. */
  lemma FixedKeys(ops: KeyOps, c: char)
    ensures GetIndex(AlbaType.Bool(true), ops) == 1 && GetIndex(AlbaType.Bool(false), ops) == 0
    ensures GetIndex(NONE, ops) == 0
    ensures GetIndex(Char(c), ops) == (c as int) / 4096
  {
  }

  /** A 32-bit and a 64-bit column holding the same number file it under the same key, and so do
      every two string columns holding the same text. */
  lemma KeyIgnoresWidth(n: i32, s: string, ops: KeyOps)
    ensures GetIndex(AlbaType.Int(n), ops) == GetIndex(Bigint(n), ops)
    ensures GetIndex(Text(s), ops) == GetIndex(NanoString(s), ops) == GetIndex(LargeString(s), ops)
  {
  }

  /** On non-negative integers the key never decreases as the value grows, and values within one
      run of 4096 aligned values share a key. */
  lemma KeyMonotoneOnNonNegatives(a: i64, b: i64, ops: KeyOps)
    requires 0 <= a <= b
    ensures GetIndex(Bigint(a), ops) <= GetIndex(Bigint(b), ops)
    ensures a / 4096 == b / 4096 ==> GetIndex(Bigint(a), ops) == GetIndex(Bigint(b), ops)
  {
    DivMonotone(a, b);
  }

  /** Every negative integer is filed above every non-negative one: its sign-extended value is at
      least 2^63. */
  lemma NegativeKeysAboveNonNegative(neg: i64, nonneg: i64, ops: KeyOps)
    requires neg < 0 <= nonneg
    ensures GetIndex(Bigint(nonneg), ops) < GetIndex(Bigint(neg), ops)
  {
    assert nonneg / 4096 <= (I64_MAX as int) / 4096 by {
      DivMonotone(nonneg, I64_MAX);
    }
    assert (neg + U64_MODULUS) / 4096 >= (I64_MAX + 1) / 4096 by {
      DivMonotone(I64_MAX + 1, neg + U64_MODULUS);
    }
  }

  lemma DivMonotone(a: int, b: int)
    requires 0 <= a <= b
    ensures a / 4096 <= b / 4096
  {
  }
}
