/** Database.toDBBigint and Database.fromDBBigint (src/database.ts): unsigned
    fingerprints of 32 or 64 bits are stored in signed columns of the same
    width, and read back. */
module Codec {
  import opened Wrappers

  /** Database.POWERS_OF_TWO */
  const POWERS_OF_TWO: map<nat, int> := map[
    31 := 2_147_483_648,
    32 := 4_294_967_296,
    63 := 9_223_372_036_854_775_808,
    64 := 18_446_744_073_709_551_616
  ]

  /** The widths the code passes: 32 for fnv32 and crc32, 64 for fnv64 and
      crc64. Both pow and pow - 1 are keys of POWERS_OF_TWO. */
  type Width = n: nat | n == 32 || n == 64 witness 32

  /** 0 <= x < 2^pow */
  predicate InUnsignedRange(x: int, pow: Width)
  {
    0 <= x < POWERS_OF_TWO[pow]
  }

  /** -2^(pow-1) <= v < 2^(pow-1): what a signed pow-bit column holds. */
  predicate InSignedRange(v: int, pow: Width)
  {
    -POWERS_OF_TWO[pow - 1] <= v < POWERS_OF_TWO[pow - 1]
  }

  /** toDBBigint as written: only values strictly above 2^(pow-1) are wrapped,
      so 2^(pow-1) itself is stored unchanged, one past the signed maximum. */
  function ToDBBigintAsWritten(num: int, pow: Width): (r: int)
    ensures InUnsignedRange(num, pow) ==> -POWERS_OF_TWO[pow - 1] < r <= POWERS_OF_TWO[pow - 1]
    ensures InUnsignedRange(num, pow) ==> (InSignedRange(r, pow) <==> num != POWERS_OF_TWO[pow - 1])
  {
    if num > POWERS_OF_TWO[pow - 1] then num - POWERS_OF_TWO[pow] else num
  }

  /** toDBBigint with the comparison two's complement storage needs: every
      value from 2^(pow-1) up is stored as its negative form. */
  function ToDBBigint(num: int, pow: Width): (r: int)
    ensures InUnsignedRange(num, pow) ==> InSignedRange(r, pow)
    ensures InUnsignedRange(num, pow) ==> (r < 0 <==> num >= POWERS_OF_TWO[pow - 1])
  {
    if num >= POWERS_OF_TWO[pow - 1] then num - POWERS_OF_TWO[pow] else num
  }

  function FromDBBigint(num: Option<int>, pow: Width): (r: Option<int>)
    ensures r.None? <==> num.None?
    ensures num.Some? && InSignedRange(num.value, pow) ==> InUnsignedRange(r.value, pow)
    ensures num.Some? && num.value >= 0 ==> r == num
  {
    match num
    case None => None
    case Some(v) => if v < 0 then Some(v + POWERS_OF_TWO[pow]) else Some(v)
  }

  /** Decoding undoes both encodings on every unsigned pow-bit value. */
  lemma RoundTrip(x: int, pow: Width)
    requires InUnsignedRange(x, pow)
    ensures FromDBBigint(Some(ToDBBigint(x, pow)), pow) == Some(x)
    ensures FromDBBigint(Some(ToDBBigintAsWritten(x, pow)), pow) == Some(x)
  {
  }

  /** The corrected encoding is a bijection: every signed value is the
      encoding of exactly the value it decodes to. */
  lemma EncodeDecode(v: int, pow: Width)
    requires InSignedRange(v, pow)
    ensures FromDBBigint(Some(v), pow).Some?
    ensures ToDBBigint(FromDBBigint(Some(v), pow).value, pow) == v
  {
  }

  lemma EncodeInjective(x: int, y: int, pow: Width)
    requires InUnsignedRange(x, pow) && InUnsignedRange(y, pow)
    requires ToDBBigint(x, pow) == ToDBBigint(y, pow)
    ensures x == y
  {
    RoundTrip(x, pow);
    RoundTrip(y, pow);
  }

  /** The written comparison differs from the corrected one at 2^(pow-1) only,
      where it leaves a value outside the signed pow-bit range. */
  lemma AsWrittenBoundary(x: int, pow: Width)
    requires InUnsignedRange(x, pow)
    ensures x != POWERS_OF_TWO[pow - 1] ==> ToDBBigintAsWritten(x, pow) == ToDBBigint(x, pow)
    ensures x == POWERS_OF_TWO[pow - 1] ==>
      && !InSignedRange(ToDBBigintAsWritten(x, pow), pow)
      && ToDBBigint(x, pow) == -POWERS_OF_TWO[pow - 1]
  {
  }
}
