/** The fingerprint and hex helpers of src/hasher.ts: string normalization,
    the WD-FNV64 and WD-FNV32 hashes, hex rendering and byte-pair reversal.
    CRC32 and CRC64 come from a library and are passed in as functions. */
module Hasher {
  import opened Bits
  import opened Wrappers

  /** One UTF-16 code unit, the value String.prototype.charCodeAt returns. */
  type CodeUnit = x: int | 0 <= x < 0x1_0000

  /** A JavaScript string: a sequence of UTF-16 code units. */
  type JsString = seq<CodeUnit>

  type U32 = x: nat | x < 0x1_0000_0000
  type U64 = x: nat | x < 0x1_0000_0000_0000_0000

  const SLASH: CodeUnit := '/' as int
  const BACKSLASH: CodeUnit := '\\' as int
  const LF: CodeUnit := '\n' as int
  const CR: CodeUnit := '\r' as int

  // ---------------------------------------------------------------------
  // normalizeString

  predicate IsAsciiUpper(c: CodeUnit)
  {
    'A' as int <= c <= 'Z' as int
  }

  predicate IsAsciiLower(c: CodeUnit)
  {
    'a' as int <= c <= 'z' as int
  }

  /** String.prototype.toLowerCase, restricted to ASCII letters. */
  function ToLowerCase(s: JsString): JsString
  {
    seq(|s|, i requires 0 <= i < |s| => if IsAsciiUpper(s[i]) then s[i] + 0x20 else s[i])
  }

  /** s.replace(/\//g, "\\") */
  function ReplaceSlashes(s: JsString): JsString
  {
    seq(|s|, i requires 0 <= i < |s| => if s[i] == SLASH then BACKSLASH else s[i])
  }

  /** s.replace(/[\n\r]/g, "") */
  function RemoveLineBreaks(s: JsString): (r: JsString)
    ensures |r| <= |s|
    ensures forall c :: c in r ==> c in s && c != LF && c != CR
  {
    if s == [] then []
    else (if s[0] == LF || s[0] == CR then [] else [s[0]]) + RemoveLineBreaks(s[1..])
  }

  /** A string normalizeString leaves as it is: no upper-case ASCII letter,
      no forward slash, no line feed and no carriage return. */
  predicate IsNormalized(s: JsString)
  {
    forall i :: 0 <= i < |s| ==> !IsAsciiUpper(s[i]) && s[i] != SLASH && s[i] != LF && s[i] != CR
  }

  function NormalizeString(s: JsString): (r: JsString)
    ensures IsNormalized(r)
    ensures |r| <= |s|
  {
    var r := RemoveLineBreaks(ReplaceSlashes(ToLowerCase(s)));
    assert forall i :: 0 <= i < |r| ==> r[i] in ReplaceSlashes(ToLowerCase(s));
    r
  }

  lemma {:induction false} RemoveLineBreaksKeeps(s: JsString)
    requires forall i :: 0 <= i < |s| ==> s[i] != LF && s[i] != CR
    ensures RemoveLineBreaks(s) == s
  {
    if s != [] {
      RemoveLineBreaksKeeps(s[1..]);
    }
  }

  lemma NormalizedIsFixed(s: JsString)
    requires IsNormalized(s)
    ensures NormalizeString(s) == s
  {
    assert ToLowerCase(s) == s;
    assert ReplaceSlashes(s) == s;
    RemoveLineBreaksKeeps(s);
  }

  lemma NormalizeIdempotent(s: JsString)
    ensures NormalizeString(NormalizeString(s)) == NormalizeString(s)
  {
    NormalizedIsFixed(NormalizeString(s));
  }

  // ---------------------------------------------------------------------
  // internalWDFnv64

  const FNV_OFFSET_BASIS: nat := 0xCBF2_9CE4_8422_2325
  const FNV_PRIME: nat := 0x100_0000_01B3
  const MASK64: nat := 0xFFFF_FFFF_FFFF_FFFF

  /** One iteration of the loop: multiply, xor in the code unit, keep 64 bits. */
  function FnvStep(hash: nat, c: CodeUnit): nat
  {
    And(Xor(hash * FNV_PRIME, c), MASK64)
  }

  /** The value of `hash` once the loop has consumed all of s. */
  function FnvFold(s: JsString): nat
  {
    if s == [] then FNV_OFFSET_BASIS else FnvStep(FnvFold(s[..|s| - 1]), s[|s| - 1])
  }

  lemma FnvStepTruncates(hash: nat, c: CodeUnit)
    ensures FnvStep(hash, c) == Xor(hash * FNV_PRIME, c) % 0x1_0000_0000_0000_0000
    ensures FnvStep(hash, c) < 0x1_0000_0000_0000_0000
  {
    Pow2Values();
    AndLowMask(Xor(hash * FNV_PRIME, c), 64);
  }

  lemma FnvFoldBelow(s: JsString)
    ensures FnvFold(s) < 0x1_0000_0000_0000_0000
  {
    if s != [] {
      FnvStepTruncates(FnvFold(s[..|s| - 1]), s[|s| - 1]);
    }
  }

  method InternalWDFnv64(str: JsString) returns (hash: nat)
    ensures hash == FnvFold(NormalizeString(str))
    ensures hash < 0x1_0000_0000_0000_0000
    ensures str == [] ==> hash == FNV_OFFSET_BASIS
  {
    var s := NormalizeString(str);
    hash := FNV_OFFSET_BASIS;
    var i := 0;
    while i < |s|
      invariant 0 <= i <= |s|
      invariant hash == FnvFold(s[..i])
      invariant hash < 0x1_0000_0000_0000_0000
    {
      var c := s[i];
      FnvStepTruncates(hash, c);
      assert s[..i + 1][..i] == s[..i];
      hash := hash * FNV_PRIME;
      hash := Xor(hash, c);
      hash := And(hash, MASK64);
      i := i + 1;
    }
    assert s[..|s|] == s;
  }

  // ---------------------------------------------------------------------
  // hashWDFnv64 and hashWDFnv32

  const WD64_MASK: nat := 0x1FFF_FFFF_FFFF_FFFF
  const WD64_TAG: nat := 0xA000_0000_0000_0000

  /** `internalWDFnv64(s) & 0x1FFF_FFFF_FFFF_FFFF | 0xA000_0000_0000_0000` */
  function HashWDFnv64(s: JsString): nat
  {
    Or(And(FnvFold(NormalizeString(s)), WD64_MASK), WD64_TAG)
  }

  /** The low 61 bits of the FNV value under the tag 0b101 in bits 63..61:
      `hash >> 61 == 0b101`, and the value fits in 64 bits. */
  lemma HashWDFnv64Tagged(s: JsString)
    ensures HashWDFnv64(s) == FnvFold(NormalizeString(s)) % 0x2000_0000_0000_0000 + WD64_TAG
    ensures HashWDFnv64(s) / 0x2000_0000_0000_0000 == 5  // 0b101
    ensures HashWDFnv64(s) < 0x1_0000_0000_0000_0000
  {
    var h := FnvFold(NormalizeString(s));
    Pow2Values();
    TagAboveLowBits(h, 61, 5);
    var low := h % 0x2000_0000_0000_0000;
    assert HashWDFnv64(s) == low + 5 * 0x2000_0000_0000_0000;
    DivModUnique(HashWDFnv64(s), 0x2000_0000_0000_0000, 5, low);
  }

  /** The empty string hashes to the offset basis under the tag. */
  lemma HashWDFnv64OfEmpty(s: JsString)
    requires s == []
    ensures HashWDFnv64(s) == 0xABF2_9CE4_8422_2325
  {
    HashWDFnv64Tagged(s);
    assert NormalizeString(s) == [];
    assert FnvFold(NormalizeString(s)) == FNV_OFFSET_BASIS;
    assert FNV_OFFSET_BASIS % 0x2000_0000_0000_0000 + WD64_TAG == 0xABF2_9CE4_8422_2325;
  }

  /** `hashWDFnv64(normalizeString(s)) == hashWDFnv64(s)` */
  lemma HashWDFnv64IgnoresNormalization(s: JsString)
    ensures HashWDFnv64(NormalizeString(s)) == HashWDFnv64(s)
  {
    NormalizeIdempotent(s);
  }

  function HashWDFnv32(s: JsString): nat
  {
    var hash64 := HashWDFnv64(s);
    var hash32 := And(hash64, 0xFFFF_FFFF);
    if And(hash32, 0xFFFF_0000) == 0xFFFF_0000 then AndNot(hash32, Shl(1, 16)) else hash32
  }

  /** WD-FNV32 is the low 32 bits of WD-FNV64, except that an upper halfword
      0xFFFF becomes 0xFFFE (bit 16 cleared); so it never has its upper 16 bits
      all set. */
  lemma HashWDFnv32Spec(s: JsString)
    ensures var low := HashWDFnv64(s) % 0x1_0000_0000;
      && (low / 0x1_0000 != 0xFFFF ==> HashWDFnv32(s) == low)
      && (low / 0x1_0000 == 0xFFFF ==> HashWDFnv32(s) == low - 0x1_0000)
    ensures HashWDFnv32(s) < 0x1_0000_0000
    ensures HashWDFnv32(s) / 0x1_0000 != 0xFFFF
  {
    Pow2Values();
    var hash64 := HashWDFnv64(s);
    var hash32 := And(hash64, 0xFFFF_FFFF);
    AndLowMask(hash64, 32);
    assert hash32 == hash64 % 0x1_0000_0000;
    AndUpperHalfword(hash32, 0xFFFF_0000);
    if hash32 / 0x1_0000 == 0xFFFF {
      ShlIsMul(1, 16);
      AndNotBit(hash32, 16);
      assert (hash32 / Pow2(16)) % 2 == 1;
      assert HashWDFnv32(s) == AndNot(hash32, Pow2(16));
    } else {
      assert And(hash32, 0xFFFF_0000) != 0xFFFF_0000;
    }
  }

  lemma HashWDFnv32IgnoresNormalization(s: JsString)
    ensures HashWDFnv32(NormalizeString(s)) == HashWDFnv32(s)
  {
    NormalizeIdempotent(s);
  }

  // ---------------------------------------------------------------------
  // hashCrc32 and hashCrc64

  /** CRC32 and CRC64 of the UTF-8 encoding of the raw (not normalized)
      string, read as big-endian unsigned integers. The node-crc library
      computes them; the model only knows their widths. */
  datatype Crc = Crc(crc32: JsString -> U32, crc64: JsString -> U64)

  // ---------------------------------------------------------------------
  // toHexString

  function Pow16(k: nat): nat
  {
    if k == 0 then 1 else 16 * Pow16(k - 1)
  }

  lemma Pow16Values()
    ensures Pow16(8) == 0x1_0000_0000
    ensures Pow16(16) == 0x1_0000_0000_0000_0000
  {
    assert Pow16(4) == 0x1_0000;
    assert Pow16(8) == Pow16(4) * Pow16(4) by {
      assert Pow16(8) == 16 * 16 * 16 * 16 * Pow16(4);
    }
    var p8 := Pow16(8);
    assert Pow16(12) == 16 * 16 * 16 * 16 * p8;
    assert Pow16(16) == 16 * 16 * 16 * 16 * Pow16(12);
  }

  function LowerHexDigit(d: nat): CodeUnit
    requires d < 16
  {
    if d < 10 then '0' as int + d else 'a' as int + (d - 10)
  }

  /** num.toString(16) for a non-negative num: lower-case digits, no leading
      zero except for 0 itself. */
  function ToString16(n: nat): JsString
  {
    if n < 16 then [LowerHexDigit(n)] else ToString16(n / 16) + [LowerHexDigit(n % 16)]
  }

  /** s.padStart(width, fill) with a one-unit fill string. */
  function PadStart(s: JsString, width: nat, fill: CodeUnit): JsString
  {
    if |s| >= width then s else seq(width - |s|, _ => fill) + s
  }

  /** String.prototype.toUpperCase, restricted to ASCII letters. */
  function ToUpperCase(s: JsString): JsString
  {
    seq(|s|, i requires 0 <= i < |s| => if IsAsciiLower(s[i]) then s[i] - 0x20 else s[i])
  }

  function ToHexString(num: nat): JsString
  {
    var s := ToString16(num);
    var padded := if num > 0xFFFF_FFFF then PadStart(s, 16, '0' as int) else PadStart(s, 8, '0' as int);
    ToUpperCase(padded)
  }

  predicate IsUpperHexDigit(c: CodeUnit)
  {
    '0' as int <= c <= '9' as int || 'A' as int <= c <= 'F' as int
  }

  function HexValue(c: CodeUnit): nat
  {
    if '0' as int <= c <= '9' as int then c - '0' as int
    else if 'A' as int <= c <= 'F' as int then c - 'A' as int + 10
    else 0
  }

  /** The number a string of upper-case hex digits denotes, most significant
      digit first; leading zeros are allowed. */
  function ParseHex(s: JsString): nat
  {
    if s == [] then 0 else 16 * ParseHex(s[..|s| - 1]) + HexValue(s[|s| - 1])
  }

  lemma {:induction false} ToString16Length(n: nat, k: nat)
    requires k >= 1
    ensures |ToString16(n)| <= k <==> n < Pow16(k)
  {
    if n >= 16 {
      if k == 1 {
        assert |ToString16(n / 16)| >= 1;
      } else {
        ToString16Length(n / 16, k - 1);
      }
    } else {
      assert Pow16(k) == 16 * Pow16(k - 1);
      assert Pow16(k - 1) >= 1 by { Pow16Positive(k - 1); }
    }
  }

  lemma {:induction false} Pow16Positive(k: nat)
    ensures Pow16(k) >= 1
  {
    if k > 0 {
      Pow16Positive(k - 1);
    }
  }

  lemma {:induction false} ToString16UpperDigits(n: nat)
    ensures var u := ToUpperCase(ToString16(n));
      (forall i :: 0 <= i < |u| ==> IsUpperHexDigit(u[i])) && ParseHex(u) == n
  {
    if n < 16 {
      UpperDigit(n);
      ParseHexSnoc([], ToUpperCase([LowerHexDigit(n)])[0]);
      assert [] + ToUpperCase([LowerHexDigit(n)]) == ToUpperCase([LowerHexDigit(n)]);
    } else {
      ToString16UpperDigits(n / 16);
      var p := ToUpperCase(ToString16(n / 16));
      var d := ToUpperCase([LowerHexDigit(n % 16)]);
      UpperDigit(n % 16);
      ToUpperCaseConcat(ToString16(n / 16), [LowerHexDigit(n % 16)]);
      ParseHexSnoc(p, d[0]);
      DigitsOf(n);
      var u := p + d;
      forall i | 0 <= i < |u| ensures IsUpperHexDigit(u[i]) {
        if i < |p| {
          assert u[i] == p[i];
        }
      }
    }
  }

  lemma DigitsOf(n: nat)
    ensures n == 16 * (n / 16) + n % 16
  {
  }

  /** A digit in lower case, upper-cased, is the upper-case digit of its value. */
  lemma UpperDigit(d: nat)
    requires d < 16
    ensures |ToUpperCase([LowerHexDigit(d)])| == 1
    ensures IsUpperHexDigit(ToUpperCase([LowerHexDigit(d)])[0])
    ensures HexValue(ToUpperCase([LowerHexDigit(d)])[0]) == d
  {
  }

  lemma ToUpperCaseConcat(a: JsString, b: JsString)
    ensures ToUpperCase(a + b) == ToUpperCase(a) + ToUpperCase(b)
  {
  }

  lemma ParseHexSnoc(p: JsString, c: CodeUnit)
    ensures ParseHex(p + [c]) == 16 * ParseHex(p) + HexValue(c)
  {
    assert (p + [c])[..|p|] == p;
  }

  lemma {:induction false} ParseHexLeadingZeros(z: nat, s: JsString)
    ensures ParseHex(seq(z, _ => '0' as int) + s) == ParseHex(s)
  {
    var zs := seq(z, _ => '0' as int);
    if s == [] {
      assert zs + s == zs;
      ParseHexZeros(z);
    } else {
      assert (zs + s)[..|zs + s| - 1] == zs + s[..|s| - 1];
      ParseHexLeadingZeros(z, s[..|s| - 1]);
    }
  }

  lemma {:induction false} ParseHexZeros(z: nat)
    ensures ParseHex(seq(z, _ => '0' as int)) == 0
  {
    if z > 0 {
      assert seq(z, _ => '0' as int)[..z - 1] == seq(z - 1, _ => '0' as int);
      ParseHexZeros(z - 1);
    }
  }

  /** The digits toHexString pads, and the width it pads them to. */
  lemma {:induction false} ToHexStringPadding(num: nat)
    ensures var s := ToString16(num);
      && (num <= 0xFFFF_FFFF ==> |s| <= 8 && ToHexString(num) == ToUpperCase(PadStart(s, 8, '0' as int)))
      && (0xFFFF_FFFF < num < 0x1_0000_0000_0000_0000 ==> |s| <= 16 && ToHexString(num) == ToUpperCase(PadStart(s, 16, '0' as int)))
      && (num >= 0x1_0000_0000_0000_0000 ==> |s| > 16 && ToHexString(num) == ToUpperCase(s))
  {
    Pow16Values();
    if num <= 0xFFFF_FFFF {
      ToString16Length(num, 8);
    } else {
      ToString16Length(num, 16);
    }
  }

  lemma ToUpperCaseLeadingZeros(z: nat, s: JsString)
    ensures ToUpperCase(seq(z, _ => '0' as int) + s) == seq(z, _ => '0' as int) + ToUpperCase(s)
  {
  }

  lemma {:induction false} PaddedParsesBack(num: nat, width: nat)
    ensures var r := ToUpperCase(PadStart(ToString16(num), width, '0' as int));
      (forall i :: 0 <= i < |r| ==> IsUpperHexDigit(r[i])) && ParseHex(r) == num
  {
    var s := ToString16(num);
    ToString16UpperDigits(num);
    if |s| < width {
      var zs := seq(width - |s|, _ => '0' as int);
      assert PadStart(s, width, '0' as int) == zs + s;
      ToUpperCaseLeadingZeros(width - |s|, s);
      ParseHexLeadingZeros(width - |s|, ToUpperCase(s));
      UpperDigitsAfterZeros(zs, ToUpperCase(s));
    }
  }

  lemma UpperDigitsAfterZeros(zs: JsString, u: JsString)
    requires forall i :: 0 <= i < |zs| ==> zs[i] == '0' as int
    requires forall i :: 0 <= i < |u| ==> IsUpperHexDigit(u[i])
    ensures forall i :: 0 <= i < |zs + u| ==> IsUpperHexDigit((zs + u)[i])
  {
  }

  /** toHexString renders upper-case hex digits only, which parse back to
      num; the length is 8 up to 0xFFFFFFFF and 16 above it within 64 bits. */
  lemma ToHexStringSpec(num: nat)
    ensures var r := ToHexString(num);
      && (forall i :: 0 <= i < |r| ==> IsUpperHexDigit(r[i]))
      && ParseHex(r) == num
      && (num <= 0xFFFF_FFFF ==> |r| == 8)
      && (0xFFFF_FFFF < num < 0x1_0000_0000_0000_0000 ==> |r| == 16)
      && (num >= 0x1_0000_0000_0000_0000 ==> |r| > 16)
  {
    ToHexStringPadding(num);
    if num <= 0xFFFF_FFFF {
      PaddedParsesBack(num, 8);
    } else if num < 0x1_0000_0000_0000_0000 {
      PaddedParsesBack(num, 16);
    } else {
      PaddedParsesBack(num, 0);
    }
  }

  // ---------------------------------------------------------------------
  // reverseHexString and toReverseHexString

  datatype HexError = OddLength

  /** The string with its two-unit pairs in reverse order, each pair kept as it is. */
  function ReversePairs(s: JsString): JsString
    requires |s| % 2 == 0
  {
    if s == [] then [] else ReversePairs(s[2..]) + s[..2]
  }

  /** What reverseHexString returns or throws. */
  function ReversedHex(s: JsString): Result<JsString, HexError>
  {
    if |s| % 2 != 0 then Failure(OddLength) else Success(ReversePairs(s))
  }

  method ReverseHexString(str: JsString) returns (r: Result<JsString, HexError>)
    ensures r == ReversedHex(str)
  {
    if |str| % 2 != 0 {
      return Failure(OddLength);
    }
    var len := |str|;
    var res: JsString := [];
    var i: int := len - 1;
    while i >= 0
      invariant -1 <= i < len && (i + 1) % 2 == 0
      invariant |str[i + 1..]| % 2 == 0
      invariant res == ReversePairs(str[i + 1..])
    {
      ReverseHexStep(str, i);
      AppendPair(res, str[i - 1], str[i]);
      res := res + [str[i - 1]];
      res := res + [str[i]];
      assert res == ReversePairs(str[i - 1..]);
      i := i - 2;
    }
    assert str[0..] == str;
    r := Success(res);
  }

  /** One pass of reverseHexString's loop: the pair ending at i goes after
      the pairs to its right. */
  lemma ReverseHexStep(str: JsString, i: int)
    requires |str| % 2 == 0 && 0 <= i < |str| && (i + 1) % 2 == 0
    ensures 1 <= i && (i - 1) % 2 == 0
    ensures |str[i + 1..]| % 2 == 0 && |str[i - 1..]| % 2 == 0
    ensures ReversePairs(str[i - 1..]) == ReversePairs(str[i + 1..]) + [str[i - 1], str[i]]
  {
    OddIndex(|str|, i);
    var rest := str[i - 1..];
    assert rest[2..] == str[i + 1..];
    assert rest[..2] == [str[i - 1], str[i]];
  }

  /** The two appends of one pass add the pair in its order. */
  lemma AppendPair(res: JsString, a: CodeUnit, b: CodeUnit)
    ensures (res + [a]) + [b] == res + [a, b]
  {
  }

  lemma OddIndex(n: int, i: int)
    requires n % 2 == 0 && 0 <= i < n && (i + 1) % 2 == 0
    ensures 1 <= i && (i - 1) % 2 == 0 && (n - i - 1) % 2 == 0 && (n - i + 1) % 2 == 0
  {
  }

  lemma {:induction false} ReversePairsLength(s: JsString)
    requires |s| % 2 == 0
    ensures |ReversePairs(s)| == |s|
  {
    if s != [] {
      ReversePairsLength(s[2..]);
    }
  }

  lemma EvenConcat(a: JsString, b: JsString)
    requires |a| % 2 == 0 && |b| % 2 == 0
    ensures |a + b| % 2 == 0
  {
  }

  /** The pair p between a and b stays a pair, with b's pairs before it and
      a's after it. */
  lemma ReversePairsAround(a: JsString, p: JsString, b: JsString)
    requires |a| % 2 == 0 && |p| == 2 && |b| % 2 == 0
    ensures ReversePairs((a + p) + b) == ReversePairs(b) + (p + ReversePairs(a))
  {
    EvenConcat(a, p);
    ReversePairsAppend(a + p, b);
    ReversePairsAppend(a, p);
    ReversePairsOfPair(p);
  }

  lemma ReversePairsOfPair(p: JsString)
    requires |p| == 2
    ensures ReversePairs(p) == p
  {
    assert p[2..] == [] && p[..2] == p;
  }

  /** Pair k of the result is pair |s|/2 - 1 - k of the input. */
  lemma ReversePairsAt(s: JsString, k: nat)
    requires |s| % 2 == 0 && 2 * k < |s|
    ensures |ReversePairs(s)| == |s|
    ensures ReversePairs(s)[2 * k..2 * k + 2] == s[|s| - 2 * k - 2..|s| - 2 * k]
  {
    ReversePairsLength(s);
    var e: nat := |s| - 2 * k;
    SplitAroundPair(s, k);
    PairInReverse(s[..e - 2], s[e - 2..e], s[e..]);
  }

  /** Cutting out pair |s|/2 - 1 - k leaves an even prefix and suffix. */
  lemma SplitAroundPair(s: JsString, k: nat)
    requires |s| % 2 == 0 && 2 * k < |s|
    ensures var e := |s| - 2 * k;
      && s == (s[..e - 2] + s[e - 2..e]) + s[e..]
      && |s[..e - 2]| % 2 == 0 && |s[e - 2..e]| == 2 && |s[e..]| % 2 == 0
  {
    var q := |s| / 2;
    assert |s| - 2 * k - 2 == 2 * (q - k - 1);
  }

  /** The pair p between a and b is pair |b|/2 of the reversed string. */
  lemma PairInReverse(a: JsString, p: JsString, b: JsString)
    requires |a| % 2 == 0 && |p| == 2 && |b| % 2 == 0
    ensures |(a + p) + b| % 2 == 0
    ensures |ReversePairs((a + p) + b)| == |a| + 2 + |b|
    ensures ReversePairs((a + p) + b)[|b|..|b| + 2] == p
  {
    EvenConcat(a, p);
    EvenConcat(a + p, b);
    ReversePairsLength((a + p) + b);
    ReversePairsAround(a, p, b);
    ReversePairsLength(b);
    PairAfter(ReversePairs(b), p, ReversePairs(a));
  }

  lemma PairAfter(x: JsString, p: JsString, y: JsString)
    requires |p| == 2
    ensures (x + (p + y))[|x|..|x| + 2] == p
  {
    assert (x + (p + y))[|x|..] == p + y;
  }

  lemma {:induction false} ReversePairsAppend(a: JsString, b: JsString)
    requires |a| % 2 == 0 && |b| % 2 == 0
    ensures ReversePairs(a + b) == ReversePairs(b) + ReversePairs(a)
  {
    if a == [] {
      assert a + b == b;
    } else {
      assert (a + b)[2..] == a[2..] + b;
      assert (a + b)[..2] == a[..2];
      ReversePairsAppend(a[2..], b);
    }
  }

  lemma {:induction false} ReversePairsInvolution(s: JsString)
    requires |s| % 2 == 0
    ensures |ReversePairs(s)| % 2 == 0
    ensures ReversePairs(ReversePairs(s)) == s
  {
    ReversePairsLength(s);
    if s != [] {
      ReversePairsLength(s[2..]);
      ReversePairsInvolution(s[2..]);
      ReversePairsAppend(ReversePairs(s[2..]), s[..2]);
      assert ReversePairs(s[..2]) == s[..2] by {
        assert s[..2][2..] == [];
        assert s[..2][..2] == s[..2];
      }
      assert s[..2] + s[2..] == s;
    }
  }

  /** reverseHexString fails exactly on odd-length input; otherwise the result
      has the input's length and applying it twice gives the input back. */
  lemma ReversedHexSpec(s: JsString)
    ensures ReversedHex(s).Failure? <==> |s| % 2 != 0
    ensures ReversedHex(s).Success? ==>
      && |ReversedHex(s).value| == |s|
      && ReversedHex(ReversedHex(s).value) == Success(s)
  {
    if |s| % 2 == 0 {
      ReversePairsInvolution(s);
      ReversePairsLength(s);
    }
  }

  /** The argument of toReverseHexString: a bigint or a ready hex string. */
  datatype HexSource = Number(n: nat) | Text(s: JsString)

  method ToReverseHexString(num: HexSource) returns (r: Result<JsString, HexError>)
    ensures num.Text? ==> r == ReversedHex(num.s)
    ensures num.Number? ==> r == ReversedHex(ToHexString(num.n))
    ensures num.Number? && num.n < 0x1_0000_0000_0000_0000 ==>
      r.Success? && |r.value| == (if num.n <= 0xFFFF_FFFF then 8 else 16)
  {
    var str := if num.Text? then num.s else ToHexString(num.n);
    if num.Number? {
      ToHexStringSpec(num.n);
    }
    r := ReverseHexString(str);
    ReversedHexSpec(str);
  }

  /** A value of 2^64 or more renders without padding and can have an odd
      number of digits, which reverseHexString refuses. */
  lemma ReverseOfSeventeenDigitsFails(n: nat)
    requires n == 0x1_0000_0000_0000_0000
    ensures ReversedHex(ToHexString(n)).Failure?
  {
    ToHexStringSpec(n);
    Pow16Values();
    ToString16Length(n, 17);
    ToString16Length(n, 16);
    assert Pow16(17) == 16 * Pow16(16);
  }
}
