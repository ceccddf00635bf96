/**
 * The value codec: renders a characteristic's bytes as text according to a data
 * type and a byte order
 * (app/src/main/java/com/calica/stupidble/util/CharacteristicFormatter.kt).
 *
 * Bytes are modelled by their 8-bit pattern 0..255; Kotlin's signed `Byte`
 * view of a pattern is `SignedByte`. The two library conversions the codec
 * relies on, UTF-8 decoding and `"%.6f"` rendering of IEEE 754 values, are
 * opaque functions supplied in a `TextLibrary`; what the codec itself does
 * (assembling the raw bits in the requested byte order, the size dispatch,
 * the sentinels) is modelled exactly.
 */
module Formatter {
  import opened Wrappers
  import opened Metadata

  /** The bit pattern of one Kotlin `Byte`. */
  type Byte = b: int | 0 <= b < 256

  /** The text shown for a missing or empty buffer. */
  const NOT_AVAILABLE: string := "N/A"

  /**
   * The platform conversions the codec calls but does not implement:
   * `ByteArray.toString(Charsets.UTF_8)`, and `String.format("%.6f", v)` of the
   * float (binary32) or double (binary64) whose raw bits are given.
   */
  datatype TextLibrary = TextLibrary(
    decodeUtf8: seq<Byte> -> string,
    floatText: nat -> string,
    doubleText: nat -> string)

  // ---------------------------------------------------------------------------
  // Numbers from bytes
  // ---------------------------------------------------------------------------

  /** 256 to the power n: the number of values an n-byte field can hold. */
  function Pow256(n: nat): (p: nat)
    ensures p >= 1
  {
    if n == 0 then 1 else 256 * Pow256(n - 1)
  }

  lemma Pow256Values()
    ensures Pow256(1) == 0x100 && Pow256(2) == 0x1_0000 && Pow256(4) == 0x1_0000_0000
  {
    assert Pow256(1) == 256 * Pow256(0);
    assert Pow256(2) == 256 * Pow256(1);
    assert Pow256(3) == 256 * Pow256(2);
    assert Pow256(4) == 256 * Pow256(3);
  }

  /** Kotlin's `Byte.toInt()`: the pattern read as a two's-complement 8-bit number. */
  function SignedByte(b: Byte): (v: int)
    ensures -128 <= v < 128 && v % 256 == b
  {
    if b < 128 then b else b - 256
  }

  /** The bytes as an unsigned number, first byte least significant. */
  function LittleEndianValue(bs: seq<Byte>): (v: nat)
    ensures v < Pow256(|bs|)
  {
    if bs == [] then 0 else bs[0] + 256 * LittleEndianValue(bs[1..])
  }

  /** The bytes as an unsigned number, first byte most significant. */
  function BigEndianValue(bs: seq<Byte>): (v: nat)
    ensures v < Pow256(|bs|)
  {
    if bs == [] then 0
    else
      var init := bs[..|bs| - 1];
      assert Pow256(|bs|) == 256 * Pow256(|init|);
      256 * BigEndianValue(init) + bs[|bs| - 1]
  }

  /** The raw number a `ByteBuffer` in the given order reads from the bytes. */
  function UnsignedValue(bs: seq<Byte>, order: Endianness): (v: nat)
    ensures v < Pow256(|bs|)
  {
    if order == LITTLE_ENDIAN then LittleEndianValue(bs) else BigEndianValue(bs)
  }

  /**
   * The two's-complement reading of an n-byte raw number: `getShort()` for n = 2,
   * `getInt()` for n = 4.
   */
  function TwosComplement(u: nat, n: nat): int
    requires n > 0
  {
    if 2 * u >= Pow256(n) then u - Pow256(n) else u
  }

  /** `getShort()` lies in [-2^15, 2^15) and masking it with 0xFFFF recovers the raw 16 bits. */
  lemma TwosComplementWord(u: nat)
    requires u < 0x1_0000
    ensures var s := TwosComplement(u, 2); -0x1_0000 <= 2 * s < 0x1_0000 && s % 0x1_0000 == u
  {
    Pow256Values();
  }

  /** `getInt()` lies in [-2^31, 2^31) and `toLong() and 0xFFFFFFFFL` recovers the raw 32 bits. */
  lemma TwosComplementDoubleWord(u: nat)
    requires u < 0x1_0000_0000
    ensures var s := TwosComplement(u, 4); -0x1_0000_0000 <= 2 * s < 0x1_0000_0000 && s % 0x1_0000_0000 == u
  {
    Pow256Values();
  }

  function Reverse<T>(s: seq<T>): (r: seq<T>)
    ensures |r| == |s|
    ensures forall i :: 0 <= i < |s| ==> r[i] == s[|s| - 1 - i]
  {
    if s == [] then [] else [s[|s| - 1]] + Reverse(s[..|s| - 1])
  }

  /** Reading big-endian is reading the reversed bytes little-endian. */
  lemma {:induction false} BigEndianIsReversedLittleEndian(bs: seq<Byte>)
    ensures BigEndianValue(bs) == LittleEndianValue(Reverse(bs))
  {
    if bs != [] {
      var init := bs[..|bs| - 1];
      BigEndianIsReversedLittleEndian(init);
      var r := Reverse(bs);
      assert r[1..] == Reverse(init);
    }
  }

  /** On one byte both orders read the byte itself. */
  lemma SingleByteValue(b: Byte, order: Endianness)
    ensures UnsignedValue([b], order) == b
  {
    assert [b][1..] == [];
    assert [b][..0] == [];
  }

  // ---------------------------------------------------------------------------
  // Decimal text (Kotlin's Int/Long `toString`) and its parser
  // ---------------------------------------------------------------------------

  predicate IsDigit(c: char) {
    '0' <= c <= '9'
  }

  function DigitChar(d: nat): (c: char)
    requires d < 10
    ensures IsDigit(c)
  {
    ('0' as int + d) as char
  }

  /** Decimal digits of n, most significant first, no leading zeros. */
  function NatToDecimal(n: nat): (s: string)
    ensures |s| >= 1
    ensures forall i :: 0 <= i < |s| ==> IsDigit(s[i])
  {
    if n < 10 then [DigitChar(n)] else NatToDecimal(n / 10) + [DigitChar(n % 10)]
  }

  /** `Int.toString()` / `Long.toString()`: a minus sign for negatives, then the digits. */
  function IntToDecimal(n: int): (s: string)
    ensures |s| >= 1
    ensures forall i :: 0 <= i < |s| ==> IsDigit(s[i]) || (i == 0 && s[i] == '-')
  {
    if n < 0 then "-" + NatToDecimal(-n) else NatToDecimal(n)
  }

  /** The number a non-empty string of decimal digits denotes. */
  function ParseNat(s: string): Option<nat>
  {
    if s == [] || !IsDigit(s[|s| - 1]) then None
    else
      var d := s[|s| - 1] as int - '0' as int;
      if |s| == 1 then Some(d)
      else match ParseNat(s[..|s| - 1])
        case None => None
        case Some(v) => Some(10 * v + d)
  }

  /** The integer a decimal string with an optional leading minus denotes. */
  function ParseDecimal(s: string): Option<int>
  {
    var negative := |s| > 0 && s[0] == '-';
    match ParseNat(if negative then s[1..] else s)
    case None => None
    case Some(v) => Some(if negative then 0 - v else v)
  }

  lemma {:induction false} NatToDecimalRoundTrip(n: nat)
    ensures ParseNat(NatToDecimal(n)) == Some(n)
  {
    if n >= 10 {
      NatToDecimalRoundTrip(n / 10);
      var s := NatToDecimal(n);
      assert s[..|s| - 1] == NatToDecimal(n / 10);
    }
  }

  /** Rendering an integer in decimal and parsing it back gives the integer. */
  lemma IntToDecimalRoundTrip(n: int)
    ensures ParseDecimal(IntToDecimal(n)) == Some(n)
  {
    if n < 0 {
      var digits := NatToDecimal(-n);
      NatToDecimalRoundTrip(-n);
      assert ("-" + digits)[1..] == digits;
    } else {
      var digits := NatToDecimal(n);
      NatToDecimalRoundTrip(n);
      assert IsDigit(digits[0]);
    }
  }

  // ---------------------------------------------------------------------------
  // INTEGER
  // ---------------------------------------------------------------------------

  const SIGNED_LABEL: string := "Signed: "
  const UNSIGNED_LABEL: string := "\nUnsigned: "

  /** `"Signed: $signed\nUnsigned: $unsigned"`. */
  function IntegerReport(signed: int, unsigned: int): string {
    SIGNED_LABEL + IntToDecimal(signed) + UNSIGNED_LABEL + IntToDecimal(unsigned)
  }

  /** `"Size N bytes - use Int8/16/32"`. */
  function IntegerSizeSentinel(n: nat): string {
    "Size " + IntToDecimal(n) + " bytes - use Int8/16/32"
  }

  /** `"Size N bytes - use Float(4) or Double(8)"`. */
  function FloatSizeSentinel(n: nat): string {
    "Size " + IntToDecimal(n) + " bytes - use Float(4) or Double(8)"
  }

  /**
   * `formatAsInteger`: widths 1, 2 and 4 report the signed reading and the
   * unsigned one obtained by masking it (`and 0xFF`, `and 0xFFFF`,
   * `toLong() and 0xFFFFFFFFL`, which on two's-complement values is the
   * non-negative remainder); other widths give the size sentinel.
   */
  function FormatAsInteger(bs: seq<Byte>, order: Endianness): string
    requires bs != []
  {
    if |bs| == 1 then
      IntegerReport(SignedByte(bs[0]), SignedByte(bs[0]) % 0x100)
    else if |bs| == 2 then
      var signed := TwosComplement(UnsignedValue(bs, order), 2);
      IntegerReport(signed, signed % 0x1_0000)
    else if |bs| == 4 then
      var signed := TwosComplement(UnsignedValue(bs, order), 4);
      IntegerReport(signed, signed % 0x1_0000_0000)
    else
      IntegerSizeSentinel(|bs|)
  }

  /** The position of the first `c` in `s`, or `|s|` when there is none. */
  function IndexOf(s: string, c: char): (k: nat)
    ensures k <= |s|
    ensures k < |s| ==> s[k] == c
    ensures forall i :: 0 <= i < k ==> s[i] != c
  {
    if s == [] then 0 else if s[0] == c then 0 else 1 + IndexOf(s[1..], c)
  }

  lemma {:induction false} IndexOfAfterPrefix(a: string, b: string, c: char)
    requires forall i :: 0 <= i < |a| ==> a[i] != c
    requires b != [] && b[0] == c
    ensures IndexOf(a + b, c) == |a|
  {
    if a != [] {
      assert (a + b)[1..] == a[1..] + b;
      IndexOfAfterPrefix(a[1..], b, c);
    }
  }

  /** Reads the two numbers back out of an `IntegerReport`. */
  function ParseIntegerReport(s: string): Option<(int, int)>
  {
    if |s| < |SIGNED_LABEL| || s[..|SIGNED_LABEL|] != SIGNED_LABEL then None
    else
      var rest := s[|SIGNED_LABEL|..];
      var k := IndexOf(rest, '\n');
      var tail := rest[k..];
      if |tail| < |UNSIGNED_LABEL| || tail[..|UNSIGNED_LABEL|] != UNSIGNED_LABEL then None
      else match (ParseDecimal(rest[..k]), ParseDecimal(tail[|UNSIGNED_LABEL|..]))
        case (Some(signed), Some(unsigned)) => Some((signed, unsigned))
        case _ => None
  }

  /** The parser splits a report at the first newline, which lies after the signed number. */
  lemma ParseReportParts(a: string, b: string)
    requires forall i :: 0 <= i < |a| ==> a[i] != '\n'
    ensures ParseIntegerReport(SIGNED_LABEL + a + UNSIGNED_LABEL + b)
         == if ParseDecimal(a).Some? && ParseDecimal(b).Some? then Some((ParseDecimal(a).value, ParseDecimal(b).value))
            else None
  {
    var tail := UNSIGNED_LABEL + b;
    var rest := a + tail;
    assert SIGNED_LABEL + a + UNSIGNED_LABEL + b == SIGNED_LABEL + rest;
    assert (SIGNED_LABEL + rest)[..|SIGNED_LABEL|] == SIGNED_LABEL;
    assert (SIGNED_LABEL + rest)[|SIGNED_LABEL|..] == rest;
    IndexOfAfterPrefix(a, tail, '\n');
    assert rest[..|a|] == a && rest[|a|..] == tail;
    assert tail[..|UNSIGNED_LABEL|] == UNSIGNED_LABEL && tail[|UNSIGNED_LABEL|..] == b;
  }

  /** The report text determines both numbers it was built from. */
  lemma IntegerReportRoundTrip(signed: int, unsigned: int)
    ensures ParseIntegerReport(IntegerReport(signed, unsigned)) == Some((signed, unsigned))
  {
    ParseReportParts(IntToDecimal(signed), IntToDecimal(unsigned));
    IntToDecimalRoundTrip(signed);
    IntToDecimalRoundTrip(unsigned);
  }

  /** A size sentinel is never mistaken for a report. */
  lemma SentinelIsNotReport(n: nat)
    ensures ParseIntegerReport(IntegerSizeSentinel(n)).None?
  {
    var s := IntegerSizeSentinel(n);
    assert s[0] == 'S' && s[1] == 'i';
    if |s| >= |SIGNED_LABEL| {
      assert s[..|SIGNED_LABEL|][2] != SIGNED_LABEL[2];
    }
  }

  // ---------------------------------------------------------------------------
  // HEX_RAW
  // ---------------------------------------------------------------------------

  /** One uppercase hexadecimal digit. */
  function HexDigit(d: nat): char
    requires d < 16
  {
    if d < 10 then ('0' as int + d) as char else ('A' as int + d - 10) as char
  }

  /** `"%02X".format(b)`: two uppercase hex digits of the byte's pattern. */
  function HexByte(b: Byte): string {
    [HexDigit(b / 16), HexDigit(b % 16)]
  }

  /** `joinToString(separator = " ") { "%02X".format(it) }`. */
  function HexJoin(bs: seq<Byte>): (s: string)
    ensures bs != [] ==> |s| == 3 * |bs| - 1
    ensures bs == [] ==> s == []
  {
    if bs == [] then []
    else if |bs| == 1 then HexByte(bs[0])
    else HexByte(bs[0]) + " " + HexJoin(bs[1..])
  }

  /** One character of the ASCII line: printable bytes as themselves, all others as '.'. */
  function AsciiChar(b: Byte): char {
    if 32 <= b <= 126 then b as char else '.'
  }

  /** The ASCII line, one character per byte. */
  function AsciiProjection(bs: seq<Byte>): (s: string)
    ensures |s| == |bs|
    ensures forall i :: 0 <= i < |bs| ==> (32 <= bs[i] <= 126 ==> s[i] as int == bs[i])
    ensures forall i :: 0 <= i < |bs| ==> (!(32 <= bs[i] <= 126) ==> s[i] == '.')
  {
    seq(|bs|, i requires 0 <= i < |bs| => AsciiChar(bs[i]))
  }

  /** `formatAsHexAndAscii`: the hex line, a newline, then the ASCII line in double quotes. */
  function FormatAsHexAndAscii(bs: seq<Byte>): string {
    HexJoin(bs) + "\n\"" + AsciiProjection(bs) + "\""
  }

  /** The value of an uppercase hex digit. */
  function HexDigitValue(c: char): Option<nat>
  {
    if '0' <= c <= '9' then Some(c as int - '0' as int)
    else if 'A' <= c <= 'F' then Some(c as int - 'A' as int + 10)
    else None
  }

  function ParseHexByte(s: string): Option<Byte>
    requires |s| == 2
  {
    match (HexDigitValue(s[0]), HexDigitValue(s[1]))
    case (Some(hi), Some(lo)) => if hi < 16 && lo < 16 then Some(16 * hi + lo) else None
    case _ => None
  }

  /** Reads the bytes back out of a space-separated hex line. */
  function ParseHexJoin(s: string): Option<seq<Byte>>
    decreases |s|
  {
    if |s| < 2 then None
    else match ParseHexByte(s[..2])
      case None => None
      case Some(b) =>
        if |s| == 2 then Some([b])
        else if s[2] != ' ' then None
        else match ParseHexJoin(s[3..])
          case None => None
          case Some(rest) => Some([b] + rest)
  }

  lemma HexByteRoundTrip(b: Byte)
    ensures ParseHexByte(HexByte(b)) == Some(b)
  {
  }

  /** The hex line determines the bytes it was built from. */
  lemma {:induction false} HexJoinRoundTrip(bs: seq<Byte>)
    requires bs != []
    ensures ParseHexJoin(HexJoin(bs)) == Some(bs)
  {
    var s := HexJoin(bs);
    HexByteRoundTrip(bs[0]);
    if |bs| == 1 {
      assert s[..2] == HexByte(bs[0]);
      assert [bs[0]] == bs;
    } else {
      var tail := HexJoin(bs[1..]);
      assert s == HexByte(bs[0]) + " " + tail;
      assert s[..2] == HexByte(bs[0]);
      assert s[2] == ' ';
      assert s[3..] == tail;
      HexJoinRoundTrip(bs[1..]);
      assert ParseHexJoin(s) == Some([bs[0]] + bs[1..]);
      assert [bs[0]] + bs[1..] == bs;
    }
  }

  lemma {:induction false} HexJoinHasNoNewline(bs: seq<Byte>)
    ensures forall i :: 0 <= i < |HexJoin(bs)| ==> HexJoin(bs)[i] != '\n'
  {
    if |bs| > 1 {
      HexJoinHasNoNewline(bs[1..]);
    }
  }

  /** Reads the bytes back out of a HEX_RAW rendering (its first line). */
  function ParseHexRaw(s: string): Option<seq<Byte>>
  {
    ParseHexJoin(s[..IndexOf(s, '\n')])
  }

  // ---------------------------------------------------------------------------
  // The dispatch
  // ---------------------------------------------------------------------------

  /** `formatAsString`: the platform's UTF-8 decoding. */
  function FormatAsString(lib: TextLibrary, bs: seq<Byte>): string {
    lib.decodeUtf8(bs)
  }

  /**
   * `formatAsFloat`: 4 bytes are a binary32 and 8 bytes a binary64, their raw
   * bits read in the requested order; other widths give the size sentinel.
   */
  function FormatAsFloat(lib: TextLibrary, bs: seq<Byte>, order: Endianness): string {
    if |bs| == 4 then lib.floatText(UnsignedValue(bs, order))
    else if |bs| == 8 then lib.doubleText(UnsignedValue(bs, order))
    else FloatSizeSentinel(|bs|)
  }

  /** `formatValue`: the sentinel for a missing or empty buffer, else the data type's rendering. */
  function FormatValue(lib: TextLibrary, bytes: Option<seq<Byte>>, dataType: CharacteristicDataType,
                       endianness: Endianness := LITTLE_ENDIAN): (r: string)
    ensures bytes.None? || bytes.value == [] ==> r == NOT_AVAILABLE
  {
    if bytes.None? || bytes.value == [] then NOT_AVAILABLE
    else
      match dataType
      case STRING => FormatAsString(lib, bytes.value)
      case INTEGER => FormatAsInteger(bytes.value, endianness)
      case FLOAT => FormatAsFloat(lib, bytes.value, endianness)
      case HEX_RAW => FormatAsHexAndAscii(bytes.value)
  }

  // ---------------------------------------------------------------------------
  // Properties of the codec
  // ---------------------------------------------------------------------------

  /**
   * For INTEGER and HEX_RAW the "N/A" sentinel appears exactly for a missing or
   * empty buffer. (STRING and FLOAT pass non-empty buffers to library code that
   * may itself produce any text.)
   */
  lemma NotAvailableExactlyForEmpty(lib: TextLibrary, bytes: Option<seq<Byte>>,
                                    dataType: CharacteristicDataType, order: Endianness)
    requires dataType == INTEGER || dataType == HEX_RAW
    ensures FormatValue(lib, bytes, dataType, order) == NOT_AVAILABLE <==> bytes.None? || bytes.value == []
  {
    if bytes.Some? && bytes.value != [] {
      var bs := bytes.value;
      if dataType == HEX_RAW {
        assert FormatValue(lib, bytes, dataType, order) == FormatAsHexAndAscii(bs);
        HexRawTextIsLong(bs);
      } else {
        assert FormatValue(lib, bytes, dataType, order) == FormatAsInteger(bs, order);
        IntegerTextStartsWithSize(bs, order);
      }
    }
  }

  lemma HexRawTextIsLong(bs: seq<Byte>)
    requires bs != []
    ensures |FormatAsHexAndAscii(bs)| >= 6
  {
  }

  /** Every INTEGER text starts with "Si": "Signed: " or "Size ". */
  lemma IntegerTextStartsWithSize(bs: seq<Byte>, order: Endianness)
    requires bs != []
    ensures var r := FormatAsInteger(bs, order); |r| >= 2 && r[0] == 'S' && r[1] == 'i'
  {
  }

  /**
   * The text is a report whose unsigned number is the raw value of the bytes
   * and whose signed number is the two's-complement reading of the same bits:
   * the unique value in [-2^(8n-1), 2^(8n-1)) congruent to it modulo 2^(8n).
   */
  predicate ReportsTwosComplement(text: string, bs: seq<Byte>, order: Endianness) {
    var report := ParseIntegerReport(text);
    var limit: int := Pow256(|bs|);
    && report.Some?
    && report.value.1 == UnsignedValue(bs, order)
    && -limit <= 2 * report.value.0 < limit
    && report.value.0 % limit == report.value.1
  }

  /** On 1, 2 or 4 bytes INTEGER reports the raw value and its two's-complement reading in the requested order. */
  lemma IntegerIsTwosComplement(lib: TextLibrary, bs: seq<Byte>, order: Endianness)
    requires |bs| == 1 || |bs| == 2 || |bs| == 4
    ensures ReportsTwosComplement(FormatValue(lib, Some(bs), INTEGER, order), bs, order)
  {
    assert FormatValue(lib, Some(bs), INTEGER, order) == FormatAsInteger(bs, order);
    if |bs| == 1 {
      ByteReportIsTwosComplement(bs, order);
    } else if |bs| == 2 {
      WordReportIsTwosComplement(bs, order);
    } else {
      DoubleWordReportIsTwosComplement(bs, order);
    }
  }

  lemma ByteReportIsTwosComplement(bs: seq<Byte>, order: Endianness)
    requires |bs| == 1
    ensures ReportsTwosComplement(FormatAsInteger(bs, order), bs, order)
  {
    Pow256Values();
    assert bs == [bs[0]];
    SingleByteValue(bs[0], order);
    IntegerReportRoundTrip(SignedByte(bs[0]), SignedByte(bs[0]) % 0x100);
  }

  lemma WordReportIsTwosComplement(bs: seq<Byte>, order: Endianness)
    requires |bs| == 2
    ensures ReportsTwosComplement(FormatAsInteger(bs, order), bs, order)
  {
    Pow256Values();
    var u := UnsignedValue(bs, order);
    var signed := TwosComplement(u, 2);
    TwosComplementWord(u);
    IntegerReportRoundTrip(signed, signed % 0x1_0000);
  }

  lemma DoubleWordReportIsTwosComplement(bs: seq<Byte>, order: Endianness)
    requires |bs| == 4
    ensures ReportsTwosComplement(FormatAsInteger(bs, order), bs, order)
  {
    Pow256Values();
    var u := UnsignedValue(bs, order);
    var signed := TwosComplement(u, 4);
    TwosComplementDoubleWord(u);
    IntegerReportRoundTrip(signed, signed % 0x1_0000_0000);
  }

  /** INTEGER on a width other than 1, 2 or 4 gives the size sentinel, and only then. */
  lemma IntegerWidthDispatch(lib: TextLibrary, bs: seq<Byte>, order: Endianness)
    requires bs != []
    ensures var r := FormatValue(lib, Some(bs), INTEGER, order);
            (ParseIntegerReport(r).Some? <==> |bs| == 1 || |bs| == 2 || |bs| == 4)
            && (|bs| != 1 && |bs| != 2 && |bs| != 4 ==> r == IntegerSizeSentinel(|bs|))
  {
    if |bs| == 1 || |bs| == 2 || |bs| == 4 {
      IntegerIsTwosComplement(lib, bs, order);
    } else {
      SentinelIsNotReport(|bs|);
    }
  }

  /** FLOAT on a width other than 4 or 8 gives its size sentinel. */
  lemma FloatWidthDispatch(lib: TextLibrary, bs: seq<Byte>, order: Endianness)
    requires bs != [] && |bs| != 4 && |bs| != 8
    ensures FormatValue(lib, Some(bs), FLOAT, order) == FloatSizeSentinel(|bs|)
  {
  }

  /** A single byte renders the same under both byte orders. */
  lemma SingleByteIgnoresOrder(lib: TextLibrary, b: Byte, dataType: CharacteristicDataType)
    ensures FormatValue(lib, Some([b]), dataType, BIG_ENDIAN) == FormatValue(lib, Some([b]), dataType, LITTLE_ENDIAN)
  {
  }

  /** The numeric renderings of bytes in big-endian order equal those of the reversed bytes in little-endian order. */
  lemma BigEndianIsReversedBytes(lib: TextLibrary, bs: seq<Byte>, dataType: CharacteristicDataType)
    requires dataType == INTEGER || dataType == FLOAT
    ensures FormatValue(lib, Some(bs), dataType, BIG_ENDIAN) == FormatValue(lib, Some(Reverse(bs)), dataType, LITTLE_ENDIAN)
  {
    BigEndianIsReversedLittleEndian(bs);
    if |bs| == 1 {
      assert Reverse(bs) == bs;
    }
  }

  /** HEX_RAW: the hex line holds exactly the bytes, in order. */
  lemma HexRawRoundTrip(lib: TextLibrary, bs: seq<Byte>, order: Endianness)
    requires bs != []
    ensures ParseHexRaw(FormatValue(lib, Some(bs), HEX_RAW, order)) == Some(bs)
  {
    var hex := HexJoin(bs);
    var r := FormatValue(lib, Some(bs), HEX_RAW, order);
    assert r == hex + ("\n\"" + AsciiProjection(bs) + "\"");
    HexJoinHasNoNewline(bs);
    IndexOfAfterPrefix(hex, "\n\"" + AsciiProjection(bs) + "\"", '\n');
    assert r[..|hex|] == hex;
    HexJoinRoundTrip(bs);
  }

  /**
   * HEX_RAW layout: 3n-1 hex characters, a newline, a double quote, one ASCII
   * character per byte, a closing double quote. Each ASCII character is
   * printable, equals its byte exactly when the byte is in 32..126, and is '.'
   * for every other byte, 0x80 and above included.
   */
  lemma HexRawLayout(lib: TextLibrary, bs: seq<Byte>, order: Endianness)
    requires bs != []
    ensures var r := FormatValue(lib, Some(bs), HEX_RAW, order);
            var n := |bs|;
            && |r| == 4 * n + 2
            && r[3 * n - 1] == '\n' && r[3 * n] == '"' && r[4 * n + 1] == '"'
            && var ascii := r[3 * n + 1 .. 4 * n + 1];
            && |ascii| == n
            && (forall i :: 0 <= i < n ==> 32 <= ascii[i] as int <= 126)
            && (forall i :: 0 <= i < n ==> (ascii[i] as int == bs[i] <==> 32 <= bs[i] <= 126))
            && (forall i :: 0 <= i < n ==> !(32 <= bs[i] <= 126) ==> ascii[i] == '.')
  {
    var n := |bs|;
    var r := FormatValue(lib, Some(bs), HEX_RAW, order);
    var ascii := AsciiProjection(bs);
    assert r == HexJoin(bs) + "\n\"" + ascii + "\"";
    assert r[3 * n + 1 .. 4 * n + 1] == ascii;
  }

  /** The battery-level example, one byte 0x64 (100), as HEX_RAW. */
  lemma BatteryLevelAsHex(lib: TextLibrary)
    ensures FormatValue(lib, Some([0x64]), HEX_RAW) == "64\n\"d\""
  {
    assert HexByte(0x64) == "64";
    assert AsciiProjection([0x64]) == "d";
    assert FormatAsHexAndAscii([0x64]) == "64\n\"d\"";
  }

  /** The battery-level example as INTEGER. */
  lemma BatteryLevelAsInteger(lib: TextLibrary)
    ensures FormatValue(lib, Some([0x64]), INTEGER) == "Signed: 100\nUnsigned: 100"
  {
    assert FormatValue(lib, Some([0x64]), INTEGER) == FormatAsInteger([0x64], LITTLE_ENDIAN);
    assert SignedByte(0x64) == 100;
    assert FormatAsInteger([0x64], LITTLE_ENDIAN) == IntegerReport(100, 100);
    HundredInDecimal();
    assert IntegerReport(100, 100) == SIGNED_LABEL + "100" + UNSIGNED_LABEL + "100";
  }

  lemma HundredInDecimal()
    ensures IntToDecimal(100) == "100"
  {
    assert NatToDecimal(1) == "1";
    assert NatToDecimal(10) == NatToDecimal(1) + "0";
    assert NatToDecimal(100) == NatToDecimal(10) + "0";
  }
}
