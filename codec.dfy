/** The record format shared by the generator, the writer and the sorter: one
    signed 64-bit integer per line, written as Swift's string interpolation
    `"\(n)\n"` prints it, appended to a byte buffer as UTF-8, and read back
    with `Int(_:)`. */
module Codec {
  import opened Wrappers

  const Int64Min: int := -0x8000_0000_0000_0000
  const Int64Max: int := 0x7FFF_FFFF_FFFF_FFFF

  /** Swift's `Int` on a 64-bit platform. */
  type Int64 = x: int | Int64Min <= x <= Int64Max

  /** An element of `[UInt8]`. */
  type byte = b: int | 0 <= b < 256

  /** The UTF-8 encoding of `"\n"`. */
  const LF: byte := 10

  /** The longest record in bytes: `"-9223372036854775808\n"`. */
  const MaxRecordBytes: nat := 21

  predicate IsDigit(c: char) {
    '0' <= c <= '9'
  }

  predicate AllDigits(s: string) {
    forall i :: 0 <= i < |s| ==> IsDigit(s[i])
  }

  function Pow10(k: nat): (p: nat)
    ensures p >= 1
  {
    if k == 0 then 1 else 10 * Pow10(k - 1)
  }

  function DigitChar(d: nat): (c: char)
    requires d < 10
    ensures IsDigit(c) && c as int - '0' as int == d
  {
    ('0' as int + d) as char
  }

  // ---------------------------------------------------------------------------
  // Printing: `"\(n)"`

  /** The decimal digits of `n`, most significant first, with no leading zero. */
  function Digits(n: nat): (s: string)
    ensures |s| > 0 && AllDigits(s)
    ensures s[0] == '0' ==> n == 0
    decreases n
  {
    if n < 10 then [DigitChar(n)] else Digits(n / 10) + [DigitChar(n % 10)]
  }

  /** `"\(n)"` for a Swift `Int`: a minus sign exactly when `n` is negative,
      then the digits of its magnitude. */
  function Show(n: int): (s: string)
    ensures |s| > 0
    ensures s[0] == '-' <==> n < 0
    ensures forall i :: 0 <= i < |s| ==> IsDigit(s[i]) || (i == 0 && s[i] == '-')
    ensures s[0] != '-' && |s| > 1 ==> s[0] != '0'
    ensures s[0] == '-' ==> |s| > 1 && s[1] != '0'
  {
    if n < 0 then "-" + Digits(-n) else Digits(n)
  }

  /** The text of one record, `"\(n)\n"`: the decimal form and exactly one
      newline, at the end. */
  function Line(n: int): (s: string)
    ensures |s| >= 2 && s[|s| - 1] == '\n'
    ensures forall i :: 0 <= i < |s| - 1 ==> s[i] != '\n'
  {
    Show(n) + "\n"
  }

  // ---------------------------------------------------------------------------
  // Bytes: `s.utf8` for the ASCII strings records are made of

  /** `b` is `s.utf8` for an ASCII string `s`: one byte per character, its
      code. */
  predicate Encodes(b: seq<byte>, s: string) {
    |b| == |s| && forall i :: 0 <= i < |b| ==> b[i] == s[i] as int
  }

  /** The UTF-8 encoding of `"-"`. */
  const Minus: byte := 45

  /** `Digits(m).utf8`, computed digit by digit. */
  function DigitBytes(m: nat): seq<byte>
    decreases m
  {
    if m < 10 then [48 + m] else DigitBytes(m / 10) + [48 + m % 10]
  }

  lemma {:induction false} DigitBytesText(m: nat)
    ensures Encodes(DigitBytes(m), Digits(m))
    decreases m
  {
    if m >= 10 {
      DigitBytesText(m / 10);
    }
  }

  /** The bytes `writeToFile` appends for one number: `"\(n)\n".utf8`. */
  function RecordBytes(n: Int64): (b: seq<byte>)
    ensures 2 <= |b| <= MaxRecordBytes
  {
    RecordBytesText(n);
    RecordLength(n);
    (if n < 0 then [Minus] else []) + DigitBytes(if n < 0 then -(n as int) else n) + [LF]
  }

  /** The record bytes are the UTF-8 encoding of the record text `"\(n)\n"`. */
  lemma RecordBytesText(n: Int64)
    ensures Encodes((if n < 0 then [Minus] else []) + DigitBytes(if n < 0 then -(n as int) else n) + [LF], Line(n))
  {
    var m: nat := if n < 0 then -(n as int) else n;
    var b, s := (if n < 0 then [Minus] else []) + DigitBytes(m) + [LF], Line(n);
    var d, t := DigitBytes(m), Digits(m);
    DigitBytesText(m);
    var k := if n < 0 then 1 else 0;
    assert b == b[..k] + d + [LF];
    assert s == s[..k] + t + "\n";
    forall i | 0 <= i < |b|
      ensures b[i] == s[i] as int
    {
      if i < k {
        assert b[i] == Minus && s[i] == '-';
      } else if i < k + |d| {
        assert b[i] == d[i - k] && s[i] == t[i - k];
      }
    }
  }

  /** The bytes written for `n` are the UTF-8 encoding of `"\(n)\n"`. */
  lemma RecordBytesEncodeLine(n: Int64)
    ensures Encodes(RecordBytes(n), Line(n))
  {
    RecordBytesText(n);
  }

  /** A record's bytes hold exactly one newline, at the end. */
  lemma RecordEndsLine(n: Int64)
    ensures var b := RecordBytes(n);
      b[|b| - 1] == LF && forall k :: 0 <= k < |b| - 1 ==> b[k] != LF
  {
    RecordBytesEncodeLine(n);
    var b, s := RecordBytes(n), Line(n);
    assert b[|b| - 1] == s[|s| - 1] as int;
    forall k | 0 <= k < |b| - 1
      ensures b[k] != LF
    {
      assert b[k] == s[k] as int && s[k] != '\n';
    }
  }

  /** The bytes of a whole array of records, in order: between 2 and
      `MaxRecordBytes` bytes per number. */
  function Serialize(xs: seq<Int64>): (b: seq<byte>)
    ensures 2 * |xs| <= |b| <= MaxRecordBytes * |xs|
    decreases |xs|
  {
    if xs == [] then [] else Serialize(xs[..|xs| - 1]) + RecordBytes(xs[|xs| - 1])
  }

  /** Serialising one more number appends its record. */
  lemma SerializeSnoc(xs: seq<Int64>, x: Int64)
    ensures Serialize(xs + [x]) == Serialize(xs) + RecordBytes(x)
  {
    assert (xs + [x])[..|xs|] == xs;
  }

  /** The serialised array holds exactly one newline per number. */
  lemma {:induction false} SerializeLineCount(xs: seq<Int64>)
    ensures multiset(Serialize(xs))[LF] == |xs|
    decreases |xs|
  {
    if xs != [] {
      var r := RecordBytes(xs[|xs| - 1]);
      RecordEndsLine(xs[|xs| - 1]);
      assert r == r[..|r| - 1] + [LF];
      assert LF !in r[..|r| - 1];
      assert multiset(r)[LF] == 1;
      SerializeLineCount(xs[..|xs| - 1]);
    }
  }

  /** A non-empty serialised array ends with a newline. */
  lemma SerializeEndsWithLF(xs: seq<Int64>)
    requires xs != []
    ensures |Serialize(xs)| > 0 && Serialize(xs)[|Serialize(xs)| - 1] == LF
  {
    RecordEndsLine(xs[|xs| - 1]);
  }

  lemma {:induction false} SerializeAppend(xs: seq<Int64>, ys: seq<Int64>)
    ensures Serialize(xs + ys) == Serialize(xs) + Serialize(ys)
    decreases |ys|
  {
    if ys == [] {
      assert xs + ys == xs;
    } else {
      var ys', y := ys[..|ys| - 1], ys[|ys| - 1];
      assert (xs + ys)[..|xs + ys| - 1] == xs + ys';
      assert (xs + ys)[|xs + ys| - 1] == y;
      calc {
        Serialize(xs + ys);
        Serialize(xs + ys') + RecordBytes(y);
        { SerializeAppend(xs, ys'); }
        Serialize(xs) + Serialize(ys') + RecordBytes(y);
        Serialize(xs) + (Serialize(ys') + RecordBytes(y));
        Serialize(xs) + Serialize(ys);
      }
    }
  }

  // ---------------------------------------------------------------------------
  // Lengths

  lemma {:induction false} DigitsLength(n: nat, k: nat)
    requires 1 <= k
    ensures n < Pow10(k) ==> |Digits(n)| <= k
    ensures Pow10(k - 1) <= n ==> |Digits(n)| >= k
    decreases k
  {
    if n >= 10 && k > 1 {
      DigitsLength(n / 10, k - 1);
    }
  }

  lemma Pow10Values()
    ensures Pow10(18) == 1_000_000_000_000_000_000
    ensures Pow10(19) == 10_000_000_000_000_000_000
  {
    assert Pow10(1) == 10;
    assert Pow10(2) == 100;
    assert Pow10(3) == 1000;
    assert Pow10(4) == 10000;
    assert Pow10(5) == 100000;
    assert Pow10(6) == 1000000;
    assert Pow10(7) == 10000000;
    assert Pow10(8) == 100000000;
    assert Pow10(9) == 1000000000;
    assert Pow10(10) == 10000000000;
    assert Pow10(11) == 100000000000;
    assert Pow10(12) == 1000000000000;
    assert Pow10(13) == 10000000000000;
    assert Pow10(14) == 100000000000000;
    assert Pow10(15) == 1000000000000000;
    assert Pow10(16) == 10000000000000000;
    assert Pow10(17) == 100000000000000000;
    assert Pow10(18) == 1000000000000000000;
    assert Pow10(19) == 10000000000000000000;
  }

  /** Every record of a 64-bit integer fits in `MaxRecordBytes` bytes. */
  lemma RecordLength(n: Int64)
    ensures |Line(n)| <= MaxRecordBytes
  {
    Pow10Values();
    if n < 0 {
      DigitsLength(-(n as int), 19);
    } else {
      DigitsLength(n, 19);
    }
  }

  /** `"\(Int.max)\n".count` is 20 and `"\(Int.min)\n".count` is 21. */
  lemma ExtremeRecordLengths()
    ensures |Line(Int64Max)| == 20
    ensures |Line(Int64Min)| == MaxRecordBytes
  {
    Pow10Values();
    DigitsLength(Int64Max, 19);
    DigitsLength(-Int64Min, 19);
  }

  // ---------------------------------------------------------------------------
  // Parsing: `Int(line)` and `Int(line) ?? 0`

  /** The value of a string of decimal digits. */
  function Magnitude(s: string): nat
    requires AllDigits(s)
    decreases |s|
  {
    if s == [] then 0 else Magnitude(s[..|s| - 1]) * 10 + (s[|s| - 1] as int - '0' as int)
  }

  /** The text `Int(_:)` accepts as a number: an optional `+` or `-` sign
      followed by one or more decimal digits, and nothing else. */
  predicate SignedDigits(s: string) {
    && |s| >= 1
    && (forall i :: 0 < i < |s| ==> IsDigit(s[i]))
    && (IsDigit(s[0]) || ((s[0] == '-' || s[0] == '+') && |s| >= 2))
  }

  /** The value such a text denotes, whether or not it fits in 64 bits. */
  function SignedValue(s: string): int
    requires SignedDigits(s)
  {
    if s[0] == '-' then -(Magnitude(s[1..]) as int) else if s[0] == '+' then Magnitude(s[1..]) else Magnitude(s)
  }

  /** Swift's `Int(_ text: String)`: an optional `+` or `-` sign followed by
      one or more decimal digits whose value fits in 64 bits; anything else,
      including the empty string, surrounding spaces and overflow, is `nil`. */
  function ParseInt(s: string): (r: Option<Int64>)
    ensures r.Some? <==> SignedDigits(s) && Int64Min <= SignedValue(s) <= Int64Max
    ensures r.Some? ==> r.value == SignedValue(s)
  {
    var signed := |s| > 0 && (s[0] == '-' || s[0] == '+');
    var body := if signed then s[1..] else s;
    assert forall i :: 0 <= i < |body| ==> body[i] == s[if signed then i + 1 else i];
    if body == [] || !AllDigits(body) then None
    else
      var m: int := if signed && s[0] == '-' then -(Magnitude(body) as int) else Magnitude(body);
      if Int64Min <= m <= Int64Max then Some(m) else None
  }

  /** `Int(line) ?? 0`: the value of a well-formed line within 64 bits, and
      zero for anything else. */
  function ParseOrZero(line: string): (v: Int64)
    ensures SignedDigits(line) && Int64Min <= SignedValue(line) <= Int64Max ==> v == SignedValue(line)
    ensures !SignedDigits(line) ==> v == 0
    ensures SignedDigits(line) && !(Int64Min <= SignedValue(line) <= Int64Max) ==> v == 0
  {
    ParseInt(line).GetOr(0)
  }

  lemma {:induction false} MagnitudeOfDigits(n: nat)
    ensures Magnitude(Digits(n)) == n
    decreases n
  {
    if n >= 10 {
      var d := Digits(n / 10);
      assert Digits(n) == d + [DigitChar(n % 10)];
      assert (d + [DigitChar(n % 10)])[..|d|] == d;
      MagnitudeOfDigits(n / 10);
    }
  }

  /** Reading back what `"\(n)"` prints gives `n`. */
  lemma ParseShow(n: Int64)
    ensures ParseInt(Show(n)) == Some(n)
    ensures ParseOrZero(Show(n)) == n
  {
    var s := Show(n);
    if n < 0 {
      assert s[1..] == Digits(-(n as int));
      MagnitudeOfDigits(-(n as int));
    } else {
      MagnitudeOfDigits(n);
    }
  }

  /** A line holding anything but a sign and digits (`"abc"`, `"1 2"`,
      `" 12"`, `"x5"`, `"-"`, `""`) is read as zero. */
  lemma ParseOrZeroMalformed(line: string)
    requires !SignedDigits(line)
    ensures ParseInt(line) == None
    ensures ParseOrZero(line) == 0
  {
  }

  /** Digits beyond the 64-bit range are not a number and read as zero:
      `Int("9223372036854775808")` and `Int("-9223372036854775809")` are
      `nil`. */
  lemma ParseOutOfRange(n: nat)
    requires n > Int64Max
    ensures ParseInt(Digits(n)) == None && ParseOrZero(Digits(n)) == 0
    ensures n > -Int64Min ==> ParseInt("-" + Digits(n)) == None && ParseOrZero("-" + Digits(n)) == 0
  {
    MagnitudeOfDigits(n);
    var neg := "-" + Digits(n);
    assert neg[1..] == Digits(n);
  }

  lemma ParseOutOfRangeExamples()
    ensures ParseOrZero(Digits(Int64Max + 1)) == 0
    ensures ParseOrZero("-" + Digits(-Int64Min + 1)) == 0
  {
    ParseOutOfRange(Int64Max + 1);
    ParseOutOfRange(-Int64Min + 1);
  }

  /** Distinct numbers print differently. */
  lemma {:induction false} DigitsInjective(a: nat, b: nat)
    requires Digits(a) == Digits(b)
    ensures a == b
  {
    MagnitudeOfDigits(a);
    MagnitudeOfDigits(b);
  }
}
