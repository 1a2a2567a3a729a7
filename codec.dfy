/**
 * The article content codec of js/db.js: `utf8ToHex`, `isHexStrict` and
 * `hexToUtf8`. Article text is encoded to UTF-8 by the `utf8` library, the
 * zero bytes at both ends are dropped, and the rest is written as `0x`
 * followed by two lowercase hex digits per byte. Decoding checks the text
 * against `/^(-)?0x[0-9a-f]*$/i`, drops the marker and the `00` pairs at both
 * ends, reads two-character chunks with `parseInt(chunk, 16)` and hands the
 * resulting character codes to the `utf8` library.
 */
module Codec {
  import opened Results
  import opened Seqs
  import opened Numbers

  /** A character of the binary string that `utf8.encode` returns: one byte. */
  type Byte = x: int | 0 <= x < 0x100

  /** A UTF-16 code unit, what `String.fromCharCode` makes a character of. */
  type CodeUnit = x: int | 0 <= x < 0x1_0000

  /**
   * The `utf8` library, whose code is not part of this model: `encode` turns
   * text into bytes and `decode` turns a binary string back into text. Each
   * may throw, which is an `Err` here.
   */
  datatype Utf8 = Utf8(encode: string -> Result<seq<Byte>>, decode: seq<CodeUnit> -> Result<string>)

  /** The library decodes whatever it encoded. */
  ghost predicate RoundTrips(u: Utf8) {
    forall s :: u.encode(s).Ok? ==> u.decode(u.encode(s).value) == Ok(s)
  }

  /**
   * A zero byte at either end of an encoding comes from a NUL character at
   * that end of the text, as in UTF-8, where no byte of a multi-byte
   * sequence is zero.
   */
  ghost predicate ZeroBytesOnlyFromNul(u: Utf8) {
    forall s :: u.encode(s).Ok? && u.encode(s).value != [] ==>
      (u.encode(s).value[0] == 0 ==> s != [] && s[0] == '\0') &&
      (u.encode(s).value[|u.encode(s).value| - 1] == 0 ==> s != [] && s[|s| - 1] == '\0')
  }

  /** A NUL character at either end of a text is encoded as a zero byte at that end, as in UTF-8. */
  ghost predicate NulIsZeroByte(u: Utf8) {
    forall s :: u.encode(s).Ok? && s != [] ==>
      (s[0] == '\0' ==> u.encode(s).value != [] && u.encode(s).value[0] == 0) &&
      (s[|s| - 1] == '\0' ==> u.encode(s).value != [] && u.encode(s).value[|u.encode(s).value| - 1] == 0)
  }

  /** The library decodes to a text only the encoding of that text, as UTF-8, read strictly, does. */
  ghost predicate DecodesOnlyEncodings(u: Utf8) {
    forall c: seq<CodeUnit>, s :: u.decode(c) == Ok(s) && u.encode(s).Ok? ==> u.encode(s).value == c
  }

  // ---------------------------------------------------------------- encoder

  /** A lowercase hex digit, the only kind the encoder writes. */
  predicate IsLowerHex(c: char) {
    '0' <= c <= '9' || 'a' <= c <= 'f'
  }

  /** One byte as the encoder's loop writes it: `code.toString(16)`, padded with `0` to two digits. */
  function HexByte(x: Byte): string {
    var n := ToRadixString(x, 16);
    if |n| < 2 then "0" + n else n
  }

  /** The hex text of a byte string: the bytes' `HexByte`s, in order. */
  function HexOf(b: seq<Byte>): string {
    if b == [] then "" else HexByte(b[0]) + HexOf(b[1..])
  }

  /** The byte string without its leading and trailing zero bytes. */
  function StripZeroBytes(b: seq<Byte>): seq<Byte> {
    TrimSuffixRep(TrimPrefixRep(b, [0]), [0])
  }

  /** True when b neither starts nor ends with a zero byte. */
  predicate NoBoundaryZero(b: seq<Byte>) {
    b == [] || (b[0] != 0 && b[|b| - 1] != 0)
  }

  /** What `utf8ToHex` returns for text whose UTF-8 encoding is b. */
  function HexEncoding(b: seq<Byte>): string {
    "0x" + HexOf(StripZeroBytes(b))
  }

  /** What `utf8ToHex(s)` returns, or the error it throws. */
  function Encoded(u: Utf8, s: string): Result<string> {
    match u.encode(s)
    case Err(e) => Err(e)
    case Ok(b) => Ok(HexEncoding(b))
  }

  /** The loop of `utf8ToHex`: each byte's `toString(16)`, padded with `0` to two digits, appended to `hex`. */
  method WriteHex(str: seq<Byte>) returns (hex: string)
    ensures hex == HexOf(str)
  {
    hex := "";
    var i := 0;
    while i < |str|
      invariant 0 <= i <= |str|
      invariant hex == HexOf(str[..i])
    {
      var code := str[i];
      var n := ToRadixString(code, 16);
      hex := hex + (if |n| < 2 then "0" + n else n);
      HexOfAppend(str[..i], [code]);
      assert HexOf([code]) == HexByte(code) by { assert [code][1..] == []; }
      assert str[..i + 1] == str[..i] + [code];
      i := i + 1;
    }
    assert str[..i] == str;
  }

  /** `utf8ToHex` (js/db.js:586-603): encode, strip the zero bytes at both ends, write the hex digits. */
  method Utf8ToHex(s: string, u: Utf8) returns (r: Result<string>)
    ensures r == Encoded(u, s)
  {
    var encoded := u.encode(s);
    if encoded.Err? {
      return Err(encoded.message);
    }
    var str := TrimZeroBytes(encoded.value);
    var hex := WriteHex(str);
    return Ok("0x" + hex);
  }

  /** The encoder's four steps on `str`: strip leading zero bytes, reverse, strip again, reverse back. */
  method TrimZeroBytes(b: seq<Byte>) returns (str: seq<Byte>)
    ensures str == StripZeroBytes(b)
  {
    str := TrimPrefixRep(b, [0]);
    str := Reverse(str);
    str := TrimPrefixRep(str, [0]);
    str := Reverse(str);
    StripZeroBytesByReversal(b);
  }

  /** The encoder's reverse-strip-reverse steps strip the trailing zero bytes. */
  lemma StripZeroBytesByReversal(b: seq<Byte>)
    ensures Reverse(TrimPrefixRep(Reverse(TrimPrefixRep(b, [0])), [0])) == StripZeroBytes(b)
  {
    TrimSuffixByReversal(TrimPrefixRep(b, [0]), [0]);
    assert Reverse([0 as Byte]) == [0];
  }

  lemma {:induction false} HexOfAppend(a: seq<Byte>, b: seq<Byte>)
    ensures HexOf(a + b) == HexOf(a) + HexOf(b)
  {
    if a == [] {
      assert a + b == b;
    } else {
      assert (a + b)[0] == a[0] && (a + b)[1..] == a[1..] + b;
      HexOfAppend(a[1..], b);
    }
  }

  // -------------------------------------------------------------- validator

  /** The states of a scanner for `/^(-)?0x[0-9a-f]*$/i`. */
  datatype HexScan = Start | Signed | Zero | Digits | Rejected

  /** One character of the scan. */
  function Step(q: HexScan, c: char): HexScan {
    match q
    case Start => if c == '-' then Signed else if c == '0' then Zero else Rejected
    case Signed => if c == '0' then Zero else Rejected
    case Zero => if c == 'x' || c == 'X' then Digits else Rejected
    case Digits => if IsDigit(c, 16) then Digits else Rejected
    case Rejected => Rejected
  }

  /** The state after scanning all of s from q. */
  function Scan(q: HexScan, s: string): HexScan
    decreases |s|
  {
    if s == [] then q else Scan(Step(q, s[0]), s[1..])
  }

  /** `isHexStrict` on a string: the regular expression accepts it. */
  predicate IsHexStrict(s: string) {
    Scan(Start, s) == Digits
  }

  /** The language of `/^(-)?0x[0-9a-f]*$/i`, written out: a `-` or not, `0`, `x` or `X`, then hex digits of either case. */
  ghost predicate HexStrictShape(s: string) {
    var k := if |s| > 0 && s[0] == '-' then 1 else 0;
    |s| >= k + 2 && s[k] == '0' && (s[k + 1] == 'x' || s[k + 1] == 'X') && AllDigits(s[k + 2..], 16)
  }

  lemma {:induction false} ScanRejected(s: string)
    ensures Scan(Rejected, s) == Rejected
  {
    if s != [] {
      ScanRejected(s[1..]);
    }
  }

  lemma {:induction false} ScanDigits(s: string)
    ensures Scan(Digits, s) == Digits <==> AllDigits(s, 16)
  {
    if s != [] {
      ScanDigits(s[1..]);
      if !IsDigit(s[0], 16) {
        ScanRejected(s[1..]);
      } else {
        assert AllDigits(s[1..], 16) ==> AllDigits(s, 16) by {
          if AllDigits(s[1..], 16) {
            forall i | 0 <= i < |s| ensures IsDigit(s[i], 16) {
              if i > 0 { assert s[i] == s[1..][i - 1]; }
            }
          }
        }
      }
    }
  }

  /** The scanner accepts exactly the strings of the regular expression. */
  lemma IsHexStrictShape(s: string)
    ensures IsHexStrict(s) <==> HexStrictShape(s)
  {
    var k := if |s| > 0 && s[0] == '-' then 1 else 0;
    if |s| >= k + 2 && s[k] == '0' && (s[k + 1] == 'x' || s[k + 1] == 'X') {
      if k == 1 {
        assert s[1..][1..][1..] == s[3..];
        assert Scan(Start, s) == Scan(Signed, s[1..]) == Scan(Zero, s[1..][1..]) == Scan(Digits, s[3..]);
      } else {
        assert s[1..][1..] == s[2..];
        assert Scan(Start, s) == Scan(Zero, s[1..]) == Scan(Digits, s[2..]);
      }
      ScanDigits(s[k + 2..]);
    } else if |s| == 0 {
    } else if s[0] == '-' {
      if |s| >= 2 && s[1] == '0' && |s| >= 3 {
        ScanRejected(s[3..]);
        assert s[1..][1..][1..] == s[3..];
        assert Scan(Start, s) == Scan(Signed, s[1..]) == Scan(Zero, s[1..][1..]) == Scan(Rejected, s[3..]);
      } else if |s| >= 2 && s[1] != '0' {
        ScanRejected(s[2..]);
        assert s[1..][1..] == s[2..];
        assert Scan(Start, s) == Scan(Signed, s[1..]) == Scan(Rejected, s[2..]);
      } else if |s| == 2 {
        assert s[1..][1..] == [];
        assert Scan(Start, s) == Scan(Signed, s[1..]) == Scan(Zero, []);
      } else {
        assert s[1..] == [];
        assert Scan(Start, s) == Scan(Signed, []);
      }
    } else if s[0] == '0' && |s| >= 2 {
      ScanRejected(s[2..]);
      assert s[1..][1..] == s[2..];
      assert Scan(Start, s) == Scan(Zero, s[1..]) == Scan(Rejected, s[2..]);
    } else if s[0] != '0' {
      ScanRejected(s[1..]);
      assert Scan(Start, s) == Scan(Rejected, s[1..]);
    } else {
      assert s[1..] == [];
      assert Scan(Start, s) == Scan(Zero, []);
    }
  }

  /**
   * `isHexStrict` also lets a number through its type test, and then tests
   * the number's `String` form, which never holds an `x`: every number is
   * rejected.
   */
  lemma NumbersRejected(n: int)
    ensures !IsHexStrict(NumberToString(n))
  {
    var s := NumberToString(n);
    var d := ToRadixString(if n < 0 then -n else n, 10);
    IsHexStrictShape(s);
    if |d| >= 2 {
      assert IsDigit(d[1], 10);
      assert IsDigit(d[0], 10);
      assert n < 0 ==> s[2] == d[1];
    }
  }

  // ---------------------------------------------------------------- decoder

  /** `hex.replace(/^0x/i, '')`: the marker is dropped only at the very start. */
  function DropMarker(h: string): string {
    if |h| >= 2 && h[0] == '0' && (h[1] == 'x' || h[1] == 'X') then h[2..] else h
  }

  /** The text the decoder's loop reads: marker dropped, then the `00` pairs at both ends. */
  function Payload(h: string): string {
    TrimSuffixRep(TrimPrefixRep(DropMarker(h), "00"), "00")
  }

  /** `String.fromCharCode(parseInt(chunk, 16))`: NaN becomes 0, as does -0. */
  function ChunkCode(chunk: string): CodeUnit {
    match ParseInt(chunk, 16)
    case None => 0
    case Some(v) => ToUint16(v)
  }

  /** The character codes the loop appends: one per two-character chunk, the last chunk may have one character. */
  function CharCodes(h: string): seq<CodeUnit>
    decreases |h|
  {
    if |h| == 0 then []
    else if |h| == 1 then [ChunkCode(h)]
    else [ChunkCode(h[..2])] + CharCodes(h[2..])
  }

  /** Reading from position i takes one chunk of two characters, or of one at the end. */
  lemma CharCodesFrom(h: string, i: nat)
    requires i < |h|
    ensures var j := if i + 2 <= |h| then i + 2 else |h|;
      CharCodes(h[i..]) == [ChunkCode(h[i..j])] + CharCodes(h[j..])
  {
    if i + 2 <= |h| {
      assert h[i..][..2] == h[i..i + 2] && h[i..][2..] == h[i + 2..];
    } else {
      assert h[i..] == h[i..|h|];
      assert h[|h|..] == [];
    }
  }

  /** The message `hexToUtf8` throws for text that is not hex. */
  function InvalidHexMessage(h: string): string {
    "The parameter \"" + h + "\" must be a valid HEX string."
  }

  /** What `hexToUtf8(h)` returns, or the error it throws. */
  function Decoded(u: Utf8, h: string): Result<string> {
    if !IsHexStrict(h) then Err(InvalidHexMessage(h))
    else u.decode(CharCodes(Payload(h)))
  }

  /** The decoder's steps on `hex`: drop the marker, strip leading `00` pairs, reverse, strip again, reverse back. */
  method TrimZeroPairs(hex: string) returns (h: string)
    ensures h == Payload(hex)
  {
    h := DropMarker(hex);
    h := TrimPrefixRep(h, "00");
    h := Reverse(h);
    h := TrimPrefixRep(h, "00");
    h := Reverse(h);
    PayloadByReversal(hex);
  }

  /** The decoder's reverse-strip-reverse steps strip the trailing `00` pairs. */
  lemma PayloadByReversal(h: string)
    ensures Reverse(TrimPrefixRep(Reverse(TrimPrefixRep(DropMarker(h), "00")), "00")) == Payload(h)
  {
    TrimSuffixByReversal(TrimPrefixRep(DropMarker(h), "00"), "00");
    assert Reverse("00") == "00";
  }

  /** The loop of `hexToUtf8`: one `String.fromCharCode(parseInt(chunk, 16))` per two characters of h. */
  method ReadCharCodes(h: string) returns (str: seq<CodeUnit>)
    ensures str == CharCodes(h)
  {
    str := [];
    var l := |h|;
    var i := 0;
    while i < l
      invariant 0 <= i <= l + 1
      invariant i <= l ==> str + CharCodes(h[i..]) == CharCodes(h)
      invariant i > l ==> str == CharCodes(h)
    {
      var j := if i + 2 <= l then i + 2 else l;
      var code := ChunkCode(h[i..j]);
      CharCodesFrom(h, i);
      assert str + [code] + CharCodes(h[j..]) == str + ([code] + CharCodes(h[j..]));
      str := str + [code];
      i := i + 2;
      if j == l {
        assert h[j..] == [];
      }
    }
    assert h[l..] == [];
  }

  /** `hexToUtf8` (js/db.js:609-631): validate, strip, read the chunks, decode. */
  method HexToUtf8(hex: string, u: Utf8) returns (r: Result<string>)
    ensures r == Decoded(u, hex)
  {
    if !IsHexStrict(hex) {
      return Err(InvalidHexMessage(hex));
    }
    var h := TrimZeroPairs(hex);
    var str := ReadCharCodes(h);
    r := u.decode(str);
  }
}
