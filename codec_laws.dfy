/**
 * What the article codec of js/db.js promises: `utf8ToHex` writes text the
 * validator accepts, `hexToUtf8` reads it back to the same bytes minus the
 * zero bytes at both ends, and the `00` padding the decoder strips is ignored.
 */
module CodecLaws {
  import opened Results
  import opened Seqs
  import opened Numbers
  import opened Codec

  // ------------------------------------------------------------ one byte

  /** A byte is written as its two hex digits, high then low. */
  lemma HexByteDigits(x: Byte)
    ensures HexByte(x) == [DigitChar(x / 16), DigitChar(x % 16)]
  {
    if x >= 16 {
      assert ToRadixString(x / 16, 16) == [DigitChar(x / 16)];
    }
  }

  /** The two characters of a written byte are lowercase hex digits, and `parseInt(_, 16)` reads the byte back. */
  lemma HexByteFormat(x: Byte)
    ensures |HexByte(x)| == 2
    ensures IsLowerHex(HexByte(x)[0]) && IsLowerHex(HexByte(x)[1])
    ensures ParseInt(HexByte(x), 16) == Some(x)
    ensures HexByte(x) == "00" <==> x == 0
  {
    HexByteDigits(x);
    DivMod(x, 16);
    ParseTwoDigits(x / 16, x % 16);
    if HexByte(x) == "00" {
      assert DigitValue(HexByte(x)[0]) == Some(0) && DigitValue(HexByte(x)[1]) == Some(0);
    }
  }

  /** Two hex digits read back as the byte they write. */
  lemma ParseTwoDigits(hi: nat, lo: nat)
    requires hi < 16 && lo < 16
    ensures ParseInt([DigitChar(hi), DigitChar(lo)], 16) == Some(hi * 16 + lo)
  {
    var s := [DigitChar(hi), DigitChar(lo)];
    assert s[..1] == [DigitChar(hi)];
    DigitsValueSnoc([], hi, 16);
    DigitsValueSnoc([DigitChar(hi)], lo, 16);
    assert s == [DigitChar(hi)] + [DigitChar(lo)];
    DigitPrefixOfDigits(s, 16);
    assert s[0] != '-' && s[0] != '+' && s[1] != 'x' && s[1] != 'X';
  }

  // ----------------------------------------------------------- the encoder

  /** The hex text of n bytes has 2n characters, all lowercase hex digits. */
  lemma {:induction false} HexOfFormat(b: seq<Byte>)
    ensures |HexOf(b)| == 2 * |b|
    ensures forall i :: 0 <= i < |HexOf(b)| ==> IsLowerHex(HexOf(b)[i])
  {
    if b != [] {
      HexOfFormat(b[1..]);
      HexByteFormat(b[0]);
      var h, t := HexByte(b[0]), HexOf(b[1..]);
      forall i | 0 <= i < |h + t| ensures IsLowerHex((h + t)[i]) {
        if i >= 2 { assert (h + t)[i] == t[i - 2]; }
      }
    }
  }

  /** Every `utf8ToHex` output is accepted by `isHexStrict`. */
  lemma EncodingIsHexStrict(b: seq<Byte>)
    ensures IsHexStrict(HexEncoding(b))
  {
    var s := HexEncoding(b);
    var t := HexOf(StripZeroBytes(b));
    HexOfFormat(StripZeroBytes(b));
    assert s[2..] == t;
    forall i | 0 <= i < |t| ensures IsDigit(t[i], 16) {
      assert IsLowerHex(t[i]);
    }
    assert s[0] == '0' && s[1] == 'x';
    assert HexStrictShape(s);
    IsHexStrictShape(s);
  }

  /** The encoder's output, once validated, is accepted whatever the text was. */
  lemma EncodedIsHexStrict(u: Utf8, s: string)
    requires Encoded(u, s).Ok?
    ensures IsHexStrict(Encoded(u, s).value)
  {
    EncodingIsHexStrict(u.encode(s).value);
  }

  /** The decoder's chunk loop reads the encoder's hex text back to the same codes. */
  lemma {:induction false} CharCodesOfHexOf(b: seq<Byte>)
    ensures CharCodes(HexOf(b)) == b
  {
    if b != [] {
      var h, t := HexByte(b[0]), HexOf(b[1..]);
      HexByteFormat(b[0]);
      HexOfFormat(b[1..]);
      assert (h + t)[..2] == h && (h + t)[2..] == t;
      CharCodesOfHexOf(b[1..]);
      assert ChunkCode(h) == b[0];
    }
  }

  // ------------------------------------------------------ zero-byte padding

  /** After stripping, the bytes neither start nor end with zero, and only zero bytes were removed. */
  lemma StripZeroBytesShape(b: seq<Byte>)
    ensures NoBoundaryZero(StripZeroBytes(b))
    ensures exists m: nat, n: nat :: b == Repeat([0], m) + StripZeroBytes(b) + Repeat([0], n)
  {
    StripZeroBytesEnds(b);
    var t := TrimPrefixRep(b, [0]);
    var r := TrimSuffixRep(t, [0]);
    TrimPrefixRepRemovesCopies(b, [0]);
    TrimSuffixRepRemovesCopies(t, [0]);
    var m: nat :| b == Repeat([0], m) + t;
    var n: nat :| t == r + Repeat([0], n);
    assert b == Repeat([0], m) + r + Repeat([0], n);
  }

  lemma StripZeroBytesEnds(b: seq<Byte>)
    ensures NoBoundaryZero(StripZeroBytes(b))
  {
    var t := TrimPrefixRep(b, [0]);
    var r := TrimSuffixRep(t, [0]);
    TrimSuffixRepIsPrefix(t, [0]);
    if r != [] {
      assert t[..1] == [t[0]];
      assert r[|r| - 1..] == [r[|r| - 1]];
      assert r[0] == t[0];
    }
  }

  /** Stripping changes nothing exactly when there is no zero byte at either end. */
  lemma StripZeroBytesFixed(b: seq<Byte>)
    ensures StripZeroBytes(b) == b <==> NoBoundaryZero(b)
  {
    StripZeroBytesShape(b);
    if NoBoundaryZero(b) && b != [] {
      assert !StartsWith(b, [0]) by { assert b[..1] == [b[0]]; }
      assert !EndsWith(b, [0]) by { assert b[|b| - 1..] == [b[|b| - 1]]; }
    }
  }

  // ------------------------------------------------------------ round trip

  /** The hex text of nonempty bytes starts with the first byte's digits. */
  lemma HexOfFirst(c: seq<Byte>)
    requires c != []
    ensures |HexOf(c)| >= 2 && HexOf(c)[..2] == HexByte(c[0])
  {
    HexByteFormat(c[0]);
    assert HexOf(c) == HexByte(c[0]) + HexOf(c[1..]);
  }

  /** The hex text of nonempty bytes ends with the last byte's digits. */
  lemma HexOfLast(c: seq<Byte>)
    requires c != []
    ensures |HexOf(c)| >= 2 && HexOf(c)[|HexOf(c)| - 2..] == HexByte(c[|c| - 1])
  {
    var x := c[|c| - 1];
    var init := c[..|c| - 1];
    HexByteFormat(x);
    assert c == init + [x];
    HexOfAppend(init, [x]);
    assert HexOf([x]) == HexByte(x) by { assert [x][1..] == []; }
    assert HexOf(c) == HexOf(init) + HexByte(x);
  }

  /** The hex text of bytes with no zero byte at either end has no `00` pair at either end. */
  lemma HexOfNoZeroPairs(c: seq<Byte>)
    requires NoBoundaryZero(c)
    ensures TrimSuffixRep(TrimPrefixRep(HexOf(c), "00"), "00") == HexOf(c)
  {
    var h := HexOf(c);
    if c != [] {
      HexOfFirst(c);
      HexOfLast(c);
      HexByteFormat(c[0]);
      HexByteFormat(c[|c| - 1]);
      assert !StartsWith(h, "00");
      assert TrimPrefixRep(h, "00") == h;
      assert !EndsWith(h, "00");
    }
  }

  /** The payload the decoder reads from an encoding is the hex text of the stripped bytes. */
  lemma PayloadOfEncoding(b: seq<Byte>)
    ensures Payload(HexEncoding(b)) == HexOf(StripZeroBytes(b))
  {
    var c := StripZeroBytes(b);
    assert DropMarker(HexEncoding(b)) == HexOf(c);
    StripZeroBytesShape(b);
    HexOfNoZeroPairs(c);
  }

  /** `hexToUtf8(utf8ToHex(text))` decodes the text's bytes with the zero bytes at both ends removed. */
  lemma DecodeEncoding(u: Utf8, b: seq<Byte>)
    ensures Decoded(u, HexEncoding(b)) == u.decode(StripZeroBytes(b))
  {
    EncodingIsHexStrict(b);
    PayloadOfEncoding(b);
    CharCodesOfHexOf(StripZeroBytes(b));
  }

  /** Round trip on bytes: text whose encoding has no zero byte at either end is decoded back to itself. */
  lemma RoundTripBytes(u: Utf8, s: string)
    requires RoundTrips(u)
    requires u.encode(s).Ok? && NoBoundaryZero(u.encode(s).value)
    ensures Encoded(u, s).Ok?
    ensures Decoded(u, Encoded(u, s).value) == Ok(s)
  {
    var b := u.encode(s).value;
    DecodeEncoding(u, b);
    StripZeroBytesFixed(b);
  }

  /** Round trip on text: any encodable text that neither starts nor ends with NUL is decoded back to itself. */
  lemma RoundTripText(u: Utf8, s: string)
    requires RoundTrips(u) && ZeroBytesOnlyFromNul(u)
    requires u.encode(s).Ok?
    requires s == [] || (s[0] != '\0' && s[|s| - 1] != '\0')
    ensures Encoded(u, s).Ok?
    ensures Decoded(u, Encoded(u, s).value) == Ok(s)
  {
    RoundTripBytes(u, s);
  }

  /**
   * The stripping forgets zero bytes at the ends: two texts whose encodings
   * differ only in those bytes are written the same, and decoded to the same
   * text.
   */
  lemma BoundaryZerosForgotten(u: Utf8, s: string, s': string)
    requires u.encode(s).Ok? && u.encode(s').Ok?
    requires StripZeroBytes(u.encode(s).value) == StripZeroBytes(u.encode(s').value)
    ensures Encoded(u, s) == Encoded(u, s')
    ensures Encoded(u, s).Ok? && Decoded(u, Encoded(u, s).value) == Decoded(u, Encoded(u, s').value)
  {
  }

  /**
   * Text that starts or ends with NUL does not round-trip: its NUL bytes at
   * that end are stripped, and what is left decodes to some other text or
   * to an error.
   */
  lemma NulBorderLost(u: Utf8, s: string)
    requires NulIsZeroByte(u) && DecodesOnlyEncodings(u)
    requires u.encode(s).Ok? && s != [] && (s[0] == '\0' || s[|s| - 1] == '\0')
    ensures Encoded(u, s).Ok?
    ensures Decoded(u, Encoded(u, s).value) != Ok(s)
  {
    var b := u.encode(s).value;
    assert !NoBoundaryZero(b);
    StripZeroBytesFixed(b);
    DecodeEncoding(u, b);
    var c: seq<CodeUnit> := StripZeroBytes(b);
    assert u.decode(c) == Ok(s) ==> b == c;
  }

  /** The empty text is written as the bare marker `0x`, which decodes as the empty binary string. */
  lemma EmptyText(u: Utf8)
    requires u.encode("") == Ok([])
    ensures Encoded(u, "") == Ok("0x")
    ensures Decoded(u, "0x") == u.decode([])
  {
    assert StripZeroBytes([]) == [];
    assert HexEncoding([]) == "0x" + [] == "0x";
    DecodeEncoding(u, []);
  }

  // ----------------------------------------------------- the decoder alone

  /** One copy of p at the front is stripped like the rest. */
  lemma TrimPrefixRepCons<T>(p: seq<T>, rest: seq<T>)
    requires |p| > 0
    ensures TrimPrefixRep(p + rest, p) == TrimPrefixRep(rest, p)
  {
    assert (p + rest)[..|p|] == p;
    assert (p + rest)[|p|..] == rest;
  }

  lemma {:induction false} TrimPrefixRepAfterCopies<T>(p: seq<T>, k: nat, t: seq<T>)
    requires |p| > 0
    ensures TrimPrefixRep(Repeat(p, k) + t, p) == TrimPrefixRep(t, p)
  {
    if k > 0 {
      assert Repeat(p, k) + t == p + (Repeat(p, k - 1) + t);
      TrimPrefixRepCons(p, Repeat(p, k - 1) + t);
      TrimPrefixRepAfterCopies(p, k - 1, t);
    } else {
      assert Repeat(p, k) + t == t;
    }
  }

  /** A trailing `00` pair is stripped from text with no `00` pair at its front, which is left alone. */
  lemma TrimTrailingPair(w: string)
    requires !StartsWith(w, "00")
    ensures TrimSuffixRep(TrimPrefixRep(w + "00", "00"), "00") == TrimSuffixRep(w, "00")
  {
    var v := w + "00";
    assert EndsWith(v, "00") && v[..|v| - 2] == w;
    if |w| >= 2 {
      assert v[..2] == w[..2];
    } else if |w| == 1 && w[0] == '0' {
      assert v[..2] == "00" && v[2..] == w;
      assert TrimPrefixRep(w, "00") == w;
      assert TrimSuffixRep(w, "00") == w;
    } else if |w| == 1 {
      assert v[0] == w[0];
    } else {
      assert v == "00" && v[2..] == [];
    }
  }

  /** Stripped of its zero pairs, hex text padded with `00` at both ends reads as the unpadded text. */
  lemma PaddedPayload(h: string)
    ensures Payload("0x00" + h + "00") == Payload("0x" + h)
  {
    assert DropMarker("0x00" + h + "00") == "00" + (h + "00");
    assert DropMarker("0x" + h) == h;
    TrimPrefixRepCons("00", h + "00");
    var w := TrimPrefixRep(h, "00");
    TrimPrefixRepRemovesCopies(h, "00");
    var k: nat :| h == Repeat("00", k) + w;
    assert h + "00" == Repeat("00", k) + (w + "00");
    TrimPrefixRepAfterCopies("00", k, w + "00");
    TrimTrailingPair(w);
  }

  /** Hex digits pass `isHexStrict` after the marker, padded with `00` at both ends or not. */
  lemma PaddedHexStrict(h: string)
    requires AllDigits(h, 16)
    ensures IsHexStrict("0x00" + h + "00") && IsHexStrict("0x" + h)
  {
    var a, b := "0x00" + h + "00", "0x" + h;
    forall i | 0 <= i < |a[2..]| ensures IsDigit(a[2..][i], 16) {
      if 2 <= i < |h| + 2 { assert a[2..][i] == h[i - 2]; }
    }
    assert b[2..] == h;
    IsHexStrictShape(a);
    IsHexStrictShape(b);
  }

  /** Hex digits padded with `00` at both ends decode exactly as the unpadded digits. */
  lemma PaddingIgnored(u: Utf8, h: string)
    requires AllDigits(h, 16)
    ensures Decoded(u, "0x00" + h + "00") == Decoded(u, "0x" + h)
  {
    PaddedPayload(h);
    PaddedHexStrict(h);
  }

  /** Text the validator rejects makes the decoder fail with the message naming it. */
  lemma RejectedText(u: Utf8, h: string)
    requires !HexStrictShape(h)
    ensures Decoded(u, h) == Err(InvalidHexMessage(h))
  {
    IsHexStrictShape(h);
  }

  /** `parseInt(chunk, 16)` on the chunks of `-0x41`: `-0` is -0 and `x4` is NaN, both read as code 0. */
  lemma SignedChunkCodes()
    ensures ChunkCode("-0") == 0 && ChunkCode("x4") == 0 && ChunkCode("1") == 1
  {
    MinusZeroChunk();
    assert ParseInt("x4", 16) == None by {
      assert DigitPrefix("x4", 16) == [];
    }
    assert "1" == [DigitChar(1)];
    ParseOneDigit(1);
  }

  lemma MinusZeroChunk()
    ensures ParseInt("-0", 16) == Some(0)
  {
    assert "-0"[1..] == "0";
    assert DigitPrefix("0", 16) == "0";
  }

  /** One hex digit reads back as its value. */
  lemma ParseOneDigit(d: nat)
    requires d < 16
    ensures ParseInt([DigitChar(d)], 16) == Some(d)
  {
    var s := [DigitChar(d)];
    DigitsValueSnoc([], d, 16);
    assert [] + [DigitChar(d)] == s;
    DigitPrefixOfDigits(s, 16);
    assert s[0] != '-' && s[0] != '+';
  }

  /** `parseInt(chunk, 16)` on the chunks of `abc`: a pair, then a single digit. */
  lemma OddChunkCodes()
    ensures ChunkCode("ab") == 0xab && ChunkCode("c") == 0x0c
  {
    assert "ab" == [DigitChar(10), DigitChar(11)];
    ParseTwoDigits(10, 11);
    assert "c" == [DigitChar(12)];
    ParseOneDigit(12);
  }

  /** `-0x41` passes the validator and no `00` pair is stripped from it. */
  lemma SignedTextRead()
    ensures IsHexStrict("-0x41") && Payload("-0x41") == "-0x41"
  {
    var h := "-0x41";
    assert h[3..] == "41";
    assert HexStrictShape(h);
    IsHexStrictShape(h);
    assert DropMarker(h) == h;
    assert h[..2] == "-0" && h[5 - 2..] == "41";
  }

  /** A signed text is accepted; its `-0` and `x4` chunks become code 0. */
  lemma SignedTextChunks(u: Utf8)
    ensures Decoded(u, "-0x41") == u.decode([0, 0, 1])
  {
    SignedTextRead();
    SignedChunkCodes();
    var h := "-0x41";
    assert h[..2] == "-0" && h[2..] == "x41";
    assert "x41"[..2] == "x4" && "x41"[2..] == "1";
    assert CharCodes("x41") == [ChunkCode("x4")] + CharCodes("1");
    assert CharCodes(h) == [0, 0, 1];
  }

  /** `0xabc` passes the validator and reads as the payload `abc`. */
  lemma OddTextRead()
    ensures IsHexStrict("0xabc") && Payload("0xabc") == "abc"
  {
    var h := "0xabc";
    assert h[2..] == "abc";
    assert HexStrictShape(h);
    IsHexStrictShape(h);
    assert DropMarker(h) == "abc";
    assert "abc"[..2] == "ab" && "abc"[3 - 2..] == "bc";
  }

  /** An odd-length payload is accepted; its last character is read alone. */
  lemma OddPayloadChunks(u: Utf8)
    ensures Decoded(u, "0xabc") == u.decode([0xab, 0x0c])
  {
    OddTextRead();
    OddChunkCodes();
    assert "abc"[..2] == "ab" && "abc"[2..] == "c";
    assert CharCodes("abc") == [0xab, 0x0c];
  }
}
