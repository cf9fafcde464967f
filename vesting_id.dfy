/**
 * `bytes32_from_any`: turns a loosely typed vesting identifier into the 32-byte
 * key of the contract's `vestings` mapping.
 *
 * `BytesFromAny` is the function as written. `Bytes32FromAny` is the corrected
 * normaliser the pipeline uses: it also rejects a 64-character body that
 * `bytes.fromhex` decodes to fewer than 32 bytes because of embedded whitespace.
 */
module VestingId {
  import opened Wrappers
  import opened PyStr
  import opened Hex

  type Bytes32 = b: seq<Byte> | |b| == 32 witness seq(32, i => 0)

  /** A vestingId cell: a `bytes` or `bytearray` value, or any other value, carried by its `str()` form. */
  datatype RawValue =
    | RawBytes(bytes: seq<Byte>)
    | RawByteArray(bytes: seq<Byte>)
    | RawOther(text: string)

  /** The three `ValueError`s the normaliser raises, with the values their messages show. */
  datatype IdError =
    | ByteLength(got: nat)                 // raw bytes of another length than 32
    | HexLength(got: nat, value: string)   // body length other than 64, and the stripped text
    | InvalidHex(value: string)            // body that does not decode, and the stripped text

  /** `str(v)`: the form the output row shows for the identifier. */
  function StrForm(v: RawValue): (r: string)
    ensures v.RawOther? ==> r == v.text
    ensures v.RawBytes? ==> r == BytesRepr(v.bytes) && r[0] == 'b' && ParseBytesRepr(r) == Some(v.bytes)
    ensures v.RawByteArray? ==>
              r == ByteArrayRepr(v.bytes) && r[..10] == "bytearray(" && ParseByteArrayRepr(r) == Some(v.bytes)
  {
    match v
    case RawBytes(b) => BytesRepr(b)
    case RawByteArray(b) => ByteArrayRepr(b)
    case RawOther(text) => text
  }

  /**
   * The shown text identifies a raw `bytes` or `bytearray` identifier: two such
   * values with the same text are the same value. (A string cell shows its own
   * text, so it can coincide with a repr.)
   */
  lemma StrFormInjective(v: RawValue, w: RawValue)
    requires !v.RawOther? && !w.RawOther?
    ensures StrForm(v) == StrForm(w) ==> v == w
  {
  }

  /** `s.startswith("0x")`: lower case only. */
  predicate StartsWith0x(s: string)
  {
    |s| >= 2 && s[0] == '0' && s[1] == 'x'
  }

  /** The text left once one leading `0x` is removed; `0X` is kept. */
  function HexBody(s: string): string
  {
    if StartsWith0x(s) then s[2..] else s
  }

  /** The text the length and hex checks look at: the stripped string without its `0x`. */
  function Body(text: string): string
  {
    HexBody(Strip(text))
  }

  /** Whitespace around a body that starts and ends with a non-space is stripped away. */
  lemma BodyOfSurrounded(ws1: string, x: string, ws2: string)
    requires AllSpace(ws1) && AllSpace(ws2)
    requires |x| > 0 && !IsSpace(x[0]) && !IsSpace(x[|x| - 1])
    ensures Strip(ws1 + x + ws2) == x
    ensures Body(ws1 + x + ws2) == HexBody(x)
  {
    StripSurrounded(ws1, x, ws2);
  }

  /**
   * `bytes32_from_any` as written. Since `bytes.fromhex` skips whitespace between
   * digit pairs, a successful string input may give fewer than 32 bytes.
   */
  function BytesFromAny(v: RawValue): (r: Result<seq<Byte>, IdError>)
    ensures r.Ok? ==> |r.value| <= 32
    ensures !v.RawOther? ==> r == (if |v.bytes| == 32 then Ok(v.bytes) else Err(ByteLength(|v.bytes|)))
    ensures v.RawOther? && r.Ok? ==> (|r.value| == 32 <==> AllHex(Body(v.text)))
  {
    match v
    case RawBytes(b) => if |b| != 32 then Err(ByteLength(|b|)) else Ok(b)
    case RawByteArray(b) => if |b| != 32 then Err(ByteLength(|b|)) else Ok(b)
    case RawOther(text) =>
      var s := Strip(text);
      var body := Body(text);
      if |body| != 64 then Err(HexLength(|body|, s))
      else
        match FromHex(body)
        case None => Err(InvalidHex(s))
        case Some(b) =>
          assert AllHex(body) ==> |b| == 32 by {
            if AllHex(body) { FromHexOfDigits(body); }
          }
          Ok(b)
  }

  /**
   * The normaliser as evidently intended: the same branches and errors, and a
   * 64-character body is accepted only when it decodes to exactly 32 bytes.
   */
  function Bytes32FromAny(v: RawValue): (r: Result<Bytes32, IdError>)
    ensures !v.RawOther? ==> (r.Ok? <==> |v.bytes| == 32)
    ensures !v.RawOther? && r.Ok? ==> r.value == v.bytes
    ensures v.RawOther? ==>
      (r.Ok? <==> |Body(v.text)| == 64 && AllHex(Body(v.text)))
    ensures v.RawOther? && r.Ok? ==> ToHex(r.value) == LowerHex(Body(v.text))
  {
    match v
    case RawBytes(b) => if |b| != 32 then Err(ByteLength(|b|)) else Ok(b)
    case RawByteArray(b) => if |b| != 32 then Err(ByteLength(|b|)) else Ok(b)
    case RawOther(text) =>
      var s := Strip(text);
      var body := Body(text);
      if |body| != 64 then Err(HexLength(|body|, s))
      else
        var decoded := FromHex(body);
        if decoded.Some? && |decoded.value| == 32 then
          assert ToHex(decoded.value) == LowerHex(body) by { ToHexFromHex(body); }
          Ok(decoded.value)
        else
          assert !AllHex(body) by {
            if AllHex(body) { FromHexOfDigits(body); }
          }
          Err(InvalidHex(s))
  }

  /**
   * The two normalisers agree except on the inputs the correction is for: a
   * 64-character body that the original decodes to fewer than 32 bytes.
   */
  lemma CorrectionAgrees(v: RawValue)
    ensures BytesFromAny(v).Err? ==> Bytes32FromAny(v).Err? && Bytes32FromAny(v).error == BytesFromAny(v).error
    ensures BytesFromAny(v).Ok? && |BytesFromAny(v).value| == 32 ==>
      Bytes32FromAny(v).Ok? && Bytes32FromAny(v).value == BytesFromAny(v).value
    ensures BytesFromAny(v).Ok? && |BytesFromAny(v).value| != 32 ==>
      v.RawOther? && Bytes32FromAny(v) == Err(InvalidHex(Strip(v.text)))
  {
  }

  /** A text whose body is 64 hex digits normalises to the decoded body. */
  lemma AcceptsDigits(text: string)
    requires |Body(text)| == 64 && AllHex(Body(text))
    ensures FromHex(Body(text)).Some?
    ensures Bytes32FromAny(RawOther(text)) == Ok(FromHex(Body(text)).value)
  {
    FromHexOfDigits(Body(text));
  }

  /** 64 hex digits, with or without `0x` and surrounding whitespace, leave exactly the digits as the body. */
  lemma BodyOfDigits(h: string, ws1: string, ws2: string)
    requires |h| == 64 && AllHex(h)
    requires AllSpace(ws1) && AllSpace(ws2)
    ensures Body(ws1 + h + ws2) == h
    ensures Body(ws1 + "0x" + h + ws2) == h
  {
    assert h[1] != 'x';
    BodyOfSurrounded(ws1, h, ws2);
    assert ws1 + "0x" + h + ws2 == ws1 + ("0x" + h) + ws2;
    BodyOfSurrounded(ws1, "0x" + h, ws2);
    assert ("0x" + h)[2..] == h;
  }

  /** `BodyOfDigits` without whitespace, for bare digits; proved directly because instantiating it with empty whitespace is costly. */
  lemma BodyOfPlainDigits(h: string)
    requires |h| == 64 && AllHex(h)
    ensures Body(h) == h
  {
    var none: string := [];
    BodyOfSurrounded(none, h, none);
    assert none + h + none == h;
    assert Strip(h) == h;
    assert IsHexDigit(h[1]);
  }

  /** `BodyOfDigits` without whitespace, for digits behind `0x`; proved directly for the same reason. */
  lemma BodyOfPrefixedDigits(h: string)
    requires |h| == 64 && AllHex(h)
    ensures Body("0x" + h) == h
  {
    var t := "0x" + h;
    BodyOfSurrounded([], t, []);
    assert [] + t + [] == t;
    assert t[2..] == h;
  }

  /** Decoding the lower-case hex of an identifier, with or without `0x`, gives it back. */
  lemma CanonicalRoundTrip(b: Bytes32)
    ensures Bytes32FromAny(RawOther("0x" + ToHex(b))) == Ok(b)
    ensures Bytes32FromAny(RawOther(ToHex(b))) == Ok(b)
  {
    var h := ToHex(b);
    FromHexToHex(b);
    BodyOfPlainDigits(h);
    BodyOfPrefixedDigits(h);
    AcceptsDigits("0x" + h);
    AcceptsDigits(h);
  }

  /**
   * For the same 64 hex digits `h`: `"0x" + h`, `h`, either one with surrounding
   * whitespace, and the decoded bytes as `bytes` or `bytearray` all normalise to
   * the same identifier.
   */
  lemma RepresentationInvariance(h: string, ws1: string, ws2: string)
    requires |h| == 64 && AllHex(h)
    requires AllSpace(ws1) && AllSpace(ws2)
    ensures FromHex(h).Some?
    ensures Bytes32FromAny(RawOther(ws1 + "0x" + h + ws2)) == Ok(FromHex(h).value)
    ensures Bytes32FromAny(RawOther(ws1 + h + ws2)) == Ok(FromHex(h).value)
    ensures Bytes32FromAny(RawBytes(FromHex(h).value)) == Ok(FromHex(h).value)
    ensures Bytes32FromAny(RawByteArray(FromHex(h).value)) == Ok(FromHex(h).value)
  {
    FromHexOfDigits(h);
    BodyOfDigits(h, ws1, ws2);
    AcceptsDigits(ws1 + "0x" + h + ws2);
    AcceptsDigits(ws1 + h + ws2);
  }

  /** Only a lower-case prefix is removed: `0X` followed by 64 digits fails the length check. */
  lemma UpperCasePrefixRejected(h: string)
    requires |h| == 64 && AllHex(h)
    ensures Bytes32FromAny(RawOther("0X" + h)) == Err(HexLength(66, "0X" + h))
    ensures BytesFromAny(RawOther("0X" + h)) == Err(HexLength(66, "0X" + h))
  {
    BodyOfSurrounded("", "0X" + h, "");
    assert "" + ("0X" + h) + "" == "0X" + h;
    assert Body("0X" + h) == "0X" + h;
  }

  /** A body of any length other than 64 fails, reporting its length and the stripped text. */
  lemma WrongLengthRejected(text: string)
    requires |Body(text)| != 64
    ensures BytesFromAny(RawOther(text)) == Err(HexLength(|Body(text)|, Strip(text)))
    ensures Bytes32FromAny(RawOther(text)) == Err(HexLength(|Body(text)|, Strip(text)))
  {
  }

  /**
   * As written, a 64-character body holding a character that is neither a hex
   * digit nor ASCII whitespace fails with the invalid-hex error.
   */
  lemma NonHexRejected(text: string, k: nat)
    requires |Body(text)| == 64 && k < 64
    requires !IsHexDigit(Body(text)[k]) && !IsAsciiSpace(Body(text)[k])
    ensures BytesFromAny(RawOther(text)) == Err(InvalidHex(Strip(text)))
  {
    FromHexRejects(Body(text), k);
  }

  /** The corrected normaliser fails with the invalid-hex error on any non-digit, whitespace included. */
  lemma NonHexRejectedCorrected(text: string, k: nat)
    requires |Body(text)| == 64 && k < 64
    requires !IsHexDigit(Body(text)[k])
    ensures Bytes32FromAny(RawOther(text)) == Err(InvalidHex(Strip(text)))
  {
  }

  /**
   * The input that shows the original accepting a short identifier: `0x`, 62
   * spaces and `11` is 64 characters after the prefix, and `bytes.fromhex`
   * skips the spaces, giving the single byte 0x11.
   */
  lemma ShortIdentifierAccepted()
    ensures var text := "0x" + seq(62, i => ' ') + "11";
      BytesFromAny(RawOther(text)) == Ok([17]) &&
      Bytes32FromAny(RawOther(text)) == Err(InvalidHex(text))
  {
    var ws: string := seq(62, i => ' ');
    var text := "0x" + ws + "11";
    BodyOfSurrounded("", text, "");
    assert "" + text + "" == text;
    assert Body(text) == ws + "11";
    FromHexSkipsSpace(ws, "11");
    FromHexPair('1', '1');
    assert "11" == ['1', '1'];
  }
}
