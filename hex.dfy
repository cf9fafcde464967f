/**
 * `bytes.fromhex` as CPython 3.7 and later implements it, and the lower-case
 * encoder (`bytes.hex`) that is its inverse.
 */
module Hex {
  import opened Wrappers
  import opened PyStr

  /** A digit `bytes.fromhex` accepts, in either case. */
  predicate IsHexDigit(c: char)
  {
    '0' <= c <= '9' || 'a' <= c <= 'f' || 'A' <= c <= 'F'
  }

  predicate AllHex(s: string)
  {
    forall i :: 0 <= i < |s| ==> IsHexDigit(s[i])
  }

  /** The ASCII whitespace `bytes.fromhex` skips between digit pairs (C `isspace`). */
  predicate IsAsciiSpace(c: char)
  {
    c == ' ' || c == '\t' || c == '\n' || c == '\r' || c == '\U{000B}' || c == '\U{000C}'
  }

  function HexValue(c: char): (v: nat)
    requires IsHexDigit(c)
    ensures v < 16
  {
    if c <= '9' then c as int - 48 else if c <= 'F' then c as int - 55 else c as int - 87
  }

  /**
   * `bytes.fromhex(s)`: whitespace is skipped only where a new digit pair would
   * start; anything else that is not a pair of hex digits raises, which is `None`
   * here.
   */
  function FromHex(s: string): (r: Option<seq<Byte>>)
    ensures r.Some? ==> 2 * |r.value| <= |s|
    ensures r.Some? && 2 * |r.value| == |s| ==> AllHex(s)
  {
    if s == [] then Some([])
    else if IsAsciiSpace(s[0]) then FromHex(s[1..])
    else if !IsHexDigit(s[0]) || |s| < 2 || !IsHexDigit(s[1]) then None
    else
      match FromHex(s[2..])
      case None => None
      case Some(rest) => Some([16 * HexValue(s[0]) + HexValue(s[1])] + rest)
  }

  /** `b.hex()`: two lower-case digits per byte. */
  function ToHex(b: seq<Byte>): (s: string)
    ensures |s| == 2 * |b|
    ensures AllHex(s)
  {
    if b == [] then [] else [HexChar(b[0] / 16), HexChar(b[0] % 16)] + ToHex(b[1..])
  }

  function LowerDigit(c: char): char
  {
    if 'A' <= c <= 'F' then (c as int + 32) as char else c
  }

  /** Folds the upper-case digits `A`..`F` to lower case; every other character is kept. */
  function LowerHex(s: string): (r: string)
    ensures |r| == |s|
  {
    if s == [] then [] else [LowerDigit(s[0])] + LowerHex(s[1..])
  }

  lemma HexCharOfValue(c: char)
    requires IsHexDigit(c)
    ensures HexChar(HexValue(c)) == LowerDigit(c)
  {
  }

  lemma HexCharValue(d: nat)
    requires d < 16
    ensures IsHexDigit(HexChar(d)) && HexValue(HexChar(d)) == d
  {
  }

  /** Decoding what the encoder wrote gives the bytes back. */
  lemma {:induction false} FromHexToHex(b: seq<Byte>)
    ensures FromHex(ToHex(b)) == Some(b)
  {
    if b != [] {
      var s := ToHex(b);
      HexCharValue(b[0] / 16);
      HexCharValue(b[0] % 16);
      assert s[2..] == ToHex(b[1..]);
      FromHexToHex(b[1..]);
      assert !IsAsciiSpace(s[0]);
      assert 16 * HexValue(s[0]) + HexValue(s[1]) == b[0];
      assert [b[0]] + b[1..] == b;
    }
  }

  /** An even run of hex digits always decodes, to half as many bytes. */
  lemma {:induction false} FromHexOfDigits(s: string)
    requires AllHex(s) && |s| % 2 == 0
    ensures FromHex(s).Some? && 2 * |FromHex(s).value| == |s|
  {
    if s != [] {
      assert !IsAsciiSpace(s[0]);
      FromHexOfDigits(s[2..]);
    }
  }

  /** Any character that is neither a hex digit nor ASCII whitespace makes the decode fail. */
  lemma {:induction false} FromHexRejects(s: string, k: nat)
    requires k < |s| && !IsHexDigit(s[k]) && !IsAsciiSpace(s[k])
    ensures FromHex(s) == None
  {
    if k == 0 {
    } else if IsAsciiSpace(s[0]) {
      FromHexRejects(s[1..], k - 1);
    } else if IsHexDigit(s[0]) && |s| >= 2 && IsHexDigit(s[1]) {
      assert k >= 2;
      FromHexRejects(s[2..], k - 2);
    }
  }

  /** Leading ASCII whitespace does not change what decodes. */
  lemma {:induction false} FromHexSkipsSpace(ws: string, t: string)
    requires forall i :: 0 <= i < |ws| ==> IsAsciiSpace(ws[i])
    ensures FromHex(ws + t) == FromHex(t)
    decreases |ws|
  {
    if ws == [] {
      assert ws + t == t;
    } else {
      assert (ws + t)[1..] == ws[1..] + t;
      FromHexSkipsSpace(ws[1..], t);
    }
  }

  /** One decoding step on a leading digit pair. */
  lemma FromHexStep(s: string)
    requires |s| >= 2 && IsHexDigit(s[0]) && IsHexDigit(s[1]) && FromHex(s[2..]).Some?
    ensures FromHex(s) == Some([16 * HexValue(s[0]) + HexValue(s[1])] + FromHex(s[2..]).value)
  {
    assert !IsAsciiSpace(s[0]);
  }

  /** The pair of digits that encodes a decoded pair is the pair in lower case. */
  lemma ToHexPair(c0: char, c1: char, rest: seq<Byte>)
    requires IsHexDigit(c0) && IsHexDigit(c1)
    ensures var x: Byte := 16 * HexValue(c0) + HexValue(c1);
      ToHex([x] + rest) == [LowerDigit(c0), LowerDigit(c1)] + ToHex(rest)
  {
    var x: Byte := 16 * HexValue(c0) + HexValue(c1);
    assert x / 16 == HexValue(c0) && x % 16 == HexValue(c1);
    HexCharOfValue(c0);
    HexCharOfValue(c1);
    assert ([x] + rest)[1..] == rest;
  }

  lemma LowerHexPair(s: string)
    requires |s| >= 2
    ensures LowerHex(s) == [LowerDigit(s[0]), LowerDigit(s[1])] + LowerHex(s[2..])
  {
    assert s[1..][1..] == s[2..];
  }

  /** Encoding what was decoded gives the digits back, in lower case: case does not matter to the bytes. */
  lemma {:induction false} ToHexFromHex(s: string)
    requires AllHex(s) && |s| % 2 == 0
    ensures FromHex(s).Some? && ToHex(FromHex(s).value) == LowerHex(s)
  {
    FromHexOfDigits(s);
    if s != [] {
      ToHexFromHex(s[2..]);
      FromHexStep(s);
      ToHexPair(s[0], s[1], FromHex(s[2..]).value);
      LowerHexPair(s);
    }
  }

  /** A single digit pair decodes to one byte. */
  lemma FromHexPair(c0: char, c1: char)
    requires IsHexDigit(c0) && IsHexDigit(c1)
    ensures FromHex([c0, c1]) == Some([16 * HexValue(c0) + HexValue(c1)])
  {
    var t := [c0, c1];
    assert !IsAsciiSpace(t[0]);
    assert t[2..] == [];
    assert FromHex(t[2..]) == Some([]);
    var x: Byte := 16 * HexValue(c0) + HexValue(c1);
    assert [x] + [] == [x];
  }
}
