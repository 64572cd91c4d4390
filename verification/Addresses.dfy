/** Bytes, Cosmos addresses with their text form, and the Ethereum address check. */
module Addresses {
  import opened Wrappers

  type byte = b: int | 0 <= b < 256
  type Bytes = seq<byte>

  type EthAddress = a: Bytes | |a| == 20 witness seq(20, _ => 0)

  const ZERO_ADDRESS: EthAddress := [0, 0, 0, 0, 0, 0, 0, 0, 0, 0, 0, 0, 0, 0, 0, 0, 0, 0, 0, 0]

  /**
   The text forms of account and validator addresses (bech32 in the SDK). Their code is outside the
   repository, so they are a parameter: any two text forms whose parsers undo them on non-empty bytes.
   */
  datatype Codec = Codec(
    accText: Bytes -> string,
    accParse: string -> Option<Bytes>,
    valText: Bytes -> string,
    valParse: string -> Option<Bytes>)
  {
    ghost predicate Lawful() {
      && (forall a: Bytes {:trigger accText(a)} :: a != [] ==> accParse(accText(a)) == Some(a))
      && (forall a: Bytes {:trigger valText(a)} :: a != [] ==> valParse(valText(a)) == Some(a))
    }
  }

  type AddressCodec = c: Codec | c.Lawful() ghost witness LatinCodec()

  // The codec that writes each byte as one character shows that lawful codecs exist.

  function LatinText(a: Bytes): string {
    seq(|a|, i requires 0 <= i < |a| => a[i] as char)
  }

  function LatinParse(s: string): Option<Bytes> {
    if forall i :: 0 <= i < |s| ==> s[i] < 256 as char
    then Some(seq(|s|, i requires 0 <= i < |s| => var b: byte := s[i] as int; b))
    else None
  }

  ghost function LatinCodec(): (c: Codec)
    ensures c.Lawful()
  {
    assert forall a: Bytes :: LatinParse(LatinText(a)) == Some(a) by {
      forall a: Bytes ensures LatinParse(LatinText(a)) == Some(a) {
        assert LatinParse(LatinText(a)).value == a;
      }
    }
    Codec(LatinText, LatinParse, LatinText, LatinParse)
  }

  predicate IsHexDigit(c: char) {
    '0' <= c <= '9' || 'a' <= c <= 'f' || 'A' <= c <= 'F'
  }

  function StripPrefix(s: string): string {
    if |s| >= 2 && s[0] == '0' && (s[1] == 'x' || s[1] == 'X') then s[2..] else s
  }

  const HEX_DIGITS: string := "0123456789abcdefABCDEF"

  lemma HexDigitExactly(c: char)
    ensures IsHexDigit(c) <==> c in HEX_DIGITS
  {
    var i := if IsHexDigit(c) then
               if c <= '9' then c as int - 48 else if c <= 'F' then c as int - 49 else c as int - 87
             else 0;
    if IsHexDigit(c) {
      assert HEX_DIGITS[i] == c;
    }
  }

  /** x/ethbridge/common: exactly 40 hexadecimal digits after an optional 0x or 0X. */
  predicate IsValidEthAddress(s: string) {
    var digits := StripPrefix(s);
    |digits| == 40 && forall i :: 0 <= i < 40 ==> IsHexDigit(digits[i])
  }

  predicate FortyHexDigits(d: string) {
    |d| == 40 && forall c :: c in d ==> c in HEX_DIGITS
  }

  /** Accepted are exactly 40 hexadecimal digits, alone or after 0x or 0X. */
  lemma ValidEthAddressExactly(s: string)
    ensures IsValidEthAddress(s) <==>
              exists d :: FortyHexDigits(d) && (s == d || s == "0x" + d || s == "0X" + d)
  {
    if IsValidEthAddress(s) {
      var d := StripPrefix(s);
      forall c | c in d ensures c in HEX_DIGITS {
        var i :| 0 <= i < |d| && d[i] == c;
        HexDigitExactly(c);
      }
      if |s| != |d| {
        assert s == [s[0], s[1]] + d;
      }
      assert FortyHexDigits(d) && (s == d || s == "0x" + d || s == "0X" + d);
    }
    if d :| FortyHexDigits(d) && (s == d || s == "0x" + d || s == "0X" + d) {
      forall i | 0 <= i < 40 ensures IsHexDigit(d[i]) {
        HexDigitExactly(d[i]);
      }
      HexDigitExactly('x');
      HexDigitExactly('X');
      assert StripPrefix(s) == d;
    }
  }
}
