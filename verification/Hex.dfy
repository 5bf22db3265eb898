/** Hexadecimal text, as signatures and public keys travel in requests. */
module Hex {
  import opened Wrappers
  import opened Bytes
  import opened Text

  predicate IsHex(c: char) {
    IsDigit(c) || 'a' <= c <= 'f' || 'A' <= c <= 'F'
  }

  function DigitValue(c: char): (v: nat)
    requires IsHex(c)
    ensures v < 16
  {
    var u := Lower(c) as int;
    if IsDigit(c) then u - '0' as int else u - 'a' as int + 10
  }

  function ByteOf(high: char, low: char): byte
    requires IsHex(high) && IsHex(low)
  {
    DigitValue(high) * 16 + DigitValue(low)
  }

  function Digit(d: nat): char
    requires d < 16
  {
    if d < 10 then ('0' as int + d) as char else ('a' as int + d - 10) as char
  }

  /** `hex::encode`: two lower-case digits a byte. */
  function Encode(b: seq<byte>): string {
    if b == [] then "" else [Digit(b[0] / 16), Digit(b[0] % 16)] + Encode(b[1..])
  }

  /** `hex::decode`, which takes either case. */
  function Decode(s: string): Option<seq<byte>> {
    if s == "" then Some([])
    else if |s| < 2 || !IsHex(s[0]) || !IsHex(s[1]) then None
    else
      match Decode(s[2..])
      case None => None
      case Some(rest) => Some([ByteOf(s[0], s[1])] + rest)
  }

  /** `trim_start_matches("0x")`, which strips the prefix as often as it stands there. */
  function StripPrefix(s: string): string {
    if "0x" <= s then StripPrefix(s[2..]) else s
  }

  /** However often the prefix stands there, none is left. */
  lemma {:induction false} StripsAll(s: string)
    ensures StripPrefix("0x" + s) == StripPrefix(s) && !("0x" <= StripPrefix(s))
    ensures !("0x" <= s) ==> StripPrefix(s) == s
  {
    assert ("0x" + s)[2..] == s;
    if "0x" <= s {
      StripsAll(s[2..]);
    }
  }

  lemma DigitInverse(d: nat)
    requires d < 16
    ensures IsHex(Digit(d)) && DigitValue(Digit(d)) == d && Lower(Digit(d)) == Digit(d)
  {
  }

  lemma ByteDigits(b: byte, c: char, d: char)
    ensures IsHex(c) && IsHex(d) && ByteOf(c, d) == b <==>
            Lower(c) == Digit(b / 16) && Lower(d) == Digit(b % 16)
  {
  }

  lemma LowerTail(s: string)
    requires |s| >= 2
    ensures ToLower(s) == [Lower(s[0]), Lower(s[1])] + ToLower(s[2..])
  {
  }

  /** What decodes to some bytes is their encoding, in either case. */
  lemma {:induction false} DecodeIff(s: string, b: seq<byte>)
    ensures Decode(s) == Some(b) <==> ToLower(s) == Encode(b)
    decreases |s|
  {
    if |s| >= 2 {
      LowerTail(s);
      if b != [] {
        DecodeIff(s[2..], b[1..]);
        ByteDigits(b[0], s[0], s[1]);
        DecodeStep(s, b);
      }
    } else if b != [] {
      assert |Encode(b)| >= 2;
    }
  }

  lemma DecodeStep(s: string, b: seq<byte>)
    requires |s| >= 2 && b != []
    ensures Decode(s) == Some(b) <==>
            IsHex(s[0]) && IsHex(s[1]) && ByteOf(s[0], s[1]) == b[0] && Decode(s[2..]) == Some(b[1..])
  {
    if IsHex(s[0]) && IsHex(s[1]) && Decode(s[2..]).Some? {
      FirstByte(ByteOf(s[0], s[1]), Decode(s[2..]).value, b);
    }
  }

  lemma FirstByte(x: byte, rest: seq<byte>, b: seq<byte>)
    requires b != []
    ensures [x] + rest == b <==> x == b[0] && rest == b[1..]
  {
    assert b == [b[0]] + b[1..];
  }

  lemma {:induction false} EncodeLower(b: seq<byte>)
    ensures ToLower(Encode(b)) == Encode(b) && 'x' !in Encode(b)
  {
    if b != [] {
      EncodeLower(b[1..]);
      DigitInverse(b[0] / 16);
      DigitInverse(b[0] % 16);
      LowerTail(Encode(b));
      assert Encode(b)[2..] == Encode(b[1..]);
    }
  }

  lemma NoPrefix(s: string)
    ensures "0x" <= s ==> 'x' in s
  {
    if "0x" <= s {
      assert s[1] == 'x';
    }
  }

  /** What is sent with the prefix is read back. */
  lemma SentReads(b: seq<byte>)
    ensures Decode(StripPrefix("0x" + Encode(b))) == Some(b)
  {
    var s := "0x" + Encode(b);
    EncodeLower(b);
    assert s[2..] == Encode(b);
    NoPrefix(Encode(b));
    DecodeIff(Encode(b), b);
  }
}
