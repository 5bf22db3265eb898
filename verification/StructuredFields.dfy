/**
 The part of RFC 8941 that the signature profile reads and writes: dictionaries (section 4.2.2),
 inner lists, parameters and bare items. The parser also reads the dates and display strings of its
 successor, RFC 9651. Parsers consume a prefix and return the rest.
 */
module StructuredFields {
  import opened Wrappers
  import opened Bytes
  import opened Text
  import opened Decimal

  /** Base64 with padding, the text form of a byte sequence, and the UTF-8 decoder. */
  datatype Codec = Codec(
    encode: seq<byte> -> string, decode: string -> Option<seq<byte>>, utf8: seq<byte> -> Option<string>)

  datatype BareItem =
    | Integer(i: int) | Decimal(negative: bool, digits: string) | Str(s: string) | Token(t: string)
    | Bytes(b: seq<byte>) | Boolean(on: bool) | Date(at: int) | Display(text: string)

  type Params = seq<(string, BareItem)>

  datatype Item = Item(value: BareItem, params: Params)
  datatype Member = Single(item: Item) | InnerList(items: seq<Item>, params: Params)
  type Dictionary = seq<(string, Member)>

  datatype Parsed<+T> = Fail | Got(value: T, rest: string)

  const MAX_INTEGER := 999_999_999_999_999

  predicate InRange(i: int) {
    -MAX_INTEGER <= i <= MAX_INTEGER
  }

  // ---------- Character classes ----------

  datatype CharClass = DigitClass | KeyClass | TokenClass | SpaceClass | OwsClass | NotColonClass

  predicate IsKeyStart(c: char) {
    'a' <= c <= 'z' || c == '*'
  }

  predicate IsTokenStart(c: char) {
    'a' <= c <= 'z' || 'A' <= c <= 'Z' || c == '*'
  }

  predicate IsPrintable(c: char) {
    ' ' <= c <= '~'
  }

  predicate InClass(c: char, k: CharClass) {
    match k
    case DigitClass => IsDigit(c)
    case KeyClass => IsKeyStart(c) || IsDigit(c) || c in {'_', '-', '.'}
    case TokenClass => IsTokenStart(c) || IsDigit(c) ||
      c in {'!', '#', '$', '%', '&', '\'', '+', '-', '.', '^', '_', '`', '|', '~', ':', '/'}
    case SpaceClass => c == ' '
    case OwsClass => c == ' ' || c == '\t'
    case NotColonClass => c != ':'
  }

  predicate AllIn(s: string, k: CharClass) {
    forall i :: 0 <= i < |s| ==> InClass(s[i], k)
  }

  /** Length of the longest prefix in the class. */
  function Span(s: string, k: CharClass): (n: nat)
    ensures n <= |s| && (n < |s| ==> !InClass(s[n], k))
    ensures forall i :: 0 <= i < n ==> InClass(s[i], k)
  {
    if s == [] || !InClass(s[0], k) then 0 else 1 + Span(s[1..], k)
  }

  predicate Stops(rest: string, k: CharClass) {
    rest == [] || !InClass(rest[0], k)
  }

  lemma SpanUnique(s: string, k: CharClass, n: nat)
    requires n <= |s| && (n < |s| ==> !InClass(s[n], k))
    requires forall i :: 0 <= i < n ==> InClass(s[i], k)
    ensures Span(s, k) == n
  {
  }

  lemma SpanOf(a: string, rest: string, k: CharClass)
    requires AllIn(a, k) && Stops(rest, k)
    ensures Span(a + rest, k) == |a| && (a + rest)[..|a|] == a && (a + rest)[|a|..] == rest
  {
    SpanUnique(a + rest, k, |a|);
  }

  function Skip(s: string, k: CharClass): (r: string)
    ensures |r| <= |s| && Stops(r, k)
  {
    s[Span(s, k)..]
  }

  lemma SkipOf(a: string, rest: string, k: CharClass)
    requires AllIn(a, k) && Stops(rest, k)
    ensures Skip(a + rest, k) == rest
  {
    SpanOf(a, rest, k);
  }

  lemma SkipNone(s: string, k: CharClass)
    requires Stops(s, k)
    ensures Skip(s, k) == s
  {
  }

  // ---------- Keys and bare items ----------

  predicate IsKey(s: string) {
    s != [] && IsKeyStart(s[0]) && AllIn(s, KeyClass)
  }

  function ParseKey(s: string): (r: Parsed<string>)
    ensures r.Got? ==> |r.rest| < |s|
  {
    if s == [] || !IsKeyStart(s[0]) then Fail
    else var n := Span(s, KeyClass); Got(s[..n], s[n..])
  }

  lemma ParseKeyOf(key: string, rest: string)
    requires IsKey(key) && Stops(rest, KeyClass)
    ensures ParseKey(key + rest) == Got(key, rest)
  {
    SpanOf(key, rest, KeyClass);
  }

  function PrintInt(i: int): string {
    if i < 0 then ['-'] + PrintNat(-i) else PrintNat(i)
  }

  lemma SpanDigits(t: string)
    ensures Digits(t[..Span(t, DigitClass)])
  {
    var n := Span(t, DigitClass);
    assert forall i :: 0 <= i < n ==> InClass(t[i], DigitClass);
  }

  /** Section 4.2.4 after the sign: at most 15 digits, or at most 12 before and 3 after a point. */
  function ParseUnsigned(t: string, negative: bool): (r: Parsed<BareItem>)
    ensures r.Got? ==> |r.rest| < |t|
  {
    var n := Span(t, DigitClass);
    if n == 0 then Fail
    else if n < |t| && t[n] == '.' then
      var f := Span(t[n + 1..], DigitClass);
      if n > 12 || f == 0 || f > 3 then Fail else Got(Decimal(negative, t[..n + 1 + f]), t[n + 1 + f..])
    else if n > 15 then Fail
    else
      SpanDigits(t);
      Got(Integer(if negative then 0 - ParseNat(t[..n]) else ParseNat(t[..n])), t[n..])
  }

  function ParseNumber(s: string): (r: Parsed<BareItem>)
    ensures r.Got? ==> |r.rest| < |s|
  {
    if s != [] && s[0] == '-' then ParseUnsigned(s[1..], true) else ParseUnsigned(s, false)
  }

  function Escape(s: string): string {
    if s == [] then []
    else if s[0] == '"' || s[0] == '\\' then ['\\', s[0]] + Escape(s[1..])
    else [s[0]] + Escape(s[1..])
  }

  function PrintString(s: string): string {
    "\"" + Escape(s) + "\""
  }

  predicate Printable(s: string) {
    forall i :: 0 <= i < |s| ==> IsPrintable(s[i])
  }

  /** Section 4.2.5, after the opening quote. */
  function ParseStringBody(s: string): (r: Parsed<string>)
    ensures r.Got? ==> |r.rest| < |s|
  {
    if s == [] then Fail
    else if s[0] == '\\' then
      if |s| < 2 || (s[1] != '"' && s[1] != '\\') then Fail else
      match ParseStringBody(s[2..])
      case Fail => Fail
      case Got(v, r) => Got([s[1]] + v, r)
    else if s[0] == '"' then Got([], s[1..])
    else if !IsPrintable(s[0]) then Fail
    else
      match ParseStringBody(s[1..])
      case Fail => Fail
      case Got(v, r) => Got([s[0]] + v, r)
  }

  function HexDigit(c: char): Option<nat> {
    if IsDigit(c) then Some(c as int - '0' as int)
    else if 'a' <= c <= 'f' then Some(c as int - 'a' as int + 10)
    else None
  }

  /** The bytes of a display string, after its opening quote: section 4.2.10 of RFC 9651. */
  function ParseDisplayBody(s: string): (r: Parsed<seq<byte>>)
    ensures r.Got? ==> |r.rest| < |s|
  {
    if s == [] then Fail
    else if s[0] == '"' then Got([], s[1..])
    else if !IsPrintable(s[0]) then Fail
    else if s[0] == '%' then
      if |s| < 3 || HexDigit(s[1]).None? || HexDigit(s[2]).None? then Fail else
      match ParseDisplayBody(s[3..])
      case Fail => Fail
      case Got(b, r) => Got([(HexDigit(s[1]).value * 16 + HexDigit(s[2]).value) as byte] + b, r)
    else
      match ParseDisplayBody(s[1..])
      case Fail => Fail
      case Got(b, r) => Got([s[0] as int as byte] + b, r)
  }

  function ParseDisplay(s: string, codec: Codec): (r: Parsed<BareItem>)
    ensures r.Got? ==> |r.rest| < |s|
  {
    if s == [] || s[0] != '"' then Fail else
    match ParseDisplayBody(s[1..])
    case Fail => Fail
    case Got(b, r) => (match codec.utf8(b) case None => Fail case Some(text) => Got(Display(text), r))
  }

  /** A date is an integer, never a decimal: section 4.2.9 of RFC 9651. */
  function ParseDate(s: string): (r: Parsed<BareItem>)
    ensures r.Got? ==> |r.rest| < |s|
  {
    match ParseNumber(s) case Got(Integer(i), r) => Got(Date(i), r) case _ => Fail
  }

  function ParseBareItem(s: string, codec: Codec): (r: Parsed<BareItem>)
    ensures r.Got? ==> |r.rest| < |s|
  {
    if s == [] then Fail
    else if s[0] == '-' || IsDigit(s[0]) then ParseNumber(s)
    else if s[0] == '"' then
      match ParseStringBody(s[1..])
      case Fail => Fail
      case Got(v, r) => Got(Str(v), r)
    else if IsTokenStart(s[0]) then
      var n := Span(s, TokenClass); Got(Token(s[..n]), s[n..])
    else if s[0] == ':' then
      var n := Span(s[1..], NotColonClass);
      if n == |s| - 1 then Fail else
      match codec.decode(s[1..n + 1])
      case None => Fail
      case Some(b) => Got(Bytes(b), s[n + 2..])
    else if s[0] == '?' && |s| >= 2 && (s[1] == '0' || s[1] == '1') then Got(Boolean(s[1] == '1'), s[2..])
    else if s[0] == '@' then ParseDate(s[1..])
    else if s[0] == '%' then ParseDisplay(s[1..], codec)
    else Fail
  }

  lemma {:induction false} ParseStringOf(s: string, rest: string)
    requires Printable(s)
    ensures ParseStringBody(Escape(s) + "\"" + rest) == Got(s, rest)
  {
    if s == [] {
      Uncons('"', rest);
      assert Escape(s) + "\"" + rest == ['"'] + rest;
    } else {
      var tail := Escape(s[1..]) + "\"" + rest;
      assert IsPrintable(s[0]) && s == [s[0]] + s[1..];
      ParseStringOf(s[1..], rest);
      EscapeStep(s, rest, tail);
      ParseStringStep(s[0], s[1..], tail, rest);
    }
  }

  lemma {:induction false} EscapeConcat(a: string, b: string)
    ensures Escape(a + b) == Escape(a) + Escape(b)
  {
    if a == [] {
      assert a + b == b && Escape(a) == [];
    } else {
      assert (a + b)[1..] == a[1..] + b;
      EscapeConcat(a[1..], b);
    }
  }

  /** Text without quotes and backslashes is not escaped ... */
  lemma {:induction false} EscapePlain(a: string)
    requires '"' !in a && '\\' !in a
    ensures Escape(a) == a
  {
    if a != [] {
      assert a[0] in a && forall x <- a[1..] :: x in a;
      EscapePlain(a[1..]);
    }
  }

  /** ... and each of those is, by a backslash before it. */
  lemma EscapeMarks(c: char)
    requires c == '"' || c == '\\'
    ensures Escape([c]) == ['\\', c]
  {
    assert [c][1..] == [] && Escape([]) == [];
  }

  /** A string is read exactly when it is the escaped text of printable characters, up to its closing quote. */
  lemma {:induction false} ParseStringIff(s: string, v: string, rest: string)
    ensures ParseStringBody(s) == Got(v, rest) <==> Printable(v) && s == Escape(v) + "\"" + rest
    decreases |s|
  {
    if Printable(v) && s == Escape(v) + "\"" + rest {
      ParseStringOf(v, rest);
    }
    if ParseStringBody(s) == Got(v, rest) {
      ParsedString(s, v, rest);
    }
  }

  lemma {:induction false} ParsedString(s: string, v: string, rest: string)
    requires ParseStringBody(s) == Got(v, rest)
    ensures Printable(v) && s == Escape(v) + "\"" + rest
    decreases |s|
  {
    if s[0] == '"' {
      assert s == ['"'] + s[1..] && v == [];
    } else {
      var k := if s[0] == '\\' then 2 else 1;
      var c, more := s[k - 1], v[1..];
      assert v == [c] + more;
      ParsedString(s[k..], more, rest);
      assert s == EscapeChar(c) + s[k..];
      EscapeStep(v, rest, s[k..]);
    }
  }

  function EscapeChar(c: char): string {
    if c == '"' || c == '\\' then ['\\', c] else [c]
  }

  lemma EscapeStep(s: string, rest: string, tail: string)
    requires s != [] && tail == Escape(s[1..]) + "\"" + rest
    ensures Escape(s) + "\"" + rest == EscapeChar(s[0]) + tail
  {
  }

  lemma ParseStringStep(c: char, more: string, tail: string, rest: string)
    requires IsPrintable(c) && ParseStringBody(tail) == Got(more, rest)
    ensures ParseStringBody(EscapeChar(c) + tail) == Got([c] + more, rest)
  {
    var text := EscapeChar(c) + tail;
    assert text[|EscapeChar(c)|..] == tail;
  }

  predicate PrintableItem(v: BareItem) {
    (v.Integer? && InRange(v.i)) || (v.Str? && Printable(v.s))
  }

  /** Sections 4.1.4 and 4.1.6; only integers and strings are printed here. */
  function PrintBareItem(v: BareItem): string
    requires PrintableItem(v)
  {
    if v.Integer? then PrintInt(v.i) else PrintString(v.s)
  }

  /** What may follow a printed bare item without extending it. */
  predicate AfterItem(rest: string) {
    rest == [] || (!IsDigit(rest[0]) && rest[0] != '.')
  }

  lemma IntegerDigits()
    ensures Pow10(15) == MAX_INTEGER + 1
  {
    assert Pow10(5) == 100000 && Pow10(10) == 100000 * Pow10(5) && Pow10(15) == 100000 * Pow10(10);
  }

  lemma PrintedDigits(n: nat)
    requires n <= MAX_INTEGER
    ensures var d := PrintNat(n); 0 < |d| <= 15 && AllIn(d, DigitClass) && ParseNat(d) == n
  {
    IntegerDigits();
    PrintLength(n, 15);
    ParsePrint(n);
  }

  lemma ParseDigitsOf(digits: string, rest: string)
    requires 0 < |digits| <= 15 && Digits(digits) && AllIn(digits, DigitClass) && AfterItem(rest)
    ensures ParseNumber(digits + rest) == Got(Integer(ParseNat(digits)), rest)
    ensures ParseNumber(['-'] + (digits + rest)) == Got(Integer(0 - ParseNat(digits)), rest)
  {
    assert IsDigit(digits[0]);
    Uncons('-', digits + rest);
    ParseUnsignedOf(digits, rest, false);
    ParseUnsignedOf(digits, rest, true);
  }

  lemma ParseUnsignedOf(digits: string, rest: string, negative: bool)
    requires 0 < |digits| <= 15 && Digits(digits) && AllIn(digits, DigitClass) && AfterItem(rest)
    ensures ParseUnsigned(digits + rest, negative) ==
            Got(Integer(if negative then 0 - ParseNat(digits) else ParseNat(digits)), rest)
  {
    SpanOf(digits, rest, DigitClass);
    ParseUnsignedAt(digits + rest, digits, rest, negative);
  }

  lemma ParseUnsignedAt(t: string, digits: string, rest: string, negative: bool)
    requires 0 < |digits| <= 15 && Digits(digits) && AfterItem(rest) && |digits| <= |t|
    requires Span(t, DigitClass) == |digits| && t[..|digits|] == digits && t[|digits|..] == rest
    ensures ParseUnsigned(t, negative) ==
            Got(Integer(if negative then 0 - ParseNat(digits) else ParseNat(digits)), rest)
  {
    assert |digits| < |t| ==> t[|digits|] == rest[0];
  }

  lemma ParseBareItemOf(v: BareItem, rest: string, codec: Codec)
    requires PrintableItem(v) && AfterItem(rest)
    ensures ParseBareItem(PrintBareItem(v) + rest, codec) == Got(v, rest)
  {
    if v.Integer? {
      ParseIntegerOf(v.i, rest, codec);
    } else {
      ParseQuotedOf(v.s, rest, codec);
    }
  }

  lemma ParseIntegerOf(i: int, rest: string, codec: Codec)
    requires InRange(i) && AfterItem(rest)
    ensures ParseBareItem(PrintInt(i) + rest, codec) == Got(Integer(i), rest)
  {
    var n: nat := if i < 0 then -i else i;
    var digits := PrintNat(n);
    PrintedDigits(n);
    ParseDigitsOf(digits, rest);
    Assoc(['-'], digits, rest);
    assert IsDigit(digits[0]);
  }

  lemma ParseQuotedOf(s: string, rest: string, codec: Codec)
    requires Printable(s)
    ensures ParseBareItem(PrintString(s) + rest, codec) == Got(Str(s), rest)
  {
    var body := Escape(s) + "\"" + rest;
    ParseStringOf(s, rest);
    assert PrintString(s) + rest == ['"'] + body;
    Uncons('"', body);
  }

  lemma ParseBytesOf(b: seq<byte>, rest: string, codec: Codec)
    requires codec.decode(codec.encode(b)) == Some(b) && ':' !in codec.encode(b)
    ensures ParseBareItem(":" + codec.encode(b) + ":" + rest, codec) == Got(Bytes(b), rest)
  {
    var e := codec.encode(b);
    var s := ":" + e + ":" + rest;
    assert s[1..] == e + (":" + rest);
    SpanOf(e, ":" + rest, NotColonClass);
    assert s[1..|e| + 1] == e && s[|e| + 2..] == rest;
  }

  // Items of the other types, which may stand in a member the profile does not read.

  /** An integer has at most 15 digits, and no point after them. */
  lemma IntegerLimit(sign: string, whole: string, rest: string)
    requires (sign == "" || sign == "-") && whole != "" && AllIn(whole, DigitClass) && Digits(whole)
    requires Stops(rest, DigitClass) && (rest == "" || rest[0] != '.')
    ensures ParseNumber(sign + (whole + rest)) ==
            if |whole| > 15 then Fail
            else Got(Integer(if sign == "-" then 0 - ParseNat(whole) else ParseNat(whole)), rest)
  {
    SignedNumber(sign, whole, rest);
    SpanOf(whole, rest, DigitClass);
    IntegerAt(whole + rest, whole, rest, sign == "-");
  }

  lemma IntegerAt(t: string, whole: string, rest: string, negative: bool)
    requires Span(t, DigitClass) == |whole| && t[..|whole|] == whole && t[|whole|..] == rest && whole != ""
    requires Digits(whole) && (rest == "" || rest[0] != '.')
    ensures ParseUnsigned(t, negative) ==
            if |whole| > 15 then Fail
            else Got(Integer(if negative then 0 - ParseNat(whole) else ParseNat(whole)), rest)
  {
    assert |whole| < |t| ==> t[|whole|] == rest[0];
  }

  /** A decimal has at most 12 digits before its point, and one to three after it. */
  lemma DecimalLimit(sign: string, whole: string, frac: string, rest: string)
    requires (sign == "" || sign == "-") && whole != "" && AllIn(whole, DigitClass) && AllIn(frac, DigitClass)
    requires Stops(rest, DigitClass)
    ensures ParseNumber(sign + (whole + ("." + (frac + rest)))) ==
            if |whole| <= 12 && 1 <= |frac| <= 3 then Got(Decimal(sign == "-", whole + ("." + frac)), rest) else Fail
  {
    SignedNumber(sign, whole, "." + (frac + rest));
    SpanOf(whole, "." + (frac + rest), DigitClass);
    SpanOf(frac, rest, DigitClass);
    DecimalText(whole, frac, rest);
    DecimalAt(whole + ("." + (frac + rest)), whole, frac, rest, sign == "-");
  }

  lemma DecimalAt(t: string, whole: string, frac: string, rest: string, negative: bool)
    requires whole != "" && |whole| < |t| && Span(t, DigitClass) == |whole| && t[|whole|] == '.'
    requires t[|whole| + 1..] == frac + rest && Span(frac + rest, DigitClass) == |frac|
    requires |whole| + 1 + |frac| <= |t| && t[..|whole| + 1 + |frac|] == whole + ("." + frac)
    requires t[|whole| + 1 + |frac|..] == rest
    ensures ParseUnsigned(t, negative) ==
            if |whole| <= 12 && 1 <= |frac| <= 3 then Got(Decimal(negative, whole + ("." + frac)), rest) else Fail
  {
  }

  lemma SignedNumber(sign: string, whole: string, rest: string)
    requires (sign == "" || sign == "-") && whole != "" && AllIn(whole, DigitClass)
    ensures ParseNumber(sign + (whole + rest)) == ParseUnsigned(whole + rest, sign == "-")
  {
    assert InClass(whole[0], DigitClass) && (whole + rest)[0] == whole[0];
    if sign == "-" {
      Uncons('-', whole + rest);
      assert "-" + (whole + rest) == ['-'] + (whole + rest);
    } else {
      assert "" + (whole + rest) == whole + rest;
    }
  }

  lemma DecimalText(whole: string, frac: string, rest: string)
    ensures var t, n := whole + ("." + (frac + rest)), |whole|;
            |t| >= n + 1 + |frac| && t[n] == '.' && t[n + 1..] == frac + rest &&
            t[..n + 1 + |frac|] == whole + ("." + frac) && t[n + 1 + |frac|..] == rest
  {
  }

  lemma TokenRead(t: string, rest: string, codec: Codec)
    requires t != "" && IsTokenStart(t[0]) && AllIn(t, TokenClass) && Stops(rest, TokenClass)
    ensures ParseBareItem(t + rest, codec) == Got(Token(t), rest)
  {
    SpanOf(t, rest, TokenClass);
  }

  lemma BooleanRead(on: bool, rest: string, codec: Codec)
    ensures ParseBareItem((if on then "?1" else "?0") + rest, codec) == Got(Boolean(on), rest)
  {
    var s := (if on then "?1" else "?0") + rest;
    assert s[2..] == rest;
  }

  lemma DateRead(i: int, rest: string, codec: Codec)
    requires InRange(i) && AfterItem(rest)
    ensures ParseBareItem("@" + (PrintInt(i) + rest), codec) == Got(Date(i), rest)
  {
    NumberRead(i, rest);
    AtSign(PrintInt(i) + rest, i, rest, codec);
  }

  lemma AtSign(number: string, i: int, rest: string, codec: Codec)
    requires ParseNumber(number) == Got(Integer(i), rest)
    ensures ParseBareItem("@" + number, codec) == Got(Date(i), rest)
  {
    Uncons('@', number);
    assert "@" + number == ['@'] + number;
  }

  lemma NumberRead(i: int, rest: string)
    requires InRange(i) && AfterItem(rest)
    ensures ParseNumber(PrintInt(i) + rest) == Got(Integer(i), rest)
  {
    var n: nat := if i < 0 then -i else i;
    PrintedDigits(n);
    ParseDigitsOf(PrintNat(n), rest);
    Assoc(['-'], PrintNat(n), rest);
  }

  /** Section 4.1.11 of RFC 9651: printable bytes as they are, the others as two lower-case hex digits. */
  function DisplayText(b: seq<byte>): string {
    if b == [] then "" else DisplayByte(b[0]) + DisplayText(b[1..])
  }

  function DisplayByte(x: byte): string {
    if x == 0x22 || x == 0x25 || x < 0x20 || x > 0x7e then ['%', HexChar(x / 16), HexChar(x % 16)] else [x as char]
  }

  function HexChar(d: int): char
    requires 0 <= d < 16
  {
    if d < 10 then (d + '0' as int) as char else (d - 10 + 'a' as int) as char
  }

  lemma {:induction false} DisplayRead(b: seq<byte>, rest: string)
    ensures ParseDisplayBody(DisplayText(b) + ("\"" + rest)) == Got(b, rest)
  {
    if b == [] {
      Uncons('"', rest);
      assert "" + ("\"" + rest) == ['"'] + rest;
    } else {
      var tail := DisplayText(b[1..]) + ("\"" + rest);
      DisplayRead(b[1..], rest);
      Assoc(DisplayByte(b[0]), DisplayText(b[1..]), "\"" + rest);
      DisplayByteRead(b[0], tail);
      assert b == [b[0]] + b[1..];
    }
  }

  lemma DisplayByteRead(x: byte, tail: string)
    requires ParseDisplayBody(tail).Got?
    ensures ParseDisplayBody(DisplayByte(x) + tail) ==
            Got([x] + ParseDisplayBody(tail).value, ParseDisplayBody(tail).rest)
  {
    var s := DisplayByte(x) + tail;
    assert s[|DisplayByte(x)|..] == tail;
    HexCharRead(x / 16);
    HexCharRead(x % 16);
  }

  lemma HexCharRead(d: int)
    requires 0 <= d < 16
    ensures HexDigit(HexChar(d)) == Some(d)
  {
  }

  // ---------- Parameters ----------

  /** Overwrite an existing key in place, else append: sections 4.2.2 and 4.2.3.2. */
  function Put<V>(m: seq<(string, V)>, k: string, v: V): seq<(string, V)> {
    if m == [] then [(k, v)]
    else if m[0].0 == k then [(k, v)] + m[1..]
    else [m[0]] + Put(m[1..], k, v)
  }

  predicate HasKey<V>(m: seq<(string, V)>, k: string) {
    exists i :: 0 <= i < |m| && m[i].0 == k
  }

  lemma {:induction false} PutFresh<V>(m: seq<(string, V)>, k: string, v: V)
    requires !HasKey(m, k)
    ensures Put(m, k, v) == m + [(k, v)]
  {
    if m != [] {
      assert m[0].0 != k;
      assert forall i :: 0 <= i < |m[1..]| ==> m[1..][i] == m[i + 1];
      PutFresh(m[1..], k, v);
      assert m == [m[0]] + m[1..];
    }
  }

  function ParseParams(s: string, acc: Params, codec: Codec): (r: Parsed<Params>)
    ensures r.Got? ==> |r.rest| <= |s|
    decreases |s|
  {
    if s == [] || s[0] != ';' then Got(acc, s) else
    match ParseKey(Skip(s[1..], SpaceClass))
    case Fail => Fail
    case Got(k, r) =>
      if r != [] && r[0] == '=' then
        match ParseBareItem(r[1..], codec)
        case Fail => Fail
        case Got(v, r2) => ParseParams(r2, Put(acc, k, v), codec)
      else
        ParseParams(r, Put(acc, k, Boolean(true)), codec)
  }

  function PrintParam(k: string, v: BareItem): string
    requires PrintableItem(v)
  {
    ";" + k + "=" + PrintBareItem(v)
  }

  predicate PrintableParams(ps: Params) {
    forall i :: 0 <= i < |ps| ==> IsKey(ps[i].0) && PrintableItem(ps[i].1)
  }

  function PrintParams(ps: Params): string
    requires PrintableParams(ps)
  {
    if ps == [] then []
    else
      assert PrintableParams(ps[1..]) by {
        assert forall i :: 0 <= i < |ps[1..]| ==> ps[1..][i] == ps[i + 1];
      }
      PrintParam(ps[0].0, ps[0].1) + PrintParams(ps[1..])
  }

  lemma ParseParamStep(k: string, v: BareItem, rest: string, acc: Params, codec: Codec)
    requires IsKey(k) && PrintableItem(v) && AfterItem(rest)
    ensures ParseParams(PrintParam(k, v) + rest, acc, codec) == ParseParams(rest, Put(acc, k, v), codec)
  {
    var item := PrintBareItem(v) + rest;
    ParseBareItemOf(v, rest, codec);
    ParamText(k, PrintBareItem(v), rest);
    ParseParamAt(PrintParam(k, v) + rest, k, v, item, rest, acc, codec);
  }

  lemma ParamText(k: string, value: string, rest: string)
    ensures ";" + k + "=" + value + rest == [';'] + (k + (['='] + (value + rest)))
  {
  }

  lemma ParseParamAt(s: string, k: string, v: BareItem, item: string, rest: string, acc: Params, codec: Codec)
    requires IsKey(k) && s == [';'] + (k + (['='] + item)) && ParseBareItem(item, codec) == Got(v, rest)
    ensures ParseParams(s, acc, codec) == ParseParams(rest, Put(acc, k, v), codec)
  {
    Uncons(';', k + (['='] + item));
    Uncons('=', item);
    SkipNone(k + (['='] + item), SpaceClass);
    ParseKeyOf(k, ['='] + item);
  }

  /** What may follow a printed parameter list without extending it. */
  predicate AfterParams(rest: string) {
    AfterItem(rest) && (rest == [] || rest[0] != ';')
  }

  lemma PrintParamsStart(ps: Params, rest: string)
    requires PrintableParams(ps) && AfterParams(rest)
    ensures AfterItem(PrintParams(ps) + rest)
  {
    if ps == [] {
      assert PrintParams(ps) + rest == rest;
    } else {
      assert PrintParam(ps[0].0, ps[0].1)[0] == ';';
      assert (PrintParams(ps) + rest)[0] == ';';
    }
  }

  /** Keys from index `from` on are new: not among `acc` and not repeated. */
  predicate Fresh(ps: Params, acc: Params) {
    (forall i :: 0 <= i < |ps| ==> !HasKey(acc, ps[i].0)) &&
    (forall i, j :: 0 <= i < j < |ps| ==> ps[i].0 != ps[j].0)
  }

  lemma HasKeyAppend(acc: Params, p: (string, BareItem), k: string)
    ensures HasKey(acc + [p], k) ==> HasKey(acc, k) || p.0 == k
  {
    assert forall j :: 0 <= j < |acc| ==> (acc + [p])[j] == acc[j];
  }

  lemma FreshTail(ps: Params, acc: Params)
    requires ps != [] && Fresh(ps, acc)
    ensures Fresh(ps[1..], acc + [ps[0]])
  {
    forall i | 0 <= i < |ps[1..]| ensures !HasKey(acc + [ps[0]], ps[1..][i].0) {
      assert ps[1..][i] == ps[i + 1];
      HasKeyAppend(acc, ps[0], ps[i + 1].0);
    }
  }

  lemma PrintParamsStep(ps: Params, rest: string)
    requires PrintableParams(ps) && ps != []
    ensures PrintableParams(ps[1..])
    ensures PrintParams(ps) + rest == PrintParam(ps[0].0, ps[0].1) + (PrintParams(ps[1..]) + rest)
  {
    assert forall i :: 0 <= i < |ps[1..]| ==> ps[1..][i] == ps[i + 1];
    Assoc(PrintParam(ps[0].0, ps[0].1), PrintParams(ps[1..]), rest);
  }

  lemma AppendHead<T>(acc: seq<T>, ps: seq<T>)
    requires ps != []
    ensures acc + [ps[0]] + ps[1..] == acc + ps
  {
  }

  lemma {:induction false} ParseParamsOf(ps: Params, rest: string, acc: Params, codec: Codec)
    requires PrintableParams(ps) && Fresh(ps, acc) && AfterParams(rest)
    ensures ParseParams(PrintParams(ps) + rest, acc, codec) == Got(acc + ps, rest)
    decreases |ps|
  {
    if ps == [] {
      assert PrintParams(ps) + rest == rest && acc + ps == acc;
    } else {
      PrintParamsStep(ps, rest);
      PrintParamsStart(ps[1..], rest);
      ParseParamStep(ps[0].0, ps[0].1, PrintParams(ps[1..]) + rest, acc, codec);
      PutFresh(acc, ps[0].0, ps[0].1);
      FreshTail(ps, acc);
      ParseParamsOf(ps[1..], rest, acc + [ps[0]], codec);
      AppendHead(acc, ps);
    }
  }

  // ---------- Items, inner lists and dictionaries ----------

  function ParseItem(s: string, codec: Codec): (r: Parsed<Item>)
    ensures r.Got? ==> |r.rest| < |s|
  {
    match ParseBareItem(s, codec)
    case Fail => Fail
    case Got(v, r) =>
      match ParseParams(r, [], codec)
      case Fail => Fail
      case Got(ps, r2) => Got(Item(v, ps), r2)
  }

  /** Section 4.2.1.2, after the opening parenthesis. */
  function ParseInnerList(s: string, acc: seq<Item>, codec: Codec): (r: Parsed<Member>)
    ensures r.Got? ==> |r.rest| < |s|
    decreases |s|
  {
    var t := Skip(s, SpaceClass);
    if t == [] then Fail
    else if t[0] == ')' then
      match ParseParams(t[1..], [], codec)
      case Fail => Fail
      case Got(ps, r) => Got(InnerList(acc, ps), r)
    else
      match ParseItem(t, codec)
      case Fail => Fail
      case Got(item, r) =>
        if r == [] || (r[0] != ' ' && r[0] != ')') then Fail else ParseInnerList(r, acc + [item], codec)
  }

  function ParseMember(s: string, codec: Codec): (r: Parsed<Member>)
    ensures r.Got? ==> |r.rest| < |s|
  {
    if s != [] && s[0] == '(' then ParseInnerList(s[1..], [], codec) else
    match ParseItem(s, codec)
    case Fail => Fail
    case Got(item, r) => Got(Single(item), r)
  }

  /** The value of a dictionary key: a member after `=`, else a parameterised `true`. */
  function ParseValue(s: string, codec: Codec): (r: Parsed<Member>)
    ensures r.Got? ==> |r.rest| <= |s|
  {
    if s != [] && s[0] == '=' then ParseMember(s[1..], codec) else
    match ParseParams(s, [], codec)
    case Fail => Fail
    case Got(ps, r) => Got(Single(Item(Boolean(true), ps)), r)
  }

  function ParseMembers(s: string, acc: Dictionary, codec: Codec): Option<Dictionary>
    decreases |s|
  {
    match ParseKey(s)
    case Fail => None
    case Got(k, r) =>
      match ParseValue(r, codec)
      case Fail => None
      case Got(m, r2) =>
        var dict := Put(acc, k, m);
        var t := Skip(r2, OwsClass);
        if t == [] then Some(dict)
        else if t[0] != ',' then None
        else
          var u := Skip(t[1..], OwsClass);
          if u == [] then None else ParseMembers(u, dict, codec)
  }

  /** Section 4.2 with type "dictionary". */
  function ParseDictionary(header: string, codec: Codec): Option<Dictionary> {
    var s := Skip(header, SpaceClass);
    if s == [] then Some([]) else ParseMembers(s, [], codec)
  }

  function PrintNames(names: seq<string>): string {
    if names == [] then []
    else if |names| == 1 then PrintString(names[0])
    else PrintString(names[0]) + " " + PrintNames(names[1..])
  }

  predicate PrintableNames(names: seq<string>) {
    forall i :: 0 <= i < |names| ==> Printable(names[i])
  }

  function NameItems(names: seq<string>): (r: seq<Item>)
    ensures |r| == |names| && forall i :: 0 <= i < |r| ==> r[i] == Item(Str(names[i]), [])
  {
    seq(|names|, i requires 0 <= i < |names| => Item(Str(names[i]), []))
  }

  /** An inner list of strings with parameters: section 4.1.1.1. */
  function PrintInnerList(names: seq<string>, ps: Params): string
    requires PrintableParams(ps)
  {
    "(" + PrintNames(names) + ")" + PrintParams(ps)
  }

  lemma ParseNameItem(name: string, rest: string, codec: Codec)
    requires Printable(name) && rest != [] && (rest[0] == ' ' || rest[0] == ')')
    ensures ParseItem(PrintString(name) + rest, codec) == Got(Item(Str(name), []), rest)
  {
    ParseBareItemOf(Str(name), rest, codec);
  }

  lemma ParseInnerStep(name: string, rest: string, acc: seq<Item>, codec: Codec)
    requires Printable(name) && rest != [] && (rest[0] == ' ' || rest[0] == ')')
    ensures ParseInnerList(PrintString(name) + rest, acc, codec) ==
            ParseInnerList(rest, acc + [Item(Str(name), [])], codec)
  {
    var s := PrintString(name) + rest;
    assert s[0] == '"';
    SkipNone(s, SpaceClass);
    ParseNameItem(name, rest, codec);
  }

  lemma ParseInnerSpace(rest: string, acc: seq<Item>, codec: Codec)
    requires rest != [] && rest[0] != ' '
    ensures ParseInnerList([' '] + rest, acc, codec) == ParseInnerList(rest, acc, codec)
  {
    SkipOf([' '], rest, SpaceClass);
    SkipNone(rest, SpaceClass);
  }

  lemma ParseInnerEnd(ps: Params, tail: string, rest: string, acc: seq<Item>, codec: Codec)
    requires PrintableParams(ps) && Fresh(ps, []) && AfterParams(rest) && tail == PrintParams(ps) + rest
    ensures ParseInnerList([')'] + tail, acc, codec) == Got(InnerList(acc, ps), rest)
  {
    Uncons(')', tail);
    SkipNone([')'] + tail, SpaceClass);
    ParseParamsOf(ps, rest, [], codec);
    assert [] + ps == ps;
  }

  lemma PrintNamesStart(names: seq<string>)
    requires names != []
    ensures PrintNames(names) != [] && PrintNames(names)[0] == '"'
  {
  }

  lemma {:induction false} ParseInnerListOf(names: seq<string>, tail: string, acc: seq<Item>, codec: Codec)
    requires PrintableNames(names) && tail != [] && tail[0] == ')'
    ensures ParseInnerList(PrintNames(names) + tail, acc, codec) == ParseInnerList(tail, acc + NameItems(names), codec)
    decreases |names|
  {
    if names == [] {
      assert PrintNames(names) + tail == tail && acc + NameItems(names) == acc;
    } else if |names| == 1 {
      ParseInnerStep(names[0], tail, acc, codec);
      assert NameItems(names) == [Item(Str(names[0]), [])];
    } else {
      PrintNamesStart(names[1..]);
      PrintNamesText(PrintString(names[0]), PrintNames(names[1..]), tail);
      ParseInnerNext(names[0], PrintNames(names[1..]) + tail, acc, codec);
      ParseInnerListOf(names[1..], tail, acc + [Item(Str(names[0]), [])], codec);
      NameItemsStep(names, acc);
    }
  }

  lemma NameItemsStep(names: seq<string>, acc: seq<Item>)
    requires names != []
    ensures acc + NameItems(names) == acc + [Item(Str(names[0]), [])] + NameItems(names[1..])
  {
  }

  lemma PrintNamesText(name: string, more: string, tail: string)
    ensures name + " " + more + tail == name + ([' '] + (more + tail))
  {
  }

  lemma ParseInnerNext(name: string, more: string, acc: seq<Item>, codec: Codec)
    requires Printable(name) && more != [] && more[0] != ' '
    ensures ParseInnerList(PrintString(name) + ([' '] + more), acc, codec) ==
            ParseInnerList(more, acc + [Item(Str(name), [])], codec)
  {
    ParseInnerStep(name, [' '] + more, acc, codec);
    ParseInnerSpace(more, acc + [Item(Str(name), [])], codec);
  }

  lemma InnerListText(names: string, ps: string, rest: string)
    ensures "(" + names + ")" + ps + rest == ['('] + (names + ([')'] + (ps + rest)))
  {
  }

  /** A printed inner list reads back, whatever may legally follow it. */
  lemma InnerListRoundTrip(names: seq<string>, ps: Params, rest: string, codec: Codec)
    requires PrintableNames(names) && PrintableParams(ps) && Fresh(ps, []) && AfterParams(rest)
    ensures ParseMember(PrintInnerList(names, ps) + rest, codec) == Got(InnerList(NameItems(names), ps), rest)
  {
    var tail := PrintParams(ps) + rest;
    InnerListText(PrintNames(names), PrintParams(ps), rest);
    Uncons('(', PrintNames(names) + ([')'] + tail));
    ParseInnerListOf(names, [')'] + tail, [], codec);
    ParseInnerEnd(ps, tail, rest, [] + NameItems(names), codec);
    assert [] + NameItems(names) == NameItems(names);
  }

  lemma SkipBlank(post: string)
    ensures AllIn(post, OwsClass) ==> Skip(post, OwsClass) == []
    ensures !AllIn(post, OwsClass) && Blank(post) ==> Skip(post, OwsClass) != [] && Skip(post, OwsClass)[0] != ','
  {
    var n := Span(post, OwsClass);
    if AllIn(post, OwsClass) {
      SkipOf(post, [], OwsClass);
      assert post + [] == post;
    } else {
      assert post[n] in post && Skip(post, OwsClass)[0] == post[n];
    }
  }

  /** A one-member dictionary with its text, and `post` left over. */
  lemma ParseMembersOf(key: string, text: string, post: string, m: Member, codec: Codec)
    requires IsKey(key) && ParseMember(text, codec) == Got(m, post)
    ensures AllIn(post, OwsClass) ==> ParseMembers(key + (['='] + text), [], codec) == Some([(key, m)])
    ensures !AllIn(post, OwsClass) && Blank(post) ==> ParseMembers(key + (['='] + text), [], codec) == None
  {
    ParseKeyOf(key, ['='] + text);
    Uncons('=', text);
    SkipBlank(post);
  }

  /** A member, a comma with optional white space around it, and more members. */
  lemma ParseMembersNext(key: string, text: string, m: Member, pre: string, post: string, more: string,
                         acc: Dictionary, codec: Codec)
    requires IsKey(key) && AllIn(pre, OwsClass) && AllIn(post, OwsClass) && more != [] && Stops(more, OwsClass)
    requires ParseMember(text, codec) == Got(m, pre + ([','] + (post + more)))
    ensures ParseMembers(key + (['='] + text), acc, codec) == ParseMembers(more, Put(acc, key, m), codec)
  {
    KeyAndValue(key, text, m, pre + ([','] + (post + more)), codec);
    SkipComma(pre, post + more);
    SkipOf(post, more, OwsClass);
    MembersStep(key + (['='] + text), key, ['='] + text, m, pre + ([','] + (post + more)), post + more, more, acc,
                codec);
  }

  lemma SkipComma(pre: string, u: string)
    requires AllIn(pre, OwsClass)
    ensures Skip(pre + ([','] + u), OwsClass) == [','] + u
  {
    Uncons(',', u);
    SkipOf(pre, [','] + u, OwsClass);
  }

  lemma KeyAndValue(key: string, text: string, m: Member, rest: string, codec: Codec)
    requires IsKey(key) && ParseMember(text, codec) == Got(m, rest)
    ensures ParseKey(key + (['='] + text)) == Got(key, ['='] + text)
    ensures ParseValue(['='] + text, codec) == Got(m, rest)
  {
    ParseKeyOf(key, ['='] + text);
    Uncons('=', text);
  }

  lemma MembersStep(s: string, key: string, value: string, m: Member, rest: string, u: string, more: string,
                    acc: Dictionary, codec: Codec)
    requires ParseKey(s) == Got(key, value) && ParseValue(value, codec) == Got(m, rest)
    requires Skip(rest, OwsClass) == [','] + u && Skip(u, OwsClass) == more && more != []
    ensures ParseMembers(s, acc, codec) == ParseMembers(more, Put(acc, key, m), codec)
  {
    Uncons(',', u);
  }

  /** The last member. */
  lemma ParseMembersLast(key: string, text: string, m: Member, acc: Dictionary, codec: Codec)
    requires IsKey(key) && ParseMember(text, codec) == Got(m, [])
    ensures ParseMembers(key + (['='] + text), acc, codec) == Some(Put(acc, key, m))
  {
    ParseKeyOf(key, ['='] + text);
    Uncons('=', text);
  }

  /** Spaces before and optional white space after a one-member dictionary are ignored. */
  lemma ParseOneMember(pre: string, key: string, text: string, post: string, m: Member, codec: Codec)
    requires AllIn(pre, SpaceClass) && IsKey(key)
    requires ParseMember(text, codec) == Got(m, post)
    ensures AllIn(post, OwsClass) ==>
      ParseDictionary(pre + (key + (['='] + text)), codec) == Some([(key, m)])
    ensures !AllIn(post, OwsClass) && Blank(post) ==>
      ParseDictionary(pre + (key + (['='] + text)), codec) == None
  {
    SkipOf(pre, key + (['='] + text), SpaceClass);
    ParseMembersOf(key, text, post, m, codec);
  }

  // Edges of the grammar.

  /** A key starts with a lower-case letter or `*`, goes on with those, digits, `_`, `-` and `.`, and takes them all. */
  lemma KeyIff(s: string, key: string, rest: string)
    ensures ParseKey(s) == Got(key, rest) <==>
            && s == key + rest && key != "" && ('a' <= key[0] <= 'z' || key[0] == '*')
            && (forall i :: 0 <= i < |key| ==>
                  'a' <= key[i] <= 'z' || '0' <= key[i] <= '9' || key[i] in {'*', '_', '-', '.'})
            && (rest == "" || !('a' <= rest[0] <= 'z' || '0' <= rest[0] <= '9' || rest[0] in {'*', '_', '-', '.'}))
  {
    if ParseKey(s).Got? {
      assert s == ParseKey(s).value + ParseKey(s).rest;
    }
    if key != "" && IsKeyStart(key[0]) && AllIn(key, KeyClass) && Stops(rest, KeyClass) {
      ParseKeyOf(key, rest);
    }
  }

  /** A parameter, or a dictionary member, without a value is true. */
  lemma FlagsAreTrue(key: string, rest: string, acc: Params, codec: Codec)
    requires IsKey(key) && Stops(rest, KeyClass) && (rest == "" || (rest[0] != '=' && rest[0] != ';'))
    ensures ParseParams(";" + (key + rest), acc, codec) == Got(Put(acc, key, Boolean(true)), rest)
    ensures ParseValue(rest, codec) == Got(Single(Item(Boolean(true), [])), rest)
  {
    ParseKeyOf(key, rest);
    assert ";" + (key + rest) == [';'] + (key + rest);
    Uncons(';', key + rest);
    SkipNone(key + rest, SpaceClass);
    assert ParseParams(rest, Put(acc, key, Boolean(true)), codec) == Got(Put(acc, key, Boolean(true)), rest);
  }

  /** A dictionary may not end with a comma. */
  lemma TrailingCommaRefused(key: string, text: string, m: Member, pre: string, post: string, acc: Dictionary,
                             codec: Codec)
    requires IsKey(key) && AllIn(pre, OwsClass) && AllIn(post, OwsClass)
    requires ParseMember(text, codec) == Got(m, pre + ([','] + post))
    ensures ParseMembers(key + (['='] + text), acc, codec) == None
  {
    KeyAndValue(key, text, m, pre + ([','] + post), codec);
    SkipComma(pre, post);
    SkipBlank(post);
    MembersEnd(key + (['='] + text), key, ['='] + text, m, pre + ([','] + post), post, acc, codec);
  }

  lemma MembersEnd(s: string, key: string, value: string, m: Member, rest: string, post: string, acc: Dictionary,
                   codec: Codec)
    requires ParseKey(s) == Got(key, value) && ParseValue(value, codec) == Got(m, rest)
    requires Skip(rest, OwsClass) == [','] + post && Skip(post, OwsClass) == []
    ensures ParseMembers(s, acc, codec) == None
  {
    Uncons(',', post);
  }

  /** Items of an inner list are separated by spaces. */
  lemma ItemsSeparated(name: string, rest: string, acc: seq<Item>, codec: Codec)
    requires Printable(name) && (rest == "" || (rest[0] != ' ' && rest[0] != ')' && rest[0] != ';'))
    ensures ParseInnerList(PrintString(name) + rest, acc, codec) == Fail
  {
    var s := PrintString(name) + rest;
    assert s[0] == '"';
    SkipNone(s, SpaceClass);
    ParseQuotedOf(name, rest, codec);
    assert ParseParams(rest, [], codec) == Got([], rest);
  }

  /** An empty header is an empty dictionary. */
  lemma EmptyHeader(pre: string, codec: Codec)
    requires AllIn(pre, SpaceClass)
    ensures ParseDictionary(pre, codec) == Some([])
  {
    SkipOf(pre, [], SpaceClass);
    assert pre + [] == pre;
  }
}
