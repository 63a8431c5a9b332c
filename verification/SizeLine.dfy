/** The chunk-size line of HTTP chunked transfer coding (section 7.1 of RFC 9112) as the decoder
    reads it: UTF-8 validation, everything from the first ';' dropped, Unicode white space
    trimmed, and the rest read as a hexadecimal 64-bit `usize`. */
module SizeLine {
  import opened ByteStrings

  /** Unicode scalar values. */
  type Text = seq<nat>

  const USIZE_LIMIT: nat := 0x1_0000_0000_0000_0000

  predicate IsContinuation(b: Byte) { 0x80 <= b <= 0xbf }

  /** The legal range of the second byte of a multi-byte sequence; it depends on the first, which
      is how overlong forms, surrogates and values past 0x10ffff are shut out. */
  predicate SecondByteOk(first: Byte, second: Byte) {
    if first == 0xe0 then 0xa0 <= second <= 0xbf
    else if first == 0xed then 0x80 <= second <= 0x9f
    else if first == 0xf0 then 0x90 <= second <= 0xbf
    else if first == 0xf4 then 0x80 <= second <= 0x8f
    else IsContinuation(second)
  }

  /** The number of bytes of the sequence at the head of `s`, or 0 when it is not valid UTF-8. */
  function SequenceLength(s: Bytes): (n: nat)
    requires s != []
    ensures n <= |s|
  {
    if s[0] < 0x80 then 1
    else if 0xc2 <= s[0] <= 0xdf then
      if |s| >= 2 && IsContinuation(s[1]) then 2 else 0
    else if 0xe0 <= s[0] <= 0xef then
      if |s| >= 3 && SecondByteOk(s[0], s[1]) && IsContinuation(s[2]) then 3 else 0
    else if 0xf0 <= s[0] <= 0xf4 then
      if |s| >= 4 && SecondByteOk(s[0], s[1]) && IsContinuation(s[2]) && IsContinuation(s[3]) then 4 else 0
    else 0
  }

  function ScalarValue(s: Bytes): nat
    requires s != [] && SequenceLength(s) != 0
  {
    var length, b0: int := SequenceLength(s), s[0];
    if length == 1 then b0
    else
      var b1: int := s[1] - 0x80;
      if length == 2 then (b0 - 0xc0) * 0x40 + b1
      else
        var b2: int := s[2] - 0x80;
        if length == 3 then (b0 - 0xe0) * 0x1000 + b1 * 0x40 + b2
        else
          var b3: int := s[3] - 0x80;
          (b0 - 0xf0) * 0x40000 + b1 * 0x1000 + b2 * 0x40 + b3
  }

  function DecodeUtf8(s: Bytes): Option<Text> {
    if s == [] then Some([])
    else if SequenceLength(s) == 0 then None
    else
      match DecodeUtf8(s[SequenceLength(s)..])
      case None => None
      case Some(rest) => Some([ScalarValue(s)] + rest)
  }

  /** The Unicode White_Space property, which `str::trim` uses. */
  predicate IsWhiteSpace(c: nat) {
    0x09 <= c <= 0x0d || c == 0x20 || c == 0x85 || c == 0xa0 || c == 0x1680 || 0x2000 <= c <= 0x200a
    || c == 0x2028 || c == 0x2029 || c == 0x202f || c == 0x205f || c == 0x3000
  }

  function UpToSemicolon(t: Text): Text {
    if t == [] || t[0] == 0x3b then [] else [t[0]] + UpToSemicolon(t[1..])
  }

  function TrimStart(t: Text): Text {
    if t != [] && IsWhiteSpace(t[0]) then TrimStart(t[1..]) else t
  }

  function TrimEnd(t: Text): Text {
    if t != [] && IsWhiteSpace(t[|t| - 1]) then TrimEnd(t[..|t| - 1]) else t
  }

  function Trim(t: Text): Text { TrimEnd(TrimStart(t)) }

  function DigitValue(c: nat): Option<nat> {
    if 0x30 <= c <= 0x39 then Some(c - 0x30)
    else if 0x61 <= c <= 0x66 then Some(c - 0x61 + 10)
    else if 0x41 <= c <= 0x46 then Some(c - 0x41 + 10)
    else None
  }

  /** The value of a digit string, without the width limit. */
  function HexValue(t: Text): Option<nat> {
    if t == [] then Some(0)
    else
      match (HexValue(t[..|t| - 1]), DigitValue(t[|t| - 1]))
      case (Some(high), Some(low)) => Some(16 * high + low)
      case _ => None
  }

  /** `usize::from_str_radix(_, 16)`: one leading '+' is allowed, the empty string and a value that
      does not fit are errors. */
  function FromStrRadix16(t: Text): (r: Option<nat>)
    ensures r.Some? ==> r.value < USIZE_LIMIT
  {
    var digits := if |t| >= 2 && t[0] == 0x2b then t[1..] else t;
    if digits == [] then None
    else
      match HexValue(digits)
      case None => None
      case Some(v) => if v < USIZE_LIMIT then Some(v) else None
  }

  /** None stands for either of the two panics of the source. */
  function ParseSizeLine(line: Bytes): (r: Option<nat>)
    ensures r.Some? ==> r.value < USIZE_LIMIT
  {
    match DecodeUtf8(line)
    case None => None
    case Some(text) => FromStrRadix16(Trim(UpToSemicolon(text)))
  }

  function HexDigit(d: nat): Byte
    requires d < 16
  {
    if d < 10 then 0x30 + d else 0x61 + (d - 10)
  }

  /** `format!("{:x}", n)`. */
  function ToHex(n: nat): (s: Bytes)
    ensures s != [] && (s[0] == 0x30 ==> n == 0 && |s| == 1)
    ensures forall i :: 0 <= i < |s| ==> 0x30 <= s[i] <= 0x39 || 0x61 <= s[i] <= 0x66
  {
    if n < 16 then [HexDigit(n)] else ToHex(n / 16) + [HexDigit(n % 16)]
  }

  lemma {:induction false} HexRoundTrip(n: nat)
    ensures HexValue(ToHex(n)) == Some(n)
  {
    var s := ToHex(n);
    if n < 16 {
      assert s[..|s| - 1] == [];
    } else {
      HexRoundTrip(n / 16);
      assert s[..|s| - 1] == ToHex(n / 16);
    }
  }

  lemma {:induction false} AsciiDecodesToItself(s: Bytes, more: Bytes)
    requires forall i :: 0 <= i < |s| ==> s[i] < 0x80
    requires DecodeUtf8(more).Some?
    ensures DecodeUtf8(s + more) == Some(s + DecodeUtf8(more).value)
  {
    if s == [] {
      assert s + more == more;
      assert s + DecodeUtf8(more).value == DecodeUtf8(more).value;
    } else {
      AsciiDecodesToItself(s[1..], more);
      assert (s + more)[1..] == s[1..] + more;
      assert [s[0] as nat] + (s[1..] + DecodeUtf8(more).value) == s + DecodeUtf8(more).value;
    }
  }

  lemma {:induction false} KeepsUpToSemicolon(t: Text, more: Text)
    requires 0x3b !in t && (more == [] || more[0] == 0x3b)
    ensures UpToSemicolon(t + more) == t
  {
    if t == [] {
      assert t + more == more;
    } else {
      assert (t + more)[1..] == t[1..] + more;
      KeepsUpToSemicolon(t[1..], more);
    }
  }

  lemma NothingToTrim(t: Text)
    requires t != [] && !IsWhiteSpace(t[0]) && !IsWhiteSpace(t[|t| - 1])
    ensures Trim(t) == t
  {
  }

  /** Every size the encoder prints is read back exactly, as long as it is a 64-bit size, and a
      chunk extension behind it changes nothing as long as the line is valid UTF-8. */
  lemma SizeLineRoundTrip(n: nat, extension: Bytes)
    requires n < USIZE_LIMIT
    requires extension == [] || (extension[0] == 0x3b && DecodeUtf8(extension).Some?)
    ensures ParseSizeLine(ToHex(n) + extension) == Some(n)
  {
    var s := ToHex(n);
    var more := DecodeUtf8(extension).value;
    AsciiDecodesToItself(s, extension);
    assert extension != [] ==> more != [] && more[0] == 0x3b;
    KeepsUpToSemicolon(s, more);
    NothingToTrim(s);
    HexRoundTrip(n);
    ReadsPlainDigits(s, n);
  }

  lemma ReadsPlainDigits(t: Text, n: nat)
    requires t != [] && t[0] != 0x2b && HexValue(t) == Some(n) && n < USIZE_LIMIT
    ensures FromStrRadix16(t) == Some(n)
  {
  }

  // ----- Digits and characters

  const LOWER: string := "0123456789abcdef"
  const UPPER: string := "0123456789ABCDEF"

  /** Exactly these characters are digits, in either case, with these values. */
  lemma DigitsAre(c: nat, d: nat)
    ensures DigitValue(c) == Some(d) <==> d < 16 && (c == LOWER[d] as nat || c == UPPER[d] as nat)
  {
  }

  /** The same digits in upper case. */
  function ToUpper(t: Text): (u: Text)
    ensures |u| == |t|
  {
    seq(|t|, i requires 0 <= i < |t| => if 0x61 <= t[i] <= 0x7a then t[i] - 0x20 else t[i])
  }

  /** Upper-case digits have the value of lower-case ones. */
  lemma {:induction false} CaseIsIgnored(t: Text)
    requires HexValue(t).Some?
    ensures HexValue(ToUpper(t)) == HexValue(t)
  {
    if t != [] {
      var n := |t| - 1;
      CaseIsIgnored(t[..n]);
      assert ToUpper(t)[..n] == ToUpper(t[..n]);
    }
  }

  /** The 25 characters that are trimmed. */
  lemma WhiteSpaceIs(c: nat)
    ensures IsWhiteSpace(c)
       <==> c in {0x09, 0x0a, 0x0b, 0x0c, 0x0d, 0x20, 0x85, 0xa0, 0x1680, 0x2000, 0x2001, 0x2002, 0x2003, 0x2004,
                  0x2005, 0x2006, 0x2007, 0x2008, 0x2009, 0x200a, 0x2028, 0x2029, 0x202f, 0x205f, 0x3000}
  {
  }

  predicate IsScalar(c: nat) { c < 0xd800 || 0xe000 <= c < 0x11_0000 }

  /** The UTF-8 bytes of one scalar value. */
  function EncodeScalar(c: nat): (s: Bytes)
    requires IsScalar(c)
    ensures 1 <= |s| <= 4
  {
    if c < 0x80 then [c]
    else if c < 0x800 then [0xc0 + c / 0x40, 0x80 + c % 0x40]
    else if c < 0x1_0000 then [0xe0 + c / 0x1000, 0x80 + c / 0x40 % 0x40, 0x80 + c % 0x40]
    else [0xf0 + c / 0x4_0000, 0x80 + c / 0x1000 % 0x40, 0x80 + c / 0x40 % 0x40, 0x80 + c % 0x40]
  }

  ghost predicate AllScalars(t: Text) { forall i :: 0 <= i < |t| ==> IsScalar(t[i]) }

  ghost function EncodeUtf8(t: Text): Bytes
    requires AllScalars(t)
  {
    if t == [] then [] else EncodeScalar(t[0]) + EncodeUtf8(t[1..])
  }

  /** The value of up to four groups of six binary digits, and the groups again. */
  lemma Groups(w: nat, x: nat, y: nat, z: nat, c: nat)
    requires x < 0x40 && y < 0x40 && z < 0x40 && c == w * 0x4_0000 + x * 0x1000 + y * 0x40 + z
    ensures c % 0x40 == z && c / 0x40 % 0x40 == y && c / 0x1000 % 0x40 == x && c / 0x4_0000 == w
    ensures c / 0x1000 == w * 0x40 + x && c / 0x40 == w * 0x1000 + x * 0x40 + y
  {
  }

  lemma TwoDecode(s: Bytes)
    requires s != [] && SequenceLength(s) == 2
    ensures IsScalar(ScalarValue(s)) && EncodeScalar(ScalarValue(s)) == s[..2]
  {
    Groups(0, 0, s[0] - 0xc0, s[1] - 0x80, ScalarValue(s));
  }

  lemma ThreeDecode(s: Bytes)
    requires s != [] && SequenceLength(s) == 3
    ensures IsScalar(ScalarValue(s)) && EncodeScalar(ScalarValue(s)) == s[..3]
  {
    Groups(0, s[0] - 0xe0, s[1] - 0x80, s[2] - 0x80, ScalarValue(s));
  }

  lemma FourDecode(s: Bytes)
    requires s != [] && SequenceLength(s) == 4
    ensures IsScalar(ScalarValue(s)) && EncodeScalar(ScalarValue(s)) == s[..4]
  {
    Groups(s[0] - 0xf0, s[1] - 0x80, s[2] - 0x80, s[3] - 0x80, ScalarValue(s));
  }

  lemma HeadDecodes(s: Bytes)
    requires s != [] && SequenceLength(s) != 0
    ensures IsScalar(ScalarValue(s)) && EncodeScalar(ScalarValue(s)) == s[..SequenceLength(s)]
  {
    match SequenceLength(s)
    case 2 => TwoDecode(s);
    case 3 => ThreeDecode(s);
    case 4 => FourDecode(s);
    case _ =>
  }

  ghost predicate DecodesTo(s: Bytes, c: nat, n: nat) {
    s != [] && SequenceLength(s) == n && n > 0 && ScalarValue(s) == c
  }

  lemma TwoEncode(c: nat, s: Bytes)
    requires 0x80 <= c < 0x800 && |s| >= 2 && s[..2] == EncodeScalar(c)
    ensures DecodesTo(s, c, 2)
  {
    assert s[0] == s[..2][0] && s[1] == s[..2][1];
  }

  lemma ThreeEncode(c: nat, s: Bytes)
    requires 0x800 <= c < 0x1_0000 && IsScalar(c) && |s| >= 3 && s[..3] == EncodeScalar(c)
    ensures DecodesTo(s, c, 3)
  {
    assert s[0] == s[..3][0] && s[1] == s[..3][1] && s[2] == s[..3][2];
    Groups(0, c / 0x1000, c / 0x40 % 0x40, c % 0x40, c);
  }

  lemma FourEncode(c: nat, s: Bytes)
    requires 0x1_0000 <= c < 0x11_0000 && |s| >= 4 && s[..4] == EncodeScalar(c)
    ensures DecodesTo(s, c, 4)
  {
    assert s[0] == s[..4][0] && s[1] == s[..4][1] && s[2] == s[..4][2] && s[3] == s[..4][3];
    Groups(c / 0x4_0000, c / 0x1000 % 0x40, c / 0x40 % 0x40, c % 0x40, c);
  }

  lemma HeadEncodes(c: nat, rest: Bytes)
    requires IsScalar(c)
    ensures var s := EncodeScalar(c) + rest;
            SequenceLength(s) == |EncodeScalar(c)| && ScalarValue(s) == c && s[SequenceLength(s)..] == rest
  {
    var s, n := EncodeScalar(c) + rest, |EncodeScalar(c)|;
    assert s[..n] == EncodeScalar(c) && s[n..] == rest;
    if n == 2 {
      TwoEncode(c, s);
    } else if n == 3 {
      ThreeEncode(c, s);
    } else if n == 4 {
      FourEncode(c, s);
    }
  }

  /** Decoding accepts exactly the encodings of sequences of scalar values: no overlong form, no
      surrogate and nothing past 0x10ffff. */
  lemma {:induction false} DecodesExactlyEncodings(s: Bytes, t: Text)
    ensures DecodeUtf8(s) == Some(t) <==> AllScalars(t) && EncodeUtf8(t) == s
    decreases |s| + |t|
  {
    if s != [] && SequenceLength(s) != 0 {
      HeadDecodes(s);
      var n, c := SequenceLength(s), ScalarValue(s);
      if t != [] {
        DecodesExactlyEncodings(s[n..], t[1..]);
        assert s == s[..n] + s[n..];
        if DecodeUtf8(s) == Some(t) {
          assert t[0] == c && DecodeUtf8(s[n..]) == Some(t[1..]);
        }
      }
    }
    if t != [] && AllScalars(t) && EncodeUtf8(t) == s {
      HeadEncodes(t[0], EncodeUtf8(t[1..]));
      DecodesExactlyEncodings(EncodeUtf8(t[1..]), t[1..]);
      assert t == [t[0]] + t[1..];
    }
  }

  // ----- The lines that are accepted

  ghost predicate Blank(t: Text) { forall c :: c in t ==> IsWhiteSpace(c) }

  ghost predicate Tail(t: Text) { t == [] || t[0] == 0x3b }

  /** White space, an optional plus, at least one hexadecimal digit, white space, and a tail that
      begins with a semicolon. */
  ghost predicate SizeText(text: Text, left: Text, sign: Text, digits: Text, right: Text, tail: Text) {
    && text == left + (sign + digits) + right + tail
    && Blank(left) && (sign == [] || sign == [0x2b]) && digits != [] && Blank(right) && Tail(tail)
  }

  lemma {:induction false} AllHexDigits(t: Text)
    requires HexValue(t).Some?
    ensures forall i :: 0 <= i < |t| ==> DigitValue(t[i]).Some?
  {
    if t != [] { AllHexDigits(t[..|t| - 1]); }
  }

  lemma {:induction false} TrimStartDrops(left: Text, rest: Text)
    requires Blank(left) && rest != [] && !IsWhiteSpace(rest[0])
    ensures TrimStart(left + rest) == rest
  {
    if left == [] {
      assert left + rest == rest;
    } else {
      assert left[0] in left;
      assert (left + rest)[1..] == left[1..] + rest;
      TrimStartDrops(left[1..], rest);
    }
  }

  lemma {:induction false} TrimEndDrops(rest: Text, right: Text)
    requires Blank(right) && rest != [] && !IsWhiteSpace(rest[|rest| - 1])
    ensures TrimEnd(rest + right) == rest
    decreases |right|
  {
    if right == [] {
      assert rest + right == rest;
    } else {
      var n := |right| - 1;
      assert right[n] in right;
      assert (rest + right)[..|rest| + n] == rest + right[..n];
      TrimEndDrops(rest, right[..n]);
    }
  }

  lemma {:induction false} TrimStartSplits(t: Text) returns (left: Text)
    ensures Blank(left) && t == left + TrimStart(t)
  {
    left := [];
    if t != [] && IsWhiteSpace(t[0]) {
      var more := TrimStartSplits(t[1..]);
      left := [t[0]] + more;
    }
  }

  lemma {:induction false} TrimEndSplits(t: Text) returns (right: Text)
    ensures Blank(right) && t == TrimEnd(t) + right
  {
    right := [];
    if t != [] && IsWhiteSpace(t[|t| - 1]) {
      var more := TrimEndSplits(t[..|t| - 1]);
      right := more + [t[|t| - 1]];
    }
  }

  lemma {:induction false} SemicolonSplits(t: Text) returns (tail: Text)
    ensures t == UpToSemicolon(t) + tail && Tail(tail)
  {
    if t == [] || t[0] == 0x3b {
      tail := t;
    } else {
      tail := SemicolonSplits(t[1..]);
    }
  }

  lemma ReadsSignedDigits(sign: Text, digits: Text)
    requires (sign == [] || sign == [0x2b]) && digits != [] && HexValue(digits).Some?
    ensures FromStrRadix16(sign + digits)
         == if HexValue(digits).value < USIZE_LIMIT then HexValue(digits) else None
  {
    AllHexDigits(digits);
    if sign == [] {
      assert sign + digits == digits;
    } else {
      assert (sign + digits)[1..] == digits;
    }
  }

  /** The plus and the digits that were read. */
  lemma SignAndDigits(core: Text) returns (sign: Text, digits: Text)
    requires FromStrRadix16(core).Some?
    ensures core == sign + digits && (sign == [] || sign == [0x2b]) && digits != []
    ensures HexValue(digits) == FromStrRadix16(core)
  {
    sign, digits := [], core;
    if |core| >= 2 && core[0] == 0x2b {
      sign, digits := [0x2b], core[1..];
    }
    assert core == sign + digits;
  }

  lemma TextIsRead(text: Text, left: Text, sign: Text, digits: Text, right: Text, tail: Text)
    requires SizeText(text, left, sign, digits, right, tail) && HexValue(digits).Some?
    ensures Trim(UpToSemicolon(text)) == sign + digits
  {
    var core := sign + digits;
    AllHexDigits(digits);
    assert core[|core| - 1] == digits[|digits| - 1];
    NoSemicolon(left, sign, digits, right);
    KeepsUpToSemicolon(left + core + right, tail);
    assert left + core + right == left + (core + right);
    TrimStartDrops(left, core + right);
    TrimEndDrops(core, right);
  }

  lemma NoSemicolon(left: Text, sign: Text, digits: Text, right: Text)
    requires Blank(left) && (sign == [] || sign == [0x2b]) && Blank(right)
    requires forall i :: 0 <= i < |digits| ==> DigitValue(digits[i]).Some?
    ensures 0x3b !in left + (sign + digits) + right
  {
    assert 0x3b !in left && 0x3b !in sign && 0x3b !in digits && 0x3b !in right;
  }

  lemma TextSplits(text: Text) returns (left: Text, sign: Text, digits: Text, right: Text, tail: Text)
    requires FromStrRadix16(Trim(UpToSemicolon(text))).Some?
    ensures SizeText(text, left, sign, digits, right, tail)
    ensures HexValue(digits) == FromStrRadix16(Trim(UpToSemicolon(text)))
  {
    var line := UpToSemicolon(text);
    tail := SemicolonSplits(text);
    left := TrimStartSplits(line);
    right := TrimEndSplits(TrimStart(line));
    sign, digits := SignAndDigits(Trim(line));
    assert left + (Trim(line) + right) == left + Trim(line) + right;
  }

  /** Valid UTF-8 for a text that gives the size `n`. */
  ghost predicate IsSizeLine(line: Bytes, n: nat) {
    && DecodeUtf8(line).Some?
    && exists left: Text, sign: Text, digits: Text, right: Text, tail: Text ::
         SizeText(DecodeUtf8(line).value, left, sign, digits, right, tail) && HexValue(digits) == Some(n)
  }

  /** A line is read as size `n` exactly if it is valid UTF-8 for white space, an optional plus, the
      hexadecimal digits of `n`, white space and a tail behind a semicolon, and `n` fits a `usize`. */
  lemma AcceptsExactlySizeLines(line: Bytes, n: nat)
    ensures ParseSizeLine(line) == Some(n) <==> IsSizeLine(line, n) && n < USIZE_LIMIT
  {
    if DecodeUtf8(line).Some? {
      var text := DecodeUtf8(line).value;
      if ParseSizeLine(line) == Some(n) {
        var left, sign, digits, right, tail := TextSplits(text);
      }
      forall left, sign, digits, right, tail |
        SizeText(text, left, sign, digits, right, tail) && HexValue(digits) == Some(n) && n < USIZE_LIMIT
        ensures ParseSizeLine(line) == Some(n)
      {
        TextIsRead(text, left, sign, digits, right, tail);
        ReadsSignedDigits(sign, digits);
      }
    }
  }
}
