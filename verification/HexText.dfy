/**
 Bytes as hexadecimal text: the printer used for logs and EPC keys, and the parser of the
 raw-command input line.
 */
module HexText {
  import opened Wrappers

  // ---- Digits ------------------------------------------------------------------------

  function LowerDigit(n: nat): char
    requires n < 16
  {
    "0123456789abcdef"[n]
  }

  function ToUpper(c: char): char {
    if 'a' <= c <= 'z' then c - 'a' + 'A' else c
  }

  function ToLower(c: char): char {
    if 'A' <= c <= 'Z' then c - 'A' + 'a' else c
  }

  function MapChars(f: char -> char, s: string): (t: string)
    ensures |t| == |s| && forall k | 0 <= k < |s| :: t[k] == f(s[k])
  {
    seq(|s|, k requires 0 <= k < |s| => f(s[k]))
  }

  function EncodeByte(b: byte): string {
    [LowerDigit(Val(b) / 16), LowerDigit(Val(b) % 16)]
  }

  function EncodeToString(data: seq<byte>): (text: string)
    ensures |text| == 2 * |data|
    decreases data
  {
    if data == [] then [] else EncodeByte(data[0]) + EncodeToString(data[1..])
  }

  function HexUpper(data: seq<byte>): string {
    MapChars(ToUpper, EncodeToString(data))
  }

  function DigitValue(c: char): Option<nat> {
    if '0' <= c <= '9' then Some((c - '0') as nat)
    else if 'a' <= c <= 'f' then Some((c - 'a') as nat + 10)
    else if 'A' <= c <= 'F' then Some((c - 'A') as nat + 10)
    else None
  }

  lemma DigitBounded(c: char)
    ensures DigitValue(c).Some? ==> DigitValue(c).value < 16
  {
  }

  function DecodePair(hi: char, lo: char): Option<byte> {
    DigitBounded(hi);
    DigitBounded(lo);
    if DigitValue(hi).Some? && DigitValue(lo).Some?
    then Some(Narrow(16 * DigitValue(hi).value + DigitValue(lo).value))
    else None
  }

  /** `None` where a character is no hexadecimal digit or one is left over. */
  function DecodeString(text: string): Option<seq<byte>>
    decreases |text|
  {
    if text == [] then Some([])
    else if |text| == 1 then None
    else
      match (DecodePair(text[0], text[1]), DecodeString(text[2..]))
      case (Some(b), Some(rest)) => Some([b] + rest)
      case _ => None
  }

  lemma DigitInverse(n: nat)
    requires n < 16
    ensures DigitValue(LowerDigit(n)) == Some(n) && DigitValue(ToUpper(LowerDigit(n))) == Some(n)
    ensures ToLower(ToUpper(LowerDigit(n))) == LowerDigit(n)
  {
  }

  /** No digit is taken for a blank, a separator or the `x` of a prefix. */
  lemma DigitIsText(n: nat)
    requires n < 16
    ensures !IsSpace(LowerDigit(n)) && LowerDigit(n) != 'x'
    ensures var c := ToUpper(LowerDigit(n)); !IsSpace(c) && !IsSeparator(c)
  {
  }

  lemma DecodeEncodedByte(b: byte)
    ensures var code := EncodeByte(b);
            DecodePair(code[0], code[1]) == Some(b) && DecodePair(ToUpper(code[0]), ToUpper(code[1])) == Some(b)
  {
    hide Val, Narrow, LowerDigit, ToUpper, DigitValue;
    DigitInverse(Val(b) / 16);
    DigitInverse(Val(b) % 16);
    ByteEqual(Narrow(16 * (Val(b) / 16) + Val(b) % 16), b);
  }

  lemma {:induction false} DecodeUpper(data: seq<byte>)
    ensures DecodeString(HexUpper(data)) == Some(data)
    decreases data
  {
    hide EncodeByte, DecodePair;
    if data != [] {
      var code := EncodeByte(data[0]);
      DecodeEncodedByte(data[0]);
      assert HexUpper(data)[2..] == HexUpper(data[1..]);
      DecodeUpper(data[1..]);
      assert [data[0]] + data[1..] == data;
      assert HexUpper(data)[0] == ToUpper(code[0]) && HexUpper(data)[1] == ToUpper(code[1]);
    }
  }

  /** Two byte strings with the same upper-case text are the same. */
  lemma HexUpperInjective(a: seq<byte>, b: seq<byte>)
    requires HexUpper(a) == HexUpper(b)
    ensures a == b
  {
    DecodeUpper(a);
    DecodeUpper(b);
  }

  // ---- Splitting text ------------------------------------------------------------------

  predicate IsSpace(c: char) {
    c in {'\t', '\n', '\U{000B}', '\U{000C}', '\r', ' ', '\U{0085}', '\U{00A0}', '\U{1680}',
          '\U{2028}', '\U{2029}', '\U{202F}', '\U{205F}', '\U{3000}'}
    || '\U{2000}' <= c <= '\U{200A}'
  }

  /** The characters the parser turns into blanks before splitting. */
  predicate IsSeparator(c: char) {
    c in {',', ':', '\n', '\r', '\t'}
  }

  function Blank(c: char): char {
    if IsSeparator(c) then ' ' else c
  }

  function TrimLeft(s: string): string
    decreases |s|
  {
    if s != [] && IsSpace(s[0]) then TrimLeft(s[1..]) else s
  }

  function TrimRight(s: string): string
    decreases |s|
  {
    if s != [] && IsSpace(s[|s| - 1]) then TrimRight(s[..|s| - 1]) else s
  }

  function TrimSpace(s: string): string {
    TrimRight(TrimLeft(s))
  }

  predicate AllSpace(s: string) {
    forall c | c in s :: IsSpace(c)
  }

  lemma {:induction false} TrimLeftExact(s: string) returns (i: nat)
    ensures i <= |s| && TrimLeft(s) == s[i..] && AllSpace(s[..i]) && (i < |s| ==> !IsSpace(s[i]))
    decreases |s|
  {
    hide IsSpace;
    i := 0;
    if s != [] && IsSpace(s[0]) {
      var k := TrimLeftExact(s[1..]);
      i := k + 1;
      assert s[..i] == [s[0]] + s[1..][..k];
    }
  }

  lemma {:induction false} TrimRightExact(s: string) returns (j: nat)
    ensures j <= |s| && TrimRight(s) == s[..j] && AllSpace(s[j..]) && (j > 0 ==> !IsSpace(s[j - 1]))
    decreases |s|
  {
    hide IsSpace;
    j := |s|;
    if s != [] && IsSpace(s[|s| - 1]) {
      var front := s[..|s| - 1];
      j := TrimRightExact(front);
      assert s[j..] == front[j..] + [s[|s| - 1]];
      assert front[..j] == s[..j];
    }
  }

  /** Trimming takes away the spaces at both ends and nothing else. */
  lemma TrimExact(s: string) returns (i: nat, j: nat)
    ensures i <= j <= |s| && TrimSpace(s) == s[i..j] && AllSpace(s[..i]) && AllSpace(s[j..])
    ensures i < j ==> !IsSpace(s[i]) && !IsSpace(s[j - 1])
  {
    hide IsSpace;
    i := TrimLeftExact(s);
    var rest := s[i..];
    var k := TrimRightExact(rest);
    j := i + k;
    assert s[j..] == rest[k..] && s[i..j] == rest[..k];
  }

  /** Length of the word a string starts with. */
  function WordLength(s: string): (n: nat)
    ensures n <= |s| && (forall k | 0 <= k < n :: !IsSpace(s[k])) && (n < |s| ==> IsSpace(s[n]))
    decreases |s|
  {
    if s == [] || IsSpace(s[0]) then 0 else 1 + WordLength(s[1..])
  }

  /** The words of a string: maximal runs of characters that are not space. */
  function Fields(s: string): seq<string>
    decreases |s|
  {
    if s == [] then []
    else if IsSpace(s[0]) then Fields(s[1..])
    else [s[..WordLength(s)]] + Fields(s[WordLength(s)..])
  }

  lemma FieldsStep(s: string)
    ensures s == [] ==> Fields(s) == []
    ensures s != [] && IsSpace(s[0]) ==> Fields(s) == Fields(s[1..])
    ensures s != [] && !IsSpace(s[0]) ==>
              var n := WordLength(s); n > 0 && Fields(s) == [s[..n]] + Fields(s[n..])
  {
    hide IsSpace;
  }

  lemma {:induction false} FieldsSplit(a: string, sep: char, b: string)
    requires IsSpace(sep)
    ensures Fields(a + [sep] + b) == Fields(a) + Fields(b)
    decreases |a|
  {
    hide IsSpace, Fields, WordLength;
    var s := a + [sep] + b;
    FieldsStep(a);
    FieldsStep(s);
    if a == [] {
      assert s[1..] == b;
    } else if IsSpace(a[0]) {
      assert s[1..] == a[1..] + [sep] + b;
      FieldsSplit(a[1..], sep, b);
    } else {
      var n := WordLength(a);
      WordLengthSplit(a, [sep] + b);
      assert s == a + ([sep] + b);
      assert s[..n] == a[..n] && s[n..] == a[n..] + [sep] + b;
      FieldsSplit(a[n..], sep, b);
    }
  }

  lemma {:induction false} WordLengthSplit(a: string, b: string)
    requires b != [] && IsSpace(b[0])
    ensures WordLength(a + b) == WordLength(a)
    decreases |a|
  {
    hide IsSpace;
    if a == [] {
      assert a + b == b;
    } else {
      assert (a + b)[1..] == a[1..] + b;
      WordLengthSplit(a[1..], b);
    }
  }

  lemma {:induction false} FieldsTrimRight(s: string)
    ensures Fields(TrimRight(s)) == Fields(s)
    decreases |s|
  {
    hide IsSpace;
    if s != [] && IsSpace(s[|s| - 1]) {
      var front := s[..|s| - 1];
      assert s == front + [s[|s| - 1]] + [];
      FieldsSplit(front, s[|s| - 1], []);
      FieldsTrimRight(front);
    }
  }

  lemma {:induction false} FieldsTrimLeft(s: string)
    ensures Fields(TrimLeft(s)) == Fields(s)
    decreases |s|
  {
    hide IsSpace;
    if s != [] && IsSpace(s[0]) {
      FieldsTrimLeft(s[1..]);
    }
  }

  /** Surrounding space never matters to the words. */
  lemma FieldsTrim(s: string)
    ensures Fields(TrimSpace(s)) == Fields(s)
  {
    FieldsTrimLeft(s);
    FieldsTrimRight(TrimLeft(s));
  }

  // ---- Parsing --------------------------------------------------------------------------

  datatype HexError = EmptyInput | NoTokens | InvalidToken(token: string) | NoBytes

  /** The digits of a token: lower case, without `0x`, padded to an even length. */
  function Normalize(token: string): string {
    var lower := MapChars(ToLower, TrimSpace(token));
    var norm := if "0x" <= lower then lower[2..] else lower;
    if |norm| % 2 != 0 then "0" + norm else norm
  }

  // ---- What a token means ---------------------------------------------------------------

  predicate AllDigits(text: string) {
    forall c | c in text :: DigitValue(c).Some?
  }

  /** The digits of either case, by what they are worth. */
  lemma DigitWorth(n: nat)
    requires n < 16
    ensures DigitValue("0123456789abcdef"[n]) == Some(n) && DigitValue("0123456789ABCDEF"[n]) == Some(n)
  {
  }

  /** Digits read as one number in base 16, going on from `high`. */
  function DigitsNumber(high: nat, text: string): nat
    requires AllDigits(text)
    decreases text
  {
    if text == "" then high
    else
      assert forall c | c in text[1..] :: c in text;
      DigitsNumber(16 * high + DigitValue(text[0]).value, text[1..])
  }

  /** Bytes read as one number, the first one most significant. */
  function BytesNumber(high: nat, bytes: seq<byte>): nat
    decreases bytes
  {
    if bytes == [] then high else BytesNumber(256 * high + Val(bytes[0]), bytes[1..])
  }

  lemma {:induction false} DecodedNumber(high: nat, text: string)
    requires AllDigits(text) && |text| % 2 == 0
    ensures DecodeString(text).Some?
    ensures var bytes := DecodeString(text).value;
            2 * |bytes| == |text| && BytesNumber(high, bytes) == DigitsNumber(high, text)
    decreases |text|
  {
    hide DigitValue, Val;
    if text != "" {
      DigitBounded(text[0]);
      DigitBounded(text[1]);
      var h, l := DigitValue(text[0]).value, DigitValue(text[1]).value;
      assert forall c | c in text[2..] :: c in text;
      assert text[1..][1..] == text[2..] && text[1..][0] == text[1];
      DecodedNumber(256 * high + (16 * h + l), text[2..]);
      var rest := DecodeString(text[2..]).value;
      assert DecodeString(text) == Some([Narrow(16 * h + l)] + rest);
      assert 16 * (16 * high + h) + l == 256 * high + (16 * h + l);
    }
  }

  lemma {:induction false} LowerNumber(high: nat, text: string)
    requires AllDigits(text)
    ensures AllDigits(MapChars(ToLower, text))
    ensures DigitsNumber(high, MapChars(ToLower, text)) == DigitsNumber(high, text)
    decreases text
  {
    hide DigitValue, ToLower;
    var lower := MapChars(ToLower, text);
    forall c | c in lower
      ensures DigitValue(c).Some?
    {
      var k :| 0 <= k < |lower| && lower[k] == c;
      LowerWorth(text[k]);
    }
    if text != "" {
      assert forall c | c in text[1..] :: c in text;
      assert lower[1..] == MapChars(ToLower, text[1..]);
      LowerWorth(text[0]);
      LowerNumber(16 * high + DigitValue(text[0]).value, text[1..]);
    }
  }

  lemma LowerWorth(c: char)
    requires DigitValue(c).Some?
    ensures DigitValue(ToLower(c)) == DigitValue(c) && ToLower(c) != 'x' && !IsSpace(c) && !IsSeparator(c)
  {
  }

  lemma PrefixSolid(c: char)
    requires c in {'0', 'x', 'X'}
    ensures !IsSpace(c) && !IsSeparator(c) && ToLower(c) == (if c == '0' then '0' else 'x')
  {
  }

  /** In any case, with or without a `0x` in front, digits decode to the bytes of the number they
      denote; an odd number of them counts as if a zero stood in front. */
  lemma TokenNumber(prefix: string, digits: string)
    requires prefix in {"", "0x", "0X"} && AllDigits(digits)
    ensures DecodeString(Normalize(prefix + digits)).Some?
    ensures var bytes := DecodeString(Normalize(prefix + digits)).value;
            |bytes| == (|digits| + 1) / 2 && BytesNumber(0, bytes) == DigitsNumber(0, digits)
  {
    hide Normalize, ToLower, DecodeString, AllDigits;
    var lower := MapChars(ToLower, digits);
    LowerNumber(0, digits);
    NormalizedToken(prefix, digits);
    ZeroInFront(lower);
    DecodedNumber(0, Padded(lower));
  }

  function Padded(text: string): string {
    if |text| % 2 != 0 then "0" + text else text
  }

  lemma NormalizedToken(prefix: string, digits: string)
    requires prefix in {"", "0x", "0X"} && AllDigits(digits)
    ensures Normalize(prefix + digits) == Padded(MapChars(ToLower, digits))
  {
    hide ToLower, TrimSpace;
    TokenSolid(prefix, digits);
    TrimSolid(prefix + digits);
    WithoutPrefix(prefix, digits);
    hide MapChars, AllDigits, Solid;
  }

  lemma TokenSolid(prefix: string, digits: string)
    requires prefix in {"", "0x", "0X"} && AllDigits(digits)
    ensures Solid(prefix + digits)
  {
    hide DigitValue, ToLower, IsSpace, IsSeparator;
    forall c | c in prefix + digits
      ensures !IsSpace(c) && !IsSeparator(c)
    {
      if c in digits { LowerWorth(c); } else { PrefixSolid(c); }
    }
  }

  lemma WithoutPrefix(prefix: string, digits: string)
    requires prefix in {"", "0x", "0X"} && AllDigits(digits)
    ensures var lower := MapChars(ToLower, prefix + digits);
            (if "0x" <= lower then lower[2..] else lower) == MapChars(ToLower, digits)
  {
    hide DigitValue, ToLower, IsSpace, IsSeparator;
    var lower := MapChars(ToLower, prefix + digits);
    PrefixSolid('0');
    PrefixSolid('x');
    PrefixSolid('X');
    if prefix == "" {
      assert prefix + digits == digits;
      if |digits| > 1 {
        assert digits[1] in digits;
        LowerWorth(digits[1]);
        assert "0x"[1] == 'x';
      }
    } else {
      assert lower[0] == '0' && lower[1] == 'x';
      assert lower[..2] == "0x";
      assert lower[2..] == MapChars(ToLower, digits);
    }
  }

  lemma ZeroInFront(text: string)
    requires AllDigits(text)
    ensures AllDigits(Padded(text)) && DigitsNumber(0, Padded(text)) == DigitsNumber(0, text)
    ensures |Padded(text)| % 2 == 0 && |Padded(text)| / 2 == (|text| + 1) / 2
  {
    DigitWorth(0);
    assert ("0" + text)[1..] == text;
  }

  function DecodeTokens(tokens: seq<string>): Result<seq<byte>, HexError>
    decreases tokens
  {
    if tokens == [] then Ok([])
    else if DecodeString(Normalize(tokens[0])).None? then Err(InvalidToken(tokens[0]))
    else Join(DecodeString(Normalize(tokens[0])).value, DecodeTokens(tokens[1..]))
  }

  function Join(bytes: seq<byte>, rest: Result<seq<byte>, HexError>): Result<seq<byte>, HexError> {
    match rest
    case Ok(more) => Ok(bytes + more)
    case Err(e) => Err(e)
  }

  function Tokens(text: string): seq<string> {
    Fields(MapChars(Blank, TrimSpace(text)))
  }

  function ParseHex(text: string): Result<seq<byte>, HexError> {
    if TrimSpace(text) == [] then Err(EmptyInput)
    else if Tokens(text) == [] then Err(NoTokens)
    else match DecodeTokens(Tokens(text))
      case Err(e) => Err(e)
      case Ok(bytes) => if bytes == [] then Err(NoBytes) else Ok(bytes)
  }

  lemma {:induction false} BlankedTrimLeft(s: string)
    ensures Fields(MapChars(Blank, TrimLeft(s))) == Fields(MapChars(Blank, s))
    decreases |s|
  {
    hide IsSpace, IsSeparator;
    if s != [] && IsSpace(s[0]) {
      BlankIsSpace();
      assert MapChars(Blank, s)[1..] == MapChars(Blank, s[1..]);
      BlankedTrimLeft(s[1..]);
    }
  }

  lemma {:induction false} BlankedTrimRight(s: string)
    ensures Fields(MapChars(Blank, TrimRight(s))) == Fields(MapChars(Blank, s))
    decreases |s|
  {
    hide IsSpace, IsSeparator, Fields;
    if s != [] && IsSpace(s[|s| - 1]) {
      var front := s[..|s| - 1];
      BlankIsSpace();
      var last := Blank(s[|s| - 1]);
      assert MapChars(Blank, s) == MapChars(Blank, front) + [last] + [];
      FieldsSplit(MapChars(Blank, front), last, []);
      NoFields();
      BlankedTrimRight(front);
    }
  }

  lemma NoFields()
    ensures Fields([]) == []
  {
  }

  /** Commas, colons, blanks and line breaks all separate tokens, and that is all they do. */
  lemma TokensSplit(a: string, separator: char, b: string)
    requires separator in {',', ':', ' ', '\t', '\n', '\r'}
    ensures Tokens(a + [separator] + b) == Tokens(a) + Tokens(b)
  {
    hide IsSpace, Fields, TrimSpace;
    BlankedTrim(a);
    BlankedTrim(b);
    var whole := a + [separator] + b;
    BlankedTrim(whole);
    BlankIsSpace();
    assert Blank(separator) == ' ';
    hide IsSeparator;
    assert MapChars(Blank, whole) == MapChars(Blank, a) + [' '] + MapChars(Blank, b);
    FieldsSplit(MapChars(Blank, a), ' ', MapChars(Blank, b));
  }

  lemma BlankedTrim(s: string)
    ensures Tokens(s) == Fields(MapChars(Blank, s))
  {
    hide IsSpace, IsSeparator, Fields;
    BlankedTrimLeft(s);
    BlankedTrimRight(TrimLeft(s));
  }

  method ParseHexInput(input: string) returns (result: Result<seq<byte>, HexError>)
    ensures result == ParseHex(input)
  {
    hide TrimSpace, Fields, MapChars, DecodeString, DecodeTokens, Join, ToLower, Blank;
    var text := TrimSpace(input);
    if text == [] {
      return Err(EmptyInput);
    }
    text := MapChars(Blank, text);
    var tokens := Fields(text);
    if |tokens| == 0 {
      return Err(NoTokens);
    }
    var out: seq<byte> := [];
    JoinNone(DecodeTokens(tokens));
    for i := 0 to |tokens|
      invariant DecodeTokens(tokens) == Join(out, DecodeTokens(tokens[i..]))
    {
      var token := tokens[i];
      var lower := MapChars(ToLower, TrimSpace(token));
      var norm := if "0x" <= lower then lower[2..] else lower;
      DecodeFrom(tokens, i);
      if norm == [] {
        assert DecodeString(Normalize(token)) == Some([]) by { DecodeNothing(); }
        JoinTwice(out, [], DecodeTokens(tokens[i + 1..]));
        assert out + [] == out;
        continue;
      }
      if |norm| % 2 != 0 {
        norm := "0" + norm;
      }
      var decoded := DecodeString(norm);
      if decoded.None? {
        JoinEnds(out, InvalidToken(token));
        return Err(InvalidToken(token));
      }
      JoinTwice(out, decoded.value, DecodeTokens(tokens[i + 1..]));
      out := out + decoded.value;
    }
    JoinEnds(out, NoBytes);
    assert tokens[|tokens|..] == [];
    if |out| == 0 {
      return Err(NoBytes);
    }
    return Ok(out);
  }

  lemma DecodeFrom(tokens: seq<string>, i: nat)
    requires i < |tokens|
    ensures DecodeTokens(tokens[i..])
         == if DecodeString(Normalize(tokens[i])).None? then Err(InvalidToken(tokens[i]))
            else Join(DecodeString(Normalize(tokens[i])).value, DecodeTokens(tokens[i + 1..]))
  {
    hide Normalize, DecodeString, Join;
    assert tokens[i..][0] == tokens[i] && tokens[i..][1..] == tokens[i + 1..];
  }

  lemma JoinEnds(out: seq<byte>, e: HexError)
    ensures Join(out, DecodeTokens([])) == Ok(out) && Join(out, Err(e)) == Err(e)
  {
    assert out + [] == out;
  }

  lemma DecodeNothing()
    ensures DecodeString("") == Some([])
  {
  }

  lemma JoinNone(rest: Result<seq<byte>, HexError>)
    ensures Join([], rest) == rest
  {
    if rest.Ok? {
      assert [] + rest.value == rest.value;
    }
  }

  lemma JoinTwice(a: seq<byte>, b: seq<byte>, rest: Result<seq<byte>, HexError>)
    ensures Join(a, Join(b, rest)) == Join(a + b, rest)
  {
    if rest.Ok? {
      assert a + (b + rest.value) == (a + b) + rest.value;
    }
  }

  // ---- Which input is refused -----------------------------------------------------------

  lemma {:induction false} FieldsNone(s: string)
    ensures Fields(s) == [] <==> AllSpace(s)
    decreases |s|
  {
    hide IsSpace;
    if s != [] {
      assert s == [s[0]] + s[1..];
      FieldsStep(s);
      if IsSpace(s[0]) {
        FieldsNone(s[1..]);
      } else {
        assert s[0] in s;
      }
    }
  }

  lemma BlankedSpace(s: string)
    ensures AllSpace(MapChars(Blank, s)) <==> forall c | c in s :: IsSpace(c) || IsSeparator(c)
  {
    BlankIsSpace();
    hide IsSpace, IsSeparator;
    var blanked := MapChars(Blank, s);
    if AllSpace(blanked) {
      forall c | c in s
        ensures IsSpace(c) || IsSeparator(c)
      {
        var k :| 0 <= k < |s| && s[k] == c;
        assert blanked[k] in blanked;
      }
    }
  }

  /** A list of tokens is refused for its first bad one. */
  lemma {:induction false} FirstBadToken(tokens: seq<string>)
    ensures match DecodeTokens(tokens)
            case Ok(_) => forall k | 0 <= k < |tokens| :: DecodeString(Normalize(tokens[k])).Some?
            case Err(e) =>
              exists k | 0 <= k < |tokens| ::
                && e == InvalidToken(tokens[k]) && DecodeString(Normalize(tokens[k])).None?
                && forall j | 0 <= j < k :: DecodeString(Normalize(tokens[j])).Some?
    decreases tokens
  {
    hide DecodeString, Normalize;
    if tokens != [] && DecodeString(Normalize(tokens[0])).Some? {
      FirstBadToken(tokens[1..]);
      if DecodeTokens(tokens).Err? {
        var k :| 0 <= k < |tokens[1..]| && DecodeTokens(tokens[1..]).error == InvalidToken(tokens[1..][k])
                 && DecodeString(Normalize(tokens[1..][k])).None?
                 && forall j | 0 <= j < k :: DecodeString(Normalize(tokens[1..][j])).Some?;
        assert tokens[k + 1] == tokens[1..][k];
        forall j | 0 <= j < k + 1
          ensures DecodeString(Normalize(tokens[j])).Some?
        {
          assert j > 0 ==> tokens[j] == tokens[1..][j - 1];
        }
      } else {
        assert forall j | 0 < j < |tokens| :: tokens[j] == tokens[1..][j - 1];
      }
    }
  }

  /** Space alone is no input, space and separators have no tokens, the first bad token is named, and
      what is accepted has at least one byte. */
  lemma ParseRefused(text: string)
    ensures ParseHex(text) == Err(EmptyInput) <==> AllSpace(text)
    ensures ParseHex(text) == Err(NoTokens) <==> !AllSpace(text) && forall c | c in text :: IsSpace(c) || IsSeparator(c)
    ensures forall token | ParseHex(text) == Err(InvalidToken(token)) ::
              token in Tokens(text) && DecodeString(Normalize(token)).None?
    ensures ParseHex(text) == Err(NoBytes) <==> Tokens(text) != [] && DecodeTokens(Tokens(text)) == Ok([])
    ensures ParseHex(text).Ok? ==> ParseHex(text).value != [] && DecodeTokens(Tokens(text)) == ParseHex(text)
  {
    FieldsTrim(text);
    FieldsNone(text);
    var i, j := TrimExact(text);
    FieldsNone(TrimSpace(text));
    FieldsNone(MapChars(Blank, text));
    BlankedTrim(text);
    BlankedSpace(text);
    FirstBadToken(Tokens(text));
    hide IsSpace, IsSeparator, Fields, TrimSpace, Tokens, DecodeString, Normalize, DecodeTokens, MapChars;
    assert TrimSpace(text) == [] <==> AllSpace(text);
  }

  // ---- Printing -------------------------------------------------------------------------

  function Spaced(parts: seq<string>): string
    decreases parts
  {
    if parts == [] then "" else if |parts| == 1 then parts[0] else parts[0] + " " + Spaced(parts[1..])
  }

  function Pairs(text: string): seq<string>
    decreases |text|
  {
    if |text| < 2 then [] else [text[..2]] + Pairs(text[2..])
  }

  function Format(data: seq<byte>, maxBytes: nat): string {
    if data == [] then ""
    else if |data| > maxBytes then Spaced(Pairs(HexUpper(data[..maxBytes]))) + " ..."
    else Spaced(Pairs(HexUpper(data)))
  }

  method FormatHex(data: seq<byte>, maxBytes: nat) returns (out: string)
    ensures out == Format(data, maxBytes)
  {
    if |data| == 0 {
      return "";
    }
    var truncated := false;
    var shown := data;
    if |shown| > maxBytes {
      shown := shown[..maxBytes];
      truncated := true;
    }
    var encoded := HexUpper(shown);
    var parts: seq<string> := [];
    var i := 0;
    while i + 1 < |encoded|
      invariant i <= |encoded|
      invariant parts + Pairs(encoded[i..]) == Pairs(encoded)
    {
      assert encoded[i..][2..] == encoded[i + 2..] && encoded[i..][..2] == encoded[i..i + 2];
      assert parts + ([encoded[i..i + 2]] + Pairs(encoded[i + 2..])) == parts + [encoded[i..i + 2]] + Pairs(encoded[i + 2..]);
      parts := parts + [encoded[i..i + 2]];
      i := i + 2;
    }
    assert parts + [] == parts;
    out := Spaced(parts);
    if truncated {
      out := out + " ...";
    }
  }

  // ---- The two undo each other -------------------------------------------------------------

  function PairOf(b: byte): string {
    MapChars(ToUpper, EncodeByte(b))
  }

  lemma PairsCons(data: seq<byte>)
    requires data != []
    ensures Pairs(HexUpper(data)) == [PairOf(data[0])] + Pairs(HexUpper(data[1..]))
  {
    hide EncodeByte, ToUpper;
    assert HexUpper(data)[..2] == PairOf(data[0]);
    assert HexUpper(data)[2..] == HexUpper(data[1..]);
  }

  lemma ShiftThree(pair: string, more: string, a: nat, b: nat)
    requires |pair| == 2 && a <= b <= |more|
    ensures (pair + " " + more)[a + 3..b + 3] == more[a..b]
  {
  }

  lemma {:induction false} SpacedLayout(parts: seq<string>, k: nat)
    requires k < |parts| && forall i | 0 <= i < |parts| :: |parts[i]| == 2
    ensures |Spaced(parts)| == 3 * |parts| - 1 && Spaced(parts)[3 * k..3 * k + 2] == parts[k]
    ensures k + 1 < |parts| ==> Spaced(parts)[3 * k + 2..3 * k + 3] == " "
    decreases parts
  {
    if |parts| > 1 {
      var (pair, more) := (parts[0], Spaced(parts[1..]));
      SpacedLayout(parts[1..], if k == 0 then 0 else k - 1);
      var text := Spaced(parts);
      assert text == pair + " " + more;
      hide Spaced;
      if k > 0 {
        var a := 3 * (k - 1);
        ShiftThree(pair, more, a, a + 2);
        if k + 1 < |parts| {
          ShiftThree(pair, more, a + 2, a + 3);
        }
      }
    }
  }

  lemma {:induction false} PairsLayout(data: seq<byte>, k: nat)
    requires k < |data|
    ensures |Pairs(HexUpper(data))| == |data| && Pairs(HexUpper(data))[k] == PairOf(data[k])
    decreases data
  {
    hide HexUpper, PairOf, Pairs;
    PairsCons(data);
    if |data| == 1 {
      assert Pairs(HexUpper([])) == [] by { NoPairs(); }
      assert data[1..] == [];
    } else {
      PairsLayout(data[1..], if k == 0 then 0 else k - 1);
    }
  }

  lemma NoPairs()
    ensures Pairs(HexUpper([])) == []
  {
  }

  /** The print of some bytes: two digits for each, and a blank between one byte and the next. */
  lemma PrintLayout(data: seq<byte>, k: nat)
    requires k < |data|
    ensures var text := Format(data, |data|);
            && |text| == 3 * |data| - 1
            && text[3 * k] == ToUpper(LowerDigit(Val(data[k]) / 16))
            && text[3 * k + 1] == ToUpper(LowerDigit(Val(data[k]) % 16))
            && (k + 1 < |data| ==> text[3 * k + 2] == ' ')
  {
    hide Spaced, Pairs, HexUpper, Val, ToUpper, LowerDigit;
    var parts := Pairs(HexUpper(data));
    PairsLayout(data, k);
    forall i | 0 <= i < |parts|
      ensures |parts[i]| == 2
    {
      PairsLayout(data, i);
    }
    SpacedLayout(parts, k);
    var text := Spaced(parts);
    assert text[3 * k] == text[3 * k..3 * k + 2][0] && text[3 * k + 1] == text[3 * k..3 * k + 2][1];
    if k + 1 < |data| {
      assert text[3 * k + 2] == text[3 * k + 2..3 * k + 3][0];
    }
  }

  /** A print that is cut shows as many bytes as the limit allows. */
  lemma CutPrint(data: seq<byte>, maxBytes: nat)
    requires 0 < maxBytes < |data|
    ensures Format(data, maxBytes) == Format(data[..maxBytes], maxBytes) + " ..."
  {
  }

  predicate Solid(s: string) {
    forall c | c in s :: !IsSpace(c) && !IsSeparator(c)
  }

  lemma PairSolid(b: byte)
    ensures |PairOf(b)| == 2 && Solid(PairOf(b))
    ensures DecodeString(Normalize(PairOf(b))) == Some([b])
  {
    hide Val, LowerDigit, ToUpper, ToLower, IsSpace, IsSeparator, DecodePair;
    var pair, code := PairOf(b), EncodeByte(b);
    DigitInverse(Val(b) / 16);
    DigitInverse(Val(b) % 16);
    DigitIsText(Val(b) / 16);
    DigitIsText(Val(b) % 16);
    TrimSolid(pair);
    assert MapChars(ToLower, pair) == code;
    assert code[1] != 'x' && "0x"[1] == 'x';
    assert Normalize(pair) == code;
    DecodeEncodedByte(b);
    DecodeOne(code, b);
  }

  lemma DecodeOne(code: string, b: byte)
    requires |code| == 2 && DecodePair(code[0], code[1]) == Some(b)
    ensures DecodeString(code) == Some([b])
  {
    hide DecodePair;
    assert code[2..] == [] && DecodeString(code[2..]) == Some([]);
    assert [b] + [] == [b];
  }

  lemma TrimSolid(s: string)
    requires Solid(s)
    ensures TrimSpace(s) == s
  {
    hide IsSpace, IsSeparator;
  }

  lemma {:induction false} WordSolid(s: string)
    requires Solid(s)
    ensures WordLength(s) == |s|
    decreases |s|
  {
    hide IsSpace, IsSeparator;
    if s != [] {
      assert s[0] in s;
      assert forall c | c in s[1..] :: c in s;
      WordSolid(s[1..]);
    }
  }

  /** The words of the printed text are the digit pairs, whatever follows a blank. */
  lemma {:induction false} FieldsSpaced(data: seq<byte>)
    ensures Fields(Spaced(Pairs(HexUpper(data)))) == Pairs(HexUpper(data))
    decreases data
  {
    hide HexUpper, PairOf, Solid;
    if data == [] {
      assert HexUpper([]) == [] by { HexUpperEmpty(); }
    } else {
      var pair := PairOf(data[0]);
      PairsCons(data);
      PairSolid(data[0]);
      WordSolid(pair);
      FieldsSpaced(data[1..]);
      var rest := Pairs(HexUpper(data[1..]));
      assert pair[|pair|..] == [] && pair[..|pair|] == pair;
      assert Fields(pair) == [pair] by { FirstSolid(pair); }
      if rest != [] {
        FieldsSplit(pair, ' ', Spaced(rest));
        assert ([pair] + rest)[1..] == rest;
      }
    }
  }

  lemma FirstSolid(s: string)
    requires Solid(s) && s != []
    ensures Fields(s) == [s]
  {
    WordSolid(s);
    assert s[0] in s;
    assert s[..|s|] == s && s[|s|..] == [];
  }

  lemma HexUpperEmpty()
    ensures HexUpper([]) == []
  {
  }

  lemma {:induction false} SpacedUnblanked(data: seq<byte>)
    ensures forall c | c in Spaced(Pairs(HexUpper(data))) :: !IsSeparator(c)
    decreases data
  {
    hide HexUpper, PairOf, IsSeparator;
    if data == [] {
      HexUpperEmpty();
    } else {
      PairsCons(data);
      PairSolid(data[0]);
      SpacedUnblanked(data[1..]);
      assert !IsSeparator(' ') by { BlankIsNoSeparator(); }
      var rest := Pairs(HexUpper(data[1..]));
      assert ([PairOf(data[0])] + rest)[1..] == rest;
    }
  }

  lemma BlankIsNoSeparator()
    ensures !IsSeparator(' ') && !IsSeparator('.')
  {
  }

  lemma {:induction false} DecodePairs(data: seq<byte>, rest: seq<string>)
    ensures DecodeTokens(Pairs(HexUpper(data)) + rest) == Join(data, DecodeTokens(rest))
    decreases data
  {
    hide HexUpper, PairOf, Normalize, DecodeString;
    if data == [] {
      HexUpperEmpty();
      assert Pairs(HexUpper(data)) + rest == rest;
      JoinNone(DecodeTokens(rest));
    } else {
      var more := Pairs(HexUpper(data[1..]));
      PairsCons(data);
      PairSolid(data[0]);
      assert ([PairOf(data[0])] + more + rest)[1..] == more + rest;
      DecodePairs(data[1..], rest);
      JoinTwice([data[0]], data[1..], DecodeTokens(rest));
      assert [data[0]] + data[1..] == data;
    }
  }

  lemma UnblankedTokens(text: string)
    requires forall c | c in text :: !IsSeparator(c)
    ensures Tokens(text) == Fields(text)
  {
    hide IsSpace, IsSeparator;
    TrimInside(text);
    assert MapChars(Blank, TrimSpace(text)) == TrimSpace(text);
    FieldsTrim(text);
  }

  lemma {:induction false} TrimInside(s: string)
    ensures forall c | c in TrimSpace(s) :: c in s
  {
    TrimLeftInside(s);
    TrimRightInside(TrimLeft(s));
  }

  lemma {:induction false} TrimLeftInside(s: string)
    ensures forall c | c in TrimLeft(s) :: c in s
    decreases |s|
  {
    hide IsSpace;
    if s != [] && IsSpace(s[0]) {
      TrimLeftInside(s[1..]);
    }
  }

  lemma {:induction false} TrimRightInside(s: string)
    ensures forall c | c in TrimRight(s) :: c in s
    decreases |s|
  {
    hide IsSpace;
    if s != [] && IsSpace(s[|s| - 1]) {
      TrimRightInside(s[..|s| - 1]);
    }
  }

  lemma DotsRejected()
    ensures Fields("...") == ["..."]
    ensures DecodeString(Normalize("...")) == None
  {
    assert Solid("...");
    FirstSolid("...");
    TrimSolid("...");
    assert MapChars(ToLower, "...") == "...";
    assert Normalize("...") == "0...";
    assert DecodePair('0', '.') == None;
  }

  /** Parsing a printed byte string gives it back exactly when it was printed in full and is
      not empty; an empty one reads as no input and a shortened one as a bad token. */
  lemma ParseFormatted(data: seq<byte>, maxBytes: nat)
    ensures 0 < |data| <= maxBytes ==> ParseHex(Format(data, maxBytes)) == Ok(data)
    ensures |data| == 0 ==> ParseHex(Format(data, maxBytes)) == Err(EmptyInput)
    ensures |data| > maxBytes ==> ParseHex(Format(data, maxBytes)) == Err(InvalidToken("..."))
  {
    hide HexUpper, Normalize, IsSpace, IsSeparator, DecodeString, Tokens;
    var shown := if |data| > maxBytes then data[..maxBytes] else data;
    var pairs := Pairs(HexUpper(shown));
    var text := Format(data, maxBytes);
    FieldsSpaced(shown);
    SpacedUnblanked(shown);
    BlankIsNoSeparator();
    if |data| > maxBytes {
      assert text == Spaced(pairs) + [' '] + "...";
      assert forall c | c in text :: !IsSeparator(c);
      UnblankedTokens(text);
      DotsRejected();
      assert IsSpace(' ') by { BlankIsSpace(); }
      FieldsSplit(Spaced(pairs), ' ', "...");
      DecodePairs(shown, ["..."]);
      TrimmedHasFields(text);
    } else if data != [] {
      UnblankedTokens(text);
      PairsCons(data);
      DecodePairs(data, []);
      assert pairs + [] == pairs && data + [] == data;
      TrimmedHasFields(text);
    }
  }

  lemma BlankIsSpace()
    ensures IsSpace(' ')
  {
  }

  lemma TrimmedHasFields(text: string)
    requires Fields(text) != []
    ensures TrimSpace(text) != []
  {
    FieldsTrim(text);
  }
}
