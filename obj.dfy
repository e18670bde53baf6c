/**
 * The tokenizer of io/obj.cpp: a cursor over the characters of a Wavefront
 * OBJ file with one character of lookahead, and the tokens it reads from
 * them: integers, decimal numbers, '/', and keywords.
 *
 * The file is the sequence of characters the cursor has not read yet;
 * `fgetc` returning EOF is the end of that sequence.
 */
module ObjTokens {
  import Numerics

  /** `ObjFile::TokenType` with the payload of the token's union. */
  datatype Token =
    | Integer(d: int)
    | Float(f: real)
    | Ident
    | Vertex
    | VertexTexture
    | VertexNormal
    | Face
    | Slash

  /** What the source leaves undefined: falling off the end of `parse_token`, and writing past `ident[80]`. */
  datatype ParseError = EndOfInput | IdentOverflow

  datatype ParseResult = Parsed(token: Token) | Failed(error: ParseError)

  /** The character `curr_char` holds: a character of the file, or EOF. */
  datatype Peek = Char(c: char) | Eof

  /** The size of the identifier buffer of `parse_token`. */
  const IDENT_BUFFER: nat := 80

  predicate IsSpace(c: char) { c == ' ' || c == '\n' || c == '\r' || c == '\t' }

  predicate IsDigit(c: char) { '0' <= c <= '9' }

  predicate IsLower(c: char) { 'a' <= c <= 'z' }

  /** The character classes the tokenizer skips or collects in runs. */
  datatype CharClass = Space | Digit | Lower

  predicate InClass(c: char, cls: CharClass)
  {
    match cls
    case Space => IsSpace(c)
    case Digit => IsDigit(c)
    case Lower => IsLower(c)
  }

  /** The length of the longest prefix of text in the class. */
  function Run(text: seq<char>, cls: CharClass): (n: nat)
    ensures n <= |text|
    ensures forall k | 0 <= k < n :: InClass(text[k], cls)
    ensures n == |text| || !InClass(text[n], cls)
  {
    if |text| == 0 || !InClass(text[0], cls) then 0 else 1 + Run(text[1..], cls)
  }

  /** A prefix in the class that stops before a character outside it is the run. */
  lemma {:induction false} RunIs(text: seq<char>, cls: CharClass, n: nat)
    requires n <= |text|
    requires forall k | 0 <= k < n :: InClass(text[k], cls)
    requires n == |text| || !InClass(text[n], cls)
    ensures Run(text, cls) == n
  {
    if n > 0 {
      RunIs(text[1..], cls, n - 1);
    }
  }

  /** The characters still to read after m of the text are the head c and the rest r. */
  lemma TextHead(text: seq<char>, m: nat, c: char, r: seq<char>)
    requires m <= |text| && [c] + r == text[m..]
    ensures m < |text| && text[m] == c && r == text[m + 1..]
    ensures text[..m + 1] == text[..m] + [c]
  {
    assert text[m..][0] == c;
    assert text[m..][1..] == r;
  }

  /** A prefix in the class is no longer than the run. */
  lemma RunAtLeast(text: seq<char>, cls: CharClass, p: nat)
    requires p <= |text|
    requires forall k | 0 <= k < p :: InClass(text[k], cls)
    ensures p <= Run(text, cls)
  {
  }

  /** `peek_char() - '0'`. */
  function DigitValue(c: char): int { c as int - '0' as int }

  /** The value the integer loop of `parse_numeric` builds: ten times the value so far plus the next digit. */
  function DecimalValue(digits: seq<char>): int
  {
    if |digits| == 0 then 0 else 10 * DecimalValue(digits[..|digits| - 1]) + DigitValue(digits[|digits| - 1])
  }

  /** `std::pow(10.0, k)`. */
  function PowTen(k: nat): (p: real)
    ensures 1.0 <= p
  {
    if k == 0 then 1.0 else 10.0 * PowTen(k - 1)
  }

  /** The value the fraction loop adds: digit k (from 1) divided by `pow(10.0, k)`. */
  function FractionValue(digits: seq<char>): real
  {
    if |digits| == 0 then 0.0
    else FractionValue(digits[..|digits| - 1]) + DigitValue(digits[|digits| - 1]) as real / PowTen(|digits|)
  }

  /**
   * `parse_numeric` on the text: the token and how many characters it
   * reads. A run of digits is an INTEGER unless a '.' follows, in which
   * case the '.' and the digits after it make it a FLOAT.
   */
  function NumericToken(text: seq<char>): (Token, nat)
  {
    var n := Run(text, Digit);
    var whole := DecimalValue(text[..n]);
    if n < |text| && text[n] == '.' then FractionToken(whole, text[n + 1..], n + 1)
    else (Integer(whole), n)
  }

  /** The FLOAT whose whole part is read, from the text after the '.', which starts at offset `start`. */
  function FractionToken(whole: int, after: seq<char>, start: nat): (Token, nat)
  {
    var m := Run(after, Digit);
    (Float(whole as real + FractionValue(after[..m])), start + m)
  }

  /** `parse_keyword` as written: `strcmp` returns 0 on equality, but three of the tests treat non-zero as a match. */
  function KeywordAsWritten(keyword: seq<char>): Token
  {
    if keyword == "vt" then VertexTexture
    else if keyword != "vn" then VertexNormal
    else if keyword != "v" then Vertex
    else if keyword != "f" then Face
    else Ident
  }

  /** `parse_keyword` with each test for equality: v, vt, vn and f are keywords, anything else an identifier. */
  function Keyword(keyword: seq<char>): Token
  {
    if keyword == "vt" then VertexTexture
    else if keyword == "vn" then VertexNormal
    else if keyword == "v" then Vertex
    else if keyword == "f" then Face
    else Ident
  }

  /** The text of each keyword token. */
  function KeywordText(t: Token): seq<char>
    requires t.Vertex? || t.VertexTexture? || t.VertexNormal? || t.Face?
  {
    match t
    case Vertex => "v"
    case VertexTexture => "vt"
    case VertexNormal => "vn"
    case Face => "f"
  }

  /** As written, "v" reads as a vertex normal, "vn" as a vertex and "f" as a vertex normal. */
  lemma KeywordAsWrittenMisreads()
    ensures KeywordAsWritten("v") == VertexNormal
    ensures KeywordAsWritten("vn") == Vertex
    ensures KeywordAsWritten("f") == VertexNormal
    ensures KeywordAsWritten("") == VertexNormal
  {
  }

  /** As written, no keyword is ever read as a face or as an identifier. */
  lemma KeywordAsWrittenNeverFace(keyword: seq<char>)
    ensures KeywordAsWritten(keyword) != Face && KeywordAsWritten(keyword) != Ident
  {
  }

  /** Each keyword's text reads back as that keyword. */
  lemma KeywordRoundTrip(t: Token)
    requires t.Vertex? || t.VertexTexture? || t.VertexNormal? || t.Face?
    ensures Keyword(KeywordText(t)) == t
  {
  }

  /** Any other text is an identifier. */
  lemma KeywordIdent(keyword: seq<char>)
    ensures Keyword(keyword) == Ident <==> keyword !in {"v", "vt", "vn", "f"}
  {
  }

  /** The decimal digits of n, without leading zeros. */
  function Decimal(n: nat): (digits: seq<char>)
    ensures 0 < |digits|
    ensures forall k | 0 <= k < |digits| :: IsDigit(digits[k])
  {
    var last := ('0' as int + n % 10) as char;
    if n < 10 then [last] else Decimal(n / 10) + [last]
  }

  /** Reading the decimal digits of n gives n back. */
  lemma {:induction false} DecimalValueOfDecimal(n: nat)
    ensures DecimalValue(Decimal(n)) == n
  {
    if n >= 10 {
      DecimalValueOfDecimal(n / 10);
      var d := Decimal(n);
      assert d[..|d| - 1] == Decimal(n / 10);
    }
  }

  /**
   * `parse_numeric` reads the decimal digits of n, followed by anything
   * but a digit or '.', as the INTEGER n.
   */
  lemma IntegerRoundTrip(n: nat, rest: seq<char>)
    requires |rest| == 0 || (!IsDigit(rest[0]) && rest[0] != '.')
    ensures NumericToken(Decimal(n) + rest) == (Integer(n), |Decimal(n)|)
  {
    var text := Decimal(n) + rest;
    RunIs(text, Digit, |Decimal(n)|);
    assert text[..|Decimal(n)|] == Decimal(n);
    DecimalValueOfDecimal(n);
  }

  lemma FractionStep(prev: real, q: real, d: real)
    requires 1.0 <= q && 0.0 <= d <= 9.0
    requires 0.0 <= prev <= 1.0 - 1.0 / q
    ensures 0.0 <= prev + d / (10.0 * q) <= 1.0 - 1.0 / (10.0 * q)
  {
    assert 1.0 / q == 10.0 / (10.0 * q);
    assert 0.0 <= d / (10.0 * q) <= 9.0 / (10.0 * q);
  }

  /** One more digit: ten times the value so far plus that digit. */
  lemma DecimalValueStep(text: seq<char>, n: nat)
    requires n < |text|
    ensures DecimalValue(text[..n + 1]) == 10 * DecimalValue(text[..n]) + DigitValue(text[n])
  {
    assert text[..n + 1][..n] == text[..n];
  }

  /** One more fraction digit: digit m + 1 after the '.' is worth its value over 10^(m + 1). */
  lemma FractionValueStep(text: seq<char>, m: nat)
    requires m < |text|
    ensures FractionValue(text[..m + 1]) == FractionValue(text[..m]) + DigitValue(text[m]) as real / PowTen(m + 1)
  {
    assert text[..m + 1][..m] == text[..m];
  }

  /** Fraction digits never reach 1: after k digits the value is at most 1 - 10^-k. */
  lemma {:induction false} FractionBelowOne(digits: seq<char>)
    requires forall k | 0 <= k < |digits| :: IsDigit(digits[k])
    ensures 0.0 <= FractionValue(digits) <= 1.0 - 1.0 / PowTen(|digits|)
  {
    if |digits| > 0 {
      var n := |digits|;
      FractionBelowOne(digits[..n - 1]);
      FractionStep(FractionValue(digits[..n - 1]), PowTen(n - 1), DigitValue(digits[n - 1]) as real);
    }
  }

  /** A FLOAT lies in [whole part, whole part + 1): the fraction never carries into the whole part. */
  lemma FloatBounds(text: seq<char>)
    requires NumericToken(text).0.Float?
    ensures var n := Run(text, Digit);
            DecimalValue(text[..n]) as real <= NumericToken(text).0.f < DecimalValue(text[..n]) as real + 1.0
  {
    var n := Run(text, Digit);
    assert n < |text| && text[n] == '.';
    var whole := DecimalValue(text[..n]);
    var after := text[n + 1..];
    var m := Run(after, Digit);
    var frac := after[..m];
    assert forall k | 0 <= k < |frac| :: IsDigit(frac[k]) by {
      forall k | 0 <= k < |frac| ensures IsDigit(frac[k]) {
        assert frac[k] == after[k] && InClass(after[k], Digit);
      }
    }
    NumericFractionToken(text, n, whole, after);
    FractionTokenIs(whole, after, n + 1, m, whole as real + FractionValue(frac));
    FractionBelowOne(frac);
    ReciprocalPositive(PowTen(m));
  }

  lemma ReciprocalPositive(p: real)
    requires 1.0 <= p
    ensures 0.0 < 1.0 / p
  {
  }

  /** The first m characters of a suffix, and what follows them. */
  lemma SliceOfSuffix(text: seq<char>, a: nat, m: nat)
    requires a + m <= |text|
    ensures text[a..][..m] == text[a..a + m] && text[a..][m..] == text[a + m..]
  {
  }

  /** The INTEGER case of NumericToken, spelled out. */
  lemma NumericInteger(text: seq<char>, n: nat, whole: int)
    requires n == Run(text, Digit) && !(n < |text| && text[n] == '.')
    requires whole == DecimalValue(text[..n])
    ensures NumericToken(text) == (Integer(whole), n)
  {
  }

  /** The FLOAT case of NumericToken: the fraction is read from the text after the '.'. */
  lemma NumericFractionToken(text: seq<char>, n: nat, whole: int, after: seq<char>)
    requires n == Run(text, Digit) && n < |text| && text[n] == '.' && whole == DecimalValue(text[..n])
    requires after == text[n + 1..]
    ensures NumericToken(text) == FractionToken(whole, after, n + 1)
  {
  }

  /** The FLOAT made from the m fraction digits at the head of the text after the '.'. */
  lemma FractionTokenIs(whole: int, after: seq<char>, start: nat, m: nat, value: real)
    requires m == Run(after, Digit) && value == whole as real + FractionValue(after[..m])
    ensures FractionToken(whole, after, start) == (Float(value), start + m)
  {
  }

  /**
   * `parse_token` on the text: the result and how many characters it
   * reads. Space, '\n', '\r' and '\t' are skipped; then the end of the
   * file, '/', a number or a run of lowercase letters follows. A run of
   * 80 or more letters overruns the 80-byte buffer once 80 have been read.
   */
  function ScanToken(text: seq<char>): (ParseResult, nat)
  {
    var w := Run(text, Space);
    if w == |text| then (Failed(EndOfInput), w)
    else (TokenAt(text[w..]).0, w + TokenAt(text[w..]).1)
  }

  /** The token that starts at the first character of the text, which is not a blank. */
  function TokenAt(text: seq<char>): (ParseResult, nat)
    requires 0 < |text|
  {
    if text[0] == '/' then (Parsed(Slash), 1)
    else if IsDigit(text[0]) then (Parsed(NumericToken(text).0), NumericToken(text).1)
    else
      var l := Run(text, Lower);
      if l >= IDENT_BUFFER then (Failed(IdentOverflow), IDENT_BUFFER)
      else (Parsed(Keyword(text[..l])), l)
  }

  /** `parse_token` reads no more than the text holds. */
  lemma ScanTokenWithin(text: seq<char>)
    ensures ScanToken(text).1 <= |text|
  {
    var w := Run(text, Space);
    if w < |text| && IsDigit(text[w]) {
      NumericWithin(text[w..]);
    }
  }

  lemma NumericWithin(text: seq<char>)
    ensures NumericToken(text).1 <= |text|
  {
  }

  /** After w blanks and at a character that is not one, the token is the one that starts there. */
  lemma ScanTokenFrom(text: seq<char>, w: nat)
    requires w < |text| && !IsSpace(text[w])
    requires forall k | 0 <= k < w :: IsSpace(text[k])
    ensures ScanToken(text) == (TokenAt(text[w..]).0, w + TokenAt(text[w..]).1)
    ensures w + TokenAt(text[w..]).1 <= |text| && text[w..][TokenAt(text[w..]).1..] == text[w + TokenAt(text[w..]).1..]
  {
    RunIs(text, Space, w);
    ScanTokenWithin(text);
  }

  /** Blanks up to the end of the file: the end of input, with every blank consumed. */
  lemma ScanTokenAtEnd(text: seq<char>, w: nat)
    requires w == |text|
    requires forall k | 0 <= k < w :: IsSpace(text[k])
    ensures ScanToken(text) == (Failed(EndOfInput), |text|)
  {
    RunIs(text, Space, w);
  }

  /** Only the end of the file fails without reading an identifier. */
  lemma ScanTokenEnd(text: seq<char>)
    ensures ScanToken(text).0 == Failed(EndOfInput) <==> forall k | 0 <= k < |text| :: IsSpace(text[k])
  {
    var w := Run(text, Space);
    if forall k | 0 <= k < |text| :: IsSpace(text[k]) {
      RunIs(text, Space, |text|);
    }
  }

  /**
   * A character that is not a space, '/', a digit or a lowercase letter is
   * read as an empty identifier and stays unread, so the next call reads
   * it again.
   */
  lemma ScanTokenStuck(text: seq<char>)
    requires 0 < |text| && !IsSpace(text[0]) && text[0] != '/' && !IsDigit(text[0]) && !IsLower(text[0])
    ensures ScanToken(text) == (Parsed(Ident), 0)
  {
    assert text[0..] == text;
    assert text[..0] == "";
  }

  /** '/' is a token of one character. */
  lemma ScanTokenSlash(text: seq<char>)
    requires 0 < |text| && text[0] == '/'
    ensures ScanToken(text) == (Parsed(Slash), 1)
  {
    assert text[0..] == text;
  }

  /** Blanks in front of a token only add to the characters read. */
  lemma ScanTokenSkipsBlanks(blanks: seq<char>, text: seq<char>)
    requires forall k | 0 <= k < |blanks| :: IsSpace(blanks[k])
    requires 0 < |text| && !IsSpace(text[0])
    ensures ScanToken(blanks + text) == (ScanToken(text).0, |blanks| + ScanToken(text).1)
  {
    RunIs(blanks + text, Space, |blanks|);
    assert (blanks + text)[|blanks|..] == text;
    assert text[0..] == text;
  }

  /**
   * `ObjFile`: `curr_char` and the unread rest of the file, and the
   * current token. The constructor reads no character, so `curr_char`
   * and `token` start with whatever the object's memory held; here they
   * are parameters.
   */
  class ObjFile {
    var curr: Peek
    var rest: seq<char>
    var token: Token

    /** Once `fgetc` has returned EOF, nothing is left to read. */
    ghost predicate Valid()
      reads this
    {
      curr.Eof? ==> rest == []
    }

    /** The characters `peek_char` will show from here on. */
    ghost function Text(): seq<char>
      reads this
    {
      if curr.Eof? then [] else [curr.c] + rest
    }

    constructor (file: seq<char>, garbage: char, garbageToken: Token)
      ensures Valid() && curr == Char(garbage) && rest == file && token == garbageToken
      ensures Text() == [garbage] + file
    {
      curr := Char(garbage);
      rest := file;
      token := garbageToken;
    }

    /** `advance_char()`: returns the current character and reads the next one. */
    method AdvanceChar() returns (prev: Peek)
      requires Valid()
      modifies this`curr, this`rest
      ensures Valid() && prev == old(curr)
      ensures old(rest) == [] ==> curr == Eof && rest == []
      ensures old(rest) != [] ==> curr == Char(old(rest)[0]) && rest == old(rest)[1..]
      ensures Text() == if old(Text()) == [] then [] else old(Text())[1..]
      ensures old(curr).Char? ==> Text() == old(rest)
    {
      prev := curr;
      if rest == [] {
        curr := Eof;
      } else {
        curr := Char(rest[0]);
        rest := rest[1..];
      }
    }

    /** `peek_char()`: the current character, read again as often as asked. */
    method PeekChar() returns (c: Peek)
      requires Valid()
      ensures c == curr
      ensures c == Eof <==> Text() == []
      ensures c != Eof ==> Text() != [] && c.c == Text()[0]
    {
      c := curr;
    }

    /** `match_char(c)`: advances iff the current character is c, and says whether it did. */
    method MatchChar(c: char) returns (matched: bool)
      requires Valid()
      modifies this`curr, this`rest
      ensures Valid()
      ensures matched <==> old(Text()) != [] && old(Text())[0] == c
      ensures Text() == if matched then old(Text())[1..] else old(Text())
      ensures !matched ==> curr == old(curr) && rest == old(rest)
    {
      if curr == Char(c) {
        var _ := AdvanceChar();
        return true;
      }
      return false;
    }

    /** The body of both digit loops of `parse_numeric`: `peek_char() - '0'`, then `advance_char()`. */
    method NextDigit(ghost text: seq<char>, ghost n: nat) returns (d: int)
      requires Valid() && curr.Char? && IsDigit(curr.c) && n <= |text| && Text() == text[n..]
      modifies this`curr, this`rest
      ensures Valid() && n < |text| && IsDigit(text[n]) && d == DigitValue(text[n]) && Text() == text[n + 1..]
    {
      TextHead(text, n, curr.c, rest);
      d := DigitValue(curr.c);
      var _ := AdvanceChar();
    }

    /** The integer loop of `parse_numeric`: reads the run of digits and returns its value. */
    method ReadDigits() returns (value: int, ghost n: nat)
      requires Valid()
      modifies this`curr, this`rest
      ensures Valid()
      ensures n == Run(old(Text()), Digit) && Text() == old(Text())[n..]
      ensures value == DecimalValue(old(Text())[..n])
    {
      ghost var text := Text();
      var real_value := 0.0;
      n := 0;
      while curr.Char? && IsDigit(curr.c)
        invariant Valid() && n <= |text| && Text() == text[n..]
        invariant forall k | 0 <= k < n :: IsDigit(text[k])
        invariant real_value == DecimalValue(text[..n]) as real
        decreases |rest| + (if curr.Char? then 1 else 0)
      {
        var d := NextDigit(text, n);
        DecimalValueStep(text, n);
        real_value := 10.0 * real_value + d as real;
        n := n + 1;
      }
      RunIs(text, Digit, n);
      value := Numerics.Trunc(real_value);
    }

    /** The fraction loop of `parse_numeric`: adds digit k divided by 10^k to value. */
    method ReadFraction(whole: real) returns (value: real, ghost m: nat)
      requires Valid()
      modifies this`curr, this`rest
      ensures Valid()
      ensures m == Run(old(Text()), Digit) && Text() == old(Text())[m..]
      ensures value == whole + FractionValue(old(Text())[..m])
    {
      ghost var text := Text();
      value := whole;
      var place := 1;
      m := 0;
      while curr.Char? && IsDigit(curr.c)
        invariant Valid() && m <= |text| && Text() == text[m..]
        invariant forall k | 0 <= k < m :: IsDigit(text[k])
        invariant place == m + 1
        invariant value == whole + FractionValue(text[..m])
        decreases |rest| + (if curr.Char? then 1 else 0)
      {
        var d := NextDigit(text, m);
        FractionValueStep(text, m);
        value := value + d as real / PowTen(place);
        place := place + 1;
        m := m + 1;
      }
      RunIs(text, Digit, m);
    }

    /** `parse_numeric()`: an INTEGER, or a FLOAT when a '.' follows the digits. */
    method ParseNumeric() returns (t: Token)
      requires Valid()
      modifies this`curr, this`rest
      ensures Valid()
      ensures t == NumericToken(old(Text())).0
      ensures NumericToken(old(Text())).1 <= |old(Text())| && Text() == old(Text())[NumericToken(old(Text())).1..]
    {
      ghost var text := Text();
      var whole, n := ReadDigits();
      var dot := MatchChar('.');
      if !dot {
        NumericInteger(text, n, whole);
        return Integer(whole);
      }
      t := ReadFloat(whole, text, n);
    }

    /** The part of `parse_numeric` after the '.': the fraction digits, and the FLOAT they make. */
    method ReadFloat(whole: int, ghost text: seq<char>, ghost n: nat) returns (t: Token)
      requires Valid() && n == Run(text, Digit) && n < |text| && text[n] == '.'
      requires whole == DecimalValue(text[..n]) && Text() == text[n + 1..]
      modifies this`curr, this`rest
      ensures Valid()
      ensures t == NumericToken(text).0
      ensures NumericToken(text).1 <= |text| && Text() == text[NumericToken(text).1..]
    {
      ghost var after := Text();
      var value, m := ReadFraction(whole as real);
      NumericFractionToken(text, n, whole, after);
      FractionTokenIs(whole, after, n + 1, m, value);
      SliceOfSuffix(text, n + 1, m);
      t := Float(value);
    }

    /**
     * The identifier loop of `parse_token`: copies lowercase letters into
     * the 80-byte buffer, failing where the next write would land past it.
     */
    method ReadIdent() returns (r: ParseResult)
      requires Valid()
      modifies this`curr, this`rest
      ensures Valid()
      ensures var l := Run(old(Text()), Lower);
              && (l >= IDENT_BUFFER ==> r == Failed(IdentOverflow) && Text() == old(Text())[IDENT_BUFFER..])
              && (l < IDENT_BUFFER ==> r == Parsed(Keyword(old(Text())[..l])) && Text() == old(Text())[l..])
    {
      ghost var text := Text();
      var ident := new char[IDENT_BUFFER];
      var p := 0;
      while curr.Char? && IsLower(curr.c)
        invariant Valid() && p <= |text| && p <= IDENT_BUFFER && Text() == text[p..]
        invariant forall k | 0 <= k < p :: IsLower(text[k])
        invariant ident[..p] == text[..p]
        decreases |rest| + (if curr.Char? then 1 else 0)
      {
        if p == IDENT_BUFFER {
          RunAtLeast(text, Lower, p);
          return Failed(IdentOverflow);
        }
        TextHead(text, p, curr.c, rest);
        ident[p] := curr.c;
        assert ident[..p + 1] == ident[..p] + [curr.c];
        p := p + 1;
        var _ := AdvanceChar();
      }
      RunIs(text, Lower, p);
      if p == IDENT_BUFFER {
        return Failed(IdentOverflow);
      }
      ident[p] := '\0';
      assert ident[..p] == text[..p];
      r := Parsed(Keyword(ident[..p]));
    }

    /** The arms of the `switch` of `parse_token` that read a token: '/', a number, or a keyword. */
    method ReadToken() returns (r: ParseResult)
      requires Valid() && curr.Char? && !IsSpace(curr.c)
      modifies this`curr, this`rest
      ensures Valid()
      ensures r == TokenAt(old(Text())).0
      ensures TokenAt(old(Text())).1 <= |old(Text())| && Text() == old(Text())[TokenAt(old(Text())).1..]
    {
      if curr.c == '/' {
        var _ := AdvanceChar();
        return Parsed(Slash);
      }
      if IsDigit(curr.c) {
        var t := ParseNumeric();
        return Parsed(t);
      }
      r := ReadIdent();
    }

    /**
     * `parse_token()`: skips blanks, then reads '/', a number or a
     * keyword. At the end of the file the source returns no token; the
     * model reports it.
     */
    method ParseToken() returns (r: ParseResult)
      requires Valid()
      modifies this`curr, this`rest
      ensures Valid()
      ensures var (result, n) := ScanToken(old(Text()));
              r == result && n <= |old(Text())| && Text() == old(Text())[n..]
    {
      ghost var text := Text();
      ghost var w := 0;
      while curr.Char?
        invariant Valid() && w <= |text| && Text() == text[w..]
        invariant forall k | 0 <= k < w :: IsSpace(text[k])
        decreases |rest| + (if curr.Char? then 1 else 0)
      {
        var c := curr.c;
        if IsSpace(c) {
          var _ := AdvanceChar();
          w := w + 1;
          continue;
        }
        ScanTokenFrom(text, w);
        r := ReadToken();
        return;
      }
      ScanTokenAtEnd(text, w);
      return Failed(EndOfInput);
    }

    /**
     * `advance_token()`: returns the current token and parses the next
     * one into its place; when no token follows, the current one stays.
     */
    method AdvanceToken() returns (prev: Token, next: ParseResult)
      requires Valid()
      modifies this
      ensures Valid() && prev == old(token)
      ensures var (result, n) := ScanToken(old(Text()));
              next == result && n <= |old(Text())| && Text() == old(Text())[n..]
      ensures token == if next.Parsed? then next.token else old(token)
    {
      prev := token;
      next := ParseToken();
      if next.Parsed? {
        token := next.token;
      }
    }
  }
}
