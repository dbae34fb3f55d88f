/**
 The text layer of scripts/browser-check-documents.py: one page per string, and a
 reader that goes from the page tree to each page's content stream and back to its
 text. Literal strings are read by section 7.3.4.2 of ISO 32000-1.
 */
module PdfText {
  import opened Prelude
  import opened PdfSyntax

  // ----- UTF-8 --------------------------------------------------------------------

  function EncodeChar(c: char): (b: Bytes)
    ensures |b| > 0
    ensures if c as int < 128 then b == [c as int as byte] else forall i :: 0 <= i < |b| ==> b[i] >= 128
  {
    var n := c as int;
    if n < 0x80 then [n as byte]
    else if n < 0x800 then [(0xC0 + n / 64) as byte, (0x80 + n % 64) as byte]
    else if n < 0x1_0000 then [(0xE0 + n / 4096) as byte, (0x80 + n / 64 % 64) as byte, (0x80 + n % 64) as byte]
    else
      [ (0xF0 + n / 262144) as byte, (0x80 + n / 4096 % 64) as byte,
        (0x80 + n / 64 % 64) as byte, (0x80 + n % 64) as byte ]
  }

  function Encode(s: string): Bytes {
    if s == [] then [] else EncodeChar(s[0]) + Encode(s[1..])
  }

  lemma {:induction false} EncodeConcat(s: string, t: string)
    ensures Encode(s + t) == Encode(s) + Encode(t)
  {
    if s == [] {
      assert s + t == t;
    } else {
      assert (s + t)[1..] == s[1..] + t;
      EncodeConcat(s[1..], t);
    }
  }

  // ----- escaping --------------------------------------------------------------------

  /** `s.replace(c, sub)` for a single character. */
  function Replace(s: string, c: char, sub: string): string {
    if s == [] then [] else (if s[0] == c then sub else [s[0]]) + Replace(s[1..], c, sub)
  }

  /** The writer's three replacements, one after another over the whole text. */
  function Escaped(s: string): string {
    Replace(Replace(Replace(s, '\\', "\\\\"), '(', "\\("), ')', "\\)")
  }

  function EscapeChar(c: char): string {
    if c == '\\' || c == '(' || c == ')' then ['\\', c] else [c]
  }

  function EscapeEach(s: string): string {
    if s == [] then [] else EscapeChar(s[0]) + EscapeEach(s[1..])
  }

  lemma {:induction false} ReplaceConcat(s: string, t: string, c: char, sub: string)
    ensures Replace(s + t, c, sub) == Replace(s, c, sub) + Replace(t, c, sub)
  {
    if s == [] {
      assert s + t == t;
    } else {
      assert (s + t)[1..] == s[1..] + t;
      ReplaceConcat(s[1..], t, c, sub);
    }
  }

  lemma ReplaceOne(x: char, c: char, sub: string)
    ensures Replace([x], c, sub) == if x == c then sub else [x]
  {
    assert [x][1..] == [];
  }

  lemma ReplaceTwo(x: char, y: char, c: char, sub: string)
    ensures Replace([x, y], c, sub) == (if x == c then sub else [x]) + (if y == c then sub else [y])
  {
    assert [x, y] == [x] + [y];
    ReplaceConcat([x], [y], c, sub);
    ReplaceOne(x, c, sub);
    ReplaceOne(y, c, sub);
  }

  lemma EscapedOne(c: char)
    ensures Escaped([c]) == EscapeChar(c)
  {
    ReplaceOne(c, '\\', "\\\\");
    ReplaceOne(c, '(', "\\(");
    ReplaceOne(c, ')', "\\)");
    ReplaceTwo('\\', '\\', '(', "\\(");
    ReplaceTwo('\\', '\\', ')', "\\)");
    ReplaceTwo('\\', '(', ')', "\\)");
    assert "\\\\" == ['\\', '\\'] && "\\(" == ['\\', '('] && "\\)" == ['\\', ')'];
  }

  /** The three passes do not see each other's work: together they escape each
      character by itself. */
  lemma {:induction false} PassesEscapeEach(s: string)
    ensures Escaped(s) == EscapeEach(s)
  {
    if s != [] {
      var c, rest := [s[0]], s[1..];
      assert s == c + rest;
      PassesEscapeEach(rest);
      EscapedOne(s[0]);
      ReplaceConcat(c, rest, '\\', "\\\\");
      var c1, rest1 := Replace(c, '\\', "\\\\"), Replace(rest, '\\', "\\\\");
      ReplaceConcat(c1, rest1, '(', "\\(");
      ReplaceConcat(Replace(c1, '(', "\\("), Replace(rest1, '(', "\\("), ')', "\\)");
    }
  }

  // ----- reading a literal string -----------------------------------------------------

  const BACKSLASH: byte := 92
  const OPEN: byte := 40
  const CLOSE: byte := 41
  const CR: byte := 13
  const LF: byte := 10

  /** What a backslash and the byte after it stand for; octal codes are not read. */
  function Escapee(b: byte): Option<byte> {
    if b == BACKSLASH || b == OPEN || b == CLOSE then Some(b)
    else if b == 110 then Some(LF)
    else if b == 114 then Some(CR)
    else if b == 116 then Some(9)
    else if b == 98 then Some(8)
    else if b == 102 then Some(12)
    else None
  }

  /** The bytes of a literal string and what follows its closing parenthesis.
      Balanced parentheses need no escape, and an end-of-line marker of any kind is
      one line feed. */
  function ReadLiteral(b: Bytes, depth: nat): Option<(Bytes, Bytes)>
    decreases |b|
  {
    if b == [] then None
    else if b[0] == CLOSE && depth == 0 then Some(([], b[1..]))
    else if b[0] == BACKSLASH then
      if |b| == 1 || Escapee(b[1]).None? then None
      else
        var (text, rest) :- ReadLiteral(b[2..], depth);
        Some(([Escapee(b[1]).value] + text, rest))
    else if b[0] == CR then
      var (text, rest) :- ReadLiteral(if |b| > 1 && b[1] == LF then b[2..] else b[1..], depth);
      Some(([LF] + text, rest))
    else
      var inner: nat := if b[0] == OPEN then depth + 1 else if b[0] == CLOSE then depth - 1 else depth;
      var (text, rest) :- ReadLiteral(b[1..], inner);
      Some(([b[0]] + text, rest))
  }

  /** Every end-of-line marker as a line feed. */
  function OneEol(b: Bytes): Bytes
    decreases |b|
  {
    if b == [] then []
    else if b[0] == CR then [LF] + OneEol(if |b| > 1 && b[1] == LF then b[2..] else b[1..])
    else [b[0]] + OneEol(b[1..])
  }

  /** Bytes that are neither a delimiter nor a carriage return are read as they are. */
  predicate Plain(b: byte) {
    b != BACKSLASH && b != OPEN && b != CLOSE && b != CR
  }

  lemma {:induction false} PlainRead(run: Bytes, b: Bytes, text: Bytes, rest: Bytes)
    requires forall i :: 0 <= i < |run| ==> Plain(run[i])
    requires ReadLiteral(b, 0) == Some((text, rest))
    ensures ReadLiteral(run + b, 0) == Some((run + text, rest))
    decreases |run|
  {
    if run == [] {
      assert run + b == b && run + text == text;
    } else {
      assert (run + b)[1..] == run[1..] + b;
      PlainRead(run[1..], b, text, rest);
      assert [run[0]] + (run[1..] + text) == run + text;
    }
  }

  lemma {:induction false} PlainEol(run: Bytes, b: Bytes)
    requires forall i :: 0 <= i < |run| ==> Plain(run[i])
    ensures OneEol(run + b) == run + OneEol(b)
    decreases |run|
  {
    if run == [] {
      assert run + b == b;
    } else {
      assert (run + b)[1..] == run[1..] + b;
      PlainEol(run[1..], b);
      assert [run[0]] + (run[1..] + OneEol(b)) == run + OneEol(b);
    }
  }

  /** What is left of an escaped text behind its first characters, up to the end of
      the literal. */
  function Ending(s: string, rest: Bytes): Bytes {
    Encode(EscapeEach(s)) + ([CLOSE] + rest)
  }

  lemma EndingStep(s: string, rest: Bytes)
    requires s != []
    ensures Ending(s, rest) == Encode(EscapeChar(s[0])) + Ending(s[1..], rest)
  {
    EncodeConcat(EscapeChar(s[0]), EscapeEach(s[1..]));
    var one, more := Encode(EscapeChar(s[0])), Encode(EscapeEach(s[1..]));
    assert Encode(EscapeEach(s)) == one + more;
    Assoc(one, more, [CLOSE] + rest);
  }

  lemma EncodeOne(c: char)
    ensures Encode([c]) == EncodeChar(c)
  {
    assert [c][1..] == [];
  }

  lemma EncodeEscape(c: char)
    ensures Encode(['\\', c]) == [BACKSLASH] + EncodeChar(c)
  {
    assert ['\\', c][1..] == [c];
    EncodeOne(c);
  }

  lemma EndingStartsWithLf(s: string, rest: Bytes)
    ensures Ending(s, rest) != []
    ensures Ending(s, rest)[0] == LF <==> s != [] && s[0] == '\n'
  {
    if s != [] {
      EndingStep(s, rest);
      EncodeOne(s[0]);
      EncodeEscape(s[0]);
    }
  }

  /** A character that is neither escaped nor an end of line. */
  lemma OrdinaryRead(c: char, b: Bytes, e: Bytes, rest: Bytes)
    requires c != '\r' && c != '\\' && c != '(' && c != ')'
    requires ReadLiteral(b, 0) == Some((OneEol(e), rest))
    ensures ReadLiteral(EncodeChar(c) + b, 0) == Some((OneEol(EncodeChar(c) + e), rest))
  {
    PlainRead(EncodeChar(c), b, OneEol(e), rest);
    PlainEol(EncodeChar(c), e);
  }

  lemma EscapedRead(c: char, b: Bytes, e: Bytes, rest: Bytes)
    requires c == '\\' || c == '(' || c == ')'
    requires ReadLiteral(b, 0) == Some((OneEol(e), rest))
    ensures ReadLiteral(Encode(['\\', c]) + b, 0) == Some((OneEol(EncodeChar(c) + e), rest))
  {
    EncodeEscape(c);
    assert (Encode(['\\', c]) + b)[2..] == b;
    assert (EncodeChar(c) + e)[1..] == e;
  }

  /** A lone carriage return is read as a line feed. */
  lemma LoneCrRead(b: Bytes, e: Bytes, rest: Bytes)
    requires b != [] && b[0] != LF && (e != [] ==> e[0] != LF)
    requires ReadLiteral(b, 0) == Some((OneEol(e), rest))
    ensures ReadLiteral([CR] + b, 0) == Some((OneEol([CR] + e), rest))
  {
    assert ([CR] + b)[1..] == b && ([CR] + e)[1..] == e;
  }

  lemma CrLfRead(b: Bytes, e: Bytes, rest: Bytes)
    requires ReadLiteral(b, 0) == Some((OneEol(e), rest))
    ensures ReadLiteral([CR] + ([LF] + b), 0) == Some((OneEol([CR] + ([LF] + e)), rest))
  {
    var read, written := [CR] + ([LF] + b), [CR] + ([LF] + e);
    assert read[0] == CR && read[1] == LF && read[2..] == b;
    assert written[0] == CR && written[1] == LF && written[2..] == e;
    assert OneEol(written) == [LF] + OneEol(e);
  }

  /** Reading an escaped text as a literal string gives back its bytes with every
      end-of-line marker as a line feed, whatever follows the literal. */
  lemma {:induction false} LiteralRead(s: string, rest: Bytes)
    ensures ReadLiteral(Ending(s, rest), 0) == Some((OneEol(Encode(s)), rest))
    decreases |s|
  {
    if s == [] {
      assert Ending(s, rest) == [CLOSE] + rest;
    } else {
      var c, later := s[0], s[1..];
      EndingStep(s, rest);
      EncodeOne(c);
      if c == '\r' && later != [] && later[0] == '\n' {
        LiteralRead(later[1..], rest);
        EndingStep(later, rest);
        EncodeOne(later[0]);
        CrLfRead(Ending(later[1..], rest), Encode(later[1..]), rest);
      } else {
        LiteralRead(later, rest);
        OneCharRead(c, later, rest);
      }
    }
  }

  lemma {:induction false} OneCharRead(c: char, later: string, rest: Bytes)
    requires c == '\r' && later != [] ==> later[0] != '\n'
    requires ReadLiteral(Ending(later, rest), 0) == Some((OneEol(Encode(later)), rest))
    ensures ReadLiteral(Encode(EscapeChar(c)) + Ending(later, rest), 0) ==
      Some((OneEol(EncodeChar(c) + Encode(later)), rest))
  {
    var b, e := Ending(later, rest), Encode(later);
    EncodeOne(c);
    if c == '\\' || c == '(' || c == ')' {
      EscapedRead(c, b, e, rest);
    } else if c == '\r' {
      EndingStartsWithLf(later, rest);
      LoneCrRead(b, e, rest);
    } else {
      OrdinaryRead(c, b, e, rest);
    }
  }

  lemma {:induction false} EolUnchanged(b: Bytes)
    ensures OneEol(b) == b <==> CR !in b
    ensures CR !in OneEol(b)
    decreases |b|
  {
    if b != [] {
      if b[0] == CR {
        EolUnchanged(if |b| > 1 && b[1] == LF then b[2..] else b[1..]);
      } else {
        EolUnchanged(b[1..]);
        assert OneEol(b) == [b[0]] + OneEol(b[1..]);
        assert OneEol(b)[1..] == OneEol(b[1..]);
      }
    }
  }

  lemma {:induction false} CrEncoded(s: string)
    ensures CR in Encode(s) <==> '\r' in s
  {
    if s != [] {
      CrEncoded(s[1..]);
      assert forall x :: x in Encode(s) <==> x in EncodeChar(s[0]) || x in Encode(s[1..]);
    }
  }

  /** A text survives escaping and reading unchanged exactly when it holds no
      carriage return. */
  lemma LiteralExact(s: string, rest: Bytes)
    ensures ReadLiteral(Ending(s, rest), 0) == Some((Encode(s), rest)) <==> '\r' !in s
  {
    LiteralRead(s, rest);
    EolUnchanged(Encode(s));
    CrEncoded(s);
  }
}
