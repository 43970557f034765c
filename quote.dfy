/** The C-string-literal quoting of `src/main.c`: `print_quoted_char` and
    `print_quoted_str`, with the output returned as a character sequence
    instead of being written to a `FILE`.  The partner of the quoting is
    `Unquote`, a reader of string-literal bodies that follows the escape
    rules of ISO C (section 6.4.4.4 of ISO/IEC 9899:2011); the lemmas prove
    that reading the quoted text gives back the original bytes and that
    the quoted text contains no trigraph (section 5.2.1.1). */
module Quote {
  import opened Basics

  /** `isprint`, `isdigit` and `isxdigit` of the "C" locale. */
  predicate IsPrint(c: Byte) { 0x20 <= c <= 0x7E }
  predicate IsDigit(c: Byte) { '0' as int <= c <= '9' as int }
  predicate IsXDigit(c: Byte) {
    IsDigit(c) || 'A' as int <= c <= 'F' as int || 'a' as int <= c <= 'f' as int
  }

  /** The third characters that complete a trigraph `??X`. */
  predicate IsTrigraphEnd(c: char) {
    c == '<' || c == '>' || c == '(' || c == ')' || c == '=' || c == '/'
    || c == '\'' || c == '!' || c == '-'
  }

  function OctalDigit(n: int): char
    requires 0 <= n < 8
  {
    ('0' as int + n) as char
  }

  /** One digit of `printf("%.2X")`. */
  function HexDigit(n: int): char
    requires 0 <= n < 16
  {
    if n < 10 then ('0' as int + n) as char else ('A' as int + n - 10) as char
  }

  /** `print_quoted_char(file, c, next)`: the text written for byte `c`
      when the byte after it is `next`. */
  function QuoteChar(c: Byte, next: Byte): (r: string)
    ensures 1 <= |r| <= 4
    ensures r == [c as char] <==> IsPrint(c) && c != '"' as int && c != '\\' as int
  {
    var prefix := if c == '"' as int || c == '\\' as int then "\\" else "";
    if IsPrint(c) then prefix + [c as char]
    else if c == 7 then "\\a"
    else if c == 8 then "\\b"
    else if c == 12 then "\\f"
    else if c == 10 then "\\n"
    else if c == 13 then "\\r"
    else if c == 9 then "\\t"
    else if c == 11 then "\\v"
    else if c == 0 then
      (if IsDigit(next) && next < '8' as int then "\\000" else "\\0")
    else if IsXDigit(next) then
      ['\\', OctalDigit((c / 64) % 8), OctalDigit((c / 8) % 8), OctalDigit(c % 8)]
    else
      ['\\', 'x', HexDigit(c / 16), HexDigit(c % 16)]
  }

  /** The loop body of `print_quoted_str` over the remaining bytes `s`, where
      `prev` is the last byte handed to `print_quoted_char` (NUL at first).
      The byte after the last one is the string's NUL terminator. */
  function QuoteBody(s: seq<Byte>, prev: Byte): (r: string)
    ensures |s| <= |r| <= 4 * |s|
    decreases |s|
  {
    if s == [] then ""
    else
      var next: Byte := if |s| > 1 then s[1] else 0;
      if s[0] == '?' as int && prev == '?' as int && IsTrigraphEnd(next as char) then
        "\\?" + QuoteBody(s[1..], prev)
      else
        QuoteChar(s[0], next) + QuoteBody(s[1..], s[0])
  }

  /** Everything `print_quoted_str` writes for the C string `s`. */
  function Quoted(s: seq<Byte>): (r: string)
    ensures |r| >= 2 && r[0] == '"' && r[|r| - 1] == '"'
  {
    "\"" + QuoteBody(s, 0) + "\""
  }

  predicate NoNul(s: seq<Byte>) {
    forall i :: 0 <= i < |s| ==> s[i] != 0
  }

  /** `print_quoted_str`: the loop walks the string up to its terminator,
      keeping the previously quoted byte in `prev` for the trigraph guard. */
  method PrintQuotedStr(s: seq<Byte>) returns (out: string)
    requires NoNul(s)
    ensures out == Quoted(s)
  {
    out := "\"";
    var prev: Byte := 0;
    var i := 0;
    while i < |s|
      invariant 0 <= i <= |s|
      invariant out + QuoteBody(s[i..], prev) + "\"" == Quoted(s)
    {
      var next: Byte := if i + 1 < |s| then s[i + 1] else 0;
      BodyUnfold(s, i, prev);
      if s[i] == '?' as int && prev == '?' as int && IsTrigraphEnd(next as char) {
        Regroup(out, "\\?", QuoteBody(s[i + 1..], prev));
        out := out + "\\?";
        i := i + 1;
        continue;
      }
      Regroup(out, QuoteChar(s[i], next), QuoteBody(s[i + 1..], s[i]));
      out := out + QuoteChar(s[i], next);
      prev := s[i];
      i := i + 1;
    }
    assert s[i..] == [];
    out := out + "\"";
  }

  lemma Regroup(a: string, b: string, c: string)
    ensures (a + b) + c + "\"" == a + (b + c) + "\""
  {
  }

  /** One step of `QuoteBody` at position `i` of `s`. */
  lemma BodyUnfold(s: seq<Byte>, i: int, prev: Byte)
    requires 0 <= i < |s|
    ensures var next: Byte := if i + 1 < |s| then s[i + 1] else 0;
      QuoteBody(s[i..], prev)
      == if s[i] == '?' as int && prev == '?' as int && IsTrigraphEnd(next as char)
         then "\\?" + QuoteBody(s[i + 1..], prev)
         else QuoteChar(s[i], next) + QuoteBody(s[i + 1..], s[i])
  {
    assert s[i..][1..] == s[i + 1..];
    assert s[i..][0] == s[i];
    if i + 1 < |s| {
      assert s[i..][1] == s[i + 1];
    }
  }

  // ---------------------------------------------------------------------
  // Reading a string-literal body back (section 6.4.4.4 of ISO/IEC 9899:2011)

  predicate IsOctalChar(ch: char) { '0' <= ch <= '7' }
  predicate IsHexChar(ch: char) {
    '0' <= ch <= '9' || 'A' <= ch <= 'F' || 'a' <= ch <= 'f'
  }

  function HexValue(ch: char): int
    requires IsHexChar(ch)
  {
    if ch <= '9' then ch as int - '0' as int
    else if ch <= 'F' then ch as int - 'A' as int + 10
    else ch as int - 'a' as int + 10
  }

  /** Value of the simple escape `\e`, if `e` names one. */
  function SimpleEscape(e: char): Option<Byte>
  {
    match e
    case '\'' => Some('\'' as int)
    case '"' => Some('"' as int)
    case '?' => Some('?' as int)
    case '\\' => Some('\\' as int)
    case 'a' => Some(7)
    case 'b' => Some(8)
    case 'f' => Some(12)
    case 'n' => Some(10)
    case 'r' => Some(13)
    case 't' => Some(9)
    case 'v' => Some(11)
    case _ => None
  }

  /** Number of leading octal digits of `t`, at most `max`. */
  function OctalRun(t: string, max: nat): (n: nat)
    ensures n <= max && n <= |t|
  {
    if max == 0 || t == [] || !IsOctalChar(t[0]) then 0 else 1 + OctalRun(t[1..], max - 1)
  }

  /** Number of leading hexadecimal digits of `t` (a hexadecimal escape has no length limit). */
  function HexRun(t: string): (n: nat)
    ensures n <= |t|
  {
    if t == [] || !IsHexChar(t[0]) then 0 else 1 + HexRun(t[1..])
  }

  function OctalValue(t: string): (v: nat)
    requires forall k :: 0 <= k < |t| ==> IsOctalChar(t[k])
  {
    if t == [] then 0
    else
      assert IsOctalChar(t[|t| - 1]);
      8 * OctalValue(t[..|t| - 1]) + (t[|t| - 1] as int - '0' as int)
  }

  function HexNumber(t: string): (v: nat)
    requires forall k :: 0 <= k < |t| ==> IsHexChar(t[k])
  {
    if t == [] then 0 else 16 * HexNumber(t[..|t| - 1]) + HexValue(t[|t| - 1])
  }

  function Cons(b: Byte, rest: Option<seq<Byte>>): Option<seq<Byte>>
  {
    if rest.Some? then Some([b] + rest.value) else None
  }

  lemma OctalRunDigits(t: string, max: nat)
    ensures forall k :: 0 <= k < OctalRun(t, max) ==> IsOctalChar(t[k])
  {
    if max > 0 && t != [] && IsOctalChar(t[0]) {
      OctalRunDigits(t[1..], max - 1);
    }
  }

  lemma HexRunDigits(t: string)
    ensures forall k :: 0 <= k < HexRun(t) ==> IsHexChar(t[k])
  {
    if t != [] && IsHexChar(t[0]) {
      HexRunDigits(t[1..]);
    }
  }

  /** The escape sequence after a backslash at the start of `e`: the byte it
      denotes and how many characters of `e` it takes, or None when `e` does
      not start with a valid escape.  Escapes are read greedily: up to three
      octal digits, and every hexadecimal digit after `x`. */
  function ReadEscape(e: string): (r: Option<(Byte, nat)>)
    ensures r.Some? ==> 1 <= r.value.1 <= |e|
  {
    if e == [] then None
    else if SimpleEscape(e[0]).Some? then Some((SimpleEscape(e[0]).value, 1))
    else if IsOctalChar(e[0]) then
      var n := OctalRun(e, 3);
      OctalRunDigits(e, 3);
      var v := OctalValue(e[..n]);
      if v >= 256 then None else Some((v, n))
    else if e[0] == 'x' then
      var n := HexRun(e[1..]);
      HexRunDigits(e[1..]);
      var v := HexNumber(e[1..1 + n]);
      if n == 0 || v >= 256 then None else Some((v, 1 + n))
    else None
  }

  /** The bytes denoted by the body `o` of a string literal (the text
      between its quotes), or None when `o` is not a valid body. */
  function Unquote(o: string): Option<seq<Byte>>
    decreases |o|
  {
    if o == [] then Some([])
    else if o[0] != '\\' then
      if o[0] == '"' || o[0] == '\n' || o[0] as int >= 256 then None
      else Cons(o[0] as int, Unquote(o[1..]))
    else
      match ReadEscape(o[1..])
      case None => None
      case Some((v, n)) => Cons(v, Unquote(o[1 + n..]))
  }

  lemma UnquoteEscape(e: string, rest: string, v: Byte)
    requires ReadEscape(e + rest) == Some((v, |e|))
    ensures Unquote(['\\'] + e + rest) == Cons(v, Unquote(rest))
  {
    var o := ['\\'] + e + rest;
    assert o[1..] == e + rest;
    assert o[1 + |e|..] == rest;
  }

  /** The text that follows the output for one byte starts as the output for
      `next` does: with a backslash, or with `next` itself when it is printable. */
  predicate LeadsWith(rest: string, next: Byte) {
    rest == [] || rest[0] == '\\' || (IsPrint(next) && rest[0] == next as char)
  }

  lemma QuoteCharLeads(c: Byte, next: Byte)
    ensures LeadsWith(QuoteChar(c, next), c) && QuoteChar(c, next) != []
  {
  }

  lemma BodyLeads(s: seq<Byte>, prev: Byte)
    ensures LeadsWith(QuoteBody(s, prev), if s == [] then 0 else s[0])
  {
    if s != [] {
      var next: Byte := if |s| > 1 then s[1] else 0;
      QuoteCharLeads(s[0], next);
    }
  }

  lemma ThreeOctal(h: char, m: char, l: char, rest: string)
    requires IsOctalChar(h) && IsOctalChar(m) && IsOctalChar(l)
    ensures OctalRun([h, m, l] + rest, 3) == 3
    ensures OctalValue([h, m, l]) == 64 * (h as int - '0' as int) + 8 * (m as int - '0' as int) + (l as int - '0' as int)
  {
    var t := [h, m, l] + rest;
    assert t[1..] == [m, l] + rest;
    assert t[1..][1..] == [l] + rest;
    assert OctalRun([l] + rest, 1) == 1;
    assert OctalRun([m, l] + rest, 2) == 2;
    assert [h, m, l][..2] == [h, m];
    assert [h, m][..1] == [h];
    assert [h][..0] == [];
    assert OctalValue([h]) == h as int - '0' as int;
    assert OctalValue([h, m]) == 8 * OctalValue([h]) + (m as int - '0' as int);
  }

  lemma OneOctal(d: char, rest: string)
    requires IsOctalChar(d) && (rest == [] || !IsOctalChar(rest[0]))
    ensures OctalRun([d] + rest, 3) == 1 && OctalValue([d]) == d as int - '0' as int
  {
    var t := [d] + rest;
    assert t[1..] == rest;
    assert [d][..0] == [];
  }

  lemma TwoHex(a: char, b: char, rest: string)
    requires IsHexChar(a) && IsHexChar(b) && (rest == [] || !IsHexChar(rest[0]))
    ensures HexRun([a, b] + rest) == 2 && HexNumber([a, b]) == 16 * HexValue(a) + HexValue(b)
  {
    var t := [a, b] + rest;
    assert t[1..] == [b] + rest;
    assert t[1..][1..] == rest;
    assert HexRun(rest) == 0;
    assert HexRun([b] + rest) == 1;
    assert [a, b][..1] == [a];
    assert [a][..0] == [];
    assert HexNumber([a]) == HexValue(a);
  }

  lemma OctalDigitIsOctal(n: int)
    requires 0 <= n < 8
    ensures IsOctalChar(OctalDigit(n)) && OctalDigit(n) as int - '0' as int == n
  {
  }

  lemma HexDigitIsHex(n: int)
    requires 0 <= n < 16
    ensures IsHexChar(HexDigit(n)) && HexValue(HexDigit(n)) == n
  {
  }

  lemma UnquoteVerbatim(ch: char, rest: string)
    requires ch != '\\' && ch != '"' && ch != '\n' && ch as int < 256
    ensures Unquote([ch] + rest) == Cons(ch as int, Unquote(rest))
  {
    assert ([ch] + rest)[1..] == rest;
  }

  lemma UnquoteSimple(e: char, rest: string)
    requires SimpleEscape(e).Some?
    ensures Unquote(['\\', e] + rest) == Cons(SimpleEscape(e).value, Unquote(rest))
  {
    assert ([e] + rest)[0] == e;
    UnquoteEscape([e], rest, SimpleEscape(e).value);
    assert ['\\'] + [e] + rest == ['\\', e] + rest;
  }

  lemma ReadOctalEscape(h: char, m: char, l: char, rest: string, v: Byte)
    requires IsOctalChar(h) && IsOctalChar(m) && IsOctalChar(l)
    requires v == 64 * (h as int - '0' as int) + 8 * (m as int - '0' as int) + (l as int - '0' as int)
    ensures ReadEscape([h, m, l] + rest) == Some((v, 3))
  {
    var e := [h, m, l] + rest;
    ThreeOctal(h, m, l, rest);
    assert e[0] == h && e[..3] == [h, m, l];
    assert SimpleEscape(h) == None;
  }

  lemma UnquoteOctal(h: char, m: char, l: char, rest: string)
    requires IsOctalChar(h) && IsOctalChar(m) && IsOctalChar(l) && h <= '3'
    ensures Unquote(['\\', h, m, l] + rest)
         == Cons(64 * (h as int - '0' as int) + 8 * (m as int - '0' as int) + (l as int - '0' as int), Unquote(rest))
  {
    var v: Byte := 64 * (h as int - '0' as int) + 8 * (m as int - '0' as int) + (l as int - '0' as int);
    ReadOctalEscape(h, m, l, rest, v);
    UnquoteEscape([h, m, l], rest, v);
    assert ['\\'] + [h, m, l] + rest == ['\\', h, m, l] + rest;
  }

  lemma ReadNulEscape(rest: string)
    requires rest == [] || !IsOctalChar(rest[0])
    ensures ReadEscape(['0'] + rest) == Some((0, 1))
  {
    var e := ['0'] + rest;
    OneOctal('0', rest);
    assert e[0] == '0' && e[..1] == ['0'];
    assert SimpleEscape('0') == None;
  }

  lemma UnquoteNul(rest: string)
    requires rest == [] || !IsOctalChar(rest[0])
    ensures Unquote(['\\', '0'] + rest) == Cons(0, Unquote(rest))
  {
    ReadNulEscape(rest);
    UnquoteEscape(['0'], rest, 0);
    assert ['\\'] + ['0'] + rest == ['\\', '0'] + rest;
  }

  lemma ReadHexEscape(a: char, b: char, rest: string, v: Byte)
    requires IsHexChar(a) && IsHexChar(b) && (rest == [] || !IsHexChar(rest[0]))
    requires v == 16 * HexValue(a) + HexValue(b)
    ensures ReadEscape(['x', a, b] + rest) == Some((v, 3))
  {
    var e := ['x', a, b] + rest;
    assert e[1..] == [a, b] + rest;
    TwoHex(a, b, rest);
    assert e[1..3] == [a, b];
    assert SimpleEscape('x') == None;
  }

  lemma UnquoteHex(a: char, b: char, rest: string, v: Byte)
    requires ReadEscape(['x', a, b] + rest) == Some((v, 3))
    ensures Unquote(['\\'] + ['x', a, b] + rest) == Cons(v, Unquote(rest))
  {
    UnquoteEscape(['x', a, b], rest, v);
  }

  lemma OctalSplit(c: Byte)
    ensures (c / 64) % 8 == c / 64 < 4
    ensures 64 * (c / 64) + 8 * ((c / 8) % 8) + c % 8 == c
  {
    var q, r := c / 64, c % 64;
    assert c == 64 * q + r && 0 <= r < 64;
    assert c / 8 == 8 * q + r / 8;
    assert (c / 8) % 8 == r / 8;
    assert c % 8 == r % 8;
  }

  lemma UnquoteCharOctal(c: Byte, rest: string)
    requires 0 < c && !IsPrint(c)
    ensures Unquote(['\\', OctalDigit((c / 64) % 8), OctalDigit((c / 8) % 8), OctalDigit(c % 8)] + rest)
         == Cons(c, Unquote(rest))
  {
    var h, m, l := OctalDigit((c / 64) % 8), OctalDigit((c / 8) % 8), OctalDigit(c % 8);
    OctalDigitIsOctal((c / 64) % 8);
    OctalDigitIsOctal((c / 8) % 8);
    OctalDigitIsOctal(c % 8);
    OctalSplit(c);
    UnquoteOctal(h, m, l, rest);
  }

  lemma UnquoteCharHex(c: Byte, rest: string)
    requires rest == [] || !IsHexChar(rest[0])
    ensures Unquote(['\\', 'x', HexDigit(c / 16), HexDigit(c % 16)] + rest) == Cons(c, Unquote(rest))
  {
    var a, b := HexDigit(c / 16), HexDigit(c % 16);
    HexDigitIsHex(c / 16);
    HexDigitIsHex(c % 16);
    assert 16 * (c / 16) + c % 16 == c;
    ReadHexEscape(a, b, rest, c);
    UnquoteHex(a, b, rest, c);
    assert ['\\'] + ['x', a, b] + rest == ['\\', 'x', a, b] + rest;
  }

  lemma UnquoteCharControl(c: Byte, rest: string)
    requires c == 7 || c == 8 || c == 12 || c == 10 || c == 13 || c == 9 || c == 11
    ensures Unquote(QuoteChar(c, 0) + rest) == Cons(c, Unquote(rest))
  {
    var e := if c == 7 then 'a' else if c == 8 then 'b' else if c == 12 then 'f'
      else if c == 10 then 'n' else if c == 13 then 'r' else if c == 9 then 't' else 'v';
    assert QuoteChar(c, 0) == ['\\', e];
    assert SimpleEscape(e) == Some(c);
    UnquoteSimple(e, rest);
  }

  /** Reading back the output for one byte gives that byte, whatever follows
      as long as it starts the way the output for `next` starts. */
  lemma UnquoteChar(c: Byte, next: Byte, rest: string)
    requires LeadsWith(rest, next)
    ensures Unquote(QuoteChar(c, next) + rest) == Cons(c, Unquote(rest))
  {
    if IsPrint(c) {
      UnquoteCharPrint(c, next, rest);
    } else if c == 7 || c == 8 || c == 12 || c == 10 || c == 13 || c == 9 || c == 11 {
      assert QuoteChar(c, next) == QuoteChar(c, 0);
      UnquoteCharControl(c, rest);
    } else if c == 0 {
      UnquoteCharNul(next, rest);
    } else {
      UnquoteCharNumeric(c, next, rest);
    }
  }

  lemma UnquoteCharPrint(c: Byte, next: Byte, rest: string)
    requires IsPrint(c)
    ensures Unquote(QuoteChar(c, next) + rest) == Cons(c, Unquote(rest))
  {
    if c == '"' as int || c == '\\' as int {
      assert QuoteChar(c, next) == ['\\', c as char];
      UnquoteSimple(c as char, rest);
    } else {
      assert QuoteChar(c, next) == [c as char];
      UnquoteVerbatim(c as char, rest);
    }
  }

  lemma UnquoteCharNul(next: Byte, rest: string)
    requires LeadsWith(rest, next)
    ensures Unquote(QuoteChar(0, next) + rest) == Cons(0, Unquote(rest))
  {
    if IsDigit(next) && next < '8' as int {
      assert QuoteChar(0, next) == ['\\', '0', '0', '0'];
      UnquoteOctal('0', '0', '0', rest);
    } else {
      assert QuoteChar(0, next) == ['\\', '0'];
      assert rest == [] || !IsOctalChar(rest[0]);
      UnquoteNul(rest);
    }
  }

  lemma UnquoteCharNumeric(c: Byte, next: Byte, rest: string)
    requires LeadsWith(rest, next) && 0 < c && !IsPrint(c)
    requires !(c == 7 || c == 8 || c == 12 || c == 10 || c == 13 || c == 9 || c == 11)
    ensures Unquote(QuoteChar(c, next) + rest) == Cons(c, Unquote(rest))
  {
    if IsXDigit(next) {
      assert QuoteChar(c, next) == ['\\', OctalDigit((c / 64) % 8), OctalDigit((c / 8) % 8), OctalDigit(c % 8)];
      UnquoteCharOctal(c, rest);
    } else {
      assert QuoteChar(c, next) == ['\\', 'x', HexDigit(c / 16), HexDigit(c % 16)];
      assert rest == [] || !IsHexChar(rest[0]);
      UnquoteCharHex(c, rest);
    }
  }

  /** One step of the round trip when the trigraph guard writes `\?`. */
  lemma GuardStep(s: seq<Byte>, prev: Byte)
    requires s != [] && s[0] == '?' as int && prev == '?' as int
    requires IsTrigraphEnd((if |s| > 1 then s[1] else 0) as char)
    requires Unquote(QuoteBody(s[1..], prev)) == Some(s[1..])
    ensures Unquote(QuoteBody(s, prev)) == Some(s)
  {
    assert QuoteBody(s, prev) == "\\?" + QuoteBody(s[1..], prev);
    UnquoteSimple('?', QuoteBody(s[1..], prev));
    assert [s[0]] + s[1..] == s;
  }

  /** One step of the round trip when the byte is written by `print_quoted_char`. */
  lemma CharStep(s: seq<Byte>, prev: Byte)
    requires s != []
    requires !(s[0] == '?' as int && prev == '?' as int && IsTrigraphEnd((if |s| > 1 then s[1] else 0) as char))
    requires Unquote(QuoteBody(s[1..], s[0])) == Some(s[1..])
    ensures Unquote(QuoteBody(s, prev)) == Some(s)
  {
    var next: Byte := if |s| > 1 then s[1] else 0;
    var rest := QuoteBody(s[1..], s[0]);
    assert QuoteBody(s, prev) == QuoteChar(s[0], next) + rest;
    BodyLeads(s[1..], s[0]);
    assert next == if s[1..] == [] then 0 else s[1..][0];
    UnquoteChar(s[0], next, rest);
    assert [s[0]] + s[1..] == s;
  }

  /** Round trip: the quoted text, read as a C string-literal body, denotes
      exactly the bytes that were quoted, whatever `prev` was. */
  lemma {:induction false} UnquoteBody(s: seq<Byte>, prev: Byte)
    ensures Unquote(QuoteBody(s, prev)) == Some(s)
    decreases |s|
  {
    if s != [] {
      if s[0] == '?' as int && prev == '?' as int && IsTrigraphEnd((if |s| > 1 then s[1] else 0) as char) {
        UnquoteBody(s[1..], prev);
        GuardStep(s, prev);
      } else {
        UnquoteBody(s[1..], s[0]);
        CharStep(s, prev);
      }
    }
  }

  /** The body of `Quoted(s)` reads back as `s`. */
  lemma QuotedRoundTrip(s: seq<Byte>)
    ensures var q := Quoted(s); Unquote(q[1..|q| - 1]) == Some(s)
  {
    var q := Quoted(s);
    assert q[1..|q| - 1] == QuoteBody(s, 0);
    UnquoteBody(s, 0);
  }

  // ---------------------------------------------------------------------
  // Trigraphs and printable output

  /** `o` contains `??X` for a trigraph end `X`. */
  predicate HasTrigraph(o: string) {
    exists i :: 0 <= i && i + 2 < |o| && o[i] == '?' && o[i + 1] == '?' && IsTrigraphEnd(o[i + 2])
  }

  predicate StartsQuestionTrigraphEnd(o: string) {
    |o| >= 2 && o[0] == '?' && IsTrigraphEnd(o[1])
  }

  lemma NoTrigraphConcat(a: string, b: string)
    requires !HasTrigraph(a) && !HasTrigraph(b)
    requires !(|a| >= 2 && a[|a| - 2] == '?' && a[|a| - 1] == '?' && |b| >= 1 && IsTrigraphEnd(b[0]))
    requires !(|a| >= 1 && a[|a| - 1] == '?' && StartsQuestionTrigraphEnd(b))
    ensures !HasTrigraph(a + b)
  {
    var o := a + b;
    forall i | 0 <= i && i + 2 < |o|
      ensures !(o[i] == '?' && o[i + 1] == '?' && IsTrigraphEnd(o[i + 2]))
    {
      if i + 2 < |a| {
        assert o[i] == a[i] && o[i + 1] == a[i + 1] && o[i + 2] == a[i + 2];
      } else if i >= |a| {
        var j := i - |a|;
        assert o[i] == b[j] && o[i + 1] == b[j + 1] && o[i + 2] == b[j + 2];
      } else if i + 1 == |a| {
        assert o[i] == a[|a| - 1] && o[i + 1] == b[0] && o[i + 2] == b[1];
      } else {
        assert o[i] == a[|a| - 2] && o[i + 1] == a[|a| - 1] && o[i + 2] == b[0];
      }
    }
  }

  /** The output for one byte: a '?' in it only comes from a '?' byte, and
      it starts with a trigraph end only when it is that byte verbatim. */
  lemma QuoteCharShape(c: Byte, next: Byte)
    ensures var q := QuoteChar(c, next);
      && |q| >= 1 && !HasTrigraph(q)
      && (forall k :: 0 <= k < |q| && q[k] == '?' ==> c == '?' as int && q == "?")
      && (IsTrigraphEnd(q[0]) ==> q == [c as char])
  {
    var q := QuoteChar(c, next);
    if IsPrint(c) {
      PrintShape(c, next);
    } else {
      EscapeShape(c, next);
    }
    assert !HasTrigraph(q);
  }

  /** The text for a printable byte is the byte, after a backslash for `"`
      and `\`. */
  lemma PrintShape(c: Byte, next: Byte)
    requires IsPrint(c)
    ensures var q := QuoteChar(c, next);
      if c == '"' as int || c == '\\' as int then q == ['\\', c as char] else q == [c as char]
  {
  }

  /** The text for a byte that is not printable is an escape sequence with
      no '?' in it. */
  lemma EscapeShape(c: Byte, next: Byte)
    requires !IsPrint(c)
    ensures var q := QuoteChar(c, next); q[0] == '\\' && forall k :: 0 <= k < |q| ==> q[k] != '?'
  {
  }

  /** The quoted text starts with a trigraph end only when that is the
      first byte written verbatim. */
  lemma BodyFirst(s: seq<Byte>, prev: Byte)
    ensures var o := QuoteBody(s, prev);
      |o| >= 1 && IsTrigraphEnd(o[0]) ==> s != [] && o[0] as int == s[0]
  {
    if s != [] {
      var next: Byte := if |s| > 1 then s[1] else 0;
      if !(s[0] == '?' as int && prev == '?' as int && IsTrigraphEnd(next as char)) {
        QuoteCharShape(s[0], next);
      }
    }
  }

  /** The quoted text starts with `?X` for a trigraph end `X` only when the
      previous byte was not a '?'. */
  lemma BodyStartsQuestion(s: seq<Byte>, prev: Byte)
    ensures StartsQuestionTrigraphEnd(QuoteBody(s, prev)) ==> prev != '?' as int
  {
    if s != [] {
      var next: Byte := if |s| > 1 then s[1] else 0;
      if !(s[0] == '?' as int && prev == '?' as int && IsTrigraphEnd(next as char)) {
        var q := QuoteChar(s[0], next);
        var rest := QuoteBody(s[1..], s[0]);
        QuoteCharShape(s[0], next);
        if StartsQuestionTrigraphEnd(q + rest) {
          assert q[0] == '?';
          assert q == "?";
          assert (q + rest)[1] == rest[0];
          BodyFirst(s[1..], s[0]);
          assert rest[0] as int == next;
        }
      }
    }
  }

  lemma {:induction false} BodyNoTrigraph(s: seq<Byte>, prev: Byte)
    ensures !HasTrigraph(QuoteBody(s, prev))
    decreases |s|
  {
    if s != [] {
      var next: Byte := if |s| > 1 then s[1] else 0;
      if s[0] == '?' as int && prev == '?' as int && IsTrigraphEnd(next as char) {
        var rest := QuoteBody(s[1..], prev);
        BodyNoTrigraph(s[1..], prev);
        assert !HasTrigraph("\\?");
        NoTrigraphConcat("\\?", rest);
      } else {
        var q := QuoteChar(s[0], next);
        var rest := QuoteBody(s[1..], s[0]);
        BodyNoTrigraph(s[1..], s[0]);
        QuoteCharShape(s[0], next);
        BodyStartsQuestion(s[1..], s[0]);
        NoTrigraphConcat(q, rest);
      }
    }
  }

  /** Section 5.2.1.1 of ISO/IEC 9899:2011: the quoted string holds no
      trigraph, so a C compiler reads it as written. */
  lemma QuotedNoTrigraph(s: seq<Byte>)
    ensures !HasTrigraph(Quoted(s))
  {
    BodyNoTrigraph(s, 0);
    assert !HasTrigraph("\"");
    NoTrigraphConcat("\"", QuoteBody(s, 0));
    NoTrigraphConcat("\"" + QuoteBody(s, 0), "\"");
  }

  predicate AllPrintable(o: string) {
    forall k :: 0 <= k < |o| ==> 0x20 <= o[k] as int <= 0x7E
  }

  lemma PrintableConcat(a: string, b: string)
    requires AllPrintable(a) && AllPrintable(b)
    ensures AllPrintable(a + b)
  {
    forall k | 0 <= k < |a + b| ensures 0x20 <= (a + b)[k] as int <= 0x7E {
      if k >= |a| {
        assert (a + b)[k] == b[k - |a|];
      }
    }
  }

  /** The text for one byte is printable ASCII. */
  lemma QuoteCharPrintable(c: Byte, next: Byte)
    ensures AllPrintable(QuoteChar(c, next))
  {
  }

  lemma {:induction false} BodyPrintable(s: seq<Byte>, prev: Byte)
    ensures AllPrintable(QuoteBody(s, prev))
    decreases |s|
  {
    if s != [] {
      var next: Byte := if |s| > 1 then s[1] else 0;
      BodyUnfold(s, 0, prev);
      assert s[0..] == s;
      if s[0] == '?' as int && prev == '?' as int && IsTrigraphEnd(next as char) {
        BodyPrintable(s[1..], prev);
        PrintableConcat("\\?", QuoteBody(s[1..], prev));
      } else {
        BodyPrintable(s[1..], s[0]);
        QuoteCharPrintable(s[0], next);
        PrintableConcat(QuoteChar(s[0], next), QuoteBody(s[1..], s[0]));
      }
    }
  }

  /** Every character of the quoted string is printable ASCII, whatever bytes
      the argument held. */
  lemma QuotedPrintable(s: seq<Byte>)
    ensures AllPrintable(Quoted(s))
  {
    BodyPrintable(s, 0);
  }
}
