/** JSON string literals as Python's `json.dumps` writes them with its
    default `ensure_ascii=True`, and a decoder for string literals that
    follows section 7 of RFC 8259. The decoder reads the literals back; the
    encoder is proved correct by decoding what it writes: that gives the
    string back and leaves whatever follows the closing quote untouched. */
module Json {
  import opened Common

  /** The characters `ensure_ascii` output may contain: `' '` to `'~'`. */
  predicate IsPrintable(c: char) {
    ' ' <= c <= '~'
  }

  predicate AllPrintable(s: string) {
    forall i :: 0 <= i < |s| ==> IsPrintable(s[i])
  }

  /** The characters written as themselves: printable ASCII other than the
      quote and the backslash. */
  predicate IsPlain(c: char) {
    IsPrintable(c) && c != '"' && c != '\\'
  }

  predicate AllPlain(s: string) {
    forall i :: 0 <= i < |s| ==> IsPlain(s[i])
  }

  const Backspace: char := 8 as char
  const FormFeed: char := 12 as char

  /** A lower-case hexadecimal digit, as `%04x` writes it. */
  function HexDigit(d: nat): (c: char)
    requires d < 16
    ensures IsPlain(c)
  {
    if d < 10 then ('0' as int + d) as char else ('a' as int + d - 10) as char
  }

  /** `%x` spells digit `d` as the lower-case table does. */
  lemma HexDigitSpelling(d: nat)
    requires d < 16
    ensures HexDigit(d) == "0123456789abcdef"[d]
  {
  }

  predicate IsHex(c: char) {
    ('0' <= c <= '9') || ('a' <= c <= 'f') || ('A' <= c <= 'F')
  }

  function HexValue(c: char): (d: nat)
    requires IsHex(c)
    ensures d < 16
  {
    if '0' <= c <= '9' then c as int - '0' as int
    else if 'a' <= c <= 'f' then c as int - 'a' as int + 10
    else c as int - 'A' as int + 10
  }

  lemma HexDigitValue(d: nat)
    requires d < 16
    ensures IsHex(HexDigit(d)) && HexValue(HexDigit(d)) == d
  {
  }

  /** `"%04x" % n`: four lower-case hexadecimal digits. */
  function Hex4(n: nat): (h: string)
    requires n < 0x10000
    ensures |h| == 4
    ensures forall i :: 0 <= i < 4 ==> IsPlain(h[i])
  {
    var a := n / 16;
    var b := a / 16;
    [HexDigit(b / 16), HexDigit(b % 16), HexDigit(a % 16), HexDigit(n % 16)]
  }

  /** `t[i..i+4]` is four hexadecimal digits. */
  predicate Hex4At(t: string, i: int) {
    0 <= i && i + 4 <= |t|
    && IsHex(t[i]) && IsHex(t[i + 1]) && IsHex(t[i + 2]) && IsHex(t[i + 3])
  }

  /** The value of the four hexadecimal digits at `t[i..i+4]`. */
  function Hex4Value(t: string, i: int): (n: nat)
    requires Hex4At(t, i)
    ensures n < 0x10000
  {
    ((HexValue(t[i]) * 16 + HexValue(t[i + 1])) * 16 + HexValue(t[i + 2])) * 16 + HexValue(t[i + 3])
  }

  /** Reading back the four digits `Hex4` wrote, wherever they sit. */
  lemma Hex4Reads(n: nat, t: string, i: int)
    requires n < 0x10000
    requires 0 <= i && i + 4 <= |t|
    requires forall j :: 0 <= j < 4 ==> t[i + j] == Hex4(n)[j]
    ensures Hex4At(t, i) && Hex4Value(t, i) == n
  {
    var h := Hex4(n);
    var a := n / 16;
    var b := a / 16;
    assert t[i] == h[0] && t[i + 1] == h[1] && t[i + 2] == h[2] && t[i + 3] == h[3];
    HexDigitValue(b / 16);
    HexDigitValue(b % 16);
    HexDigitValue(a % 16);
    HexDigitValue(n % 16);
  }

  /** The letter of the short escape `ensure_ascii` uses for `c`, if any:
      `\"`, `\\`, `\n`, `\r`, `\t`, `\b` and `\f`. */
  function ShortCode(c: char): (x: Option<char>)
    ensures x.Some? <==> c in {'"', '\\', '\n', '\r', '\t', Backspace, FormFeed}
    ensures x.Some? ==> x.value in "\"\\nrtbf" && IsPrintable(x.value)
    ensures IsPlain(c) ==> x.None?
  {
    if c == '"' then Some('"')
    else if c == '\\' then Some('\\')
    else if c == '\n' then Some('n')
    else if c == '\r' then Some('r')
    else if c == '\t' then Some('t')
    else if c == Backspace then Some('b')
    else if c == FormFeed then Some('f')
    else None
  }

  /** `\uXXXX` for one UTF-16 code unit. */
  function UnicodeEscape(n: nat): (e: string)
    requires n < 0x10000
    ensures |e| == 6 && AllPrintable(e) && e[0] == '\\' && e[1] == 'u'
  {
    "\\u" + Hex4(n)
  }

  /** The escape `ensure_ascii` writes for one character: a short escape,
      printable ASCII as itself, `\uXXXX` below U+10000 and a UTF-16
      surrogate pair above. */
  function EscapeChar(c: char): (e: string)
    ensures 1 <= |e| && AllPrintable(e)
    ensures IsPlain(c) ==> e == [c]
    ensures !IsPlain(c) ==> e[0] == '\\'
  {
    if ShortCode(c).Some? then ['\\', ShortCode(c).value]
    else if IsPrintable(c) then [c]
    else if c as int < 0x10000 then UnicodeEscape(c as int)
    else SurrogateEscape(c as int - 0x10000)
  }

  /** The two `\uXXXX` escapes of the UTF-16 surrogate pair for the code
      point U+10000 + `v`. */
  function SurrogateEscape(v: nat): (e: string)
    requires v < 0x100000
    ensures |e| == 12 && AllPrintable(e) && e[0] == '\\'
  {
    UnicodeEscape(0xD800 + v / 0x400) + UnicodeEscape(0xDC00 + v % 0x400)
  }

  /** The body of the literal: every character escaped in turn. */
  function Escape(s: string): (r: string)
    ensures AllPrintable(r)
    ensures |s| <= |r|
  {
    if |s| == 0 then [] else EscapeChar(s[0]) + Escape(s[1..])
  }

  lemma PrintableConcat(a: string, b: string)
    requires AllPrintable(a) && AllPrintable(b)
    ensures AllPrintable(a + b)
  {
    forall i | 0 <= i < |a + b| ensures IsPrintable((a + b)[i]) {
      if i >= |a| {
        assert (a + b)[i] == b[i - |a|];
      }
    }
  }

  /** The literal `json.dumps` writes for a `str`. */
  function Quote(s: string): (r: string)
    ensures AllPrintable(r)
    ensures |r| >= 2 && r[0] == '"' && r[|r| - 1] == '"'
  {
    "\"" + Escape(s) + "\""
  }

  /** The character a short escape `\x` stands for. */
  function ShortEscape(x: char): Option<char> {
    if x == '"' then Some('"')
    else if x == '\\' then Some('\\')
    else if x == '/' then Some('/')
    else if x == 'b' then Some(Backspace)
    else if x == 'f' then Some(FormFeed)
    else if x == 'n' then Some('\n')
    else if x == 'r' then Some('\r')
    else if x == 't' then Some('\t')
    else None
  }

  /** `\uXXXX` starts at `t[i]`. */
  predicate UnicodeEscapeAt(t: string, i: int) {
    0 <= i && i + 6 <= |t| && t[i] == '\\' && t[i + 1] == 'u' && Hex4At(t, i + 2)
  }

  /** One character of a literal's body at the front of `t` (which does not
      start with the closing quote): the character and how many characters
      of `t` it took. Unescaped control characters and unpaired surrogates
      are refused. */
  function DecodeOne(t: string): (r: Option<(char, nat)>)
    requires |t| > 0
    ensures r.Some? ==> 1 <= r.value.1 <= |t|
  {
    if t[0] == '\\' then
      if |t| >= 2 && ShortEscape(t[1]).Some? then Some((ShortEscape(t[1]).value, 2))
      else if UnicodeEscapeAt(t, 0) then
        var n := Hex4Value(t, 2);
        if 0xD800 <= n < 0xDC00 then
          if UnicodeEscapeAt(t, 6) && 0xDC00 <= Hex4Value(t, 8) < 0xE000 then
            var m := Hex4Value(t, 8);
            Some(((0x10000 + (n - 0xD800) * 0x400 + (m - 0xDC00)) as char, 12))
          else None
        else if 0xDC00 <= n < 0xE000 then None
        else Some((n as char, 6))
      else None
    else if t[0] < ' ' then None
    else Some((t[0], 1))
  }

  /** The body of a literal up to its closing quote: the decoded string and
      what follows the quote. */
  function DecodeBody(t: string): Option<(string, string)>
    decreases |t|
  {
    if |t| == 0 then None
    else if t[0] == '"' then Some(([], t[1..]))
    else match DecodeOne(t)
      case None => None
      case Some((c, k)) =>
        match DecodeBody(t[k..])
        case None => None
        case Some((v, rest)) => Some(([c] + v, rest))
  }

  /** A string literal at the front of `t`: its value and the rest of `t`. */
  function ParseString(t: string): Option<(string, string)> {
    if |t| > 0 && t[0] == '"' then DecodeBody(t[1..]) else None
  }

  /** The short escapes read back as the characters they stand for. */
  lemma ShortCodeReads(c: char)
    requires ShortCode(c).Some?
    ensures ShortEscape(ShortCode(c).value) == Some(c)
  {
  }

  /** A `\uXXXX` escape reads back as its code unit, whatever follows. */
  lemma UnicodeEscapeReads(n: nat, tail: string)
    requires n < 0x10000
    ensures UnicodeEscapeAt(UnicodeEscape(n) + tail, 0)
    ensures Hex4Value(UnicodeEscape(n) + tail, 2) == n
  {
    var t := UnicodeEscape(n) + tail;
    forall j | 0 <= j < 4 ensures t[2 + j] == Hex4(n)[j] {
      assert t[2 + j] == UnicodeEscape(n)[2 + j];
    }
    Hex4Reads(n, t, 2);
  }

  /** An escape still reads the same with text in front of it. */
  lemma UnicodeEscapeShift(p: string, t: string)
    requires UnicodeEscapeAt(t, 0)
    ensures UnicodeEscapeAt(p + t, |p|)
    ensures Hex4Value(p + t, |p| + 2) == Hex4Value(t, 2)
  {
    var u := p + t;
    assert u[|p|] == t[0] && u[|p| + 1] == t[1] && u[|p| + 2] == t[2];
    assert u[|p| + 3] == t[3] && u[|p| + 4] == t[4] && u[|p| + 5] == t[5];
  }

  lemma DecodeShort(c: char, tail: string)
    requires ShortCode(c).Some?
    ensures |EscapeChar(c)| == 2 && DecodeOne(EscapeChar(c) + tail) == Some((c, 2))
  {
    var t := EscapeChar(c) + tail;
    assert t[0] == '\\' && t[1] == ShortCode(c).value;
    ShortCodeReads(c);
  }

  lemma DecodeBasic(c: char, tail: string)
    requires ShortCode(c).None? && !IsPrintable(c) && c as int < 0x10000
    ensures |EscapeChar(c)| == 6 && DecodeOne(EscapeChar(c) + tail) == Some((c, 6))
  {
    var t := UnicodeEscape(c as int) + tail;
    assert EscapeChar(c) == UnicodeEscape(c as int);
    assert t[0] == '\\' && t[1] == 'u';
    UnicodeEscapeReads(c as int, tail);
  }

  /** A high surrogate escape followed by a low one reads as the
      character the pair encodes. */
  lemma DecodePair(t: string, hi: nat, lo: nat)
    requires UnicodeEscapeAt(t, 0) && Hex4Value(t, 2) == hi && 0xD800 <= hi < 0xDC00
    requires UnicodeEscapeAt(t, 6) && Hex4Value(t, 8) == lo && 0xDC00 <= lo < 0xE000
    ensures DecodeOne(t) == Some(((0x10000 + (hi - 0xD800) * 0x400 + (lo - 0xDC00)) as char, 12))
  {
    assert ShortEscape(t[1]).None?;
  }

  lemma DecodeSurrogates(hi: nat, lo: nat, tail: string)
    requires 0xD800 <= hi < 0xDC00 && 0xDC00 <= lo < 0xE000
    ensures DecodeOne(UnicodeEscape(hi) + UnicodeEscape(lo) + tail)
            == Some(((0x10000 + (hi - 0xD800) * 0x400 + (lo - 0xDC00)) as char, 12))
  {
    var second := UnicodeEscape(lo) + tail;
    var t := UnicodeEscape(hi) + second;
    assert UnicodeEscape(hi) + UnicodeEscape(lo) + tail == t;
    UnicodeEscapeReads(hi, second);
    UnicodeEscapeReads(lo, tail);
    UnicodeEscapeShift(UnicodeEscape(hi), second);
    DecodePair(t, hi, lo);
  }

  /** The UTF-16 surrogate pair of a code point above U+FFFF: a high and a
      low surrogate that recombine to the code point. */
  lemma SurrogateSplit(v: nat)
    requires v < 0x100000
    ensures 0xD800 <= 0xD800 + v / 0x400 < 0xDC00
    ensures 0xDC00 <= 0xDC00 + v % 0x400 < 0xE000
    ensures 0x10000 + (v / 0x400) * 0x400 + v % 0x400 == 0x10000 + v
  {
  }

  lemma DecodeAstral(v: nat, tail: string)
    requires v < 0x100000
    ensures DecodeOne(SurrogateEscape(v) + tail) == Some(((0x10000 + v) as char, 12))
  {
    SurrogateSplit(v);
    var hi, lo := 0xD800 + v / 0x400, 0xDC00 + v % 0x400;
    var t := UnicodeEscape(hi) + UnicodeEscape(lo) + tail;
    assert SurrogateEscape(v) + tail == t;
    DecodeSurrogates(hi, lo, tail);
    var n := 0x10000 + (hi - 0xD800) * 0x400 + (lo - 0xDC00);
    assert n == 0x10000 + v;
    assert n as char == (0x10000 + v) as char;
  }

  /** The decoder reads one escaped character back, whatever follows. */
  lemma DecodeOneEscape(c: char, tail: string)
    ensures DecodeOne(EscapeChar(c) + tail) == Some((c, |EscapeChar(c)|))
  {
    if ShortCode(c).Some? {
      DecodeShort(c, tail);
    } else if IsPrintable(c) {
      DecodePrintable(c, tail);
    } else if c as int < 0x10000 {
      DecodeBasic(c, tail);
    } else {
      DecodeAstralChar(c, tail);
    }
  }

  lemma DecodePrintable(c: char, tail: string)
    requires ShortCode(c).None? && IsPrintable(c)
    ensures |EscapeChar(c)| == 1 && DecodeOne(EscapeChar(c) + tail) == Some((c, 1))
  {
    assert EscapeChar(c) == [c];
    assert (EscapeChar(c) + tail)[0] == c;
  }

  lemma DecodeAstralChar(c: char, tail: string)
    requires ShortCode(c).None? && !IsPrintable(c) && c as int >= 0x10000
    ensures |EscapeChar(c)| == 12 && DecodeOne(EscapeChar(c) + tail) == Some((c, 12))
  {
    var v := c as int - 0x10000;
    assert EscapeChar(c) == SurrogateEscape(v);
    DecodeAstral(v, tail);
    assert (0x10000 + v) as char == c;
  }

  /** `c` in front of a decoded body. */
  function Cons(c: char, o: Option<(string, string)>): Option<(string, string)> {
    match o
    case None => None
    case Some((v, rest)) => Some(([c] + v, rest))
  }

  /** Decoding steps over one character it can read. */
  lemma DecodeCons(e: string, tail: string, c: char)
    requires 1 <= |e| && e[0] != '"'
    requires DecodeOne(e + tail) == Some((c, |e|))
    ensures DecodeBody(e + tail) == Cons(c, DecodeBody(tail))
  {
    assert (e + tail)[0] == e[0];
    assert (e + tail)[|e|..] == tail;
  }

  /** Decoding an escaped body followed by the closing quote gives the
      string back and leaves the rest alone. */
  lemma {:induction false} DecodeEscaped(s: string, rest: string)
    ensures DecodeBody(Escape(s) + "\"" + rest) == Some((s, rest))
    decreases |s|
  {
    if |s| == 0 {
      var t := Escape(s) + "\"" + rest;
      assert t == "\"" + rest;
      assert t[1..] == rest;
    } else {
      var e := EscapeChar(s[0]);
      var tail := Escape(s[1..]) + "\"" + rest;
      assert Escape(s) == e + Escape(s[1..]);
      Regroup(e, Escape(s[1..]), "\"", rest);
      DecodeOneEscape(s[0], tail);
      assert e[0] != '"';
      DecodeCons(e, tail, s[0]);
      DecodeEscaped(s[1..], rest);
      assert DecodeBody(e + tail) == Some(([s[0]] + s[1..], rest));
      assert [s[0]] + s[1..] == s;
    }
  }

  lemma Regroup<T>(a: seq<T>, b: seq<T>, c: seq<T>, d: seq<T>)
    ensures a + b + c + d == a + (b + c + d)
  {
  }

  /** The literal `Quote` writes parses back to its string, whatever
      follows it. */
  lemma ParseQuoted(s: string, rest: string)
    ensures ParseString(Quote(s) + rest) == Some((s, rest))
  {
    var t := Quote(s) + rest;
    assert t[1..] == Escape(s) + "\"" + rest;
    DecodeEscaped(s, rest);
  }

  /** Distinct strings have distinct literals. */
  lemma QuoteInjective(a: string, b: string)
    ensures Quote(a) == Quote(b) ==> a == b
  {
    ParseQuoted(a, []);
    ParseQuoted(b, []);
    assert Quote(a) + [] == Quote(a);
    assert Quote(b) + [] == Quote(b);
  }

  /** Printable ASCII without quotes or backslashes is written as is. */
  lemma {:induction false} EscapePlain(s: string)
    requires AllPlain(s)
    ensures Escape(s) == s
    decreases |s|
  {
    if |s| > 0 {
      EscapePlain(s[1..]);
      assert [s[0]] + s[1..] == s;
    }
  }
}
