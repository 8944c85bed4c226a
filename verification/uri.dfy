/** JavaScript's `encodeURIComponent` and `decodeURIComponent` (the URI
    handling functions of section 19.2.6 of ECMA-262) on strings of Unicode
    scalar values: every character outside the unreserved set becomes the
    `%XY` escapes of its UTF-8 bytes, upper-case hex. */
module UriComponent {
  import opened Wrappers

  /** The characters `encodeURIComponent` leaves alone: ASCII letters,
      digits and the marks `- _ . ! ~ * ' ( )`. */
  predicate Unreserved(c: char) {
    ('A' <= c <= 'Z') || ('a' <= c <= 'z') || ('0' <= c <= '9')
    || c == '-' || c == '_' || c == '.' || c == '!' || c == '~' || c == '*'
    || c == '\'' || c == '(' || c == ')'
  }

  type Byte = b: int | 0 <= b < 256

  /** The UTF-8 bytes of one scalar value (section 3.9 of the Unicode
      standard, table 3-6). */
  function Utf8(c: char): (r: seq<Byte>)
    ensures 1 <= |r| <= 4
    ensures (|r| == 1) <==> (c as int < 0x80)
  {
    var cp := c as int;
    if cp < 0x80 then [cp]
    else if cp < 0x800 then [0xC0 + cp / 64, 0x80 + cp % 64]
    else if cp < 0x10000 then [0xE0 + cp / 4096, 0x80 + (cp / 64) % 64, 0x80 + cp % 64]
    else [0xF0 + cp / 262144, 0x80 + (cp / 4096) % 64, 0x80 + (cp / 64) % 64, 0x80 + cp % 64]
  }

  function HexDigit(n: int): (r: char)
    requires 0 <= n < 16
    ensures Unreserved(r)
  {
    if n < 10 then ('0' as int + n) as char else ('A' as int + n - 10) as char
  }

  /** The value of a hex digit of either case. */
  function HexValue(c: char): (r: Option<int>)
    ensures r.Some? ==> 0 <= r.value < 16
    ensures r.Some? <==> ('0' <= c <= '9') || ('A' <= c <= 'F') || ('a' <= c <= 'f')
  {
    if '0' <= c <= '9' then Some(c as int - '0' as int)
    else if 'A' <= c <= 'F' then Some(c as int - 'A' as int + 10)
    else if 'a' <= c <= 'f' then Some(c as int - 'a' as int + 10)
    else None
  }

  lemma HexDigitValue(n: int)
    requires 0 <= n < 16
    ensures HexValue(HexDigit(n)) == Some(n)
  {
  }

  /** `%XY` for one byte. */
  function Escape(b: Byte): (r: string)
    ensures |r| == 3 && r[0] == '%'
  {
    ['%', HexDigit(b / 16), HexDigit(b % 16)]
  }

  function Escapes(bs: seq<Byte>): (r: string)
    ensures |r| == 3 * |bs|
    ensures forall i :: 0 <= i < |r| ==> Unreserved(r[i]) || r[i] == '%'
  {
    if bs == [] then [] else Escape(bs[0]) + Escapes(bs[1..])
  }

  function EncodeChar(c: char): (r: string)
    ensures r != []
    ensures forall i :: 0 <= i < |r| ==> Unreserved(r[i]) || r[i] == '%'
    ensures Unreserved(c) <==> r == [c]
  {
    if Unreserved(c) then [c] else Escapes(Utf8(c))
  }

  /** `encodeURIComponent(s)`. */
  function Encode(s: string): (r: string)
    ensures |s| <= |r|
    ensures forall i :: 0 <= i < |r| ==> Unreserved(r[i]) || r[i] == '%'
    ensures (forall i :: 0 <= i < |s| ==> Unreserved(s[i])) ==> r == s
  {
    if s == [] then [] else EncodeChar(s[0]) + Encode(s[1..])
  }

  /** An encoded component cannot end the query parameter it is put in:
      no `&`, `#`, `=` or space survives. */
  lemma EncodeEndsNoParameter(s: string)
    ensures var r := Encode(s); '&' !in r && '#' !in r && '=' !in r && ' ' !in r
  {
    var r := Encode(s);
    forall i | 0 <= i < |r| ensures r[i] != '&' && r[i] != '#' && r[i] != '=' && r[i] != ' ' {
      assert Unreserved(r[i]) || r[i] == '%';
    }
  }

  /** The byte a well-formed `%XY` at the front of `s` denotes. */
  function FrontByte(s: string): (r: Option<Byte>)
    ensures r.Some? ==> 3 <= |s| && s[0] == '%'
  {
    if 3 <= |s| && s[0] == '%' && HexValue(s[1]).Some? && HexValue(s[2]).Some? then
      Some(16 * HexValue(s[1]).value + HexValue(s[2]).value)
    else None
  }

  /** How many bytes a UTF-8 sequence starting with `b` has; 0 for a byte
      that cannot start one. */
  function LeadLength(b: int): (n: nat)
    ensures n == 0 || 1 <= n <= 4
  {
    if 0 <= b < 0x80 then 1
    else if 0xC0 <= b < 0xE0 then 2
    else if 0xE0 <= b < 0xF0 then 3
    else if 0xF0 <= b < 0xF8 then 4
    else 0
  }

  /** The `count` continuation bytes escaped at the front of `s`, each of
      the form `10xxxxxx`. */
  function Continuations(s: string, count: nat): (r: Option<seq<Byte>>)
    ensures r.Some? ==> |r.value| == count && 3 * count <= |s|
    ensures r.Some? ==> forall k :: 0 <= k < count ==> 0x80 <= r.value[k] < 0xC0
    decreases count
  {
    if count == 0 then Some([])
    else match FrontByte(s)
      case None => None
      case Some(b) =>
        if !(0x80 <= b < 0xC0) then None
        else match Continuations(s[3..], count - 1)
          case None => None
          case Some(rest) => Some([b] + rest)
  }

  /** The code point a lead byte and its continuation bytes spell. */
  function Assemble(lead: Byte, conts: seq<Byte>): int
    requires 1 <= |conts| <= 3
  {
    var low := seq(|conts|, k requires 0 <= k < |conts| => conts[k] as int - 0x80);
    if |conts| == 1 then (lead as int - 0xC0) * 64 + low[0]
    else if |conts| == 2 then (lead as int - 0xE0) * 4096 + low[0] * 64 + low[1]
    else (lead as int - 0xF0) * 262144 + low[0] * 4096 + low[1] * 64 + low[2]
  }

  /** A code point an `n`-byte sequence may spell: not overlong, not a
      surrogate, at most U+10FFFF. */
  predicate Shortest(n: nat, cp: int) {
    if n == 2 then 0x80 <= cp < 0x800
    else if n == 3 then 0x800 <= cp < 0x10000 && !(0xD800 <= cp < 0xE000)
    else n == 4 && 0x10000 <= cp < 0x110000
  }

  function Prepend(c: char, rest: Option<string>): Option<string> {
    if rest.None? then None else Some([c] + rest.value)
  }

  /** The character a `%`-escaped UTF-8 sequence with lead byte `b` at the
      front of `s` spells, and how many characters of `s` it spans; `None`
      for a byte that cannot start a sequence, a missing or malformed
      continuation byte, or bytes that spell no scalar value. */
  function Sequence(s: string, b: Byte): (r: Option<(char, nat)>)
    requires 3 <= |s|
    ensures r.Some? ==> 3 <= r.value.1 <= |s|
  {
    var n := LeadLength(b);
    if n == 0 then None
    else if n == 1 then Some((b as char, 3))
    else match Continuations(s[3..], n - 1)
      case None => None
      case Some(conts) =>
        var cp := Assemble(b, conts);
        if !Shortest(n, cp) then None else Some((cp as char, 3 * n))
  }

  /** `decodeURIComponent(s)`; `None` where JavaScript throws `URIError`: a
      `%` not followed by two hex digits or not starting a well-formed
      UTF-8 sequence. */
  function Decode(s: string): (r: Option<string>)
    ensures r.Some? ==> |r.value| <= |s|
    ensures (forall i :: 0 <= i < |s| ==> s[i] != '%') ==> r == Some(s)
    decreases |s|
  {
    if s == [] then Some([])
    else if s[0] != '%' then
      assert s == [s[0]] + s[1..];
      Prepend(s[0], Decode(s[1..]))
    else match FrontByte(s)
      case None => None
      case Some(b) =>
        match Sequence(s, b)
        case None => None
        case Some((c, used)) => Prepend(c, Decode(s[used..]))
  }

  /** An escaped byte reads back as itself, and the text after it follows. */
  lemma EscapeFront(b: Byte, rest: string)
    ensures FrontByte(Escape(b) + rest) == Some(b)
    ensures (Escape(b) + rest)[3..] == rest
  {
    HexDigitValue(b / 16);
    HexDigitValue(b % 16);
  }

  /** Escaped continuation bytes read back as themselves. */
  lemma {:induction false} ReadContinuations(bs: seq<Byte>, rest: string)
    requires forall k :: 0 <= k < |bs| ==> 0x80 <= bs[k] < 0xC0
    ensures Continuations(Escapes(bs) + rest, |bs|) == Some(bs)
    decreases |bs|
  {
    if bs != [] {
      var tail := Escapes(bs[1..]) + rest;
      assert Escapes(bs) + rest == Escape(bs[0]) + tail;
      EscapeFront(bs[0], tail);
      ReadContinuations(bs[1..], rest);
      assert bs == [bs[0]] + bs[1..];
    }
  }

  lemma Utf8Two(cp: int)
    requires 0x80 <= cp < 0x800
    ensures 0xC0 <= 0xC0 + cp / 64 < 0xE0
    ensures (0xC0 + cp / 64 - 0xC0) * 64 + (0x80 + cp % 64 - 0x80) == cp
  {
  }

  lemma Utf8Three(cp: int)
    requires 0x800 <= cp < 0x10000
    ensures 0xE0 <= 0xE0 + cp / 4096 < 0xF0
    ensures (0xE0 + cp / 4096 - 0xE0) * 4096 + ((cp / 64) % 64) * 64 + cp % 64 == cp
  {
    assert cp == (cp / 64) * 64 + cp % 64;
    assert cp / 64 == (cp / 4096) * 64 + (cp / 64) % 64;
  }

  lemma Utf8Four(cp: int)
    requires 0x10000 <= cp < 0x110000
    ensures 0xF0 <= 0xF0 + cp / 262144 < 0xF8
    ensures (0xF0 + cp / 262144 - 0xF0) * 262144 + ((cp / 4096) % 64) * 4096 + ((cp / 64) % 64) * 64 + cp % 64 == cp
  {
    assert cp == (cp / 64) * 64 + cp % 64;
    assert cp / 64 == (cp / 4096) * 64 + (cp / 64) % 64;
    assert cp / 4096 == (cp / 262144) * 64 + (cp / 4096) % 64;
  }

  /** Reading a character's UTF-8 bytes back yields its code point. */
  lemma Utf8Assembles(c: char)
    requires c as int >= 0x80
    ensures var bs := Utf8(c);
      && LeadLength(bs[0]) == |bs|
      && (forall k :: 1 <= k < |bs| ==> 0x80 <= bs[k] < 0xC0)
      && Assemble(bs[0], bs[1..]) == c as int
      && Shortest(|bs|, c as int)
  {
    var cp := c as int;
    if cp < 0x800 {
      Utf8Two(cp);
    } else if cp < 0x10000 {
      Utf8Three(cp);
    } else {
      Utf8Four(cp);
    }
  }

  /** The text after a run of escapes is what followed it. */
  lemma AfterEscapes(bs: seq<Byte>, rest: string)
    ensures (Escapes(bs) + rest)[3 * |bs|..] == rest
  {
  }

  /** Decoding reads an escaped lead byte and its escaped continuation
      bytes back as the code point they spell. */
  lemma DecodeLead(b: Byte, conts: seq<Byte>, rest: string)
    requires 2 <= LeadLength(b) == |conts| + 1
    requires forall k :: 0 <= k < |conts| ==> 0x80 <= conts[k] < 0xC0
    requires Shortest(LeadLength(b), Assemble(b, conts))
    ensures Decode(Escape(b) + (Escapes(conts) + rest)) == Prepend(Assemble(b, conts) as char, Decode(rest))
  {
    var tail := Escapes(conts) + rest;
    var s := Escape(b) + tail;
    EscapeFront(b, tail);
    ReadContinuations(conts, rest);
    AfterEscapes(conts, rest);
    assert s[3 * LeadLength(b)..] == rest by {
      assert s[3 * LeadLength(b)..] == tail[3 * |conts|..];
    }
    DecodeStep(s, b, conts);
  }

  /** One step of the decoder over a well-formed multi-byte sequence. */
  lemma DecodeStep(s: string, b: Byte, conts: seq<Byte>)
    requires s != [] && s[0] == '%'
    requires FrontByte(s) == Some(b) && LeadLength(b) >= 2
    requires Continuations(s[3..], LeadLength(b) - 1) == Some(conts)
    requires Shortest(LeadLength(b), Assemble(b, conts))
    ensures Decode(s) == Prepend(Assemble(b, conts) as char, Decode(s[3 * LeadLength(b)..]))
  {
    assert Sequence(s, b) == Some((Assemble(b, conts) as char, 3 * LeadLength(b)));
  }

  /** Decoding undoes the escape of a character below U+0080. */
  lemma DecodeAsciiEscape(c: char, rest: string)
    requires c as int < 0x80
    ensures Decode(Escape(c as int) + rest) == Prepend(c, Decode(rest))
  {
    EscapeFront(c as int, rest);
  }

  /** A reserved character below U+0080 is a single escape. */
  lemma EncodeAscii(c: char)
    requires !Unreserved(c) && c as int < 0x80
    ensures EncodeChar(c) == Escape(c as int)
  {
    assert Utf8(c) == [c as int];
  }

  /** Decoding reads the escapes of a well-formed multi-byte sequence back
      as the code point it spells. */
  lemma DecodeBytes(bs: seq<Byte>, cp: int, rest: string)
    requires 2 <= |bs| <= 4
    requires LeadLength(bs[0]) == |bs|
    requires forall k :: 1 <= k < |bs| ==> 0x80 <= bs[k] < 0xC0
    requires Assemble(bs[0], bs[1..]) == cp && Shortest(|bs|, cp)
    ensures Decode(Escapes(bs) + rest) == Prepend(cp as char, Decode(rest))
  {
    assert Escapes(bs) + rest == Escape(bs[0]) + (Escapes(bs[1..]) + rest);
    DecodeLead(bs[0], bs[1..], rest);
  }

  /** Decoding undoes the escapes of a character from U+0080 on. */
  lemma DecodeMultiByte(c: char, rest: string)
    requires c as int >= 0x80
    ensures Decode(EncodeChar(c) + rest) == Prepend(c, Decode(rest))
  {
    assert !Unreserved(c);
    Utf8Assembles(c);
    DecodeBytes(Utf8(c), c as int, rest);
  }

  /** A character other than `%` decodes as itself. */
  lemma DecodePlain(c: char, rest: string)
    requires Unreserved(c)
    ensures Decode(EncodeChar(c) + rest) == Prepend(c, Decode(rest))
  {
    assert EncodeChar(c) + rest == [c] + rest;
    assert ([c] + rest)[1..] == rest;
  }

  /** Decoding undoes the encoding of one character. */
  lemma {:induction false} DecodeChar(c: char, rest: string)
    ensures Decode(EncodeChar(c) + rest) == Prepend(c, Decode(rest))
  {
    if Unreserved(c) {
      DecodePlain(c, rest);
    } else if c as int < 0x80 {
      EncodeAscii(c);
      DecodeAsciiEscape(c, rest);
    } else {
      DecodeMultiByte(c, rest);
    }
  }

  /** `decodeURIComponent(encodeURIComponent(s)) === s`: the encoding loses
      nothing. */
  lemma {:induction false} DecodeEncode(s: string)
    ensures Decode(Encode(s)) == Some(s)
    decreases |s|
  {
    if s != [] {
      DecodeEncode(s[1..]);
      DecodeChar(s[0], Encode(s[1..]));
      assert [s[0]] + s[1..] == s;
    }
  }
}
