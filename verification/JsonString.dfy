/** JSON strings: how encoding/json escapes them, and how a decoder reads them back. */
module JsonString {
  import opened ByteStrings
  import opened Utf8

  function HexDigit(n: nat): Byte
    requires n < 16
  {
    if n < 10 then 0x30 + n else 0x61 + n - 10
  }

  /** \u00xy */
  function EscapeByte(b: Byte): Bytes
    requires b < 0x80
  {
    [BACKSLASH, 0x75, 0x30, 0x30, HexDigit(b / 16), HexDigit(b % 16)]
  }

  const LINE_SEPARATOR: Bytes := [0xE2, 0x80, 0xA8]
  const PARAGRAPH_SEPARATOR: Bytes := [0xE2, 0x80, 0xA9]

  function EscapeAscii(html: bool, b: Byte): Bytes
    requires b < 0x80
  {
    if b == QUOTE || b == BACKSLASH then [BACKSLASH, b]
    else if b == 0x08 then [BACKSLASH, 0x62]
    else if b == 0x0C then [BACKSLASH, 0x66]
    else if b == 0x0A then [BACKSLASH, 0x6E]
    else if b == 0x0D then [BACKSLASH, 0x72]
    else if b == 0x09 then [BACKSLASH, 0x74]
    else if b < 0x20 || (html && (b == 0x3C || b == 0x3E || b == 0x26)) then EscapeByte(b)
    else [b]
  }

  /** With html, the encoder also escapes <, > and &. */
  function EscapeRune(html: bool, r: Rune): Bytes {
    if |r| == 1 then EscapeAscii(html, r[0])
    else if r == LINE_SEPARATOR then [BACKSLASH, 0x75, 0x32, 0x30, 0x32, 0x38]
    else if r == PARAGRAPH_SEPARATOR then [BACKSLASH, 0x75, 0x32, 0x30, 0x32, 0x39]
    else r
  }

  /** The inside of a JSON string literal; an invalid byte becomes \ufffd. */
  function Escape(html: bool, s: Bytes): Bytes
    decreases |s|
  {
    if s == [] then []
    else if RuneLen(s) == 0 then
      [BACKSLASH, 0x75, 0x66, 0x66, 0x66, 0x64] + Escape(html, s[1..])
    else
      HeadRune(s, []);
      EscapeRune(html, s[..RuneLen(s)]) + Escape(html, s[RuneLen(s)..])
  }

  predicate IsHex(b: Byte) { IsDigit(b) || 0x61 <= b <= 0x66 || 0x41 <= b <= 0x46 }

  function HexValue(b: Byte): (n: nat)
    requires IsHex(b)
    ensures n < 16
  {
    if IsDigit(b) then b - 0x30 else if b >= 0x61 then b - 0x61 + 10 else b - 0x41 + 10
  }

  /** UTF-8 of a code point of the basic multilingual plane, section 3 of RFC 3629. */
  function EncodePoint(c: nat): Bytes
    requires c < 0x10000
  {
    if c < 0x80 then [c]
    else if c < 0x800 then [0xC0 + c / 64, 0x80 + c % 64]
    else [0xE0 + c / 4096, 0x80 + (c / 64) % 64, 0x80 + c % 64]
  }

  /** One escape sequence, as section 7 of RFC 8259 lists them: its text and its length. */
  function ReadEscape(s: Bytes): Option<(Bytes, nat)>
    requires s != [] && s[0] == BACKSLASH
  {
    if |s| < 2 then None
    else if s[1] == QUOTE || s[1] == BACKSLASH || s[1] == 0x2F then Some(([s[1]], 2))
    else if s[1] == 0x62 then Some(([0x08], 2))
    else if s[1] == 0x66 then Some(([0x0C], 2))
    else if s[1] == 0x6E then Some(([0x0A], 2))
    else if s[1] == 0x72 then Some(([0x0D], 2))
    else if s[1] == 0x74 then Some(([0x09], 2))
    else if s[1] == 0x75 && |s| >= 6 && IsHex(s[2]) && IsHex(s[3]) && IsHex(s[4]) && IsHex(s[5]) then
      var c := ((HexValue(s[2]) * 16 + HexValue(s[3])) * 16 + HexValue(s[4])) * 16 + HexValue(s[5]);
      if 0xD800 <= c < 0xE000 then None else Some((EncodePoint(c), 6))
    else None
  }

  /** What a reader has read, and what is left to read. */
  datatype Reading<T> = Failed | Read(value: T, rest: Bytes)

  function Before(text: Bytes, r: Reading<Bytes>): Reading<Bytes> {
    if r.Failed? then Failed else Read(text + r.value, r.rest)
  }

  /** Reads the inside of a string literal up to and including the closing quote. */
  function ReadString(s: Bytes): (r: Reading<Bytes>)
    ensures r.Read? ==> |r.rest| < |s|
    decreases |s|
  {
    if s == [] then Failed
    else if s[0] == QUOTE then Read([], s[1..])
    else if s[0] == BACKSLASH then
      match ReadEscape(s)
      case None => Failed
      case Some((text, n)) => if 0 < n <= |s| then Before(text, ReadString(s[n..])) else Failed
    else if s[0] < 0x20 then Failed
    else Before([s[0]], ReadString(s[1..]))
  }

  lemma BeforeTwice(a: Bytes, b: Bytes, r: Reading<Bytes>)
    ensures Before(a, Before(b, r)) == Before(a + b, r)
    ensures Before([], r) == r
  {
    if r.Read? {
      assert a + (b + r.value) == (a + b) + r.value;
      assert [] + r.value == r.value;
    }
  }

  lemma HexRoundTrip(n: nat)
    requires n < 16
    ensures IsHex(HexDigit(n)) && HexValue(HexDigit(n)) == n
  {
  }

  lemma ReadEscapedByte(b: Byte, rest: Bytes)
    requires b < 0x80
    ensures ReadString(EscapeByte(b) + rest) == Before([b], ReadString(rest))
  {
    var s := EscapeByte(b) + rest;
    HexRoundTrip(b / 16);
    HexRoundTrip(b % 16);
    assert s[0] == BACKSLASH && s[1] == 0x75 && s[2] == 0x30 && s[3] == 0x30;
    assert s[4] == HexDigit(b / 16) && s[5] == HexDigit(b % 16);
    assert ReadEscape(s) == Some(([b], 6));
    assert s[6..] == rest;
  }

  lemma ReadEscapedSeparator(r: Bytes, rest: Bytes)
    requires r == LINE_SEPARATOR || r == PARAGRAPH_SEPARATOR
    ensures IsRune(r) && ReadString(EscapeRune(false, r) + rest) == Before(r, ReadString(rest))
  {
    var s := EscapeRune(false, r) + rest;
    assert s[0] == BACKSLASH && s[1] == 0x75 && s[2] == 0x32 && s[3] == 0x30 && s[4] == 0x32;
    assert s[5] == (if r == LINE_SEPARATOR then 0x38 else 0x39);
    assert ReadEscape(s) == Some((r, 6));
    assert s[6..] == rest;
  }

  /** Bytes that are neither quotes, backslashes nor controls are read as they stand. */
  lemma {:induction false} ReadVerbatim(a: Bytes, rest: Bytes)
    requires forall i | 0 <= i < |a| :: a[i] >= 0x20 && a[i] != QUOTE && a[i] != BACKSLASH
    ensures ReadString(a + rest) == Before(a, ReadString(rest))
  {
    if a == [] {
      assert a + rest == rest;
      BeforeTwice([], [], ReadString(rest));
    } else {
      var s := a + rest;
      assert s[0] == a[0] && s[1..] == a[1..] + rest;
      ReadVerbatim(a[1..], rest);
      BeforeTwice([a[0]], a[1..], ReadString(rest));
      assert [a[0]] + a[1..] == a;
    }
  }

  lemma ReadEscapedRune(html: bool, r: Rune, rest: Bytes)
    ensures ReadString(EscapeRune(html, r) + rest) == Before(r, ReadString(rest))
  {
    var e := EscapeRune(html, r);
    var s := e + rest;
    if |r| == 1 {
      var b := r[0];
      assert r == [b];
      if |e| == 2 {
        assert s[0] == BACKSLASH && s[1] == e[1] && s[2..] == rest;
      } else if |e| == 6 {
        ReadEscapedByte(b, rest);
      } else {
        ReadVerbatim(r, rest);
      }
    } else if r == LINE_SEPARATOR || r == PARAGRAPH_SEPARATOR {
      ReadEscapedSeparator(r, rest);
    } else {
      ReadVerbatim(r, rest);
    }
  }

  /** In front of whatever follows, the escaped text e is read as t. */
  ghost predicate Spells(e: Bytes, t: Bytes) {
    forall rest {:trigger ReadString(e + rest)} :: ReadString(e + rest) == Before(t, ReadString(rest))
  }

  lemma SpellsAt(e: Bytes, t: Bytes, rest: Bytes)
    requires Spells(e, t)
    ensures ReadString(e + rest) == Before(t, ReadString(rest))
  {
  }

  lemma SpellsNothing()
    ensures Spells([], [])
  {
    forall rest
      ensures ReadString([] + rest) == Before([], ReadString(rest))
    {
      assert [] + rest == rest;
      BeforeTwice([], [], ReadString(rest));
    }
  }

  lemma SpellsThenAt(e1: Bytes, t1: Bytes, e2: Bytes, t2: Bytes, rest: Bytes)
    requires Spells(e1, t1) && Spells(e2, t2)
    ensures ReadString(e1 + e2 + rest) == Before(t1 + t2, ReadString(rest))
  {
    Associate(e1, e2, rest);
    SpellsAt(e1, t1, e2 + rest);
    SpellsAt(e2, t2, rest);
    BeforeTwice(t1, t2, ReadString(rest));
  }

  lemma SpellsThen(e1: Bytes, t1: Bytes, e2: Bytes, t2: Bytes)
    requires Spells(e1, t1) && Spells(e2, t2)
    ensures Spells(e1 + e2, t1 + t2)
  {
    forall rest
      ensures ReadString(e1 + e2 + rest) == Before(t1 + t2, ReadString(rest))
    {
      SpellsThenAt(e1, t1, e2, t2, rest);
    }
  }

  lemma EscapedRuneSpells(html: bool, r: Rune)
    ensures Spells(EscapeRune(html, r), r)
  {
    forall rest
      ensures ReadString(EscapeRune(html, r) + rest) == Before(r, ReadString(rest))
    {
      ReadEscapedRune(html, r, rest);
    }
  }

  /** Reading inverts escaping, whatever follows the escaped text. */
  lemma {:induction false} EscapedSpells(html: bool, s: Bytes)
    requires Valid(s)
    ensures Spells(Escape(html, s), s)
    decreases |s|
  {
    if s == [] {
      SpellsNothing();
    } else {
      HeadRune(s, []);
      var r: Rune, t := s[..RuneLen(s)], s[RuneLen(s)..];
      assert s == r + t;
      EscapeThen(html, r, t);
      EscapedRuneSpells(html, r);
      EscapedSpells(html, t);
      SpellsThen(EscapeRune(html, r), r, Escape(html, t), t);
    }
  }

  /** Escaping goes rune by rune. */
  lemma EscapeThen(html: bool, r: Rune, t: Bytes)
    ensures Escape(html, r + t) == EscapeRune(html, r) + Escape(html, t)
  {
    RuneThen(r, t);
  }

  lemma {:induction false} EscapeAppend(html: bool, a: Bytes, b: Bytes)
    requires Valid(a)
    ensures Escape(html, a + b) == Escape(html, a) + Escape(html, b)
    decreases |a|
  {
    if a == [] {
      assert a + b == b;
    } else {
      HeadRune(a, []);
      var r: Rune, t := a[..RuneLen(a)], a[RuneLen(a)..];
      assert a == r + t && a + b == r + (t + b);
      EscapeAppend(html, t, b);
      EscapeThen(html, r, t);
      EscapeThen(html, r, t + b);
      Associate(EscapeRune(html, r), Escape(html, t), Escape(html, b));
    }
  }

  /** Escaping never shortens a rune, and changes it exactly when it lengthens it. */
  lemma EscapeRuneGrows(html: bool, r: Rune)
    ensures |EscapeRune(html, r)| >= |r|
    ensures |EscapeRune(html, r)| == |r| <==> EscapeRune(html, r) == r
  {
  }

  lemma GrowsTogether(e: Bytes, r: Bytes, f: Bytes, t: Bytes)
    requires |e| >= |r| && (|e| == |r| <==> e == r) && |f| >= |t| && (|f| == |t| <==> f == t)
    ensures |e + f| >= |r + t| && (|e + f| == |r + t| <==> e + f == r + t)
  {
  }

  lemma {:induction false} EscapeGrows(html: bool, s: Bytes)
    ensures |Escape(html, s)| >= |s|
    ensures |Escape(html, s)| == |s| <==> Escape(html, s) == s
    decreases |s|
  {
    if s == [] {
    } else {
      var n := RuneLen(s);
      if n == 0 {
        EscapeGrows(html, s[1..]);
      } else {
        HeadRune(s, []);
        var r: Rune, t := s[..n], s[n..];
        assert s == r + t;
        EscapeThen(html, r, t);
        EscapeRuneGrows(html, r);
        EscapeGrows(html, t);
        GrowsTogether(EscapeRune(html, r), r, Escape(html, t), t);
      }
    }
  }

  // ---------------------------------------------------------------- what escaping leaves

  const LESS: Byte := 0x3C
  const GREATER: Byte := 0x3E
  const AMPERSAND: Byte := 0x26

  /** Control characters never stand in a literal, and with html neither do <, > and &. */
  predicate Plain(html: bool, b: Byte) { b >= 0x20 && (html ==> b !in {LESS, GREATER, AMPERSAND}) }

  predicate AllPlain(html: bool, s: Bytes) { forall i | 0 <= i < |s| :: Plain(html, s[i]) }

  lemma RunePlain(html: bool, r: Rune)
    ensures AllPlain(html, EscapeRune(html, r))
  {
    if |r| > 1 { RuneBytes(r); }
  }

  /** Nothing a page could read as markup is left in what is spliced into a response. */
  lemma {:induction false} EscapedPlain(html: bool, s: Bytes)
    ensures AllPlain(html, Escape(html, s))
    decreases |s|
  {
    if s == [] {
    } else if RuneLen(s) == 0 {
      EscapedPlain(html, s[1..]);
    } else {
      HeadRune(s, []);
      RunePlain(html, s[..RuneLen(s)]);
      EscapedPlain(html, s[RuneLen(s)..]);
    }
  }

  /** The printer leaves these three as they are. */
  lemma MarkupUnescaped(b: Byte)
    requires b in {LESS, GREATER, AMPERSAND}
    ensures Escape(false, [b]) == [b]
    ensures Escape(true, [b]) == EscapeByte(b)
  {
    RuneLenIs([b], 1);
    EscapeThen(false, [b], []);
    EscapeThen(true, [b], []);
    assert [b] + [] == [b];
  }
}
