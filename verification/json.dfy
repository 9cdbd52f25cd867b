/**
 The slice of JSON (RFC 8259) the second tracker stores in `localStorage`:
 an object whose members are all strings. `Encode` writes it the way
 `JSON.stringify` does; `Decode` reads it back the way `JSON.parse` does,
 for every text of that shape (whitespace between tokens included) and
 returns `None` for any other text.
 */
module Json {
  import opened Base
  import opened Text

  /** The members of a flat object, in text order. */
  type Members = seq<(string, string)>

  // ---- writing ----

  const Backspace: char := 8 as char
  const FormFeed: char := 12 as char

  /** One character of a string as `JSON.stringify` writes it. */
  function EscapeChar(c: char): (r: string)
    ensures |r| >= 1
  {
    if c == '"' then "\\\""
    else if c == '\\' then "\\\\"
    else if c == Backspace then "\\b"
    else if c == '\t' then "\\t"
    else if c == '\n' then "\\n"
    else if c == FormFeed then "\\f"
    else if c == '\r' then "\\r"
    else if (c as int) < 0x20 then "\\u00" + [HexChar((c as int) / 16), HexChar((c as int) % 16)]
    else [c]
  }

  function Escape(s: string): string
    decreases |s|
  {
    if |s| == 0 then "" else EscapeChar(s[0]) + Escape(s[1..])
  }

  /** `JSON.stringify(s)` for a string. */
  function Quote(s: string): string
  {
    "\"" + Escape(s) + "\""
  }

  function EncodeMember(m: (string, string)): string
  {
    Quote(m.0) + ":" + Quote(m.1)
  }

  function EncodeMembers(ms: Members): string
    decreases |ms|
  {
    if |ms| == 0 then ""
    else if |ms| == 1 then EncodeMember(ms[0])
    else EncodeMember(ms[0]) + "," + EncodeMembers(ms[1..])
  }

  /** `JSON.stringify(obj)` for an object whose members are all strings. */
  function Encode(ms: Members): string
  {
    "{" + EncodeMembers(ms) + "}"
  }

  // ---- reading ----

  predicate IsWhitespace(c: char)
  {
    c == ' ' || c == '\t' || c == '\n' || c == '\r'
  }

  /** The text after any leading whitespace. */
  function SkipWs(s: string): (r: string)
    ensures |r| <= |s|
    ensures |r| > 0 ==> !IsWhitespace(r[0])
    decreases |s|
  {
    if |s| > 0 && IsWhitespace(s[0]) then SkipWs(s[1..]) else s
  }

  predicate IsHexDigit(c: char)
  {
    IsDigit(c) || 'a' <= c <= 'f' || 'A' <= c <= 'F'
  }

  function HexValue(c: char): (d: nat)
    requires IsHexDigit(c)
    ensures d < 16
  {
    if IsDigit(c) then DigitValue(c)
    else if 'a' <= c <= 'f' then (c as int) - ('a' as int) + 10
    else (c as int) - ('A' as int) + 10
  }

  /** The UTF-16 code unit named by the four hex digits of a `\u` escape. */
  function CodeUnit(h: string): (r: Option<nat>)
    requires |h| == 4
    ensures r.Some? <==> IsHexDigit(h[0]) && IsHexDigit(h[1]) && IsHexDigit(h[2]) && IsHexDigit(h[3])
    ensures r.Some? ==> r.value < 0x10000
  {
    if !(IsHexDigit(h[0]) && IsHexDigit(h[1]) && IsHexDigit(h[2]) && IsHexDigit(h[3])) then None
    else Some(4096 * HexValue(h[0]) + 256 * HexValue(h[1]) + 16 * HexValue(h[2]) + HexValue(h[3]))
  }

  predicate IsHighSurrogate(n: nat) { 0xD800 <= n < 0xDC00 }

  predicate IsLowSurrogate(n: nat) { 0xDC00 <= n < 0xE000 }

  /** The character a `\u` escape names on its own: any code unit that is not half of a surrogate pair. */
  function UnitEscape(h: string): (r: Option<char>)
    requires |h| == 4
    ensures r.Some? <==> CodeUnit(h).Some? && !IsHighSurrogate(CodeUnit(h).value) && !IsLowSurrogate(CodeUnit(h).value)
    ensures r.Some? ==> r.value as int == CodeUnit(h).value
  {
    match CodeUnit(h)
    case None => None
    case Some(n) => if 0xD800 <= n < 0xE000 then None else Some(n as char)
  }

  /** The two UTF-16 code units that stand for a character above U+FFFF. */
  function HighHalf(c: char): nat
    requires 0x10000 <= c as int
  {
    0xD800 + (c as int - 0x10000) / 0x400
  }

  function LowHalf(c: char): nat
    requires 0x10000 <= c as int
  {
    0xDC00 + (c as int - 0x10000) % 0x400
  }

  /**
   The character two `\u` escapes name together: a high surrogate followed
   by a low one make up one character above U+FFFF, whose halves they are.
   */
  function PairEscape(hi: string, lo: string): (r: Option<char>)
    requires |hi| == 4 && |lo| == 4
    ensures r.Some? <==> CodeUnit(hi).Some? && CodeUnit(lo).Some? && IsHighSurrogate(CodeUnit(hi).value) && IsLowSurrogate(CodeUnit(lo).value)
    ensures r.Some? ==> 0x10000 <= r.value as int && HighHalf(r.value) == CodeUnit(hi).value && LowHalf(r.value) == CodeUnit(lo).value
  {
    match CodeUnit(hi)
    case None => None
    case Some(h) =>
      match CodeUnit(lo)
      case None => None
      case Some(l) =>
        if IsHighSurrogate(h) && IsLowSurrogate(l) then
          var n := 0x10000 + (h - 0xD800) * 0x400 + (l - 0xDC00);
          assert n < 0x110000;
          Some(n as char)
        else None
  }

  /** The character a one-letter escape stands for. */
  function ShortEscape(c: char): Option<char>
  {
    if c == '"' then Some('"')
    else if c == '\\' then Some('\\')
    else if c == '/' then Some('/')
    else if c == 'b' then Some(Backspace)
    else if c == 'f' then Some(FormFeed)
    else if c == 'n' then Some('\n')
    else if c == 'r' then Some('\r')
    else if c == 't' then Some('\t')
    else None
  }

  function Prepend(c: char, p: Option<(string, string)>): Option<(string, string)>
  {
    match p
    case None => None
    case Some((v, rest)) => Some(([c] + v, rest))
  }

  /** The rest of a string literal after its opening quote: its value and the text after the closing quote. */
  function ParseChars(s: string): (r: Option<(string, string)>)
    ensures r.Some? ==> |r.value.1| < |s|
    decreases |s|
  {
    if |s| == 0 then None
    else if s[0] == '"' then Some(("", s[1..]))
    else if s[0] == '\\' then
      if |s| < 2 then None
      else if s[1] == 'u' then
        if |s| < 6 then None
        else match UnitEscape(s[2..6])
          case Some(c) => Prepend(c, ParseChars(s[6..]))
          case None =>
            if |s| < 12 || s[6..8] != "\\u" then None
            else match PairEscape(s[2..6], s[8..12])
              case None => None
              case Some(c) => Prepend(c, ParseChars(s[12..]))
      else match ShortEscape(s[1])
        case None => None
        case Some(c) => Prepend(c, ParseChars(s[2..]))
    else if (s[0] as int) < 0x20 then None
    else Prepend(s[0], ParseChars(s[1..]))
  }

  /** A string literal at the start of `s`. */
  function ParseString(s: string): (r: Option<(string, string)>)
    ensures r.Some? ==> |r.value.1| < |s|
  {
    if |s| > 0 && s[0] == '"' then ParseChars(s[1..]) else None
  }

  /** `"key" : "value"` after optional whitespace. */
  function ParseMember(s: string): (r: Option<((string, string), string)>)
    ensures r.Some? ==> |r.value.1| < |s|
  {
    match ParseString(SkipWs(s))
    case None => None
    case Some((k, r1)) =>
      var t := SkipWs(r1);
      if |t| == 0 || t[0] != ':' then None
      else match ParseString(SkipWs(t[1..]))
        case None => None
        case Some((v, r2)) => Some(((k, v), r2))
  }

  /** Members up to and including the closing brace. */
  function ParseMembers(s: string): (r: Option<(Members, string)>)
    ensures r.Some? ==> |r.value.1| < |s|
    decreases |s|
  {
    match ParseMember(s)
    case None => None
    case Some((m, r1)) =>
      var t := SkipWs(r1);
      if |t| == 0 then None
      else if t[0] == '}' then Some(([m], t[1..]))
      else if t[0] == ',' then
        match ParseMembers(t[1..])
        case None => None
        case Some((ms, r2)) => Some(([m] + ms, r2))
      else None
  }

  /** An object at the start of `s` (after optional whitespace), and the text after its closing brace. */
  function ParseObject(s: string): Option<(Members, string)>
  {
    var t := SkipWs(s);
    if |t| == 0 || t[0] != '{' then None
    else
      var u := SkipWs(t[1..]);
      if |u| > 0 && u[0] == '}' then Some(([], u[1..]))
      else ParseMembers(u)
  }

  /** `JSON.parse(text)` when the text is an object of string members; `None` for any other text. */
  function Decode(text: string): Option<Members>
  {
    match ParseObject(text)
    case None => None
    case Some((ms, rest)) => if SkipWs(rest) == "" then Some(ms) else None
  }

  /** The text `null` (whitespace around it allowed), which `JSON.parse` reads as the value `null`. */
  predicate IsNullLiteral(text: string)
  {
    var t := SkipWs(text);
    |t| >= 4 && t[..4] == "null" && SkipWs(t[4..]) == ""
  }

  /** A `null` text is no object: the object reader rejects it. */
  lemma NullIsNoObject(text: string)
    requires IsNullLiteral(text)
    ensures Decode(text).None?
  {
    assert SkipWs(text)[0] == "null"[0];
  }

  /** What `JSON.stringify` writes for an object is never the text `null`. */
  lemma EncodedNotNull(ms: Members)
    ensures Encode(ms) != "" && !IsNullLiteral(Encode(ms))
  {
    var e := Encode(ms);
    assert e[0] == '{';
    assert SkipWs(e) == e;
  }

  /** `obj[key]` after `JSON.parse`: the LAST member with that key wins. */
  function MemberValue(ms: Members, key: string): (r: Option<string>)
    ensures r.None? <==> forall k :: 0 <= k < |ms| ==> ms[k].0 != key
    ensures r.Some? ==> exists k :: 0 <= k < |ms| && ms[k] == (key, r.value)
    decreases |ms|
  {
    if |ms| == 0 then None
    else if ms[|ms| - 1].0 == key then Some(ms[|ms| - 1].1)
    else MemberValue(ms[..|ms| - 1], key)
  }

  // ---- reading back what was written ----

  lemma HexRoundTrip(d: nat)
    requires d < 16
    ensures IsHexDigit(HexChar(d)) && HexValue(HexChar(d)) == d
  {
    var h := "0123456789abcdef";
    assert HexChar(d) == h[d];
    if d < 10 {
      assert h[d] as int == '0' as int + d;
    } else {
      assert h[d] as int == 'a' as int + d - 10;
    }
  }

  /** The four hex digits `JSON.stringify` writes for a control character name that character. */
  lemma UnitEscapeOfControl(c: char)
    requires (c as int) < 0x20
    ensures UnitEscape(['0', '0', HexChar((c as int) / 16), HexChar((c as int) % 16)]) == Some(c)
  {
    HexRoundTrip((c as int) / 16);
    HexRoundTrip((c as int) % 16);
  }

  /** Four lower-case hex digits naming a code unit, which read back as that unit. */
  function Hex4(n: nat): (h: string)
    requires n < 0x10000
    ensures |h| == 4 && CodeUnit(h) == Some(n)
  {
    var q1 := n / 16;
    var q2 := q1 / 16;
    var a, b, c, d := q2 / 16, q2 % 16, q1 % 16, n % 16;
    assert n == 16 * q1 + d && q1 == 16 * q2 + c && q2 == 16 * a + b;
    HexRoundTrip(a);
    HexRoundTrip(b);
    HexRoundTrip(c);
    HexRoundTrip(d);
    [HexChar(a), HexChar(b), HexChar(c), HexChar(d)]
  }

  /** A character above U+FFFF written as two `\u` escapes of its halves reads back as that one character. */
  lemma PairStep(c: char, t: string)
    requires 0x10000 <= c as int
    ensures ParseChars("\\u" + Hex4(HighHalf(c)) + "\\u" + Hex4(LowHalf(c)) + t) == Prepend(c, ParseChars(t))
  {
    var hi, lo := Hex4(HighHalf(c)), Hex4(LowHalf(c));
    PairSlices(hi, lo, t);
    assert UnitEscape(hi).None?;
    HalvesDetermine(PairEscape(hi, lo).value, c);
  }

  lemma PairSlices(hi: string, lo: string, t: string)
    requires |hi| == 4 && |lo| == 4
    ensures var s := "\\u" + hi + "\\u" + lo + t;
      s[0] == '\\' && s[1] == 'u' && s[2..6] == hi && s[6..8] == "\\u" && s[8..12] == lo && s[12..] == t
  {
  }

  /** A character above U+FFFF is determined by its two halves. */
  lemma HalvesDetermine(c: char, d: char)
    requires 0x10000 <= c as int && 0x10000 <= d as int
    requires HighHalf(c) == HighHalf(d) && LowHalf(c) == LowHalf(d)
    ensures c == d
  {
    var x, y := c as int - 0x10000, d as int - 0x10000;
    assert x == 0x400 * (x / 0x400) + x % 0x400;
    assert y == 0x400 * (y / 0x400) + y % 0x400;
  }

  /** The escapes `\uD83D\uDE00` together name the one character U+1F600. */
  lemma PairExample()
    ensures ParseString("\"\\uD83D\\uDE00\"") == Some(("\U{1F600}", ""))
  {
    var s := "\"\\uD83D\\uDE00\"";
    var u := s[1..];
    assert u[0] == '\\' && u[1] == 'u' && u[2..6] == "D83D" && u[6..8] == "\\u" && u[8..12] == "DE00" && u[12..] == "\"";
    assert CodeUnit("D83D") == Some(0xD83D);
    assert CodeUnit("DE00") == Some(0xDE00);
    assert PairEscape("D83D", "DE00") == Some('\U{1F600}');
    assert UnitEscape("D83D").None?;
    assert ParseChars("\"") == Some(("", ""));
    assert ParseChars(u) == Prepend('\U{1F600}', ParseChars("\""));
    assert ['\U{1F600}'] + "" == "\U{1F600}";
    assert ParseString(s) == ParseChars(u);
  }

  /** Reading one escaped character, then going on with the text after it. */
  lemma EscapeStep(c: char, t: string)
    ensures ParseChars(EscapeChar(c) + t) == Prepend(c, ParseChars(t))
  {
    var s := EscapeChar(c) + t;
    if c == '"' || c == '\\' || c == Backspace || c == '\t' || c == '\n' || c == FormFeed || c == '\r' {
      assert |EscapeChar(c)| == 2 && EscapeChar(c)[0] == '\\';
      assert s[0] == '\\' && s[1] == EscapeChar(c)[1] && s[2..] == t;
      assert ShortEscape(s[1]) == Some(c);
    } else if (c as int) < 0x20 {
      var e := EscapeChar(c);
      assert |e| == 6 && e[0] == '\\' && e[1] == 'u';
      assert s[0] == '\\' && s[1] == 'u' && s[6..] == t;
      assert s[2..6] == ['0', '0', HexChar((c as int) / 16), HexChar((c as int) % 16)];
      UnitEscapeOfControl(c);
    } else {
      assert s[0] == c && s[1..] == t;
    }
  }

  lemma {:induction false} ParseEscaped(v: string, rest: string)
    ensures ParseChars(Escape(v) + "\"" + rest) == Some((v, rest))
    decreases |v|
  {
    if |v| == 0 {
      assert Escape(v) + "\"" + rest == "\"" + rest;
      assert ("\"" + rest)[1..] == rest;
    } else {
      ParseEscaped(v[1..], rest);
      var h, t := EscapeChar(v[0]), Escape(v[1..]);
      assert Escape(v) == h + t;
      Assoc(h, t, "\"");
      Assoc(h, t + "\"", rest);
      EscapeStep(v[0], Escape(v[1..]) + "\"" + rest);
      assert [v[0]] + v[1..] == v;
    }
  }

  /** `JSON.parse` undoes `JSON.stringify` on a string, leaving the text after it. */
  lemma ParseQuoted(v: string, rest: string)
    ensures ParseString(Quote(v) + rest) == Some((v, rest))
  {
    var s := Quote(v) + rest;
    assert s[0] == '"';
    assert s[1..] == Escape(v) + "\"" + rest;
    ParseEscaped(v, rest);
  }

  lemma SkipNothing(s: string)
    requires |s| > 0 && !IsWhitespace(s[0])
    ensures SkipWs(s) == s
  {
  }

  lemma QuotedStart(v: string, rest: string)
    ensures |Quote(v) + rest| > 0 && (Quote(v) + rest)[0] == '"'
  {
  }

  lemma ParseEncodedMember(m: (string, string), rest: string)
    ensures ParseMember(EncodeMember(m) + rest) == Some((m, rest))
  {
    var q0 := Quote(m.0);
    var q1 := Quote(m.1);
    var s := EncodeMember(m) + rest;
    var v := q1 + rest;
    var r1 := ":" + v;
    Assoc(q0 + ":", q1, rest);
    Assoc(q0, ":", v);
    assert s == q0 + r1;
    QuotedStart(m.0, r1);
    SkipNothing(s);
    ParseQuoted(m.0, r1);
    SkipNothing(r1);
    DropHead(':', v);
    QuotedStart(m.1, rest);
    SkipNothing(v);
    ParseQuoted(m.1, rest);
  }


  /** After one member: a closing brace ends the list, a comma leads to the next member. */
  lemma MembersStep(s: string, m: (string, string), t: string)
    requires ParseMember(s) == Some((m, t)) && |t| > 0 && (t[0] == '}' || t[0] == ',')
    ensures t[0] == '}' ==> ParseMembers(s) == Some(([m], t[1..]))
    ensures t[0] == ',' ==> ParseMembers(s) == match ParseMembers(t[1..])
      case None => None
      case Some((ms, r2)) => Some(([m] + ms, r2))
  {
    SkipNothing(t);
  }


  /** `a,b}rest` read as the first member followed by `,` and the remainder. */
  lemma RegroupMembers(a: string, b: string, rest: string)
    ensures a + "," + b + "}" + rest == a + ("," + (b + "}" + rest))
  {
    Assoc(a + "," + b, "}", rest);
    Assoc(a + ",", b, "}" + rest);
    Assoc(a, ",", b + ("}" + rest));
    Assoc(b, "}", rest);
  }

  lemma {:induction false} ParseEncodedMembers(ms: Members, rest: string)
    requires |ms| >= 1
    ensures ParseMembers(EncodeMembers(ms) + "}" + rest) == Some((ms, rest))
    decreases |ms|
  {
    var s := EncodeMembers(ms) + "}" + rest;
    if |ms| == 1 {
      var t := "}" + rest;
      Assoc(EncodeMember(ms[0]), "}", rest);
      ParseEncodedMember(ms[0], t);
      assert t[1..] == rest;
      MembersStep(s, ms[0], t);
      assert ms == [ms[0]];
    } else {
      assert [ms[0]] + ms[1..] == ms;
      ConsStep(ms[0], ms[1..], rest);
      ParseEncodedMembers(ms[1..], rest);
    }
  }

  /** Reading `m,ms}rest` is reading `m`, then `ms}rest`. */
  lemma ConsStep(m: (string, string), ms: Members, rest: string)
    requires |ms| >= 1
    ensures ParseMembers(EncodeMembers([m] + ms) + "}" + rest) == match ParseMembers(EncodeMembers(ms) + "}" + rest)
      case None => None
      case Some((xs, r2)) => Some(([m] + xs, r2))
  {
    var s := EncodeMembers([m] + ms) + "}" + rest;
    var tail := EncodeMembers(ms) + "}" + rest;
    var t := "," + tail;
    assert ([m] + ms)[1..] == ms;
    assert EncodeMembers([m] + ms) == EncodeMember(m) + "," + EncodeMembers(ms);
    RegroupMembers(EncodeMember(m), EncodeMembers(ms), rest);
    assert s == EncodeMember(m) + t;
    ParseEncodedMember(m, t);
    assert t[1..] == tail;
    MembersStep(s, m, t);
  }

  /** An encoded object is read back whole, leaving the text after it. */
  lemma ParseEncodedObject(ms: Members, rest: string)
    ensures ParseObject(Encode(ms) + rest) == Some((ms, rest))
  {
    var e := EncodeMembers(ms);
    var s := Encode(ms) + rest;
    var u := e + "}" + rest;
    Assoc("{", e, "}");
    Assoc("{", e + "}", rest);
    assert s == "{" + u;
    SkipNothing(s);
    DropHead('{', u);
    if |ms| == 0 {
      assert u == "}" + rest;
      DropHead('}', rest);
    } else {
      EncodedMembersStart(ms);
      assert u[0] == e[0];
      SkipNothing(u);
      ParseEncodedMembers(ms, rest);
    }
  }

  lemma EncodedMembersStart(ms: Members)
    requires |ms| >= 1
    ensures |EncodeMembers(ms)| > 0 && EncodeMembers(ms)[0] == '"'
  {
    var q := Quote(ms[0].0);
    QuotedStart(ms[0].0, "");
    assert q[0] == '"';
    if |ms| == 1 {
      assert EncodeMembers(ms) == q + ":" + Quote(ms[0].1);
    } else {
      assert EncodeMembers(ms) == q + ":" + Quote(ms[0].1) + "," + EncodeMembers(ms[1..]);
    }
  }

  /** Reading back what `JSON.stringify` wrote gives the same members, in order. */
  lemma DecodeEncode(ms: Members)
    ensures Decode(Encode(ms)) == Some(ms)
  {
    ParseEncodedObject(ms, "");
    assert Encode(ms) + "" == Encode(ms);
  }
}
