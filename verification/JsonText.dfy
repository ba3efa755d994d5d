/**
 Event details as JSON strings: what is escaped is read back.
 */
module JsonText {
  import opened Types

  function EscapeChar(c: char): string {
    if c == '\"' then "\\\""
    else if c == '\\' then "\\\\"
    else if c == '\n' then "\\n"
    else if c == '\t' then "\\t"
    else if c == '\r' then "\\r"
    else [c]
  }

  function Escape(s: string): string {
    if s == "" then "" else EscapeChar(s[0]) + Escape(s[1..])
  }

  lemma EscapeStep(s: string, i: nat)
    requires i < |s|
    ensures Escape(s[i..]) == EscapeChar(s[i]) + Escape(s[i + 1..])
  {
    assert s[i..][1..] == s[i + 1..];
  }

  lemma EscapeNothing(s: string)
    ensures Escape(s[|s|..]) == "" && Escape(s[0..]) == Escape(s)
  {
    assert s[0..] == s;
  }

  /** What the escaper pushes for one character. */
  method PushChar(out: string, c: char) returns (longer: string)
    ensures longer == out + EscapeChar(c)
  {
    match c
    case '\"' => longer := out + "\\\"";
    case '\\' => longer := out + "\\\\";
    case '\n' => longer := out + "\\n";
    case '\t' => longer := out + "\\t";
    case '\r' => longer := out + "\\r";
    case _ => longer := out + [c];
  }

  /** The escaper's loop over the characters. */
  method JsonEscape(s: string) returns (out: string)
    ensures out == Escape(s)
  {
    hide Escape, EscapeChar;
    out := "";
    EscapeNothing(s);
    for i := 0 to |s|
      invariant Escape(s) == out + Escape(s[i..])
    {
      EscapeStep(s, i);
      ghost var before := out;
      out := PushChar(out, s[i]);
      assert before + (EscapeChar(s[i]) + Escape(s[i + 1..])) == out + Escape(s[i + 1..]);
    }
  }

  // ---- A reader (section 7 of RFC 8259) ---------------------------------------------------

  predicate IsControl(c: char) {
    c as int < 0x20
  }

  function HexValue(c: char): Option<nat> {
    if '0' <= c <= '9' then Some(c as nat - '0' as nat)
    else if 'a' <= c <= 'f' then Some(c as nat - 'a' as nat + 10)
    else if 'A' <= c <= 'F' then Some(c as nat - 'A' as nat + 10)
    else None
  }

  /** The character named by four hexadecimal digits; a lone surrogate names none. */
  function HexChar(t: string): Option<char> {
    if |t| < 4 then None
    else
      var a, b, c, d := HexValue(t[0]), HexValue(t[1]), HexValue(t[2]), HexValue(t[3]);
      if a.None? || b.None? || c.None? || d.None? then None
      else
        var n := ((a.value * 16 + b.value) * 16 + c.value) * 16 + d.value;
        if n < 0xD800 || 0xDFFF < n < 0x1_0000 then Some(n as char) else None
  }

  function ShortEscape(c: char): Option<char> {
    match c
    case '\"' => Some('\"')
    case '\\' => Some('\\')
    case '/' => Some('/')
    case 'b' => Some(8 as char)
    case 'f' => Some(12 as char)
    case 'n' => Some('\n')
    case 'r' => Some('\r')
    case 't' => Some('\t')
    case _ => None
  }

  datatype Scanned = Text(value: string, rest: string) | Malformed

  function Prepend(c: char, s: Scanned): Scanned {
    if s.Text? then Text([c] + s.value, s.rest) else Malformed
  }

  /** Reads a string body up to its closing quote. A strict reader refuses raw control
      characters, as the standard does; a lenient one lets them pass. */
  function Scan(t: string, strict: bool): Scanned {
    if t == "" then Malformed
    else if t[0] == '\"' then Text("", t[1..])
    else if t[0] == '\\' then
      if |t| >= 2 && t[1] == 'u' then
        var c := HexChar(t[2..]);
        if c.None? then Malformed else Prepend(c.value, Scan(t[6..], strict))
      else if |t| >= 2 && ShortEscape(t[1]).Some? then Prepend(ShortEscape(t[1]).value, Scan(t[2..], strict))
      else Malformed
    else if strict && IsControl(t[0]) then Malformed
    else Prepend(t[0], Scan(t[1..], strict))
  }

  /** The only control characters are those the escaper knows. */
  ghost predicate Plain(s: string) {
    forall i | 0 <= i < |s| :: IsControl(s[i]) ==> s[i] == '\n' || s[i] == '\r' || s[i] == '\t'
  }

  lemma ScanChar(c: char, rest: string, strict: bool)
    ensures Scan(EscapeChar(c) + rest, strict) ==
            if strict && IsControl(c) && c != '\n' && c != '\r' && c != '\t' then Malformed
            else Prepend(c, Scan(rest, strict))
  {
    var t := EscapeChar(c) + rest;
    if |EscapeChar(c)| == 2 {
      assert t[0] == '\\' && t[1] == EscapeChar(c)[1] && t[2..] == rest;
    } else {
      assert t[0] == c && t[1..] == rest;
    }
  }

  /** A strict reader recovers exactly the text and the exact bytes after it if and only if
      the text is plain; a lenient reader always does. */
  lemma {:induction false} EscapeRoundTrip(s: string, suffix: string, strict: bool)
    ensures Scan(Escape(s) + "\"" + suffix, strict) == if strict && !Plain(s) then Malformed else Text(s, suffix)
  {
    var tail := "\"" + suffix;
    if s == "" {
      assert Escape(s) + "\"" + suffix == tail;
      assert tail[1..] == suffix;
    } else {
      assert Escape(s) + "\"" + suffix == EscapeChar(s[0]) + (Escape(s[1..]) + "\"" + suffix);
      EscapeRoundTrip(s[1..], suffix, strict);
      ScanChar(s[0], Escape(s[1..]) + "\"" + suffix, strict);
      assert s == [s[0]] + s[1..];
      assert Plain(s) <==> Plain(s[1..]) && (IsControl(s[0]) ==> s[0] == '\n' || s[0] == '\r' || s[0] == '\t');
    }
  }

  /** Different texts are written differently. */
  lemma EscapeIsInjective(a: string, b: string)
    requires Escape(a) == Escape(b)
    ensures a == b
  {
    EscapeRoundTrip(a, "", false);
    EscapeRoundTrip(b, "", false);
  }

  /** An escaped text never breaks its line. */
  lemma {:induction false} EscapeStaysOnLine(s: string)
    ensures '\n' !in Escape(s) && '\r' !in Escape(s)
  {
    if s != "" {
      EscapeStaysOnLine(s[1..]);
      assert '\n' !in EscapeChar(s[0]) && '\r' !in EscapeChar(s[0]);
    }
  }
}
