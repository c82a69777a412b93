/** The two string layers of the generated rsyslog configuration: RainerScript literals
    (`rsyslogStringLiteral`) and JSON text nested in one (`jsonEscapeForRsyslogConstant`). */
module Escaping {
  import opened Wrappers

  // ---------- RainerScript literals ----------

  function ReplaceAll(s: string, c: char, other: string): string {
    if s == "" then "" else (if s[0] == c then other else [s[0]]) + ReplaceAll(s[1..], c, other)
  }

  function Escape(s: string): string {
    ReplaceAll(ReplaceAll(s, '\\', "\\\\"), '"', "\\\"")
  }

  /** `rsyslogStringLiteral`. */
  function StringLiteral(s: string): string {
    "\"" + Escape(s) + "\""
  }

  /** One pass over s: each backslash and each quote gets a backslash before it. */
  function Guarded(s: string): string {
    if s == "" then "" else GuardedChar(s[0]) + Guarded(s[1..])
  }

  function GuardedChar(c: char): string {
    if c == '\\' || c == '"' then ['\\', c] else [c]
  }

  /** A piece of text and what follows it. */
  datatype Parsed<T> = Parsed(value: T, rest: string)

  /** Reads a literal's text up to and including its closing quote: a backslash quotes a backslash or a quote,
      and makes a line feed out of `n`. */
  function ReadBody(s: string): Option<Parsed<string>> {
    if s == "" then None
    else if s[0] == '"' then Some(Parsed("", s[1..]))
    else if s[0] != '\\' then After([s[0]], ReadBody(s[1..]))
    else if |s| > 1 && (s[1] == '\\' || s[1] == '"') then After([s[1]], ReadBody(s[2..]))
    else if |s| > 1 && s[1] == 'n' then After("\n", ReadBody(s[2..]))
    else None
  }

  function After(text: string, tail: Option<Parsed<string>>): Option<Parsed<string>> {
    match tail
    case None => None
    case Some(p) => Some(Parsed(text + p.value, p.rest))
  }

  function ReadLiteral(s: string): Option<Parsed<string>> {
    if s != "" && s[0] == '"' then ReadBody(s[1..]) else None
  }

  lemma Associates(a: string, b: string, c: string)
    ensures a + b + c == a + (b + c)
  {
  }

  lemma {:induction false} ReplaceAllConcat(s: string, t: string, c: char, other: string)
    ensures ReplaceAll(s + t, c, other) == ReplaceAll(s, c, other) + ReplaceAll(t, c, other)
  {
    if s == "" {
      assert s + t == t;
    } else {
      ReplaceAllConcat(s[1..], t, c, other);
      assert (s + t)[1..] == s[1..] + t;
      Associates(if s[0] == c then other else [s[0]], ReplaceAll(s[1..], c, other), ReplaceAll(t, c, other));
    }
  }

  /** The second replacement does not disturb what the first one wrote. */
  lemma {:induction false} TwoReplacementsAreOnePass(s: string)
    ensures Escape(s) == Guarded(s)
  {
    if s != "" {
      var first := if s[0] == '\\' then "\\\\" else [s[0]];
      ReplaceAllConcat(first, ReplaceAll(s[1..], '\\', "\\\\"), '"', "\\\"");
      ReplacedOnce(s[0]);
      TwoReplacementsAreOnePass(s[1..]);
    }
  }

  lemma ReplacedOnce(c: char)
    ensures ReplaceAll(if c == '\\' then "\\\\" else [c], '"', "\\\"") == GuardedChar(c)
  {
    assert "\\\\"[1..] == "\\";
    assert ReplaceAll("\\", '"', "\\\"") == "\\";
  }

  /** Escaped text is read back and never closes the literal, whatever follows it. */
  lemma {:induction false} GuardedReads(s: string, t: string)
    ensures ReadBody(Guarded(s) + t) == After(s, ReadBody(t))
  {
    if s == "" {
      assert Guarded(s) + t == t;
      match ReadBody(t)
      case None =>
      case Some(p) => assert "" + p.value == p.value;
    } else {
      GuardedReads(s[1..], t);
      GuardedCharReads(s[0], Guarded(s[1..]) + t);
      Associates(GuardedChar(s[0]), Guarded(s[1..]), t);
      AfterAfter([s[0]], s[1..], ReadBody(t));
      assert [s[0]] + s[1..] == s;
    }
  }

  lemma GuardedCharReads(c: char, t: string)
    ensures ReadBody(GuardedChar(c) + t) == After([c], ReadBody(t))
  {
    var s := GuardedChar(c) + t;
    assert s[|GuardedChar(c)|..] == t;
  }

  lemma AfterAfter(a: string, b: string, tail: Option<Parsed<string>>)
    ensures After(a, After(b, tail)) == After(a + b, tail)
  {
    if tail.Some? {
      Associates(a, b, tail.value.value);
    }
  }

  /** Every string survives a literal, and the literal ends where it should. */
  lemma LiteralRoundTrip(s: string, rest: string)
    ensures ReadLiteral(StringLiteral(s) + rest) == Some(Parsed(s, rest))
  {
    TwoReplacementsAreOnePass(s);
    GuardedReads(s, "\"" + rest);
    assert (StringLiteral(s) + rest)[1..] == Guarded(s) + ("\"" + rest);
    assert ("\"" + rest)[1..] == rest;
    assert s + "" == s;
  }

  // ---------- lists of literals ----------

  function Join(parts: seq<string>, separator: string): string {
    if parts == [] then "" else if |parts| == 1 then parts[0] else parts[0] + separator + Join(parts[1..], separator)
  }

  function Literals(names: seq<string>): (literals: seq<string>)
    ensures |literals| == |names| && forall i :: 0 <= i < |names| ==> literals[i] == StringLiteral(names[i])
  {
    if names == [] then [] else [StringLiteral(names[0])] + Literals(names[1..])
  }

  /** The value of a list parameter such as PermittedPeer. */
  function ListText(names: seq<string>): string {
    "[" + Join(Literals(names), ", ") + "]"
  }

  /** Reads the literals of a list up to its closing bracket. */
  function ReadElements(s: string): Option<Parsed<seq<string>>>
    decreases |s|
  {
    match ReadLiteral(s)
    case None => None
    case Some(first) =>
      var r := first.rest;
      if r != "" && r[0] == ']' then Some(Parsed([first.value], r[1..]))
      else if |r| > 1 && r[0] == ',' && r[1] == ' ' then
        ReadLiteralShrinks(s);
        match ReadElements(r[2..])
        case None => None
        case Some(others) => Some(Parsed([first.value] + others.value, others.rest))
      else None
  }

  function ReadList(s: string): Option<Parsed<seq<string>>> {
    if s != "" && s[0] == '[' then ReadElements(s[1..]) else None
  }

  lemma {:induction false} ReadBodyShrinks(s: string)
    ensures ReadBody(s).Some? ==> |ReadBody(s).value.rest| < |s|
  {
    if s != "" && s[0] != '"' {
      if s[0] != '\\' {
        ReadBodyShrinks(s[1..]);
      } else if |s| > 1 {
        ReadBodyShrinks(s[2..]);
      }
    }
  }

  lemma ReadLiteralShrinks(s: string)
    ensures ReadLiteral(s).Some? ==> |ReadLiteral(s).value.rest| < |s|
  {
    if s != "" {
      ReadBodyShrinks(s[1..]);
    }
  }

  lemma {:induction false} ElementsRoundTrip(names: seq<string>, rest: string)
    requires names != []
    ensures ReadElements(Join(Literals(names), ", ") + "]" + rest) == Some(Parsed(names, rest))
  {
    hide ReadLiteral, StringLiteral;
    var text := Join(Literals(names), ", ") + "]" + rest;
    if |names| == 1 {
      var tail := "]" + rest;
      Associates(StringLiteral(names[0]), "]", rest);
      LiteralRoundTrip(names[0], tail);
      assert tail[1..] == rest;
      assert names == [names[0]];
    } else {
      var others := Join(Literals(names[1..]), ", ") + "]" + rest;
      var tail := ", " + others;
      assert Literals(names)[1..] == Literals(names[1..]);
      assert text == StringLiteral(names[0]) + tail;
      LiteralRoundTrip(names[0], tail);
      assert tail[2..] == others;
      ElementsRoundTrip(names[1..], rest);
      assert names == [names[0]] + names[1..];
    }
  }

  /** A written list reads back as exactly its names, whatever characters they hold. */
  lemma ListRoundTrip(names: seq<string>, rest: string)
    requires names != []
    ensures ReadList(ListText(names) + rest) == Some(Parsed(names, rest))
  {
    hide ReadElements, Join, Literals;
    ElementsRoundTrip(names, rest);
    assert (ListText(names) + rest)[1..] == Join(Literals(names), ", ") + "]" + rest;
  }

  // ---------- JSON strings ----------

  function Hex(k: int): char
    requires 0 <= k < 16
  {
    "0123456789abcdef"[k]
  }

  predicate IsHex(c: char) {
    '0' <= c <= '9' || 'a' <= c <= 'f' || 'A' <= c <= 'F'
  }

  function HexValue(c: char): (k: int)
    requires IsHex(c)
    ensures 0 <= k < 16
  {
    if c <= '9' then c as int - '0' as int else if c <= 'F' then c as int - 'A' as int + 10 else c as int - 'a' as int + 10
  }

  /** The characters written by number: other control characters, `<`, `>`, `&` and the Unicode line separators. */
  predicate Numbered(c: char) {
    c < ' ' || c == '<' || c == '>' || c == '&' || c == '\U{2028}' || c == '\U{2029}'
  }

  function FourHex(k: int): (digits: string)
    requires 0 <= k < 0x10000
    ensures |digits| == 4
  {
    [Hex(k / 0x1000), Hex(k / 0x100 % 16), Hex(k / 0x10 % 16), Hex(k % 16)]
  }

  /** The letter of a two-character escape. */
  function ShortEscape(c: char): Option<char> {
    if c == '"' || c == '\\' then Some(c)
    else if c == '\U{8}' then Some('b')
    else if c == '\U{C}' then Some('f')
    else if c == '\n' then Some('n')
    else if c == '\r' then Some('r')
    else if c == '\t' then Some('t')
    else None
  }

  /** How `json.Marshal` writes one character of a string. */
  function JsonChar(c: char): string {
    match ShortEscape(c)
    case Some(letter) => ['\\', letter]
    case None => if Numbered(c) then "\\u" + FourHex(c as int) else [c]
  }

  /** `json.Marshal(name)` without the surrounding quotes. */
  function JsonInner(name: string): string {
    if name == "" then "" else JsonChar(name[0]) + JsonInner(name[1..])
  }

  /** `jsonEscapeForRsyslogConstant`. */
  function JsonConstant(name: string): string {
    Escape(JsonInner(name))
  }

  /** Four hexadecimal digits starting at `at`. */
  function CodeUnit(s: string, at: nat): Option<int> {
    if at + 4 <= |s| && IsHex(s[at]) && IsHex(s[at + 1]) && IsHex(s[at + 2]) && IsHex(s[at + 3]) then
      Some(0x1000 * HexValue(s[at]) + 0x100 * HexValue(s[at + 1]) + 0x10 * HexValue(s[at + 2]) + HexValue(s[at + 3]))
    else None
  }

  /** A `\u` escape, or two that form a surrogate pair. */
  function ReadUnicode(s: string): Option<(char, nat)> {
    match CodeUnit(s, 2)
    case None => None
    case Some(high) =>
      if high < 0xD800 || high > 0xDFFF then Some((high as char, 6))
      else if high < 0xDC00 && |s| >= 8 && s[6] == '\\' && s[7] == 'u' then
        match CodeUnit(s, 8)
        case None => None
        case Some(low) =>
          if 0xDC00 <= low <= 0xDFFF then Some(((0x10000 + 0x400 * (high - 0xD800) + low - 0xDC00) as char, 12)) else None
      else None
  }

  /** The first character of a string's text and how many characters spell it (section 7 of RFC 8259). */
  function ReadChar(s: string): (r: Option<(char, nat)>)
    ensures r.Some? ==> 0 < r.value.1 <= |s|
  {
    if s == "" || s[0] < ' ' || s[0] == '"' then None
    else if s[0] != '\\' then Some((s[0], 1))
    else if |s| < 2 then None
    else match s[1]
      case '"' => Some(('"', 2))
      case '\\' => Some(('\\', 2))
      case '/' => Some(('/', 2))
      case 'b' => Some(('\U{8}', 2))
      case 'f' => Some(('\U{C}', 2))
      case 'n' => Some(('\n', 2))
      case 'r' => Some(('\r', 2))
      case 't' => Some(('\t', 2))
      case 'u' => ReadUnicode(s)
      case _ => None
  }

  /** Reads a JSON string's text up to and including its closing quote. */
  function ReadJson(s: string): Option<Parsed<string>>
    decreases |s|
  {
    if s != "" && s[0] == '"' then Some(Parsed("", s[1..]))
    else
      match ReadChar(s)
      case None => None
      case Some((c, n)) => After([c], ReadJson(s[n..]))
  }

  lemma HexRoundTrip(k: int)
    requires 0 <= k < 16
    ensures IsHex(Hex(k)) && HexValue(Hex(k)) == k
  {
  }

  lemma FourDigits(k: int)
    requires 0 <= k < 0x10000
    ensures 0x1000 * (k / 0x1000) + 0x100 * (k / 0x100 % 16) + 0x10 * (k / 0x10 % 16) + k % 16 == k
    ensures k / 0x1000 < 16
  {
  }

  lemma FourHexReads(k: int, s: string, at: nat)
    requires 0 <= k < 0x10000 && at + 4 <= |s| && s[at..at + 4] == FourHex(k)
    ensures CodeUnit(s, at) == Some(k)
  {
    hide HexValue, Hex, IsHex;
    FourDigits(k);
    var digits := s[at..at + 4];
    assert digits[0] == s[at] && digits[1] == s[at + 1] && digits[2] == s[at + 2] && digits[3] == s[at + 3];
    HexRoundTrip(k / 0x1000);
    HexRoundTrip(k / 0x100 % 16);
    HexRoundTrip(k / 0x10 % 16);
    HexRoundTrip(k % 16);
  }

  lemma NumberedReads(c: char, t: string)
    requires Numbered(c)
    ensures ReadChar("\\u" + FourHex(c as int) + t) == Some((c, 6))
  {
    var s := "\\u" + FourHex(c as int) + t;
    FourHexReads(c as int, s, 2);
    hide FourHex, CodeUnit;
  }

  lemma JsonCharReads(c: char, t: string)
    ensures ReadChar(JsonChar(c) + t) == Some((c, |JsonChar(c)|)) && JsonChar(c)[0] != '"'
  {
    hide ReadUnicode, FourHex;
    if ShortEscape(c).None? && Numbered(c) {
      NumberedReads(c, t);
    } else if ShortEscape(c).Some? {
      var s := ['\\', ShortEscape(c).value] + t;
      assert s[0] == '\\' && s[1] == ShortEscape(c).value;
    } else {
      assert ([c] + t)[0] == c;
    }
  }

  lemma {:induction false} JsonInnerReads(name: string, t: string)
    ensures ReadJson(JsonInner(name) + t) == After(name, ReadJson(t))
  {
    hide ReadChar, JsonChar;
    if name == "" {
      assert JsonInner(name) + t == t;
      if ReadJson(t).Some? {
        assert "" + ReadJson(t).value.value == ReadJson(t).value.value;
      }
    } else {
      var first, others := JsonChar(name[0]), JsonInner(name[1..]) + t;
      JsonInnerReads(name[1..], t);
      JsonCharReads(name[0], others);
      Associates(first, JsonInner(name[1..]), t);
      assert (first + others)[|first|..] == others;
      AfterAfter([name[0]], name[1..], ReadJson(t));
      assert [name[0]] + name[1..] == name;
    }
  }

  /** Inside a literal, after any escaped text and before any tail, the nested label is read as its JSON text and never
      closes the literal; and a JSON reader finds the label in that text, for every label. */
  lemma NestedRoundTrip(before: string, name: string, tail: string, end: string)
    ensures ReadBody(Escape(before) + JsonConstant(name) + tail) == After(before + JsonInner(name), ReadBody(tail))
    ensures ReadJson(JsonInner(name) + ("\"" + end)) == Some(Parsed(name, end))
  {
    hide ReadChar, ReadBody;
    var json := JsonInner(name);
    TwoReplacementsAreOnePass(before);
    TwoReplacementsAreOnePass(json);
    Associates(Guarded(before), Guarded(json), tail);
    GuardedReads(before, Guarded(json) + tail);
    GuardedReads(json, tail);
    AfterAfter(before, json, ReadBody(tail));
    JsonInnerReads(name, "\"" + end);
    assert ("\"" + end)[1..] == end;
    assert name + "" == name;
  }

  /** The JSON text holds no control character, angle bracket, ampersand or Unicode line separator. */
  lemma {:induction false} JsonInnerSafe(name: string, i: nat)
    requires i < |JsonInner(name)|
    ensures var c := JsonInner(name)[i]; c >= ' ' && c != '<' && c != '>' && c != '&' && c != '\U{2028}' && c != '\U{2029}'
  {
    hide FourHex;
    var first := JsonChar(name[0]);
    if i >= |first| {
      assert JsonInner(name)[i] == JsonInner(name[1..])[i - |first|];
      JsonInnerSafe(name[1..], i - |first|);
    } else {
      assert JsonInner(name)[i] == first[i];
      JsonCharSafe(name[0], i);
    }
  }

  lemma JsonCharSafe(c: char, i: nat)
    requires i < |JsonChar(c)|
    ensures var d := JsonChar(c)[i]; d >= ' ' && d != '<' && d != '>' && d != '&' && d != '\U{2028}' && d != '\U{2029}'
  {
    if ShortEscape(c).None? && Numbered(c) {
      HexSafe(c as int);
    }
  }

  lemma HexSafe(k: int)
    requires 0 <= k < 0x10000
    ensures forall i :: 0 <= i < 4 ==> IsHex(FourHex(k)[i])
  {
    FourDigits(k);
    hide IsHex, Hex;
    HexRoundTrip(k / 0x1000);
    HexRoundTrip(k / 0x100 % 16);
    HexRoundTrip(k / 0x10 % 16);
    HexRoundTrip(k % 16);
  }

  /** The two-character escapes are used where there are any. */
  lemma ShortForms()
    ensures JsonChar('"') == "\\\"" && JsonChar('\\') == "\\\\" && JsonChar('\n') == "\\n" && JsonChar('\r') == "\\r"
    ensures JsonChar('\t') == "\\t" && JsonChar('\U{8}') == "\\b" && JsonChar('\U{C}') == "\\f" && JsonChar('a') == "a"
  {
  }
}
