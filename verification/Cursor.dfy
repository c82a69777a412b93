/** The paging cursor: base64 of an RFC 3339 instant, a bar and a row id
    (`encodeLogCursor` / `decodeLogCursor`). */
module Cursor {
  import opened Wrappers
  import opened Calendar
  import opened Decimal
  import opened Keyset
  import Base64

  // ---------- printing ----------

  function PrintDate(c: Civil): string
    requires ValidCivil(c)
  {
    PrintYear(c.year) + "-" + Padded(c.month, 2) + "-" + Padded(c.day, 2)
  }

  function PrintClock(seconds: nat): string {
    "T" + Padded(seconds / 3600, 2) + ":" + Padded(seconds / 60 % 60, 2) + ":" + Padded(seconds % 60, 2)
  }

  function TrimZeros(s: string): string {
    if s != "" && s[|s| - 1] == '0' then TrimZeros(s[..|s| - 1]) else s
  }

  /** The fraction of a second and the zone: nothing for a whole second, else a point and the
      nine digits without their trailing zeros; then `Z`. */
  function PrintFraction(nanos: nat): string {
    (if nanos == 0 then "" else "." + TrimZeros(Padded(nanos, 9))) + "Z"
  }

  /** `t.UTC().Format(time.RFC3339Nano)`. */
  function PrintInstant(t: int): string {
    var nanos := t - StartOfDay(DayOf(t));
    PrintDate(CivilOf(DayOf(t))) + PrintClock(nanos / NANOS_PER_SECOND) + PrintFraction(nanos % NANOS_PER_SECOND)
  }

  // ---------- parsing ----------

  predicate NumberAt(s: string, at: nat, width: nat) {
    at + width <= |s| && IsNumeral(s[at..at + width])
  }

  function PadZeros(s: string, width: nat): string
    decreases width - |s|
  {
    if |s| >= width then s else PadZeros(s + "0", width)
  }

  function ParseFraction(s: string): Option<nat> {
    if s == "Z" then Some(0)
    else if |s| >= 3 && (s[0] == '.' || s[0] == ',') && s[|s| - 1] == 'Z' && |s| <= 11 && IsNumeral(s[1..|s| - 1]) then
      PaddedDigits(s[1..|s| - 1], 9);
      Some(Number(PadZeros(s[1..|s| - 1], 9)))
    else None
  }

  function ParseClock(s: string): Option<nat>
    requires |s| == 9
  {
    if s[0] == 'T' && s[3] == ':' && s[6] == ':' && NumberAt(s, 1, 2) && NumberAt(s, 4, 2) && NumberAt(s, 7, 2) then
      var h, m, sec := Number(s[1..3]), Number(s[4..6]), Number(s[7..9]);
      if h < 24 && m < 60 && sec < 60 then Some(h * 3600 + m * 60 + sec) else None
    else None
  }

  function ParseDate(s: string): Option<int>
    requires |s| == 10
  {
    if NumberAt(s, 0, 4) && s[4] == '-' && NumberAt(s, 5, 2) && s[7] == '-' && NumberAt(s, 8, 2) then
      var c := Civil(Number(s[0..4]), Number(s[5..7]), Number(s[8..10]));
      if ValidCivil(c) then Some(DayNumber(c.year, c.month, c.day)) else None
    else None
  }

  /** `time.Parse(time.RFC3339Nano, s)` for the UTC form. */
  function ParseInstant(s: string): Option<int> {
    if |s| < 20 then None
    else
      var day, seconds, nanos := ParseDate(s[..10]), ParseClock(s[10..19]), ParseFraction(s[19..]);
      if day.Some? && seconds.Some? && nanos.Some? then
        Some(StartOfDay(day.value) + seconds.value * NANOS_PER_SECOND + nanos.value)
      else None
  }

  // ---------- the cursor ----------

  function Bytes(s: string): seq<Base64.Byte> {
    seq(|s|, i requires 0 <= i < |s| => if s[i] < 128 as char then s[i] as int else 63)
  }

  function Text(bs: seq<Base64.Byte>): string {
    seq(|bs|, i requires 0 <= i < |bs| => bs[i] as char)
  }

  function PrintPosition(p: Position): string {
    PrintInstant(p.timestamp) + "|" + PrintInt(p.id)
  }

  function EncodeCursor(p: Position): string {
    Base64.Encode(Bytes(PrintPosition(p)))
  }

  function FirstBar(s: string): nat {
    if s == "" || s[0] == '|' then 0 else 1 + FirstBar(s[1..])
  }

  function ParsePosition(s: string): Option<Position> {
    var bar := FirstBar(s);
    if bar >= |s| then None
    else match (ParseInstant(s[..bar]), ParseInt64(s[bar + 1..]))
      case (Some(t), Some(id)) => Some(Position(t, id))
      case _ => None
  }

  function DecodeCursor(cursor: string): Option<Position> {
    match Base64.Decode(cursor)
    case None => None
    case Some(bs) => ParsePosition(Text(bs))
  }

  // ---------- the round trip ----------

  predicate Encodable(p: Position) {
    0 <= CivilOf(DayOf(p.timestamp)).year <= 9999 && MIN_INT64 <= p.id <= MAX_INT64
  }

  lemma {:induction false} PaddedDigits(s: string, width: nat)
    requires AllDigits(s)
    ensures AllDigits(PadZeros(s, width))
    decreases width - |s|
  {
    if |s| < width {
      PaddedDigits(s + "0", width);
    }
  }

  /** Padding on the right undoes trimming. */
  lemma {:induction false} PadTrimmed(s: string)
    ensures |TrimZeros(s)| <= |s| && PadZeros(TrimZeros(s), |s|) == s
    ensures AllDigits(s) ==> AllDigits(TrimZeros(s))
  {
    if s != "" && s[|s| - 1] == '0' {
      var front := s[..|s| - 1];
      PadTrimmed(front);
      PadOneMore(TrimZeros(front), |front|);
      assert front + "0" == s;
    }
  }

  lemma {:induction false} PadOneMore(s: string, width: nat)
    requires |s| <= width
    ensures |PadZeros(s, width)| == width && PadZeros(s, width + 1) == PadZeros(s, width) + "0"
    decreases width - |s|
  {
    if |s| < width {
      PadOneMore(s + "0", width);
    }
  }

  lemma {:induction false} TrimNonZero(s: string)
    requires AllDigits(s) && Number(s) > 0
    ensures TrimZeros(s) != ""
  {
    if s[|s| - 1] == '0' {
      TrimNonZero(s[..|s| - 1]);
    }
  }

  lemma FractionRoundTrip(nanos: nat)
    requires nanos < NANOS_PER_SECOND
    ensures PrintFraction(nanos) != "" && ParseFraction(PrintFraction(nanos)) == Some(nanos)
  {
    if nanos > 0 {
      var digits := Padded(nanos, 9);
      assert Pow10(9) == NANOS_PER_SECOND by { Pow10Nine(); }
      NumberOfPadded(nanos, 9);
      PadTrimmed(digits);
      TrimNonZero(digits);
      var s := PrintFraction(nanos);
      assert s[1..|s| - 1] == TrimZeros(digits);
    }
  }

  lemma Pow10Nine()
    ensures Pow10(2) == 100 && Pow10(4) == 10_000 && Pow10(9) == 1_000_000_000
  {
    assert Pow10(3) == 1_000;
    assert Pow10(6) == 1_000 * Pow10(3);
    assert Pow10(9) == 1_000 * Pow10(6);
  }

  lemma ClockSlices(h: string, m: string, sec: string)
    requires |h| == |m| == |sec| == 2
    ensures var s := "T" + h + ":" + m + ":" + sec;
            && |s| == 9 && s[0] == 'T' && s[3] == ':' && s[6] == ':'
            && s[1..3] == h && s[4..6] == m && s[7..9] == sec
  {
    var s := "T" + h + ":" + m + ":" + sec;
    assert s[1..3] == h;
    assert s[4..6] == m;
    assert s[7..9] == sec;
  }

  lemma ClockFields(h: string, m: string, sec: string)
    requires |h| == |m| == |sec| == 2
    requires AllDigits(h) && AllDigits(m) && AllDigits(sec)
    requires Number(h) < 24 && Number(m) < 60 && Number(sec) < 60
    ensures var s := "T" + h + ":" + m + ":" + sec;
            |s| == 9 && ParseClock(s) == Some(Number(h) * 3600 + Number(m) * 60 + Number(sec))
  {
    hide Number, IsNumeral;
    ClockSlices(h, m, sec);
    assert IsNumeral(h) && IsNumeral(m) && IsNumeral(sec);
  }

  lemma Div3600(x: int, q: int, r: int)
    requires x == 3600 * q + r && 0 <= r < 3600
    ensures x / 3600 == q
  {
  }

  lemma ClockParts(seconds: nat)
    requires seconds < 86_400
    ensures seconds / 3600 < 24 && seconds / 3600 * 3600 + seconds / 60 % 60 * 60 + seconds % 60 == seconds
  {
    var minutes := seconds / 60;
    Div3600(seconds, minutes / 60, minutes % 60 * 60 + seconds % 60);
  }

  lemma ClockText(h: nat, m: nat, sec: nat)
    requires h < 24 && m < 60 && sec < 60
    ensures var s := "T" + Padded(h, 2) + ":" + Padded(m, 2) + ":" + Padded(sec, 2);
            |s| == 9 && ParseClock(s) == Some(h * 3600 + m * 60 + sec)
  {
    hide Padded, ParseClock, Number;
    TwoDigits(h);
    TwoDigits(m);
    TwoDigits(sec);
    ClockFields(Padded(h, 2), Padded(m, 2), Padded(sec, 2));
  }

  lemma ClockRoundTrip(seconds: nat)
    requires seconds < 86_400
    ensures |PrintClock(seconds)| == 9 && ParseClock(PrintClock(seconds)) == Some(seconds)
  {
    hide Padded, ParseClock, Number;
    ClockParts(seconds);
    ClockText(seconds / 3600, seconds / 60 % 60, seconds % 60);
  }

  lemma TwoDigits(n: nat)
    requires n < 100
    ensures |Padded(n, 2)| == 2 && AllDigits(Padded(n, 2)) && Number(Padded(n, 2)) == n
  {
    Pow10Nine();
    NumberOfPadded(n, 2);
  }

  lemma DateSlices(y: string, m: string, d: string)
    requires |y| == 4 && |m| == |d| == 2
    ensures var s := y + "-" + m + "-" + d;
            && |s| == 10 && s[4] == '-' && s[7] == '-'
            && s[0..4] == y && s[5..7] == m && s[8..10] == d
  {
    var s := y + "-" + m + "-" + d;
    assert s[0..4] == y;
    assert s[5..7] == m;
    assert s[8..10] == d;
  }

  lemma DateFields(y: string, m: string, d: string)
    requires |y| == 4 && |m| == |d| == 2
    requires AllDigits(y) && AllDigits(m) && AllDigits(d)
    requires ValidCivil(Civil(Number(y), Number(m), Number(d)))
    ensures var s := y + "-" + m + "-" + d;
            |s| == 10 && ParseDate(s) == Some(DayNumber(Number(y), Number(m), Number(d)))
  {
    hide Number, DayNumber, ValidCivil;
    DateSlices(y, m, d);
  }

  lemma DateRoundTrip(c: Civil)
    requires ValidCivil(c) && 0 <= c.year <= 9999
    ensures |PrintDate(c)| == 10 && ParseDate(PrintDate(c)) == Some(DayNumber(c.year, c.month, c.day))
  {
    hide Padded, PrintYear, ParseDate, Number, DayNumber;
    FourDigits(c.year);
    TwoDigits(c.month);
    TwoDigits(c.day);
    DateFields(PrintYear(c.year), Padded(c.month, 2), Padded(c.day, 2));
  }

  lemma FourDigits(y: nat)
    requires y <= 9999
    ensures |PrintYear(y)| == 4 && AllDigits(PrintYear(y)) && Number(PrintYear(y)) == y
  {
    Pow10Nine();
    NumberOfPadded(y, 4);
  }

  lemma InstantFields(date: string, clock: string, fraction: string, day: int, seconds: nat, nanos: nat)
    requires |date| == 10 && ParseDate(date) == Some(day)
    requires |clock| == 9 && ParseClock(clock) == Some(seconds)
    requires fraction != "" && ParseFraction(fraction) == Some(nanos)
    ensures ParseInstant(date + clock + fraction) == Some(StartOfDay(day) + seconds * NANOS_PER_SECOND + nanos)
  {
    hide ParseDate, ParseClock, ParseFraction;
    var s := date + clock + fraction;
    assert s[..10] == date && s[10..19] == clock && s[19..] == fraction;
  }

  lemma NanosOfDay(t: int)
    ensures 0 <= t - StartOfDay(DayOf(t)) < NANOS_PER_DAY
    ensures 0 <= (t - StartOfDay(DayOf(t))) / NANOS_PER_SECOND < 86_400
  {
  }

  lemma InstantRoundTrip(t: int)
    requires 0 <= CivilOf(DayOf(t)).year <= 9999
    ensures ParseInstant(PrintInstant(t)) == Some(t)
  {
    NanosOfDay(t);
    hide ParseInstant, PrintDate, PrintClock, PrintFraction, ParseDate, ParseClock, ParseFraction, CivilOf, DayNumber;
    var day := DayOf(t);
    var c, nanos := CivilOf(day), t - StartOfDay(day);
    var seconds, fraction := nanos / NANOS_PER_SECOND, nanos % NANOS_PER_SECOND;
    DateRoundTrip(c);
    ClockRoundTrip(seconds);
    FractionRoundTrip(fraction);
    InstantFields(PrintDate(c), PrintClock(seconds), PrintFraction(fraction), day, seconds, fraction);
  }

  /** A year of more than four digits, or before year 0, is printed but never parses. */
  lemma FarInstantRejected(t: int)
    requires !(0 <= CivilOf(DayOf(t)).year <= 9999)
    ensures ParseInstant(PrintInstant(t)).None?
  {
    var y := CivilOf(DayOf(t)).year;
    var s := PrintInstant(t);
    if y < 0 {
      assert s[0] == '-';
      BadYear(s);
    } else {
      Pow10Nine();
      PrintLength(y, 4);
      NumberOfPrint(y);
      assert IsDigit(Print(y)[4]);
      assert s[4] == PrintYear(y)[4];
      BadYear(s);
    }
  }

  lemma BadYear(s: string)
    requires |s| > 4 && (!IsDigit(s[0]) || s[4] != '-')
    ensures ParseInstant(s).None?
  {
    if |s| >= 20 && NumberAt(s[..10], 0, 4) {
      assert IsDigit(s[..10][0..4][0]);
    }
  }

  predicate PlainChar(c: char) {
    ' ' < c < '~' && c != '|'
  }

  ghost predicate Plain(s: string) {
    forall i :: 0 <= i < |s| ==> PlainChar(s[i])
  }

  lemma DigitsArePlain(s: string)
    requires AllDigits(s)
    ensures Plain(s)
  {
    forall i | 0 <= i < |s| ensures PlainChar(s[i]) {
      assert IsDigit(s[i]);
    }
  }

  lemma {:induction false} TrimmedPlain(s: string)
    requires Plain(s)
    ensures Plain(TrimZeros(s))
  {
    if s != "" && s[|s| - 1] == '0' {
      TrimmedPlain(s[..|s| - 1]);
    }
  }

  lemma PlainPadded(n: nat, width: nat)
    ensures Plain(Padded(n, width))
  {
    PaddedIsDigits(n, width);
    DigitsArePlain(Padded(n, width));
  }

  lemma PlainPrint(n: nat)
    ensures Plain(Print(n))
  {
    NumberOfPrint(n);
    DigitsArePlain(Print(n));
  }

  lemma PlainYear(y: int)
    ensures Plain(PrintYear(y))
  {
    var magnitude := if y < 0 then -y else y;
    PlainPadded(magnitude, 4);
    PlainPrint(magnitude);
  }

  lemma PlainClock(seconds: nat)
    ensures Plain(PrintClock(seconds))
  {
    PlainPadded(seconds / 3600, 2);
    PlainPadded(seconds / 60 % 60, 2);
    PlainPadded(seconds % 60, 2);
  }

  lemma PlainDate(c: Civil)
    requires ValidCivil(c)
    ensures Plain(PrintDate(c))
  {
    PlainYear(c.year);
    PlainPadded(c.month, 2);
    PlainPadded(c.day, 2);
  }

  lemma PlainInstant(t: int)
    ensures Plain(PrintInstant(t))
  {
    NanosOfDay(t);
    hide PrintDate, PrintClock, Padded, TrimZeros, CivilOf;
    var nanos := t - StartOfDay(DayOf(t));
    PlainDate(CivilOf(DayOf(t)));
    PlainClock(nanos / NANOS_PER_SECOND);
    PlainPadded(nanos % NANOS_PER_SECOND, 9);
    TrimmedPlain(Padded(nanos % NANOS_PER_SECOND, 9));
  }

  lemma PlainInt(n: int)
    ensures Plain(PrintInt(n))
  {
    PlainPrint(if n < 0 then -n else n);
  }

  lemma {:induction false} BarAfterPlain(s: string, rest: string)
    requires Plain(s)
    ensures FirstBar(s + "|" + rest) == |s|
  {
    if s != "" {
      assert PlainChar(s[0]);
      BarAfterPlain(s[1..], rest);
      assert (s + "|" + rest)[1..] == s[1..] + "|" + rest;
    }
  }

  lemma TextOfBytes(a: string, b: string)
    requires Plain(a) && Plain(b)
    ensures Text(Bytes(a + "|" + b)) == a + "|" + b
  {
    var s := a + "|" + b;
    forall i | 0 <= i < |s| ensures Bytes(s)[i] == s[i] as int {
      assert i < |a| ==> PlainChar(a[i]);
      assert i > |a| ==> PlainChar(b[i - |a| - 1]);
    }
  }

  /** Decoding an encoded cursor gives the position back exactly when its year has four digits
      and its id is a 64-bit integer; otherwise the cursor is rejected. */
  lemma CursorRoundTrip(p: Position)
    ensures Encodable(p) ==> DecodeCursor(EncodeCursor(p)) == Some(p)
    ensures !Encodable(p) ==> DecodeCursor(EncodeCursor(p)).None?
  {
    hide PrintInstant, ParseInstant, PrintInt, ParseInt64, CivilOf, Base64.Encode, Base64.Decode, Bytes, Text, FirstBar;
    var instant, id := PrintInstant(p.timestamp), PrintInt(p.id);
    var s := PrintPosition(p);
    PlainInstant(p.timestamp);
    PlainInt(p.id);
    TextOfBytes(instant, id);
    Base64.DecodeEncode(Bytes(s));
    BarAfterPlain(instant, id);
    assert s[..|instant|] == instant && s[|instant| + 1..] == id;
    ParsePrintedInt(p.id);
    if 0 <= CivilOf(DayOf(p.timestamp)).year <= 9999 {
      InstantRoundTrip(p.timestamp);
    } else {
      FarInstantRejected(p.timestamp);
    }
  }

  // ---------- the text of a cursor ----------

  lemma FractionShape(nanos: nat)
    requires nanos < NANOS_PER_SECOND
    ensures var f := PrintFraction(nanos);
            if nanos == 0 then f == "Z"
            else
              && 3 <= |f| <= 11 && f[0] == '.' && f[|f| - 1] == 'Z' && f[|f| - 2] != '0'
              && AllDigits(f[1..|f| - 1]) && AllDigits(PadZeros(f[1..|f| - 1], 9)) && Number(PadZeros(f[1..|f| - 1], 9)) == nanos
  {
    if nanos > 0 {
      var digits := Padded(nanos, 9);
      assert Pow10(9) == NANOS_PER_SECOND by { Pow10Nine(); }
      NumberOfPadded(nanos, 9);
      PadTrimmed(digits);
      TrimNonZero(digits);
      TrimmedEnd(digits);
      var f := PrintFraction(nanos);
      assert f[1..|f| - 1] == TrimZeros(digits);
    }
  }

  lemma {:induction false} TrimmedEnd(s: string)
    ensures TrimZeros(s) != "" ==> TrimZeros(s)[|TrimZeros(s)| - 1] != '0'
  {
    if s != "" && s[|s| - 1] == '0' {
      TrimmedEnd(s[..|s| - 1]);
    }
  }

  lemma DateShape(c: Civil)
    requires ValidCivil(c) && 0 <= c.year <= 9999
    ensures var s := PrintDate(c);
            && |s| == 10 && s[4] == '-' && s[7] == '-'
            && Spells(s, 0, 4, c.year) && Spells(s, 5, 2, c.month) && Spells(s, 8, 2, c.day)
  {
    hide Padded, PrintYear, Number;
    FourDigits(c.year);
    TwoDigits(c.month);
    TwoDigits(c.day);
    DateSlices(PrintYear(c.year), Padded(c.month, 2), Padded(c.day, 2));
  }

  lemma ClockShape(seconds: nat)
    requires seconds < 86_400
    ensures var s := PrintClock(seconds);
            && |s| == 9 && s[0] == 'T' && s[3] == ':' && s[6] == ':'
            && Spells(s, 1, 2, seconds / 3600) && Spells(s, 4, 2, seconds / 60 % 60) && Spells(s, 7, 2, seconds % 60)
  {
    hide Padded, Number;
    ClockParts(seconds);
    TwoDigits(seconds / 3600);
    TwoDigits(seconds / 60 % 60);
    TwoDigits(seconds % 60);
    ClockSlices(Padded(seconds / 3600, 2), Padded(seconds / 60 % 60, 2), Padded(seconds % 60, 2));
  }

  /** An instant is written YYYY-MM-DDThh:mm:ss, a fraction without trailing zeros if there is one, and Z. */
  lemma InstantShape(t: int)
    requires 0 <= CivilOf(DayOf(t)).year <= 9999
    ensures var s, c := PrintInstant(t), CivilOf(DayOf(t));
            var seconds := (t - StartOfDay(DayOf(t))) / NANOS_PER_SECOND;
            && |s| >= 20 && s[..10] == PrintDate(c) && s[10..19] == PrintClock(seconds)
            && s[19..] == PrintFraction((t - StartOfDay(DayOf(t))) % NANOS_PER_SECOND)
            && s[|s| - 1] == 'Z'
  {
    NanosOfDay(t);
    hide PrintDate, PrintClock, PrintFraction, CivilOf;
    var c, nanos := CivilOf(DayOf(t)), t - StartOfDay(DayOf(t));
    DateShape(c);
    ClockShape(nanos / NANOS_PER_SECOND);
    FractionShape(nanos % NANOS_PER_SECOND);
    var s := PrintInstant(t);
    assert s[..10] == PrintDate(c) && s[10..19] == PrintClock(nanos / NANOS_PER_SECOND);
    assert s[19..] == PrintFraction(nanos % NANOS_PER_SECOND);
    assert s[|s| - 1] == s[19..][|s| - 20];
  }

  /** A cursor is the base64 text of the instant, a bar and the id. */
  lemma CursorText(p: Position)
    ensures EncodeCursor(p) == Base64.Encode(Bytes(PrintInstant(p.timestamp) + "|" + PrintInt(p.id)))
    ensures Encodable(p) ==> DecodeCursor(Base64.Encode(Bytes(PrintInstant(p.timestamp) + "|" + PrintInt(p.id)))) == Some(p)
    ensures Encodable(p) <==> 0 <= CivilOf(DayOf(p.timestamp)).year <= 9999 && -9_223_372_036_854_775_808 <= p.id <= 9_223_372_036_854_775_807
  {
    hide PrintInstant, PrintInt, Base64.Encode, DecodeCursor, CivilOf, Bytes;
    CursorRoundTrip(p);
  }

  // ---------- what a readable cursor says ----------

  lemma DateSays(s: string) returns (c: Civil)
    requires |s| == 10 && ParseDate(s).Some?
    ensures ValidCivil(c) && ParseDate(s) == Some(DayNumber(c.year, c.month, c.day))
    ensures s[4] == '-' && s[7] == '-' && 0 <= c.year && Spells(s, 0, 4, c.year) && Spells(s, 5, 2, c.month) && Spells(s, 8, 2, c.day)
  {
    hide Number, DayNumber, ValidCivil;
    c := Civil(Number(s[0..4]), Number(s[5..7]), Number(s[8..10]));
  }

  lemma ClockSays(s: string) returns (h: nat, m: nat, sec: nat)
    requires |s| == 9 && ParseClock(s).Some?
    ensures s[0] == 'T' && s[3] == ':' && s[6] == ':' && Spells(s, 1, 2, h) && Spells(s, 4, 2, m) && Spells(s, 7, 2, sec)
    ensures h < 24 && m < 60 && sec < 60 && ParseClock(s) == Some(h * 3600 + m * 60 + sec)
  {
    hide Number;
    h, m, sec := Number(s[1..3]), Number(s[4..6]), Number(s[7..9]);
  }

  /** An instant that is read is the one that is written: a date that exists, a time of the day, a fraction and Z. */
  lemma InstantSays(s: string) returns (c: Civil, h: nat, m: nat, sec: nat, nanos: nat)
    requires ParseInstant(s).Some?
    ensures |s| >= 20 && s[|s| - 1] == 'Z' && s[10] == 'T' && ValidCivil(c) && 0 <= c.year
    ensures Spells(s[..10], 0, 4, c.year) && Spells(s[..10], 5, 2, c.month) && Spells(s[..10], 8, 2, c.day)
    ensures Spells(s[10..19], 1, 2, h) && Spells(s[10..19], 4, 2, m) && Spells(s[10..19], 7, 2, sec)
    ensures h < 24 && m < 60 && sec < 60 && nanos < 1_000_000_000 && ParseFraction(s[19..]) == Some(nanos)
    ensures ParseInstant(s).value == StartOfDay(DayNumber(c.year, c.month, c.day)) + (h * 3600 + m * 60 + sec) * 1_000_000_000 + nanos
  {
    hide ParseDate, ParseClock, ParseFraction, DayNumber, ValidCivil, Spells;
    c := DateSays(s[..10]);
    h, m, sec := ClockSays(s[10..19]);
    FractionRange(s[19..]);
    nanos := ParseFraction(s[19..]).value;
    assert s[19..][|s| - 20] == s[|s| - 1];
    assert s[10..19][0] == s[10];
  }

  lemma FractionRange(s: string)
    requires ParseFraction(s).Some?
    ensures s != "" && s[|s| - 1] == 'Z' && 0 <= ParseFraction(s).value < NANOS_PER_SECOND
  {
    if s != "Z" {
      var digits := s[1..|s| - 1];
      PaddedDigits(digits, 9);
      PadLength(digits, 9);
      PaddedOfNumber(PadZeros(digits, 9));
      Pow10Nine();
    }
  }

  lemma {:induction false} PadLength(s: string, width: nat)
    requires |s| <= width
    ensures |PadZeros(s, width)| == width
    decreases width - |s|
  {
    if |s| < width {
      PadLength(s + "0", width);
    }
  }
}
