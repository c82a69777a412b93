/** Unpadded URL-safe base64 (section 5 of RFC 4648), as Go's `base64.RawURLEncoding`. */
module Base64 {
  import opened Wrappers

  type Byte = b: int | 0 <= b < 256
  type Sextet = x: int | 0 <= x < 64

  function CharOf(x: Sextet): char {
    if x < 26 then 'A' + x as char
    else if x < 52 then 'a' + (x - 26) as char
    else if x < 62 then '0' + (x - 52) as char
    else if x == 62 then '-' else '_'
  }

  function SextetOf(c: char): Option<Sextet> {
    if 'A' <= c <= 'Z' then Some(c as int - 'A' as int)
    else if 'a' <= c <= 'z' then Some(c as int - 'a' as int + 26)
    else if '0' <= c <= '9' then Some(c as int - '0' as int + 52)
    else if c == '-' then Some(62)
    else if c == '_' then Some(63)
    else None
  }

  /** Three bytes make four sextets; a last group of one or two bytes makes two or three. */
  function Split(bs: seq<Byte>): seq<Sextet> {
    if |bs| == 0 then []
    else if |bs| == 1 then [bs[0] / 4, bs[0] % 4 * 16]
    else if |bs| == 2 then [bs[0] / 4, bs[0] % 4 * 16 + bs[1] / 16, bs[1] % 16 * 4]
    else
      [bs[0] / 4, bs[0] % 4 * 16 + bs[1] / 16, bs[1] % 16 * 4 + bs[2] / 64, bs[2] % 64] + Split(bs[3..])
  }

  function Encode(bs: seq<Byte>): string {
    var xs := Split(bs);
    seq(|xs|, i requires 0 <= i < |xs| => CharOf(xs[i]))
  }

  function Sextets(s: string): Option<seq<Sextet>> {
    if s == "" then Some([])
    else if SextetOf(s[0]).None? then None
    else match Sextets(s[1..])
      case None => None
      case Some(rest) => Some([SextetOf(s[0]).value] + rest)
  }

  function First(a: Sextet, b: Sextet): Byte {
    var high: int := a;
    high * 4 + b / 16
  }

  function Second(b: Sextet, c: Sextet): Byte {
    var high: int := b % 16;
    high * 16 + c / 4
  }

  function Third(c: Sextet, d: Sextet): Byte {
    var high: int := c % 4;
    high * 64 + d
  }

  /** The bytes of a run of sextets. A single left-over sextet is an error; the unused low
      bits of a short last group are ignored. */
  function Join(xs: seq<Sextet>): Option<seq<Byte>> {
    if |xs| == 0 then Some([])
    else if |xs| == 1 then None
    else if |xs| == 2 then Some([First(xs[0], xs[1])])
    else if |xs| == 3 then Some([First(xs[0], xs[1]), Second(xs[1], xs[2])])
    else match Join(xs[4..])
      case None => None
      case Some(rest) => Some([First(xs[0], xs[1]), Second(xs[1], xs[2]), Third(xs[2], xs[3])] + rest)
  }

  /** The decoder skips line breaks wherever they stand. */
  function WithoutLineBreaks(s: string): string {
    if s == "" then ""
    else (if s[0] == '\r' || s[0] == '\n' then "" else [s[0]]) + WithoutLineBreaks(s[1..])
  }

  function Decode(s: string): Option<seq<Byte>> {
    match Sextets(WithoutLineBreaks(s))
    case None => None
    case Some(xs) => Join(xs)
  }

  lemma SextetOfChar(x: Sextet)
    ensures SextetOf(CharOf(x)) == Some(x)
  {
  }

  lemma Groups(a: Byte, b: Byte, c: Byte)
    ensures First(a / 4, a % 4 * 16 + b / 16) == a && First(a / 4, a % 4 * 16) == a
    ensures Second(a % 4 * 16 + b / 16, b % 16 * 4 + c / 64) == b && Second(a % 4 * 16 + b / 16, b % 16 * 4) == b
    ensures Third(b % 16 * 4 + c / 64, c % 64) == c
  {
  }

  lemma {:induction false} JoinSplit(bs: seq<Byte>)
    ensures Join(Split(bs)) == Some(bs)
  {
    hide First, Second, Third;
    var xs := Split(bs);
    if |bs| == 1 {
      Groups(bs[0], 0, 0);
      assert Join(xs).value == bs;
    } else if |bs| == 2 {
      Groups(bs[0], bs[1], 0);
      assert Join(xs).value == bs;
    } else if |bs| > 2 {
      Groups(bs[0], bs[1], bs[2]);
      JoinSplit(bs[3..]);
      assert xs[4..] == Split(bs[3..]);
      assert [bs[0], bs[1], bs[2]] + bs[3..] == bs;
    }
  }

  /** A string of alphabet characters has no line break in it and reads back as its sextets. */
  lemma {:induction false} ReadBack(s: string, xs: seq<Sextet>)
    requires |s| == |xs| && forall i :: 0 <= i < |xs| ==> s[i] == CharOf(xs[i])
    ensures WithoutLineBreaks(s) == s && Sextets(s) == Some(xs)
  {
    if s != "" {
      SextetOfChar(xs[0]);
      ReadBack(s[1..], xs[1..]);
      assert [xs[0]] + xs[1..] == xs;
    }
  }

  lemma DecodeEncode(bs: seq<Byte>)
    ensures Decode(Encode(bs)) == Some(bs)
  {
    ReadBack(Encode(bs), Split(bs));
    JoinSplit(bs);
  }

  /** The test vectors of section 10 of RFC 4648, without padding, and one that needs both URL-safe characters. */
  lemma Vectors()
    ensures Encode([]) == "" && Encode([102]) == "Zg" && Encode([102, 111]) == "Zm8" && Encode([102, 111, 111]) == "Zm9v"
    ensures Encode([102, 111, 111, 98]) == "Zm9vYg" && Encode([251, 255, 191]) == "-_-_"
  {
    assert [102, 111, 111, 98][3..] == [98];
    assert Split([98]) == [24, 32];
    assert Split([102, 111, 111, 98]) == [25, 38, 61, 47, 24, 32];
    assert Split([251, 255, 191]) == [62, 63, 62, 63] + Split([]) by {
      assert [251, 255, 191][3..] == [];
    }
    assert Split([102, 111, 111]) == [25, 38, 61, 47] + Split([]) by {
      assert [102, 111, 111][3..] == [];
    }
  }

  /** Four characters for three bytes, two or three for a last group of one or two. */
  lemma {:induction false} EncodedLength(bs: seq<Byte>)
    ensures |Encode(bs)| == (4 * |bs| + 2) / 3
  {
    if |bs| > 2 {
      EncodedLength(bs[3..]);
    }
  }

  predicate InAlphabet(c: char) {
    'A' <= c <= 'Z' || 'a' <= c <= 'z' || '0' <= c <= '9' || c == '-' || c == '_'
  }

  /** Only characters of the URL-safe alphabet are read, line breaks aside. */
  lemma {:induction false} ReadsAlphabet(s: string, i: nat)
    requires Sextets(WithoutLineBreaks(s)).Some? && i < |s|
    ensures InAlphabet(s[i]) || s[i] == '\r' || s[i] == '\n'
  {
    var kept, rest := WithoutLineBreaks(s), WithoutLineBreaks(s[1..]);
    if s[0] != '\r' && s[0] != '\n' {
      assert kept == [s[0]] + rest && kept[1..] == rest;
    } else {
      assert kept == "" + rest == rest;
    }
    if i > 0 {
      ReadsAlphabet(s[1..], i - 1);
    }
  }

  lemma DecodeReadsAlphabet(s: string)
    requires Decode(s).Some?
    ensures forall i :: 0 <= i < |s| ==> InAlphabet(s[i]) || s[i] == '\r' || s[i] == '\n'
  {
    forall i | 0 <= i < |s| ensures InAlphabet(s[i]) || s[i] == '\r' || s[i] == '\n' {
      ReadsAlphabet(s, i);
    }
  }
}
