/**
  `ConfigManager.encode_data` and `decode_data`, the same in all three
  scripts: three rounds of base64 (section 4 of RFC 4648, with
  `=` padding) over the configuration text. The text is ASCII, which is
  what `json.dumps` writes by default, so `str.encode` and `bytes.decode`
  map characters and bytes one to one.
*/
module Base64 {
  import opened Wrappers

  type Byte = b: int | 0 <= b < 256

  /** One sextet as a character of the base64 alphabet (Table 1 of RFC 4648). */
  function EncodeChar(i: int): (c: char)
    requires 0 <= i < 64
  {
    if i < 26 then ('A' as int + i) as char
    else if i < 52 then ('a' as int + (i - 26)) as char
    else if i < 62 then ('0' as int + (i - 52)) as char
    else if i == 62 then '+'
    else '/'
  }

  /** The sextet a character of the alphabet stands for; `None` for any other character, `=` included. */
  function DecodeChar(c: char): (r: Option<int>)
    ensures r.Some? ==> 0 <= r.value < 64 && EncodeChar(r.value) == c
  {
    if 'A' <= c <= 'Z' then Some(c as int - 'A' as int)
    else if 'a' <= c <= 'z' then Some(c as int - 'a' as int + 26)
    else if '0' <= c <= '9' then Some(c as int - '0' as int + 52)
    else if c == '+' then Some(62)
    else if c == '/' then Some(63)
    else None
  }

  lemma DecodeEncodeChar(i: int)
    requires 0 <= i < 64
    ensures DecodeChar(EncodeChar(i)) == Some(i)
  {
  }

  /** Every character of the output: an alphabet character or the pad. */
  predicate Base64Char(c: char) {
    DecodeChar(c).Some? || c == '='
  }

  /** Three bytes as four characters. */
  function Quad(b0: Byte, b1: Byte, b2: Byte): string {
    [EncodeChar(b0 / 4), EncodeChar((b0 % 4) * 16 + b1 / 16), EncodeChar((b1 % 16) * 4 + b2 / 64), EncodeChar(b2 % 64)]
  }

  /** One byte as `xx==`. */
  function PadTwo(b0: Byte): string {
    [EncodeChar(b0 / 4), EncodeChar((b0 % 4) * 16), '=', '=']
  }

  /** Two bytes as `xxx=`. */
  function PadOne(b0: Byte, b1: Byte): string {
    [EncodeChar(b0 / 4), EncodeChar((b0 % 4) * 16 + b1 / 16), EncodeChar((b1 % 16) * 4), '=']
  }

  /** `base64.b64encode`: groups of three bytes, the last group padded with `=`. */
  function Encode(bs: seq<Byte>): string
    decreases |bs|
  {
    if |bs| == 0 then ""
    else if |bs| == 1 then PadTwo(bs[0])
    else if |bs| == 2 then PadOne(bs[0], bs[1])
    else Quad(bs[0], bs[1], bs[2]) + Encode(bs[3..])
  }

  /** Four characters for every started group of three bytes. */
  lemma {:induction false} EncodeLength(bs: seq<Byte>)
    ensures |Encode(bs)| == 4 * ((|bs| + 2) / 3)
    decreases |bs|
  {
    if |bs| >= 3 {
      EncodeLength(bs[3..]);
      EncodeGroup(bs);
      assert (|bs| - 3 + 2) / 3 + 1 == (|bs| + 2) / 3;
    }
  }

  /** Every character of `s` is one `b64encode` may write: an alphabet character or the pad, all ASCII. */
  predicate Base64Text(s: string) {
    forall i :: 0 <= i < |s| ==> Base64Char(s[i]) && s[i] as int < 128
  }

  lemma Base64TextAppend(s: string, t: string)
    requires Base64Text(s) && Base64Text(t)
    ensures Base64Text(s + t)
  {
    assert forall i :: 0 <= i < |s| ==> (s + t)[i] == s[i];
    assert forall i :: |s| <= i < |s| + |t| ==> (s + t)[i] == t[i - |s|];
  }

  lemma EncodeCharText(i: int)
    requires 0 <= i < 64
    ensures Base64Char(EncodeChar(i)) && EncodeChar(i) as int < 128
  {
    DecodeEncodeChar(i);
  }

  /** The output of `b64encode` is base64 text. */
  lemma {:induction false} EncodeAlphabet(bs: seq<Byte>)
    ensures Base64Text(Encode(bs))
    decreases |bs|
  {
    if |bs| == 1 {
      PadTwoText(bs[0]);
    } else if |bs| == 2 {
      PadOneText(bs[0], bs[1]);
    } else if |bs| >= 3 {
      QuadText(bs[0], bs[1], bs[2]);
      EncodeAlphabet(bs[3..]);
      EncodeGroup(bs);
      Base64TextAppend(Quad(bs[0], bs[1], bs[2]), Encode(bs[3..]));
    }
  }

  lemma PadTwoText(b0: Byte)
    ensures Base64Text(PadTwo(b0))
  {
    EncodeCharText(b0 / 4);
    EncodeCharText((b0 % 4) * 16);
  }

  lemma PadOneText(b0: Byte, b1: Byte)
    ensures Base64Text(PadOne(b0, b1))
  {
    EncodeCharText(b0 / 4);
    EncodeCharText((b0 % 4) * 16 + b1 / 16);
    EncodeCharText((b1 % 16) * 4);
  }

  lemma QuadText(b0: Byte, b1: Byte, b2: Byte)
    ensures Base64Text(Quad(b0, b1, b2))
  {
    EncodeCharText(b0 / 4);
    EncodeCharText((b0 % 4) * 16 + b1 / 16);
    EncodeCharText((b1 % 16) * 4 + b2 / 64);
    EncodeCharText(b2 % 64);
  }

  /** The three bytes of four sextets. */
  function Triple(c0: int, c1: int, c2: int, c3: int): seq<Byte>
    requires 0 <= c0 < 64 && 0 <= c1 < 64 && 0 <= c2 < 64 && 0 <= c3 < 64
  {
    [c0 * 4 + c1 / 16, (c1 % 16) * 16 + c2 / 4, (c2 % 4) * 64 + c3]
  }

  /**
    `base64.b64decode`: four characters at a time; `=` may only pad the last
    group, as `xx==` (one byte) or `xxx=` (two bytes). Anything else fails.
  */
  function Decode(s: string): Option<seq<Byte>>
    decreases |s|
  {
    if s == [] then Some([])
    else if |s| < 4 then None
    else
      var d0, d1, d2, d3 := DecodeChar(s[0]), DecodeChar(s[1]), DecodeChar(s[2]), DecodeChar(s[3]);
      if d0.None? || d1.None? then None
      else if |s| == 4 && s[2] == '=' && s[3] == '=' then Some([d0.value * 4 + d1.value / 16])
      else if |s| == 4 && d2.Some? && s[3] == '=' then
        Some([d0.value * 4 + d1.value / 16, (d1.value % 16) * 16 + d2.value / 4])
      else if d2.None? || d3.None? then None
      else
        match Decode(s[4..])
        case None => None
        case Some(rest) => Some(Triple(d0.value, d1.value, d2.value, d3.value) + rest)
  }

  /** Only text of a multiple of four characters decodes. */
  lemma {:induction false} DecodeLength(s: string)
    ensures Decode(s).Some? ==> |s| % 4 == 0
    decreases |s|
  {
    if |s| > 4 && Decode(s).Some? {
      DecodeTail(s);
      DecodeLength(s[4..]);
      GroupMore(|s[4..]|);
    }
  }

  lemma GroupMore(n: nat)
    ensures (n + 4) % 4 == n % 4
  {
  }

  /** Text longer than one group decodes only when the text after the first group does. */
  lemma DecodeTail(s: string)
    requires |s| > 4 && Decode(s).Some?
    ensures Decode(s[4..]).Some?
  {
  }

  /** The sextets of a group put back together. */
  lemma TripleOfQuad(b0: Byte, b1: Byte, b2: Byte)
    ensures Triple(b0 / 4, (b0 % 4) * 16 + b1 / 16, (b1 % 16) * 4 + b2 / 64, b2 % 64) == [b0, b1, b2]
  {
    var c1 := (b0 % 4) * 16 + b1 / 16;
    var c2 := (b1 % 16) * 4 + b2 / 64;
    assert c1 / 16 == b0 % 4 && c1 % 16 == b1 / 16;
    assert c2 / 4 == b1 % 16 && c2 % 4 == b2 / 64;
  }

  /** Decoding undoes encoding, for every byte string. */
  lemma {:induction false} DecodeEncode(bs: seq<Byte>)
    ensures Decode(Encode(bs)) == Some(bs)
    decreases |bs|
  {
    if |bs| == 1 {
      DecodeOne(bs[0]);
      assert bs == [bs[0]];
    } else if |bs| == 2 {
      DecodeTwo(bs[0], bs[1]);
      assert bs == [bs[0], bs[1]];
    } else if |bs| >= 3 {
      DecodeEncode(bs[3..]);
      EncodeGroup(bs);
      DecodeGroup(bs, Encode(bs[3..]));
    }
  }

  /** A full group of three bytes is decoded first, then the rest. */
  lemma DecodeGroup(bs: seq<Byte>, t: string)
    requires |bs| >= 3 && Decode(t) == Some(bs[3..])
    ensures Decode(Quad(bs[0], bs[1], bs[2]) + t) == Some(bs)
  {
    DecodeQuad(bs[0], bs[1], bs[2], t, bs[3..]);
    FirstThree(bs);
  }

  lemma FirstThree(bs: seq<Byte>)
    requires |bs| >= 3
    ensures [bs[0], bs[1], bs[2]] + bs[3..] == bs
  {
  }

  /** One byte is encoded as `xx==`. */
  lemma DecodeOne(b0: Byte)
    ensures Decode(PadTwo(b0)) == Some([b0])
  {
    var c1 := (b0 % 4) * 16;
    DecodeEncodeChar(b0 / 4);
    DecodeEncodeChar(c1);
    DecodePadTwo(PadTwo(b0), b0 / 4, c1);
    assert c1 / 16 == b0 % 4;
  }

  lemma DecodePadTwo(q: string, c0: int, c1: int)
    requires |q| == 4 && q[2] == '=' && q[3] == '='
    requires DecodeChar(q[0]) == Some(c0) && DecodeChar(q[1]) == Some(c1)
    ensures Decode(q) == Some([c0 * 4 + c1 / 16])
  {
  }

  /** Two bytes are encoded as `xxx=`. */
  lemma DecodeTwo(b0: Byte, b1: Byte)
    ensures Decode(PadOne(b0, b1)) == Some([b0, b1])
  {
    var c1 := (b0 % 4) * 16 + b1 / 16;
    var c2 := (b1 % 16) * 4;
    DecodeEncodeChar(b0 / 4);
    DecodeEncodeChar(c1);
    DecodeEncodeChar(c2);
    DecodePadOne(PadOne(b0, b1), b0 / 4, c1, c2);
    assert c1 / 16 == b0 % 4 && c1 % 16 == b1 / 16 && c2 / 4 == b1 % 16;
  }

  lemma DecodePadOne(q: string, c0: int, c1: int, c2: int)
    requires |q| == 4 && q[3] == '='
    requires DecodeChar(q[0]) == Some(c0) && DecodeChar(q[1]) == Some(c1) && DecodeChar(q[2]) == Some(c2)
    ensures Decode(q) == Some([c0 * 4 + c1 / 16, (c1 % 16) * 16 + c2 / 4])
  {
    assert q[2] != '=';
  }

  /** Four alphabet characters decode to three bytes, followed by whatever the rest decodes to. */
  lemma DecodeFull(q: string, t: string, c0: int, c1: int, c2: int, c3: int, rest: seq<Byte>)
    requires |q| == 4
    requires DecodeChar(q[0]) == Some(c0) && DecodeChar(q[1]) == Some(c1)
    requires DecodeChar(q[2]) == Some(c2) && DecodeChar(q[3]) == Some(c3)
    requires Decode(t) == Some(rest)
    ensures 0 <= c0 < 64 && 0 <= c1 < 64 && 0 <= c2 < 64 && 0 <= c3 < 64
    ensures Decode(q + t) == Some(Triple(c0, c1, c2, c3) + rest)
  {
    var s := q + t;
    assert s[0] == q[0] && s[1] == q[1] && s[2] == q[2] && s[3] == q[3];
    assert s[4..] == t;
    assert s[2] != '=' && s[3] != '=';
  }

  /** The four characters of a group decode back to its three bytes. */
  lemma DecodeQuad(b0: Byte, b1: Byte, b2: Byte, t: string, rest: seq<Byte>)
    requires Decode(t) == Some(rest)
    ensures Decode(Quad(b0, b1, b2) + t) == Some([b0, b1, b2] + rest)
  {
    DecodeEncodeChar(b0 / 4);
    DecodeEncodeChar((b0 % 4) * 16 + b1 / 16);
    DecodeEncodeChar((b1 % 16) * 4 + b2 / 64);
    DecodeEncodeChar(b2 % 64);
    TripleOfQuad(b0, b1, b2);
    DecodeFull(Quad(b0, b1, b2), t, b0 / 4, (b0 % 4) * 16 + b1 / 16, (b1 % 16) * 4 + b2 / 64, b2 % 64, rest);
  }

  /** Three or more bytes: a full group, then the rest. */
  lemma EncodeGroup(bs: seq<Byte>)
    requires |bs| >= 3
    ensures Encode(bs) == Quad(bs[0], bs[1], bs[2]) + Encode(bs[3..])
  {
  }

  // ---------------------------------------------------------------------------
  // Text and bytes
  // ---------------------------------------------------------------------------

  predicate IsAscii(s: string) {
    forall i :: 0 <= i < |s| ==> s[i] as int < 128
  }

  /** `str.encode()` of ASCII text. */
  function AsciiBytes(s: string): seq<Byte>
    requires IsAscii(s)
  {
    seq(|s|, i requires 0 <= i < |s| => s[i] as int as Byte)
  }

  /** `bytes.decode()`, for ASCII bytes; any other byte makes it fail. */
  function AsciiText(bs: seq<Byte>): Option<string> {
    if forall i :: 0 <= i < |bs| ==> bs[i] < 128 then Some(seq(|bs|, i requires 0 <= i < |bs| => bs[i] as char))
    else None
  }

  /** Decoding bytes fails exactly when one of them is not ASCII, and otherwise keeps every code. */
  lemma AsciiTextShape(bs: seq<Byte>)
    ensures AsciiText(bs).Some? <==> forall i :: 0 <= i < |bs| ==> bs[i] < 128
    ensures AsciiText(bs).Some? ==> var t := AsciiText(bs).value;
      IsAscii(t) && |t| == |bs| && forall i :: 0 <= i < |bs| ==> t[i] as int == bs[i]
  {
  }

  lemma AsciiTextBytes(s: string)
    requires IsAscii(s)
    ensures AsciiText(AsciiBytes(s)) == Some(s)
  {
    var bs := AsciiBytes(s);
    assert forall i :: 0 <= i < |bs| ==> bs[i] == s[i] as int;
    var r := AsciiText(bs);
    assert r.Some?;
    assert r.value == s;
  }

  /** Every text of `b64encode` is ASCII. */
  lemma Base64TextAscii(s: string)
    requires Base64Text(s)
    ensures IsAscii(s)
  {
  }

  /** One round of `encode_data`: `base64.b64encode(data.encode()).decode()`. */
  function EncodeRound(data: string): (r: string)
    requires IsAscii(data)
    ensures IsAscii(r)
  {
    EncodeAlphabet(AsciiBytes(data));
    Base64TextAscii(Encode(AsciiBytes(data)));
    Encode(AsciiBytes(data))
  }

  /** One round of `decode_data`: `base64.b64decode(data.encode()).decode()`, or `None` where either raises. */
  function DecodeRound(data: string): Option<string> {
    match Decode(data)
    case None => None
    case Some(bs) => AsciiText(bs)
  }

  lemma RoundTrip(data: string)
    requires IsAscii(data)
    ensures DecodeRound(EncodeRound(data)) == Some(data)
  {
    DecodeEncode(AsciiBytes(data));
    AsciiTextBytes(data);
  }

  /** `n` rounds of encoding: the `n`-th round encodes the result of the first `n - 1`. */
  function EncodeRounds(data: string, n: nat): (r: string)
    requires IsAscii(data)
    ensures IsAscii(r)
    decreases n
  {
    if n == 0 then data else EncodeRound(EncodeRounds(data, n - 1))
  }

  /** `n` rounds of decoding, failing as soon as one round fails. */
  function DecodeRounds(data: string, n: nat): Option<string>
    decreases n
  {
    if n == 0 then Some(data)
    else match DecodeRound(data)
      case None => None
      case Some(d) => DecodeRounds(d, n - 1)
  }

  /** The first round of decoding undoes the last round of encoding, and so on inwards. */
  lemma {:induction false} RoundsTrip(data: string, n: nat)
    requires IsAscii(data)
    ensures DecodeRounds(EncodeRounds(data, n), n) == Some(data)
    decreases n
  {
    if n > 0 {
      RoundsTrip(data, n - 1);
      RoundsStep(data, n);
    }
  }

  /** The first round of decoding undoes the last round of encoding. */
  lemma RoundsStep(data: string, n: nat)
    requires IsAscii(data) && n > 0
    ensures DecodeRounds(EncodeRounds(data, n), n) == DecodeRounds(EncodeRounds(data, n - 1), n - 1)
  {
    var m := EncodeRounds(data, n - 1);
    assert EncodeRounds(data, n) == EncodeRound(m);
    RoundTrip(m);
  }

  // ---------------------------------------------------------------------------
  // The methods
  // ---------------------------------------------------------------------------

  /** `encode_data`: three rounds, reassigning `data` each time. */
  method EncodeData(data: string) returns (r: string)
    requires IsAscii(data)
    ensures r == EncodeRounds(data, 3)
    ensures DecodeRounds(r, 3) == Some(data)
  {
    r := data;
    for i := 0 to 3
      invariant r == EncodeRounds(data, i)
    {
      r := EncodeRound(r);
    }
    RoundsTrip(data, 3);
  }

  /** `decode_data`: three rounds; `None` stands for the exception a malformed round raises. */
  method DecodeData(data: string) returns (r: Option<string>)
    ensures r == DecodeRounds(data, 3)
  {
    var d := data;
    for i := 0 to 3
      invariant DecodeRounds(data, 3) == DecodeRounds(d, 3 - i)
    {
      match DecodeRound(d)
      case None => return None;
      case Some(next) => d := next;
    }
    r := Some(d);
  }
}
