/** Convert.ToBase64String and Convert.FromBase64String: the Base64
    alphabet and padding of section 4 of RFC 4648. Three bytes become four
    characters; a final group of one or two bytes becomes two or three
    characters followed by "==" or "=". */
module Base64 {
  import opened Common

  type Byte = x: int | 0 <= x < 256

  /** The character for a 6-bit value. */
  function Digit(i: int): (c: char)
    requires 0 <= i < 64
  {
    if i < 26 then ('A' as int + i) as char
    else if i < 52 then ('a' as int + i - 26) as char
    else if i < 62 then ('0' as int + i - 52) as char
    else if i == 62 then '+'
    else '/'
  }

  /** A character of the alphabet (padding excluded). */
  predicate IsDigit(c: char)
  {
    'A' <= c <= 'Z' || 'a' <= c <= 'z' || '0' <= c <= '9' || c == '+' || c == '/'
  }

  /** The 6-bit value of an alphabet character. */
  function Value(c: char): (i: int)
    requires IsDigit(c)
    ensures 0 <= i < 64
  {
    if 'A' <= c <= 'Z' then c as int - 'A' as int
    else if 'a' <= c <= 'z' then c as int - 'a' as int + 26
    else if '0' <= c <= '9' then c as int - '0' as int + 52
    else if c == '+' then 62
    else 63
  }

  /** Every 6-bit value has a character, and reading it back gives the
      value. */
  lemma DigitValue(i: int)
    requires 0 <= i < 64
    ensures IsDigit(Digit(i)) && Value(Digit(i)) == i
  {
  }

  /** Three bytes as four characters: the 24 bits cut into four 6-bit
      values, most significant first. */
  function EncodeGroup(a: Byte, b: Byte, c: Byte): (r: string)
    ensures |r| == 4 && forall k :: 0 <= k < 4 ==> IsDigit(r[k])
  {
    DigitValue(a / 4);
    DigitValue(a % 4 * 16 + b / 16);
    DigitValue(b % 16 * 4 + c / 64);
    DigitValue(c % 64);
    [Digit(a / 4), Digit(a % 4 * 16 + b / 16), Digit(b % 16 * 4 + c / 64), Digit(c % 64)]
  }

  /** Convert.ToBase64String. */
  function Encode(data: seq<Byte>): (r: string)
  {
    if |data| == 0 then []
    else if |data| == 1 then EncodeGroup(data[0], 0, 0)[..2] + "=="
    else if |data| == 2 then EncodeGroup(data[0], data[1], 0)[..3] + "="
    else EncodeGroup(data[0], data[1], data[2]) + Encode(data[3..])
  }

  /** Four 6-bit values as three bytes. */
  function DecodeGroup(c0: char, c1: char, c2: char, c3: char): seq<Byte>
    requires IsDigit(c0) && IsDigit(c1) && IsDigit(c2) && IsDigit(c3)
  {
    var v0, v1, v2, v3 := Value(c0), Value(c1), Value(c2), Value(c3);
    [v0 * 4 + v1 / 16, v1 % 16 * 16 + v2 / 4, v2 % 4 * 64 + v3]
  }

  /** The last group of four: two padding characters leave one byte, one
      leaves two, none leaves three. */
  function DecodeLast(s: string): Option<seq<Byte>>
    requires |s| == 4
  {
    if !IsDigit(s[0]) || !IsDigit(s[1]) then None
    else if s[2] == '=' && s[3] == '=' then Some(DecodeGroup(s[0], s[1], 'A', 'A')[..1])
    else if IsDigit(s[2]) && s[3] == '=' then Some(DecodeGroup(s[0], s[1], s[2], 'A')[..2])
    else if IsDigit(s[2]) && IsDigit(s[3]) then Some(DecodeGroup(s[0], s[1], s[2], s[3]))
    else None
  }

  /** Convert.FromBase64String: groups of four alphabet characters, padding
      only at the very end; anything else throws a FormatException (None). */
  function Decode(s: string): (r: Option<seq<Byte>>)
    decreases |s|
  {
    if |s| == 0 then Some([])
    else if |s| < 4 then None
    else if |s| == 4 then DecodeLast(s)
    else if !(IsDigit(s[0]) && IsDigit(s[1]) && IsDigit(s[2]) && IsDigit(s[3])) then None
    else
      match Decode(s[4..])
      case None => None
      case Some(rest) => Some(DecodeGroup(s[0], s[1], s[2], s[3]) + rest)
  }

  /** Division by a constant recovers the quotient and remainder a value
      was built from. */
  lemma QuotientRemainder(q: int, r: int, d: int)
    requires d == 4 || d == 16 || d == 64
    requires 0 <= r < d
    ensures (q * d + r) / d == q && (q * d + r) % d == r
  {
    if d == 4 {
      assert q * d + r == q * 4 + r;
    } else if d == 16 {
      assert q * d + r == q * 16 + r;
    } else {
      assert q * d + r == q * 64 + r;
    }
  }

  /** The 6-bit values of three bytes and the bytes they decode to. */
  lemma GroupValues(a: Byte, b: Byte, c: Byte)
    ensures var v1, v2 := a % 4 * 16 + b / 16, b % 16 * 4 + c / 64;
            && a / 4 * 4 + v1 / 16 == a
            && v1 % 16 * 16 + v2 / 4 == b
            && v2 % 4 * 64 + c % 64 == c
  {
    QuotientRemainder(a % 4, b / 16, 16);
    QuotientRemainder(b % 16, c / 64, 4);
  }

  /** Decoding the characters of three bytes gives the bytes back. */
  lemma GroupRoundTrip(a: Byte, b: Byte, c: Byte)
    ensures var e := EncodeGroup(a, b, c);
            DecodeGroup(e[0], e[1], e[2], e[3]) == [a, b, c]
  {
    var e := EncodeGroup(a, b, c);
    var v0, v1, v2, v3 := a / 4, a % 4 * 16 + b / 16, b % 16 * 4 + c / 64, c % 64;
    DigitValue(v0);
    DigitValue(v1);
    DigitValue(v2);
    DigitValue(v3);
    assert e == [Digit(v0), Digit(v1), Digit(v2), Digit(v3)];
    GroupValues(a, b, c);
  }

  /** The same for a final group of one byte... */
  lemma OneRoundTrip(a: Byte)
    ensures DecodeLast(EncodeGroup(a, 0, 0)[..2] + "==") == Some([a])
  {
    var e := EncodeGroup(a, 0, 0);
    var s := e[..2] + "==";
    GroupRoundTrip(a, 0, 0);
    assert e[2] == 'A' && e[3] == 'A' by {
      assert Digit(0) == 'A';
    }
    assert s[0] == e[0] && s[1] == e[1] && s[2] == '=' && s[3] == '=';
    assert DecodeGroup(s[0], s[1], 'A', 'A') == [a, 0, 0];
    assert [a, 0, 0][..1] == [a];
  }

  /** ... and of two bytes. */
  lemma TwoRoundTrip(a: Byte, b: Byte)
    ensures DecodeLast(EncodeGroup(a, b, 0)[..3] + "=") == Some([a, b])
  {
    var e := EncodeGroup(a, b, 0);
    var s := e[..3] + "=";
    GroupRoundTrip(a, b, 0);
    assert e[3] == 'A' by {
      assert Digit(0) == 'A';
    }
    assert s[0] == e[0] && s[1] == e[1] && s[2] == e[2] && s[3] == '=';
    assert DecodeGroup(s[0], s[1], s[2], 'A') == [a, b, 0];
    assert [a, b, 0][..2] == [a, b];
  }

  /** A full group of alphabet characters in front of a decodable string
      decodes to its three bytes in front of the rest. */
  lemma DecodeFront(g: string, rest: string)
    requires |g| == 4 && IsDigit(g[0]) && IsDigit(g[1]) && IsDigit(g[2]) && IsDigit(g[3])
    requires Decode(rest).Some?
    ensures Decode(g + rest) == Some(DecodeGroup(g[0], g[1], g[2], g[3]) + Decode(rest).value)
  {
    var s := g + rest;
    assert s[0] == g[0] && s[1] == g[1] && s[2] == g[2] && s[3] == g[3];
    if rest == [] {
      assert s == g;
      assert DecodeGroup(g[0], g[1], g[2], g[3]) + [] == DecodeGroup(g[0], g[1], g[2], g[3]);
    } else {
      assert s[4..] == rest;
    }
  }

  /** A full group in front of data that round-trips. */
  lemma GroupThenRest(a: Byte, b: Byte, c: Byte, tail: seq<Byte>)
    requires Decode(Encode(tail)) == Some(tail)
    ensures Decode(Encode([a, b, c] + tail)) == Some([a, b, c] + tail)
  {
    var data := [a, b, c] + tail;
    var g := EncodeGroup(a, b, c);
    assert data[0] == a && data[1] == b && data[2] == c && data[3..] == tail;
    assert Encode(data) == g + Encode(tail);
    GroupRoundTrip(a, b, c);
    DecodeFront(g, Encode(tail));
  }

  /** FromBase64String(ToBase64String(data)) == data. */
  lemma {:induction false} RoundTrip(data: seq<Byte>)
    ensures Decode(Encode(data)) == Some(data)
    decreases |data|
  {
    if |data| == 1 {
      assert Decode(Encode([data[0]])) == Some([data[0]]) by {
        OneRoundTrip(data[0]);
      }
      assert data == [data[0]];
    } else if |data| == 2 {
      assert Decode(Encode([data[0], data[1]])) == Some([data[0], data[1]]) by {
        TwoRoundTrip(data[0], data[1]);
      }
      assert data == [data[0], data[1]];
    } else if |data| >= 3 {
      var tail := data[3..];
      RoundTrip(tail);
      var head := data[..3];
      assert data == head + tail;
      assert head == [head[0], head[1], head[2]];
      GroupThenRest(head[0], head[1], head[2], tail);
    }
  }

  /** Only the empty array encodes to the empty string. */
  lemma EncodeEmpty(data: seq<Byte>)
    ensures Encode(data) == [] <==> data == []
  {
  }
}
