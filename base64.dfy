/**
 * Base64 with the standard alphabet and `=` padding (section 4 of RFC 4648),
 * which is what `Buffer.toString('base64')` produces, together with its
 * decoding, which states what the encoding preserves.
 */
module Base64 {
  import opened Wrappers

  type byte = b: int | 0 <= b < 256

  /** The character for the 6-bit value `i` in the standard alphabet. */
  function StdChar(i: nat): char
    requires i < 64
  {
    if i < 26 then ('A' as int + i) as char
    else if i < 52 then ('a' as int + (i - 26)) as char
    else if i < 62 then ('0' as int + (i - 52)) as char
    else if i == 62 then '+'
    else '/'
  }

  /** The characters of the standard alphabet: `A-Z`, `a-z`, `0-9`, `+` and `/`. */
  predicate IsStdChar(c: char)
  {
    'A' <= c <= 'Z' || 'a' <= c <= 'z' || '0' <= c <= '9' || c == '+' || c == '/'
  }

  /** The 6-bit value of an alphabet character. */
  function StdValue(c: char): (i: nat)
    requires IsStdChar(c)
    ensures i < 64 && StdChar(i) == c
  {
    if 'A' <= c <= 'Z' then c as int - 'A' as int
    else if 'a' <= c <= 'z' then c as int - 'a' as int + 26
    else if '0' <= c <= '9' then c as int - '0' as int + 52
    else if c == '+' then 62
    else 63
  }

  lemma StdCharValue(i: nat)
    requires i < 64
    ensures IsStdChar(StdChar(i)) && StdValue(StdChar(i)) == i
  {
  }

  /** The number of `=` characters that end the encoding of `n` bytes. */
  function PadLength(n: nat): nat
  {
    (3 - n % 3) % 3
  }

  /** Three bytes as four characters of six bits each. */
  function Quad(b0: byte, b1: byte, b2: byte): string
  {
    [StdChar(b0 / 4), StdChar(b0 % 4 * 16 + b1 / 16), StdChar(b1 % 16 * 4 + b2 / 64), StdChar(b2 % 64)]
  }

  /**
   * Each group of three bytes becomes four characters; a final group of one
   * or two bytes becomes two or three characters followed by `=` padding.
   */
  function Encode(b: seq<byte>): string
  {
    if |b| == 0 then ""
    else if |b| == 1 then
      [StdChar(b[0] / 4), StdChar(b[0] % 4 * 16), '=', '=']
    else if |b| == 2 then
      [StdChar(b[0] / 4), StdChar(b[0] % 4 * 16 + b[1] / 16), StdChar(b[1] % 16 * 4), '=']
    else Quad(b[0], b[1], b[2]) + Encode(b[3..])
  }

  /** Every started group of three bytes takes four characters. */
  lemma {:induction false} EncodeLength(b: seq<byte>)
    ensures |Encode(b)| == 4 * ((|b| + 2) / 3)
  {
    if |b| >= 3 {
      EncodeLength(b[3..]);
      assert |Encode(b)| == 4 + |Encode(b[3..])|;
      assert (|b| + 2) / 3 == (|b[3..]| + 2) / 3 + 1;
    }
  }

  /** The alphabet characters of `s` followed by `pad` padding characters. */
  predicate PaddedShape(s: string, pad: nat)
  {
    && pad <= |s|
    && (forall i :: 0 <= i < |s| - pad ==> IsStdChar(s[i]))
    && (forall i :: |s| - pad <= i < |s| ==> s[i] == '=')
  }

  /**
   * The encoding is made of alphabet characters followed by exactly
   * `PadLength(|b|)` padding characters.
   */
  lemma {:induction false} EncodeShape(b: seq<byte>)
    ensures PadLength(|b|) <= 2
    ensures PaddedShape(Encode(b), PadLength(|b|))
  {
    if |b| == 1 {
      OneByteFinal(b);
    } else if |b| == 2 {
      TwoByteFinal(b);
    } else if |b| >= 3 {
      EncodeShape(b[3..]);
      assert PadLength(|b|) == PadLength(|b[3..]|);
      QuadShape(b[0], b[1], b[2]);
      ShapeAfterQuad(Quad(b[0], b[1], b[2]), Encode(b[3..]), PadLength(|b|));
    }
  }

  /** A last group of one byte: two alphabet characters, then `==`. */
  lemma OneByteFinal(b: seq<byte>)
    requires |b| == 1
    ensures PaddedShape(Encode(b), PadLength(|b|))
  {
    OneByteShape(b[0]);
  }

  /** A last group of two bytes: three alphabet characters, then `=`. */
  lemma TwoByteFinal(b: seq<byte>)
    requires |b| == 2
    ensures PaddedShape(Encode(b), PadLength(|b|))
  {
    TwoByteShape(b[0], b[1]);
  }

  lemma OneByteShape(b0: byte)
    ensures PaddedShape([StdChar(b0 / 4), StdChar(b0 % 4 * 16), '=', '='], 2)
  {
    var c0, c1 := StdChar(b0 / 4), StdChar(b0 % 4 * 16);
    StdCharValue(b0 / 4);
    StdCharValue(b0 % 4 * 16);
    assert [c0, c1, '=', '='] == [c0, c1] + ['=', '='];
    PaddedOf([c0, c1], ['=', '=']);
  }

  lemma TwoByteShape(b0: byte, b1: byte)
    ensures PaddedShape([StdChar(b0 / 4), StdChar(b0 % 4 * 16 + b1 / 16), StdChar(b1 % 16 * 4), '='], 1)
  {
    var c0, c1, c2 := StdChar(b0 / 4), StdChar(b0 % 4 * 16 + b1 / 16), StdChar(b1 % 16 * 4);
    StdCharValue(b0 / 4);
    StdCharValue(b0 % 4 * 16 + b1 / 16);
    StdCharValue(b1 % 16 * 4);
    assert [c0, c1, c2, '='] == [c0, c1, c2] + ['='];
    PaddedOf([c0, c1, c2], ['=']);
  }

  lemma PaddedOf(alpha: string, pad: string)
    requires forall i :: 0 <= i < |alpha| ==> IsStdChar(alpha[i])
    requires forall i :: 0 <= i < |pad| ==> pad[i] == '='
    ensures PaddedShape(alpha + pad, |pad|)
  {
  }

  lemma QuadShape(b0: byte, b1: byte, b2: byte)
    ensures |Quad(b0, b1, b2)| == 4 && forall i :: 0 <= i < 4 ==> IsStdChar(Quad(b0, b1, b2)[i])
  {
    StdCharValue(b0 / 4);
    StdCharValue(b0 % 4 * 16 + b1 / 16);
    StdCharValue(b1 % 16 * 4 + b2 / 64);
    StdCharValue(b2 % 64);
  }

  lemma ShapeAfterQuad(q: string, rest: string, pad: nat)
    requires |q| == 4 && forall i :: 0 <= i < 4 ==> IsStdChar(q[i])
    requires PaddedShape(rest, pad)
    ensures PaddedShape(q + rest, pad)
  {
    var s := q + rest;
    forall i | 0 <= i < |s| - pad ensures IsStdChar(s[i]) {
      if i >= 4 {
        assert s[i] == rest[i - 4];
      }
    }
    forall i | |s| - pad <= i < |s| ensures s[i] == '=' {
      assert s[i] == rest[i - 4];
    }
  }

  /**
   * One group of four characters. Padding is allowed only where `Encode`
   * puts it: `xx==` stands for one byte and `xxx=` for two.
   */
  function DecodeQuad(q: string): Option<seq<byte>>
    requires |q| == 4
  {
    if !(IsStdChar(q[0]) && IsStdChar(q[1])) then None
    else
      var v0, v1 := StdValue(q[0]), StdValue(q[1]);
      var b0 := v0 * 4 + v1 / 16;
      if q[2] == '=' && q[3] == '=' then Some([b0])
      else if !IsStdChar(q[2]) then None
      else
        var v2 := StdValue(q[2]);
        var b1 := v1 % 16 * 16 + v2 / 4;
        if q[3] == '=' then Some([b0, b1])
        else if !IsStdChar(q[3]) then None
        else Some([b0, b1, v2 % 4 * 64 + StdValue(q[3])])
  }

  /** Base64 text back to bytes; `None` for text `Encode` cannot produce in its shape. */
  function Decode(s: string): (r: Option<seq<byte>>)
    ensures r.Some? ==> |s| % 4 == 0
    decreases |s|
  {
    if |s| == 0 then Some([])
    else if |s| < 4 then None
    else
      match DecodeQuad(s[..4])
      case None => None
      case Some(bs) =>
        if |s| == 4 then Some(bs)
        else if |bs| < 3 then None
        else
          match Decode(s[4..])
          case None => None
          case Some(rest) => Some(bs + rest)
  }

  lemma Split16(x: nat, y: nat)
    requires y < 16
    ensures (x * 16 + y) / 16 == x && (x * 16 + y) % 16 == y
  {
  }

  lemma Split4(x: nat, y: nat)
    requires y < 4
    ensures (x * 4 + y) / 4 == x && (x * 4 + y) % 4 == y
  {
  }

  /** Four alphabet characters carry three bytes, six bits per character. */
  lemma DecodeFullQuad(v0: nat, v1: nat, v2: nat, v3: nat)
    requires v0 < 64 && v1 < 64 && v2 < 64 && v3 < 64
    ensures DecodeQuad([StdChar(v0), StdChar(v1), StdChar(v2), StdChar(v3)])
         == Some([v0 * 4 + v1 / 16, v1 % 16 * 16 + v2 / 4, v2 % 4 * 64 + v3])
  {
    StdCharValue(v0);
    StdCharValue(v1);
    StdCharValue(v2);
    StdCharValue(v3);
  }

  /** The three bytes a full group of four characters carries come back out. */
  lemma QuadRoundTrip(b0: byte, b1: byte, b2: byte)
    ensures |Quad(b0, b1, b2)| == 4 && DecodeQuad(Quad(b0, b1, b2)) == Some([b0, b1, b2])
  {
    var v0, v1, v2, v3 := b0 / 4, b0 % 4 * 16 + b1 / 16, b1 % 16 * 4 + b2 / 64, b2 % 64;
    var xs := [v0 * 4 + v1 / 16, v1 % 16 * 16 + v2 / 4, v2 % 4 * 64 + v3];
    assert Quad(b0, b1, b2) == [StdChar(v0), StdChar(v1), StdChar(v2), StdChar(v3)];
    DecodeFullQuad(v0, v1, v2, v3);
    FirstByteBack(b0, b1);
    MiddleByteBack(b0, b1, b2);
    LastByteBack(b1, b2);
    SameDecoding(Quad(b0, b1, b2), xs, [b0, b1, b2]);
  }

  lemma SameDecoding(q: string, xs: seq<byte>, ys: seq<byte>)
    requires |q| == 4 && DecodeQuad(q) == Some(xs) && xs == ys
    ensures DecodeQuad(q) == Some(ys)
  {
  }

  lemma FirstByteBack(b0: byte, b1: byte)
    ensures b0 / 4 * 4 + (b0 % 4 * 16 + b1 / 16) / 16 == b0
  {
    Split16(b0 % 4, b1 / 16);
  }

  lemma MiddleByteBack(b0: byte, b1: byte, b2: byte)
    ensures (b0 % 4 * 16 + b1 / 16) % 16 * 16 + (b1 % 16 * 4 + b2 / 64) / 4 == b1
  {
    Split16(b0 % 4, b1 / 16);
    Split4(b1 % 16, b2 / 64);
  }

  lemma LastByteBack(b1: byte, b2: byte)
    ensures (b1 % 16 * 4 + b2 / 64) % 4 * 64 + b2 % 64 == b2
  {
    Split4(b1 % 16, b2 / 64);
  }

  /** A final group of one byte comes back out of `xx==`. */
  lemma OneByteRoundTrip(b0: byte)
    ensures |Encode([b0])| == 4 && DecodeQuad(Encode([b0])) == Some([b0])
  {
    StdCharValue(b0 / 4);
    StdCharValue(b0 % 4 * 16);
    Split16(b0 % 4, 0);
  }

  /** A final group of two bytes comes back out of `xxx=`. */
  lemma TwoByteRoundTrip(b0: byte, b1: byte)
    ensures |Encode([b0, b1])| == 4 && DecodeQuad(Encode([b0, b1])) == Some([b0, b1])
  {
    var v1, v2 := b0 % 4 * 16 + b1 / 16, b1 % 16 * 4;
    StdCharValue(b0 / 4);
    StdCharValue(v1);
    StdCharValue(v2);
    Split16(b0 % 4, b1 / 16);
    Split4(b1 % 16, 0);
  }


  lemma DecodeGroups(q: string, rest: string)
    requires |q| == 4
    requires DecodeQuad(q).Some? && |DecodeQuad(q).value| == 3
    requires Decode(rest).Some?
    ensures Decode(q + rest) == Some(DecodeQuad(q).value + Decode(rest).value)
  {
    var s := q + rest;
    assert s[..4] == q;
    if rest == [] {
      assert s == q;
      assert DecodeQuad(q).value + [] == DecodeQuad(q).value;
    } else {
      assert s[4..] == rest;
    }
  }

  lemma DecodeOneQuad(q: string)
    requires |q| == 4
    ensures Decode(q) == DecodeQuad(q)
  {
    assert q[..4] == q;
  }

  /** Decoding undoes encoding: no two byte strings share an encoding. */
  lemma {:induction false} DecodeEncode(b: seq<byte>)
    ensures Decode(Encode(b)) == Some(b)
  {
    if 1 <= |b| <= 2 {
      DecodeEncodeFinal(b);
    } else if |b| >= 3 {
      DecodeEncode(b[3..]);
      DecodeEncodeGroup(b);
    }
  }

  /** A last group of one or two bytes decodes back. */
  lemma DecodeEncodeFinal(b: seq<byte>)
    requires 1 <= |b| <= 2
    ensures Decode(Encode(b)) == Some(b)
  {
    if |b| == 1 {
      assert b == [b[0]];
      OneByteRoundTrip(b[0]);
    } else {
      assert b == [b[0], b[1]];
      TwoByteRoundTrip(b[0], b[1]);
    }
    DecodeOneQuad(Encode(b));
  }

  /** A full group in front of an encoding that decodes back decodes back with it. */
  lemma DecodeEncodeGroup(b: seq<byte>)
    requires |b| >= 3 && Decode(Encode(b[3..])) == Some(b[3..])
    ensures Decode(Encode(b)) == Some(b)
  {
    var tail := b[3..];
    var q, e := Quad(b[0], b[1], b[2]), Encode(tail);
    QuadRoundTrip(b[0], b[1], b[2]);
    DecodeGroups(q, e);
    assert Encode(b) == q + e;
    FirstThree(b);
  }

  lemma FirstThree<T>(b: seq<T>)
    requires |b| >= 3
    ensures b == [b[0], b[1], b[2]] + b[3..]
  {
    assert b == b[..3] + b[3..];
    assert b[..3] == [b[0], b[1], b[2]];
  }

  lemma EncodeInjective(a: seq<byte>, b: seq<byte>)
    requires Encode(a) == Encode(b)
    ensures a == b
  {
    DecodeEncode(a);
    DecodeEncode(b);
  }
}
