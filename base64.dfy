/**
 * The standard base64 encoding of section 4 of RFC 4648, with padding, as Go's
 * `base64.StdEncoding` implements it: `EncodeToString` and `DecodeString`.
 * The decoder is Go's default (non-strict) one: it skips carriage returns and
 * line feeds anywhere in its input and ignores the unused low bits of the last
 * quantum.
 */
module Base64 {
  import opened Wrappers
  import opened ByteStrings

  const Pad: byte := 61   // '='
  const CR: byte := 13
  const LF: byte := 10

  /** The character of 6-bit value `v` in the alphabet of RFC 4648 section 4, table 1. */
  function Char(v: int): (c: byte)
    requires 0 <= v < 64
    ensures IsDigit(c)
  {
    if v < 26 then 65 + v          // 'A'..'Z'
    else if v < 52 then 97 + v - 26  // 'a'..'z'
    else if v < 62 then 48 + v - 52  // '0'..'9'
    else if v == 62 then 43          // '+'
    else 47                          // '/'
  }

  /** `c` belongs to the 64-character alphabet (the padding character does not). */
  predicate IsDigit(c: byte)
  {
    (65 <= c <= 90) || (97 <= c <= 122) || (48 <= c <= 57) || c == 43 || c == 47
  }

  /** The 6-bit value of an alphabet character. */
  function Value(c: byte): (v: int)
    requires IsDigit(c)
    ensures 0 <= v < 64
  {
    if 65 <= c <= 90 then c - 65
    else if 97 <= c <= 122 then c - 71
    else if 48 <= c <= 57 then c + 4
    else if c == 43 then 62
    else 63
  }

  /** `Char` and `Value` are inverse bijections between 0..63 and the alphabet. */
  lemma CharValue(v: int, c: byte)
    requires 0 <= v < 64 && IsDigit(c)
    ensures Value(Char(v)) == v
    ensures Char(Value(c)) == c
  {
  }

  /** The four characters of a complete three-byte group. */
  function Quad(x: byte, y: byte, z: byte): seq<byte>
  {
    [Char(x / 4), Char((x % 4) * 16 + y / 16), Char((y % 16) * 4 + z / 64), Char(z % 64)]
  }

  /** `base64.StdEncoding.EncodeToString`. */
  function Encode(s: Bytes): (e: Bytes)
    decreases |s|
  {
    if |s| >= 3 then Quad(s[0], s[1], s[2]) + Encode(s[3..])
    else if |s| == 2 then [Char(s[0] / 4), Char((s[0] % 4) * 16 + s[1] / 16), Char((s[1] % 16) * 4), Pad]
    else if |s| == 1 then [Char(s[0] / 4), Char((s[0] % 4) * 16), Pad, Pad]
    else []
  }

  /** The input with every carriage return and line feed removed. */
  function StripNewlines(s: Bytes): (t: Bytes)
    ensures |t| <= |s|
    ensures forall i :: 0 <= i < |t| ==> t[i] != CR && t[i] != LF
    ensures forall b :: b != CR && b != LF ==> multiset(t)[b] == multiset(s)[b]
  {
    if |s| == 0 then []
    else
      assert s == [s[0]] + s[1..];
      if s[0] == CR || s[0] == LF then StripNewlines(s[1..])
      else [s[0]] + StripNewlines(s[1..])
  }

  /** Removing line breaks works piecewise, so the other bytes keep their order. */
  lemma {:induction false} StripAppend(a: Bytes, b: Bytes)
    ensures StripNewlines(a + b) == StripNewlines(a) + StripNewlines(b)
    decreases |a|
  {
    if |a| > 0 {
      assert (a + b)[1..] == a[1..] + b;
      StripAppend(a[1..], b);
    } else {
      assert a + b == b;
    }
  }

  /** A byte other than CR and LF is kept; CR and LF are dropped. */
  lemma StripOne(c: byte)
    ensures StripNewlines([c]) == if c == CR || c == LF then [] else [c]
  {
    assert [c][1..] == [];
  }

  /**
   * Padded standard base64, as a language: a multiple of four characters, all
   * from the alphabet except that the last group may end in `=` or `==`.
   */
  predicate WellFormed(t: Bytes)
  {
    && |t| % 4 == 0
    && (forall i :: 0 <= i < |t| - 2 ==> IsDigit(t[i]))
    && (|t| >= 4 ==>
          && (IsDigit(t[|t| - 2]) || (t[|t| - 2] == Pad && t[|t| - 1] == Pad))
          && (IsDigit(t[|t| - 1]) || t[|t| - 1] == Pad))
  }

  /** Decodes groups of four characters, the way Go's `decodeQuantum` does. */
  function DecodeGroups(t: Bytes): Result<Bytes>
    decreases |t|
  {
    if |t| == 0 then Ok([])
    else if |t| < 4 || !IsDigit(t[0]) || !IsDigit(t[1]) then Err
    else
      var a, b := Value(t[0]), Value(t[1]);
      if IsDigit(t[2]) && IsDigit(t[3]) then
        var c, d := Value(t[2]), Value(t[3]);
        match DecodeGroups(t[4..])
        case Ok(rest) => Ok([a * 4 + b / 16, (b % 16) * 16 + c / 4, (c % 4) * 64 + d] + rest)
        case Err => Err
      else if |t| > 4 then Err                       // padding before the last group
      else if IsDigit(t[2]) && t[3] == Pad then
        var c := Value(t[2]);
        Ok([a * 4 + b / 16, (b % 16) * 16 + c / 4])
      else if t[2] == Pad && t[3] == Pad then
        Ok([a * 4 + b / 16])
      else Err
  }

  /** `base64.StdEncoding.DecodeString`, keeping only whether it failed and what it produced. */
  function Decode(s: Bytes): Result<Bytes>
  {
    DecodeGroups(StripNewlines(s))
  }

  // ---------------------------------------------------------------------------
  // Properties

  /** The encoded length is `4 * ceil(|s| / 3)`. */
  lemma {:induction false} EncodeLength(s: Bytes)
    ensures |Encode(s)| == 4 * ((|s| + 2) / 3)
    decreases |s|
  {
    if |s| >= 3 {
      EncodeLength(s[3..]);
      assert |Encode(s)| == 4 + |Encode(s[3..])|;
      assert (|s| - 3 + 2) / 3 + 1 == (|s| + 2) / 3;
    }
  }

  /** Every character of an encoding is an alphabet character or padding. */
  predicate Encoded(e: Bytes)
  {
    forall i :: 0 <= i < |e| ==> IsDigit(e[i]) || e[i] == Pad
  }

  /** Encoding produces padded standard base64 and no line breaks. */
  lemma EncodeWellFormed(s: Bytes)
    ensures WellFormed(Encode(s))
    ensures StripNewlines(Encode(s)) == Encode(s)
  {
    EncodeShape(s);
    NoNewlinesIn(Encode(s));
  }

  lemma {:induction false} EncodeShape(s: Bytes)
    ensures WellFormed(Encode(s)) && Encoded(Encode(s))
    decreases |s|
  {
    if |s| >= 3 {
      EncodeShape(s[3..]);
      EncodeLength(s[3..]);
      PrependGroup(Quad(s[0], s[1], s[2]), Encode(s[3..]));
    }
  }

  /** A group of four alphabet characters in front of a well-formed text keeps it well-formed. */
  lemma PrependGroup(q: Bytes, rest: Bytes)
    requires |q| == 4 && forall i :: 0 <= i < 4 ==> IsDigit(q[i])
    requires WellFormed(rest) && Encoded(rest)
    ensures WellFormed(q + rest) && Encoded(q + rest)
  {
    PrependDigits(q, rest);
    var t := q + rest;
    if |rest| >= 4 {
      assert t[|t| - 2] == rest[|rest| - 2] && t[|t| - 1] == rest[|rest| - 1];
    } else {
      assert t == q;
    }
  }

  /** Position by position, the characters of `q + rest` are those of `q`, then those of `rest`. */
  lemma PrependDigits(q: Bytes, rest: Bytes)
    requires |q| == 4 && forall i :: 0 <= i < 4 ==> IsDigit(q[i])
    requires WellFormed(rest) && Encoded(rest)
    ensures forall i :: 0 <= i < |q + rest| - 2 ==> IsDigit((q + rest)[i])
    ensures Encoded(q + rest)
  {
    var t := q + rest;
    forall i | 0 <= i < |t|
      ensures (IsDigit(t[i]) || t[i] == Pad) && (i < |t| - 2 ==> IsDigit(t[i]))
    {
      if i < 4 { assert t[i] == q[i]; } else { assert t[i] == rest[i - 4]; }
    }
  }

  lemma {:induction false} NoNewlinesIn(e: Bytes)
    requires Encoded(e)
    ensures StripNewlines(e) == e
    decreases |e|
  {
    if |e| > 0 {
      NoNewlinesIn(e[1..]);
      assert e == [e[0]] + e[1..];
    }
  }

  /** The arithmetic of one group: the three bytes come back from their four sextets. */
  lemma GroupArithmetic(x: byte, y: byte, z: byte)
    ensures (x / 4) * 4 + ((x % 4) * 16 + y / 16) / 16 == x
    ensures (((x % 4) * 16 + y / 16) % 16) * 16 + ((y % 16) * 4 + z / 64) / 4 == y
    ensures (((y % 16) * 4 + z / 64) % 4) * 64 + z % 64 == z
  {
    assert ((x % 4) * 16 + y / 16) / 16 == x % 4;
    assert ((x % 4) * 16 + y / 16) % 16 == y / 16;
    assert ((y % 16) * 4 + z / 64) / 4 == y % 16;
    assert ((y % 16) * 4 + z / 64) % 4 == z / 64;
  }

  /** Round trip: decoding an encoding gives back the bytes, without error. */
  lemma {:induction false} DecodeEncode(s: Bytes)
    ensures Decode(Encode(s)) == Ok(s)
    decreases |s|
  {
    EncodeWellFormed(s);
    GroupsRoundTrip(s);
  }

  lemma {:induction false} GroupsRoundTrip(s: Bytes)
    ensures DecodeGroups(Encode(s)) == Ok(s)
    decreases |s|
  {
    if |s| >= 3 {
      GroupsRoundTrip(s[3..]);
      FullGroupStep(s);
    } else if |s| > 0 {
      LastGroup(s);
    }
  }

  /** A first complete group decodes to the first three bytes, in front of whatever the rest decodes to. */
  lemma {:induction false} FullGroupStep(s: Bytes)
    requires |s| >= 3 && DecodeGroups(Encode(s[3..])) == Ok(s[3..])
    ensures DecodeGroups(Encode(s)) == Ok(s)
  {
    var rest := Encode(s[3..]);
    assert Encode(s) == Quad(s[0], s[1], s[2]) + rest;
    FullGroup(s[0], s[1], s[2], rest, s[3..]);
    assert [s[0], s[1], s[2]] + s[3..] == s;
  }

  /** A padded last group decodes to the one or two bytes it encodes. */
  lemma {:induction false} LastGroup(s: Bytes)
    requires 0 < |s| < 3
    ensures DecodeGroups(Encode(s)) == Ok(s)
  {
    if |s| == 2 {
      TwoByteGroup(s[0], s[1]);
      assert [s[0], s[1]] == s;
    } else {
      OneByteGroup(s[0]);
      assert [s[0]] == s;
    }
  }

  lemma FullGroup(x: byte, y: byte, z: byte, rest: Bytes, tail: Bytes)
    requires DecodeGroups(rest) == Ok(tail)
    ensures DecodeGroups(Quad(x, y, z) + rest) == Ok([x, y, z] + tail)
  {
    var t := Quad(x, y, z) + rest;
    assert t[4..] == rest;
    var a, b, c, d := x / 4, (x % 4) * 16 + y / 16, (y % 16) * 4 + z / 64, z % 64;
    CharValue(a, Char(a));
    CharValue(b, Char(b));
    CharValue(c, Char(c));
    CharValue(d, Char(d));
    GroupArithmetic(x, y, z);
  }

  lemma TwoByteGroup(x: byte, y: byte)
    ensures DecodeGroups([Char(x / 4), Char((x % 4) * 16 + y / 16), Char((y % 16) * 4), Pad]) == Ok([x, y])
  {
    var a, b, c := x / 4, (x % 4) * 16 + y / 16, (y % 16) * 4;
    CharValue(a, Char(a));
    CharValue(b, Char(b));
    CharValue(c, Char(c));
    GroupArithmetic(x, y, 0);
  }

  lemma OneByteGroup(x: byte)
    ensures DecodeGroups([Char(x / 4), Char((x % 4) * 16), Pad, Pad]) == Ok([x])
  {
    var a, b := x / 4, (x % 4) * 16;
    CharValue(a, Char(a));
    CharValue(b, Char(b));
    GroupArithmetic(x, 0, 0);
  }

  /** Decoding fails exactly when the input, line breaks removed, is not padded standard base64. */
  lemma DecodeSucceedsIff(s: Bytes)
    ensures Decode(s).Ok? <==> WellFormed(StripNewlines(s))
  {
    GroupsSucceedIff(StripNewlines(s));
  }

  lemma {:induction false} GroupsSucceedIff(t: Bytes)
    ensures DecodeGroups(t).Ok? <==> WellFormed(t)
    decreases |t|
  {
    if |t| >= 4 && IsDigit(t[0]) && IsDigit(t[1]) {
      if IsDigit(t[2]) && IsDigit(t[3]) {
        GroupsSucceedIff(t[4..]);
        WellFormedSplit(t);
      } else if |t| > 4 && |t| % 4 == 0 {
        assert |t| >= 8;
        assert 3 < |t| - 2;
      }
    } else if |t| >= 4 {
      assert 1 < |t| - 2;
    }
  }

  /** Past a first group of four alphabet characters, well-formedness is that of the rest. */
  lemma WellFormedSplit(t: Bytes)
    requires |t| >= 4 && IsDigit(t[0]) && IsDigit(t[1]) && IsDigit(t[2]) && IsDigit(t[3])
    ensures WellFormed(t) <==> WellFormed(t[4..])
  {
    var r := t[4..];
    assert forall i :: 0 <= i < |r| ==> r[i] == t[i + 4];
    if |r| >= 4 {
      assert t[|t| - 2] == r[|r| - 2] && t[|t| - 1] == r[|r| - 1];
    }
    if WellFormed(r) {
      forall i | 0 <= i < |t| - 2 ensures IsDigit(t[i]) {
        if i >= 4 { assert t[i] == r[i - 4]; }
      }
    }
  }
}
