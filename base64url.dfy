/**
 * The URL- and filename-safe base64 encoding of section 5 of RFC 4648,
 * without padding, as Node's `toString('base64url')` writes it: every three
 * bytes become four characters of the alphabet `A-Z a-z 0-9 - _`, and a final
 * group of one or two bytes becomes two or three characters.
 */
module Base64Url {
  import opened Wrappers
  import opened Buffers

  /** The character for a 6-bit value. */
  function Char(v: int): (c: char)
    requires 0 <= v < 64
    ensures Value(c) == Some(v)
  {
    if v < 26 then ('A' as int + v) as char
    else if v < 52 then ('a' as int + v - 26) as char
    else if v < 62 then ('0' as int + v - 52) as char
    else if v == 62 then '-'
    else '_'
  }

  /** The 6-bit value of an alphabet character; `None` for every other character. */
  function Value(c: char): (r: Option<int>)
    ensures r.Some? ==> 0 <= r.value < 64
    ensures c == '.' ==> r.None?
  {
    if 'A' <= c <= 'Z' then Some(c as int - 'A' as int)
    else if 'a' <= c <= 'z' then Some(c as int - 'a' as int + 26)
    else if '0' <= c <= '9' then Some(c as int - '0' as int + 52)
    else if c == '-' then Some(62)
    else if c == '_' then Some(63)
    else None
  }

  /** Every character of a string is in the base64url alphabet. */
  predicate InAlphabet(s: string) {
    forall i :: 0 <= i < |s| ==> Value(s[i]).Some?
  }

  function Encode(b: seq<byte>): (s: string)
    ensures InAlphabet(s)
  {
    if |b| == 0 then []
    else if |b| == 1 then
      [Char(b[0] / 4), Char(b[0] % 4 * 16)]
    else if |b| == 2 then
      [Char(b[0] / 4), Char(b[0] % 4 * 16 + b[1] / 16), Char(b[1] % 16 * 4)]
    else
      [Char(b[0] / 4), Char(b[0] % 4 * 16 + b[1] / 16), Char(b[1] % 16 * 4 + b[2] / 64), Char(b[2] % 64)]
      + Encode(b[3..])
  }

  /**
   * Strict decoding: `None` for a character outside the alphabet or for a
   * length that leaves a single character in the last group.
   */
  function Decode(s: string): (r: Option<seq<byte>>)
    ensures r.Some? <==> InAlphabet(s) && |s| % 4 != 1
    ensures r.Some? ==> |r.value| == 3 * |s| / 4
  {
    if |s| == 0 then Some([])
    else if |s| == 1 then None
    else if Value(s[0]).None? || Value(s[1]).None? then None
    else
      var v0, v1 := Value(s[0]).value, Value(s[1]).value;
      if |s| == 2 then Some([v0 * 4 + v1 / 16])
      else if Value(s[2]).None? then None
      else
        var v2 := Value(s[2]).value;
        if |s| == 3 then Some([v0 * 4 + v1 / 16, v1 % 16 * 16 + v2 / 4])
        else if Value(s[3]).None? then None
        else
          var v3 := Value(s[3]).value;
          match Decode(s[4..])
          case None => None
          case Some(rest) => Some([v0 * 4 + v1 / 16, v1 % 16 * 16 + v2 / 4, v2 % 4 * 64 + v3] + rest)
  }

  /** The separator a token places between its two segments never occurs in an encoding. */
  lemma EncodeHasNoDot(b: seq<byte>)
    ensures '.' !in Encode(b)
  {
    var s := Encode(b);
    forall i | 0 <= i < |s| ensures s[i] != '.' {
      assert Value(s[i]).Some?;
    }
  }

  /** Unpadded base64url writes ceil(4n/3) characters for n bytes. */
  lemma {:induction false} EncodeLength(b: seq<byte>)
    ensures |Encode(b)| == (4 * |b| + 2) / 3
  {
    if |b| >= 3 {
      EncodeLength(b[3..]);
    }
  }

  /** Decoding a string that starts with a full group of four characters. */
  lemma DecodeGroup(v0: int, v1: int, v2: int, v3: int, t: string)
    requires 0 <= v0 < 64 && 0 <= v1 < 64 && 0 <= v2 < 64 && 0 <= v3 < 64
    requires Decode(t).Some?
    ensures Decode([Char(v0), Char(v1), Char(v2), Char(v3)] + t)
         == Some([v0 * 4 + v1 / 16, v1 % 16 * 16 + v2 / 4, v2 % 4 * 64 + v3] + Decode(t).value)
  {
    var s := [Char(v0), Char(v1), Char(v2), Char(v3)] + t;
    assert s[4..] == t;
  }

  /** The bit-splitting of three bytes into four sextets is undone by the decoder's regrouping. */
  lemma RegroupTriple(x: byte, y: byte, z: byte)
    ensures var v0, v1, v2, v3 := x / 4, x % 4 * 16 + y / 16, y % 16 * 4 + z / 64, z % 64;
      v0 * 4 + v1 / 16 == x && v1 % 16 * 16 + v2 / 4 == y && v2 % 4 * 64 + v3 == z
  {
    var v1, v2 := x % 4 * 16 + y / 16, y % 16 * 4 + z / 64;
    assert v1 / 16 == x % 4 && v1 % 16 == y / 16;
    assert v2 / 4 == y % 16 && v2 % 4 == z / 64;
  }

  /** A final group of one byte. */
  lemma DecodeEncodeOne(x: byte)
    ensures Decode(Encode([x])) == Some([x])
  {
    var v1 := x % 4 * 16;
    assert v1 / 16 == x % 4;
    assert Encode([x]) == [Char(x / 4), Char(v1)];
  }

  /** A final group of two bytes. */
  lemma DecodeEncodeTwo(x: byte, y: byte)
    ensures Decode(Encode([x, y])) == Some([x, y])
  {
    var v1, v2 := x % 4 * 16 + y / 16, y % 16 * 4;
    assert v1 / 16 == x % 4 && v1 % 16 == y / 16;
    assert v2 / 4 == y % 16;
    assert Encode([x, y]) == [Char(x / 4), Char(v1), Char(v2)];
  }

  lemma {:induction false} DecodeEncode(b: seq<byte>)
    ensures Decode(Encode(b)) == Some(b)
  {
    if |b| == 1 {
      assert b == [b[0]];
      DecodeEncodeOne(b[0]);
    } else if |b| == 2 {
      assert b == [b[0], b[1]];
      DecodeEncodeTwo(b[0], b[1]);
    } else if |b| >= 3 {
      var x, y, z, t := b[0], b[1], b[2], b[3..];
      var v0, v1, v2, v3 := x / 4, x % 4 * 16 + y / 16, y % 16 * 4 + z / 64, z % 64;
      assert Encode(b) == [Char(v0), Char(v1), Char(v2), Char(v3)] + Encode(t);
      DecodeEncode(t);
      RegroupTriple(x, y, z);
      DecodeGroup(v0, v1, v2, v3, Encode(t));
      assert b == [x, y, z] + t;
    }
  }
}
