/**
 * Padded base64 with the URL- and filename-safe alphabet (section 5 of
 * RFC 4648), the encoding Go's `base64.URLEncoding` applies to session
 * tokens. Decode is the specification partner that shows no information
 * is lost.
 */
module Base64 {
  import opened Wrappers

  type byte = x: int | 0 <= x < 256

  const Pad: char := '='

  /** The character for a 6-bit value: A-Z, a-z, 0-9, '-', '_'. */
  function CharOf(v: nat): (c: char)
    requires v < 64
    ensures c != Pad && IsAlphabetChar(c)
  {
    if v < 26 then (('A' as int) + v) as char
    else if v < 52 then (('a' as int) + (v - 26)) as char
    else if v < 62 then (('0' as int) + (v - 52)) as char
    else if v == 62 then '-'
    else '_'
  }

  predicate IsAlphabetChar(c: char)
  {
    ('A' <= c <= 'Z') || ('a' <= c <= 'z') || ('0' <= c <= '9') || c == '-' || c == '_'
  }

  /** The 6-bit value of an alphabet character. */
  function ValueOf(c: char): (r: Option<nat>)
  {
    if 'A' <= c <= 'Z' then Some((c as int) - ('A' as int))
    else if 'a' <= c <= 'z' then Some((c as int) - ('a' as int) + 26)
    else if '0' <= c <= '9' then Some((c as int) - ('0' as int) + 52)
    else if c == '-' then Some(62)
    else if c == '_' then Some(63)
    else None
  }

  lemma ValueOfCharOf(v: nat)
    requires v < 64
    ensures IsAlphabetChar(CharOf(v)) && ValueOf(CharOf(v)) == Some(v)
  {
  }

  lemma DivMod16(q: int, r: int)
    requires 0 <= r < 16
    ensures (q * 16 + r) / 16 == q && (q * 16 + r) % 16 == r
  {
  }

  lemma DivMod4(q: int, r: int)
    requires 0 <= r < 4
    ensures (q * 4 + r) / 4 == q && (q * 4 + r) % 4 == r
  {
  }

  /** The four 6-bit values of a group give back its three bytes. */
  lemma GroupArithmetic(b0: byte, b1: byte, b2: byte)
    ensures b0 / 4 < 64 && (b0 % 4) * 16 + b1 / 16 < 64 && (b1 % 16) * 4 + b2 / 64 < 64
    ensures (b0 / 4) * 4 + ((b0 % 4) * 16 + b1 / 16) / 16 == b0
    ensures (((b0 % 4) * 16 + b1 / 16) % 16) * 16 + ((b1 % 16) * 4 + b2 / 64) / 4 == b1
    ensures (((b1 % 16) * 4 + b2 / 64) % 4) * 64 + b2 % 64 == b2
  {
    DivMod16(b0 % 4, b1 / 16);
    DivMod4(b1 % 16, b2 / 64);
  }

  /** Three bytes as four characters. */
  function EncodeGroup(b0: byte, b1: byte, b2: byte): (r: string)
  {
    [CharOf(b0 / 4), CharOf((b0 % 4) * 16 + b1 / 16), CharOf((b1 % 16) * 4 + b2 / 64), CharOf(b2 % 64)]
  }

  /** The last zero, one or two bytes, padded with '=' to four characters when there are any. */
  function EncodeTail(b: seq<byte>): (r: string)
    requires |b| < 3
  {
    if |b| == 0 then ""
    else if |b| == 1 then [CharOf(b[0] / 4), CharOf((b[0] % 4) * 16), Pad, Pad]
    else [CharOf(b[0] / 4), CharOf((b[0] % 4) * 16 + b[1] / 16), CharOf((b[1] % 16) * 4), Pad]
  }

  /** The encoding, padded with '=' to a multiple of four characters. */
  function Encode(b: seq<byte>): (s: string)
    decreases |b|
  {
    if |b| < 3 then EncodeTail(b)
    else EncodeGroup(b[0], b[1], b[2]) + Encode(b[3..])
  }

  /** Four characters back to one, two or three bytes. */
  function DecodeQuad(q: string): (r: Option<seq<byte>>)
    requires |q| == 4
  {
    var v0, v1 := ValueOf(q[0]), ValueOf(q[1]);
    if v0.None? || v1.None? then None
    else if q[2] == Pad && q[3] == Pad then
      Some([v0.value * 4 + v1.value / 16])
    else
      var v2 := ValueOf(q[2]);
      if v2.None? then None
      else if q[3] == Pad then
        Some([v0.value * 4 + v1.value / 16, (v1.value % 16) * 16 + v2.value / 4])
      else
        var v3 := ValueOf(q[3]);
        if v3.None? then None
        else Some([v0.value * 4 + v1.value / 16, (v1.value % 16) * 16 + v2.value / 4,
                   (v2.value % 4) * 64 + v3.value])
  }

  function Decode(s: string): (r: Option<seq<byte>>)
    decreases |s|
  {
    if |s| == 0 then Some([])
    else if |s| < 4 then None
    else
      var head := DecodeQuad(s[..4]);
      if head.None? then None
      else if |s| > 4 && (s[2] == Pad || s[3] == Pad) then None
      else
        var tail := Decode(s[4..]);
        if tail.None? then None else Some(head.value + tail.value)
  }

  /** A padded quad with two data characters decodes to its one byte. */
  lemma DecodePaddedTwo(v0: nat, v1: nat)
    requires v0 < 64 && v1 < 64
    ensures Decode([CharOf(v0), CharOf(v1), Pad, Pad]) == Some([v0 * 4 + v1 / 16])
  {
    ValueOfCharOf(v0);
    ValueOfCharOf(v1);
    var q := [CharOf(v0), CharOf(v1), Pad, Pad];
    assert q[..4] == q && q[4..] == [];
    assert DecodeQuad(q) == Some([v0 * 4 + v1 / 16]);
    assert Decode(q[4..]) == Some([]);
    assert [v0 * 4 + v1 / 16] + [] == [v0 * 4 + v1 / 16];
  }

  /** A padded quad with three data characters decodes to its two bytes. */
  lemma DecodePaddedOne(v0: nat, v1: nat, v2: nat)
    requires v0 < 64 && v1 < 64 && v2 < 64
    ensures Decode([CharOf(v0), CharOf(v1), CharOf(v2), Pad])
            == Some([v0 * 4 + v1 / 16, (v1 % 16) * 16 + v2 / 4])
  {
    ValueOfCharOf(v0);
    ValueOfCharOf(v1);
    ValueOfCharOf(v2);
    var q := [CharOf(v0), CharOf(v1), CharOf(v2), Pad];
    var r := [v0 * 4 + v1 / 16, (v1 % 16) * 16 + v2 / 4];
    assert q[..4] == q && q[4..] == [];
    assert DecodeQuad(q) == Some(r);
    assert Decode(q[4..]) == Some([]);
    assert r + [] == r;
  }

  lemma DecodeLastOne(b0: byte)
    ensures Decode(Encode([b0])) == Some([b0])
  {
    assert Encode([b0]) == EncodeTail([b0]) == [CharOf(b0 / 4), CharOf((b0 % 4) * 16), Pad, Pad];
    DecodePaddedTwo(b0 / 4, (b0 % 4) * 16);
    DivMod16(b0 % 4, 0);
  }

  lemma DecodeLastTwo(b0: byte, b1: byte)
    ensures Decode(Encode([b0, b1])) == Some([b0, b1])
  {
    assert Encode([b0, b1]) == EncodeTail([b0, b1]) == [CharOf(b0 / 4), CharOf((b0 % 4) * 16 + b1 / 16), CharOf((b1 % 16) * 4), Pad];
    GroupArithmetic(b0, b1, 0);
    DecodePaddedOne(b0 / 4, (b0 % 4) * 16 + b1 / 16, (b1 % 16) * 4);
  }

  lemma DecodeGroup(b0: byte, b1: byte, b2: byte)
    ensures |EncodeGroup(b0, b1, b2)| == 4
    ensures EncodeGroup(b0, b1, b2)[2] != Pad && EncodeGroup(b0, b1, b2)[3] != Pad
    ensures DecodeQuad(EncodeGroup(b0, b1, b2)) == Some([b0, b1, b2])
  {
    var g := EncodeGroup(b0, b1, b2);
    GroupArithmetic(b0, b1, b2);
    ValueOfCharOf(b0 / 4);
    ValueOfCharOf((b0 % 4) * 16 + b1 / 16);
    ValueOfCharOf((b1 % 16) * 4 + b2 / 64);
    ValueOfCharOf(b2 % 64);
    assert ValueOf(g[0]) == Some(b0 / 4);
    assert ValueOf(g[1]) == Some((b0 % 4) * 16 + b1 / 16);
    assert ValueOf(g[2]) == Some((b1 % 16) * 4 + b2 / 64);
    assert ValueOf(g[3]) == Some(b2 % 64);
  }

  lemma DecodeCons(g: string, t: string)
    requires |g| == 4 && g[2] != Pad && g[3] != Pad
    requires DecodeQuad(g).Some? && Decode(t).Some?
    ensures Decode(g + t) == Some(DecodeQuad(g).value + Decode(t).value)
  {
    var s := g + t;
    assert s[..4] == g && s[4..] == t;
  }

  /** A full group in front of a decodable tail decodes to its three bytes in front of the tail's. */
  lemma DecodeGroupCons(b0: byte, b1: byte, b2: byte, t: string, rest: seq<byte>)
    requires Decode(t) == Some(rest)
    ensures Decode(EncodeGroup(b0, b1, b2) + t) == Some([b0, b1, b2] + rest)
  {
    DecodeGroup(b0, b1, b2);
    DecodeCons(EncodeGroup(b0, b1, b2), t);
  }

  lemma DecodeStep(b: seq<byte>)
    requires |b| >= 3 && Decode(Encode(b[3..])) == Some(b[3..])
    ensures Decode(Encode(b)) == Some(b)
  {
    var t := Encode(b[3..]);
    assert Encode(b) == EncodeGroup(b[0], b[1], b[2]) + t;
    DecodeGroupCons(b[0], b[1], b[2], t, b[3..]);
    FirstThree(b);
  }

  lemma FirstThree(b: seq<byte>)
    requires |b| >= 3
    ensures [b[0], b[1], b[2]] + b[3..] == b
  {
    assert b[..3] == [b[0], b[1], b[2]];
    assert b == b[..3] + b[3..];
  }

  /** Decoding an encoding gives back the bytes. */
  lemma {:induction false} DecodeEncode(b: seq<byte>)
    ensures Decode(Encode(b)) == Some(b)
    decreases |b|
  {
    if |b| == 1 {
      assert b == [b[0]];
      DecodeLastOne(b[0]);
    } else if |b| == 2 {
      assert b == [b[0], b[1]];
      DecodeLastTwo(b[0], b[1]);
    } else if |b| >= 3 {
      DecodeEncode(b[3..]);
      DecodeStep(b);
    }
  }

  /** Encoding is injective: distinct random buffers give distinct tokens. */
  lemma EncodeInjective(a: seq<byte>, b: seq<byte>)
    requires Encode(a) == Encode(b)
    ensures a == b
  {
    DecodeEncode(a);
    DecodeEncode(b);
  }

  /** Four characters for every started group of three bytes. */
  lemma {:induction false} EncodeLength(b: seq<byte>)
    ensures |Encode(b)| == 4 * ((|b| + 2) / 3)
    decreases |b|
  {
    if |b| >= 3 {
      EncodeLength(b[3..]);
      assert (|b| + 2) / 3 == (|b[3..]| + 2) / 3 + 1;
    }
  }

  /** All but the last n characters are from the alphabet. */
  predicate AlphabetUpTo(s: string, n: nat)
  {
    forall i :: 0 <= i < |s| - n ==> IsAlphabetChar(s[i])
  }

  /** A group of alphabet characters in front keeps the rest's shape. */
  lemma AlphabetCons(g: string, t: string, n: nat)
    requires AlphabetUpTo(g, 0) && AlphabetUpTo(t, n) && n <= |t|
    ensures AlphabetUpTo(g + t, n)
    ensures |t| > 0 ==> (g + t)[|g + t| - 1] == t[|t| - 1]
    ensures |t| > 1 ==> (g + t)[|g + t| - 2] == t[|t| - 2]
  {
    var s := g + t;
    forall i | 0 <= i < |s| - n ensures IsAlphabetChar(s[i]) {
      if i >= |g| {
        assert s[i] == t[i - |g|];
      }
    }
  }

  lemma Mod3Step(n: nat)
    requires n >= 3
    ensures (n - 3) % 3 == n % 3
  {
  }

  /** Every character before the padding comes from the URL-safe alphabet. */
  lemma {:induction false} EncodeAlphabet(b: seq<byte>)
    ensures |b| % 3 == 0 ==> AlphabetUpTo(Encode(b), 0)
    ensures |b| % 3 == 1 ==> AlphabetUpTo(Encode(b), 2) && |Encode(b)| > 1
                             && Encode(b)[|Encode(b)| - 2] == Pad && Encode(b)[|Encode(b)| - 1] == Pad
    ensures |b| % 3 == 2 ==> AlphabetUpTo(Encode(b), 1) && |Encode(b)| > 0 && Encode(b)[|Encode(b)| - 1] == Pad
    decreases |b|
  {
    if |b| >= 3 {
      EncodeAlphabet(b[3..]);
      var g, t := EncodeGroup(b[0], b[1], b[2]), Encode(b[3..]);
      assert Encode(b) == g + t;
      Mod3Step(|b|);
      if |b| % 3 == 0 {
        AlphabetCons(g, t, 0);
      } else if |b| % 3 == 1 {
        AlphabetCons(g, t, 2);
      } else {
        AlphabetCons(g, t, 1);
      }
    }
  }

  /** A token from 32 random bytes: 44 characters, 43 from the alphabet then one '='. */
  lemma TokenShape(b: seq<byte>)
    requires |b| == 32
    ensures |Encode(b)| == 44
    ensures forall i :: 0 <= i < 43 ==> IsAlphabetChar(Encode(b)[i])
    ensures Encode(b)[43] == Pad
  {
    EncodeLength(b);
    EncodeAlphabet(b);
    assert AlphabetUpTo(Encode(b), 1);
  }
}
