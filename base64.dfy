/** Base64 as `base64.b64decode` reads it (scripts/transformer.py:179): the
    payload must be ASCII; characters outside the standard alphabet of
    section 4 of RFC 4648 are skipped; a pad sequence ends the input once a
    quad has two or three characters; and whatever is left over must make
    whole quads. The encoder is the one of section 4 of RFC 4648, with
    padding. */
module Base64 {

  import opened Wrappers
  import opened Bytes

  /** The value of an alphabet character, `-1` for any other character. */
  function SextetOf(c: char): (r: int)
    ensures -1 <= r < 64
  {
    if 'A' <= c <= 'Z' then c as int - 'A' as int
    else if 'a' <= c <= 'z' then c as int - 'a' as int + 26
    else if '0' <= c <= '9' then c as int - '0' as int + 52
    else if c == '+' then 62
    else if c == '/' then 63
    else -1
  }

  /** The alphabet character of a value. */
  function CharOf(v: nat): (c: char)
    requires v < 64
    ensures SextetOf(c) == v && c != '=' && c as int < 128
  {
    if v < 26 then ('A' as int + v) as char
    else if v < 52 then ('a' as int + v - 26) as char
    else if v < 62 then ('0' as int + v - 52) as char
    else if v == 62 then '+'
    else '/'
  }

  // ---------------------------------------------------------------------
  // Decoding
  // ---------------------------------------------------------------------

  /** The decoder's registers: the bytes so far, the position in the
      current quad, the bits held over and the pads seen. */
  datatype DecodeState = DecodeState(out: seq<byte>, quad: nat, left: nat, pads: nat)

  const Start := DecodeState([], 0, 0, 0)

  /** One alphabet character of value `v`. The held bits are shifted left
      and combined with the top bits of `v`, stored as an unsigned char. */
  function Absorb(st: DecodeState, v: nat): DecodeState
    requires v < 64
  {
    if st.quad == 0 then DecodeState(st.out, 1, v, 0)
    else if st.quad == 1 then DecodeState(st.out + [((st.left * 4 + v / 16) % 256) as byte], 2, v % 16, 0)
    else if st.quad == 2 then DecodeState(st.out + [((st.left * 16 + v / 4) % 256) as byte], 3, v % 4, 0)
    else DecodeState(st.out + [((st.left * 64 + v) % 256) as byte], 0, 0, 0)
  }

  /** The decoding loop from state `st` over the characters `s`. */
  function Run(s: string, st: DecodeState): Option<seq<byte>>
    decreases |s|
  {
    if |s| == 0 then
      if st.quad == 0 then Some(st.out) else None
    else if s[0] == '=' then
      if st.quad >= 2 && st.quad + st.pads + 1 >= 4 then Some(st.out)
      else Run(s[1..], st.(pads := if st.quad >= 2 then st.pads + 1 else st.pads))
    else if SextetOf(s[0]) < 0 then Run(s[1..], st)
    else Run(s[1..], Absorb(st, SextetOf(s[0])))
  }

  predicate IsAscii(s: string) {
    forall i :: 0 <= i < |s| ==> s[i] as int < 128
  }

  /** `base64.b64decode(s)`; `None` where it raises. */
  function Decode(s: string): Option<seq<byte>> {
    if IsAscii(s) then Run(s, Start) else None
  }

  // ---------------------------------------------------------------------
  // Encoding
  // ---------------------------------------------------------------------

  /** Section 4 of RFC 4648: three bytes make four characters; a final
      one or two bytes are padded with `=`. */
  function Encode(b: seq<byte>): (r: string)
    ensures IsAscii(r)
    ensures |r| % 4 == 0
    decreases |b|
  {
    if |b| == 0 then ""
    else if |b| == 1 then Single(b[0])
    else if |b| == 2 then Pair(b[0], b[1])
    else Triple(b[0], b[1], b[2]) + Encode(b[3..])
  }

  /** Three bytes as four characters. */
  function Triple(x: byte, y: byte, z: byte): (r: string)
    ensures |r| == 4 && IsAscii(r)
  {
    var xi, yi, zi := x as int, y as int, z as int;
    [CharOf(xi / 4), CharOf(xi % 4 * 16 + yi / 16), CharOf(yi % 16 * 4 + zi / 64), CharOf(zi % 64)]
  }

  /** Two final bytes as three characters and a pad. */
  function Pair(x: byte, y: byte): (r: string)
    ensures |r| == 4 && IsAscii(r)
  {
    var xi, yi := x as int, y as int;
    [CharOf(xi / 4), CharOf(xi % 4 * 16 + yi / 16), CharOf(yi % 16 * 4), '=']
  }

  /** One final byte as two characters and two pads. */
  function Single(x: byte): (r: string)
    ensures |r| == 4 && IsAscii(r)
  {
    var xi := x as int;
    [CharOf(xi / 4), CharOf(xi % 4 * 16), '=', '=']
  }

  // ---------------------------------------------------------------------
  // Properties
  // ---------------------------------------------------------------------

  /** The bits of three bytes survive the trip through four sextets. */
  lemma Regroup(x: int, y: int, z: int)
    requires 0 <= x < 256 && 0 <= y < 256 && 0 <= z < 256
    ensures (x / 4 * 4 + (x % 4 * 16 + y / 16) / 16) % 256 == x
    ensures (x % 4 * 16 + y / 16) % 16 == y / 16
    ensures (y / 16 * 16 + (y % 16 * 4 + z / 64) / 4) % 256 == y
    ensures (y % 16 * 4 + z / 64) % 4 == z / 64
    ensures (z / 64 * 64 + z % 64) % 256 == z
    ensures (x / 4 * 4 + x % 4 * 16 / 16) % 256 == x
    ensures (y / 16 * 16 + y % 16 * 4 / 4) % 256 == y
  {
  }

  /** The loop on one alphabet character. */
  lemma RunChar(c: char, t: string, st: DecodeState)
    requires SextetOf(c) >= 0
    ensures Run([c] + t, st) == Run(t, Absorb(st, SextetOf(c)))
  {
    assert ([c] + t)[1..] == t;
  }

  /** The loop on a pad that ends the input. */
  lemma RunPadEnds(t: string, st: DecodeState)
    requires st.quad >= 2 && st.quad + st.pads + 1 >= 4
    ensures Run(['='] + t, st) == Some(st.out)
  {
  }

  /** The loop on a pad that does not. */
  lemma RunPadGoesOn(t: string, st: DecodeState)
    requires st.quad == 2 && st.pads == 0
    ensures Run(['='] + t, st) == Run(t, st.(pads := 1))
  {
    assert (['='] + t)[1..] == t;
  }

  /** The registers through one full quad. */
  lemma AbsorbQuad(x: byte, y: byte, z: byte, o: seq<byte>)
    ensures var xi, yi, zi := x as int, y as int, z as int;
      var st1 := Absorb(DecodeState(o, 0, 0, 0), xi / 4);
      var st2 := Absorb(st1, xi % 4 * 16 + yi / 16);
      var st3 := Absorb(st2, yi % 16 * 4 + zi / 64);
      st1 == DecodeState(o, 1, xi / 4, 0)
      && st2 == DecodeState(o + [x], 2, yi / 16, 0)
      && st3 == DecodeState(o + [x, y], 3, zi / 64, 0)
      && Absorb(st3, zi % 64) == DecodeState(o + [x, y, z], 0, 0, 0)
  {
    Regroup(x as int, y as int, z as int);
  }

  /** One full quad of characters appends its three bytes. */
  lemma RunQuad(x: byte, y: byte, z: byte, t: string, o: seq<byte>)
    ensures Run(Triple(x, y, z) + t, DecodeState(o, 0, 0, 0)) == Run(t, DecodeState(o + [x, y, z], 0, 0, 0))
  {
    var xi, yi, zi := x as int, y as int, z as int;
    var c0, c1, c2, c3 := CharOf(xi / 4), CharOf(xi % 4 * 16 + yi / 16), CharOf(yi % 16 * 4 + zi / 64), CharOf(zi % 64);
    AbsorbQuad(x, y, z, o);
    var st1 := DecodeState(o, 1, xi / 4, 0);
    var st2 := DecodeState(o + [x], 2, yi / 16, 0);
    var st3 := DecodeState(o + [x, y], 3, zi / 64, 0);
    assert [c0, c1, c2, c3] + t == [c0] + ([c1] + ([c2] + ([c3] + t)));
    RunChar(c0, [c1] + ([c2] + ([c3] + t)), DecodeState(o, 0, 0, 0));
    RunChar(c1, [c2] + ([c3] + t), st1);
    RunChar(c2, [c3] + t, st2);
    RunChar(c3, t, st3);
  }

  /** Two bytes make three characters and a pad. */
  lemma RunPair(x: byte, y: byte, o: seq<byte>)
    ensures Run(Pair(x, y), DecodeState(o, 0, 0, 0)) == Some(o + [x, y])
  {
    var xi, yi := x as int, y as int;
    var c0, c1, c2 := CharOf(xi / 4), CharOf(xi % 4 * 16 + yi / 16), CharOf(yi % 16 * 4);
    AbsorbQuad(x, y, 0, o);
    var st1 := DecodeState(o, 1, xi / 4, 0);
    var st2 := DecodeState(o + [x], 2, yi / 16, 0);
    var st3 := DecodeState(o + [x, y], 3, 0, 0);
    assert [c0, c1, c2, '='] == [c0] + ([c1] + ([c2] + (['='] + [])));
    RunChar(c0, [c1] + ([c2] + (['='] + [])), DecodeState(o, 0, 0, 0));
    RunChar(c1, [c2] + (['='] + []), st1);
    RunChar(c2, ['='] + [], st2);
    RunPadEnds([], st3);
  }

  /** One byte makes two characters and two pads. */
  lemma RunSingle(x: byte, o: seq<byte>)
    ensures Run(Single(x), DecodeState(o, 0, 0, 0)) == Some(o + [x])
  {
    var xi := x as int;
    var c0, c1 := CharOf(xi / 4), CharOf(xi % 4 * 16);
    AbsorbQuad(x, 0, 0, o);
    var st1 := DecodeState(o, 1, xi / 4, 0);
    var st2 := DecodeState(o + [x], 2, 0, 0);
    assert [c0, c1, '=', '='] == [c0] + ([c1] + (['='] + (['='] + [])));
    RunChar(c0, [c1] + (['='] + (['='] + [])), DecodeState(o, 0, 0, 0));
    RunChar(c1, ['='] + (['='] + []), st1);
    RunPadGoesOn(['='] + [], st2);
    RunPadEnds([], st2.(pads := 1));
  }

  /** Decoding an encoding gives the bytes back. */
  lemma {:induction false} RunEncode(b: seq<byte>, o: seq<byte>)
    ensures Run(Encode(b), DecodeState(o, 0, 0, 0)) == Some(o + b)
    decreases |b|
  {
    if |b| == 0 {
      assert o + b == o;
    } else if |b| == 1 {
      RunSingle(b[0], o);
      assert b == [b[0]];
    } else if |b| == 2 {
      RunPair(b[0], b[1], o);
      assert b == [b[0], b[1]];
    } else {
      RunQuad(b[0], b[1], b[2], Encode(b[3..]), o);
      RunEncode(b[3..], o + [b[0], b[1], b[2]]);
      assert o + [b[0], b[1], b[2]] + b[3..] == o + b;
    }
  }

  /** The round trip of RFC 4648 section 4 through the lenient decoder. */
  lemma DecodeEncode(b: seq<byte>)
    ensures Decode(Encode(b)) == Some(b)
  {
    RunEncode(b, []);
    assert [] + b == b;
  }

  /** The lenient decoder skips any ASCII character outside the alphabet
      that is not `=`. */
  lemma {:induction false} JunkSkipped(a: string, c: char, t: string, st: DecodeState)
    requires SextetOf(c) < 0 && c != '='
    ensures Run(a + [c] + t, st) == Run(a + t, st)
    decreases |a|
  {
    if |a| == 0 {
      assert (a + [c] + t)[1..] == t && a + t == t;
    } else {
      assert (a + [c] + t)[0] == a[0] && (a + t)[0] == a[0];
      assert (a + [c] + t)[1..] == a[1..] + [c] + t;
      assert (a + t)[1..] == a[1..] + t;
      if a[0] == '=' {
        if !(st.quad >= 2 && st.quad + st.pads + 1 >= 4) {
          JunkSkipped(a[1..], c, t, st.(pads := if st.quad >= 2 then st.pads + 1 else st.pads));
        }
      } else if SextetOf(a[0]) < 0 {
        JunkSkipped(a[1..], c, t, st);
      } else {
        JunkSkipped(a[1..], c, t, Absorb(st, SextetOf(a[0])));
      }
    }
  }

  /** The number of alphabet characters of `s`. */
  function Sextets(s: string): nat
    decreases |s|
  {
    if |s| == 0 then 0 else (if SextetOf(s[0]) >= 0 then 1 else 0) + Sextets(s[1..])
  }

  /** Without padding, a payload decodes exactly when its alphabet
      characters complete the current quad. */
  lemma {:induction false} UnpaddedDecodes(s: string, st: DecodeState)
    requires '=' !in s && st.quad < 4
    ensures Run(s, st).Some? <==> (st.quad + Sextets(s)) % 4 == 0
    decreases |s|
  {
    if |s| > 0 {
      assert '=' !in s[1..] by { assert forall i :: 0 <= i < |s| - 1 ==> s[1..][i] == s[i + 1]; }
      assert s[0] in s;
      if SextetOf(s[0]) < 0 {
        assert Run(s, st) == Run(s[1..], st);
        assert Sextets(s) == Sextets(s[1..]);
        UnpaddedDecodes(s[1..], st);
      } else {
        var st' := Absorb(st, SextetOf(s[0]));
        assert Run(s, st) == Run(s[1..], st');
        assert Sextets(s) == 1 + Sextets(s[1..]);
        QuadStep(st.quad, Sextets(s[1..]));
        UnpaddedDecodes(s[1..], st');
      }
    }
  }

  /** The position in the quad counts alphabet characters modulo four. */
  lemma QuadStep(q: nat, n: nat)
    requires q < 4
    ensures ((if q == 3 then 0 else q + 1) + n) % 4 == (q + 1 + n) % 4
  {
    if q == 3 {
      assert q + 1 + n == n + 4;
    }
  }

  /** A non-ASCII character anywhere makes decoding raise. */
  lemma NonAsciiRejected(s: string, i: nat)
    requires i < |s| && s[i] as int >= 128
    ensures Decode(s) == None
  {
  }
}
