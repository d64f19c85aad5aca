/** The NRZI line code: src/modemstuff/linecode.c.  A 0 changes the level of the line, a 1 keeps it. */
module LineCode {
  import opened Bits

  class NrziEncoder {
    var nrziBit: bit

    constructor ()
      ensures nrziBit == false
    {
      nrziBit := false;
    }

    method Encode(b: bit) returns (level: bit)
      modifies this
      ensures level == nrziBit == if b then old(nrziBit) else !old(nrziBit)
    {
      if !b {
        nrziBit := !nrziBit;
      }
      return nrziBit;
    }
  }

  class NrziDecoder {
    var lastBit: bit

    constructor ()
      ensures lastBit == false
    {
      lastBit := false;
    }

    /** MS_BIT_NONE, here None, passes through and changes nothing. */
    method Decode(b: Option<bit>) returns (out: Option<bit>)
      modifies this
      ensures b == None ==> out == None && lastBit == old(lastBit)
      ensures b != None ==> out == Some(b.value == old(lastBit)) && lastBit == b.value
    {
      if b == None {
        return None;
      }
      out := Some(b.value == lastBit);
      lastBit := b.value;
    }
  }

  function Level(level: bit, b: bit): bit {
    if b then level else !level
  }

  /** The level before the next bit. */
  function LevelAfter(level: bit, line: seq<bit>): bit {
    if line == [] then level else Last(line)
  }

  function Encoded(level: bit, bits: seq<bit>): (r: seq<bit>)
    ensures |r| == |bits|
  {
    if bits == [] then []
    else
      var line := Encoded(level, Front(bits));
      line + [Level(LevelAfter(level, line), Last(bits))]
  }

  function Decoded(level: bit, line: seq<bit>): (r: seq<bit>)
    ensures |r| == |line|
  {
    if line == [] then []
    else Decoded(level, Front(line)) + [Last(line) == LevelAfter(level, Front(line))]
  }

  /** The same line with mark and space exchanged, or not. */
  function Heard(line: seq<bit>, inverted: bool): (r: seq<bit>)
    ensures |r| == |line|
  {
    seq(|line|, i requires 0 <= i < |line| => line[i] != inverted)
  }

  lemma HeardSnoc(line: seq<bit>, b: bit, inverted: bool)
    ensures Heard(line + [b], inverted) == Heard(line, inverted) + [b != inverted]
  {
  }

  lemma {:induction false} DecodedConcat(level: bit, a: seq<bit>, b: seq<bit>)
    ensures Decoded(level, a + b) == Decoded(level, a) + Decoded(LevelAfter(level, a), b)
  {
    if b == [] {
      assert a + b == a;
    } else {
      DecodedConcat(level, a, Front(b));
      FrontOfConcat(a, b);
      LevelAfterConcat(level, a, Front(b));
      Assoc(Decoded(level, a), Decoded(LevelAfter(level, a), Front(b)),
            [Last(b) == LevelAfter(level, a + Front(b))]);
    }
  }

  lemma LevelAfterConcat(level: bit, a: seq<bit>, b: seq<bit>)
    ensures LevelAfter(level, a + b) == LevelAfter(LevelAfter(level, a), b)
  {
    if b == [] {
      assert a + b == a;
    }
  }

  lemma DecodedSnoc(level: bit, line: seq<bit>, b: bit)
    ensures Decoded(level, line + [b]) == Decoded(level, line) + [b == LevelAfter(level, line)]
  {
    assert Front(line + [b]) == line;
  }

  /** Different bits never share a line. */
  lemma {:induction false} EncodedInjective(level: bit, a: seq<bit>, b: seq<bit>)
    requires Encoded(level, a) == Encoded(level, b)
    ensures a == b
  {
    assert |a| == |Encoded(level, a)| == |Encoded(level, b)| == |b|;
    if a == [] {
    } else {
      assert Encoded(level, Front(a)) == Front(Encoded(level, a)) == Encoded(level, Front(b));
      EncodedInjective(level, Front(a), Front(b));
      assert Last(Encoded(level, a)) == Last(Encoded(level, b));
      FrontLast(a);
      FrontLast(b);
    }
  }

  lemma LevelHeard(level: bit, line: seq<bit>, inverted: bool)
    requires line != []
    ensures Heard(line, inverted)[0] == (line[0] != inverted)
    ensures LevelAfter(level, Heard(line, inverted)) == (Last(line) != inverted)
  {
  }

  lemma RestGrows(bits: seq<bit>)
    requires |bits| > 1
    ensures Front(bits)[1..] + [Last(bits)] == bits[1..]
  {
  }

  /** The decoder's bit for one more bit of the encoder. */
  lemma DecodeStep(from: bit, level: bit, line: seq<bit>, b: bit, inverted: bool)
    ensures var more := line + [Level(LevelAfter(level, line), b)];
      && |more| > 0
      && Decoded(from, Heard(more, inverted)) ==
         Decoded(from, Heard(line, inverted)) + [if line == [] then Heard(more, inverted)[0] == from else b]
  {
    var v := Level(LevelAfter(level, line), b);
    HeardSnoc(line, v, inverted);
    DecodedSnoc(from, Heard(line, inverted), v != inverted);
    if line != [] {
      LevelHeard(from, line, inverted);
    }
  }

  /** Decoding is a left inverse of encoding whatever the polarity, except that the first bit depends on the
      level the decoder starts from. */
  lemma {:induction false} DecodeEncoded(from: bit, level: bit, bits: seq<bit>, inverted: bool)
    requires bits != []
    ensures var line := Heard(Encoded(level, bits), inverted);
      Decoded(from, line) == [line[0] == from] + bits[1..]
  {
    var line, b := Encoded(level, Front(bits)), Last(bits);
    DecodeStep(from, level, line, b, inverted);
    if |bits| > 1 {
      DecodeEncoded(from, level, Front(bits), inverted);
      LevelHeard(from, line, inverted);
      LevelHeard(from, Encoded(level, bits), inverted);
      Assoc([Heard(line, inverted)[0] == from], Front(bits)[1..], [b]);
      RestGrows(bits);
    }
  }
}
