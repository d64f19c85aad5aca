/** The printed form of a packet, as hs_ax25_packet_pack_tnc2 of src/hamstuff/ax25_packet.c writes it:
    SOURCE>DESTINATION,REPEATER,...:INFORMATION. */
module Tnc2 {
  import opened Bits
  import opened Ax25Call
  import opened Ax25Packet

  const GREATER: byte := 0x3e
  const COMMA: byte := 0x2c
  const COLON: byte := 0x3a

  predicate Printable(calls: seq<Call>) {
    forall k | 0 <= k < |calls| :: |calls[k].base| <= MAX_CALLSIGN_LEN
  }

  /** Calls after the first, each after its separator. */
  function Path(calls: seq<Call>): seq<byte>
    requires Printable(calls)
  {
    if calls == [] then [] else Path(Front(calls)) + ([COMMA] + PrintCall(Last(calls)))
  }

  function Header(dest: Call, repeaters: seq<Call>): seq<byte>
    requires |dest.base| <= MAX_CALLSIGN_LEN && Printable(repeaters)
  {
    PrintCall(dest) + Path(repeaters)
  }

  function Line(p: Packet): seq<byte>
    requires p.Packable()
  {
    PrintCall(p.src) + ([GREATER] + (Header(p.dest, p.repeaters) + ([COLON] + p.info)))
  }

  /** The way, from the front: a comma and a printed call for each repeater. */
  lemma {:induction false} PathText(calls: seq<Call>)
    requires Printable(calls)
    ensures Path(calls) == if calls == [] then [] else [0x2c] + PrintCall(calls[0]) + Path(calls[1..])
  {
    if |calls| <= 1 {
      assert calls != [] ==> Front(calls) == [] && calls[1..] == [];
    } else {
      PathText(Front(calls));
      assert Front(calls)[1..] == Front(calls[1..]);
      Assoc([0x2c] + PrintCall(calls[0]), Path(Front(calls[1..])), [COMMA] + PrintCall(Last(calls)));
    }
  }

  /** The line in characters: source, `>`, destination, way, `:`, information. */
  lemma LineText(p: Packet)
    requires p.Packable()
    ensures Line(p) == PrintCall(p.src) + [0x3e] + PrintCall(p.dest) + Path(p.repeaters) + [0x3a] + p.info
  {
  }

  // ----- reading it back -----

  /** Bases without any of the characters that separate and mark. */
  predicate Plain(c: Call) {
    && |c.base| <= MAX_CALLSIGN_LEN && c.ssid <= 99 && c.repeated <= 1
    && GREATER !in c.base && COMMA !in c.base && COLON !in c.base && DASH !in c.base && STAR !in c.base
  }

  lemma SplitAtFirst(a: seq<byte>, x: seq<byte>, b: seq<byte>, y: seq<byte>, sep: byte)
    requires sep !in a && sep !in b
    requires a + ([sep] + x) == b + ([sep] + y)
    ensures a == b && x == y
  {
    var t := a + ([sep] + x);
    assert t[|a|] == sep && t[|b|] == sep;
    assert forall k | 0 <= k < |a| :: t[k] == a[k];
    assert forall k | 0 <= k < |b| :: t[k] == b[k];
    assert t[..|a|] == a && t[..|b|] == b;
    assert t[|a| + 1..] == x && t[|b| + 1..] == y;
  }

  lemma SplitAtLast(a: seq<byte>, x: seq<byte>, b: seq<byte>, y: seq<byte>, sep: byte)
    requires sep !in x && sep !in y
    requires a + ([sep] + x) == b + ([sep] + y)
    ensures a == b && x == y
  {
    var t := a + ([sep] + x);
    assert t[|a|] == sep && t[|b|] == sep;
    assert forall k | |a| < k < |t| :: t[k] == x[k - |a| - 1];
    assert forall k | |b| < k < |t| :: t[k] == y[k - |b| - 1];
    assert t[..|a|] == a && t[..|b|] == b;
    assert t[|a| + 1..] == x && t[|b| + 1..] == y;
  }

  lemma DigitsAreDigits(ssid: byte)
    requires ssid <= 99
    ensures forall c | c in SsidDigits(ssid) :: IsDigit(c)
  {
    DigitValues(ssid);
  }

  lemma PrintedChars(c: Call, ch: byte)
    requires Plain(c) && !IsDigit(ch)
    ensures ch !in SsidDigits(c.ssid)
    ensures ch in PrintCall(c) <==> ch in c.base || (c.ssid != 0 && ch == DASH) || (c.repeated != 0 && ch == STAR)
  {
    DigitsAreDigits(c.ssid);
    if c.ssid != 0 {
      assert PrintCall(c) == c.base + [DASH] + SsidDigits(c.ssid) + RepeatedText(c.repeated);
    } else {
      assert PrintCall(c) == c.base + RepeatedText(c.repeated);
    }
  }

  lemma MarkUnique(a: seq<byte>, r: byte, b: seq<byte>, q: byte)
    requires STAR !in a && STAR !in b && r <= 1 && q <= 1
    requires a + RepeatedText(r) == b + RepeatedText(q)
    ensures a == b && r == q
  {
    var t := a + RepeatedText(r);
    assert r == 1 <==> STAR in t by {
      if r == 1 { assert t[|a|] == STAR; }
    }
    assert q == 1 <==> STAR in b + RepeatedText(q) by {
      if q == 1 { assert (b + RepeatedText(q))[|b|] == STAR; }
    }
    assert |a| == |b|;
    assert t[..|a|] == a && t[..|b|] == b;
  }

  lemma PrintedParts(c: Call)
    requires Plain(c)
    ensures c.ssid == 0 ==> PrintCall(c) == c.base + RepeatedText(c.repeated)
    ensures c.ssid != 0 ==> PrintCall(c) == c.base + ([DASH] + (SsidDigits(c.ssid) + RepeatedText(c.repeated)))
  {
  }

  lemma PrintCallInjective(c: Call, d: Call)
    requires Plain(c) && Plain(d) && PrintCall(c) == PrintCall(d)
    ensures c == d
  {
    PrintedChars(c, DASH);
    PrintedChars(d, DASH);
    PrintedChars(c, STAR);
    PrintedChars(d, STAR);
    PrintedParts(c);
    PrintedParts(d);
    if c.ssid != 0 {
      var x, y := SsidDigits(c.ssid), SsidDigits(d.ssid);
      SplitAtFirst(c.base, x + RepeatedText(c.repeated), d.base, y + RepeatedText(d.repeated), DASH);
      MarkUnique(x, c.repeated, y, d.repeated);
      SsidDecimal(c.ssid);
      SsidDecimal(d.ssid);
    } else {
      MarkUnique(c.base, c.repeated, d.base, d.repeated);
    }
  }

  predicate AllPlain(calls: seq<Call>) {
    forall k | 0 <= k < |calls| :: Plain(calls[k])
  }

  lemma {:induction false} PathChars(calls: seq<Call>, ch: byte)
    requires AllPlain(calls) && (ch == GREATER || ch == COLON)
    ensures ch !in Path(calls)
  {
    if calls == [] {
    } else {
      PathChars(Front(calls), ch);
      PrintedChars(Last(calls), ch);
    }
  }

  lemma HeaderChars(dest: Call, repeaters: seq<Call>, ch: byte)
    requires Plain(dest) && AllPlain(repeaters) && (ch == GREATER || ch == COLON)
    ensures ch !in Header(dest, repeaters)
  {
    PrintedChars(dest, ch);
    PathChars(repeaters, ch);
  }

  lemma HeaderSnoc(dest: Call, repeaters: seq<Call>)
    requires |dest.base| <= MAX_CALLSIGN_LEN && Printable(repeaters) && repeaters != []
    ensures Header(dest, repeaters) == Header(dest, Front(repeaters)) + ([COMMA] + PrintCall(Last(repeaters)))
  {
    Assoc(PrintCall(dest), Path(Front(repeaters)), [COMMA] + PrintCall(Last(repeaters)));
  }

  /** A header without repeaters has no comma in it. */
  lemma LastRepeater(dest: Call, repeaters: seq<Call>)
    requires Plain(dest) && AllPlain(repeaters)
    ensures repeaters == [] <==> COMMA !in Header(dest, repeaters)
  {
    PrintedChars(dest, COMMA);
    if repeaters != [] {
      HeaderSnoc(dest, repeaters);
      var a := Header(dest, Front(repeaters));
      assert (a + ([COMMA] + PrintCall(Last(repeaters))))[|a|] == COMMA;
    }
  }

  lemma {:induction false} HeaderInjective(dest: Call, reps: seq<Call>, dest': Call, reps': seq<Call>)
    requires Plain(dest) && Plain(dest') && AllPlain(reps) && AllPlain(reps')
    requires Header(dest, reps) == Header(dest', reps')
    ensures dest == dest' && reps == reps'
    decreases |reps|
  {
    LastRepeater(dest, reps);
    LastRepeater(dest', reps');
    if reps == [] {
      assert Header(dest, []) == PrintCall(dest) && Header(dest', []) == PrintCall(dest');
      PrintCallInjective(dest, dest');
    } else {
      HeaderSnoc(dest, reps);
      HeaderSnoc(dest', reps');
      PrintedChars(Last(reps), COMMA);
      PrintedChars(Last(reps'), COMMA);
      SplitAtLast(Header(dest, Front(reps)), PrintCall(Last(reps)),
                  Header(dest', Front(reps')), PrintCall(Last(reps')), COMMA);
      PrintCallInjective(Last(reps), Last(reps'));
      HeaderInjective(dest, Front(reps), dest', Front(reps'));
      FrontLast(reps);
      FrontLast(reps');
    }
  }

  /** The printed line says exactly who sent what to whom on which way; only control and protocol are not
      in it.  Nothing is asked of the information field. */
  lemma LineDetermines(p: Packet, q: Packet)
    requires AllPlain(p.Calls()) && AllPlain(q.Calls()) && p.Packable() && q.Packable()
    ensures Line(p) == Line(q) <==>
            p.src == q.src && p.dest == q.dest && p.repeaters == q.repeaters && p.info == q.info
  {
    if Line(p) == Line(q) {
      PlainParts(p);
      PlainParts(q);
      var x, y := Header(p.dest, p.repeaters) + ([COLON] + p.info), Header(q.dest, q.repeaters) + ([COLON] + q.info);
      PrintedChars(p.src, GREATER);
      PrintedChars(q.src, GREATER);
      SplitAtFirst(PrintCall(p.src), x, PrintCall(q.src), y, GREATER);
      PrintCallInjective(p.src, q.src);
      HeaderChars(p.dest, p.repeaters, COLON);
      HeaderChars(q.dest, q.repeaters, COLON);
      SplitAtFirst(Header(p.dest, p.repeaters), p.info, Header(q.dest, q.repeaters), q.info, COLON);
      HeaderInjective(p.dest, p.repeaters, q.dest, q.repeaters);
    }
  }

  lemma PlainParts(p: Packet)
    requires AllPlain(p.Calls())
    ensures Plain(p.dest) && Plain(p.src) && AllPlain(p.repeaters)
  {
    assert Plain(p.Calls()[0]) && Plain(p.Calls()[1]);
    forall k | 0 <= k < |p.repeaters|
      ensures Plain(p.repeaters[k])
    {
      assert Plain(p.Calls()[2 + k]);
    }
  }
}
