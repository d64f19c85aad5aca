/** The KISS link between the TNC and its clients: src/hamstuff/kiss.c.

    The escape rule is that of SLIP (RFC 1055, PROTOCOL).  `State` is the value of the C decoder, of its
    buffer only the part in use; `Next` and `Handed` are one call of hs_kiss_decoder_process. */
module Kiss {
  import opened Bits

  const END: byte := 0xC0
  const ESC: byte := 0xDB
  const ESC_END: byte := 0xDC
  const ESC_ESC: byte := 0xDD
  const RETURN: byte := 0xFF
  const DATA_FRAME: byte := 0x00

  const BUFFER_SIZE := 512
  const MIN_FRAME_SIZE := 1

  datatype Message = Message(port: byte, command: byte, data: seq<byte>)

  datatype Mode = Undefined | Reading | ReadingEscaped

  datatype State = State(mode: Mode, buffer: seq<byte>) {
    predicate Valid() {
      |buffer| <= BUFFER_SIZE
    }
  }

  // ----- the encoder -----

  function Header(port: byte, command: byte): byte {
    (port << 4) | command
  }

  function PortOf(header: byte): byte {
    (header >> 4) & 0x0f
  }

  function CommandOf(header: byte): byte {
    header & 0x0f
  }

  function Escaped(b: byte): seq<byte> {
    if b == END then [ESC, ESC_END] else if b == ESC then [ESC, ESC_ESC] else [b]
  }

  function Escape(data: seq<byte>): seq<byte> {
    if data == [] then [] else Escape(Front(data)) + Escaped(Last(data))
  }

  /** The command byte is not escaped. */
  function Encode(m: Message): seq<byte> {
    [END, Header(m.port, m.command)] + Escape(m.data) + [END]
  }

  lemma {:induction false} EscapeLength(data: seq<byte>)
    ensures |data| <= |Escape(data)| <= 2 * |data|
  {
    if data == [] {
    } else {
      EscapeLength(Front(data));
    }
  }

  /** One data byte of the loop in hs_kiss_encode. */
  method PutEscaped(b: byte, buffer: array<byte>, pos: nat) returns (pos': nat)
    requires pos + |Escaped(b)| <= buffer.Length
    modifies buffer
    ensures pos' == pos + |Escaped(b)|
    ensures buffer[..pos'] == old(buffer[..pos]) + Escaped(b)
    ensures forall k | pos' <= k < buffer.Length :: buffer[k] == old(buffer[k])
  {
    pos' := pos;
    if b == END {
      buffer[pos'] := ESC;
      buffer[pos' + 1] := ESC_END;
      pos' := pos' + 2;
    } else if b == ESC {
      buffer[pos'] := ESC;
      buffer[pos' + 1] := ESC_ESC;
      pos' := pos' + 2;
    } else {
      buffer[pos'] := b;
      pos' := pos' + 1;
    }
  }

  function Encoding(m: Message, i: nat): seq<byte>
    requires i <= |m.data|
  {
    [END, Header(m.port, m.command)] + Escape(m.data[..i])
  }

  /** hs_kiss_encode; what lies after the message in the buffer stays as it was. */
  method EncodeMessage(m: Message, buffer: array<byte>) returns (pos: nat)
    requires |Encode(m)| <= buffer.Length
    modifies buffer
    ensures pos == |Encode(m)| && buffer[..pos] == Encode(m)
    ensures forall k | pos <= k < buffer.Length :: buffer[k] == old(buffer[k])
  {
    assert m.data[..|m.data|] == m.data;
    EncodingStart(m);
    buffer[0] := END;
    buffer[1] := Header(m.port, m.command);
    pos := 2;
    for i := 0 to |m.data|
      invariant pos == |Encoding(m, i)| < buffer.Length && buffer[..pos] == Encoding(m, i)
      invariant forall k | pos <= k < buffer.Length :: buffer[k] == old(buffer[k])
    {
      EscapeStep(m, i);
      pos := PutEscaped(m.data[i], buffer, pos);
    }
    buffer[pos] := END;
    pos := pos + 1;
  }

  lemma EncodingStart(m: Message)
    ensures Encoding(m, 0) == [END, Header(m.port, m.command)]
    ensures |Encode(m)| >= 3 && Encode(m) == Encoding(m, |m.data|) + [END]
  {
    assert m.data[..|m.data|] == m.data;
  }

  lemma {:induction false} EscapeConcat(a: seq<byte>, b: seq<byte>)
    ensures Escape(a + b) == Escape(a) + Escape(b)
  {
    if b == [] {
      assert a + b == a;
    } else {
      EscapeConcat(a, Front(b));
      FrontOfConcat(a, b);
      Assoc(Escape(a), Escape(Front(b)), Escaped(Last(b)));
    }
  }

  lemma EscapeStep(m: Message, i: nat)
    requires i < |m.data|
    ensures Encoding(m, i + 1) == Encoding(m, i) + Escaped(m.data[i])
    ensures |Encoding(m, i + 1)| < |Encode(m)|
  {
    assert Front(m.data[..i + 1]) == m.data[..i];
    EscapeConcat(m.data[..i + 1], m.data[i + 1..]);
    assert m.data == m.data[..i + 1] + m.data[i + 1..];
  }

  // ----- the decoder, one byte -----

  function Store(s: State, b: byte): (r: State)
    requires s.Valid()
    ensures r.Valid()
  {
    if |s.buffer| < BUFFER_SIZE then State(Reading, s.buffer + [b]) else State(Undefined, [])
  }

  function Next(s: State, b: byte): (r: State)
    requires s.Valid()
    ensures r.Valid()
  {
    match s.mode
    case Undefined => if b == END then State(Reading, []) else s
    case Reading =>
      if b == ESC then State(ReadingEscaped, s.buffer)
      else if b == END then State(Reading, [])
      else Store(s, b)
    case ReadingEscaped =>
      if b == ESC_END then Store(s, END)
      else if b == ESC_ESC then Store(s, ESC)
      else if |s.buffer| < BUFFER_SIZE then State(Reading, s.buffer)
      else State(Undefined, [])
  }

  function Interpret(frame: seq<byte>): Message
    requires |frame| >= MIN_FRAME_SIZE
  {
    if frame[0] == RETURN then Message(0, RETURN, [])
    else Message(PortOf(frame[0]), CommandOf(frame[0]), frame[1..])
  }

  /** What the callback gets. */
  function Handed(s: State, b: byte): seq<Message> {
    if s.mode == Reading && b == END && |s.buffer| >= MIN_FRAME_SIZE then [Interpret(s.buffer)] else []
  }

  // ----- the decoder, many bytes -----

  function Run(s: State, bytes: seq<byte>): (r: State)
    requires s.Valid()
    ensures r.Valid()
  {
    if bytes == [] then s else Next(Run(s, Front(bytes)), Last(bytes))
  }

  function Decoded(s: State, bytes: seq<byte>): seq<Message>
    requires s.Valid()
  {
    if bytes == [] then [] else Decoded(s, Front(bytes)) + Handed(Run(s, Front(bytes)), Last(bytes))
  }

  lemma RunSnoc(s: State, bytes: seq<byte>, b: byte)
    requires s.Valid()
    ensures Run(s, bytes + [b]) == Next(Run(s, bytes), b)
    ensures Decoded(s, bytes + [b]) == Decoded(s, bytes) + Handed(Run(s, bytes), b)
  {
    assert Front(bytes + [b]) == bytes;
  }

  lemma RunOne(s: State, b: byte)
    requires s.Valid()
    ensures Run(s, [b]) == Next(s, b) && Decoded(s, [b]) == Handed(s, b)
  {
    RunSnoc(s, [], b);
    assert [] + [b] == [b];
  }

  lemma {:induction false} RunConcat(s: State, a: seq<byte>, b: seq<byte>)
    requires s.Valid()
    ensures Run(s, a + b) == Run(Run(s, a), b)
    ensures Decoded(s, a + b) == Decoded(s, a) + Decoded(Run(s, a), b)
  {
    if b == [] {
      assert a + b == a;
    } else {
      RunConcat(s, a, Front(b));
      FrontOfConcat(a, b);
      Assoc(Decoded(s, a), Decoded(Run(s, a), Front(b)), Handed(Run(s, a + Front(b)), Last(b)));
    }
  }

  /** hs_kiss_decoder_t and its functions. */
  class Decoder {
    var state: Mode
    const buffer: array<byte>
    var bufferPos: nat
    const hasCallback: bool

    ghost predicate Valid()
      reads this
    {
      buffer.Length == BUFFER_SIZE && bufferPos <= BUFFER_SIZE
    }

    ghost function Value(): (s: State)
      requires Valid()
      reads this, buffer
      ensures s.Valid()
    {
      State(state, buffer[..bufferPos])
    }

    constructor (hasCallback: bool)
      ensures Valid() && fresh(buffer) && Value() == State(Undefined, []) && this.hasCallback == hasCallback
    {
      this.hasCallback := hasCallback;
      state := Undefined;
      buffer := new byte[BUFFER_SIZE];
      bufferPos := 0;
    }

    method Put(b: byte)
      requires Valid()
      modifies this, buffer
      ensures Valid() && Value() == Store(old(Value()), b)
    {
      if bufferPos < BUFFER_SIZE {
        buffer[bufferPos] := b;
        bufferPos := bufferPos + 1;
        state := Reading;
      } else {
        state := Undefined;
        bufferPos := 0;
      }
    }

    /** hs_kiss_decoder_process; what the callback gets, if there is one. */
    method Process(b: byte) returns (handed: Option<Message>)
      requires Valid()
      modifies this, buffer
      ensures Valid() && Value() == Next(old(Value()), b)
      ensures !hasCallback ==> handed == None
      ensures hasCallback ==> Handed(old(Value()), b) == if handed == None then [] else [handed.value]
    {
      handed := None;
      match state {
        case Undefined =>
          if b == END {
            state := Reading;
            bufferPos := 0;
          }
        case Reading =>
          if b == ESC {
            state := ReadingEscaped;
          } else if b == END {
            if hasCallback && bufferPos >= MIN_FRAME_SIZE {
              var m := ProcessFrame();
              handed := Some(m);
            }
            bufferPos := 0;
            state := Reading;
          } else {
            Put(b);
          }
        case ReadingEscaped =>
          if b == ESC_END {
            Put(END);
          } else if b == ESC_ESC {
            Put(ESC);
          } else if bufferPos < BUFFER_SIZE {
            state := Reading;
          } else {
            state := Undefined;
            bufferPos := 0;
          }
      }
    }

    /** _hs_kiss_decoder_process_frame. */
    method ProcessFrame() returns (m: Message)
      requires Valid() && bufferPos >= MIN_FRAME_SIZE
      ensures m == Interpret(buffer[..bufferPos])
    {
      var port, command, length := 0, RETURN, 0;
      if buffer[0] != RETURN {
        port, command, length := PortOf(buffer[0]), CommandOf(buffer[0]), bufferPos - 1;
      }
      var data := [];
      for i := 0 to length
        invariant data == buffer[1..i + 1]
      {
        data := data + [buffer[i + 1]];
      }
      return Message(port, command, data);
    }

    /** The loop of the TNC's data callback (kiss_data_callback in apps/ax25tnc/ax25tnc.c). */
    method ProcessAll(bytes: seq<byte>) returns (messages: seq<Message>)
      requires Valid()
      modifies this, buffer
      ensures Valid() && Value() == Run(old(Value()), bytes)
      ensures messages == if hasCallback then Decoded(old(Value()), bytes) else []
    {
      messages := [];
      for i := 0 to |bytes|
        invariant Valid() && Value() == Run(old(Value()), bytes[..i])
        invariant messages == if hasCallback then Decoded(old(Value()), bytes[..i]) else []
      {
        assert Front(bytes[..i + 1]) == bytes[..i];
        var handed := Process(bytes[i]);
        if handed != None {
          messages := messages + [handed.value];
        }
      }
      assert bytes[..|bytes|] == bytes;
    }
  }

  // ----- round trip -----

  /** The messages that survive: those that fit the two halves of the command byte and the decoder's buffer
      and do not make the command byte a special one, and the RETURN of port 0 without data. */
  predicate Good(m: Message) {
    || (m.port <= 15 && m.command <= 15 && |m.data| <= 511
        && (m.port, m.command) !in {(12, 0), (13, 11), (15, 15)})
    || m == Message(0, 0xFF, [])
  }

  lemma SpecialHeaders(port: byte, command: byte)
    requires port <= 15 && command <= 15
    ensures Header(port, command) == END <==> port == 12 && command == 0
    ensures Header(port, command) == ESC <==> port == 13 && command == 11
    ensures Header(port, command) == RETURN <==> port == 15 && command == 15
  {
  }

  lemma HeaderHalves(port: byte, command: byte)
    ensures PortOf(Header(port, command)) <= 15 && CommandOf(Header(port, command)) <= 15
    ensures port <= 15 && command <= 15 ==>
              PortOf(Header(port, command)) == port && CommandOf(Header(port, command)) == command
    ensures Header(0, RETURN) == RETURN
  {
  }

  lemma GoodHeader(m: Message)
    requires Good(m)
    ensures var header := Header(m.port, m.command);
      && header !in {END, ESC} && |m.data| < BUFFER_SIZE
      && Interpret([header] + m.data) == m
  {
    HeaderHalves(m.port, m.command);
    if m.command <= 15 {
      SpecialHeaders(m.port, m.command);
    }
  }

  /** A good message is a frame: everything between the two ENDs is escaped alike. */
  lemma EncodeGood(m: Message)
    requires Header(m.port, m.command) !in {END, ESC}
    ensures Encode(m) == [END] + Escape([Header(m.port, m.command)] + m.data) + [END]
  {
    var header := Header(m.port, m.command);
    EscapeConcat([header], m.data);
    EscapePlain(header);
    assert [END, header] == [END] + [header];
    Assoc([END], [header], Escape(m.data));
  }

  lemma EscapePlain(b: byte)
    requires b != END && b != ESC
    ensures Escape([b]) == [b]
  {
    assert Front([b]) == [];
  }

  lemma EscapedRun(s: State, b: byte)
    requires s.Valid() && s.mode == Reading
    ensures Run(s, Escaped(b)) == Store(s, b) && Decoded(s, Escaped(b)) == []
  {
    if b == END || b == ESC {
      var c := if b == END then ESC_END else ESC_ESC;
      RunOne(s, ESC);
      RunSnoc(s, [ESC], c);
      assert [ESC] + [c] == Escaped(b);
    } else {
      RunOne(s, b);
    }
  }

  /** Escaping is transparent as long as the buffer has room. */
  lemma {:induction false} EscapeRun(s: State, data: seq<byte>)
    requires s.Valid() && s.mode == Reading && |s.buffer| + |data| <= BUFFER_SIZE
    ensures Run(s, Escape(data)) == State(Reading, s.buffer + data) && Decoded(s, Escape(data)) == []
  {
    if data == [] {
    } else {
      var f, b := Front(data), Last(data);
      EscapeRun(s, f);
      RunConcat(s, Escape(f), Escaped(b));
      EscapedRun(State(Reading, s.buffer + f), b);
      Assoc(s.buffer, f, [b]);
      FrontLast(data);
    }
  }

  /** The states in which a message starts as it should: between messages, or before the first. */
  predicate Fresh(s: State) {
    s.mode == Undefined || s == State(Reading, [])
  }

  lemma FrameDecoded(s: State, frame: seq<byte>, bytes: seq<byte>)
    requires s.Valid() && Fresh(s) && MIN_FRAME_SIZE <= |frame| <= BUFFER_SIZE
    requires bytes == [END] + Escape(frame) + [END]
    ensures Decoded(s, bytes) == [Interpret(frame)] && Run(s, bytes) == State(Reading, [])
  {
    RunOne(s, END);
    RunConcat(s, [END], Escape(frame));
    EscapeRun(State(Reading, []), frame);
    assert [] + frame == frame;
    RunSnoc(s, [END] + Escape(frame), END);
  }

  /** One good message comes out as it went in. */
  lemma MessageDecoded(s: State, m: Message)
    requires s.Valid() && Fresh(s) && Good(m)
    ensures Decoded(s, Encode(m)) == [m] && Run(s, Encode(m)) == State(Reading, [])
  {
    GoodHeader(m);
    EncodeGood(m);
    FrameDecoded(s, [Header(m.port, m.command)] + m.data, Encode(m));
  }

  function Stream(ms: seq<Message>): seq<byte> {
    if ms == [] then [] else Stream(Front(ms)) + Encode(Last(ms))
  }

  /** Any list of good messages comes out as it went in. */
  lemma {:induction false} StreamDecoded(s: State, ms: seq<Message>)
    requires s.Valid() && Fresh(s) && forall m | m in ms :: Good(m)
    ensures Decoded(s, Stream(ms)) == ms && Fresh(Run(s, Stream(ms)))
  {
    if ms == [] {
    } else {
      StreamDecoded(s, Front(ms));
      RunConcat(s, Stream(Front(ms)), Encode(Last(ms)));
      MessageDecoded(Run(s, Stream(Front(ms))), Last(ms));
      FrontLast(ms);
    }
  }

  // ----- from any state -----

  lemma EscapedQuiet(s: State, b: byte)
    requires s.Valid() && s.mode != ReadingEscaped
    ensures var t := Run(s, Escaped(b)); t.mode != ReadingEscaped && |t.buffer| <= |s.buffer| + 1
    ensures Decoded(s, Escaped(b)) == []
  {
    if s.mode == Reading {
      EscapedRun(s, b);
    } else if b == END || b == ESC {
      var c := if b == END then ESC_END else ESC_ESC;
      RunOne(s, ESC);
      RunSnoc(s, [ESC], c);
      assert [ESC] + [c] == Escaped(b);
    } else {
      RunOne(s, b);
    }
  }

  /** Escaped bytes hand out nothing and never stop inside an escape, even when the buffer overflows. */
  lemma {:induction false} EscapeQuiet(s: State, data: seq<byte>)
    requires s.Valid() && s.mode != ReadingEscaped
    ensures var t := Run(s, Escape(data)); t.mode != ReadingEscaped && |t.buffer| <= |s.buffer| + |data|
    ensures Decoded(s, Escape(data)) == []
  {
    if data == [] {
    } else {
      EscapeQuiet(s, Front(data));
      RunConcat(s, Escape(Front(data)), Escaped(Last(data)));
      EscapedQuiet(Run(s, Escape(Front(data))), Last(data));
    }
  }

  /** A frame, whatever came before: where it leaves the decoder, and how much it hands out. */
  lemma FrameFromAny(s: State, frame: seq<byte>, bytes: seq<byte>)
    requires s.Valid() && bytes == [END] + Escape(frame) + [END]
    ensures Run(s, bytes) == State(Reading, []) && |Decoded(s, bytes)| <= 2
  {
    RunOne(s, END);
    RunConcat(s, [END], Escape(frame));
    EscapeQuiet(Next(s, END), frame);
    RunSnoc(s, [END] + Escape(frame), END);
  }

  lemma FrameFromReading(s: State, frame: seq<byte>, bytes: seq<byte>)
    requires s.Valid() && s.mode != ReadingEscaped && bytes == [END] + (Escape(frame) + [END])
    requires MIN_FRAME_SIZE <= |frame| <= BUFFER_SIZE
    ensures Decoded(s, bytes) == Handed(s, END) + [Interpret(frame)]
  {
    RunOne(s, END);
    RunConcat(s, [END], Escape(frame) + [END]);
    RestOfFrame(frame);
  }

  lemma RestOfFrame(frame: seq<byte>)
    requires MIN_FRAME_SIZE <= |frame| <= BUFFER_SIZE
    ensures Decoded(State(Reading, []), Escape(frame) + [END]) == [Interpret(frame)]
  {
    EscapeRun(State(Reading, []), frame);
    assert [] + frame == frame;
    RunSnoc(State(Reading, []), Escape(frame), END);
  }

  /** One good message synchronises the decoder, whatever state it is in: it hands out at most two messages,
      and of these the last is the message itself unless an escape was left open; all later messages come
      out as they went in. */
  lemma Resynchronised(s: State, m: Message, ms: seq<Message>)
    requires s.Valid() && Good(m) && forall x | x in ms :: Good(x)
    ensures Decoded(s, Encode(m) + Stream(ms)) == Decoded(s, Encode(m)) + ms
    ensures |Decoded(s, Encode(m))| <= 2
    ensures s.mode != ReadingEscaped ==> Decoded(s, Encode(m)) == Handed(s, END) + [m]
  {
    GoodHeader(m);
    EncodeGood(m);
    var frame := [Header(m.port, m.command)] + m.data;
    FrameFromAny(s, frame, Encode(m));
    RunConcat(s, Encode(m), Stream(ms));
    StreamDecoded(State(Reading, []), ms);
    if s.mode != ReadingEscaped {
      Assoc([END], Escape(frame), [END]);
      FrameFromReading(s, frame, Encode(m));
    }
  }

  // ----- exactly the good messages survive -----

  /** Fewer data bytes come out than the buffer can have got. */
  lemma Shorter(s: State, data: seq<byte>)
    requires s.Valid() && s.mode != ReadingEscaped
    ensures forall m | m in Decoded(s, Escape(data) + [END]) :: |m.data| < |s.buffer| + |data|
  {
    EscapeQuiet(s, data);
    RunSnoc(s, Escape(data), END);
  }

  /** After an open escape the first data byte is lost, or is taken for the end of the escape. */
  lemma AfterOpenEscape(x: byte)
    ensures var t := Run(State(ReadingEscaped, []), Escaped(x)); t.mode != ReadingEscaped && |t.buffer| <= 1
    ensures Decoded(State(ReadingEscaped, []), Escaped(x)) == []
  {
    var s := State(ReadingEscaped, []);
    if x == END || x == ESC {
      var c := if x == END then ESC_END else ESC_ESC;
      RunOne(s, ESC);
      RunSnoc(s, [ESC], c);
      assert [ESC] + [c] == Escaped(x);
    } else {
      RunOne(s, x);
    }
  }

  lemma EscapeFromFront(data: seq<byte>)
    requires data != []
    ensures Escape(data) == Escaped(data[0]) + Escape(data[1..])
  {
    EscapeConcat([data[0]], data[1..]);
    assert data == [data[0]] + data[1..];
    assert Front([data[0]]) == [] && Escape([data[0]]) == Escaped(data[0]);
  }

  lemma OpenEscapeLoses(data: seq<byte>)
    ensures forall m | m in Decoded(State(ReadingEscaped, []), Escape(data) + [END]) :: |m.data| < |data|
  {
    var s := State(ReadingEscaped, []);
    if data == [] {
      assert Escape(data) + [END] == [END];
      RunOne(s, END);
    } else {
      var x, rest := Escaped(data[0]), Escape(data[1..]) + [END];
      EscapeFromFront(data);
      Assoc(x, Escape(data[1..]), [END]);
      AfterOpenEscape(data[0]);
      RunConcat(s, x, rest);
      Shorter(Run(s, x), data[1..]);
    }
  }

  lemma AfterHeader(s: State, header: byte, rest: seq<byte>)
    requires s.Valid() && Fresh(s)
    ensures Decoded(s, [END] + ([header] + rest)) ==
            Handed(State(Reading, []), header) + Decoded(Next(State(Reading, []), header), rest)
  {
    var t := State(Reading, []);
    RunOne(s, END);
    RunOne(t, header);
    RunConcat(s, [END], [header] + rest);
    RunConcat(t, [header], rest);
  }

  lemma SpecialHeader(s: State, m: Message)
    requires s.Valid() && Fresh(s) && Header(m.port, m.command) in {END, ESC}
    ensures m !in Decoded(s, Encode(m))
  {
    var header, rest := Header(m.port, m.command), Escape(m.data) + [END];
    assert Encode(m) == [END] + ([header] + rest);
    AfterHeader(s, header, rest);
    if header == END {
      Shorter(State(Reading, []), m.data);
    } else {
      OpenEscapeLoses(m.data);
    }
  }

  /** A frame of one byte too many is dropped. */
  lemma TooLong(s: State, frame: seq<byte>, bytes: seq<byte>)
    requires s.Valid() && Fresh(s) && |frame| == BUFFER_SIZE + 1
    requires bytes == [END] + Escape(frame) + [END]
    ensures Decoded(s, bytes) == []
  {
    var f, t := Front(frame), State(Reading, []);
    RunOne(s, END);
    EscapeRun(t, f);
    RunConcat(t, Escape(f), Escaped(Last(frame)));
    EscapedRun(State(Reading, [] + f), Last(frame));
    RunConcat(s, [END], Escape(frame));
    RunSnoc(s, [END] + Escape(frame), END);
  }

  lemma PlainHeader(s: State, m: Message)
    requires s.Valid() && Fresh(s) && |m.data| <= BUFFER_SIZE && Header(m.port, m.command) !in {END, ESC}
    ensures Decoded(s, Encode(m)) == [m] ==> Good(m)
  {
    var frame := [Header(m.port, m.command)] + m.data;
    EncodeGood(m);
    if |m.data| == BUFFER_SIZE {
      TooLong(s, frame, Encode(m));
    } else {
      FrameDecoded(s, frame, Encode(m));
      HeaderHalves(m.port, m.command);
      if m.port <= 15 && m.command <= 15 {
        SpecialHeaders(m.port, m.command);
      }
    }
  }

  /** A data frame of port 12 has the header 0xC0, which is an END: what comes out is a message made of its data. */
  lemma PortTwelve(s: State, b: byte)
    requires s.Valid() && Fresh(s) && b != 0xC0 && b != 0xDB
    ensures Header(12, 0) == 0xC0
    ensures Decoded(s, Encode(Message(12, 0, [b]))) == [Interpret([b])] != [Message(12, 0, [b])]
  {
    assert Encode(Message(12, 0, [b])) == [END] + ([END] + (Escape([b]) + [END]));
    AfterHeader(s, END, Escape([b]) + [END]);
    RestOfFrame([b]);
  }

  /** A message comes out as it went in exactly when it is good; the C structure holds 512 data bytes. */
  lemma ExactlyGood(s: State, m: Message)
    requires s.Valid() && Fresh(s) && |m.data| <= 512
    ensures Decoded(s, Encode(m)) == [m] <==> Good(m)
  {
    if Good(m) {
      MessageDecoded(s, m);
    } else if Header(m.port, m.command) in {END, ESC} {
      SpecialHeader(s, m);
      assert m in [m];
    } else {
      PlainHeader(s, m);
    }
  }

  // ----- the bytes on the link -----

  /** Escaping, read from the front: 0xC0 becomes 0xDB 0xDC, 0xDB becomes 0xDB 0xDD, the rest stays. */
  lemma EscapeRule(data: seq<byte>)
    ensures Escape(data) ==
            if data == [] then []
            else (if data[0] == 0xC0 then [0xDB, 0xDC] else if data[0] == 0xDB then [0xDB, 0xDD] else [data[0]])
                 + Escape(data[1..])
  {
    if data != [] {
      EscapeFromFront(data);
    }
  }

  /** A message on the link: the port in the high and the command in the low half of the byte after the END. */
  lemma EncodedBytes(m: Message, header: byte)
    requires m.port <= 15 && m.command <= 15 && header as int == 16 * (m.port as int) + m.command as int
    ensures Encode(m) == [0xC0, header] + Escape(m.data) + [0xC0]
  {
    HeaderValue(m.port, m.command, header);
  }

  lemma HeaderValue(port: byte, command: byte, header: byte)
    requires port <= 15 && command <= 15 && header as int == 16 * (port as int) + command as int
    ensures Header(port, command) == header
  {
    SumOfHalves(port, command);
  }

  lemma SumOfHalves(port: byte, command: byte)
    requires port <= 15 && command <= 15
    ensures Header(port, command) as int == 16 * (port as int) + command as int
  {
  }

  /** What a decoder sees between two ENDs: bytes that mean themselves, and escapes with any byte behind. */
  datatype Token = Plain(b: byte) | Pair(b: byte) {
    predicate Valid() {
      Pair? || (b != 0xC0 && b != 0xDB)
    }

    function Wire(): seq<byte> {
      if Plain? then [b] else [0xDB, b]
    }

    /** An escape with another byte than these two behind it says nothing. */
    function Content(): (r: seq<byte>)
      ensures |r| <= 1
    {
      if Plain? then [b] else if b == 0xDC then [0xC0] else if b == 0xDD then [0xDB] else []
    }
  }

  function Wires(ts: seq<Token>): seq<byte> {
    if ts == [] then [] else Wires(Front(ts)) + Last(ts).Wire()
  }

  function Contents(ts: seq<Token>): seq<byte> {
    if ts == [] then [] else Contents(Front(ts)) + Last(ts).Content()
  }

  /** Every token finds room in the buffer, also one that says nothing. */
  predicate Fits(ts: seq<Token>) {
    ts == [] || |Contents(Front(ts))| < 512
  }

  lemma TokenRun(s: State, t: Token)
    requires s.Valid() && s.mode == Reading && t.Valid()
    ensures Run(s, t.Wire()) == if |s.buffer| < 512 then State(Reading, s.buffer + t.Content()) else State(Undefined, [])
    ensures Decoded(s, t.Wire()) == []
  {
    if t.Plain? {
      RunOne(s, t.b);
    } else {
      RunOne(s, 0xDB);
      RunSnoc(s, [0xDB], t.b);
      assert [0xDB] + [t.b] == t.Wire();
    }
    assert s.buffer + [] == s.buffer;
  }

  lemma TokenIgnored(s: State, t: Token)
    requires s.Valid() && s.mode == Undefined && t.Valid() && t.b != 0xC0
    ensures Run(s, t.Wire()) == s && Decoded(s, t.Wire()) == []
  {
    if t.Plain? {
      RunOne(s, t.b);
    } else {
      RunOne(s, 0xDB);
      RunSnoc(s, [0xDB], t.b);
      assert [0xDB] + [t.b] == t.Wire();
    }
  }

  lemma {:induction false} TokensRun(ts: seq<Token>)
    requires forall t | t in ts :: t.Valid() && (Fits(ts) || t.b != 0xC0)
    ensures Run(State(Reading, []), Wires(ts)) == if Fits(ts) then State(Reading, Contents(ts)) else State(Undefined, [])
    ensures Decoded(State(Reading, []), Wires(ts)) == []
  {
    if ts == [] {
    } else {
      var f, s := Front(ts), Run(State(Reading, []), Wires(Front(ts)));
      TokensRun(f);
      RunConcat(State(Reading, []), Wires(f), Last(ts).Wire());
      if Fits(f) {
        TokenRun(s, Last(ts));
      } else {
        TokenIgnored(s, Last(ts));
      }
    }
  }

  /** The message a frame means: 0xFF is RETURN, else the first byte has the port and the command. */
  predicate Means(frame: seq<byte>, m: Message) {
    && frame != []
    && (frame[0] == 0xFF ==> m == Message(0, 0xFF, []))
    && (frame[0] != 0xFF ==>
          m.port as int == frame[0] as int / 16 && m.command as int == frame[0] as int % 16 && m.data == frame[1..])
  }

  lemma InterpretMeans(frame: seq<byte>)
    requires frame != []
    ensures Means(frame, Interpret(frame))
  {
    Halves(frame[0]);
  }

  lemma Halves(header: byte)
    ensures PortOf(header) as int == header as int / 16 && CommandOf(header) as int == header as int % 16
  {
  }

  /** What every frame on the link means to the decoder, well-formed or not: one message if the unescaped bytes
      fit and there are any, else none.  An END behind an escape does not end the frame. */
  lemma FrameMeans(ts: seq<Token>, handed: seq<Message>)
    requires forall t | t in ts :: t.Valid() && (Fits(ts) || t.b != 0xC0)
    requires handed == Decoded(State(Reading, []), Wires(ts) + [0xC0])
    ensures Run(State(Reading, []), Wires(ts) + [0xC0]) == State(Reading, [])
    ensures if Fits(ts) && Contents(ts) != [] then |handed| == 1 && Means(Contents(ts), handed[0]) else handed == []
  {
    TokensRun(ts);
    RunSnoc(State(Reading, []), Wires(ts), 0xC0);
    if Fits(ts) && Contents(ts) != [] {
      InterpretMeans(Contents(ts));
    }
  }

  /** Any bytes without an END are tokens, up to an escape at the end. */
  lemma {:induction false} Tokens(bytes: seq<byte>) returns (ts: seq<Token>, open: bool)
    requires 0xC0 !in bytes
    ensures bytes == Wires(ts) + if open then [0xDB] else []
    ensures forall t | t in ts :: t.Valid() && t.b != 0xC0
  {
    ts, open := [], false;
    if bytes != [] {
      var before, escaped := Tokens(Front(bytes));
      FrontLast(bytes);
      if escaped {
        ts := before + [Pair(Last(bytes))];
        assert Front(ts) == before && bytes == Wires(before) + [0xDB, Last(bytes)];
      } else if Last(bytes) == 0xDB {
        ts, open := before, true;
      } else {
        ts := before + [Plain(Last(bytes))];
        assert Front(ts) == before;
      }
    }
  }
}
