/** The audio server: the receiving loop of src/netstuff/netserver.c, its callbacks in apps/netaud/netaud.c,
    and the audio thread that shares the byte FIFO with them under a mutex. */
module NetAudio {
  import opened Bits
  import LinkedBuffer

  const DATA_BUF_SIZE := 1024

  // ----- the receiving loop -----

  /** The calls of the three callbacks: lock the mutex, push a chunk, unlock it. */
  datatype Event = Start | Chunk(bytes: seq<byte>) | End

  /** The callbacks for a burst of chunks: none for an empty one. */
  function Bracketed(chunks: seq<seq<byte>>): seq<Event> {
    if chunks == [] then [] else [Start] + Chunks(chunks) + [End]
  }

  function Chunks(chunks: seq<seq<byte>>): (r: seq<Event>)
    ensures |r| == |chunks|
  {
    if chunks == [] then [] else Chunks(Front(chunks)) + [Chunk(Last(chunks))]
  }

  /** The callbacks of a burst that has not ended. */
  function Opened(chunks: seq<seq<byte>>): seq<Event> {
    if chunks == [] then [] else [Start] + Chunks(chunks)
  }

  /** server_thread_function for one ready client, as far as recv has returned: [] stands for a closed connection
      or an error (a result of 0 or less), else a result has at most 1024 bytes.  The loop ends with the first
      result that is shorter than the buffer, and the callbacks get exactly the chunks read, in one pair of
      brackets.  If all results so far have 1024 bytes it waits in recv, and the bracket is open. */
  method ReadBurst(received: seq<seq<byte>>) returns (trace: seq<Event>, used: nat, closed: bool, waits: bool)
    requires forall i | 0 <= i < |received| :: |received[i]| <= 1024
    ensures used <= |received| && forall i | 0 <= i < used - 1 :: |received[i]| == 1024
    ensures waits <==> forall i | 0 <= i < |received| :: |received[i]| == 1024
    ensures waits ==> used == |received| && !closed
    ensures waits ==> trace == if received == [] then [] else [Start] + Chunks(received)
    ensures !waits ==> used >= 1 && |received[used - 1]| < 1024 && (closed <==> received[used - 1] == [])
    ensures closed ==> trace == if used == 1 then [] else [Start] + Chunks(received[..used - 1]) + [End]
    ensures !waits && !closed ==> trace == [Start] + Chunks(received[..used]) + [End]
  {
    trace, used, closed, waits := ReadChunks(received);
    AllFullMeans(received, if waits then used else used - 1);
    if !waits && trace != [] {
      trace := trace + [End];
    }
    assert received[..|received|] == received;
  }

  /** The loop, with the callbacks before the last one. */
  method ReadChunks(received: seq<seq<byte>>) returns (trace: seq<Event>, used: nat, closed: bool, more: bool)
    requires forall i | 0 <= i < |received| :: |received[i]| <= DATA_BUF_SIZE
    ensures used <= |received| && AllFull(received, if more then used else used - 1)
    ensures more ==> used == |received| && !closed
    ensures !more ==> used >= 1 && |received[used - 1]| < DATA_BUF_SIZE && (closed <==> received[used - 1] == [])
    ensures trace == Opened(received[..if closed then used - 1 else used])
  {
    var total: nat := 0;
    trace, used, closed, more := [], 0, false, true;
    assert received[..0] == [];
    while more && used < |received|
      invariant SoFar(received, used, more, trace) && !closed
      invariant total == 0 <==> used == 0
      decreases |received| - used, more
    {
      var chunk := received[used];
      if chunk == [] {
        return trace, used + 1, true, false;
      }
      SoFarGrows(received, used, trace);
      if total == 0 {
        trace := trace + [Start];
      }
      trace := trace + [Chunk(chunk)];
      used := used + 1;
      total := total + |chunk|;
      more := |chunk| == DATA_BUF_SIZE;
    }
  }

  /** After `used` results, none of them empty. */
  ghost predicate SoFar(received: seq<seq<byte>>, used: nat, more: bool, trace: seq<Event>) {
    && used <= |received| && AllFull(received, if more then used else used - 1)
    && (!more ==> used >= 1 && 0 < |received[used - 1]| < DATA_BUF_SIZE)
    && trace == Opened(received[..used])
  }

  lemma SoFarGrows(received: seq<seq<byte>>, used: nat, trace: seq<Event>)
    requires used < |received| && SoFar(received, used, true, trace) && 0 < |received[used]| <= DATA_BUF_SIZE
    ensures SoFar(received, used + 1, |received[used]| == DATA_BUF_SIZE,
                  (if used == 0 then trace + [Start] else trace) + [Chunk(received[used])])
  {
    OpenedGrows(received, used + 1);
    assert received[..0] == [];
  }

  /** The first `n` results filled the buffer. */
  predicate AllFull(received: seq<seq<byte>>, n: int) {
    n <= 0 || (n <= |received| && |received[n - 1]| == DATA_BUF_SIZE && AllFull(received, n - 1))
  }

  lemma {:induction false} AllFullMeans(received: seq<seq<byte>>, n: int)
    requires AllFull(received, n)
    ensures n <= |received| && forall i | 0 <= i < n :: |received[i]| == DATA_BUF_SIZE
    decreases n
  {
    if n > 0 {
      AllFullMeans(received, n - 1);
    }
  }

  lemma OpenedGrows(received: seq<seq<byte>>, n: nat)
    requires 1 <= n <= |received|
    ensures Opened(received[..n]) == (if n == 1 then [Start] else Opened(received[..n - 1])) + [Chunk(received[n - 1])]
  {
    assert Front(received[..n]) == received[..n - 1];
  }

  // ----- the two threads -----

  /** The state of the mutex. */
  datatype Owner = Free | HeldByServer | HeldByAudio

  /** Where the server thread is: in pselect, in recv, or about to call one of the three callbacks. */
  datatype Server = Waiting | Reading | Starting(chunk: seq<byte>) | Pushing(chunk: seq<byte>) | Ending

  /** Where the audio thread is in its callback. */
  datatype Audio = Outside | Locked | HasPopped

  /** The program's state, and what has happened so far: the bytes received, the callbacks made, the bursts
      that have ended, the chunks pushed in the current one, and the bytes popped. */
  datatype State = State(owner: Owner, fifo: seq<byte>, server: Server, total: nat, audio: Audio,
                         received: seq<byte>, calls: seq<Event>, bursts: seq<seq<seq<byte>>>,
                         current: seq<seq<byte>>, popped: seq<byte>)

  function Init(): State {
    State(Free, [], Waiting, 0, Outside, [], [], [], [], [])
  }

  datatype Step =
    | Ready
    | Recv(chunk: seq<byte>)
    | ServerLock
    | Push
    | ServerUnlock
    | AudioLock
    | Pop(size: nat)
    | AudioUnlock

  /** The steps that wait for the network: pselect and recv block until a client sends or disconnects. */
  predicate FromNetwork(step: Step) {
    step.Ready? || step.Recv?
  }

  /** Which steps can be taken; locking waits until the mutex is free. */
  predicate Enabled(s: State, step: Step) {
    match step
    case Ready => s.server.Waiting?
    case Recv(chunk) => s.server.Reading? && |chunk| <= DATA_BUF_SIZE
    case ServerLock => s.server.Starting? && s.owner.Free?
    case Push => s.server.Pushing?
    case ServerUnlock => s.server.Ending?
    case AudioLock => s.audio.Outside? && s.owner.Free?
    case Pop(_) => s.audio.Locked?
    case AudioUnlock => s.audio.HasPopped?
  }

  /** Where the server goes with what recv returned. */
  function AfterRecv(total: nat, chunk: seq<byte>): Server {
    if chunk == [] then (if total > 0 then Ending else Waiting)
    else if total == 0 then Starting(chunk) else Pushing(chunk)
  }

  function Next(s: State, step: Step): State
    requires Enabled(s, step)
  {
    match step
    case Ready => s.(server := Reading, total := 0)
    case Recv(chunk) => s.(server := AfterRecv(s.total, chunk), received := s.received + chunk)
    case ServerLock => s.(owner := HeldByServer, server := Pushing(s.server.chunk), calls := s.calls + [Start])
    case Push =>
      var chunk := s.server.chunk;
      s.(fifo := LinkedBuffer.After(s.fifo, LinkedBuffer.Op.Push(chunk)),
         total := s.total + |chunk|,
         server := if |chunk| == DATA_BUF_SIZE then Reading else Ending,
         calls := s.calls + [Chunk(chunk)],
         current := s.current + [chunk])
    case ServerUnlock =>
      s.(owner := Free, server := Waiting, calls := s.calls + [End], bursts := s.bursts + [s.current], current := [])
    case AudioLock => s.(owner := HeldByAudio, audio := Locked)
    case Pop(size) =>
      s.(fifo := LinkedBuffer.After(s.fifo, LinkedBuffer.Op.Pop(size)),
         popped := s.popped + LinkedBuffer.Popped(s.fifo, LinkedBuffer.Op.Pop(size)),
         audio := HasPopped)
    case AudioUnlock => s.(owner := Free, audio := Outside)
  }

  /** Any interleaving: each step may be taken when its turn comes. */
  predicate Possible(steps: seq<Step>)
    decreases |steps|, 0
  {
    steps == [] || (Possible(Front(steps)) && Enabled(Run(Front(steps)), Last(steps)))
  }

  function Run(steps: seq<Step>): State
    requires Possible(steps)
    decreases |steps|, 1
  {
    if steps == [] then Init() else Next(Run(Front(steps)), Last(steps))
  }

  // ----- what every step keeps -----

  function Joined(chunks: seq<seq<byte>>): seq<byte> {
    if chunks == [] then [] else Joined(Front(chunks)) + Last(chunks)
  }

  /** All bytes of all bursts. */
  function AllJoined(bursts: seq<seq<seq<byte>>>): seq<byte> {
    if bursts == [] then [] else AllJoined(Front(bursts)) + Joined(Last(bursts))
  }

  function AllBracketed(bursts: seq<seq<seq<byte>>>): seq<Event> {
    if bursts == [] then [] else AllBracketed(Front(bursts)) + Bracketed(Last(bursts))
  }

  /** The chunk that has been read and not yet pushed. */
  function InHand(server: Server): seq<byte> {
    if server.Starting? || server.Pushing? then server.chunk else []
  }

  /** The server is between its start and its end callback. */
  predicate InBurst(s: State) {
    s.server.Pushing? || s.server.Ending? || (s.server.Reading? && s.total > 0)
  }

  predicate Owned(s: State) {
    && (s.owner == HeldByServer <==> InBurst(s))
    && (s.owner == HeldByAudio <==> s.audio != Outside)
  }

  /** What the server knows of the current burst. */
  predicate Tracked(s: State) {
    && (!InBurst(s) ==> s.current == [])
    && (s.server.Starting? || s.server.Waiting? || (s.server.Reading? && s.total == 0) ==> !InBurst(s))
    && (s.server.Starting? ==> s.total == 0)
    && (s.server.Reading? || s.server.Pushing? ==> (s.total > 0 <==> s.current != []))
    && (s.server.Reading? && s.total > 0 ==> |Last(s.current)| == DATA_BUF_SIZE)
    && (s.server.Starting? || s.server.Pushing? ==> s.server.chunk != [])
    && (s.server.Ending? ==> s.current != [])
  }

  predicate Called(s: State) {
    s.calls == AllBracketed(s.bursts) + if InBurst(s) then [Start] + Chunks(s.current) else []
  }

  predicate Accounted(s: State) {
    && s.popped + s.fifo == AllJoined(s.bursts) + Joined(s.current)
    && s.received == s.popped + s.fifo + InHand(s.server)
  }

  predicate Invariant(s: State) {
    Owned(s) && Tracked(s) && Called(s) && Accounted(s)
  }

  lemma JoinedSnoc(chunks: seq<seq<byte>>, chunk: seq<byte>)
    ensures Joined(chunks + [chunk]) == Joined(chunks) + chunk
    ensures Chunks(chunks + [chunk]) == Chunks(chunks) + [Chunk(chunk)]
  {
    assert Front(chunks + [chunk]) == chunks;
  }

  lemma BurstEnds(bursts: seq<seq<seq<byte>>>, burst: seq<seq<byte>>)
    requires burst != []
    ensures AllJoined(bursts + [burst]) == AllJoined(bursts) + Joined(burst)
    ensures AllBracketed(bursts + [burst]) == AllBracketed(bursts) + [Start] + Chunks(burst) + [End]
  {
    assert Front(bursts + [burst]) == bursts;
    assert AllBracketed(bursts) + Bracketed(burst) == AllBracketed(bursts) + [Start] + Chunks(burst) + [End];
  }

  lemma PushKeeps(s: State)
    requires Invariant(s) && Enabled(s, Push)
    ensures Invariant(Next(s, Push))
  {
    var chunk := s.server.chunk;
    JoinedSnoc(s.current, chunk);
    Assoc(s.popped, s.fifo, chunk);
    Assoc(AllJoined(s.bursts), Joined(s.current), chunk);
    Assoc([Start], Chunks(s.current), [Chunk(chunk)]);
    Assoc(AllBracketed(s.bursts), [Start] + Chunks(s.current), [Chunk(chunk)]);
    assert Next(s, Push).received == s.popped + (s.fifo + chunk) + [];
  }

  lemma ServerUnlockKeeps(s: State)
    requires Invariant(s) && Enabled(s, ServerUnlock)
    ensures Invariant(Next(s, ServerUnlock))
  {
    BurstEnds(s.bursts, s.current);
    Assoc(AllBracketed(s.bursts), [Start], Chunks(s.current));
  }

  lemma ServerLockKeeps(s: State)
    requires Invariant(s) && Enabled(s, ServerLock)
    ensures Invariant(Next(s, ServerLock))
  {
    assert Chunks([]) == [];
  }

  lemma PopKeeps(s: State, size: nat)
    requires Invariant(s) && Enabled(s, Pop(size))
    ensures Invariant(Next(s, Pop(size)))
  {
    var op := LinkedBuffer.Op.Pop(size);
    LinkedBuffer.Conserved(s.fifo, op);
    Assoc(s.popped, LinkedBuffer.Popped(s.fifo, op), LinkedBuffer.After(s.fifo, op));
  }

  lemma RecvKeeps(s: State, chunk: seq<byte>)
    requires Invariant(s) && Enabled(s, Recv(chunk))
    ensures Invariant(Next(s, Recv(chunk)))
  {
    assert s.popped + s.fifo + [] == s.popped + s.fifo;
  }

  lemma StepKeeps(s: State, step: Step)
    requires Invariant(s) && Enabled(s, step)
    ensures Invariant(Next(s, step))
  {
    match step {
      case Ready =>
      case Recv(chunk) => RecvKeeps(s, chunk);
      case ServerLock => ServerLockKeeps(s);
      case Push => PushKeeps(s);
      case ServerUnlock => ServerUnlockKeeps(s);
      case AudioLock =>
      case Pop(size) => PopKeeps(s, size);
      case AudioUnlock =>
    }
  }

  lemma {:induction false} AlwaysInvariant(steps: seq<Step>)
    requires Possible(steps)
    ensures Invariant(Run(steps))
  {
    if steps == [] {
    } else {
      AlwaysInvariant(Front(steps));
      StepKeeps(Run(Front(steps)), Last(steps));
    }
  }

  // ----- in every interleaving -----

  /** The mutex is used as it must be: a thread that is about to lock it does not hold it, and a thread that is
      about to push, pop or unlock does. */
  lemma MutexDiscipline(steps: seq<Step>)
    requires Possible(steps)
    ensures var s := Run(steps);
      && (s.server.Starting? || s.server.Waiting? ==> s.owner != HeldByServer)
      && (s.server.Pushing? || s.server.Ending? ==> s.owner == HeldByServer)
      && (s.audio.Outside? ==> s.owner != HeldByAudio)
      && (s.audio.Locked? || s.audio.HasPopped? ==> s.owner == HeldByAudio)
  {
    AlwaysInvariant(steps);
  }

  /** The callbacks come as start, one chunk or more, end, again and again. */
  lemma CallsBracketed(steps: seq<Step>)
    requires Possible(steps)
    ensures var s := Run(steps);
      s.calls == AllBracketed(s.bursts) + if s.owner == HeldByServer then [Start] + Chunks(s.current) else []
  {
    AlwaysInvariant(steps);
  }

  /** The audio thread, while it has the mutex, sees whole bursts only. */
  lemma PopSeesWholeBursts(steps: seq<Step>)
    requires Possible(steps) && Run(steps).audio != Outside
    ensures Run(steps).popped + Run(steps).fifo == AllJoined(Run(steps).bursts)
  {
    AlwaysInvariant(steps);
  }

  /** Everything received has been popped, is in the FIFO or is about to be pushed, in order. */
  lemma NothingLost(steps: seq<Step>)
    requires Possible(steps)
    ensures var s := Run(steps); s.popped + s.fifo + InHand(s.server) == s.received
  {
    AlwaysInvariant(steps);
  }

  /** The server waits in recv with the mutex held. */
  predicate RecvWithMutex(s: State) {
    s.server.Reading? && s.owner == HeldByServer
  }

  /** That is where it is after a chunk exactly if the chunk fills the buffer, ... */
  lemma FullChunkKeepsMutex(steps: seq<Step>)
    requires Possible(steps) && Run(steps).server.Pushing?
    ensures var s := Run(steps);
      RecvWithMutex(Next(s, Push)) <==> |s.server.chunk| == 1024
  {
    AlwaysInvariant(steps);
    StepKeeps(Run(steps), Push);
  }

  /** ... and whenever it is in recv it holds the mutex exactly if it has pushed a chunk, which filled the
      buffer, since the burst began. */
  lemma RecvWithMutexIff(steps: seq<Step>)
    requires Possible(steps) && Run(steps).server.Reading?
    ensures var s := Run(steps);
      RecvWithMutex(s) <==> s.current != [] && |Last(s.current)| == 1024
  {
    AlwaysInvariant(steps);
  }

  /** A step that needs nothing from the network, if there is one. */
  function OwnStep(s: State): Step {
    match s.server
    case Pushing(_) => Push
    case Ending => ServerUnlock
    case Starting(_) => if s.owner.Free? then ServerLock else if s.audio.Locked? then Pop(0) else AudioUnlock
    case _ => if s.audio.Outside? then AudioLock else if s.audio.Locked? then Pop(0) else AudioUnlock
  }

  /** The two threads get stuck without the network exactly when the server waits in recv with the mutex held:
      then nothing but recv can go on, and the audio thread waits for it too.  They never wait for each
      other alone. */
  lemma StuckIffRecvWithMutex(steps: seq<Step>)
    requires Possible(steps)
    ensures var s := Run(steps);
      && ((forall step | Enabled(s, step) :: FromNetwork(step)) <==> RecvWithMutex(s))
      && (!RecvWithMutex(s) ==> Enabled(s, OwnStep(s)) && !FromNetwork(OwnStep(s)))
  {
    var s := Run(steps);
    AlwaysInvariant(steps);
    assert s.owner.Free? || s.owner.HeldByServer? || s.owner.HeldByAudio?;
    assert s.audio.Outside? || s.audio.Locked? || s.audio.HasPopped?;
    if !RecvWithMutex(s) {
      assert Enabled(s, OwnStep(s)) && !FromNetwork(OwnStep(s));
    }
  }

  /** And it happens: a client that sends as much as the buffer holds and then pauses stops the audio. */
  lemma FullChunkStopsAudio(chunk: seq<byte>) returns (steps: seq<Step>)
    requires |chunk| == 1024
    ensures steps == [Ready, Recv(chunk), ServerLock, Push] && Possible(steps)
    ensures RecvWithMutex(Run(steps)) && Run(steps).audio == Outside && !Enabled(Run(steps), AudioLock)
  {
    steps := [Ready, Recv(chunk), ServerLock, Push];
    var one, two, three := [Ready], [Ready, Recv(chunk)], [Ready, Recv(chunk), ServerLock];
    assert Front(one) == [] && Front(two) == one && Front(three) == two && Front(steps) == three;
    assert Possible([]) && Run([]) == Init();
    assert Possible(one) && Run(one).server == Reading;
    assert Possible(two) && Run(two).server == Starting(chunk);
    assert Possible(three) && Run(three).server == Pushing(chunk);
  }

  // ----- the audio callback -----

  const FRAME_SIZE := 4

  /** How many bytes of whole frames there are. */
  function WholeFrames(n: nat): (r: nat)
    ensures r <= n
  {
    n / FRAME_SIZE * FRAME_SIZE
  }

  /** The bytes that a callback takes out of the FIFO without playing them. */
  function Lost(contents: seq<byte>, frames: nat): seq<byte> {
    var popped := LinkedBuffer.Popped(contents, LinkedBuffer.Op.Pop(FRAME_SIZE * frames));
    popped[WholeFrames(|popped|)..]
  }

  /** stream_callback: `taken` bytes come out of the FIFO, the whole frames among them are played, then silence. */
  method StreamCallback(buffer: LinkedBuffer.Buffer, out: array<byte>, frames: nat)
    returns (ghost taken: nat, ghost played: nat)
    requires buffer.Valid() && out !in buffer.repr && 4 * frames <= out.Length
    modifies buffer.repr, out
    ensures buffer.Valid() && fresh(buffer.repr - old(buffer.repr))
    ensures taken == (if 4 * frames <= |old(buffer.Contents())| then 4 * frames else |old(buffer.Contents())|)
    ensures played == taken / 4 * 4
    ensures out[..played] == old(buffer.Contents())[..played] && buffer.Contents() == old(buffer.Contents())[taken..]
    ensures Lost(old(buffer.Contents()), frames) == old(buffer.Contents())[played..taken]
    ensures forall k | played <= k < 4 * frames :: out[k] == 0
    ensures forall k | 4 * frames <= k < out.Length :: out[k] == old(out[k])
  {
    ghost var was := buffer.Contents();
    var n := buffer.Pop(out, FRAME_SIZE * frames);
    taken, played := n, WholeFrames(n);
    LostIs(was, frames, taken, played);
    PlayWhole(out, n, frames, was);
  }

  /** After the pop: the frames that are not whole become silence. */
  method PlayWhole(out: array<byte>, n: nat, frames: nat, ghost was: seq<byte>)
    requires n <= FRAME_SIZE * frames <= out.Length && n <= |was| && out[..n] == was[..n]
    modifies out
    ensures out[..WholeFrames(n)] == was[..WholeFrames(n)]
    ensures forall k | WholeFrames(n) <= k < FRAME_SIZE * frames :: out[k] == 0
    ensures forall k | FRAME_SIZE * frames <= k < out.Length :: out[k] == old(out[k])
  {
    var framesRead := n / FRAME_SIZE;
    assert out[..WholeFrames(n)] == out[..n][..WholeFrames(n)];
    FillSilence(out, framesRead, frames);
  }

  lemma LostIs(contents: seq<byte>, frames: nat, taken: nat, played: nat)
    requires taken == (if 4 * frames <= |contents| then 4 * frames else |contents|) && played == WholeFrames(taken)
    ensures Lost(contents, frames) == contents[played..taken]
  {
    assert LinkedBuffer.Popped(contents, LinkedBuffer.Op.Pop(FRAME_SIZE * frames)) == contents[..taken];
  }

  method FillSilence(out: array<byte>, from: nat, frames: nat)
    requires from <= frames && FRAME_SIZE * frames <= out.Length
    modifies out
    ensures out[..FRAME_SIZE * from] == old(out[..FRAME_SIZE * from])
    ensures forall k | FRAME_SIZE * from <= k < FRAME_SIZE * frames :: out[k] == 0
    ensures forall k | FRAME_SIZE * frames <= k < out.Length :: out[k] == old(out[k])
  {
    var framesRead := from;
    while framesRead < frames
      invariant from <= framesRead <= frames
      invariant forall k | 0 <= k < FRAME_SIZE * from :: out[k] == old(out[k])
      invariant forall k | FRAME_SIZE * from <= k < FRAME_SIZE * framesRead :: out[k] == 0
      invariant forall k | FRAME_SIZE * frames <= k < out.Length :: out[k] == old(out[k])
    {
      var at := FRAME_SIZE * framesRead;
      out[at], out[at + 1], out[at + 2], out[at + 3] := 0, 0, 0, 0;
      framesRead := framesRead + 1;
    }
  }

  /** Bytes are lost exactly when the FIFO runs empty in the middle of a frame, and then fewer than a frame. */
  lemma LostIff(contents: seq<byte>, frames: nat)
    ensures |Lost(contents, frames)| < 4
    ensures Lost(contents, frames) != [] <==> |contents| < 4 * frames && |contents| % 4 != 0
  {
    var popped := LinkedBuffer.Popped(contents, LinkedBuffer.Op.Pop(FRAME_SIZE * frames));
    assert |popped| == LinkedBuffer.Min(FRAME_SIZE * frames, |contents|);
    if |contents| >= FRAME_SIZE * frames {
      assert |popped| % FRAME_SIZE == 0;
    }
  }

  /** Five bytes in the FIFO and two frames asked for: the fifth byte is lost. */
  lemma FifthByteLost(b0: byte, b1: byte, b2: byte, b3: byte, b4: byte)
    ensures Lost([b0, b1, b2, b3, b4], 2) == [b4]
    ensures LinkedBuffer.After([b0, b1, b2, b3, b4], LinkedBuffer.Op.Pop(8)) == []
  {
  }
}
