/** The one frame buffer and the one queue node that the USB interrupt handler and the
    Modbus task share, as a machine whose steps interleave freely.  Each branch of the
    handler is one step; the task's call of MBparsing is cut at every write to a shared
    variable.  The history variables record what was accepted, seen, answered and sent. */
module FrameOwnership {
  import opened CTypes

  type Bytes = seq<uint8>

  const MB_FRAME_MIN: nat := 4
  const CHUNK: nat := 64

  datatype MbState = Idle | Pars | Send

  /** Where the task is. */
  datatype Pc =
    | Waiting      // in k_queue_get
    | Parsing      // in MBparsing, reading the frame
    | Respond      // the response is in the buffer
    | ClearIndex   // the state is Send
    | StartTx      // the index is cleared
    | NoResponse   // no response is due
    | CheckSave    // about to test the save request
    | Saving       // in mh_Write_Eeprom

  datatype State = State(
    mb: MbState, eepSaving: bool, index: nat, responseSize: nat, buffer: Bytes,
    queue: nat, txEnabled: bool, pc: Pc,
    accepted: seq<Bytes>, taken: nat, views: seq<(nat, Bytes)>,
    responses: seq<(nat, Bytes)>, sent: seq<Bytes>)

  datatype Event =
    | Rx(chunk: Bytes)
    | Tx(room: nat) // how many bytes the driver has room for
    | Get
    | Look
    | Invalid
    | Parse(reply: Bytes, respond: bool, save: bool)
    | SetSend
    | Clear
    | EnableTx
    | SetIdle
    | Check
    | SaveDone

  function Init(buffer: Bytes): State {
    State(Idle, false, 0, 0, buffer, 0, false, Waiting, [], 0, [], [], [])
  }

  /** When a step can happen.  gated says whether the driver reports the transmitter
      ready only after the task has enabled it. */
  predicate Enabled(gated: bool, s: State, e: Event) {
    match e
    case Rx(chunk) => |chunk| <= CHUNK
    case Tx(_) => s.mb == Send && (gated ==> s.txEnabled) && s.responseSize <= |s.buffer|
    case Get => s.pc == Waiting && s.queue > 0
    case Look => s.pc == Parsing && s.index <= |s.buffer| && s.taken > 0
    case Invalid => s.pc == Parsing
    case Parse(reply, _, _) => s.pc == Parsing && |reply| <= |s.buffer| && s.taken > 0
    case SetSend => s.pc == Respond
    case Clear => s.pc == ClearIndex
    case EnableTx => s.pc == StartTx
    case SetIdle => s.pc == NoResponse
    case Check => s.pc == CheckSave
    case SaveDone => s.pc == Saving
  }

  /** How many bytes of the response a driver with this room takes. */
  function Taken(s: State, room: nat): (n: nat)
    ensures n <= s.responseSize && n <= room
  {
    if s.responseSize <= room then s.responseSize else room
  }

  function Overwrite(buffer: Bytes, front: Bytes): Bytes
    requires |front| <= |buffer|
  {
    front + buffer[|front|..]
  }

  function Next(gated: bool, s: State, e: Event): State
    requires Enabled(gated, s, e) && |s.buffer| >= CHUNK
  {
    match e
    case Rx(chunk) =>
      if s.mb == Idle && !s.eepSaving && |chunk| >= MB_FRAME_MIN
      then s.(index := |chunk|, mb := Pars, buffer := Overwrite(s.buffer, chunk),
              queue := s.queue + 1, accepted := s.accepted + [chunk])
      else s
    case Tx(room) => s.(sent := s.sent + [s.buffer[..Taken(s, room)]], txEnabled := false, mb := Idle)
    case Get => s.(queue := s.queue - 1, pc := Parsing, taken := s.taken + 1)
    case Look => s.(views := s.views + [(s.taken - 1, s.buffer[..s.index])])
    case Invalid => s.(mb := Idle, pc := Waiting)
    case Parse(reply, respond, save) =>
      s.(buffer := Overwrite(s.buffer, reply), index := |reply|, responseSize := |reply|, eepSaving := save,
         pc := if respond then Respond else NoResponse,
         responses := if respond then s.responses + [(s.taken - 1, reply)] else s.responses)
    case SetSend => s.(mb := Send, pc := ClearIndex)
    case Clear => s.(index := 0, pc := StartTx)
    case EnableTx => s.(txEnabled := true, pc := CheckSave)
    case SetIdle => s.(mb := Idle, pc := CheckSave)
    case Check => s.(pc := if s.eepSaving then Saving else Waiting)
    case SaveDone => s.(eepSaving := false, pc := Waiting)
  }

  // Runs.

  ghost predicate Reaches(gated: bool, s: State, run: seq<Event>, end: State)
    decreases |run|
  {
    if run == [] then s == end
    else Enabled(gated, s, run[0]) && |s.buffer| >= CHUNK && Reaches(gated, Next(gated, s, run[0]), run[1..], end)
  }

  function Step(gated: bool, s: State, e: Event): State
    requires Enabled(gated, s, e) && |s.buffer| >= CHUNK
  {
    Next(gated, s, e)
  }

  lemma Prepend(gated: bool, s: State, e: Event, run: seq<Event>, end: State) returns (longer: seq<Event>)
    requires Enabled(gated, s, e) && |s.buffer| >= CHUNK && Reaches(gated, Next(gated, s, e), run, end)
    ensures longer == [e] + run && Reaches(gated, s, longer, end)
  {
    longer := [e] + run;
    assert longer[1..] == run;
  }

  // The invariant, clause by clause.

  /** The node is queued at most once, exactly while an accepted frame waits, and then
      the state is Pars and the buffer holds that frame. */
  ghost predicate QueueOk(s: State) {
    && s.queue <= 1 && |s.accepted| == s.taken + s.queue
    && (s.queue == 1 ==> s.mb == Pars && !s.eepSaving && s.pc in {Waiting, CheckSave})
    && (s.queue == 1 ==> s.index <= |s.buffer| && s.buffer[..s.index] == s.accepted[s.taken])
  }

  /** The task owns the buffer from Get to the end of parsing, and sees its frame. */
  ghost predicate TaskOk(s: State) {
    && (s.pc in {Parsing, Respond, NoResponse} ==> s.mb == Pars && s.queue == 0 && s.taken > 0)
    && (s.pc == Parsing ==> s.taken <= |s.accepted| && s.index <= |s.buffer|
                            && s.buffer[..s.index] == s.accepted[s.taken - 1])
    && (s.pc in {ClearIndex, StartTx} ==> s.mb == Send)
    && (s.mb == Pars ==> s.queue == 1 || s.pc in {Parsing, Respond, NoResponse})
    && (s.eepSaving ==> s.pc !in {Waiting, Parsing}) && (s.pc == Saving ==> s.eepSaving)
  }

  /** The transmitter is enabled exactly while a response waits to be sent. */
  ghost predicate TxOk(s: State) {
    && (s.txEnabled <==> s.mb == Send && s.pc !in {ClearIndex, StartTx})
    && (s.mb == Send || s.pc == Respond ==>
          && s.queue == 0 && s.responseSize <= |s.buffer| && |s.responses| == |s.sent| + 1
          && s.buffer[..s.responseSize] == s.responses[|s.sent|].1)
    && (s.mb != Send && s.pc != Respond ==> |s.responses| == |s.sent|)
  }

  /** Everything seen is an accepted frame, in full; everything sent is the front of a
      response, each at most once and in order; every response answers one later frame
      than the last. */
  ghost predicate HistoryOk(s: State) {
    ViewsOk(s) && SentOk(s) && OrderOk(s) && SizesOk(s)
  }

  /** Only whole frames that one read can bring are accepted. */
  ghost predicate SizesOk(s: State) {
    forall k | 0 <= k < |s.accepted| :: MB_FRAME_MIN <= |s.accepted[k]| <= CHUNK
  }

  ghost predicate ViewsOk(s: State) {
    forall k | 0 <= k < |s.views| :: s.views[k].0 < |s.accepted| && s.views[k].1 == s.accepted[s.views[k].0]
  }

  ghost predicate SentOk(s: State) {
    |s.sent| <= |s.responses| && forall k | 0 <= k < |s.sent| :: s.sent[k] <= s.responses[k].1
  }

  ghost predicate OrderOk(s: State) {
    && (forall k | 0 <= k < |s.responses| :: s.responses[k].0 < s.taken)
    && (forall j, k | 0 <= j < k < |s.responses| :: s.responses[j].0 < s.responses[k].0)
    && (s.pc == Parsing ==> forall k | 0 <= k < |s.responses| :: s.responses[k].0 < s.taken - 1)
  }

  ghost predicate Inv(s: State) {
    |s.buffer| >= CHUNK && QueueOk(s) && TaskOk(s) && TxOk(s) && HistoryOk(s)
  }

  lemma NextKeepsQueueAndTask(s: State, e: Event)
    requires Inv(s) && Enabled(true, s, e)
    ensures QueueOk(Next(true, s, e)) && TaskOk(Next(true, s, e)) && |Next(true, s, e).buffer| == |s.buffer|
  {
    if e.Rx? {
      assert Overwrite(s.buffer, e.chunk)[..|e.chunk|] == e.chunk;
    }
  }

  lemma NextKeepsTx(s: State, e: Event)
    requires Inv(s) && Enabled(true, s, e)
    ensures TxOk(Next(true, s, e))
  {
  }

  lemma NextKeepsViews(s: State, e: Event)
    requires Inv(s) && Enabled(true, s, e)
    ensures ViewsOk(Next(true, s, e))
  {
  }

  lemma NextKeepsSent(s: State, e: Event)
    requires Inv(s) && Enabled(true, s, e)
    ensures SentOk(Next(true, s, e))
  {
  }

  lemma NextKeepsSizes(s: State, e: Event)
    requires Inv(s) && Enabled(true, s, e)
    ensures SizesOk(Next(true, s, e))
  {
  }

  lemma NextKeepsOrder(s: State, e: Event)
    requires Inv(s) && Enabled(true, s, e)
    ensures OrderOk(Next(true, s, e))
  {
  }

  lemma NextKeepsInv(s: State, e: Event)
    requires Inv(s) && Enabled(true, s, e)
    ensures Inv(Next(true, s, e))
  {
    NextKeepsQueueAndTask(s, e);
    NextKeepsTx(s, e);
    NextKeepsViews(s, e);
    NextKeepsSent(s, e);
    NextKeepsOrder(s, e);
    NextKeepsSizes(s, e);
  }

  /** Every interleaving keeps the ownership discipline. */
  lemma {:induction false} OwnershipAlways(s: State, run: seq<Event>, end: State)
    requires Inv(s) && Reaches(true, s, run, end)
    ensures Inv(end)
    decreases |run|
  {
    if run == [] {
    } else {
      NextKeepsInv(s, run[0]);
      OwnershipAlways(Next(true, s, run[0]), run[1..], end);
    }
  }

  /** What that means from power-up, for every interleaving: the node is queued at most
      once; the frames taken are the accepted ones in order, at most one still waiting;
      every look of the parser shows exactly the bytes and length of the frame it took;
      the driver was given each response, in order and at most once, and took the front of
      it; all responses but the last have been given; each answers a different frame. */
  lemma FramesIntact(buffer: Bytes, run: seq<Event>, end: State)
    requires |buffer| >= 64 && Reaches(true, Init(buffer), run, end)
    ensures end.queue <= 1 && |end.accepted| == end.taken + end.queue
    ensures end.queue == 1 ==> end.mb == Pars
    ensures forall k | 0 <= k < |end.views| ::
      end.views[k].0 < |end.accepted| && end.views[k].1 == end.accepted[end.views[k].0]
    ensures forall k | 0 <= k < |end.accepted| :: 4 <= |end.accepted[k]| <= 64
    ensures |end.responses| - 1 <= |end.sent| <= |end.responses|
    ensures forall k | 0 <= k < |end.sent| :: end.sent[k] <= end.responses[k].1
    ensures forall j, k | 0 <= j < k < |end.responses| ::
      end.responses[j].0 < end.responses[k].0 < end.taken
  {
    OwnershipAlways(Init(buffer), run, end);
  }

  /** Nothing is under way. */
  predicate AllIdle(s: State) {
    s.mb == Idle && !s.eepSaving && s.pc == Waiting && s.queue == 0
  }

  /** Steps of the task and the transmitter that need no new input and finish something. */
  predicate Internal(e: Event) {
    !e.Rx? && !e.Look?
  }

  /** A bound on how many of them are left. */
  function Work(s: State): nat {
    var task := match s.pc
      case Waiting => 0
      case Saving => 1
      case CheckSave => 2
      case NoResponse => 3
      case StartTx => 4
      case ClearIndex => 5
      case Respond => 6
      case Parsing => 7;
    task + 8 * s.queue + if s.txEnabled then 1 else 0
  }

  /** Unless all is idle, the task or the transmitter can move without any new input. */
  lemma NeverStuck(s: State) returns (e: Event)
    requires Inv(s) && !AllIdle(s)
    ensures Internal(e) && Enabled(true, s, e)
  {
    e := match s.pc
      case Waiting => if s.mb == Send then Tx(0) else Get
      case Parsing => Invalid
      case Respond => SetSend
      case ClearIndex => Clear
      case StartTx => EnableTx
      case NoResponse => SetIdle
      case CheckSave => Check
      case Saving => SaveDone;
  }

  /** And every such step leaves less to do. */
  lemma WorkFalls(s: State, e: Event)
    requires Inv(s) && Internal(e) && Enabled(true, s, e)
    ensures Work(Next(true, s, e)) < Work(s)
  {
  }

  lemma {:induction false} InternalRunIsShort(s: State, run: seq<Event>, end: State)
    requires Inv(s) && Reaches(true, s, run, end) && forall k | 0 <= k < |run| :: Internal(run[k])
    ensures Inv(end) && |run| + Work(end) <= Work(s)
    decreases |run|
  {
    if run == [] {
    } else {
      NextKeepsInv(s, run[0]);
      WorkFalls(s, run[0]);
      InternalRunIsShort(Next(true, s, run[0]), run[1..], end);
    }
  }

  /** No internal step is possible. */
  ghost predicate Quiet(s: State) {
    forall e | Internal(e) :: !Enabled(true, s, e)
  }

  lemma QuietExactly(s: State)
    requires Inv(s)
    ensures Quiet(s) <==> AllIdle(s)
  {
    if !AllIdle(s) {
      var e := NeverStuck(s);
    }
  }

  lemma WorkBounded(s: State)
    requires Inv(s)
    ensures Work(s) <= 10
  {
  }

  /** From every reachable state, without new input, everything becomes idle: whatever order
      the steps come in there are at most ten, and when no more is possible all is idle. */
  lemma BecomesIdle(buffer: Bytes, before: seq<Event>, s: State, run: seq<Event>, end: State)
    requires |buffer| >= CHUNK && Reaches(true, Init(buffer), before, s) && Reaches(true, s, run, end)
    requires forall k | 0 <= k < |run| :: Internal(run[k])
    ensures |run| <= 10
    ensures Quiet(end) <==> AllIdle(end)
    ensures AllIdle(end) ==> |end.sent| == |end.responses| && end.taken == |end.accepted|
  {
    OwnershipAlways(Init(buffer), before, s);
    InternalRunIsShort(s, run, end);
    WorkBounded(s);
    QuietExactly(end);
  }

  lemma Answer(s: State, reply: Bytes, room: nat) returns (run: seq<Event>, end: State)
    requires |s.buffer| >= CHUNK && s.pc == Parsing && s.queue == 0 && s.taken > 0
    requires room <= |reply| <= |s.buffer|
    ensures Reaches(true, s, run, end) && AllIdle(end) && end.accepted == s.accepted && end.views == s.views
    ensures end.responses == s.responses + [(s.taken - 1, reply)] && end.sent == s.sent + [reply[..room]]
  {
    var e := Parse(reply, true, false);
    var s1 := Step(true, s, e);
    var s2 := Step(true, s1, SetSend);
    var s3 := Step(true, s2, Clear);
    run, end := EnableAndSend(s3, reply, room);
    run := Prepend(true, s2, Clear, run, end);
    run := Prepend(true, s1, SetSend, run, end);
    run := Prepend(true, s, e, run, end);
  }

  lemma EnableAndSend(s: State, reply: Bytes, room: nat) returns (run: seq<Event>, end: State)
    requires |s.buffer| >= CHUNK && s.pc == StartTx && s.mb == Send && s.queue == 0 && !s.eepSaving
    requires s.responseSize == |reply| <= |s.buffer| && s.buffer[..|reply|] == reply && room <= |reply|
    ensures Reaches(true, s, run, end) && AllIdle(end) && end.accepted == s.accepted && end.views == s.views
    ensures end.responses == s.responses && end.sent == s.sent + [reply[..room]]
  {
    var s1 := Step(true, s, EnableTx);
    var s2 := Step(true, s1, Tx(room));
    end := Step(true, s2, Check);
    assert s1.buffer[..room] == reply[..room];
    run := Prepend(true, s2, Check, [], end);
    run := Prepend(true, s1, Tx(room), run, end);
    run := Prepend(true, s, EnableTx, run, end);
  }

  /** A chunk is accepted, whole and as the next frame to take, exactly if nothing is being
      parsed, sent or saved and it has at least four bytes; otherwise it changes nothing. */
  lemma AcceptedExactly(s: State, chunk: Bytes)
    requires Inv(s) && |chunk| <= 64
    ensures Enabled(true, s, Rx(chunk))
    ensures var after := Next(true, s, Rx(chunk));
      if s.mb == Idle && !s.eepSaving && |chunk| >= 4
      then after.accepted == s.accepted + [chunk] && after.queue == 1 && after.taken == |s.accepted|
      else after == s
  {
  }

  lemma {:induction false} ReachesOn(gated: bool, s: State, run: seq<Event>, mid: State, more: seq<Event>, end: State)
    requires Reaches(gated, s, run, mid) && Reaches(gated, mid, more, end)
    ensures Reaches(gated, s, run + more, end)
    decreases |run|
  {
    if run == [] {
      assert run + more == more;
    } else {
      assert (run + more)[1..] == run[1..] + more;
      ReachesOn(gated, Next(gated, s, run[0]), run[1..], mid, more, end);
    }
  }

  /** When all is idle, the parser gets to see the next frame exactly as it came. */
  lemma NextFrameIsSeen(s: State, frame: Bytes) returns (end: State)
    requires Inv(s) && AllIdle(s) && 4 <= |frame| <= 64
    ensures Reaches(true, s, [Rx(frame), Get, Look], end)
    ensures end.pc == Parsing && end.queue == 0 && end.taken == |s.accepted| + 1 && |end.buffer| == |s.buffer|
    ensures end.accepted == s.accepted + [frame] && end.views == s.views + [(|s.accepted|, frame)]
    ensures end.responses == s.responses && end.sent == s.sent
  {
    assert Overwrite(s.buffer, frame)[..|frame|] == frame;
    var s1 := Step(true, s, Rx(frame));
    var s2 := Step(true, s1, Get);
    end := Step(true, s2, Look);
    var run := Prepend(true, s2, Look, [], end);
    run := Prepend(true, s1, Get, run, end);
    run := Prepend(true, s, Rx(frame), run, end);
    assert run == [Rx(frame), Get, Look];
  }

  /** What it answers then goes out, whole if the driver has room, and all is idle again. */
  lemma NextFrameIsAnswered(s: State, frame: Bytes, reply: Bytes)
    requires Inv(s) && AllIdle(s) && 4 <= |frame| <= 64 && |reply| <= |s.buffer|
    ensures exists run: seq<Event>, end: State ::
      && Reaches(true, s, run, end) && AllIdle(end)
      && end.views == s.views + [(|s.accepted|, frame)]
      && end.responses == s.responses + [(|s.accepted|, reply)] && end.sent == s.sent + [reply]
  {
    var mid := NextFrameIsSeen(s, frame);
    var run, end := Answer(mid, reply, |reply|);
    assert reply[..|reply|] == reply;
    var first := [Rx(frame), Get, Look];
    ReachesOn(true, s, first, mid, run, end);
    assert Reaches(true, s, first + run, end);
  }

  /** Or, if it asks for a save and no response, the save is done, a chunk that comes
      meanwhile is lost, nothing is sent, and all is idle again. */
  lemma NextFrameIsSaved(s: State, frame: Bytes, reply: Bytes, chunk: Bytes)
    requires Inv(s) && AllIdle(s) && 4 <= |frame| <= 64 && |reply| <= |s.buffer| && |chunk| <= 64
    ensures exists run: seq<Event>, end: State ::
      && Reaches(true, s, run, end) && SaveDone in run && Rx(chunk) in run && AllIdle(end)
      && end.accepted == s.accepted + [frame] && end.views == s.views + [(|s.accepted|, frame)]
      && end.responses == s.responses && end.sent == s.sent
  {
    var mid := NextFrameIsSeen(s, frame);
    var run, end := Save(mid, reply, chunk);
    var first := [Rx(frame), Get, Look];
    ReachesOn(true, s, first, mid, run, end);
    assert Reaches(true, s, first + run, end) && SaveDone in first + run && Rx(chunk) in first + run;
  }

  lemma Save(s: State, reply: Bytes, chunk: Bytes) returns (run: seq<Event>, end: State)
    requires |s.buffer| >= CHUNK && s.pc == Parsing && s.queue == 0 && s.taken > 0
    requires |reply| <= |s.buffer| && |chunk| <= CHUNK
    ensures Reaches(true, s, run, end) && AllIdle(end) && SaveDone in run && Rx(chunk) in run
    ensures end.accepted == s.accepted && end.views == s.views && end.responses == s.responses && end.sent == s.sent
  {
    var e := Parse(reply, false, true);
    var s1 := Step(true, s, e);
    var s2 := Step(true, s1, SetIdle);
    var s3 := Step(true, s2, Check);
    assert Step(true, s3, Rx(chunk)) == s3;
    end := Step(true, s3, SaveDone);
    run := Prepend(true, s3, SaveDone, [], end);
    run := Prepend(true, s3, Rx(chunk), run, end);
    run := Prepend(true, s2, Check, run, end);
    run := Prepend(true, s1, SetIdle, run, end);
    run := Prepend(true, s, e, run, end);
  }

  /** The side conditions of Enabled on sizes and counts never hold a step back: the
      parser can always look, and an enabled response can always be given to the driver. */
  lemma GuardsAlwaysHold(buffer: Bytes, run: seq<Event>, end: State, reply: Bytes, save: bool)
    requires |buffer| >= CHUNK && Reaches(true, Init(buffer), run, end) && |reply| <= |buffer|
    ensures |end.buffer| == |buffer|
    ensures end.pc == Parsing ==> Enabled(true, end, Look) && Enabled(true, end, Parse(reply, true, save))
    ensures forall room :: Enabled(true, end, Tx(room)) <==> end.mb == Send && end.txEnabled
  {
    OwnershipAlways(Init(buffer), run, end);
    BufferSizeFixed(true, Init(buffer), run, end);
  }

  lemma {:induction false} BufferSizeFixed(gated: bool, s: State, run: seq<Event>, end: State)
    requires Reaches(gated, s, run, end)
    ensures |end.buffer| == |s.buffer|
    decreases |run|
  {
    if run == [] {
    } else {
      BufferSizeFixed(gated, Next(gated, s, run[0]), run[1..], end);
    }
  }

  lemma {:induction false} SentGrows(gated: bool, s: State, run: seq<Event>, end: State)
    requires Reaches(gated, s, run, end)
    ensures s.sent <= end.sent && s.responses <= end.responses
    decreases |run|
  {
    if run == [] {
    } else {
      SentGrows(gated, Next(gated, s, run[0]), run[1..], end);
    }
  }

  /** The handler does not look at the count the driver returns.  Whatever happens later,
      a response has been sent in full exactly when it fitted the driver's room: no later
      step sends the rest. */
  lemma {:induction false} SentInFullExactly(buffer: Bytes, run: seq<Event>, s: State, room: nat,
                                             later: seq<Event>, end: State)
    requires |buffer| >= CHUNK && Reaches(true, Init(buffer), run, s)
    requires Enabled(true, s, Tx(room)) && |s.buffer| >= CHUNK
    requires Reaches(true, Next(true, s, Tx(room)), later, end)
    ensures var k := |s.sent|;
      && k < |end.sent| && k < |end.responses|
      && end.sent[k] <= end.responses[k].1
      && (end.sent[k] == end.responses[k].1 <==> |end.responses[k].1| <= room)
  {
    OwnershipAlways(Init(buffer), run, s);
    GivenInFull(s, room);
    SentGrows(true, Next(true, s, Tx(room)), later, end);
  }

  lemma GivenInFull(s: State, room: nat)
    requires Inv(s) && Enabled(true, s, Tx(room))
    ensures var after, k := Next(true, s, Tx(room)), |s.sent|;
      && k < |after.sent| && k < |after.responses|
      && after.sent[k] <= after.responses[k].1
      && (after.sent[k] == after.responses[k].1 <==> |after.responses[k].1| <= room)
  {
    assert s.buffer[..s.responseSize] == s.responses[|s.sent|].1;
  }

  /** And a response longer than the room does happen, from power-up, for every frame:
      then all is idle again, and only the front of the response has been sent. */
  lemma ShortWriteHappens(buffer: Bytes, frame: Bytes, reply: Bytes, room: nat)
    requires |buffer| >= CHUNK && MB_FRAME_MIN <= |frame| <= CHUNK && room < |reply| <= |buffer|
    ensures exists run: seq<Event>, end: State ::
      && Reaches(true, Init(buffer), run, end) && AllIdle(end)
      && end.responses == [(0, reply)] && end.sent == [reply[..room]]
  {
    var s0 := Init(buffer);
    var s1 := Step(true, s0, Rx(frame));
    var s2 := Step(true, s1, Get);
    var run, end := Answer(s2, reply, room);
    run := Prepend(true, s1, Get, run, end);
    run := Prepend(true, s0, Rx(frame), run, end);
  }

  /** The discipline rests on the gating.  Suppose the handler could send before the
      transmitter is enabled, and accept another frame, while the task is still about to
      clear the index: the task would then read that frame as empty. */
  lemma ClearLosesLength(s: State)
    requires |s.buffer| >= CHUNK && s.pc == ClearIndex && s.queue == 1 && !s.eepSaving
    ensures exists run: seq<Event>, end: State ::
      Reaches(false, s, run, end) && end.accepted == s.accepted && end.views == s.views + [(s.taken, [])]
  {
    var s1 := Step(false, s, Clear);
    var s2 := Step(false, s1, EnableTx);
    var s3 := Step(false, s2, Check);
    var s4 := Step(false, s3, Get);
    var s5 := Step(false, s4, Look);
    var run := Prepend(false, s4, Look, [], s5);
    run := Prepend(false, s3, Get, run, s5);
    run := Prepend(false, s2, Check, run, s5);
    run := Prepend(false, s1, EnableTx, run, s5);
    run := Prepend(false, s, Clear, run, s5);
  }

  /** And without the gating that does happen, from power-up, to any two frames. */
  lemma UngatedLosesFrame(buffer: Bytes, first: Bytes, second: Bytes)
    requires |buffer| >= CHUNK
    requires MB_FRAME_MIN <= |first| <= CHUNK && MB_FRAME_MIN <= |second| <= CHUNK
    ensures exists run: seq<Event>, end: State ::
      && Reaches(false, Init(buffer), run, end)
      && end.accepted == [first, second] && end.views == [(1, [])]
  {
    var s0 := Init(buffer);
    var s1 := Step(false, s0, Rx(first));
    var s2 := Step(false, s1, Get);
    var run, end := AnswerThenReceive(s2, second);
    run := Prepend(false, s1, Get, run, end);
    run := Prepend(false, s0, Rx(first), run, end);
  }

  lemma AnswerThenReceive(s: State, second: Bytes) returns (run: seq<Event>, end: State)
    requires |s.buffer| >= CHUNK && s.pc == Parsing && s.queue == 0 && s.taken > 0
    requires MB_FRAME_MIN <= |second| <= CHUNK
    ensures Reaches(false, s, run, end)
    ensures end.accepted == s.accepted + [second] && end.views == s.views + [(s.taken, [])]
  {
    var e := Parse([], true, false);
    var s1 := Step(false, s, e);
    var s2 := Step(false, s1, SetSend);
    run, end := SendThenReceive(s2, second);
    run := Prepend(false, s1, SetSend, run, end);
    run := Prepend(false, s, e, run, end);
  }

  lemma SendThenReceive(s: State, second: Bytes) returns (run: seq<Event>, end: State)
    requires |s.buffer| >= CHUNK && s.pc == ClearIndex && s.mb == Send && s.queue == 0 && !s.eepSaving
    requires s.responseSize <= |s.buffer| && MB_FRAME_MIN <= |second| <= CHUNK
    ensures Reaches(false, s, run, end)
    ensures end.accepted == s.accepted + [second] && end.views == s.views + [(s.taken, [])]
  {
    var e := Tx(s.responseSize);
    var s1 := Step(false, s, e);
    var s2 := Step(false, s1, Rx(second));
    ClearLosesLength(s2);
    run, end :| Reaches(false, s2, run, end) && end.accepted == s2.accepted && end.views == s2.views + [(s2.taken, [])];
    run := Prepend(false, s1, Rx(second), run, end);
    run := Prepend(false, s, e, run, end);
  }
}
