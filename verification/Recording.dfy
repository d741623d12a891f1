/** Recording a file: the driver (`writer_driver.cpp`) and its writers (the command loops of
    `std-det-writer` and `std-det-meta-writer-gf`) talk over FIFO channels.  The driver may
    give up waiting at any time, writers may fail to create a file, may not answer, may
    crash, and may be started again, and the client may ask for a stop at any time. */
module Recording {
  import opened Wrappers
  import opened Arith

  datatype Cmd = Create | Record(image: nat) | Confirm | Close
  datatype Resp = Success | Failure

  /** `sockets` counts the writers; with a metadata writer, that one is number 0. */
  datatype Config = Config(sockets: nat, meta: bool, images: nat)
  {
    predicate Valid() { sockets >= (if meta then 2 else 1) }
    function DataWriters(): nat
      requires Valid()
    {
      if meta then sockets - 1 else sockets
    }
  }

  /** `get_current_writer_index`. */
  function WriterIndex(c: Config, index: nat): (i: nat)
    requires c.Valid()
    ensures i < c.sockets && (c.meta ==> i > 0)
  {
    if c.meta then 1 + index % (c.sockets - 1) else index % c.sockets
  }

  datatype Phase = Creating | Confirming | Closing

  /** Where the driver thread is: sending a command to the writers from `k` on, waiting for
      the answer of writer `k` with `got` answers so far, at the head of the recording loop,
      listening for an image, between the two sends of an image, or at an end.
      `Unconfirmed` is the end after a failed confirmation, which sets no state. */
  datatype Pc = Send(phase: Phase, k: nat) | Await(phase: Phase, k: nat, got: nat)
              | Recording | Listening | Half(image: nat) | FileSaved | Error | Unconfirmed

  /** A writer and its two channels.  `file` are the images in the open file, `disk` the
      files closed in this session, `done` the commands it has carried out; `lost` says that
      it has been started again while a file was open. */
  datatype Writer = Writer(cmds: seq<Cmd>, resps: seq<Resp>, file: Option<seq<nat>>, disk: seq<seq<nat>>,
                           done: seq<Cmd>, alive: bool, lost: bool)

  /** `stop` says that a stop has been asked for and that the driver has not set the state to
      recording over it. */
  datatype State = State(pc: Pc, recorded: seq<nat>, stop: bool, writers: seq<Writer>)

  ghost predicate Init(c: Config, s: State) {
    && s.pc == Send(Creating, 0)
    && s.recorded == [] && !s.stop
    && |s.writers| == c.sockets
    && forall i :: 0 <= i < c.sockets ==>
         && s.writers[i].cmds == [] && s.writers[i].resps == [] && s.writers[i].file == None
         && s.writers[i].disk == [] && s.writers[i].done == [] && !s.writers[i].lost
  }

  // ---- Steps ----

  /** What becomes of a command: a file may not be created, or the user may not be switched,
      and then there is no answer. */
  datatype Outcome = Done | CreateFails | SwitchFails

  datatype Action = SendNext | Receive | Timeout | Head | Nothing | Image(v: nat) | Forward | Stop
                  | Work(i: nat, outcome: Outcome) | Crash(i: nat) | Restart(i: nat)

  function CmdOf(p: Phase): Cmd {
    match p case Creating => Create case Confirming => Confirm case Closing => Close
  }

  function Next(p: Phase): Pc {
    match p case Creating => Recording case Confirming => Send(Closing, 0) case Closing => FileSaved
  }

  function Fail(p: Phase): Pc {
    if p == Confirming then Unconfirmed else Error
  }

  /** The head of the loop of `did_all_writers_acknowledge`. */
  function Waiting(c: Config, p: Phase, k: nat, got: nat): Pc {
    if k < c.sockets then Await(p, k, got)
    else if got == c.sockets then Next(p)
    else Fail(p)
  }

  ghost predicate CanDo(c: Config, s: State, a: Action) {
    && c.Valid() && |s.writers| == c.sockets
    && match a
       case SendNext => s.pc.Send? && s.pc.k < c.sockets
       case Receive => s.pc.Await? && s.pc.k < c.sockets && s.writers[s.pc.k].resps != []
       case Timeout => s.pc.Await? && s.pc.k < c.sockets
       case Head => s.pc.Recording?
       case Nothing => s.pc.Listening?
       case Image(v) => s.pc.Listening?
       case Forward => s.pc.Half?
       case Stop => true
       case Work(i, o) =>
         && i < c.sockets && s.writers[i].alive && s.writers[i].cmds != []
         && (o != Done ==> s.writers[i].cmds[0] == Create)
         && (s.writers[i].cmds[0].Record? ==> s.writers[i].file.Some?)
       case Crash(i) => i < c.sockets
       case Restart(i) => i < c.sockets && !s.writers[i].alive
  }

  function Sent(w: Writer, cmd: Cmd): Writer {
    w.(cmds := w.cmds + [cmd])
  }

  /** One turn of a writer's loop. */
  function Worked(w: Writer, o: Outcome): Writer
    requires w.cmds != []
  {
    var v := w.(cmds := w.cmds[1..], done := w.done + [w.cmds[0]]);
    match w.cmds[0]
    case Create =>
      (match o
       case Done => v.(file := Some([]), resps := w.resps + [Success])
       case CreateFails => v.(resps := w.resps + [Failure])
       case SwitchFails => v)
    case Record(image) => if w.file.Some? then v.(file := Some(w.file.value + [image])) else v
    case Confirm => v.(resps := w.resps + [Success])
    case Close =>
      v.(file := None, disk := w.disk + (if w.file.Some? then [w.file.value] else []), resps := w.resps + [Success])
  }

  /** A writer that is started again has no file open. */
  function Restarted(w: Writer): Writer {
    w.(file := None, alive := true, lost := w.lost || w.file.Some?)
  }

  /** Whether the manager's state counts as recording when a stop has not been asked for yet:
      from the creation of the file until the writers have confirmed. */
  predicate Stoppable(pc: Pc) {
    match pc
    case Send(p, _) => p != Closing
    case Await(p, _, _) => p != Closing
    case FileSaved => false
    case Error => false
    case _ => true
  }

  /** The driver goes on after an answer or a timeout; when it starts to wait for the first
      image it sets the state, over a stop request too. */
  function Answered(s: State, pc': Pc): State {
    s.(pc := pc', stop := s.stop && pc' != Recording)
  }

  function Do(c: Config, s: State, a: Action): State
    requires CanDo(c, s, a)
  {
    match a
    case SendNext =>
      var k := s.pc.k;
      s.(pc := if k + 1 < c.sockets then Send(s.pc.phase, k + 1) else Await(s.pc.phase, 0, 0),
         writers := s.writers[k := Sent(s.writers[k], CmdOf(s.pc.phase))])
    case Receive =>
      var k := s.pc.k;
      var w := s.writers[k];
      Answered(s, if w.resps[0] == Failure then Fail(s.pc.phase)
                  else Waiting(c, s.pc.phase, k + 1, s.pc.got + 1)).(
      writers := s.writers[k := w.(resps := w.resps[1..])])
    case Timeout => Answered(s, Waiting(c, s.pc.phase, s.pc.k + 1, s.pc.got))
    case Head =>
      s.(pc := if |s.recorded| < c.images && !s.stop then Listening else Send(Confirming, 0))
    case Nothing => s.(pc := Recording)
    case Image(v) =>
      s.(pc := Half(v), stop := s.stop && s.recorded != [],
         writers := if c.meta then s.writers[0 := Sent(s.writers[0], Record(v))] else s.writers)
    case Forward =>
      var i := WriterIndex(c, |s.recorded|);
      s.(pc := Recording, recorded := s.recorded + [s.pc.image],
         writers := s.writers[i := Sent(s.writers[i], Record(s.pc.image))])
    case Stop => s.(stop := s.stop || Stoppable(s.pc))
    case Work(i, o) => s.(writers := s.writers[i := Worked(s.writers[i], o)])
    case Crash(i) => s.(writers := s.writers[i := s.writers[i].(alive := false)])
    case Restart(i) => s.(writers := s.writers[i := Restarted(s.writers[i])])
  }

  ghost predicate Run(c: Config, s: State, acts: seq<Action>, s': State)
    decreases |acts|
  {
    if acts == [] then s' == s else CanDo(c, s, acts[0]) && Run(c, Do(c, s, acts[0]), acts[1..], s')
  }

  // ---- What a writer has done ----

  /** Open file, closed files and number of answers after commands that all succeeded. */
  datatype Outcomes = Outcomes(file: Option<seq<nat>>, disk: seq<seq<nat>>, replies: nat)

  function Replay(cmds: seq<Cmd>): Outcomes {
    if cmds == [] then Outcomes(None, [], 0)
    else Apply(Replay(cmds[..|cmds| - 1]), cmds[|cmds| - 1])
  }

  function Apply(r: Outcomes, cmd: Cmd): Outcomes {
    match cmd
    case Create => Outcomes(Some([]), r.disk, r.replies + 1)
    case Record(v) => if r.file.Some? then r.(file := Some(r.file.value + [v])) else r
    case Confirm => r.(replies := r.replies + 1)
    case Close => Outcomes(None, r.disk + (if r.file.Some? then [r.file.value] else []), r.replies + 1)
  }

  lemma ReplayStep(cmds: seq<Cmd>, cmd: Cmd)
    ensures Replay(cmds + [cmd]) == Apply(Replay(cmds), cmd)
  {
    assert (cmds + [cmd])[..|cmds|] == cmds;
  }

  lemma {:induction false} RepliesGrow(a: seq<Cmd>, b: seq<Cmd>)
    ensures Replay(a).replies <= Replay(a + b).replies
    ensures b != [] && !b[|b| - 1].Record? ==> Replay(a).replies < Replay(a + b).replies
    decreases |b|
  {
    if b == [] {
      assert a + b == a;
    } else {
      var n := |b| - 1;
      RepliesGrow(a, b[..n]);
      assert a + b == (a + b[..n]) + [b[n]];
      ReplayStep(a + b[..n], b[n]);
    }
  }

  /** Writer `w` has been sent `sent` and `got` of its answers have been taken: it has
      carried out a beginning of these commands with success, or it could not create its file. */
  ghost predicate Ok(w: Writer, sent: seq<Cmd>, got: nat) {
    && sent == w.done + w.cmds
    && (Succeeded(w, got) || NotCreated(w, got))
  }

  /** Every command has been answered with success.  A file that was open in a restart is lost. */
  ghost predicate Succeeded(w: Writer, got: nat) {
    && got + |w.resps| == Replay(w.done).replies
    && (forall j :: 0 <= j < |w.resps| ==> w.resps[j] == Success)
    && (!w.lost ==> w.file == Replay(w.done).file && w.disk == Replay(w.done).disk)
    && (w.lost ==> w.done != [] && w.file == None && w.disk == [])
  }

  ghost predicate NotCreated(w: Writer, got: nat) {
    got == 0 && w.done == [Create] && (w.resps == [] || w.resps == [Failure]) && w.file == None && !w.lost
  }

  /** Commands come in order: a single `Create` first. */
  ghost predicate Orderly(sent: seq<Cmd>) {
    forall j :: 0 < j < |sent| ==> sent[j] != Create
  }

  lemma SentOk(w: Writer, sent: seq<Cmd>, got: nat, cmd: Cmd)
    requires Ok(w, sent, got)
    ensures Ok(Sent(w, cmd), sent + [cmd], got)
  {
    assert sent + [cmd] == w.done + (w.cmds + [cmd]);
  }

  lemma ReceivedOk(w: Writer, sent: seq<Cmd>, got: nat)
    requires Ok(w, sent, got) && w.resps != [] && w.resps[0] == Success
    ensures Ok(w.(resps := w.resps[1..]), sent, got + 1)
  {
  }

  lemma WorkedDone(w: Writer, got: nat)
    requires Succeeded(w, got) && w.cmds != [] && (w.cmds[0] == Create ==> w.done == [])
    requires w.cmds[0].Record? ==> w.file.Some?
    ensures Succeeded(Worked(w, Done), got)
  {
    var r := Replay(w.done);
    ReplayStep(w.done, w.cmds[0]);
    match w.cmds[0]
    case Create =>
    case Record(v) =>
    case Confirm =>
    case Close =>
  }

  /** A writer answers every command but the images, a failure exactly when it cannot create its
      file; when it cannot even switch the user there is no answer. */
  lemma WorkedAnswers(w: Writer, o: Outcome)
    requires w.cmds != [] && (o != Done ==> w.cmds[0] == Create)
    ensures Worked(w, o).resps
            == w.resps + if w.cmds[0].Record? || o == SwitchFails then [] else [if o == Done then Success else Failure]
  {
  }

  lemma WorkedQueue(w: Writer, o: Outcome)
    requires w.cmds != []
    ensures Worked(w, o).done == w.done + [w.cmds[0]] && Worked(w, o).done + Worked(w, o).cmds == w.done + w.cmds
  {
    assert w.cmds == [w.cmds[0]] + w.cmds[1..];
  }

  lemma WorkedFailed(w: Writer, got: nat, o: Outcome)
    requires Succeeded(w, got) && w.done == [] && w.cmds != [] && w.cmds[0] == Create && o != Done
    ensures NotCreated(Worked(w, o), got)
  {
  }

  lemma WorkedOk(w: Writer, sent: seq<Cmd>, got: nat, o: Outcome)
    requires Ok(w, sent, got) && w.cmds != [] && Orderly(sent) && (got == 0 ==> |sent| <= 1)
    requires (o != Done ==> w.cmds[0] == Create) && (w.cmds[0].Record? ==> w.file.Some?)
    ensures Ok(Worked(w, o), sent, got)
  {
    WorkedQueue(w, o);
    assert Succeeded(w, got) by { assert |sent| == |w.done| + |w.cmds|; }
    assert sent[|w.done|] == w.cmds[0];
    if o == Done {
      WorkedDone(w, got);
    } else {
      WorkedFailed(w, got, o);
    }
  }

  /** While the file is open, nothing has been closed. */
  lemma {:induction false} OpenFileFirst(cmds: seq<Cmd>)
    requires Orderly(cmds) && Replay(cmds).file.Some?
    ensures cmds != [] && Replay(cmds).disk == []
  {
    var n := |cmds| - 1;
    if cmds[n] == Create {
      assert n == 0;
      assert cmds[..n] == [];
    } else {
      OpenFileFirst(cmds[..n]);
    }
  }

  lemma RestartedOk(w: Writer, sent: seq<Cmd>, got: nat)
    requires Ok(w, sent, got) && Orderly(sent)
    ensures Ok(Restarted(w), sent, got)
  {
    if Succeeded(w, got) && !w.lost && w.file.Some? {
      assert forall j :: 0 <= j < |w.done| ==> w.done[j] == sent[j];
      OpenFileFirst(w.done);
    }
  }

  /** A writer whose answers have all been taken has carried out everything. */
  lemma AnsweredAll(w: Writer, sent: seq<Cmd>, got: nat)
    requires Ok(w, sent, got) && got > 0 && got == Replay(sent).replies && sent != [] && !sent[|sent| - 1].Record?
    ensures w.cmds == [] && w.resps == [] && w.done == sent
    ensures if w.lost then w.file == None && w.disk == []
            else w.file == Replay(sent).file && w.disk == Replay(sent).disk
  {
    RepliesGrow(w.done, w.cmds);
    if w.cmds == [] {
      assert w.done == sent;
    }
  }

  // ---- What the driver has sent ----

  /** The images that writer `i` has to store. */
  function Assigned(c: Config, i: nat, images: seq<nat>): seq<nat>
    requires c.Valid()
  {
    if c.meta && i == 0 then images
    else if images == [] then []
    else
      var n := |images| - 1;
      Assigned(c, i, images[..n]) + (if WriterIndex(c, n) == i then [images[n]] else [])
  }

  function Records(images: seq<nat>): (cmds: seq<Cmd>)
    ensures |cmds| == |images|
  {
    seq(|images|, j requires 0 <= j < |images| => Record(images[j]))
  }

  function RecordsSent(c: Config, pc: Pc, recorded: seq<nat>, i: nat): seq<Cmd>
    requires c.Valid()
  {
    Records(Assigned(c, i, if pc.Half? && c.meta && i == 0 then recorded + [pc.image] else recorded))
  }

  function SentTo(c: Config, pc: Pc, recorded: seq<nat>, i: nat): seq<Cmd>
    requires c.Valid()
  {
    var records := RecordsSent(c, pc, recorded, i);
    match pc
    case Send(Creating, k) => if i < k then [Create] else []
    case Await(Creating, _, _) => [Create]
    case Recording => [Create] + records
    case Listening => [Create] + records
    case Half(_) => [Create] + records
    case Send(Confirming, k) => [Create] + records + (if i < k then [Confirm] else [])
    case Await(Confirming, _, _) => [Create] + records + [Confirm]
    case Send(Closing, k) => [Create] + records + [Confirm] + (if i < k then [Close] else [])
    case _ => [Create] + records + [Confirm] + [Close]
  }

  function TakenFrom(pc: Pc, i: nat): nat {
    match pc
    case Send(p, _) => Before(p)
    case Await(p, k, _) => Before(p) + (if i < k then 1 else 0)
    case Recording => 1
    case Listening => 1
    case Half(_) => 1
    case _ => 3
  }

  function Before(p: Phase): nat {
    match p case Creating => 0 case Confirming => 1 case Closing => 2
  }

  /** The driver has missed an answer or has given up. */
  predicate Doomed(s: State) {
    match s.pc
    case Await(_, k, got) => got < k
    case Error => true
    case Unconfirmed => true
    case _ => false
  }

  ghost predicate Inv(c: Config, s: State) {
    && c.Valid() && |s.writers| == c.sockets
    && (s.pc.Send? ==> s.pc.k < c.sockets)
    && (s.pc.Await? ==> s.pc.got <= s.pc.k < c.sockets)
    && (!Doomed(s) ==>
          forall i :: 0 <= i < c.sockets ==> Ok(s.writers[i], SentTo(c, s.pc, s.recorded, i), TakenFrom(s.pc, i)))
    && ((s.pc.Send? || s.pc.Await?) && s.pc.phase == Creating ==> s.recorded == [])
    && Counted(c, s)
  }

  /** No more images than asked for, and fewer only after a stop request. */
  ghost predicate Counted(c: Config, s: State) {
    && |s.recorded| <= c.images
    && (s.pc.Listening? || s.pc.Half? ==> |s.recorded| < c.images)
    && (PastRecording(s.pc) && !s.stop ==> |s.recorded| == c.images)
  }

  predicate PastRecording(pc: Pc) {
    || ((pc.Send? || pc.Await?) && pc.phase != Creating)
    || pc.FileSaved? || pc.Unconfirmed?
  }

  // ---- Steps keep the invariant ----

  lemma {:induction false} AssignedStep(c: Config, i: nat, images: seq<nat>, v: nat)
    requires c.Valid()
    ensures Assigned(c, i, images + [v])
            == Assigned(c, i, images) + (if (c.meta && i == 0) || WriterIndex(c, |images|) == i then [v] else [])
  {
    assert (images + [v])[..|images|] == images;
  }

  lemma RecordsStep(images: seq<nat>, v: nat)
    ensures Records(images + [v]) == Records(images) + [Record(v)]
  {
  }

  lemma OrderlySent(c: Config, s: State, i: nat)
    requires c.Valid() && !Doomed(s)
    ensures Orderly(SentTo(c, s.pc, s.recorded, i))
    ensures TakenFrom(s.pc, i) == 0 ==> |SentTo(c, s.pc, s.recorded, i)| <= 1
  {
  }

  lemma SendSends(c: Config, pc: Pc, pc': Pc, recorded: seq<nat>, i: nat)
    requires c.Valid() && pc.Send? && pc.k < c.sockets && i < c.sockets
    requires pc' == if pc.k + 1 < c.sockets then Send(pc.phase, pc.k + 1) else Await(pc.phase, 0, 0)
    ensures SentTo(c, pc', recorded, i) == SentTo(c, pc, recorded, i) + (if i == pc.k then [CmdOf(pc.phase)] else [])
    ensures TakenFrom(pc', i) == TakenFrom(pc, i)
  {
  }

  lemma KeepsSend(c: Config, s: State)
    requires Inv(c, s) && CanDo(c, s, SendNext)
    ensures Inv(c, Do(c, s, SendNext))
  {
    var s', k := Do(c, s, SendNext), s.pc.k;
    forall i | 0 <= i < c.sockets
      ensures Ok(s'.writers[i], SentTo(c, s'.pc, s'.recorded, i), TakenFrom(s'.pc, i))
    {
      assert Ok(s.writers[i], SentTo(c, s.pc, s.recorded, i), TakenFrom(s.pc, i));
      SendSends(c, s.pc, s'.pc, s.recorded, i);
      if i == k { SentOk(s.writers[i], SentTo(c, s.pc, s.recorded, i), TakenFrom(s.pc, i), CmdOf(s.pc.phase)); }
    }
  }

  lemma KeepsReceive(c: Config, s: State)
    requires Inv(c, s) && CanDo(c, s, Receive)
    ensures Inv(c, Do(c, s, Receive))
  {
    var s', k := Do(c, s, Receive), s.pc.k;
    if !Doomed(s') {
      forall i | 0 <= i < c.sockets
        ensures Ok(s'.writers[i], SentTo(c, s'.pc, s'.recorded, i), TakenFrom(s'.pc, i))
      {
        assert Ok(s.writers[i], SentTo(c, s.pc, s.recorded, i), TakenFrom(s.pc, i));
        assert SentTo(c, s'.pc, s'.recorded, i) == SentTo(c, s.pc, s.recorded, i) by { AnswerSends(c, s, s', i); }
        if i == k { ReceivedOk(s.writers[i], SentTo(c, s.pc, s.recorded, i), TakenFrom(s.pc, i)); }
      }
    }
  }

  /** Taking an answer does not change what has been sent. */
  lemma AnswerSends(c: Config, s: State, s': State, i: nat)
    requires Inv(c, s) && s.pc.Await? && s'.recorded == s.recorded
    requires s'.pc == Waiting(c, s.pc.phase, s.pc.k + 1, s.pc.got + 1) && !Doomed(s')
    ensures SentTo(c, s'.pc, s'.recorded, i) == SentTo(c, s.pc, s.recorded, i)
  {
    if s.pc.phase == Creating {
      assert Assigned(c, i, []) == [];
    }
  }

  lemma KeepsTimeout(c: Config, s: State)
    requires Inv(c, s) && CanDo(c, s, Timeout)
    ensures Inv(c, Do(c, s, Timeout)) && Doomed(Do(c, s, Timeout))
  {
  }

  lemma KeepsImage(c: Config, s: State, v: nat)
    requires Inv(c, s) && CanDo(c, s, Image(v))
    ensures Inv(c, Do(c, s, Image(v)))
  {
    var s' := Do(c, s, Image(v));
    forall i | 0 <= i < c.sockets
      ensures Ok(s'.writers[i], SentTo(c, s'.pc, s'.recorded, i), TakenFrom(s'.pc, i))
    {
      assert Ok(s.writers[i], SentTo(c, s.pc, s.recorded, i), TakenFrom(s.pc, i));
      if c.meta && i == 0 {
        RecordsStep(s.recorded, v);
        SentOk(s.writers[0], SentTo(c, s.pc, s.recorded, 0), 1, Record(v));
        assert SentTo(c, s'.pc, s'.recorded, 0) == SentTo(c, s.pc, s.recorded, 0) + [Record(v)];
      }
    }
  }

  lemma KeepsForward(c: Config, s: State)
    requires Inv(c, s) && CanDo(c, s, Forward)
    ensures Inv(c, Do(c, s, Forward))
  {
    var s', n, v := Do(c, s, Forward), |s.recorded|, s.pc.image;
    forall i | 0 <= i < c.sockets
      ensures Ok(s'.writers[i], SentTo(c, s'.pc, s'.recorded, i), TakenFrom(s'.pc, i))
    {
      assert Ok(s.writers[i], SentTo(c, s.pc, s.recorded, i), TakenFrom(s.pc, i));
      AssignedStep(c, i, s.recorded, v);
      if i == WriterIndex(c, n) {
        RecordsStep(Assigned(c, i, s.recorded), v);
        SentOk(s.writers[i], SentTo(c, s.pc, s.recorded, i), 1, Record(v));
        assert SentTo(c, s'.pc, s'.recorded, i) == SentTo(c, s.pc, s.recorded, i) + [Record(v)];
      } else {
        assert SentTo(c, s'.pc, s'.recorded, i) == SentTo(c, s.pc, s.recorded, i);
      }
    }
  }

  /** Steps of the driver that send and take nothing. */
  lemma KeepsSilent(c: Config, s: State, a: Action)
    requires Inv(c, s) && CanDo(c, s, a) && (a == Head || a == Nothing || a == Stop)
    ensures Inv(c, Do(c, s, a))
  {
    var s' := Do(c, s, a);
    if !Doomed(s') {
      forall i | 0 <= i < c.sockets
        ensures Ok(s'.writers[i], SentTo(c, s'.pc, s'.recorded, i), TakenFrom(s'.pc, i))
      {
        assert Ok(s.writers[i], SentTo(c, s.pc, s.recorded, i), TakenFrom(s.pc, i));
        assert SentTo(c, s'.pc, s'.recorded, i) == SentTo(c, s.pc, s.recorded, i);
      }
    }
  }

  lemma KeepsWork(c: Config, s: State, n: nat, o: Outcome)
    requires Inv(c, s) && CanDo(c, s, Work(n, o))
    ensures Inv(c, Do(c, s, Work(n, o)))
  {
    var s' := Do(c, s, Work(n, o));
    if !Doomed(s) {
      forall i | 0 <= i < c.sockets
        ensures Ok(s'.writers[i], SentTo(c, s'.pc, s'.recorded, i), TakenFrom(s'.pc, i))
      {
        assert Ok(s.writers[i], SentTo(c, s.pc, s.recorded, i), TakenFrom(s.pc, i));
        OrderlySent(c, s, i);
        if i == n { WorkedOk(s.writers[i], SentTo(c, s.pc, s.recorded, i), TakenFrom(s.pc, i), o); }
      }
    }
  }

  lemma KeepsCrash(c: Config, s: State, n: nat)
    requires Inv(c, s) && CanDo(c, s, Crash(n))
    ensures Inv(c, Do(c, s, Crash(n)))
  {
    var s' := Do(c, s, Crash(n));
    if !Doomed(s) {
      forall i | 0 <= i < c.sockets
        ensures Ok(s'.writers[i], SentTo(c, s'.pc, s'.recorded, i), TakenFrom(s'.pc, i))
      {
        assert Ok(s.writers[i], SentTo(c, s.pc, s.recorded, i), TakenFrom(s.pc, i));
      }
    }
  }

  lemma KeepsRestart(c: Config, s: State, n: nat)
    requires Inv(c, s) && CanDo(c, s, Restart(n))
    ensures Inv(c, Do(c, s, Restart(n)))
  {
    var s' := Do(c, s, Restart(n));
    if !Doomed(s) {
      forall i | 0 <= i < c.sockets
        ensures Ok(s'.writers[i], SentTo(c, s'.pc, s'.recorded, i), TakenFrom(s'.pc, i))
      {
        assert Ok(s.writers[i], SentTo(c, s.pc, s.recorded, i), TakenFrom(s.pc, i));
        OrderlySent(c, s, i);
        if i == n { RestartedOk(s.writers[i], SentTo(c, s.pc, s.recorded, i), TakenFrom(s.pc, i)); }
      }
    }
  }

  lemma DoKeeps(c: Config, s: State, a: Action)
    requires Inv(c, s) && CanDo(c, s, a)
    ensures Inv(c, Do(c, s, a))
  {
    match a
    case SendNext => KeepsSend(c, s);
    case Receive => KeepsReceive(c, s);
    case Timeout => KeepsTimeout(c, s);
    case Image(v) => KeepsImage(c, s, v);
    case Forward => KeepsForward(c, s);
    case Head => KeepsSilent(c, s, a);
    case Nothing => KeepsSilent(c, s, a);
    case Stop => KeepsSilent(c, s, a);
    case Work(n, o) => KeepsWork(c, s, n, o);
    case Crash(n) => KeepsCrash(c, s, n);
    case Restart(n) => KeepsRestart(c, s, n);
  }

  lemma {:induction false} RunKeeps(c: Config, s: State, acts: seq<Action>, s': State)
    requires Inv(c, s) && Run(c, s, acts, s')
    ensures Inv(c, s')
    decreases |acts|
  {
    if acts != [] {
      DoKeeps(c, s, acts[0]);
      RunKeeps(c, Do(c, s, acts[0]), acts[1..], s');
    }
  }

  lemma InitKeeps(c: Config, s: State)
    requires c.Valid() && Init(c, s)
    ensures Inv(c, s)
  {
  }

  /** At no time have more images been recorded than were asked for, and the driver takes up an
      image only while fewer have been. */
  lemma RecordedBounded(c: Config, s0: State, acts: seq<Action>, s: State)
    requires c.Valid() && Init(c, s0) && Run(c, s0, acts, s)
    ensures |s.recorded| <= c.images
    ensures s.pc.Listening? || s.pc.Half? ==> |s.recorded| < c.images
  {
    InitKeeps(c, s0);
    RunKeeps(c, s0, acts, s);
  }

  // ---- Whole sessions ----

  lemma {:induction false} ReplayRecords(images: seq<nat>)
    ensures Replay([Create] + Records(images)) == Outcomes(Some(images), [], 1)
  {
    if images == [] {
      assert [Create] + Records(images) == [] + [Create];
      ReplayStep([], Create);
    } else {
      var n := |images| - 1;
      ReplayRecords(images[..n]);
      assert images == images[..n] + [images[n]];
      RecordsStep(images[..n], images[n]);
      assert [Create] + Records(images) == [Create] + Records(images[..n]) + [Record(images[n])];
      ReplayStep([Create] + Records(images[..n]), Record(images[n]));
    }
  }

  lemma ReplaySession(images: seq<nat>)
    ensures Replay([Create] + Records(images) + [Confirm]) == Outcomes(Some(images), [], 2)
    ensures Replay([Create] + Records(images) + [Confirm] + [Close]) == Outcomes(None, [images], 3)
  {
    ReplayRecords(images);
    ReplayStep([Create] + Records(images), Confirm);
    ReplayStep([Create] + Records(images) + [Confirm], Close);
  }

  /** In the course of `acts` writer `i` is started again while its file is open. */
  ghost predicate LosesFile(c: Config, s: State, acts: seq<Action>, i: nat)
    decreases |acts|
  {
    && acts != [] && CanDo(c, s, acts[0]) && i < c.sockets
    && ((acts[0] == Restart(i) && s.writers[i].file.Some?) || LosesFile(c, Do(c, s, acts[0]), acts[1..], i))
  }

  lemma {:induction false} LostWhen(c: Config, s: State, acts: seq<Action>, s': State, i: nat)
    requires c.Valid() && |s.writers| == c.sockets && i < c.sockets && Run(c, s, acts, s')
    ensures |s'.writers| == c.sockets
    ensures s'.writers[i].lost <==> s.writers[i].lost || LosesFile(c, s, acts, i)
    decreases |acts|
  {
    if acts != [] {
      LostWhen(c, Do(c, s, acts[0]), acts[1..], s', i);
      LostStep(c, s, acts[0], i);
    }
  }

  lemma LostStep(c: Config, s: State, a: Action, i: nat)
    requires CanDo(c, s, a) && i < c.sockets
    ensures |Do(c, s, a).writers| == c.sockets
    ensures Do(c, s, a).writers[i].lost <==> s.writers[i].lost || (a == Restart(i) && s.writers[i].file.Some?)
  {
  }

  /** When all writers have confirmed, the images of each are in its file, unless it has been
      started again with the file open. */
  lemma ConfirmedMeansWritten(c: Config, s0: State, acts: seq<Action>, s: State, i: nat)
    requires c.Valid() && Init(c, s0) && Run(c, s0, acts, s) && s.pc == Send(Closing, 0) && i < c.sockets
    ensures |s.writers| == c.sockets && s.writers[i].cmds == [] && s.writers[i].resps == []
    ensures s.writers[i].file == if LosesFile(c, s0, acts, i) then None else Some(Assigned(c, i, s.recorded))
  {
    InitKeeps(c, s0);
    RunKeeps(c, s0, acts, s);
    LostWhen(c, s0, acts, s, i);
    ReplaySession(Assigned(c, i, s.recorded));
    assert Ok(s.writers[i], SentTo(c, s.pc, s.recorded, i), TakenFrom(s.pc, i));
    assert SentTo(c, s.pc, s.recorded, i) == [Create] + Records(Assigned(c, i, s.recorded)) + [Confirm];
    AnsweredAll(s.writers[i], SentTo(c, s.pc, s.recorded, i), 2);
  }

  /** A session that ends in `file_saved`: every writer has created its file, written exactly
      the images it is responsible for, in order, then confirmed, then closed the file, and
      all channels are empty again, so that the next session finds what this one has found.
      The file of a writer is there if and only if the writer has not been started again
      while it was open. */
  lemma SavedMeansRecorded(c: Config, s0: State, acts: seq<Action>, s: State, i: nat)
    requires c.Valid() && Init(c, s0) && Run(c, s0, acts, s) && s.pc == FileSaved && i < c.sockets
    ensures |s.recorded| <= c.images && |s.writers| == c.sockets
    ensures var w := s.writers[i];
            && w.done == [Create] + Records(Assigned(c, i, s.recorded)) + [Confirm] + [Close]
            && w.file == None && w.cmds == [] && w.resps == []
            && w.disk == if LosesFile(c, s0, acts, i) then [] else [Assigned(c, i, s.recorded)]
  {
    InitKeeps(c, s0);
    RunKeeps(c, s0, acts, s);
    LostWhen(c, s0, acts, s, i);
    ReplaySession(Assigned(c, i, s.recorded));
    assert Ok(s.writers[i], SentTo(c, s.pc, s.recorded, i), TakenFrom(s.pc, i));
    assert SentTo(c, s.pc, s.recorded, i) == [Create] + Records(Assigned(c, i, s.recorded)) + [Confirm] + [Close];
    AnsweredAll(s.writers[i], SentTo(c, s.pc, s.recorded, i), 3);
  }

  // ---- Who stores what ----

  /** The number of the `j`-th writer of data. */
  function DataWriter(c: Config, j: nat): nat {
    if c.meta then j + 1 else j
  }

  /** After `n == q * D + r` images, the first `r` of the `D` writers have one more image
      than the others. */
  lemma {:induction false} AssignedCount(c: Config, images: seq<nat>, j: nat, q: nat, r: nat)
    requires c.Valid() && j < c.DataWriters() && r < c.DataWriters() && |images| == q * c.DataWriters() + r
    ensures |Assigned(c, DataWriter(c, j), images)| == q + (if j < r then 1 else 0)
    decreases |images|
  {
    var d, n := c.DataWriters(), |images| - 1;
    if images != [] {
      var (q', r') := if r > 0 then (q, r - 1) else (q - 1, d - 1);
      assert n == q' * d + r' && q' >= 0 by { PreviousTurn(q, r, d, |images|); }
      AssignedCount(c, images[..n], j, q', r');
      DivModUnique(n, q', r', d);
      assert WriterIndex(c, n) == DataWriter(c, r');
      AssignedStep(c, DataWriter(c, j), images[..n], images[n]);
      assert images == images[..n] + [images[n]];
    } else {
      if q > 0 { MulGrows(0, q, d); }
    }
  }

  lemma PreviousTurn(q: nat, r: nat, d: nat, n: nat)
    requires r < d && n == q * d + r && n > 0
    ensures r == 0 ==> q > 0 && n - 1 == (q - 1) * d + (d - 1)
  {
    assert (q - 1) * d == q * d - d;
  }

  lemma {:induction false} AssignedKeeps(c: Config, i: nat, a: seq<nat>, b: seq<nat>)
    requires c.Valid()
    ensures Assigned(c, i, a) <= Assigned(c, i, a + b)
    decreases |b|
  {
    if b == [] {
      assert a + b == a;
    } else {
      var n := |b| - 1;
      assert a + b == (a + b[..n]) + [b[n]];
      AssignedKeeps(c, i, a, b[..n]);
      AssignedStep(c, i, a + b[..n], b[n]);
    }
  }

  lemma InterleaveAt(c: Config, images: seq<nat>, k: nat, q: nat, r: nat)
    requires c.Valid() && k < |images| && r < c.DataWriters() && k == q * c.DataWriters() + r
    ensures var file := Assigned(c, DataWriter(c, r), images);
            q < |file| && file[q] == images[k]
  {
    var i := DataWriter(c, r);
    AssignedCount(c, images[..k], r, q, r);
    AssignedStep(c, i, images[..k], images[k]);
    assert WriterIndex(c, k) == i by { DivModUnique(k, q, r, c.DataWriters()); }
    AssignedKeeps(c, i, images[..k] + [images[k]], images[k + 1..]);
    assert images == images[..k] + [images[k]] + images[k + 1..];
  }

  /** Reading the files in turn gives the recorded sequence: image `k` is image `k / D` of
      writer `k % D`. */
  lemma FilesInterleave(c: Config, images: seq<nat>, k: nat)
    requires c.Valid() && k < |images|
    ensures var d := c.DataWriters();
            var file := Assigned(c, DataWriter(c, k % d), images);
            k / d < |file| && file[k / d] == images[k]
  {
    var d := c.DataWriters();
    InterleaveAt(c, images, k, k / d, k % d);
  }

  // ---- Sessions can succeed ----

  lemma {:induction false} RunOn(c: Config, s: State, acts: seq<Action>, m: State, a: Action)
    requires Run(c, s, acts, m) && CanDo(c, m, a)
    ensures Run(c, s, acts + [a], Do(c, m, a))
    decreases |acts|
  {
    var all := acts + [a];
    if acts == [] {
      assert all[1..] == [];
    } else {
      assert all[1..] == acts[1..] + [a] && all[0] == acts[0];
      RunOn(c, Do(c, s, acts[0]), acts[1..], m, a);
    }
  }

  /** A writer that waits for commands, with these messages in its channels. */
  ghost predicate Waits(w: Writer, cmds: seq<Cmd>, resps: seq<Resp>, open: bool) {
    w.alive && w.cmds == cmds && w.resps == resps && (open ==> w.file.Some?)
  }

  /** Writers below `k` are in one state, the others in another. */
  ghost predicate Halfway(c: Config, s: State, k: nat, cmds: seq<Cmd>, resps: seq<Resp>,
                          cmds': seq<Cmd>, resps': seq<Resp>, open: bool, open': bool)
  {
    && |s.writers| == c.sockets && k <= c.sockets
    && forall i :: 0 <= i < c.sockets ==>
         if i < k then Waits(s.writers[i], cmds, resps, open) else Waits(s.writers[i], cmds', resps', open')
  }

  /** Everybody has nothing to do. */
  ghost predicate Quiet(c: Config, s: State, open: bool) {
    Halfway(c, s, 0, [], [], [], [], open, open)
  }

  lemma {:induction false} SendAll(c: Config, s0: State, acts: seq<Action>, s: State, p: Phase, k: nat, open: bool)
    returns (s': State, acts': seq<Action>)
    requires c.Valid() && Run(c, s0, acts, s) && k < c.sockets && s.pc == Send(p, k)
    requires Halfway(c, s, k, [CmdOf(p)], [], [], [], open, open)
    ensures Run(c, s0, acts', s') && acts <= acts' && s'.pc == Await(p, 0, 0) && s'.recorded == s.recorded
    ensures s'.stop == s.stop && (Stop in acts' <==> Stop in acts)
    ensures Halfway(c, s', 0, [], [], [CmdOf(p)], [], open, open)
    decreases c.sockets - k
  {
    var m := Do(c, s, SendNext);
    RunOn(c, s0, acts, s, SendNext);
    assert Halfway(c, m, k + 1, [CmdOf(p)], [], [], [], open, open);
    if k + 1 < c.sockets {
      s', acts' := SendAll(c, s0, acts + [SendNext], m, p, k + 1, open);
    } else {
      s', acts' := m, acts + [SendNext];
    }
  }

  lemma {:induction false} WorkAll(c: Config, s0: State, acts: seq<Action>, s: State, p: Phase, k: nat, open: bool)
    returns (s': State, acts': seq<Action>)
    requires c.Valid() && Run(c, s0, acts, s) && k <= c.sockets && s.pc == Await(p, 0, 0)
    requires Halfway(c, s, k, [], [Success], [CmdOf(p)], [], Opens(p, open), open)
    ensures Run(c, s0, acts', s') && acts <= acts' && s'.pc == Await(p, 0, 0) && s'.recorded == s.recorded
    ensures s'.stop == s.stop && (Stop in acts' <==> Stop in acts)
    ensures Halfway(c, s', 0, [], [], [], [Success], false, Opens(p, open))
    decreases c.sockets - k
  {
    if k < c.sockets {
      var a := Work(k, Done);
      var m := Do(c, s, a);
      RunOn(c, s0, acts, s, a);
      assert Halfway(c, m, k + 1, [], [Success], [CmdOf(p)], [], Opens(p, open), open);
      s', acts' := WorkAll(c, s0, acts + [a], m, p, k + 1, open);
    } else {
      s', acts' := s, acts;
    }
  }

  /** Whether files are open after a phase. */
  predicate Opens(p: Phase, open: bool) {
    p == Creating || (p == Confirming && open)
  }

  lemma {:induction false} ReceiveAll(c: Config, s0: State, acts: seq<Action>, s: State, p: Phase, k: nat, open: bool)
    returns (s': State, acts': seq<Action>)
    requires c.Valid() && Run(c, s0, acts, s) && k < c.sockets && s.pc == Await(p, k, k)
    requires Halfway(c, s, k, [], [], [], [Success], open, open)
    ensures Run(c, s0, acts', s') && acts <= acts' && s'.pc == Next(p) && s'.recorded == s.recorded
    ensures s'.stop == (p != Creating && s.stop) && (Stop in acts' <==> Stop in acts)
    ensures Quiet(c, s', open)
    decreases c.sockets - k
  {
    var m := Do(c, s, Receive);
    RunOn(c, s0, acts, s, Receive);
    assert Halfway(c, m, k + 1, [], [], [], [Success], open, open);
    if k + 1 < c.sockets {
      s', acts' := ReceiveAll(c, s0, acts + [Receive], m, p, k + 1, open);
    } else {
      s', acts' := m, acts + [Receive];
    }
  }

  /** One command to everybody, its execution and its answers. */
  lemma OnePhase(c: Config, s0: State, acts: seq<Action>, s: State, p: Phase, open: bool)
    returns (s': State, acts': seq<Action>)
    requires c.Valid() && Run(c, s0, acts, s) && s.pc == Send(p, 0) && Quiet(c, s, open)
    ensures Run(c, s0, acts', s') && acts <= acts' && s'.pc == Next(p) && s'.recorded == s.recorded
    ensures s'.stop == (p != Creating && s.stop) && (Stop in acts' <==> Stop in acts)
    ensures Quiet(c, s', Opens(p, open))
  {
    var s1, a1 := SendAll(c, s0, acts, s, p, 0, open);
    var s2, a2 := WorkAll(c, s0, a1, s1, p, 0, open);
    s', acts' := ReceiveAll(c, s0, a2, s2, p, 0, Opens(p, open));
  }

  /** One image goes to the metadata writer, if there is one, and to a data writer. */
  lemma OneImage(c: Config, s0: State, acts: seq<Action>, s: State, v: nat) returns (s': State, acts': seq<Action>)
    requires c.Valid() && Run(c, s0, acts, s) && Quiet(c, s, true) && s.pc == Listening
    ensures Run(c, s0, acts', s') && Quiet(c, s', true) && s'.pc == Recording && s'.recorded == s.recorded + [v]
    ensures acts <= acts' && s'.stop == (s.stop && s.recorded != []) && (Stop in acts' <==> Stop in acts)
  {
    var s1, a1 := Do(c, s, Image(v)), acts + [Image(v)];
    RunOn(c, s0, acts, s, Image(v));
    if c.meta {
      RunOn(c, s0, a1, s1, Work(0, Done));
      s1, a1 := Do(c, s1, Work(0, Done)), a1 + [Work(0, Done)];
    }
    assert Quiet(c, s1, true) && s1.pc == Half(v) && s1.recorded == s.recorded;
    s', acts' := ForwardImage(c, s0, a1, s1, v);
  }

  lemma ForwardImage(c: Config, s0: State, acts: seq<Action>, s: State, v: nat) returns (s': State, acts': seq<Action>)
    requires c.Valid() && Run(c, s0, acts, s) && Quiet(c, s, true) && s.pc == Half(v)
    ensures Run(c, s0, acts', s') && Quiet(c, s', true) && s'.pc == Recording && s'.recorded == s.recorded + [v]
    ensures acts <= acts' && s'.stop == s.stop && (Stop in acts' <==> Stop in acts)
  {
    var i := WriterIndex(c, |s.recorded|);
    var m := Do(c, s, Forward);
    RunOn(c, s0, acts, s, Forward);
    s' := Do(c, m, Work(i, Done));
    acts' := acts + [Forward] + [Work(i, Done)];
    RunOn(c, s0, acts + [Forward], m, Work(i, Done));
  }

  /** The loop goes round once more. */
  lemma NextImage(c: Config, s0: State, acts: seq<Action>, s: State, v: nat) returns (s': State, acts': seq<Action>)
    requires c.Valid() && |s.recorded| < c.images && Run(c, s0, acts, s) && Quiet(c, s, true)
    requires s.pc == Recording && !s.stop
    ensures Run(c, s0, acts', s') && Quiet(c, s', true) && s'.pc == Recording && s'.recorded == s.recorded + [v]
    ensures acts <= acts' && !s'.stop && (Stop in acts' <==> Stop in acts)
  {
    RunOn(c, s0, acts, s, Head);
    s', acts' := OneImage(c, s0, acts + [Head], Do(c, s, Head), v);
  }

  lemma {:induction false} AllImages(c: Config, s0: State, acts: seq<Action>, s: State, images: seq<nat>)
    returns (s': State, acts': seq<Action>)
    requires c.Valid() && c.images >= |s.recorded| + |images| && Run(c, s0, acts, s) && Quiet(c, s, true)
    requires s.pc == Recording && !s.stop
    ensures Run(c, s0, acts', s') && Quiet(c, s', true) && s'.pc == Recording && s'.recorded == s.recorded + images
    ensures acts <= acts' && !s'.stop && (Stop in acts' <==> Stop in acts)
    decreases |images|
  {
    if images == [] {
      s', acts' := s, acts;
    } else {
      var n := |images| - 1;
      var m, more := AllImages(c, s0, acts, s, images[..n]);
      s', acts' := NextImage(c, s0, more, m, images[n]);
      assert s.recorded + images == s.recorded + images[..n] + [images[n]];
    }
  }

  /** The end of the recording, at the request of the client if images are still to come. */
  lemma EndOfImages(c: Config, s0: State, acts: seq<Action>, s: State) returns (s': State, acts': seq<Action>)
    requires c.Valid() && Run(c, s0, acts, s) && s.pc == Recording && |s.writers| == c.sockets
    ensures Run(c, s0, acts', s') && acts <= acts' && s'.pc == Send(Confirming, 0)
    ensures s'.recorded == s.recorded && s'.writers == s.writers
    ensures Stop in acts' <==> Stop in acts || |s.recorded| < c.images
  {
    var s1, a1 := s, acts;
    if |s.recorded| < c.images {
      RunOn(c, s0, acts, s, Stop);
      s1, a1 := Do(c, s, Stop), acts + [Stop];
    }
    RunOn(c, s0, a1, s1, Head);
    s', acts' := Do(c, s1, Head), a1 + [Head];
  }

  /** Confirmation and closing, from the end of the recording on. */
  lemma Finish(c: Config, s0: State, acts: seq<Action>, s: State, open: bool) returns (s': State, acts': seq<Action>)
    requires c.Valid() && Run(c, s0, acts, s) && Quiet(c, s, open) && s.pc == Recording
    ensures Run(c, s0, acts', s') && acts <= acts' && s'.pc == FileSaved && s'.recorded == s.recorded
    ensures Stop in acts' <==> Stop in acts || |s.recorded| < c.images
  {
    var s1, a1 := EndOfImages(c, s0, acts, s);
    var s2, a2 := OnePhase(c, s0, a1, s1, Confirming, open);
    s', acts' := OnePhase(c, s0, a2, s2, Closing, Opens(Confirming, open));
  }

  ghost predicate Saves(c: Config, s0: State, acts: seq<Action>, s: State, images: seq<nat>) {
    Run(c, s0, acts, s) && s.pc == FileSaved && s.recorded == images
  }

  /** For any number of writers, with or without a metadata writer, and whatever the images are,
      there is a session that ends in `file_saved` with them; it is stopped only if fewer images
      come than were asked for. */
  lemma SomeSessionIsSaved(c: Config, s0: State, images: seq<nat>)
    requires c.Valid() && c.images >= |images| && Init(c, s0)
    requires forall i :: 0 <= i < c.sockets ==> s0.writers[i].alive
    ensures exists acts, s :: Saves(c, s0, acts, s, images) && (Stop in acts <==> |images| < c.images)
  {
    var s1, a1 := OnePhase(c, s0, [], s0, Creating, false);
    var s2, a2 := AllImages(c, s0, a1, s1, images);
    var s3, a3 := Finish(c, s0, a2, s2, true);
    assert Saves(c, s0, a3, s3, images);
  }

  // ---- Sessions that are asked to stop ----

  lemma {:induction false} NoStopStays(c: Config, s: State, acts: seq<Action>, s': State)
    requires Run(c, s, acts, s') && !s.stop && Stop !in acts
    ensures !s'.stop
    decreases |acts|
  {
    if acts != [] {
      assert acts[0] in acts;
      NoStopStays(c, Do(c, s, acts[0]), acts[1..], s');
    }
  }

  /** A session that nobody stops and that is saved has recorded exactly as many images as
      were asked for. */
  lemma UninterruptedIsComplete(c: Config, s0: State, acts: seq<Action>, s: State)
    requires c.Valid() && Init(c, s0) && Run(c, s0, acts, s) && s.pc == FileSaved && Stop !in acts
    ensures |s.recorded| == c.images
  {
    InitKeeps(c, s0);
    RunKeeps(c, s0, acts, s);
    NoStopStays(c, s0, acts, s);
  }

  /** The driver is in its loop. */
  predicate InLoop(pc: Pc) {
    pc.Recording? || pc.Listening? || pc.Half?
  }

  /** How many images can still follow a stop request: the one that is being waited for or
      sent on.  Only the first image can make the driver forget the request. */
  predicate Heard(s: State, left: nat) {
    || (s.stop && s.pc.Recording?)
    || (s.stop && s.pc.Listening? && s.recorded != [] && left >= 1)
    || (s.stop && s.pc.Half? && left >= 1)
    || PastRecording(s.pc)
    || s.pc.Error?
  }

  lemma HeardStep(c: Config, s: State, a: Action, left: nat) returns (left': nat)
    requires CanDo(c, s, a) && Heard(s, left)
    ensures Heard(Do(c, s, a), left') && |Do(c, s, a).recorded| + left' <= |s.recorded| + left
  {
    left' := if a == Forward then left - 1 else left;
  }

  lemma {:induction false} HeardStops(c: Config, s: State, acts: seq<Action>, s': State, left: nat)
    requires Run(c, s, acts, s') && Heard(s, left)
    ensures |s'.recorded| <= |s.recorded| + left
    decreases |acts|
  {
    if acts != [] {
      var left' := HeardStep(c, s, acts[0], left);
      HeardStops(c, Do(c, s, acts[0]), acts[1..], s', left');
    }
  }

  /** The driver alone, without any step of the writers, can record the first two images
      after a stop request that came while it was listening for the first one. */
  lemma ForgottenStop(c: Config, s: State) returns (acts: seq<Action>, s': State)
    requires c.Valid() && |s.writers| == c.sockets && s.pc == Listening && s.recorded == [] && c.images >= 2
    ensures Run(c, s, acts, s') && |s'.recorded| == 2
  {
    var s1 := Do(c, s, Image(0));
    var s2 := Do(c, s1, Forward);
    var s3 := Do(c, s2, Head);
    var s4 := Do(c, s3, Image(1));
    RunOn(c, s, [], s, Image(0));
    RunOn(c, s, [] + [Image(0)], s1, Forward);
    RunOn(c, s, [] + [Image(0)] + [Forward], s2, Head);
    RunOn(c, s, [] + [Image(0)] + [Forward] + [Head], s3, Image(1));
    RunOn(c, s, [] + [Image(0)] + [Forward] + [Head] + [Image(1)], s4, Forward);
    acts, s' := [] + [Image(0)] + [Forward] + [Head] + [Image(1)] + [Forward], Do(c, s4, Forward);
  }

  ghost predicate AtMostOneMore(c: Config, s: State, acts: seq<Action>, s': State) {
    Run(c, s, acts, s') ==> |s'.recorded| <= |s.recorded| + 1
  }

  /** When a stop request is obeyed, that is, when at most the image at hand is still recorded:
      always, except when the driver is listening for the first of several images. */
  lemma StopIsObeyed(c: Config, s0: State, before: seq<Action>, s: State)
    requires c.Valid() && Init(c, s0) && Run(c, s0, before, s) && s.stop && InLoop(s.pc)
    ensures (forall acts, s' :: AtMostOneMore(c, s, acts, s'))
            <==> !(s.pc == Listening && s.recorded == [] && c.images >= 2)
  {
    InitKeeps(c, s0);
    RunKeeps(c, s0, before, s);
    if s.pc == Listening && s.recorded == [] {
      if c.images >= 2 {
        var acts, s' := ForgottenStop(c, s);
        assert !AtMostOneMore(c, s, acts, s');
      } else {
        forall acts, s'
          ensures AtMostOneMore(c, s, acts, s')
        {
          if Run(c, s, acts, s') { RunKeeps(c, s, acts, s'); }
        }
      }
    } else {
      forall acts, s'
        ensures AtMostOneMore(c, s, acts, s')
      {
        if Run(c, s, acts, s') { HeardStops(c, s, acts, s', 1); }
      }
    }
  }

  /** A stop request does not wait for an image: from anywhere in the loop the driver can go on to
      the confirmation by itself, with no other image than one that it has already taken up. */
  lemma StopEndsRecording(c: Config, s: State) returns (acts: seq<Action>, s': State)
    requires c.Valid() && |s.writers| == c.sockets && s.stop && InLoop(s.pc)
    ensures Run(c, s, acts, s') && s'.pc == Send(Confirming, 0)
    ensures s'.recorded == s.recorded + if s.pc.Half? then [s.pc.image] else []
  {
    acts, s' := [], s;
    if s.pc != Recording {
      var a := if s.pc.Half? then Forward else Nothing;
      RunOn(c, s, [], s, a);
      acts, s' := [] + [a], Do(c, s, a);
    }
    RunOn(c, s, acts, s', Head);
    acts, s' := acts + [Head], Do(c, s', Head);
  }

  /** A stop request while the files are being created is forgotten: the session goes on to
      record everything. */
  lemma StopInCreationForgotten(c: Config, s0: State, images: seq<nat>) returns (acts: seq<Action>, s: State)
    requires c.Valid() && c.images == |images| && Init(c, s0)
    requires forall i :: 0 <= i < c.sockets ==> s0.writers[i].alive
    ensures Saves(c, s0, acts, s, images) && acts != [] && acts[0] == Stop
  {
    RunOn(c, s0, [], s0, Stop);
    var first := [] + [Stop];
    var s1, a1 := OnePhase(c, s0, first, Do(c, s0, Stop), Creating, false);
    var s2, a2 := AllImages(c, s0, a1, s1, images);
    s, acts := Finish(c, s0, a2, s2, true);
  }

  // ---- Sessions that fail ----

  lemma DoomedStep(c: Config, s: State, a: Action)
    requires CanDo(c, s, a) && Doomed(s)
    ensures Doomed(Do(c, s, a))
  {
  }

  lemma {:induction false} DoomedStays(c: Config, s: State, acts: seq<Action>, s': State)
    requires Run(c, s, acts, s') && Doomed(s)
    ensures Doomed(s')
    decreases |acts|
  {
    if acts != [] {
      DoomedStep(c, s, acts[0]);
      DoomedStays(c, Do(c, s, acts[0]), acts[1..], s');
    }
  }

  lemma {:induction false} TimeoutDooms(c: Config, s: State, acts: seq<Action>, s': State)
    requires Inv(c, s) && Run(c, s, acts, s') && Timeout in acts
    ensures Doomed(s')
    decreases |acts|
  {
    if acts[0] == Timeout {
      KeepsTimeout(c, s);
      DoomedStays(c, Do(c, s, Timeout), acts[1..], s');
    } else {
      DoKeeps(c, s, acts[0]);
      TimeoutDooms(c, Do(c, s, acts[0]), acts[1..], s');
    }
  }

  /** In a session that is saved every answer has been waited for until it came. */
  lemma SavedHasNoTimeout(c: Config, s0: State, acts: seq<Action>, s: State)
    requires c.Valid() && Init(c, s0) && Run(c, s0, acts, s) && s.pc == FileSaved
    ensures Timeout !in acts
  {
    InitKeeps(c, s0);
    if Timeout in acts { TimeoutDooms(c, s0, acts, s); }
  }

  lemma {:induction false} TimeoutAll(c: Config, s0: State, acts: seq<Action>, s: State, k: nat)
    returns (s': State, acts': seq<Action>)
    requires c.Valid() && Run(c, s0, acts, s) && |s.writers| == c.sockets && k < c.sockets
    requires s.pc == Await(Creating, k, 0)
    ensures Run(c, s0, acts', s') && s'.pc == Error
    decreases c.sockets - k
  {
    RunOn(c, s0, acts, s, Timeout);
    s', acts' := Do(c, s, Timeout), acts + [Timeout];
    if k + 1 < c.sockets {
      s', acts' := TimeoutAll(c, s0, acts', s', k + 1);
    }
  }

  /** A writer that cannot create its file, or cannot even answer, ends the session with an error. */
  lemma FailedCreationIsError(c: Config, s0: State, o: Outcome) returns (acts: seq<Action>, s: State)
    requires c.Valid() && Init(c, s0) && o != Done
    requires forall i :: 0 <= i < c.sockets ==> s0.writers[i].alive
    ensures Run(c, s0, acts, s) && s.pc == Error
  {
    var s1, a1 := SendAll(c, s0, [], s0, Creating, 0, false);
    RunOn(c, s0, a1, s1, Work(0, o));
    var s2, a2 := Do(c, s1, Work(0, o)), a1 + [Work(0, o)];
    if o == CreateFails {
      RunOn(c, s0, a2, s2, Receive);
      s, acts := Do(c, s2, Receive), a2 + [Receive];
    } else {
      s, acts := TimeoutAll(c, s0, a2, s2, 0);
    }
  }

  lemma {:induction false} LosesMore(c: Config, s: State, acts: seq<Action>, more: seq<Action>, i: nat)
    requires LosesFile(c, s, acts, i) && acts <= more
    ensures LosesFile(c, s, more, i)
    decreases |acts|
  {
    if !(acts[0] == Restart(i) && s.writers[i].file.Some?) {
      LosesMore(c, Do(c, s, acts[0]), acts[1..], more[1..], i);
    }
  }

  /** A crash and a restart of a writer whose file is open. */
  lemma CrashAndRestart(c: Config, s0: State, acts: seq<Action>, s: State, i: nat) returns (s': State,
                        acts': seq<Action>)
    requires c.Valid() && Init(c, s0) && Run(c, s0, acts, s) && Quiet(c, s, true) && i < c.sockets
    ensures Run(c, s0, acts', s') && s'.pc == s.pc && s'.recorded == s.recorded && Quiet(c, s', false)
    ensures s'.stop == s.stop
    ensures LosesFile(c, s0, acts', i)
  {
    var m := Do(c, s, Crash(i));
    RunOn(c, s0, acts, s, Crash(i));
    s', acts' := Do(c, m, Restart(i)), acts + [Crash(i)] + [Restart(i)];
    RunOn(c, s0, acts + [Crash(i)], m, Restart(i));
    assert Waits(s.writers[i], [], [], true) && s'.writers[i].lost;
    LostWhen(c, s0, acts', s', i);
  }

  /** A restart goes unnoticed: there are sessions that end in `file_saved` although writer `i`
      has lost its file with all its images. */
  lemma RestartLosesImages(c: Config, s0: State, images: seq<nat>, i: nat)
    returns (acts: seq<Action>, s: State)
    requires c.Valid() && c.images >= |images| && Init(c, s0) && i < c.sockets
    requires forall j :: 0 <= j < c.sockets ==> s0.writers[j].alive
    ensures Saves(c, s0, acts, s, images) && LosesFile(c, s0, acts, i)
    ensures |s.writers| == c.sockets && s.writers[i].disk == []
  {
    var s1, a1 := OnePhase(c, s0, [], s0, Creating, false);
    var s2, a2 := AllImages(c, s0, a1, s1, images);
    var s3, a3 := CrashAndRestart(c, s0, a2, s2, i);
    s, acts := Finish(c, s0, a3, s3, false);
    LosesMore(c, s0, a3, acts, i);
    SavedMeansRecorded(c, s0, acts, s, i);
  }
}
