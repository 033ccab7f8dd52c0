/** The indexer: a scanner thread that queues paths, worker threads that take them,
    and the calls that start and stop them all, step by step. */
module Indexers {
  import opened Wrappers

  type Path = string

  datatype Conf = Conf(scan: bool, cleanup: bool, maxWorkers: nat)

  datatype IndexState = Idle | Scanning | Cleaning

  /** Where the scanner thread is. */
  datatype Scanner = NoScanner | Begin | Opening | Scan | Drain | CleanUp | Commit | Leave | Gone

  /** Where a worker thread is; it holds the number of a path. */
  datatype Worker = CheckState | CheckQueue | Popping | Holding(item: nat) | Sizing | Sized(size: nat) | Exited

  datatype Op = Start(conf: Conf) | Stop

  /** Where the thread is that calls start and stop, under their lock. */
  datatype Main =
    | Outside
    | AskState(op: Op) | AskQueue(op: Op)
    | HaltScanner(op: Op) | SetIdle(op: Op) | ClearQueue(op: Op) | JoinScanner(op: Op)
    | JoinWorkers(op: Op, end: nat, i: nat)
    | SpawnWorker(conf: Conf) | SetScanning(conf: Conf) | SpawnScanner(conf: Conf)

  /** What became of a path that left the queue. */
  datatype Fate = InHand(worker: nat) | Added | Dropped

  /** The shared state, with the history of the queue: all paths pushed, how many of
      them have left it, and what became of those.  When the list of workers
      changes while it is gone through, all is broken. */
  datatype State = State(
    index: IndexState, running: bool, queue: seq<Path>, scanner: Scanner, workers: seq<Worker>, main: Main, conf: Conf,
    broken: bool, pushed: seq<Path>, head: nat, fates: seq<Fate>)

  function Init(): State {
    State(Idle, false, [], NoScanner, [], Outside, Conf(false, false, 0), false, [], 0, [])
  }

  /** What happens next: a call, or a step of one thread.  The scanner may find a
      path, or not be able to open the root. */
  datatype Action = Call(op: Op) | Destroy | MainStep | ScannerStep(found: Option<Path>, opens: bool)
    | WorkerStep(w: nat)

  /** The state after an action; none if it cannot happen. */
  function Do(s: State, a: Action): Option<State> {
    if s.broken then None
    else match a
      case Call(op) => if s.main.Outside? then Some(s.(main := AskState(op))) else None
      case Destroy => if s.main.Outside? then Some(s.(main := HaltScanner(Stop))) else None
      case MainStep => MainDoes(s)
      case ScannerStep(found, opens) => ScannerDoes(s, found, opens)
      case WorkerStep(w) => if w < |s.workers| then WorkerDoes(s, w) else None
  }

  function MainDoes(s: State): Option<State> {
    match s.main
    case Outside => None
    case AskState(op) =>
      if !s.index.Idle? then Some(Running(s, op)) else Some(s.(main := AskQueue(op)))
    case AskQueue(op) =>
      if s.queue != [] then Some(Running(s, op))
      else Some(s.(main := if op.Start? then HaltScanner(op) else Outside))
    case HaltScanner(op) => Some(s.(running := false, main := SetIdle(op)))
    case SetIdle(op) => Some(s.(index := Idle, main := ClearQueue(op)))
    case ClearQueue(op) => Some(Cleared(s).(main := JoinScanner(op)))
    case JoinScanner(op) =>
      if s.scanner.NoScanner? || s.scanner.Gone?
        then Some(s.(scanner := NoScanner, main := JoinWorkers(op, |s.workers|, 0)))
      else None
    case JoinWorkers(op, end, i) =>
      if i < end && i < |s.workers| then
        if s.workers[i].Exited? then Some(s.(main := JoinWorkers(op, end, i + 1))) else None
      else Some(s.(workers := [], main := if op.Start? then SpawnWorker(op.conf) else Outside))
    case SpawnWorker(conf) =>
      Some(s.(conf := conf, workers := s.workers + [CheckState], main := SetScanning(conf)))
    case SetScanning(conf) => Some(s.(index := Scanning, main := SpawnScanner(conf)))
    case SpawnScanner(conf) => Some(s.(scanner := Begin, main := Outside))
  }

  /** A call that finds the indexer running: stop goes on, start returns. */
  function Running(s: State, op: Op): State { s.(main := if op.Stop? then HaltScanner(op) else Outside) }

  function Drops(n: nat): (fs: seq<Fate>)
    ensures |fs| == n && forall k :: 0 <= k < n ==> fs[k] == Dropped
  {
    seq(n, _ => Dropped)
  }

  /** The queue is emptied. */
  function Cleared(s: State): State {
    s.(queue := [], head := s.head + |s.queue|, fates := s.fates + Drops(|s.queue|))
  }

  function ScannerDoes(s: State, found: Option<Path>, opens: bool): Option<State> {
    match s.scanner
    case NoScanner => None
    case Gone => None
    case Begin =>
      if !s.conf.scan then Some(s.(scanner := Drain))
      else if s.running then Some(s.(scanner := Drain))
      else Some(s.(running := true, scanner := Opening))
    case Opening =>
      if opens then Some(s.(running := true, scanner := Scan)) else Some(s.(running := false, scanner := Leave))
    case Scan =>
      if found.Some? then Some(s.(queue := s.queue + [found.value], pushed := s.pushed + [found.value]))
      else Some(s.(running := false, scanner := Drain))
    case Drain =>
      if s.queue != [] then None
      else if s.conf.cleanup then Some(s.(index := Cleaning, scanner := CleanUp))
      else Some(s.(scanner := Commit))
    case CleanUp => Some(s.(scanner := Commit))
    case Commit => Some(s.(scanner := Leave))
    case Leave => Some(s.(index := Idle, scanner := Gone))
  }

  function Put(s: State, w: nat, worker: Worker): State
    requires w < |s.workers|
  {
    s.(workers := s.workers[w := worker])
  }

  function WorkerDoes(s: State, w: nat): Option<State>
    requires w < |s.workers|
  {
    match s.workers[w]
    case CheckState => Some(Put(s, w, if s.index.Scanning? then Popping else CheckQueue))
    case CheckQueue => Some(Put(s, w, if s.queue != [] then Popping else Exited))
    case Popping => Some(if s.queue == [] then Put(s, w, CheckState) else Popped(s, w))
    case Holding(item) =>
      if item < |s.fates| then Some(Put(s, w, Sizing).(fates := s.fates[item := Added])) else None
    case Sizing => Some(Put(s, w, Sized(|s.queue|)))
    case Sized(n) =>
      var s' := Put(s, w, CheckState);
      Some(if Spawns(s, n) then s'.(workers := s'.workers + [CheckState], broken := s.main.JoinWorkers?) else s')
    case Exited => None
  }

  /** Whether a worker that saw n paths in the queue starts another worker. */
  predicate Spawns(s: State, n: nat) { n > |s.workers| && |s.workers| < s.conf.maxWorkers }

  /** Worker w takes the first path of the queue. */
  function Popped(s: State, w: nat): State
    requires w < |s.workers| && s.queue != []
  {
    Put(s, w, Holding(s.head)).(queue := s.queue[1..], head := s.head + 1, fates := s.fates + [InHand(w)])
  }

  /** The state after some actions. */
  function Run(acts: seq<Action>): Option<State> {
    if acts == [] then Some(Init())
    else
      var before := Run(acts[..|acts| - 1]);
      if before.None? then None else Do(before.value, acts[|acts| - 1])
  }

  lemma Then(acts: seq<Action>, a: Action) returns (more: seq<Action>)
    requires Run(acts).Some?
    ensures more == acts + [a] && Run(more) == Do(Run(acts).value, a)
  {
    more := acts + [a];
    assert more[..|more| - 1] == acts;
  }

  lemma Before(acts: seq<Action>, a: Action)
    requires Run(acts + [a]).Some?
    ensures Run(acts).Some? && Run(acts + [a]) == Do(Run(acts).value, a)
  {
    assert (acts + [a])[..|acts|] == acts;
  }

  // Invariants

  predicate HandOk(ws: seq<Worker>, fs: seq<Fate>, w: nat)
    requires w < |ws|
  {
    ws[w].Holding? ==> ws[w].item < |fs| && fs[ws[w].item] == InHand(w)
  }

  predicate FateOk(ws: seq<Worker>, fs: seq<Fate>, k: nat)
    requires k < |fs|
  {
    fs[k].InHand? ==> fs[k].worker < |ws| && ws[fs[k].worker] == Holding(k)
  }

  /** A worker has a path in hand just when the path's fate says so. */
  predicate HandsMatch(ws: seq<Worker>, fs: seq<Fate>) {
    (forall w :: 0 <= w < |ws| ==> HandOk(ws, fs, w)) && forall k :: 0 <= k < |fs| ==> FateOk(ws, fs, k)
  }

  lemma HandsAfter(ws: seq<Worker>, fs: seq<Fate>, w: nat, x: Worker)
    requires HandsMatch(ws, fs) && w < |ws| && !x.Holding?
    ensures !ws[w].Holding? ==> HandsMatch(ws[w := x], fs)
    ensures ws[w].Holding? ==> ws[w].item < |fs| && HandsMatch(ws[w := x], fs[ws[w].item := Added])
  {
    var ws', fs' := ws[w := x], if ws[w].Holding? && ws[w].item < |fs| then fs[ws[w].item := Added] else fs;
    assert HandOk(ws, fs, w);
    forall v | 0 <= v < |ws'| ensures HandOk(ws', fs', v) { assert HandOk(ws, fs, v); }
    forall k | 0 <= k < |fs'| ensures FateOk(ws', fs', k) { assert FateOk(ws, fs, k); }
  }

  lemma HandsTake(ws: seq<Worker>, fs: seq<Fate>, w: nat)
    requires HandsMatch(ws, fs) && w < |ws| && !ws[w].Holding?
    ensures HandsMatch(ws[w := Holding(|fs|)], fs + [InHand(w)])
  {
    var ws', fs' := ws[w := Holding(|fs|)], fs + [InHand(w)];
    forall v | 0 <= v < |ws'| ensures HandOk(ws', fs', v) { assert HandOk(ws, fs, v); }
    forall k | 0 <= k < |fs'| ensures FateOk(ws', fs', k) { if k < |fs| { assert FateOk(ws, fs, k); } }
  }

  lemma HandsGrow(ws: seq<Worker>, fs: seq<Fate>, n: nat)
    requires HandsMatch(ws, fs)
    ensures HandsMatch(ws + [CheckState], fs) && HandsMatch(ws, fs + Drops(n))
  {
    var fs' := fs + Drops(n);
    forall v | 0 <= v < |ws| ensures HandOk(ws + [CheckState], fs, v) && HandOk(ws, fs', v) {
      assert HandOk(ws, fs, v);
    }
    forall k | 0 <= k < |fs| ensures FateOk(ws + [CheckState], fs, k) { assert FateOk(ws, fs, k); }
    forall k | 0 <= k < |fs'| ensures FateOk(ws, fs', k) { if k < |fs| { assert FateOk(ws, fs, k); } }
  }

  lemma HandsEmpty(ws: seq<Worker>, fs: seq<Fate>)
    requires HandsMatch(ws, fs) && forall w :: 0 <= w < |ws| ==> ws[w].Exited?
    ensures HandsMatch([], fs) && forall k :: 0 <= k < |fs| ==> !fs[k].InHand?
  {
    forall k | 0 <= k < |fs| ensures !fs[k].InHand? { assert FateOk(ws, fs, k); }
  }

  lemma HandsAre(ws: seq<Worker>, fs: seq<Fate>, w: nat, k: nat)
    requires HandsMatch(ws, fs) && w < |ws|
    ensures ws[w] == Holding(k) <==> k < |fs| && fs[k] == InHand(w)
  {
    assert HandOk(ws, fs, w);
    if k < |fs| { assert FateOk(ws, fs, k); }
  }

  lemma FateIs(ws: seq<Worker>, fs: seq<Fate>, k: nat)
    requires HandsMatch(ws, fs) && k < |fs|
    ensures FateOk(ws, fs, k)
  {}

  /** The queue holds the last of the pushed paths, in order. */
  predicate QueueIsTail(pushed: seq<Path>, head: nat, queue: seq<Path>) { head <= |pushed| && queue == pushed[head..] }

  lemma TailSteps(pushed: seq<Path>, head: nat, queue: seq<Path>, path: Path)
    requires QueueIsTail(pushed, head, queue)
    ensures QueueIsTail(pushed + [path], head, queue + [path])
    ensures QueueIsTail(pushed, head + |queue|, [])
    ensures queue != [] ==> QueueIsTail(pushed, head + 1, queue[1..])
    ensures |pushed| == head + |queue| && forall i :: 0 <= i < |queue| ==> queue[i] == pushed[head + i]
  {}

  predicate InStart(m: Main) { m.SpawnWorker? || m.SetScanning? || m.SpawnScanner? }

  predicate Ended(t: Scanner) { t.NoScanner? || t.Gone? }

  /** Who may have paths waiting, and what the state says about the scanner. */
  predicate ScannerRules(s: State) {
    && (!s.scanner.Scan? && !s.scanner.Drain? ==> s.queue == [])
    && (s.scanner.Gone? ==> s.index.Idle?)
    && (s.scanner.NoScanner? ==> s.index.Idle? || s.main.SpawnScanner?)
    && (s.main.Outside? || s.main.AskState? || s.main.AskQueue? ==> s.index.Idle? ==> Ended(s.scanner))
    && (s.main.AskQueue? ==> s.index.Idle?) && (s.main.SpawnScanner? ==> !s.index.Idle?)
    && (s.main.JoinWorkers? || InStart(s.main) ==> s.scanner.NoScanner?)
  }

  /** The workers joined so far have exited, and no other was added. */
  predicate JoinRules(s: State) {
    s.main.JoinWorkers? && !s.broken ==>
      s.main.i <= s.main.end == |s.workers| && forall j :: 0 <= j < s.main.i ==> s.workers[j].Exited?
  }

  predicate Inv(s: State) {
    && QueueIsTail(s.pushed, s.head, s.queue) && |s.fates| == s.head && HandsMatch(s.workers, s.fates)
    && ScannerRules(s) && JoinRules(s)
  }

  lemma MainKeeps(s: State)
    requires Inv(s) && MainDoes(s).Some? && !s.broken
    ensures Inv(MainDoes(s).value)
  {
    hide HandsMatch, QueueIsTail;
    TailSteps(s.pushed, s.head, s.queue, "");
    HandsGrow(s.workers, s.fates, |s.queue|);
    if s.main.JoinWorkers? && s.main.i == s.main.end { HandsEmpty(s.workers, s.fates); }
  }

  lemma ScannerKeeps(s: State, found: Option<Path>, opens: bool)
    requires Inv(s) && ScannerDoes(s, found, opens).Some?
    ensures Inv(ScannerDoes(s, found, opens).value)
  {
    hide HandsMatch, QueueIsTail;
    if found.Some? { TailSteps(s.pushed, s.head, s.queue, found.value); }
  }

  lemma WorkerKeeps(s: State, w: nat)
    requires Inv(s) && w < |s.workers| && WorkerDoes(s, w).Some? && !s.broken
    ensures Inv(WorkerDoes(s, w).value)
  {
    hide HandsMatch, QueueIsTail, Spawns;
    TailSteps(s.pushed, s.head, s.queue, "");
    if s.workers[w].Popping? && s.queue != [] {
      HandsTake(s.workers, s.fates, w);
    } else {
      var x := WorkerDoes(s, w).value.workers[w];
      HandsAfter(s.workers, s.fates, w, x);
      if s.workers[w].Sized? { HandsGrow(s.workers[w := x], s.fates, 0); }
    }
  }

  lemma {:induction false} RunsKeep(acts: seq<Action>)
    requires Run(acts).Some?
    ensures Inv(Run(acts).value)
  {
    if acts != [] {
      var before, a := acts[..|acts| - 1], acts[|acts| - 1];
      RunsKeep(before);
      DoKeeps(Run(before).value, a);
    }
  }

  lemma DoKeeps(s: State, a: Action)
    requires Inv(s) && Do(s, a).Some?
    ensures Inv(Do(s, a).value)
  {
    hide HandsMatch, QueueIsTail, MainDoes, ScannerDoes, WorkerDoes;
    match a
    case MainStep => MainKeeps(s);
    case ScannerStep(found, opens) => ScannerKeeps(s, found, opens);
    case WorkerStep(w) => WorkerKeeps(s, w);
    case _ =>
  }

  /** What the configuration allows: how many workers there are, and whether the
      maildir is scanned and the store cleaned up. */
  predicate ObeysConf(s: State) {
    && (|s.workers| <= 1 || |s.workers| <= s.conf.maxWorkers)
    && (s.scanner.Opening? || s.scanner.Scan? ==> s.conf.scan)
    && (s.scanner.CleanUp? || s.index.Cleaning? ==> s.conf.cleanup)
    && (s.main.SpawnWorker? ==> s.workers == [])
    && (s.running ==> s.scanner.Opening? || s.scanner.Scan?)
  }

  lemma MainObeysConf(s: State)
    requires ScannerRules(s) && ObeysConf(s) && MainDoes(s).Some?
    ensures ObeysConf(MainDoes(s).value)
  {}

  lemma ScannerObeysConf(s: State, found: Option<Path>, opens: bool)
    requires ObeysConf(s) && ScannerDoes(s, found, opens).Some?
    ensures ObeysConf(ScannerDoes(s, found, opens).value)
  {}

  lemma WorkerObeysConf(s: State, w: nat)
    requires ObeysConf(s) && w < |s.workers| && WorkerDoes(s, w).Some?
    ensures ObeysConf(WorkerDoes(s, w).value)
  {}

  lemma StepObeysConf(s: State, a: Action)
    requires Inv(s) && ObeysConf(s) && Do(s, a).Some?
    ensures ObeysConf(Do(s, a).value)
  {
    hide MainDoes, ScannerDoes, WorkerDoes, HandsMatch, QueueIsTail, JoinRules, ScannerRules;
    match a
    case MainStep => MainObeysConf(s);
    case ScannerStep(found, opens) => ScannerObeysConf(s, found, opens);
    case WorkerStep(w) => WorkerObeysConf(s, w);
    case _ =>
  }

  /** There is one worker, or no more than the configuration allows; and only what it
      asks for is done. */
  lemma {:induction false} RunsObeyConf(acts: seq<Action>)
    requires Run(acts).Some?
    ensures ObeysConf(Run(acts).value)
  {
    hide Do, Inv, ObeysConf;
    if acts == [] {
      assert ObeysConf(Init()) by { NothingToObey(); }
    } else {
      var before := acts[..|acts| - 1];
      RunsKeep(before);
      RunsObeyConf(before);
      StepObeysConf(Run(before).value, acts[|acts| - 1]);
    }
  }

  lemma NothingToObey()
    ensures ObeysConf(Init())
  {}

  /** What the configuration asks for is done: a scanner thread that begins is never
      put off by a scan that is still on, and cleans up when no path waits. */
  lemma AskedIsDone(acts: seq<Action>, found: Option<Path>, opens: bool)
    requires Run(acts).Some? && !Run(acts).value.broken
    ensures var s, s' := Run(acts).value, Run(acts + [ScannerStep(found, opens)]);
            && (s.scanner.Begin? ==> s'.Some? && s'.value.scanner == if s.conf.scan then Opening else Drain)
            && (s.scanner.Drain? && s.queue == [] ==>
                  s'.Some? && s'.value.scanner == if s.conf.cleanup then CleanUp else Commit)
  {
    hide Run, Inv;
    RunsObeyConf(acts);
    var more := Then(acts, ScannerStep(found, opens));
  }

  // What holds in every run

  /** Each pushed path is in exactly one place: still in the queue, at its turn; in
      the hands of one worker; or out, added or dropped. */
  lemma EveryPathIsSomewhere(acts: seq<Action>, k: nat)
    requires Run(acts).Some? && k < |Run(acts).value.pushed|
    ensures var s := Run(acts).value;
            && (if k >= s.head then k - s.head < |s.queue| && s.queue[k - s.head] == s.pushed[k] else k < |s.fates|)
            && (forall w :: 0 <= w < |s.workers| ==>
                  (s.workers[w] == Holding(k) <==> k < |s.fates| && s.fates[k] == InHand(w)))
            && (k < |s.fates| && s.fates[k].InHand? ==> s.fates[k].worker < |s.workers|)
            && |s.pushed| == |s.fates| + |s.queue| && |s.fates| == s.head
  {
    hide Run, Do, ScannerRules, JoinRules, QueueIsTail, HandsMatch;
    RunsKeep(acts);
    var s := Run(acts).value;
    TailSteps(s.pushed, s.head, s.queue, "");
    forall w | 0 <= w < |s.workers| ensures s.workers[w] == Holding(k) <==> k < |s.fates| && s.fates[k] == InHand(w) {
      HandsAre(s.workers, s.fates, w, k);
    }
    if k < |s.fates| { FateIs(s.workers, s.fates, k); }
  }

  /** A fate as it may go on. */
  predicate MovesOn(f: Fate, f': Fate) { f' == f || (f.InHand? && f'.Added?) }

  /** Paths leave the queue in the order they were pushed, one at a time unless all
      are dropped; a path that was taken stays with its worker until it is added,
      and what was added or dropped stays so. */
  lemma PathsOnlyMoveOn(acts: seq<Action>, a: Action)
    requires Run(acts + [a]).Some?
    ensures Run(acts).Some?
    ensures var s, s' := Run(acts).value, Run(acts + [a]).value;
            && s.pushed <= s'.pushed && s.head <= s'.head == |s'.fates| && s.head == |s.fates|
            && (forall k :: 0 <= k < s.head ==> MovesOn(s.fates[k], s'.fates[k]))
            && (if s'.head == s.head + 1 && s'.fates[s.head].InHand? then s'.queue == s.queue[1..]
                else forall k :: s.head <= k < s'.head ==> s'.fates[k].Dropped?)
  {
    Before(acts, a);
    RunsKeep(acts);
    var s := Run(acts).value;
    DoKeeps(s, a);
    StepMovesOn(s, a);
  }

  lemma StepMovesOn(s: State, a: Action)
    requires Inv(s) && Do(s, a).Some? && Inv(Do(s, a).value)
    ensures var s' := Do(s, a).value;
            && s.pushed <= s'.pushed && s.head <= s'.head == |s'.fates| && s.head == |s.fates|
            && (forall k :: 0 <= k < s.head ==> MovesOn(s.fates[k], s'.fates[k]))
            && (if s'.head == s.head + 1 && s'.fates[s.head].InHand? then s'.queue == s.queue[1..]
                else forall k :: s.head <= k < s'.head ==> s'.fates[k].Dropped?)
  {
    hide ScannerRules, JoinRules, HandsMatch, QueueIsTail;
    if a.WorkerStep? && s.workers[a.w].Holding? {
      assert HandOk(s.workers, s.fates, a.w) by { HandIs(s.workers, s.fates, a.w); }
    }
  }

  lemma HandIs(ws: seq<Worker>, fs: seq<Fate>, w: nat)
    requires HandsMatch(ws, fs) && w < |ws|
    ensures HandOk(ws, fs, w)
  {}

  /** What a step from s to s' does not do: paths are dropped by a start or stop that
      empties the queue only; a worker ends only when it saw no scan go on and finds
      no path waiting; the scanner goes on to clean up or commit only when no path
      waits; a start that finds the indexer busy changes nothing. */
  predicate Careful(s: State, a: Action, s': State) {
    && (s'.head > s.head + 1 ==> a.MainStep? && s.main.ClearQueue?)
    && (forall w :: 0 <= w < |s.workers| && w < |s'.workers| ==> CarefulWorker(s, a, s', w))
    && (s'.scanner.CleanUp? || s'.scanner.Commit? ==> s.scanner.Drain? ==> s.queue == [])
    && (a.MainStep? && s.main.AskState? && s.main.op.Start? && !s.index.Idle? ==> s' == s.(main := Outside))
  }

  predicate CarefulWorker(s: State, a: Action, s': State, w: nat)
    requires w < |s.workers| && w < |s'.workers|
  {
    s.workers[w] == s'.workers[w] ||
    (a == WorkerStep(w) && (s'.workers[w].Exited? ==> s.workers[w].CheckQueue? && s.queue == []) &&
                           (s'.workers[w].CheckQueue? ==> s.workers[w].CheckState? && !s.index.Scanning?))
  }

  lemma StepsAreCareful(acts: seq<Action>, a: Action)
    requires Run(acts + [a]).Some?
    ensures Run(acts).Some? && Careful(Run(acts).value, a, Run(acts + [a]).value)
  {
    hide Do, Careful, Inv;
    Before(acts, a);
    RunsKeep(acts);
    StepIsCareful(Run(acts).value, a);
  }

  lemma StepIsCareful(s: State, a: Action)
    requires Inv(s) && Do(s, a).Some?
    ensures Careful(s, a, Do(s, a).value)
  {
    hide HandsMatch, QueueIsTail, JoinRules, ScannerRules, Spawns, WorkerDoes, CarefulWorker;
    if a.WorkerStep? { WorkerMoves(s, a.w); }
    var s' := Do(s, a).value;
    forall w | 0 <= w < |s.workers| && w < |s'.workers| ensures CarefulWorker(s, a, s', w) {
      if a == WorkerStep(w) { WorkerIsCareful(s, w); } else { KeptIsCareful(s, a, s', w); }
    }
  }

  lemma KeptIsCareful(s: State, a: Action, s': State, w: nat)
    requires w < |s.workers| && w < |s'.workers| && s.workers[w] == s'.workers[w]
    ensures CarefulWorker(s, a, s', w)
  {}

  lemma WorkerIsCareful(s: State, w: nat)
    requires w < |s.workers| && WorkerDoes(s, w).Some?
    ensures w < |WorkerDoes(s, w).value.workers| && CarefulWorker(s, WorkerStep(w), WorkerDoes(s, w).value, w)
  {
    hide Spawns;
  }

  lemma WorkerMoves(s: State, v: nat)
    requires v < |s.workers| && WorkerDoes(s, v).Some?
    ensures var s' := WorkerDoes(s, v).value;
            && s'.head <= s.head + 1 && s'.scanner == s.scanner
            && forall w :: 0 <= w < |s.workers| && w < |s'.workers| && w != v ==> s.workers[w] == s'.workers[w]
  {
    hide Spawns;
  }

  /** A worker looks at the queue once after each path it took, and starts another
      worker just when it saw more paths than there are workers and more are allowed. */
  lemma WorkersAreAdded(acts: seq<Action>, w: nat)
    requires Run(acts).Some? && Run(acts + [WorkerStep(w)]).Some?
    ensures var s, s' := Run(acts).value, Run(acts + [WorkerStep(w)]).value;
            && w < |s.workers| <= |s'.workers|
            && (s.workers[w].Holding? ==> s'.workers[w].Sizing?)
            && (s.workers[w].Sizing? ==> s'.workers[w] == Sized(|s.queue|))
            && s'.workers[|s.workers|..] ==
               (match s.workers[w]
                case Sized(n) => if n > |s.workers| && |s.workers| < s.conf.maxWorkers then [CheckState] else []
                case _ => [])
  {
    hide Run;
    Before(acts, WorkerStep(w));
  }

  /** Whenever the full stop returns, the state is idle, the queue is empty and no
      thread remains. */
  lemma StopLeavesNothing(acts: seq<Action>)
    requires Run(acts + [MainStep]).Some? && Run(acts).Some?
    requires Run(acts).value.main.JoinWorkers? && !Run(acts + [MainStep]).value.main.JoinWorkers?
    ensures var s, s' := Run(acts).value, Run(acts + [MainStep]).value;
            && s'.index.Idle? && s'.queue == [] && s'.scanner.NoScanner? && s'.workers == [] && !s'.broken
            && (forall w <- s.workers :: w.Exited?)
            && |s'.fates| == |s'.pushed| && forall k :: 0 <= k < |s'.pushed| ==> !s'.fates[k].InHand?
  {
    Before(acts, MainStep);
    RunsKeep(acts);
    var s := Run(acts).value;
    DoKeeps(s, MainStep);
    JoinedAll(s);
  }

  lemma JoinedAll(s: State)
    requires Inv(s) && s.main.JoinWorkers? && Do(s, MainStep).Some? && !Do(s, MainStep).value.main.JoinWorkers?
    ensures var s' := Do(s, MainStep).value;
            && s'.index.Idle? && s'.queue == [] && s'.scanner.NoScanner? && s'.workers == [] && !s'.broken
            && (forall w <- s.workers :: w.Exited?)
            && |s'.fates| == |s'.pushed| && forall k :: 0 <= k < |s'.pushed| ==> !s'.fates[k].InHand?
  {
    hide HandsMatch, QueueIsTail;
    HandsEmpty(s.workers, s.fates);
    TailSteps(s.pushed, s.head, s.queue, "");
  }

  /** A stop that finds nothing running returns at once: idle and with an empty
      queue, but the threads of the last run are left as they are. */
  lemma EarlyStopLeavesThreads(acts: seq<Action>)
    requires Run(acts).Some? && Run(acts).value.main == AskQueue(Stop) && !Run(acts).value.broken
    ensures var s := Run(acts).value;
            && s.index.Idle? && s.queue == [] && Ended(s.scanner)
            && Run(acts + [MainStep]) == Some(s.(main := Outside))
  {
    RunsKeep(acts);
    var more := Then(acts, MainStep);
  }

  predicate NoThreads(s: State) { s.scanner.NoScanner? && s.workers == [] }

  /** A start has got as far as its first worker since all workers were joined last. */
  predicate Launched(acts: seq<Action>)
    requires Run(acts).Some?
  {
    if acts == [] then false
    else
      var init, a := acts[..|acts| - 1], acts[|acts| - 1];
      var s, s' := Run(init).value, Run(acts).value;
      if a.MainStep? && s.main.SpawnWorker? then true
      else if a.MainStep? && s.main.JoinWorkers? && !s'.main.JoinWorkers? then false
      else Launched(init)
  }

  /** Without workers there is no scanner either. */
  predicate WorkersFirst(s: State) {
    (s.workers == [] ==> s.scanner.NoScanner?) && (s.main.SetScanning? || s.main.SpawnScanner? ==> s.workers != [])
  }

  lemma StepLaunches(s: State, a: Action)
    requires Inv(s) && WorkersFirst(s) && Do(s, a).Some?
    ensures var s' := Do(s, a).value;
            && WorkersFirst(s')
            && (s'.workers != [] <==> if a.MainStep? && s.main.SpawnWorker? then true
                                      else if a.MainStep? && s.main.JoinWorkers? && !s'.main.JoinWorkers? then false
                                      else s.workers != [])
  {
    hide HandsMatch, QueueIsTail, JoinRules, Spawns, Inv, ScannerRules;
    if s.main.JoinWorkers? { JoinerIsAlone(s); }
  }

  lemma JoinerIsAlone(s: State)
    requires Inv(s) && s.main.JoinWorkers?
    ensures s.scanner.NoScanner?
  {
    hide HandsMatch, QueueIsTail, JoinRules;
  }

  lemma {:induction false} LaunchedHasWorkers(acts: seq<Action>)
    requires Run(acts).Some?
    ensures WorkersFirst(Run(acts).value) && (Launched(acts) <==> Run(acts).value.workers != [])
  {
    hide Do, WorkersFirst, Inv;
    if acts == [] {
      assert WorkersFirst(Init()) by { NothingLaunched(); }
    } else {
      var init := acts[..|acts| - 1];
      LaunchedHasWorkers(init);
      RunsKeep(init);
      StepLaunches(Run(init).value, acts[|acts| - 1]);
    }
  }

  lemma NothingLaunched()
    ensures WorkersFirst(Init())
  {}

  /** A stop that returns has left no thread if and only if it was a full one, or no
      start has got going since the workers were joined last. */
  lemma StopLeavesNoThreadsIff(acts: seq<Action>)
    requires Run(acts).Some? && Run(acts + [MainStep]).Some?
    requires Run(acts).value.main == AskQueue(Stop) ||
             (Run(acts).value.main.JoinWorkers? && Run(acts).value.main.op.Stop?)
    requires Run(acts + [MainStep]).value.main.Outside?
    ensures NoThreads(Run(acts + [MainStep]).value) <==> Run(acts).value.main.JoinWorkers? || !Launched(acts)
  {
    hide Launched, Inv, Run;
    Before(acts, MainStep);
    LaunchedHasWorkers(acts);
    RunsKeep(acts);
    if Run(acts).value.main.JoinWorkers? { JoinedAll(Run(acts).value); }
  }

  // The list of workers may change while stop goes through it

  /** A worker has seen enough paths to start another one, but did not do so yet. */
  predicate Stale(s: State, w: nat) { w < |s.workers| && s.workers[w].Sized? && Spawns(s, s.workers[w].size) }

  /** While workers are joined, only a worker with a stale size can break the list
      of workers, and it can do so at once; without one, none comes up any more. */
  lemma OnlyStaleWorkersBreak(acts: seq<Action>, a: Action)
    requires Run(acts).Some? && Run(acts).value.main.JoinWorkers? && Run(acts + [a]).Some?
    ensures var s, s' := Run(acts).value, Run(acts + [a]).value;
            && (s'.broken <==> a.WorkerStep? && Stale(s, a.w))
            && ((forall w :: !Stale(s, w)) && s'.main.JoinWorkers? ==> forall w :: !Stale(s', w))
  {
    Before(acts, a);
    RunsKeep(acts);
    StaleSteps(Run(acts).value, a);
  }

  lemma StaleSteps(s: State, a: Action)
    requires Inv(s) && s.main.JoinWorkers? && Do(s, a).Some?
    ensures var s' := Do(s, a).value;
            && (s'.broken <==> a.WorkerStep? && Stale(s, a.w))
            && ((forall w :: !Stale(s, w)) && s'.main.JoinWorkers? ==> forall w :: !Stale(s', w))
  {
    hide HandsMatch, QueueIsTail;
    var s' := Do(s, a).value;
    if (forall w :: !Stale(s, w)) && s'.main.JoinWorkers? {
      forall w ensures !Stale(s', w) { assert !Stale(s, w); }
    }
  }

  const QUIET := ScannerStep(None, true)

  /** A run that has started: the scanner is at work, and one worker. */
  function Fresh(conf: Conf): State {
    State(Scanning, true, [], Scan, [CheckState], Outside, conf, false, [], 0, [])
  }

  lemma StartCalled(conf: Conf) returns (acts: seq<Action>)
    ensures Run(acts).Some? && Run(acts).value == Init().(main := JoinWorkers(Start(conf), 0, 0))
  {
    hide Run, ScannerDoes, WorkerDoes;
    NoActions();
    acts := Then([], Call(Start(conf)));
    acts := Then(acts, MainStep);
    acts := Then(acts, MainStep);
    acts := Then(acts, MainStep);
    acts := Then(acts, MainStep);
    assert Run(acts).Some? && Run(acts).value == Init().(main := ClearQueue(Start(conf)));
    acts := Then(acts, MainStep);
    acts := Then(acts, MainStep);
  }

  lemma Started(conf: Conf) returns (acts: seq<Action>)
    requires conf.scan
    ensures Run(acts).Some? && Run(acts).value == Fresh(conf)
  {
    hide Run, WorkerDoes;
    acts := StartCalled(conf);
    acts := Then(acts, MainStep);
    acts := Then(acts, MainStep);
    acts := Then(acts, MainStep);
    acts := Then(acts, MainStep);
    assert Run(acts).Some? && Run(acts).value == Fresh(conf).(running := false, scanner := Begin);
    acts := Then(acts, QUIET);
    acts := Then(acts, QUIET);
  }

  lemma NoActions()
    ensures Run([]) == Some(Init())
  {}

  /** Three paths are found; the worker adds the first, and sees the two others. */
  lemma Worked(conf: Conf) returns (acts: seq<Action>)
    requires conf.scan
    ensures Run(acts).Some? && Run(acts).value ==
            Fresh(conf).(queue := ["b", "c"], pushed := ["a", "b", "c"], head := 1, fates := [Added],
                                           workers := [Sized(2)])
  {
    hide Run, MainDoes;
    acts := Started(conf);
    acts := Then(acts, ScannerStep(Some("a"), true));
    acts := Then(acts, ScannerStep(Some("b"), true));
    acts := Then(acts, ScannerStep(Some("c"), true));
    assert Run(acts).Some? && Run(acts).value == Fresh(conf).(queue := ["a", "b", "c"], pushed := ["a", "b", "c"]);
    acts := Then(acts, WorkerStep(0));
    acts := Then(acts, WorkerStep(0));
    acts := Then(acts, WorkerStep(0));
    acts := Then(acts, WorkerStep(0));
  }

  /** A stop has begun, and the scanner is gone. */
  lemma Halted(conf: Conf) returns (acts: seq<Action>)
    requires conf.scan && !conf.cleanup
    ensures Run(acts).Some?
    ensures Run(acts).value ==
            Fresh(conf).(pushed := ["a", "b", "c"], head := 3, fates := [Added, Dropped, Dropped], running := false,
                         index := Idle, scanner := Gone, workers := [Sized(2)], main := JoinScanner(Stop))
  {
    hide Run, WorkerDoes;
    acts := Worked(conf);
    acts := Then(acts, Call(Stop));
    acts := Then(acts, MainStep);
    acts := Then(acts, MainStep);
    acts := Then(acts, MainStep);
    acts := Then(acts, MainStep);
    assert Run(acts).Some? && Run(acts).value.queue == [] && Run(acts).value.main == JoinScanner(Stop);
    acts := Then(acts, QUIET);
    acts := Then(acts, QUIET);
    acts := Then(acts, QUIET);
    acts := Then(acts, QUIET);
  }

  /** For example: with two paths left in the queue a worker is about to start
      another one, when a stop clears the queue and begins to join. */
  lemma StaleWorkerBreaksStop() returns (acts: seq<Action>)
    ensures Run(acts).Some? && Run(acts).value.broken
  {
    hide Run;
    acts := Halted(Conf(true, false, 2));
    acts := Then(acts, MainStep);
    acts := Then(acts, WorkerStep(0));
  }

  /** The one path that was found is in the hands of the worker. */
  lemma TookOne(conf: Conf) returns (acts: seq<Action>)
    requires conf.scan
    ensures Run(acts).Some?
    ensures Run(acts).value == Fresh(conf).(pushed := ["a"], head := 1, fates := [InHand(0)], workers := [Holding(0)])
  {
    hide Run, MainDoes;
    acts := Started(conf);
    acts := Then(acts, ScannerStep(Some("a"), true));
    acts := Then(acts, WorkerStep(0));
    acts := Then(acts, WorkerStep(0));
  }

  /** For example: the scan is over and all paths are taken, so a stop returns at
      once, while a worker still holds a path that it will add later. */
  lemma EarlyStopExample() returns (acts: seq<Action>, after: seq<Action>)
    ensures Run(acts).Some? && Run(acts).value.main == AskQueue(Stop) && after == acts + [MainStep]
    ensures Run(after).Some? && Run(after).value.main.Outside? && Run(after).value.workers == [Holding(0)]
  {
    hide Run, WorkerDoes;
    acts := TookOne(Conf(true, false, 2));
    acts := Then(acts, QUIET);
    acts := Then(acts, QUIET);
    acts := Then(acts, QUIET);
    acts := Then(acts, QUIET);
    acts := Then(acts, Call(Stop));
    acts := Then(acts, MainStep);
    after := Then(acts, MainStep);
  }
}
