/**
  generic/761: the test thread writes a buffer with O_DIRECT while a second thread, woken
  once per block, clears it.  Two completions (`go`, `done`) and a `stop` flag tie the two
  threads together.

  The threads are interleaved down to single bytes: the refill, the clear and the copy made
  by the direct write each take one step per byte, and the write may copy its bytes in any
  order and more than once, as a retransmission does.
*/
module Handshake {

  const FILLED := 0xff
  const CLEARED := 0x00

  /** The block size, the file size, and what the freshly allocated buffer held. */
  datatype Config = Config(blocksize: nat, size: nat, garbage: seq<int>)

  ghost predicate ValidConfig(c: Config) {
    c.blocksize > 0 && |c.garbage| == c.blocksize
  }

  datatype WorkerPc = WaitGo | TestStop | Clear(k: nat) | SignalDone | SignalExit | Exited

  datatype MainPc =
    | Head
    | Refill(k: nat)
    | SignalGo
    | Writing(copied: set<nat>)
    | WaitDone(n: int)
    | SetStop(full: bool)
    | SignalStop(full: bool)
    | WaitExit(full: bool)
    | Closed(full: bool)

  /** `go` and `done` count the outstanding complete() calls; `clears` and `rounds` count the
      finished memsets of the worker and the blocks whose wait has returned. */
  datatype State = State(main: MainPc, worker: WorkerPc, go: nat, done: nat, stop: bool,
                         buf: seq<int>, file: map<nat, int>, filepos: nat,
                         clears: nat, rounds: nat)

  function Init(c: Config): State {
    State(Head, WaitGo, 0, 0, false, c.garbage, map[], 0, 0, 0)
  }

  // ---------- the worker ----------

  predicate WorkerReady(s: State) {
    !s.worker.Exited? && (s.worker.WaitGo? ==> s.go > 0)
  }

  function WorkerStep(c: Config, s: State): State
    requires WorkerReady(s)
  {
    match s.worker
    case WaitGo => s.(go := s.go - 1, worker := TestStop)
    case TestStop => s.(worker := if s.stop then SignalExit else Clear(0))
    case Clear(k) =>
      if k < |s.buf| then s.(buf := s.buf[k := CLEARED], worker := Clear(k + 1))
      else s.(clears := s.clears + 1, worker := SignalDone)
    case SignalDone => s.(done := s.done + 1, worker := WaitGo)
    case SignalExit => s.(done := s.done + 1, worker := Exited)
  }

  // ---------- the test thread ----------

  /** What the direct write does next: copy one byte to the server, or return. */
  datatype WriteMove = Copy(j: nat) | Return(n: int)

  function Upto(n: nat): (r: set<nat>)
    ensures forall j: nat :: j in r <==> j < n
    ensures |r| == n
  {
    if n == 0 then {} else Upto(n - 1) + {n - 1}
  }

  predicate MainReady(s: State) {
    !s.main.Closed? && (s.main.WaitDone? || s.main.WaitExit? ==> s.done > 0)
  }

  /** The write returns the full block only after every byte has been copied. */
  predicate Possible(c: Config, s: State, w: WriteMove) {
    s.main.Writing? ==>
      match w
      case Copy(j) => j < |s.buf|
      case Return(n) => n == c.blocksize ==> s.main.copied == Upto(c.blocksize)
  }

  function MainStep(c: Config, s: State, w: WriteMove): State
    requires MainReady(s) && Possible(c, s, w)
  {
    match s.main
    case Head => s.(main := if s.filepos < c.size then Refill(0) else SetStop(true))
    case Refill(k) =>
      if k < |s.buf| then s.(buf := s.buf[k := FILLED], main := Refill(k + 1))
      else s.(main := SignalGo)
    case SignalGo => s.(go := s.go + 1, main := Writing({}))
    case Writing(copied) =>
      (match w
       case Copy(j) => s.(file := s.file[s.filepos + j := s.buf[j]], main := Writing(copied + {j}))
       case Return(n) => s.(main := WaitDone(n)))
    case WaitDone(n) =>
      var t := s.(done := s.done - 1, rounds := s.rounds + 1);
      if n != c.blocksize then t.(main := SetStop(false))
      else t.(filepos := s.filepos + c.blocksize, main := Head)
    case SetStop(full) => s.(stop := true, main := SignalStop(full))
    case SignalStop(full) => s.(go := s.go + 1, main := WaitExit(full))
    case WaitExit(full) => s.(done := s.done - 1, main := Closed(full))
  }

  ghost predicate Next(c: Config, s: State, t: State) {
    || (WorkerReady(s) && t == WorkerStep(c, s))
    || (MainReady(s) && exists w :: Possible(c, s, w) && t == MainStep(c, s, w))
  }

  ghost predicate IsRun(c: Config, run: seq<State>) {
    && |run| > 0
    && run[0] == Init(c)
    && forall k :: 0 <= k < |run| - 1 ==> Next(c, run[k], run[k + 1])
  }

  // ---------- the invariant ----------

  /** The worker is parked and no signal is under way. */
  predicate Quiet(s: State) {
    s.worker.WaitGo? && s.go == 0 && s.done == 0 && s.clears == s.rounds
  }

  /** The worker holds, or is about to take, the one signal for the current block. */
  predicate Handed(s: State) {
    && !s.stop
    && match s.worker
       case WaitGo => s.go + s.done == 1 && s.clears == s.rounds + s.done
       case SignalDone => s.go == 0 && s.done == 0 && s.clears == s.rounds + 1
       case TestStop => s.go == 0 && s.done == 0 && s.clears == s.rounds
       case Clear(k) => s.go == 0 && s.done == 0 && s.clears == s.rounds && k <= |s.buf|
       case _ => false
  }

  /** The worker has taken, or is about to take, the signal to stop. */
  predicate Stopping(s: State) {
    && s.stop && s.clears == s.rounds
    && match s.worker
       case WaitGo => s.go == 1 && s.done == 0
       case TestStop => s.go == 0 && s.done == 0
       case SignalExit => s.go == 0 && s.done == 0
       case Exited => s.go == 0 && s.done == 1
       case _ => false
  }

  ghost predicate Protocol(c: Config, s: State) {
    match s.main
    case Head => Quiet(s) && !s.stop
    case Refill(k) => Quiet(s) && !s.stop && k <= |s.buf|
    case SignalGo => Quiet(s) && !s.stop
    case Writing(copied) => Handed(s) && copied <= Upto(c.blocksize)
    case WaitDone(n) => Handed(s)
    case SetStop(_) => Quiet(s) && !s.stop
    case SignalStop(_) => Quiet(s) && s.stop
    case WaitExit(_) => Stopping(s)
    case Closed(_) => s.worker.Exited? && s.go == 0 && s.done == 0 && s.clears == s.rounds
  }

  predicate Clean(b: int) {
    b == FILLED || b == CLEARED
  }

  /** How many bytes of the current block the worker has cleared. */
  function ClearedBytes(c: Config, s: State): nat {
    match s.worker
    case WaitGo => if s.done > 0 then c.blocksize else 0
    case Clear(k) => k
    case SignalDone => c.blocksize
    case _ => 0
  }

  /** The buffer byte by byte.  A refill starts over whatever was there; until the first one
      that is whatever the allocation contained. */
  ghost predicate BufferExact(c: Config, s: State) {
    && |s.buf| == c.blocksize
    && match s.main
       case Refill(k) => forall j :: 0 <= j < k && j < |s.buf| ==> s.buf[j] == FILLED
       case SignalGo => forall j :: 0 <= j < |s.buf| ==> s.buf[j] == FILLED
       case Writing(_) => PartlyCleared(s.buf, ClearedBytes(c, s))
       case WaitDone(_) => PartlyCleared(s.buf, ClearedBytes(c, s))
       case _ => s.rounds > 0 ==> PartlyCleared(s.buf, c.blocksize)
  }

  ghost predicate PartlyCleared(buf: seq<int>, cleared: nat) {
    forall j :: 0 <= j < |buf| ==> buf[j] == if j < cleared then CLEARED else FILLED
  }

  /** What has reached the server. */
  ghost predicate FileClean(c: Config, s: State) {
    && (forall o :: o in s.file ==> Clean(s.file[o]))
    && (forall o: nat :: o < s.filepos ==> o in s.file)
    && (s.main.Writing? ==> forall o: nat :: s.filepos <= o && o - s.filepos in s.main.copied ==> o in s.file)
    && (s.main.WaitDone? && s.main.n == c.blocksize ==>
          forall o: nat :: o < s.filepos + c.blocksize ==> o in s.file)
    && (s.main.SetStop? || s.main.SignalStop? || s.main.WaitExit? || s.main.Closed? ==>
          s.main.full ==> s.filepos >= c.size)
    && (s.main.Refill? || s.main.SignalGo? || s.main.Writing? || s.main.WaitDone? ==> s.filepos < c.size)
  }

  ghost predicate Inv(c: Config, s: State) {
    Protocol(c, s) && BufferExact(c, s) && FileClean(c, s)
  }

  lemma WorkerKeepsInv(c: Config, s: State)
    requires Inv(c, s) && WorkerReady(s)
    ensures Inv(c, WorkerStep(c, s))
  {
    assert Protocol(c, WorkerStep(c, s));
    assert BufferExact(c, WorkerStep(c, s));
  }

  lemma MainKeepsProtocol(c: Config, s: State, w: WriteMove)
    requires Inv(c, s) && MainReady(s) && Possible(c, s, w)
    ensures Protocol(c, MainStep(c, s, w))
  {
  }

  lemma MainKeepsBuffer(c: Config, s: State, w: WriteMove)
    requires Inv(c, s) && MainReady(s) && Possible(c, s, w)
    ensures BufferExact(c, MainStep(c, s, w))
  {
  }

  lemma CopyingKeepsFile(c: Config, s: State, w: WriteMove)
    requires Inv(c, s) && s.main.Writing? && Possible(c, s, w) && w.Copy?
    ensures MainReady(s) && FileClean(c, MainStep(c, s, w))
  {
  }

  lemma ReturningKeepsFile(c: Config, s: State, w: WriteMove)
    requires Inv(c, s) && s.main.Writing? && Possible(c, s, w) && w.Return?
    ensures MainReady(s) && FileClean(c, MainStep(c, s, w))
  {
  }

  lemma MainKeepsFile(c: Config, s: State, w: WriteMove)
    requires Inv(c, s) && MainReady(s) && Possible(c, s, w)
    ensures FileClean(c, MainStep(c, s, w))
  {
    if s.main.Writing? {
      if w.Copy? { CopyingKeepsFile(c, s, w); } else { ReturningKeepsFile(c, s, w); }
    }
  }

  // ---------- every interleaving is safe ----------

  lemma {:induction false} RunKeepsInv(c: Config, run: seq<State>)
    requires ValidConfig(c) && IsRun(c, run)
    ensures forall k :: 0 <= k < |run| ==> Inv(c, run[k])
  {
    if |run| > 1 {
      var shorter := run[..|run| - 1];
      RunKeepsInv(c, shorter);
      var s, t := run[|run| - 2], run[|run| - 1];
      assert s == shorter[|run| - 2] && Next(c, s, t);
      if WorkerReady(s) && t == WorkerStep(c, s) {
        WorkerKeepsInv(c, s);
      } else {
        var w :| Possible(c, s, w) && t == MainStep(c, s, w);
        MainKeepsProtocol(c, s, w);
        MainKeepsBuffer(c, s, w);
        MainKeepsFile(c, s, w);
      }
    }
  }

  /** While the test thread refills the buffer the worker is parked with no signal pending, so
      the clear never overlaps the refill; and the worker clears exactly once per block: the
      finished memsets equal the finished waits, plus one while the current one is unclaimed. */
  lemma ClearNeverOverlapsRefill(c: Config, run: seq<State>, k: nat)
    requires ValidConfig(c) && IsRun(c, run) && k < |run|
    ensures run[k].main.Refill? || run[k].main.SignalGo? ==> run[k].worker.WaitGo? && !WorkerReady(run[k])
    ensures run[k].worker.Clear? ==> run[k].main.Writing? || run[k].main.WaitDone?
    ensures run[k].rounds <= run[k].clears <= run[k].rounds + 1
    ensures run[k].main.Head? || run[k].main.SetStop? || run[k].main.Closed? ==> run[k].clears == run[k].rounds
  {
    RunKeepsInv(c, run);
  }

  /** Whatever bytes the write happened to see, the file holds only 0xff and 0x00; and when the
      test closes it after a run of full writes, every byte up to the intended size is there, so
      the read-back neither falls short nor finds another value. */
  lemma FileHoldsOnlyTheTwoPatterns(c: Config, run: seq<State>, k: nat)
    requires ValidConfig(c) && IsRun(c, run) && k < |run|
    ensures forall o :: o in run[k].file ==> Clean(run[k].file[o])
    ensures run[k].main.Closed? && run[k].main.full ==> forall o: nat :: o < c.size ==> o in run[k].file
  {
    RunKeepsInv(c, run);
  }

  /** The write was under way in step j and the buffer then held this value for this offset. */
  ghost predicate SeenAt(c: Config, run: seq<State>, j: nat, o: nat, value: int) {
    && j < |run| && run[j].main.Writing?
    && run[j].filepos <= o < run[j].filepos + |run[j].buf|
    && run[j].buf[o - run[j].filepos] == value
  }

  ghost predicate SeenBefore(c: Config, run: seq<State>, k: nat, o: nat, value: int) {
    exists j: nat :: j < k && SeenAt(c, run, j, o, value)
  }

  /** The file never holds anything but what the buffer held for that offset at some moment while
      its block was being written: clears show exactly as far as the write overlapped them. */
  lemma {:induction false} FileHoldsWhatWasSeen(c: Config, run: seq<State>, k: nat, o: nat)
    requires IsRun(c, run) && k < |run| && o in run[k].file
    ensures SeenBefore(c, run, k, o, run[k].file[o])
  {
    if k > 0 {
      var s, t := run[k - 1], run[k];
      assert Next(c, s, t);
      if o in s.file && s.file[o] == t.file[o] {
        FileHoldsWhatWasSeen(c, run, k - 1, o);
        var j: nat :| j < k - 1 && SeenAt(c, run, j, o, s.file[o]);
        assert SeenAt(c, run, j, o, t.file[o]);
      } else {
        FileChangesBySeeing(c, s, t, o);
        assert SeenAt(c, run, k - 1, o, t.file[o]);
      }
    }
  }

  lemma FileChangesBySeeing(c: Config, s: State, t: State, o: nat)
    requires Next(c, s, t) && o in t.file && !(o in s.file && s.file[o] == t.file[o])
    ensures s.main.Writing? && s.filepos <= o < s.filepos + |s.buf| && s.buf[o - s.filepos] == t.file[o]
  {
  }

  ghost predicate ShortBefore(c: Config, run: seq<State>, k: nat)
    requires k < |run|
  {
    exists j: nat :: j < k && FallsShort(c, run[j], run[j + 1])
  }

  /** The position counts the blocks, and the test goes on exactly as long as no write falls short. */
  ghost predicate Paced(c: Config, s: State, short: bool) {
    match s.main
    case WaitDone(n) => s.filepos == s.rounds * c.blocksize && (short <==> n != c.blocksize)
    case SetStop(full) => Ended(c, s, full, short)
    case SignalStop(full) => Ended(c, s, full, short)
    case WaitExit(full) => Ended(c, s, full, short)
    case Closed(full) => Ended(c, s, full, short)
    case _ => s.filepos == s.rounds * c.blocksize && !short
  }

  ghost predicate Ended(c: Config, s: State, full: bool, short: bool) {
    && (full <==> !short)
    && (full ==> s.filepos == s.rounds * c.blocksize && c.size <= s.filepos && (s.rounds > 0 ==> s.filepos < c.size + c.blocksize))
  }

  lemma NextPaced(c: Config, s: State, t: State, short: bool)
    requires ValidConfig(c) && Inv(c, s) && Next(c, s, t) && Paced(c, s, short) && NoneTooMany(c, s)
    ensures Paced(c, t, short || FallsShort(c, s, t))
  {
    if WorkerReady(s) && t == WorkerStep(c, s) {
      assert t.main == s.main && t.filepos == s.filepos && t.rounds == s.rounds;
    } else {
      var w :| Possible(c, s, w) && t == MainStep(c, s, w);
      if s.main.WaitDone? {
        OneMoreBlock(s.rounds, c.blocksize);
      } else {
        assert t.rounds == s.rounds && t.filepos == s.filepos;
      }
    }
  }

  lemma OneMoreBlock(rounds: nat, blocksize: nat)
    ensures (rounds + 1) * blocksize == rounds * blocksize + blocksize
  {
  }

  /** The blocks before this position but the last were needed. */
  ghost predicate NoneTooMany(c: Config, s: State) {
    s.main.Head? && s.rounds > 0 ==> s.filepos < c.size + c.blocksize
  }

  lemma {:induction false} RunIsPaced(c: Config, run: seq<State>, k: nat)
    requires ValidConfig(c) && IsRun(c, run) && k < |run|
    ensures Paced(c, run[k], ShortBefore(c, run, k)) && NoneTooMany(c, run[k])
  {
    RunKeepsInv(c, run);
    if k > 0 {
      RunIsPaced(c, run, k - 1);
      assert Next(c, run[k - 1], run[k]) && Inv(c, run[k - 1]);
      NextPaced(c, run[k - 1], run[k], ShortBefore(c, run, k - 1));
      HeadIsNotTooFar(c, run[k - 1], run[k]);
      ShortOneLater(c, run, k - 1);
    }
  }

  lemma HeadIsNotTooFar(c: Config, s: State, t: State)
    requires Inv(c, s) && Next(c, s, t) && NoneTooMany(c, s)
    ensures NoneTooMany(c, t)
  {
  }

  lemma ShortOneLater(c: Config, run: seq<State>, k: nat)
    requires k + 1 < |run|
    ensures ShortBefore(c, run, k + 1) <==> (ShortBefore(c, run, k) || FallsShort(c, run[k], run[k + 1]))
  {
  }

  /** The test ends early exactly if a write falls short, and otherwise after just as many blocks as
      cover the size. */
  lemma EveryBlockIsWritten(c: Config, run: seq<State>, k: nat)
    requires ValidConfig(c) && IsRun(c, run) && k < |run| && run[k].main.Closed?
    ensures run[k].main.full <==> !ShortBefore(c, run, k)
    ensures run[k].main.full ==>
      var n := run[k].rounds; c.size <= n * c.blocksize && (n > 0 ==> (n - 1) * c.blocksize < c.size)
  {
    RunIsPaced(c, run, k);
    var n := run[k].rounds;
    if n > 0 { OneMoreBlock(n - 1, c.blocksize); }
  }

  /** Once the last wait has returned the worker takes no further step, so it never touches the
      shared structure or buffer again. */
  lemma WorkerIsGoneAfterTheLastWait(c: Config, run: seq<State>, k: nat)
    requires ValidConfig(c) && IsRun(c, run) && k < |run| && run[k].main.Closed?
    ensures run[k].worker.Exited? && !WorkerReady(run[k])
    ensures forall t :: !Next(c, run[k], t)
  {
    RunKeepsInv(c, run);
  }

  // ---------- every interleaving ends ----------

  function BlocksLeft(c: Config, filepos: nat): nat
    requires c.blocksize > 0
    decreases c.size - filepos
  {
    if filepos >= c.size then 0 else 1 + BlocksLeft(c, filepos + c.blocksize)
  }

  function AfterBlocks(c: Config, left: nat): nat {
    if left == 0 then c.blocksize + 10 else AfterBlocks(c, left - 1) + 3 * c.blocksize + 12
  }

  function WorkerWork(c: Config, s: State): int {
    match s.worker
    case WaitGo => if s.go > 0 then c.blocksize + 5 else 0
    case TestStop => c.blocksize + 4
    case Clear(k) => c.blocksize - k + 3
    case SignalDone => 1
    case SignalExit => 1
    case Exited => 0
  }

  function MainWork(c: Config, s: State): int
    requires c.blocksize > 0
  {
    var left := BlocksLeft(c, s.filepos);
    var rest := if left == 0 then 0 else AfterBlocks(c, left - 1);
    match s.main
    case Head => AfterBlocks(c, left)
    case Refill(k) => rest + 3 * c.blocksize - k + 10
    case SignalGo => rest + 2 * c.blocksize + 9
    case Writing(copied) => rest + c.blocksize - |copied| + 2
    case WaitDone(_) => rest + 1
    case SetStop(_) => c.blocksize + 9
    case SignalStop(_) => c.blocksize + 8
    case WaitExit(_) => 1
    case Closed(_) => 0
  }

  function Work(c: Config, s: State): int
    requires c.blocksize > 0
  {
    WorkerWork(c, s) + MainWork(c, s)
  }

  /** The one step that makes no progress: the write copies a byte it has already copied. */
  ghost predicate CopiesAgain(c: Config, s: State, t: State) {
    s.main.Writing? && t.main == s.main && t.worker == s.worker
  }

  /** The direct write returns something other than a full block. */
  ghost predicate FallsShort(c: Config, s: State, t: State) {
    s.main.Writing? && t.main.WaitDone? && t.main.n != c.blocksize
  }

  lemma WorkIsNatural(c: Config, s: State)
    requires ValidConfig(c) && Inv(c, s)
    ensures Work(c, s) >= 0
    ensures s.main.Writing? ==> |s.main.copied| <= c.blocksize
  {
    if s.main.Writing? {
      var copied := s.main.copied;
      var all := Upto(c.blocksize);
      assert all == copied + (all - copied);
    }
  }

  lemma WorkerUsesWork(c: Config, s: State)
    requires ValidConfig(c) && Inv(c, s) && WorkerReady(s)
    ensures Work(c, WorkerStep(c, s)) < Work(c, s)
  {
    assert MainWork(c, WorkerStep(c, s)) == MainWork(c, s);
  }

  lemma WriteUsesWork(c: Config, s: State, w: WriteMove)
    requires ValidConfig(c) && Inv(c, s) && s.main.Writing? && Possible(c, s, w)
    ensures var t := MainStep(c, s, w);
      if CopiesAgain(c, s, t) then Work(c, t) == Work(c, s) else Work(c, t) < Work(c, s)
  {
    WorkIsNatural(c, s);
    var t := MainStep(c, s, w);
    assert WorkerWork(c, t) == WorkerWork(c, s);
    if w.Copy? {
      if w.j in s.main.copied {
        assert s.main.copied + {w.j} == s.main.copied;
      } else {
        assert |t.main.copied| == |s.main.copied| + 1;
        assert t.main != s.main;
      }
    }
  }

  lemma MainUsesWork(c: Config, s: State, w: WriteMove)
    requires ValidConfig(c) && Inv(c, s) && MainReady(s) && !s.main.Writing?
    ensures Work(c, MainStep(c, s, w)) < Work(c, s)
  {
    var t := MainStep(c, s, w);
    if s.main.Head? || s.main.Refill? {
      assert WorkerWork(c, t) == WorkerWork(c, s);
    } else if s.main.WaitDone? {
      assert WorkerWork(c, t) == WorkerWork(c, s);
    } else if s.main.SignalGo? || s.main.SignalStop? {
      assert WorkerWork(c, t) == c.blocksize + 5 && WorkerWork(c, s) == 0;
    }
  }

  lemma SomeStepUsesWork(c: Config, s: State)
    requires ValidConfig(c) && Inv(c, s) && !s.main.Closed?
    ensures exists t :: Next(c, s, t) && !FallsShort(c, s, t) && Work(c, t) < Work(c, s)
  {
    if WorkerReady(s) {
      WorkerUsesWork(c, s);
      assert Next(c, s, WorkerStep(c, s));
    } else if !s.main.Writing? {
      var w := Return(c.blocksize);
      MainUsesWork(c, s, w);
      assert Possible(c, s, w) && Next(c, s, MainStep(c, s, w));
    } else if s.main.copied == Upto(c.blocksize) {
      var w := Return(c.blocksize);
      WriteUsesWork(c, s, w);
      assert Possible(c, s, w) && Next(c, s, MainStep(c, s, w));
    } else {
      assert exists j :: j in Upto(c.blocksize) && j !in s.main.copied;
      var j :| j in Upto(c.blocksize) && j !in s.main.copied;
      var w := Copy(j);
      WriteUsesWork(c, s, w);
      assert j in MainStep(c, s, w).main.copied;
      assert Possible(c, s, w) && Next(c, s, MainStep(c, s, w));
    }
  }

  /** Every step of every run uses up work, except that a write may copy a byte again; and until
      the test has closed the file some step that uses up work is possible without any write
      failing.  So no reachable state is stuck, and a run goes on for ever only if a write does. */
  lemma EveryScheduleProgresses(c: Config, run: seq<State>, k: nat)
    requires ValidConfig(c) && IsRun(c, run) && k < |run|
    ensures Work(c, run[k]) >= 0
    ensures k + 1 < |run| && !CopiesAgain(c, run[k], run[k + 1]) ==> Work(c, run[k + 1]) < Work(c, run[k])
    ensures k + 1 < |run| ==> Work(c, run[k + 1]) <= Work(c, run[k])
    ensures !run[k].main.Closed? ==> 
      exists t :: Next(c, run[k], t) && !FallsShort(c, run[k], t) && Work(c, t) < Work(c, run[k])
  {
    RunKeepsInv(c, run);
    WorkIsNatural(c, run[k]);
    var s := run[k];
    if k + 1 < |run| {
      var t := run[k + 1];
      assert Next(c, s, t);
      if WorkerReady(s) && t == WorkerStep(c, s) {
        WorkerUsesWork(c, s);
      } else {
        var w :| Possible(c, s, w) && t == MainStep(c, s, w);
        if s.main.Writing? {
          WriteUsesWork(c, s, w);
        } else {
          MainUsesWork(c, s, w);
        }
      }
    }
    if !s.main.Closed? {
      SomeStepUsesWork(c, s);
    }
  }
}
