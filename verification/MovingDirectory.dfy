/**
  generic/707: one thread renames a directory through a chain of parents while
  another thread keeps creating files in it by absolute path.

  The two threads are interleaved at every shared access.  A creation is two steps:
  resolving the path, which can miss the directory because it has moved on, and
  creating the file in the directory that was found.
*/
module MovingDirectory {
  import opened Options

  const OK := 0
  const ENOENT := 2
  const EEXIST := 17
  const ENOTEMPTY := 39
  const ESTALE := 116

  // ---------- the kernel calls the test makes ----------

  /** The moving directory's possible parents: slots[n] is the inode of ROOT/dir<n>/dir,
      if there is one; content[ino] holds the numbers of the files in that directory. */
  datatype Tree = Tree(slots: seq<Option<nat>>, content: map<nat, set<nat>>, nextIno: nat)
  {
    function Lookup(n: nat): Option<nat> {
      if n < |slots| then slots[n] else None
    }

    function Files(ino: nat): set<nat> {
      if ino in content then content[ino] else {}
    }

    function Mkdir(n: nat): (Tree, int) {
      if n >= |slots| then (this, ENOENT)
      else if slots[n].Some? then (this, EEXIST)
      else (Tree(slots[n := Some(nextIno)], content[nextIno := {}], nextIno + 1), OK)
    }

    /** A directory may be renamed over an empty one, never over one that holds files. */
    function Rename(from: nat, to: nat): (Tree, int) {
      if Lookup(from).None? || to >= |slots| then (this, ENOENT)
      else if slots[to].Some? && Files(slots[to].value) != {} then (this, ENOTEMPTY)
      else (this.(slots := slots[from := None][to := slots[from]]), OK)
    }

    function Rmdir(n: nat): (Tree, int) {
      if Lookup(n).None? then (this, ENOENT)
      else if Files(slots[n].value) != {} then (this, ENOTEMPTY)
      else (this.(slots := slots[n := None]), OK)
    }

    function CreateIn(ino: nat, i: nat): Tree {
      this.(content := content[ino := Files(ino) + {i}])
    }

    function Unlink(n: nat, i: nat): Tree {
      if Lookup(n).None? then this
      else this.(content := content[slots[n].value := Files(slots[n].value) - {i}])
    }

    predicate Exists(n: nat, i: nat) {
      Lookup(n).Some? && i in Files(slots[n].value)
    }
  }

  // ---------- the two threads ----------

  /** moves, files and loops are the test's three constants; faults holds every error the
      kernel's create may return once the path has been resolved. */
  datatype Config = Config(moves: nat, files: nat, loops: nat, faults: set<int>)

  datatype MoverPc =
    | Begin(loop: nat)
    | MakeDir(loop: nat)
    | Spawn(loop: nat)
    | Move(loop: nat, i: nat)
    | Publish(loop: nat, i: nat)
    | Join(loop: nat)
    | Check(loop: nat, i: nat, j: nat)
    | Sweep(loop: nat, i: nat)
    | RemoveDir(loop: nat)
    | Finished
    | Failed

  datatype CreatorPc =
    | Idle
    | ReadWhere(i: nat)
    | Resolve(i: nat, at: nat)
    | CreateAt(i: nat, ino: nat)
    | Done

  /** `errSeen` and `missing` record the two expectations that do not abort the test. */
  datatype State = State(tree: Tree, where: nat, mover: MoverPc, creator: CreatorPc,
                         created: nat, err: int, errSeen: bool, missing: bool)

  function Init(c: Config): State {
    State(Tree(seq(c.moves + 1, _ => None), map[], 0), 0, Begin(0), Idle, 0, OK, false, false)
  }

  predicate MoverReady(s: State) {
    !s.mover.Finished? && !s.mover.Failed? && (s.mover.Join? ==> s.creator.Done?)
  }

  function MoverStep(c: Config, s: State): State
    requires MoverReady(s)
  {
    match s.mover
    case Begin(l) =>
      if l < c.loops then s.(where := 0, mover := MakeDir(l)) else s.(mover := Finished)
    case MakeDir(l) =>
      var (t, e) := s.tree.Mkdir(0);
      s.(tree := t, mover := if e == OK then Spawn(l) else Failed)
    case Spawn(l) =>
      s.(created := 0, err := OK,
         creator := if c.files > 0 then ReadWhere(0) else Done,
         mover := if c.moves > 0 then Move(l, 0) else Join(l))
    case Move(l, i) =>
      var (t, e) := s.tree.Rename(i, i + 1);
      s.(tree := t, mover := if e == OK then Publish(l, i) else Failed)
    case Publish(l, i) =>
      s.(where := i + 1, mover := if i + 1 < c.moves then Move(l, i + 1) else Join(l))
    case Join(l) =>
      s.(errSeen := s.errSeen || s.err != OK, mover := Check(l, 0, 0))
    case Check(l, i, j) =>
      if i < c.files && j < s.created then
        s.(mover := Check(l, i + 1, if s.tree.Exists(c.moves, i) then j + 1 else j))
      else
        s.(missing := s.missing || j != s.created, mover := Sweep(l, 0))
    case Sweep(l, i) =>
      if i < c.files then s.(tree := s.tree.Unlink(c.moves, i), mover := Sweep(l, i + 1))
      else s.(mover := RemoveDir(l))
    case RemoveDir(l) =>
      var (t, e) := s.tree.Rmdir(c.moves);
      s.(tree := t, mover := if e == OK then Begin(l + 1) else Failed)
  }

  predicate CreatorReady(s: State) {
    !s.creator.Idle? && !s.creator.Done?
  }

  function Advance(c: Config, i: nat): CreatorPc {
    if i + 1 < c.files then ReadWhere(i + 1) else Done
  }

  /** What one failed or successful creation does to the creator's counters. */
  function Tally(s: State, e: int): State {
    if e == OK then s.(created := s.created + 1)
    else if e != ENOENT && e != ESTALE then s.(err := e)
    else s
  }

  /** `e` is the kernel's answer to the create, used only by that step. */
  function CreatorStep(c: Config, s: State, e: int): State
    requires CreatorReady(s)
  {
    match s.creator
    case ReadWhere(i) => s.(creator := Resolve(i, s.where))
    case Resolve(i, at) =>
      var found := s.tree.Lookup(at);
      if found.Some? then s.(creator := CreateAt(i, found.value))
      else Tally(s, ENOENT).(creator := Advance(c, i))
    case CreateAt(i, ino) =>
      var t := if e == OK then s.tree.CreateIn(ino, i) else s.tree;
      Tally(s, e).(tree := t, creator := Advance(c, i))
  }

  predicate Answer(c: Config, e: int) {
    e == OK || e in c.faults
  }

  ghost predicate Next(c: Config, s: State, t: State) {
    || (MoverReady(s) && t == MoverStep(c, s))
    || (CreatorReady(s) && exists e :: Answer(c, e) && t == CreatorStep(c, s, e))
  }

  ghost predicate IsRun(c: Config, run: seq<State>) {
    && |run| > 0
    && run[0] == Init(c)
    && forall k :: 0 <= k < |run| - 1 ==> Next(c, run[k], run[k + 1])
  }

  // ---------- the invariant ----------

  /** Where the moving directory is, as a function of the mover's position in its program. */
  function Home(c: Config, pc: MoverPc): Option<nat> {
    match pc
    case Begin(_) => None
    case MakeDir(_) => None
    case Spawn(_) => Some(0)
    case Move(_, i) => Some(i)
    case Publish(_, i) => Some(i + 1)
    case Finished => None
    case Failed => None
    case _ => Some(c.moves)
  }

  function Attempted(c: Config, pc: CreatorPc): nat {
    match pc
    case ReadWhere(i) => i
    case Resolve(i, _) => i
    case CreateAt(i, _) => i
    case _ => c.files
  }

  /** The directory is in the slot `home` and in no other; in no slot at all for None. */
  ghost predicate HeldAt(slots: seq<Option<nat>>, home: Option<nat>) {
    && (home.Some? ==> home.value < |slots|)
    && forall n :: 0 <= n < |slots| ==> (slots[n].Some? <==> home == Some(n))
  }

  ghost predicate OneHome(c: Config, s: State) {
    |s.tree.slots| == c.moves + 1 && HeldAt(s.tree.slots, Home(c, s.mover))
  }

  predicate PcInRange(c: Config, s: State) {
    match s.mover
    case Begin(l) => l <= c.loops && !CreatorReady(s)
    case MakeDir(l) => l < c.loops && !CreatorReady(s) && s.where == 0
    case Spawn(l) => l < c.loops && !CreatorReady(s) && s.where == 0
    case Move(l, i) => l < c.loops && i < c.moves && s.where == i && !s.creator.Idle?
    case Publish(l, i) => l < c.loops && i < c.moves && s.where == i && !s.creator.Idle?
    case Join(l) => l < c.loops && s.where == c.moves && !s.creator.Idle?
    case Check(l, i, j) => l < c.loops && s.where == c.moves && s.creator.Done? && i <= c.files
    case Sweep(l, i) => l < c.loops && s.where == c.moves && s.creator.Done? && i <= c.files
    case RemoveDir(l) => l < c.loops && s.where == c.moves && s.creator.Done?
    case Finished => !CreatorReady(s)
    case Failed => false
  }

  ghost function Below(names: set<nat>, i: nat): set<nat> {
    set k | k in names && k < i
  }

  /** The files of the moving directory, phase by phase. */
  ghost predicate FilesMatch(c: Config, s: State)
    requires OneHome(c, s) && Home(c, s.mover).Some?
  {
    var ino := s.tree.slots[Home(c, s.mover).value].value;
    var names := s.tree.Files(ino);
    && (s.creator.CreateAt? ==> s.creator.ino == ino)
    && match s.mover
       case Spawn(_) => names == {}
       case Check(_, i, j) =>
         && Tallied(c, s, names)
         && j == |Below(names, i)|
       case Sweep(_, i) => forall k :: k in names ==> i <= k < c.files
       case RemoveDir(_) => names == {}
       case _ => Tallied(c, s, names)
  }

  ghost predicate Tallied(c: Config, s: State, names: set<nat>) {
    && |names| == s.created
    && forall k :: k in names ==> k < Attempted(c, s.creator)
  }

  /** An error other than the two that a moving directory explains. */
  predicate HardFault(c: Config, e: int) {
    e in c.faults && e != OK && e != ENOENT && e != ESTALE
  }

  /** The creator's counters, and the expectations recorded so far. */
  ghost predicate Booked(c: Config, s: State) {
    && (CreatorReady(s) ==> s.creator.i < c.files)
    && (s.creator.Resolve? ==> s.creator.at <= s.where)
    && (s.err != OK ==> HardFault(c, s.err))
    && (s.errSeen ==> exists e :: HardFault(c, e))
    && !s.missing
  }

  ghost predicate Inv(c: Config, s: State) {
    && PcInRange(c, s)
    && OneHome(c, s)
    && (Home(c, s.mover).Some? ==> FilesMatch(c, s))
    && Booked(c, s)
  }

  lemma BelowNext(names: set<nat>, i: nat)
    ensures |Below(names, i + 1)| == |Below(names, i)| + (if i in names then 1 else 0)
  {
    if i in names {
      assert Below(names, i + 1) == Below(names, i) + {i};
    } else {
      assert Below(names, i + 1) == Below(names, i);
    }
  }

  lemma BelowAll(names: set<nat>, i: nat)
    ensures |Below(names, i)| <= |names|
    ensures (forall k :: k in names ==> k < i) ==> Below(names, i) == names
  {
    assert Below(names, i) <= names;
    assert names == Below(names, i) + (names - Below(names, i));
  }

  lemma RenameMovesHome(t: Tree, i: nat)
    requires HeldAt(t.slots, Some(i)) && i + 1 < |t.slots|
    ensures t.Rename(i, i + 1).1 == OK
    ensures HeldAt(t.Rename(i, i + 1).0.slots, Some(i + 1))
  {
  }

  lemma StartingKeepsHome(c: Config, s: State)
    requires PcInRange(c, s) && OneHome(c, s) && MoverReady(s)
    requires s.mover.Begin? || s.mover.MakeDir? || s.mover.Spawn?
    ensures OneHome(c, MoverStep(c, s)) && !MoverStep(c, s).mover.Failed?
  {
  }

  lemma EndingKeepsHome(c: Config, s: State)
    requires Inv(c, s) && MoverReady(s)
    requires s.mover.Join? || s.mover.Check? || s.mover.Sweep? || s.mover.RemoveDir?
    ensures OneHome(c, MoverStep(c, s)) && !MoverStep(c, s).mover.Failed?
  {
    assert s.tree.Lookup(c.moves).Some?;
  }

  lemma MoverKeepsHome(c: Config, s: State)
    requires Inv(c, s) && MoverReady(s)
    ensures OneHome(c, MoverStep(c, s)) && !MoverStep(c, s).mover.Failed?
  {
    if s.mover.Begin? || s.mover.MakeDir? || s.mover.Spawn? {
      StartingKeepsHome(c, s);
    } else if s.mover.Move? {
      RenameMovesHome(s.tree, s.mover.i);
    } else if !s.mover.Publish? {
      EndingKeepsHome(c, s);
    }
  }

  lemma MoverKeepsPc(c: Config, s: State)
    requires Inv(c, s) && MoverReady(s)
    ensures PcInRange(c, MoverStep(c, s))
  {
    MoverKeepsHome(c, s);
  }

  lemma MovingKeepsFiles(c: Config, s: State)
    requires Inv(c, s) && MoverReady(s)
    requires s.mover.MakeDir? || s.mover.Spawn? || s.mover.Move? || s.mover.Publish?
    ensures OneHome(c, MoverStep(c, s)) && Home(c, MoverStep(c, s).mover).Some?
    ensures FilesMatch(c, MoverStep(c, s))
  {
    MoverKeepsHome(c, s);
    var t := MoverStep(c, s);
    if !s.mover.MakeDir? {
      var ino := t.tree.slots[Home(c, t.mover).value].value;
      assert s.tree.slots[Home(c, s.mover).value].value == ino;
      assert t.tree.Files(ino) == s.tree.Files(ino);
    }
  }

  lemma CheckingKeepsFiles(c: Config, s: State)
    requires Inv(c, s) && MoverReady(s)
    requires s.mover.Join? || s.mover.Check?
    ensures OneHome(c, MoverStep(c, s))
    ensures FilesMatch(c, MoverStep(c, s)) && !MoverStep(c, s).missing
  {
    MoverKeepsHome(c, s);
    var names := s.tree.Files(s.tree.slots[c.moves].value);
    if s.mover.Join? {
      assert Below(names, 0) == {};
    } else {
      BelowNext(names, s.mover.i);
      BelowAll(names, s.mover.i);
    }
  }

  lemma SweepingKeepsFiles(c: Config, s: State)
    requires Inv(c, s) && MoverReady(s) && s.mover.Sweep?
    ensures OneHome(c, MoverStep(c, s))
    ensures FilesMatch(c, MoverStep(c, s))
  {
    MoverKeepsHome(c, s);
    var t := MoverStep(c, s);
    var ino := s.tree.slots[c.moves].value;
    if s.mover.i < c.files {
      assert t.tree.Files(ino) == s.tree.Files(ino) - {s.mover.i};
    } else {
      assert t.tree.Files(ino) == s.tree.Files(ino);
    }
  }

  lemma MoverKeepsFiles(c: Config, s: State)
    requires Inv(c, s) && MoverReady(s) && Home(c, MoverStep(c, s).mover).Some?
    ensures OneHome(c, MoverStep(c, s)) && FilesMatch(c, MoverStep(c, s))
  {
    MoverKeepsHome(c, s);
    match s.mover
    case Begin(_) =>
    case Join(_) => CheckingKeepsFiles(c, s);
    case Check(_, _, _) => CheckingKeepsFiles(c, s);
    case Sweep(_, _) => SweepingKeepsFiles(c, s);
    case RemoveDir(_) =>
    case _ => MovingKeepsFiles(c, s);
  }

  lemma MoverKeepsBooked(c: Config, s: State)
    requires Inv(c, s) && MoverReady(s)
    ensures Booked(c, MoverStep(c, s))
  {
    if s.mover.Join? || s.mover.Check? {
      CheckingKeepsFiles(c, s);
    }
  }

  lemma MoverKeepsInv(c: Config, s: State)
    requires Inv(c, s) && MoverReady(s)
    ensures Inv(c, MoverStep(c, s))
  {
    MoverKeepsPc(c, s);
    MoverKeepsHome(c, s);
    MoverKeepsBooked(c, s);
    var t := MoverStep(c, s);
    assert OneHome(c, t);
    if Home(c, t.mover).Some? {
      MoverKeepsFiles(c, s);
    }
  }

  lemma CreatorKeepsHome(c: Config, s: State, e: int)
    requires Inv(c, s) && CreatorReady(s) && Answer(c, e)
    ensures OneHome(c, CreatorStep(c, s, e)) && PcInRange(c, CreatorStep(c, s, e))
  {
  }

  lemma CreatorKeepsFiles(c: Config, s: State, e: int)
    requires Inv(c, s) && CreatorReady(s) && Answer(c, e)
    requires OneHome(c, CreatorStep(c, s, e))
    ensures Home(c, s.mover).Some? && FilesMatch(c, CreatorStep(c, s, e))
  {
    var t := CreatorStep(c, s, e);
    var ino := s.tree.slots[Home(c, s.mover).value].value;
    var names := s.tree.Files(ino);
    if s.creator.CreateAt? && e == OK {
      assert t.tree.Files(ino) == names + {s.creator.i};
    } else {
      assert t.tree.Files(ino) == names;
    }
  }

  lemma CreatorKeepsInv(c: Config, s: State, e: int)
    requires Inv(c, s) && CreatorReady(s) && Answer(c, e)
    ensures Inv(c, CreatorStep(c, s, e))
  {
    CreatorKeepsHome(c, s, e);
    CreatorKeepsFiles(c, s, e);
  }

  // ---------- every interleaving is safe ----------

  lemma {:induction false} RunKeepsInv(c: Config, run: seq<State>)
    requires IsRun(c, run)
    ensures forall k :: 0 <= k < |run| ==> Inv(c, run[k])
  {
    if |run| > 1 {
      var shorter := run[..|run| - 1];
      RunKeepsInv(c, shorter);
      var s, t := run[|run| - 2], run[|run| - 1];
      assert s == shorter[|run| - 2] && Next(c, s, t);
      if MoverReady(s) && t == MoverStep(c, s) {
        MoverKeepsInv(c, s);
      } else {
        var e :| Answer(c, e) && t == CreatorStep(c, s, e);
        CreatorKeepsInv(c, s, e);
      }
    }
  }

  predicate BetweenLoops(pc: MoverPc) {
    pc.Begin? || pc.MakeDir? || pc.Finished?
  }

  /** In every reachable state at most one parent holds the directory, and exactly one does
      while a loop is running; the shared counter never leads it and lags by at most one;
      no mkdir, rename or rmdir of the mover has failed. */
  lemma OneParentAndNoFailedMove(c: Config, run: seq<State>, k: nat)
    requires IsRun(c, run) && k < |run|
    ensures !run[k].mover.Failed?
    ensures BetweenLoops(run[k].mover) <==> forall n :: 0 <= n <= c.moves ==> run[k].tree.Lookup(n).None?
    ensures forall m, n :: 0 <= m < n <= c.moves ==> run[k].tree.Lookup(m).None? || run[k].tree.Lookup(n).None?
    ensures forall n: nat :: run[k].tree.Lookup(n).Some? ==> run[k].where <= n <= run[k].where + 1
  {
    RunKeepsInv(c, run);
    var s := run[k];
    var home := Home(c, s.mover);
    if home.Some? {
      assert s.tree.Lookup(home.value).Some?;
    }
  }

  /** Once the creator has been joined, the directory's last home holds exactly the files the
      creator counted, so the test's count of survivors always matches, and the only errors it
      can report are the ones a create really returned. */
  lemma EveryCreatedFileSurvives(c: Config, run: seq<State>, k: nat)
    requires IsRun(c, run) && k < |run|
    ensures !run[k].missing
    ensures run[k].errSeen ==> exists e :: HardFault(c, e)
    ensures run[k].mover.Join? && run[k].creator.Done? ==>
      && run[k].tree.Lookup(c.moves).Some?
      && |run[k].tree.Files(run[k].tree.Lookup(c.moves).value)| == run[k].created
  {
    RunKeepsInv(c, run);
  }

  // ---------- what became of every file ----------

  /** Who takes a step, and what the kernel answers if that is a create. */
  datatype Act = MoverActs | CreatorActs(e: int)

  ghost predicate Takes(c: Config, s: State, a: Act, t: State) {
    match a
    case MoverActs => MoverReady(s) && t == MoverStep(c, s)
    case CreatorActs(e) => CreatorReady(s) && Answer(c, e) && t == CreatorStep(c, s, e)
  }

  /** A run together with its schedule. */
  ghost predicate IsScheduled(c: Config, run: seq<State>, acts: seq<Act>) {
    && |run| == |acts| + 1
    && run[0] == Init(c)
    && forall k :: 0 <= k < |acts| ==> Takes(c, run[k], acts[k], run[k + 1])
  }

  lemma ScheduledIsRun(c: Config, run: seq<State>, acts: seq<Act>)
    requires IsScheduled(c, run, acts)
    ensures IsRun(c, run)
  {
    forall k | 0 <= k < |run| - 1 ensures Next(c, run[k], run[k + 1]) {
      assert Takes(c, run[k], acts[k], run[k + 1]);
    }
  }

  /** Every run has a schedule. */
  lemma {:induction false} RunIsScheduled(c: Config, run: seq<State>)
    requires IsRun(c, run)
    ensures exists acts :: IsScheduled(c, run, acts)
  {
    if |run| == 1 {
      assert IsScheduled(c, run, []);
    } else {
      var n := |run| - 1;
      RunIsScheduled(c, run[..n]);
      var acts :| IsScheduled(c, run[..n], acts);
      assert Next(c, run[n - 1], run[n]);
      var a: Act;
      if MoverReady(run[n - 1]) && run[n] == MoverStep(c, run[n - 1]) {
        a := MoverActs;
      } else {
        var e :| Answer(c, e) && run[n] == CreatorStep(c, run[n - 1], e);
        a := CreatorActs(e);
      }
      forall k | 0 <= k < n ensures Takes(c, run[k], (acts + [a])[k], run[k + 1]) {
        if k < n - 1 {
          assert Takes(c, run[..n][k], acts[k], run[..n][k + 1]);
        }
      }
      assert IsScheduled(c, run, acts + [a]);
    }
  }

  datatype Fate = Made | Missed | Refused(e: int)

  /** The path led nowhere any more, or the kernel answered a create. */
  function FateOf(e: int): Fate {
    if e == OK then Made else if e == ENOENT || e == ESTALE then Missed else Refused(e)
  }

  /** One step's part in it: a create that ends adds a fate, a new loop starts over. */
  function Fated(fates: seq<Fate>, s: State, a: Act): seq<Fate> {
    match a
    case MoverActs => if s.mover.Spawn? then [] else fates
    case CreatorActs(e) =>
      if s.creator.Resolve? && s.tree.Lookup(s.creator.at).None? then fates + [Missed]
      else if s.creator.CreateAt? then fates + [FateOf(e)]
      else fates
  }

  /** What became of the current loop's files, in order, read off the steps taken. */
  function Fates(run: seq<State>, acts: seq<Act>, k: nat): seq<Fate>
    requires k <= |acts| < |run|
  {
    if k == 0 then [] else Fated(Fates(run, acts, k - 1), run[k - 1], acts[k - 1])
  }

  function Makes(fates: seq<Fate>): nat {
    if fates == [] then 0
    else Makes(fates[..|fates| - 1]) + if fates[|fates| - 1].Made? then 1 else 0
  }

  function Misses(fates: seq<Fate>): nat {
    if fates == [] then 0
    else Misses(fates[..|fates| - 1]) + if fates[|fates| - 1].Missed? then 1 else 0
  }

  function Refusals(fates: seq<Fate>): nat {
    if fates == [] then 0
    else Refusals(fates[..|fates| - 1]) + if fates[|fates| - 1].Refused? then 1 else 0
  }

  lemma {:induction false} EveryFateCounts(fates: seq<Fate>)
    ensures Makes(fates) + Misses(fates) + Refusals(fates) == |fates|
    ensures (forall i :: 0 <= i < |fates| ==> fates[i].Made?) ==> Makes(fates) == |fates|
    ensures Refusals(fates) > 0 <==> exists i :: 0 <= i < |fates| && fates[i].Refused?
  {
    if fates != [] {
      EveryFateCounts(fates[..|fates| - 1]);
    }
  }

  /** The latest error that a moving directory does not explain. */
  function LastError(fates: seq<Fate>): int {
    if fates == [] then OK
    else if fates[|fates| - 1].Refused? then fates[|fates| - 1].e
    else LastError(fates[..|fates| - 1])
  }

  ghost predicate Lived(fates: seq<Fate>, names: set<nat>) {
    forall i: nat :: i in names <==> i < |fates| && fates[i].Made?
  }

  predicate Looping(pc: MoverPc) {
    pc.Move? || pc.Publish? || pc.Join? || pc.Check?
  }

  /** The fates explain the creator's counters and the directory's files. */
  ghost predicate Explains(c: Config, fates: seq<Fate>, created: nat, err: int, names: set<nat>) {
    && created == Makes(fates)
    && err == LastError(fates)
    && Lived(fates, names)
    && (forall i :: 0 <= i < |fates| && fates[i].Refused? ==> fates[i].e != OK)
    && (c.moves == 0 && c.faults == {} ==> forall i :: 0 <= i < |fates| ==> fates[i].Made?)
  }

  ghost function HomeFiles(c: Config, s: State): set<nat>
    requires Inv(c, s) && Looping(s.mover)
  {
    s.tree.Files(s.tree.slots[Home(c, s.mover).value].value)
  }

  /** The state agrees with the fates, while a loop's files are there. */
  ghost predicate Accounted(c: Config, s: State, fates: seq<Fate>)
    requires Inv(c, s)
  {
    Looping(s.mover) ==>
      |fates| == Attempted(c, s.creator) && Explains(c, fates, s.created, s.err, HomeFiles(c, s))
  }

  lemma OneMoreFate(c: Config, fates: seq<Fate>, f: Fate, created: nat, err: int, names: set<nat>)
    requires Explains(c, fates, created, err, names)
    requires c.moves == 0 && c.faults == {} ==> f.Made?
    requires f.Refused? ==> f.e != OK
    ensures Explains(c, fates + [f], if f.Made? then created + 1 else created, if f.Refused? then f.e else err,
                     if f.Made? then names + {|fates|} else names)
  {
    assert (fates + [f])[..|fates|] == fates;
  }

  lemma SpawningAccounts(c: Config, s: State, fates: seq<Fate>)
    requires Inv(c, s) && MoverReady(s) && s.mover.Spawn? && Inv(c, MoverStep(c, s))
    ensures Accounted(c, MoverStep(c, s), [])
  {
  }

  lemma MoverKeepsAccounts(c: Config, s: State, fates: seq<Fate>)
    requires Inv(c, s) && MoverReady(s) && Inv(c, MoverStep(c, s)) && Accounted(c, s, fates)
    ensures Accounted(c, MoverStep(c, s), Fated(fates, s, MoverActs))
  {
    if s.mover.Spawn? {
      SpawningAccounts(c, s, fates);
    } else if Looping(MoverStep(c, s).mover) {
      MovingKeepsHomeFiles(c, s);
    }
  }

  lemma MovingKeepsHomeFiles(c: Config, s: State)
    requires Inv(c, s) && MoverReady(s) && !s.mover.Spawn?
    requires Inv(c, MoverStep(c, s)) && Looping(MoverStep(c, s).mover)
    ensures Looping(s.mover) && HomeFiles(c, MoverStep(c, s)) == HomeFiles(c, s)
    ensures var t := MoverStep(c, s); t.creator == s.creator && t.created == s.created && t.err == s.err
  {
    var t := MoverStep(c, s);
    var ino := t.tree.slots[Home(c, t.mover).value].value;
    assert s.tree.slots[Home(c, s.mover).value].value == ino;
    assert t.tree.Files(ino) == s.tree.Files(ino);
  }

  lemma CreatorKeepsAccounts(c: Config, s: State, e: int, fates: seq<Fate>)
    requires Inv(c, s) && CreatorReady(s) && Answer(c, e) && Inv(c, CreatorStep(c, s, e)) && Accounted(c, s, fates)
    ensures Accounted(c, CreatorStep(c, s, e), Fated(fates, s, CreatorActs(e)))
  {
    CreatorStaysHome(c, s, e);
    if s.creator.Resolve? && s.tree.Lookup(s.creator.at).None? {
      if c.moves == 0 { NothingIsMissedAtRest(c, s); }
      OneMoreFate(c, fates, Missed, s.created, s.err, HomeFiles(c, s));
    } else if s.creator.CreateAt? {
      OneMoreFate(c, fates, FateOf(e), s.created, s.err, HomeFiles(c, s));
    }
  }

  lemma CreatorStaysHome(c: Config, s: State, e: int)
    requires Inv(c, s) && CreatorReady(s) && Answer(c, e) && Inv(c, CreatorStep(c, s, e))
    ensures Looping(s.mover) && CreatorStep(c, s, e).mover == s.mover
    ensures HomeFiles(c, CreatorStep(c, s, e)) ==
            HomeFiles(c, s) + if s.creator.CreateAt? && e == OK then {s.creator.i} else {}
  {
    CreatorLoops(s, c);
    var t := CreatorStep(c, s, e);
    var ino := s.tree.slots[Home(c, s.mover).value].value;
    if s.creator.CreateAt? && e == OK {
      assert t.tree.Files(ino) == s.tree.Files(ino) + {s.creator.i};
    } else {
      assert t.tree == s.tree;
    }
  }

  lemma CreatorLoops(s: State, c: Config)
    requires Inv(c, s) && CreatorReady(s)
    ensures Looping(s.mover)
  {
  }

  lemma NothingIsMissedAtRest(c: Config, s: State)
    requires Inv(c, s) && s.creator.Resolve? && c.moves == 0
    ensures s.tree.Lookup(s.creator.at).Some?
  {
    CreatorLoops(s, c);
  }

  lemma {:induction false} RunKeepsAccounts(c: Config, run: seq<State>, acts: seq<Act>, k: nat)
    requires IsScheduled(c, run, acts) && k <= |acts|
    ensures Inv(c, run[k]) && Accounted(c, run[k], Fates(run, acts, k))
  {
    ScheduledIsRun(c, run, acts);
    RunKeepsInv(c, run);
    if k > 0 {
      RunKeepsAccounts(c, run, acts, k - 1);
      assert Takes(c, run[k - 1], acts[k - 1], run[k]);
      match acts[k - 1]
      case MoverActs => MoverKeepsAccounts(c, run[k - 1], Fates(run, acts, k - 1));
      case CreatorActs(e) => CreatorKeepsAccounts(c, run[k - 1], e, Fates(run, acts, k - 1));
    }
  }

  /** The creator has been joined, or is about to be. */
  predicate Joined(s: State) {
    s.mover.Join? && s.creator.Done?
  }

  /** At the join every file has had its try and its fate: the directory's last home holds exactly
      those that were made, `created` is their number, with the misses and the refusals they are
      all the files, and `err` is the latest refusal.  A directory that never moves, over a kernel
      that never refuses, gets every file. */
  lemma EveryFileIsAccountedFor(c: Config, run: seq<State>, acts: seq<Act>, k: nat)
    requires IsScheduled(c, run, acts) && k <= |acts| && Joined(run[k])
    ensures var s, fates := run[k], Fates(run, acts, k);
      && |fates| == c.files
      && s.tree.Lookup(c.moves).Some?
      && Lived(fates, s.tree.Files(s.tree.Lookup(c.moves).value))
      && s.created == Makes(fates)
      && s.created + Misses(fates) + Refusals(fates) == c.files
      && s.err == LastError(fates)
      && (c.moves == 0 && c.faults == {} ==> s.created == c.files)
  {
    RunKeepsAccounts(c, run, acts, k);
    EveryFateCounts(Fates(run, acts, k));
  }

  lemma {:induction false} LastErrorIff(fates: seq<Fate>)
    requires forall i :: 0 <= i < |fates| && fates[i].Refused? ==> fates[i].e != OK
    ensures LastError(fates) != OK <==> Refusals(fates) > 0
  {
    if fates != [] {
      LastErrorIff(fates[..|fates| - 1]);
    }
  }

  /** Step j is the join of a loop. */
  ghost predicate JoinsAt(run: seq<State>, acts: seq<Act>, j: nat)
    requires |run| == |acts| + 1
  {
    j < |acts| && acts[j].MoverActs? && Joined(run[j])
  }

  ghost predicate RefusedBefore(run: seq<State>, acts: seq<Act>, k: nat)
    requires |run| == |acts| + 1
  {
    exists j: nat :: j < k && RefusedAt(run, acts, j)
  }

  /** A loop with a refusal is joined in step j. */
  ghost predicate RefusedAt(run: seq<State>, acts: seq<Act>, j: nat)
    requires |run| == |acts| + 1
  {
    JoinsAt(run, acts, j) && Refusals(Fates(run, acts, j)) > 0
  }

  lemma RefusedOneLater(run: seq<State>, acts: seq<Act>, k: nat)
    requires |run| == |acts| + 1
    ensures RefusedBefore(run, acts, k + 1) <==> (RefusedBefore(run, acts, k) || RefusedAt(run, acts, k))
  {
  }

  lemma ErrorsAreSeenAtJoins(c: Config, s: State, a: Act, t: State)
    requires Takes(c, s, a, t)
    ensures t.errSeen <==> (s.errSeen || (a.MoverActs? && Joined(s) && s.err != OK))
  {
  }

  lemma JoinReports(c: Config, run: seq<State>, acts: seq<Act>, j: nat)
    requires IsScheduled(c, run, acts) && j < |acts|
    ensures RefusedAt(run, acts, j) <==> JoinsAt(run, acts, j) && run[j].err != OK
  {
    if JoinsAt(run, acts, j) {
      RunKeepsAccounts(c, run, acts, j);
      LastErrorIff(Fates(run, acts, j));
    }
  }

  /** The test reports an error exactly if some loop that was joined had a refusal. */
  lemma {:induction false} RefusalsAreReported(c: Config, run: seq<State>, acts: seq<Act>, k: nat)
    requires IsScheduled(c, run, acts) && k <= |acts|
    ensures run[k].errSeen <==> RefusedBefore(run, acts, k)
  {
    if k > 0 {
      RefusalsAreReported(c, run, acts, k - 1);
      ErrorsAreSeenAtJoins(c, run[k - 1], acts[k - 1], run[k]);
      JoinReports(c, run, acts, k - 1);
      RefusedOneLater(run, acts, k - 1);
    }
  }

  // ---------- every loop, every file ----------

  /** In step j of loop l the creator takes the directory's whereabouts for file i. */
  predicate ReadsIn(run: seq<State>, j: nat, l: nat, i: nat) {
    && j + 1 < |run| && Looping(run[j].mover) && run[j].mover.loop == l
    && run[j].creator == ReadWhere(i) && run[j + 1].creator == Resolve(i, run[j].where)
  }

  /** How often it has done so before step k. */
  function TimesRead(run: seq<State>, k: nat, l: nat, i: nat): nat {
    if k == 0 then 0 else TimesRead(run, k - 1, l, i) + if ReadsIn(run, k - 1, l, i) then 1 else 0
  }

  function ReadSoFar(c: Config, pc: CreatorPc): nat {
    match pc
    case ReadWhere(i) => i
    case Resolve(i, _) => i + 1
    case CreateAt(i, _) => i + 1
    case _ => c.files
  }

  predicate NotSpawned(pc: MoverPc) {
    pc.Begin? || pc.MakeDir? || pc.Spawn?
  }

  ghost predicate ReadsFit(c: Config, s: State, run: seq<State>, k: nat) {
    && (Looping(s.mover) ==> forall i: nat ::
          TimesRead(run, k, s.mover.loop, i) == if i < ReadSoFar(c, s.creator) then 1 else 0)
    && (!s.mover.Finished? && !s.mover.Failed? ==> forall l: nat, i: nat ::
          l > s.mover.loop || (l == s.mover.loop && NotSpawned(s.mover)) ==> TimesRead(run, k, l, i) == 0)
  }

  lemma {:induction false} RunKeepsReads(c: Config, run: seq<State>, acts: seq<Act>, k: nat)
    requires IsScheduled(c, run, acts) && k <= |acts|
    ensures ReadsFit(c, run[k], run, k)
  {
    ScheduledIsRun(c, run, acts);
    RunKeepsInv(c, run);
    if k > 0 {
      RunKeepsReads(c, run, acts, k - 1);
      assert Takes(c, run[k - 1], acts[k - 1], run[k]);
      assert Inv(c, run[k - 1]) && Inv(c, run[k]);
      StepKeepsReads(c, run, acts[k - 1], k);
    }
  }

  lemma StepKeepsReads(c: Config, run: seq<State>, a: Act, k: nat)
    requires 0 < k < |run| && Inv(c, run[k - 1]) && Inv(c, run[k])
    requires Takes(c, run[k - 1], a, run[k]) && ReadsFit(c, run[k - 1], run, k - 1)
    ensures ReadsFit(c, run[k], run, k)
  {
    var s, t := run[k - 1], run[k];
    match a
    case MoverActs =>
      MoverReadsNothing(c, s, t);
      forall l: nat, i: nat ensures TimesRead(run, k, l, i) == TimesRead(run, k - 1, l, i) {
      }
    case CreatorActs(_) =>
      CreatorReadsOnce(c, s, a, t);
      forall l: nat, i: nat ensures TimesRead(run, k, l, i) ==
        TimesRead(run, k - 1, l, i) + if s.creator == ReadWhere(i) && l == s.mover.loop then 1 else 0
      {
      }
  }

  lemma CreatorReadsOnce(c: Config, s: State, a: Act, t: State)
    requires Inv(c, s) && Takes(c, s, a, t) && a.CreatorActs?
    ensures Looping(s.mover) && t.mover == s.mover
    ensures s.creator.ReadWhere? ==> t.creator == Resolve(s.creator.i, s.where)
    ensures ReadSoFar(c, t.creator) == ReadSoFar(c, s.creator) + if s.creator.ReadWhere? then 1 else 0
  {
  }

  lemma MoverReadsNothing(c: Config, s: State, t: State)
    requires Inv(c, s) && Takes(c, s, MoverActs, t)
    ensures s.creator.ReadWhere? ==> t.creator == s.creator
    ensures Looping(t.mover) && !s.mover.Spawn? ==> Looping(s.mover) && s.mover.loop == t.mover.loop && t.creator == s.creator
    ensures s.mover.Spawn? ==> t.mover.loop == s.mover.loop && ReadSoFar(c, t.creator) == 0
    ensures !t.mover.Finished? && !t.mover.Failed? ==> t.mover.loop >= s.mover.loop
    ensures NotSpawned(t.mover) && t.mover.loop == s.mover.loop ==> NotSpawned(s.mover)
  {
  }

  /** By the join every file has been tried exactly once, at the place the mover had announced. */
  lemma EveryFileIsTriedOnce(c: Config, run: seq<State>, acts: seq<Act>, k: nat, i: nat)
    requires IsScheduled(c, run, acts) && k <= |acts| && Joined(run[k]) && i < c.files
    ensures TimesRead(run, k, run[k].mover.loop, i) == 1
  {
    RunKeepsReads(c, run, acts, k);
  }

  /** The number of loops that have been joined. */
  function LoopsJoined(c: Config, pc: MoverPc): nat {
    match pc
    case Finished => c.loops
    case Failed => 0
    case Check(l, _, _) => l + 1
    case Sweep(l, _) => l + 1
    case RemoveDir(l) => l + 1
    case _ => pc.loop
  }

  lemma JoiningStep(c: Config, s: State, a: Act, t: State, l: nat)
    requires Inv(c, s) && Takes(c, s, a, t)
    requires LoopsJoined(c, s.mover) <= l < LoopsJoined(c, t.mover)
    ensures a.MoverActs? && Joined(s) && s.mover == Join(l)
  {
  }

  ghost predicate LoopJoinedBefore(run: seq<State>, acts: seq<Act>, k: nat, l: nat)
    requires |run| == |acts| + 1
  {
    exists j: nat :: j < k && JoinsAt(run, acts, j) && run[j].mover == Join(l)
  }

  lemma ScheduleKeepsInv(c: Config, run: seq<State>, acts: seq<Act>, k: nat)
    requires IsScheduled(c, run, acts) && k <= |acts|
    ensures Inv(c, run[k])
  {
    ScheduledIsRun(c, run, acts);
    RunKeepsInv(c, run);
  }

  /** No loop is left out. */
  lemma {:induction false} EveryLoopIsJoined(c: Config, run: seq<State>, acts: seq<Act>, k: nat, l: nat)
    requires IsScheduled(c, run, acts) && k <= |acts| && l < LoopsJoined(c, run[k].mover)
    ensures LoopJoinedBefore(run, acts, k, l)
  {
    assert run[0].mover == Begin(0);
    if k > 0 {
      ScheduleKeepsInv(c, run, acts, k - 1);
      var s, a, t := run[k - 1], acts[k - 1], run[k];
      if l < LoopsJoined(c, s.mover) {
        EveryLoopIsJoined(c, run, acts, k - 1, l);
      } else {
        JoiningStep(c, s, a, t, l);
        assert JoinsAt(run, acts, k - 1);
      }
    }
  }

  // ---------- what the check would find ----------

  /** The check to its end. */
  function Counted(c: Config, s: State): State
    requires s.mover.Check? && s.mover.i <= c.files
    decreases c.files - s.mover.i
  {
    var t := MoverStep(c, s);
    if t.mover.Check? then Counted(c, t) else t
  }

  ghost function Present(c: Config, s: State): set<nat> {
    set i: nat | i < c.files && s.tree.Exists(c.moves, i)
  }

  /** In any state at all, reachable or not, the check finds something missing exactly if fewer
      files are there than were counted as created. */
  lemma {:induction false} CheckFindsMissingIff(c: Config, s: State)
    requires s.mover.Check? && s.mover.i <= c.files
    requires s.mover.j == |Below(Present(c, s), s.mover.i)| && s.mover.j <= s.created
    ensures Counted(c, s).missing <==> s.missing || |Present(c, s)| < s.created
    ensures Counted(c, s).mover == Sweep(s.mover.loop, 0) && Counted(c, s).tree == s.tree
    decreases c.files - s.mover.i
  {
    var present, i := Present(c, s), s.mover.i;
    BelowAll(present, i);
    if i < c.files && s.mover.j < s.created {
      BelowNext(present, i);
      CheckFindsMissingIff(c, MoverStep(c, s));
    }
  }

  // ---------- every interleaving ends ----------

  function LoopCost(c: Config): nat {
    5 * c.files + 2 * c.moves + 9
  }

  function AfterLoops(c: Config, remaining: nat): nat {
    if remaining == 0 then 1 else AfterLoops(c, remaining - 1) + LoopCost(c)
  }

  function MoverWork(c: Config, s: State): nat
    requires PcInRange(c, s)
  {
    match s.mover
    case Begin(l) => AfterLoops(c, c.loops - l)
    case Finished => 0
    case MakeDir(l) => AfterLoops(c, c.loops - l - 1) + 5 * c.files + 2 * c.moves + 8
    case Spawn(l) => AfterLoops(c, c.loops - l - 1) + 5 * c.files + 2 * c.moves + 7
    case Move(l, i) => AfterLoops(c, c.loops - l - 1) + 2 * c.files + 2 * (c.moves - i) + 4
    case Publish(l, i) => AfterLoops(c, c.loops - l - 1) + 2 * c.files + 2 * (c.moves - i) + 3
    case Join(l) => AfterLoops(c, c.loops - l - 1) + 2 * c.files + 4
    case Check(l, i, _) => AfterLoops(c, c.loops - l - 1) + c.files + (c.files - i) + 3
    case Sweep(l, i) => AfterLoops(c, c.loops - l - 1) + (c.files - i) + 2
    case RemoveDir(l) => AfterLoops(c, c.loops - l - 1) + 1
  }

  function CreatorWork(c: Config, s: State): nat
    requires CreatorReady(s) ==> s.creator.i < c.files
  {
    match s.creator
    case ReadWhere(i) => 3 * (c.files - i)
    case Resolve(i, _) => 3 * (c.files - i) - 1
    case CreateAt(i, _) => 3 * (c.files - i) - 2
    case _ => 0
  }

  function Work(c: Config, s: State): nat
    requires PcInRange(c, s) && (CreatorReady(s) ==> s.creator.i < c.files)
  {
    MoverWork(c, s) + CreatorWork(c, s)
  }

  lemma MoverUsesWork(c: Config, s: State)
    requires Inv(c, s) && MoverReady(s) && Inv(c, MoverStep(c, s))
    ensures Work(c, MoverStep(c, s)) < Work(c, s)
  {
    if s.mover.Begin? {
      BeginningUsesWork(c, s);
    } else if s.mover.Spawn? {
      SpawningUsesWork(c, s);
    } else {
      assert MoverStep(c, s).creator == s.creator;
      if s.mover.MakeDir? || s.mover.Move? || s.mover.Publish? || s.mover.Join? {
        MovingCountsDown(c, s);
      } else {
        EndingCountsDown(c, s);
      }
    }
  }

  lemma BeginningUsesWork(c: Config, s: State)
    requires Inv(c, s) && MoverReady(s) && Inv(c, MoverStep(c, s)) && s.mover.Begin?
    ensures Work(c, MoverStep(c, s)) < Work(c, s)
  {
    assert MoverStep(c, s).creator == s.creator;
    if s.mover.loop < c.loops {
      assert AfterLoops(c, c.loops - s.mover.loop) == AfterLoops(c, c.loops - s.mover.loop - 1) + LoopCost(c);
    }
  }

  lemma SpawningUsesWork(c: Config, s: State)
    requires Inv(c, s) && MoverReady(s) && Inv(c, MoverStep(c, s)) && s.mover.Spawn?
    ensures Work(c, MoverStep(c, s)) < Work(c, s)
  {
    var t := MoverStep(c, s);
    assert CreatorWork(c, t) == 3 * c.files && CreatorWork(c, s) == 0;
    assert MoverWork(c, t) + 3 * c.files < MoverWork(c, s);
  }

  lemma MovingCountsDown(c: Config, s: State)
    requires PcInRange(c, s) && MoverReady(s) && PcInRange(c, MoverStep(c, s))
    requires s.mover.MakeDir? || s.mover.Move? || s.mover.Publish? || s.mover.Join?
    ensures MoverWork(c, MoverStep(c, s)) < MoverWork(c, s)
  {
  }

  lemma EndingCountsDown(c: Config, s: State)
    requires PcInRange(c, s) && MoverReady(s) && PcInRange(c, MoverStep(c, s))
    requires s.mover.Check? || s.mover.Sweep? || s.mover.RemoveDir?
    ensures MoverWork(c, MoverStep(c, s)) < MoverWork(c, s)
  {
  }

  lemma CreatorUsesWork(c: Config, s: State, e: int)
    requires Inv(c, s) && CreatorReady(s) && Inv(c, CreatorStep(c, s, e))
    ensures Work(c, CreatorStep(c, s, e)) < Work(c, s)
  {
    assert CreatorStep(c, s, e).mover == s.mover;
    assert CreatorWork(c, CreatorStep(c, s, e)) < CreatorWork(c, s);
  }

  lemma StepUsesWork(c: Config, s: State, t: State)
    requires Inv(c, s) && Inv(c, t) && Next(c, s, t)
    ensures Work(c, t) < Work(c, s)
  {
    if MoverReady(s) && t == MoverStep(c, s) {
      MoverUsesWork(c, s);
    } else {
      var e :| Answer(c, e) && t == CreatorStep(c, s, e);
      CreatorUsesWork(c, s, e);
    }
  }

  lemma {:induction false} RunIsBounded(c: Config, run: seq<State>)
    requires IsRun(c, run)
    ensures Inv(c, run[|run| - 1])
    ensures |run| + Work(c, run[|run| - 1]) <= AfterLoops(c, c.loops) + 1
  {
    RunKeepsInv(c, run);
    if |run| > 1 {
      var shorter := run[..|run| - 1];
      RunIsBounded(c, shorter);
      StepUsesWork(c, shorter[|run| - 2], run[|run| - 1]);
    }
  }

  ghost predicate Stuck(c: Config, s: State) {
    forall t :: !Next(c, s, t)
  }

  lemma NotStuck(c: Config, s: State)
    requires Inv(c, s) && !s.mover.Finished?
    ensures !Stuck(c, s)
  {
    if MoverReady(s) {
      assert Next(c, s, MoverStep(c, s));
    } else {
      assert Answer(c, OK);
      assert Next(c, s, CreatorStep(c, s, OK));
    }
  }

  /** No schedule runs for ever or gets stuck: a run has at most AfterLoops(c, loops) steps, and
      one that cannot be extended has finished with every directory gone and nothing missing. */
  lemma EveryScheduleFinishes(c: Config, run: seq<State>)
    requires IsRun(c, run)
    ensures |run| <= AfterLoops(c, c.loops) + 1
    ensures Stuck(c, run[|run| - 1]) ==>
      var last := run[|run| - 1];
      && last.mover.Finished?
      && !last.missing
      && forall n: nat :: last.tree.Lookup(n).None?
  {
    RunIsBounded(c, run);
    RunKeepsInv(c, run);
    if !run[|run| - 1].mover.Finished? {
      NotStuck(c, run[|run| - 1]);
    }
  }
}
