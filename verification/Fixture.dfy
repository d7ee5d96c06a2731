/**
  The reference-counted loopback NFS deployment that all ports share: bring-up, any step of
  which may fail, teardown, the export options, and the two mounts a running test may add.

  Every call that acquires or releases something from the kernel is recorded in a log, so
  that order and pairing can be stated over whole runs.
*/
module Fixture {
  import opened Options

  const EEXIST := -17
  const EINVAL := -22
  const ENOENT := -2

  const DEFAULT_OPTS := "size=67108864,nr_inodes=32768"
  const OPTS_BUFFER := 64
  const SCRATCH_TRIES := 8

  datatype Resource = Tmpfs | Nfsdfs | Nfsd | Client | Root | Hostbin | Scratch

  /** `opts` is the mount data of an acquisition, "" for the ones that take none. */
  datatype Event =
    | Acquire(r: Resource, opts: string)
    | Release(r: Resource)
    | SetOpts(opts: string)
    | ResetOpts

  /** The calls so far, latest last. */
  datatype Log = Start | After(before: Log, e: Event)

  /** The kernel's answer to each call of one bring-up, 0 for success. */
  datatype Faults = Faults(loopback: int, mkExport: int, mkMnt: int, mkNfs: int, mkNfsdfs: int,
                           tmpfs: int, nfsdfs: int, exports: int, nfsd: int, client: int)

  datatype State = State(refs: int, opts: string, tmpfs: bool, nfsdfs: bool, nfsd: bool,
                         client: bool, root: bool, hostbin: bool, scratch: nat,
                         log: Log)

  function Init(): State {
    State(0, DEFAULT_OPTS, false, false, false, false, false, false, 0, Start)
  }

  /** strscpy() into the option buffer. */
  function Clip(opts: string): string {
    if |opts| < OPTS_BUFFER then opts else opts[..OPTS_BUFFER - 1]
  }

  function Tolerant(err: int): int {
    if err == EEXIST then 0 else err
  }

  // ---------- what each operation does, as a whole ----------

  const CALLS := 10

  /** The calls of a bring-up in order: the kernel's answer to each. */
  function Answer(f: Faults, k: nat): int {
    match k
    case 0 => f.loopback
    case 1 => Tolerant(f.mkExport)
    case 2 => Tolerant(f.mkMnt)
    case 3 => Tolerant(f.mkNfs)
    case 4 => Tolerant(f.mkNfsdfs)
    case 5 => f.tmpfs
    case 6 => f.nfsdfs
    case 7 => f.exports
    case 8 => f.nfsd
    case _ => f.client
  }

  /** How many of the calls from k on succeed before one fails or none is left. */
  function Successes(f: Faults, k: nat): (n: nat)
    requires k <= CALLS
    ensures k + n <= CALLS
    ensures k + n < CALLS ==> Answer(f, k + n) != 0
    ensures forall i :: k <= i < k + n ==> Answer(f, i) == 0
    decreases CALLS - k
  {
    if k == CALLS || Answer(f, k) != 0 then 0 else 1 + Successes(f, k + 1)
  }

  function FirstError(f: Faults): int {
    var n := Successes(f, 0);
    if n == CALLS then 0 else Answer(f, n)
  }

  /** The log after the first n calls of a bring-up have succeeded. */
  function AcquiredBy(n: nat, opts: string, log: Log): Log {
    if n == 0 then log
    else
      var earlier := AcquiredBy(n - 1, opts, log);
      match n - 1
      case 5 => After(earlier, Acquire(Tmpfs, opts))
      case 6 => After(earlier, Acquire(Nfsdfs, ""))
      case 8 => After(earlier, Acquire(Nfsd, ""))
      case 9 => After(earlier, Acquire(Client, ""))
      case _ => earlier
  }

  function ReleaseIf(held: bool, r: Resource, log: Log): Log {
    if held then After(log, Release(r)) else log
  }

  function ReleaseScratch(n: nat, log: Log): Log {
    if n == 0 then log else After(ReleaseScratch(n - 1, log), Release(Scratch))
  }

  /** A bring-up stops at the first call that fails; after the last it swaps the held root. */
  function Deployed(s: State, f: Faults): State {
    var n := Successes(f, 0);
    var log := AcquiredBy(n, s.opts, s.log);
    s.(tmpfs := s.tmpfs || n > 5, nfsdfs := s.nfsdfs || n > 6, nfsd := s.nfsd || n > 8,
       client := s.client || n > 9, root := s.root || n == CALLS,
       log := if n < CALLS then log else After(ReleaseIf(s.root, Root, log), Acquire(Root, "")))
  }

  function ScratchLeft(n: nat): nat {
    if n <= SCRATCH_TRIES then 0 else n - SCRATCH_TRIES
  }

  function Unscratched(s: State): State {
    s.(scratch := ScratchLeft(s.scratch),
       log := ReleaseScratch(s.scratch - ScratchLeft(s.scratch), s.log))
  }

  function Unhosted(s: State): State {
    s.(hostbin := false, log := ReleaseIf(s.hostbin, Hostbin, s.log))
  }

  /** Client, server, server filesystem and export, in that order. */
  function Stopped(s: State): State {
    s.(tmpfs := false, nfsdfs := false, nfsd := false, client := false,
       log := ReleaseIf(s.tmpfs, Tmpfs, ReleaseIf(s.nfsdfs, Nfsdfs,
                ReleaseIf(s.nfsd, Nfsd, ReleaseIf(s.client, Client, s.log)))))
  }

  /** A teardown releases whatever is held, in one fixed order, and resets the options. */
  function TornDown(s: State): State {
    var t := Stopped(Unscratched(Unhosted(s)));
    t.(opts := DEFAULT_OPTS, root := false, log := ReleaseIf(t.root, Root, After(t.log, ResetOpts)))
  }

  function Got(s: State, f: Faults): State {
    if s.refs != 0 then s.(refs := s.refs + 1)
    else if FirstError(f) == 0 then Deployed(s, f).(refs := 1)
    else TornDown(Deployed(s, f))
  }

  function Hosted(s: State, mkdir: int, mount: int): State {
    if s.hostbin || Tolerant(mkdir) != 0 || mount != 0 then s
    else s.(hostbin := true, log := After(s.log, Acquire(Hostbin, "")))
  }

  function Scratched(s: State, mkdir: int, mount: int): State {
    if Tolerant(mkdir) != 0 || mount != 0 then s
    else s.(scratch := s.scratch + 1, log := After(s.log, Acquire(Scratch, "")))
  }

  function WithOpts(s: State, o: string): State {
    s.(opts := Clip(o), log := After(s.log, SetOpts(Clip(o))))
  }

  function Dropped(s: State): State {
    if s.refs <= 0 then s
    else if s.refs == 1 then TornDown(s.(refs := 0))
    else s.(refs := s.refs - 1)
  }

  lemma AcquiresNothingYet(n: nat, opts: string, log: Log)
    requires n <= 5
    ensures AcquiredBy(n, opts, log) == log
  {
  }

  lemma AcquiresServerAndClient(opts: string, log: Log)
    ensures AcquiredBy(8, opts, log) == AcquiredBy(7, opts, log)
    ensures AcquiredBy(9, opts, log) == After(AcquiredBy(7, opts, log), Acquire(Nfsd, ""))
    ensures AcquiredBy(10, opts, log) == After(AcquiredBy(9, opts, log), Acquire(Client, ""))
  {
  }

  // ---------- the fixture ----------

  class Deployment {
    var refs: int
    var opts: string
    var tmpfs: bool
    var nfsdfs: bool
    var nfsd: bool
    var client: bool
    var root: bool
    var hostbin: bool
    var scratch: nat
    var log: Log

    ghost function Abs(): State
      reads this
    {
      State(refs, opts, tmpfs, nfsdfs, nfsd, client, root, hostbin, scratch, log)
    }

    constructor ()
      ensures Abs() == Init()
    {
      refs, opts, log := 0, DEFAULT_OPTS, Start;
      tmpfs, nfsdfs, nfsd, client, root, hostbin, scratch := false, false, false, false, false, false, 0;
    }

    /** Loopback up and the four mount points made: nothing to release yet. */
    method Prepare(f: Faults) returns (err: int)
      ensures if err == 0 then Successes(f, 0) >= 5 else Successes(f, 0) < 5 && err == FirstError(f)
    {
      err := f.loopback;
      if err != 0 { return; }
      err := Tolerant(f.mkExport);
      if err != 0 { return; }
      err := Tolerant(f.mkMnt);
      if err != 0 { return; }
      err := Tolerant(f.mkNfs);
      if err != 0 { return; }
      err := Tolerant(f.mkNfsdfs);
    }

    /** tmpfs and the nfsd filesystem. */
    method MountExport(f: Faults) returns (err: int)
      requires Successes(f, 0) >= 5
      modifies this
      ensures if err == 0 then
          && Successes(f, 0) >= 7
          && Abs() == old(Abs()).(tmpfs := true, nfsdfs := true, log := AcquiredBy(7, old(opts), old(log)))
        else Successes(f, 0) < 7 && err == FirstError(f) && Abs() == Deployed(old(Abs()), f)
    {
      AcquiresNothingYet(5, opts, log);
      err := f.tmpfs;
      if err != 0 { return; }
      tmpfs, log := true, After(log, Acquire(Tmpfs, opts));
      err := f.nfsdfs;
      if err != 0 { return; }
      nfsdfs, log := true, After(log, Acquire(Nfsdfs, ""));
    }

    /** The export table and the server; `s` is the state the bring-up started from. */
    method StartServer(f: Faults, ghost s: State) returns (err: int)
      requires Successes(f, 0) >= 7
      requires Abs() == s.(tmpfs := true, nfsdfs := true, log := AcquiredBy(7, s.opts, s.log))
      modifies this
      ensures if err == 0 then
          && Successes(f, 0) >= 9
          && Abs() == s.(tmpfs := true, nfsdfs := true, nfsd := true, log := AcquiredBy(9, s.opts, s.log))
        else Successes(f, 0) < 9 && err == FirstError(f) && Abs() == Deployed(s, f)
    {
      AcquiresServerAndClient(s.opts, s.log);
      err := f.exports;
      if err != 0 { return; }
      err := f.nfsd;
      if err != 0 { return; }
      nfsd, log := true, After(log, Acquire(Nfsd, ""));
    }

    method BringUp(f: Faults) returns (err: int)
      modifies this
      ensures err == FirstError(f)
      ensures Abs() == Deployed(old(Abs()), f)
    {
      err := Prepare(f);
      if err != 0 { AcquiresNothingYet(Successes(f, 0), opts, log); return; }
      err := MountExport(f);
      if err != 0 { return; }
      err := StartServer(f, old(Abs()));
      if err != 0 { return; }
      AcquiresServerAndClient(old(opts), old(log));
      err := f.client;
      if err != 0 { return; }
      client, log := true, After(log, Acquire(Client, ""));
      HoldRoot();
    }

    /** The bring-up thread's root replaces the one held so far. */
    method HoldRoot()
      modifies this
      ensures Abs() == old(Abs()).(root := true, log := After(ReleaseIf(old(root), Root, old(log)), Acquire(Root, "")))
    {
      if root { log := After(log, Release(Root)); }
      root, log := true, After(log, Acquire(Root, ""));
    }

    method HostbinMount(mkdir: int, mount: int) returns (err: int)
      modifies this
      ensures Abs() == Hosted(old(Abs()), mkdir, mount)
      ensures err == 0 <==> hostbin
    {
      err := 0;
      if !hostbin {
        err := Tolerant(mkdir);
        if err == 0 { err := mount; }
        hostbin := err == 0;
        if hostbin { log := After(log, Acquire(Hostbin, "")); }
      }
    }

    method HostbinUmount()
      modifies this
      ensures Abs() == Unhosted(old(Abs()))
    {
      if hostbin {
        hostbin, log := false, After(log, Release(Hostbin));
      }
    }

    method ScratchMount(mkdir: int, mount: int) returns (err: int)
      modifies this
      ensures Abs() == Scratched(old(Abs()), mkdir, mount)
      ensures err == if Tolerant(mkdir) != 0 then Tolerant(mkdir) else mount
    {
      err := Tolerant(mkdir);
      if err != 0 { return; }
      err := mount;
      if err == 0 {
        scratch, log := scratch + 1, After(log, Acquire(Scratch, ""));
      }
    }

    /** The header promises 0 once no scratch mount is left.  The loop gives up after eight
        tries and still answers 0, so the promise is kept exactly for at most eight mounts. */
    method ScratchUmount() returns (err: int)
      modifies this
      ensures err == 0
      ensures scratch == 0 <==> old(scratch) <= SCRATCH_TRIES
      ensures Abs() == Unscratched(old(Abs()))
    {
      err := 0;
      var tries := 0;
      while tries < SCRATCH_TRIES && err == 0
        invariant 0 <= tries <= SCRATCH_TRIES
        invariant err == 0 ==> scratch == old(scratch) - tries
        invariant err == EINVAL ==> scratch == 0 && old(scratch) < SCRATCH_TRIES
        invariant err == 0 || err == EINVAL
        invariant Abs() == old(Abs()).(scratch := scratch,
                                       log := ReleaseScratch(old(scratch) - scratch, old(log)))
      {
        if scratch > 0 {
          scratch, log := scratch - 1, After(log, Release(Scratch));
        } else {
          err := EINVAL;
        }
        tries := tries + 1;
      }
      err := if err == EINVAL || err == ENOENT then 0 else err;
    }

    method StopServer()
      modifies this
      ensures Abs() == Stopped(old(Abs()))
    {
      if client { client, log := false, After(log, Release(Client)); }
      if nfsd { nfsd, log := false, After(log, Release(Nfsd)); }
      if nfsdfs { nfsdfs, log := false, After(log, Release(Nfsdfs)); }
      if tmpfs { tmpfs, log := false, After(log, Release(Tmpfs)); }
    }

    method Teardown()
      modifies this
      ensures Abs() == TornDown(old(Abs()))
    {
      HostbinUmount();
      var _ := ScratchUmount();
      StopServer();
      opts, log := Clip(DEFAULT_OPTS), After(log, ResetOpts);
      if root { root, log := false, After(log, Release(Root)); }
    }

    method Get(f: Faults) returns (err: int)
      modifies this
      ensures err == if old(refs) == 0 then FirstError(f) else 0
      ensures Abs() == Got(old(Abs()), f)
    {
      err := 0;
      if refs == 0 {
        err := BringUp(f);
      }
      if err == 0 {
        refs := refs + 1;
      } else {
        Teardown();
      }
    }

    method Put()
      modifies this
      ensures Abs() == Dropped(old(Abs()))
    {
      if refs > 0 {
        refs := refs - 1;
        if refs == 0 {
          Teardown();
        }
      }
    }

    method ExportOpts(o: string)
      modifies this
      ensures Abs() == WithOpts(old(Abs()), o)
    {
      opts, log := Clip(o), After(log, SetOpts(Clip(o)));
    }
  }

  // ---------- whole runs ----------

  datatype Op =
    | Get(f: Faults)
    | Put
    | ExportOpts(o: string)
    | MountHostbin(mkdir: int, mount: int)
    | MountScratch(mkdir: int, mount: int)
    | UnmountScratch

  function Apply(s: State, op: Op): State {
    match op
    case Get(f) => Got(s, f)
    case Put => Dropped(s)
    case ExportOpts(o) => WithOpts(s, o)
    case MountHostbin(mkdir, mount) => Hosted(s, mkdir, mount)
    case MountScratch(mkdir, mount) => Scratched(s, mkdir, mount)
    case UnmountScratch => Unscratched(s)
  }

  /** A test case runs, and so mounts things, only inside a suite whose get succeeded. */
  predicate Legal(s: State, op: Op) {
    op.MountHostbin? || op.MountScratch? ==> s.refs > 0
  }

  function Run(s: State, ops: seq<Op>): State {
    if ops == [] then s else Apply(Run(s, ops[..|ops| - 1]), ops[|ops| - 1])
  }

  ghost predicate LegalRun(ops: seq<Op>) {
    ops != [] ==>
      LegalRun(ops[..|ops| - 1]) && Legal(Run(Init(), ops[..|ops| - 1]), ops[|ops| - 1])
  }

  // ---------- how acquisitions and releases must pair up ----------

  /** What is held after a log: the first `depth` of tmpfs, nfsdfs, nfsd and client, the root
      path, the host programs, and a number of scratch mounts. */
  datatype Held = Held(depth: nat, root: bool, hostbin: bool, scratch: nat)

  function Level(r: Resource): nat {
    match r
    case Tmpfs => 0
    case Nfsdfs => 1
    case Nfsd => 2
    case Client => 3
    case _ => 4
  }

  /** The discipline: the four parts of the stack are acquired bottom-up and released top-down,
      each once; nothing under a mounted hostbin is released; the root path is taken last, on a
      complete stack, and dropped last, when the stack is gone. */
  function Permit(h: Held, e: Event): Option<Held> {
    match e
    case Acquire(Hostbin, _) => if h.root && !h.hostbin then Some(h.(hostbin := true)) else None
    case Release(Hostbin) => if h.hostbin then Some(h.(hostbin := false)) else None
    case Acquire(Scratch, _) => if h.root then Some(h.(scratch := h.scratch + 1)) else None
    case Release(Scratch) => if h.scratch > 0 then Some(h.(scratch := h.scratch - 1)) else None
    case Acquire(Root, _) => if h.depth == 4 && !h.root then Some(h.(root := true)) else None
    case Release(Root) => if h.depth == 0 && h.root then Some(h.(root := false)) else None
    case Acquire(r, _) => if h.depth == Level(r) then Some(h.(depth := h.depth + 1)) else None
    case Release(r) => if h.depth == Level(r) + 1 && !h.hostbin then Some(h.(depth := h.depth - 1)) else None
    case _ => Some(h)
  }

  function Discipline(log: Log): Option<Held> {
    match log
    case Start => Some(Held(0, false, false, 0))
    case After(before, e) =>
      var h := Discipline(before);
      if h.Some? then Permit(h.value, e) else None
  }

  /** The options in force: those set since the last teardown, else the default. */
  function LastOpts(log: Log): string {
    match log
    case Start => DEFAULT_OPTS
    case After(_, SetOpts(o)) => o
    case After(_, ResetOpts) => DEFAULT_OPTS
    case After(before, _) => LastOpts(before)
  }

  predicate OptsHonoured(log: Log) {
    match log
    case Start => true
    case After(before, Acquire(Tmpfs, o)) => OptsHonoured(before) && o == LastOpts(before)
    case After(before, _) => OptsHonoured(before)
  }

  ghost predicate Inv(s: State) {
    && s.refs >= 0
    && (s.tmpfs <==> s.refs > 0) && (s.nfsdfs <==> s.refs > 0) && (s.nfsd <==> s.refs > 0)
    && (s.client <==> s.refs > 0) && (s.root <==> s.refs > 0)
    && (s.hostbin ==> s.refs > 0)
    && Discipline(s.log) == Some(Held(if s.refs > 0 then 4 else 0, s.root, s.hostbin, s.scratch))
    && LastOpts(s.log) == s.opts
    && OptsHonoured(s.log)
  }

  function DepthAfter(n: nat): nat {
    if n < 6 then 0 else if n < 7 then 1 else if n < 9 then 2 else if n < 10 then 3 else 4
  }

  function Acquired(n: nat): Resource {
    if n == 6 then Tmpfs else if n == 7 then Nfsdfs else if n == 9 then Nfsd else Client
  }

  lemma AcquireNext(n: nat, opts: string, log: Log)
    requires 0 < n <= CALLS
    ensures AcquiredBy(n, opts, log) ==
      var earlier := AcquiredBy(n - 1, opts, log);
      if n == 6 || n == 7 || n == 9 || n == 10 then
        After(earlier, Acquire(Acquired(n), if n == 6 then opts else ""))
      else earlier
  {
  }

  lemma {:induction false} AcquiringKeepsOrder(n: nat, opts: string, log: Log)
    requires n <= CALLS
    requires Discipline(log).Some? && Discipline(log).value.depth == 0
    ensures Discipline(AcquiredBy(n, opts, log)) == Some(Discipline(log).value.(depth := DepthAfter(n)))
  {
    if n > 0 {
      AcquiringKeepsOrder(n - 1, opts, log);
      var h := Discipline(log).value;
      AcquireNext(n, opts, log);
      if n == 6 || n == 7 || n == 9 || n == 10 {
        var r := Acquired(n);
        assert Permit(h.(depth := DepthAfter(n - 1)), Acquire(r, if n == 6 then opts else ""))
            == Some(h.(depth := DepthAfter(n)));
      }
    }
  }

  lemma {:induction false} AcquiringKeepsOpts(n: nat, opts: string, log: Log)
    requires LastOpts(log) == opts && OptsHonoured(log)
    ensures LastOpts(AcquiredBy(n, opts, log)) == opts && OptsHonoured(AcquiredBy(n, opts, log))
  {
    if n > 0 {
      AcquiringKeepsOpts(n - 1, opts, log);
    }
  }

  lemma {:induction false} ScratchKeepsOrder(n: nat, log: Log)
    requires Discipline(log).Some? && Discipline(log).value.scratch >= n
    ensures var h := Discipline(log).value;
      Discipline(ReleaseScratch(n, log)) == Some(h.(scratch := h.scratch - n))
    ensures LastOpts(ReleaseScratch(n, log)) == LastOpts(log)
    ensures OptsHonoured(ReleaseScratch(n, log)) == OptsHonoured(log)
  {
    if n > 0 {
      ScratchKeepsOrder(n - 1, log);
    }
  }

  function Depth(s: State): nat {
    (if s.tmpfs then 1 else 0) + (if s.nfsdfs then 1 else 0) + (if s.nfsd then 1 else 0) + (if s.client then 1 else 0)
  }

  /** A deployment that may have stopped half-way, as a failing bring-up leaves it. */
  ghost predicate Partial(s: State) {
    && (s.nfsdfs ==> s.tmpfs) && (s.nfsd ==> s.nfsdfs) && (s.client ==> s.nfsd) && (s.root ==> s.client)
    && Discipline(s.log) == Some(Held(Depth(s), s.root, s.hostbin, s.scratch))
    && OptsHonoured(s.log)
  }

  lemma ReleaseKeepsOpts(held: bool, r: Resource, log: Log)
    ensures OptsHonoured(ReleaseIf(held, r, log)) == OptsHonoured(log)
  {
  }

  lemma StoppingKeepsOrder(s: State)
    requires Partial(s) && !s.hostbin
    ensures Discipline(Stopped(s).log) == Some(Held(0, s.root, false, s.scratch))
    ensures OptsHonoured(Stopped(s).log)
  {
    var l1 := ReleaseIf(s.client, Client, s.log);
    assert Discipline(l1) == Some(Held(Depth(s.(client := false)), s.root, false, s.scratch));
    var l2 := ReleaseIf(s.nfsd, Nfsd, l1);
    assert Discipline(l2) == Some(Held(Depth(s.(client := false, nfsd := false)), s.root, false, s.scratch));
    var l3 := ReleaseIf(s.nfsdfs, Nfsdfs, l2);
    assert Discipline(l3) == Some(Held(if s.tmpfs then 1 else 0, s.root, false, s.scratch));
    ReleaseKeepsOpts(s.client, Client, s.log);
    ReleaseKeepsOpts(s.nfsd, Nfsd, l1);
    ReleaseKeepsOpts(s.nfsdfs, Nfsdfs, l2);
    ReleaseKeepsOpts(s.tmpfs, Tmpfs, l3);
  }

  lemma UnhostingKeepsOrder(s: State)
    requires Partial(s)
    ensures Partial(Unhosted(s))
  {
    ReleaseKeepsOpts(s.hostbin, Hostbin, s.log);
  }

  lemma UnscratchingKeepsOrder(s: State)
    requires Partial(s)
    ensures Partial(Unscratched(s))
  {
    ScratchKeepsOrder(s.scratch - ScratchLeft(s.scratch), s.log);
  }

  predicate NothingHeld(s: State) {
    !s.tmpfs && !s.nfsdfs && !s.nfsd && !s.client && !s.root && !s.hostbin && s.scratch == 0
  }

  /** Whatever part of the deployment is up, nothing of it stays up; scratch mounts do exactly if
      there are more than eight. */
  lemma TeardownClears(s: State)
    requires Partial(s) && s.refs == 0
    ensures Inv(TornDown(s))
    ensures NothingHeld(TornDown(s)) <==> s.scratch <= SCRATCH_TRIES
  {
    UnhostingKeepsOrder(s);
    UnscratchingKeepsOrder(Unhosted(s));
    var t := Unscratched(Unhosted(s));
    StoppingKeepsOrder(t);
    var stopped := Stopped(t).log;
    assert Discipline(After(stopped, ResetOpts)) == Some(Held(0, s.root, false, t.scratch));
  }

  lemma BringUpIsPartial(s: State, f: Faults)
    requires Inv(s) && s.refs == 0
    ensures Partial(Deployed(s, f))
    ensures FirstError(f) == 0 ==> Inv(Deployed(s, f).(refs := 1))
  {
    AcquiringKeepsOrder(Successes(f, 0), s.opts, s.log);
    AcquiringKeepsOpts(Successes(f, 0), s.opts, s.log);
  }

  lemma OpKeepsInv(s: State, op: Op)
    requires Inv(s) && Legal(s, op)
    ensures Inv(Apply(s, op))
  {
    match op
    case Get(f) =>
      if s.refs == 0 {
        BringUpIsPartial(s, f);
        if FirstError(f) != 0 { TeardownClears(Deployed(s, f)); }
      }
    case Put => if s.refs == 1 { TeardownClears(s.(refs := 0)); }
    case UnmountScratch => ScratchKeepsOrder(s.scratch - ScratchLeft(s.scratch), s.log);
    case _ =>
  }

  /** In every run, whichever bring-up steps fail: with references outstanding all four parts of
      the stack and one root path are held; with none outstanding none of them is, nor are the
      host programs.  Every acquisition is released at most once and in the order the discipline
      prescribes, and every export is mounted with the options set since the last teardown. */
  lemma {:induction false} EveryRunIsBalanced(ops: seq<Op>)
    requires LegalRun(ops)
    ensures Inv(Run(Init(), ops))
  {
    if ops != [] {
      EveryRunIsBalanced(ops[..|ops| - 1]);
      OpKeepsInv(Run(Init(), ops[..|ops| - 1]), ops[|ops| - 1]);
    }
  }

  // ---------- what the calls add up to ----------

  /** A bring-up succeeds exactly if every call does, a directory that exists already being fine;
      and else it ends with what the first other call answered. */
  lemma BringUpSucceedsIff(f: Faults)
    ensures FirstError(f) == 0 <==>
      && f.loopback == 0
      && f.mkExport in {0, EEXIST} && f.mkMnt in {0, EEXIST} && f.mkNfs in {0, EEXIST} && f.mkNfsdfs in {0, EEXIST}
      && f.tmpfs == 0 && f.nfsdfs == 0 && f.exports == 0 && f.nfsd == 0 && f.client == 0
    ensures FirstError(f) != 0 ==>
      exists k: nat :: k < CALLS && FirstError(f) == Answer(f, k) && forall i: nat :: i < k ==> Answer(f, i) == 0
  {
    var n := Successes(f, 0);
    if n < CALLS {
      assert Answer(f, n) != 0;
    } else {
      assert Answer(f, 0) == 0 && Answer(f, 1) == 0 && Answer(f, 2) == 0 && Answer(f, 3) == 0 && Answer(f, 4) == 0;
      assert Answer(f, 5) == 0 && Answer(f, 6) == 0 && Answer(f, 7) == 0 && Answer(f, 8) == 0 && Answer(f, 9) == 0;
    }
  }

  /** The options are kept as far as the buffer has room for them and a terminator. */
  lemma ClipFits(o: string)
    ensures Clip(o) <= o && |Clip(o)| < OPTS_BUFFER
    ensures |o| < OPTS_BUFFER ==> Clip(o) == o
    ensures |o| >= OPTS_BUFFER ==> |Clip(o)| == OPTS_BUFFER - 1
  {
  }

  /** The k-th call is a get and answers 0. */
  predicate GetSucceeds(ops: seq<Op>, k: nat) {
    k < |ops| && ops[k].Get? && (Run(Init(), ops[..k]).refs != 0 || FirstError(ops[k].f) == 0)
  }

  /** The k-th call is a put and finds a reference. */
  predicate PutFinds(ops: seq<Op>, k: nat) {
    k < |ops| && ops[k].Put? && Run(Init(), ops[..k]).refs > 0
  }

  /** The k-th call tears the deployment down, or what a failing bring-up has made of it. */
  predicate TearsDown(ops: seq<Op>, k: nat) {
    LastPut(ops, k) || (k < |ops| && ops[k].Get? && !GetSucceeds(ops, k))
  }

  /** Gets that answered 0 among the first k calls. */
  function Gets(ops: seq<Op>, k: nat): nat {
    if k == 0 then 0 else Gets(ops, k - 1) + if GetSucceeds(ops, k - 1) then 1 else 0
  }

  /** Puts that found a reference. */
  function Puts(ops: seq<Op>, k: nat): nat {
    if k == 0 then 0 else Puts(ops, k - 1) + if PutFinds(ops, k - 1) then 1 else 0
  }

  /** The options set by the latest call since the latest teardown. */
  function OptsSet(ops: seq<Op>, k: nat): string
    requires k <= |ops|
  {
    if k == 0 || TearsDown(ops, k - 1) then DEFAULT_OPTS
    else if ops[k - 1].ExportOpts? then Clip(ops[k - 1].o)
    else OptsSet(ops, k - 1)
  }

  /** The host programs were mounted since the latest teardown. */
  predicate HostbinSet(ops: seq<Op>, k: nat)
    requires k <= |ops|
  {
    k > 0 && !TearsDown(ops, k - 1) &&
    (HostbinSet(ops, k - 1) || (ops[k - 1].MountHostbin? && Mounts(ops[k - 1].mkdir, ops[k - 1].mount)))
  }

  predicate Mounts(mkdir: int, mount: int) {
    mkdir in {0, EEXIST} && mount == 0
  }

  /** Scratch mounts less those that unmounting and teardowns, eight at most each, have removed. */
  function ScratchSet(ops: seq<Op>, k: nat): nat
    requires k <= |ops|
  {
    if k == 0 then 0
    else
      var n := ScratchSet(ops, k - 1);
      if TearsDown(ops, k - 1) || ops[k - 1].UnmountScratch? then (if n > 8 then n - 8 else 0)
      else if ops[k - 1].MountScratch? && Mounts(ops[k - 1].mkdir, ops[k - 1].mount) then n + 1
      else n
  }

  /** What one call changes of the four things callers can tell. */
  lemma OneCall(ops: seq<Op>, k: nat)
    requires k < |ops| && LegalRun(ops[..k + 1])
    ensures LegalRun(ops[..k]) && Inv(Run(Init(), ops[..k]))
    ensures var s, t := Run(Init(), ops[..k]), Run(Init(), ops[..k + 1]);
      && t == Apply(s, ops[k])
      && t.refs == s.refs + (if GetSucceeds(ops, k) then 1 else 0) - (if PutFinds(ops, k) then 1 else 0)
      && t.opts == (if TearsDown(ops, k) then DEFAULT_OPTS else if ops[k].ExportOpts? then Clip(ops[k].o) else s.opts)
  {
    assert ops[..k + 1][..k] == ops[..k];
    EveryRunIsBalanced(ops[..k]);
  }

  lemma OneCallMounts(s: State, op: Op)
    requires Inv(s) && Legal(s, op)
    ensures var t := Apply(s, op);
      var down := (op.Put? && s.refs == 1) || (op.Get? && s.refs == 0 && FirstError(op.f) != 0);
      && (t.hostbin <==> !down && (s.hostbin || (op.MountHostbin? && Mounts(op.mkdir, op.mount))))
      && t.scratch == if down || op.UnmountScratch? then ScratchLeft(s.scratch)
           else if op.MountScratch? && Mounts(op.mkdir, op.mount) then s.scratch + 1 else s.scratch
  {
  }

  /** In every run: the references are the gets that answered 0 less the puts that found one, the
      options those set since the latest teardown, and the host programs and scratch mounts those
      mounted since, as far as eight tries at a time have not removed them. */
  lemma {:induction false} TheCallsAddUp(ops: seq<Op>, k: nat)
    requires k <= |ops| && LegalRun(ops[..k])
    ensures Run(Init(), ops[..k]).refs == Gets(ops, k) - Puts(ops, k)
    ensures Run(Init(), ops[..k]).opts == OptsSet(ops, k)
    ensures Run(Init(), ops[..k]).hostbin <==> HostbinSet(ops, k)
    ensures Run(Init(), ops[..k]).scratch == ScratchSet(ops, k)
  {
    if k > 0 {
      OneCall(ops, k - 1);
      TheCallsAddUp(ops, k - 1);
      assert Legal(Run(Init(), ops[..k - 1]), ops[k - 1]) by { assert ops[..k][..k - 1] == ops[..k - 1]; }
      OneCallMounts(Run(Init(), ops[..k - 1]), ops[k - 1]);
    }
  }

  const STACK: set<Resource> := {Tmpfs, Nfsdfs, Nfsd, Client}

  /** Releases of the four resources. */
  function StackReleases(log: Log): nat {
    if log.Start? then 0
    else StackReleases(log.before) + if log.e.Release? && log.e.r in STACK then 1 else 0
  }

  function PutCount(ops: seq<Op>): nat {
    if ops == [] then 0 else PutCount(ops[..|ops| - 1]) + if ops[|ops| - 1].Put? then 1 else 0
  }

  lemma {:induction false} ScratchReleasesNothing(n: nat, log: Log)
    ensures StackReleases(ReleaseScratch(n, log)) == StackReleases(log)
  {
    if n > 0 { ScratchReleasesNothing(n - 1, log); }
  }

  lemma OpKeepsTheStack(s: State, op: Op)
    requires s.refs > 1 || (s.refs == 1 && !op.Put?)
    ensures StackReleases(Apply(s, op).log) == StackReleases(s.log)
    ensures Apply(s, op).refs >= s.refs - if op.Put? then 1 else 0
  {
    if op.UnmountScratch? { ScratchReleasesNothing(s.scratch - ScratchLeft(s.scratch), s.log); }
  }

  /** With n references, fewer than n puts among the further calls release nothing of the stack:
      all four resources stay mounted and running. */
  lemma {:induction false} FewerPutsKeepTheStack(before: seq<Op>, further: seq<Op>)
    requires LegalRun(before + further) && PutCount(further) < Run(Init(), before).refs
    ensures var s, t := Run(Init(), before), Run(Init(), before + further);
      && StackReleases(t.log) == StackReleases(s.log)
      && t.refs >= s.refs - PutCount(further)
      && t.tmpfs && t.nfsdfs && t.nfsd && t.client
  {
    EveryRunIsBalanced(before + further);
    if further == [] {
      assert before + further == before;
    } else {
      var shorter := further[..|further| - 1];
      assert (before + further)[..|before + further| - 1] == before + shorter;
      FewerPutsKeepTheStack(before, shorter);
      OpKeepsTheStack(Run(Init(), before + shorter), further[|further| - 1]);
    }
  }

  // ---------- scratch mounts left behind ----------

  /** The k-th call gives the last reference back. */
  predicate LastPut(ops: seq<Op>, k: nat) {
    k < |ops| && ops[k].Put? && Run(Init(), ops[..k]).refs == 1
  }

  /** No last put comes with more scratch mounts than are tried. */
  ghost predicate ScratchFits(ops: seq<Op>) {
    forall k: nat :: LastPut(ops, k) ==> Run(Init(), ops[..k]).scratch <= SCRATCH_TRIES
  }

  predicate Released(s: State) {
    s.refs == 0 ==> NothingHeld(s)
  }

  ghost predicate AlwaysReleased(ops: seq<Op>) {
    forall k: nat :: k <= |ops| ==> Released(Run(Init(), ops[..k]))
  }

  lemma OpReleasesIff(s: State, op: Op)
    requires Inv(s) && Legal(s, op) && Released(s)
    ensures Released(Apply(s, op)) <==> !(op.Put? && s.refs == 1 && s.scratch > SCRATCH_TRIES)
  {
    match op
    case Get(f) =>
      if s.refs == 0 && FirstError(f) != 0 {
        BringUpIsPartial(s, f);
        TeardownClears(Deployed(s, f));
      }
    case Put => if s.refs == 1 { TeardownClears(s.(refs := 0)); }
    case _ =>
  }

  lemma PrefixesOfFront(ops: seq<Op>)
    requires ops != []
    ensures var before := ops[..|ops| - 1];
      && (AlwaysReleased(ops) <==> (AlwaysReleased(before) && Released(Run(Init(), ops))))
      && (ScratchFits(ops) <==>
           (ScratchFits(before) && (LastPut(ops, |ops| - 1) ==> Run(Init(), before).scratch <= SCRATCH_TRIES)))
      && forall k: nat :: LastPut(ops, k) <==> LastPut(before, k) || (k == |ops| - 1 && LastPut(ops, k))
  {
    var before := ops[..|ops| - 1];
    assert ops[..|ops|] == ops;
    forall k: nat | k < |ops| ensures before[..k] == ops[..k] {
    }
  }

  /** At every moment of a run without references nothing at all is held, scratch mounts included,
      exactly if no last put comes with more than eight of them. */
  lemma {:induction false} AlwaysReleasedIff(ops: seq<Op>)
    requires LegalRun(ops)
    ensures AlwaysReleased(ops) <==> ScratchFits(ops)
  {
    if ops != [] {
      var before, last := ops[..|ops| - 1], ops[|ops| - 1];
      AlwaysReleasedIff(before);
      EveryRunIsBalanced(before);
      PrefixesOfFront(ops);
      if AlwaysReleased(before) {
        assert Released(Run(Init(), before[..|before|])) && before[..|before|] == before;
        OpReleasesIff(Run(Init(), before), last);
      }
    }
  }

  lemma OneOpMore(ops: seq<Op>, op: Op)
    requires LegalRun(ops) && Legal(Run(Init(), ops), op)
    ensures LegalRun(ops + [op]) && Run(Init(), ops + [op]) == Apply(Run(Init(), ops), op)
  {
    assert (ops + [op])[..|ops|] == ops;
  }

  /** One get and then n scratch mounts. */
  function MountedTimes(f: Faults, n: nat): seq<Op> {
    if n == 0 then [Get(f)] else MountedTimes(f, n - 1) + [MountScratch(0, 0)]
  }

  lemma FirstGet(f: Faults)
    requires FirstError(f) == 0
    ensures LegalRun([Get(f)]) && Run(Init(), [Get(f)]) == Deployed(Init(), f).(refs := 1)
    ensures Run(Init(), [Get(f)]).root
  {
    assert [] + [Get(f)] == [Get(f)];
    OneOpMore([], Get(f));
  }

  lemma MountOnce(s: State)
    requires s.refs == 1
    ensures Legal(s, MountScratch(0, 0))
    ensures var t := Apply(s, MountScratch(0, 0)); t.refs == 1 && t.root == s.root && t.scratch == s.scratch + 1
  {
  }

  lemma {:induction false} MountsAddUp(f: Faults, n: nat)
    requires FirstError(f) == 0
    ensures LegalRun(MountedTimes(f, n))
    ensures var s := Run(Init(), MountedTimes(f, n)); s.refs == 1 && s.root && s.scratch == n
  {
    if n == 0 {
      FirstGet(f);
    } else {
      MountsAddUp(f, n - 1);
      MountOnce(Run(Init(), MountedTimes(f, n - 1)));
      OneOpMore(MountedTimes(f, n - 1), MountScratch(0, 0));
    }
  }

  /** After a get, n scratch mounts and a put, all but eight of them are still there. */
  lemma MountsLeftBehind(f: Faults, n: nat)
    requires FirstError(f) == 0
    ensures var ops := MountedTimes(f, n) + [Put];
      LegalRun(ops) && Run(Init(), ops).refs == 0 && Run(Init(), ops).scratch == ScratchLeft(n)
    ensures n == 9 ==> Run(Init(), MountedTimes(f, n) + [Put]).scratch == 1
  {
    MountsAddUp(f, n);
    OneOpMore(MountedTimes(f, n), Put);
  }

  // ---------- the one exception to reverse order ----------

  /** The same stack with the root path as its top: every release must take the top. */
  function StrictOrder(log: Log): Option<nat> {
    match log
    case Start => Some(0)
    case After(before, e) =>
      var d := StrictOrder(before);
      match e
      case Acquire(r, _) =>
        if r.Hostbin? || r.Scratch? then d
        else if d == Some(Level(r)) then Some(Level(r) + 1) else None
      case Release(r) =>
        if r.Hostbin? || r.Scratch? then d
        else if d == Some(Level(r) + 1) then Some(Level(r)) else None
      case _ => d
  }

  predicate DropsRoot(log: Log) {
    log.After? && (log.e == Release(Root) || DropsRoot(log.before))
  }

  /** Strictly reversed acquisition would drop the root before anything else: it is the last thing
      acquired, yet a teardown drops it last. */
  ghost predicate StrictUntilRootDrops(s: State, depth: nat) {
    StrictOrder(s.log) == if DropsRoot(s.log) then None else Some(depth)
  }

  lemma {:induction false} AcquiringIsStrict(n: nat, opts: string, log: Log)
    requires n <= CALLS
    requires StrictOrder(log) == if DropsRoot(log) then None else Some(0)
    ensures DropsRoot(AcquiredBy(n, opts, log)) == DropsRoot(log)
    ensures StrictOrder(AcquiredBy(n, opts, log)) == if DropsRoot(log) then None else Some(DepthAfter(n))
  {
    if n > 0 {
      AcquiringIsStrict(n - 1, opts, log);
    }
  }

  lemma {:induction false} ScratchIsStrict(n: nat, log: Log)
    ensures DropsRoot(ReleaseScratch(n, log)) == DropsRoot(log)
    ensures StrictOrder(ReleaseScratch(n, log)) == StrictOrder(log)
  {
    if n > 0 {
      ScratchIsStrict(n - 1, log);
    }
  }

  /** With the root still on top, stopping the client is already out of order; without it the
      stack comes down in strict order. */
  lemma StoppingIsStrict(s: State)
    requires Partial(s) && StrictUntilRootDrops(s, Depth(s) + if s.root then 1 else 0)
    ensures DropsRoot(Stopped(s).log) == DropsRoot(s.log)
    ensures StrictOrder(Stopped(s).log) == if DropsRoot(s.log) || s.root then None else Some(0)
  {
    var l1 := ReleaseIf(s.client, Client, s.log);
    var l2 := ReleaseIf(s.nfsd, Nfsd, l1);
    var l3 := ReleaseIf(s.nfsdfs, Nfsdfs, l2);
    var none := DropsRoot(s.log) || s.root;
    assert StrictOrder(l1) == if none then None else Some(Depth(s.(client := false)));
    assert StrictOrder(l2) == if none then None else Some(Depth(s.(client := false, nfsd := false)));
    assert StrictOrder(l3) == if none then None else Some(if s.tmpfs then 1 else 0);
    assert DropsRoot(l1) == DropsRoot(s.log) && DropsRoot(l2) == DropsRoot(l1) && DropsRoot(l3) == DropsRoot(l2);
  }

  lemma TeardownIsStrict(s: State)
    requires Partial(s) && StrictUntilRootDrops(s, Depth(s) + if s.root then 1 else 0)
    ensures StrictUntilRootDrops(TornDown(s), 0)
  {
    UnhostingKeepsOrder(s);
    var h := Unhosted(s);
    UnscratchingKeepsOrder(h);
    ScratchIsStrict(h.scratch - ScratchLeft(h.scratch), h.log);
    StoppingIsStrict(Unscratched(h));
  }

  lemma OpIsStrict(s: State, op: Op)
    requires Inv(s) && Legal(s, op) && StrictUntilRootDrops(s, if s.refs > 0 then 5 else 0)
    ensures StrictUntilRootDrops(Apply(s, op), if Apply(s, op).refs > 0 then 5 else 0)
  {
    match op
    case Get(f) =>
      if s.refs == 0 {
        AcquiringIsStrict(Successes(f, 0), s.opts, s.log);
        BringUpIsPartial(s, f);
        if FirstError(f) != 0 { TeardownIsStrict(Deployed(s, f)); }
      }
    case Put => if s.refs == 1 { TeardownIsStrict(s.(refs := 0)); }
    case UnmountScratch => ScratchIsStrict(s.scratch - ScratchLeft(s.scratch), s.log);
    case _ =>
  }

  lemma {:induction false} AcquiringDropsNothing(n: nat, opts: string, log: Log)
    ensures DropsRoot(AcquiredBy(n, opts, log)) == DropsRoot(log)
  {
    if n > 0 {
      AcquiringDropsNothing(n - 1, opts, log);
    }
  }

  lemma TeardownDropsRootIff(s: State)
    ensures DropsRoot(TornDown(s).log) <==> DropsRoot(s.log) || s.root
  {
    var h := Unhosted(s);
    ScratchIsStrict(h.scratch - ScratchLeft(h.scratch), h.log);
    var u := Unscratched(h);
    var l1 := ReleaseIf(u.client, Client, u.log);
    var l2 := ReleaseIf(u.nfsd, Nfsd, l1);
    var l3 := ReleaseIf(u.nfsdfs, Nfsdfs, l2);
    assert DropsRoot(l1) == DropsRoot(u.log) && DropsRoot(l2) == DropsRoot(l1) && DropsRoot(l3) == DropsRoot(l2);
    assert DropsRoot(Stopped(u).log) == DropsRoot(l3);
    assert TornDown(s).log == ReleaseIf(s.root, Root, After(Stopped(u).log, ResetOpts));
  }

  lemma OpDropsRootIff(s: State, op: Op)
    requires Inv(s) && Legal(s, op)
    ensures DropsRoot(Apply(s, op).log) <==> DropsRoot(s.log) || (op.Put? && s.refs == 1)
  {
    match op
    case Get(f) =>
      if s.refs == 0 {
        AcquiringDropsNothing(Successes(f, 0), s.opts, s.log);
        if FirstError(f) != 0 { TeardownDropsRootIff(Deployed(s, f)); }
      }
    case Put => if s.refs == 1 { TeardownDropsRootIff(s.(refs := 0)); }
    case UnmountScratch => ScratchIsStrict(s.scratch - ScratchLeft(s.scratch), s.log);
    case _ =>
  }

  /** The root path is dropped by the puts that give back the last reference, and by nothing else. */
  lemma {:induction false} RootDropsIff(ops: seq<Op>)
    requires LegalRun(ops)
    ensures DropsRoot(Run(Init(), ops).log) <==> exists k: nat :: LastPut(ops, k)
  {
    if ops != [] {
      var before := ops[..|ops| - 1];
      RootDropsIff(before);
      EveryRunIsBalanced(before);
      OpDropsRootIff(Run(Init(), before), ops[|ops| - 1]);
      PrefixesOfFront(ops);
      if ops[|ops| - 1].Put? && Run(Init(), before).refs == 1 {
        assert LastPut(ops, |ops| - 1);
      }
      if k: nat :| LastPut(before, k) {
        assert LastPut(ops, k);
      }
    }
  }

  lemma {:induction false} StrictUntilTheRootDrops(ops: seq<Op>)
    requires LegalRun(ops)
    ensures StrictUntilRootDrops(Run(Init(), ops), if Run(Init(), ops).refs > 0 then 5 else 0)
  {
    if ops != [] {
      var before := ops[..|ops| - 1];
      StrictUntilTheRootDrops(before);
      EveryRunIsBalanced(before);
      OpIsStrict(Run(Init(), before), ops[|ops| - 1]);
    }
  }

  /** Releases are in strict reverse order of acquisition, the root path included, exactly in the
      runs in which no put gives back the last reference. */
  lemma StrictOrderIffRootNeverDropped(ops: seq<Op>)
    requires LegalRun(ops)
    ensures StrictOrder(Run(Init(), ops).log).Some? <==> forall k: nat :: !LastPut(ops, k)
    ensures StrictOrder(Run(Init(), ops).log).Some? <==> !DropsRoot(Run(Init(), ops).log)
  {
    StrictUntilTheRootDrops(ops);
    RootDropsIff(ops);
  }

  /** One successful get and its put is enough: the shortest run that drops the root out of order. */
  lemma GetThenPutIsNotStrict(f: Faults)
    requires FirstError(f) == 0
    ensures LegalRun([Get(f), Put])
    ensures StrictOrder(Run(Init(), [Get(f), Put]).log).None?
  {
    FirstGet(f);
    OneOpMore([Get(f)], Put);
    var ops := [Get(f)] + [Put];
    assert ops == [Get(f), Put] && ops[..1] == [Get(f)];
    assert LastPut(ops, 1);
    StrictOrderIffRootNeverDropped(ops);
  }
}
