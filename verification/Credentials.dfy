/**
  Switching credentials: xfs_switch_creds(), xfs_seteuid(), xfs_restore_creds() and
  xfs_access(), over the kernel's reference-counted credentials.

  Kernels differ in whether override_creds()/revert_creds() take and drop a reference of
  their own; everything here is proved for both.
*/
module Credentials {
  import opened Options

  const ENOMEM := -12
  const EBUSY := -16
  const ROOT_UID := 0

  datatype Cred = Cred(uid: nat, euid: nat, suid: nat, fsuid: nat,
                       gid: nat, egid: nat, sgid: nat, fsgid: nat,
                       inheritable: set<nat>, permitted: set<nat>, effective: set<nat>)

  // ---------- the kernel ----------

  /** The live credentials with their reference counts, and the one the task runs under.
      `counted` says whether override and revert do their own counting.  `bug` is set when a
      credential is freed while current, or used after it was freed. */
  datatype Kernel = Kernel(counted: bool, creds: map<nat, Cred>, refs: map<nat, nat>,
                           current: nat, next: nat, bug: bool)
  {
    function Hold(c: nat): Kernel {
      if c in refs then this.(refs := refs[c := refs[c] + 1]) else this.(bug := true)
    }

    /** put_cred(): the last reference frees the credential, which must not be current. */
    function Put(c: nat): Kernel {
      if c !in refs || refs[c] == 0 then this.(bug := true)
      else if refs[c] > 1 then this.(refs := refs[c := refs[c] - 1])
      else this.(creds := creds - {c}, refs := refs - {c}, bug := bug || c == current)
    }

    /** prepare_creds(): a copy of the current credential with one reference, which the caller
        then edits. */
    function Prepare(edited: Cred): Kernel {
      this.(creds := creds[next := edited], refs := refs[next := 1], next := next + 1)
    }

    function Override(c: nat): Kernel {
      var held := if counted then Hold(c) else this;
      held.(current := c, bug := held.bug || c !in creds)
    }

    function Revert(prior: nat): Kernel {
      var back := this.(current := prior, bug := bug || prior !in creds);
      if counted then back.Put(current) else back
    }

    ghost predicate Valid() {
      && creds.Keys == refs.Keys
      && current in creds && refs[current] > 0
      && !bug
      && forall c :: c in creds ==> c < next
    }
  }

  /** Whatever touches a credential that is gone, or frees the one in use, is noticed, and stays so. */
  lemma MisuseIsNoticed(k: Kernel, c: nat)
    requires k.creds.Keys == k.refs.Keys
    ensures c !in k.creds ==> k.Hold(c).bug && k.Put(c).bug && k.Override(c).bug && k.Revert(c).bug
    ensures c in k.creds && k.refs[c] == 1 && c == k.current ==> k.Put(c).bug
    ensures k.bug ==> k.Hold(c).bug && k.Put(c).bug && k.Override(c).bug && k.Revert(c).bug
  {
  }

  /** The fixture's two statics beside the kernel's state. */
  datatype World = World(k: Kernel, saved: Option<nat>, over: Option<nat>)

  // ---------- what the operations install ----------

  function Unprivileged(c: Cred, uid: nat, gid: nat): Cred {
    Cred(uid, uid, uid, uid, gid, gid, gid, gid, {}, {}, {})
  }

  /** setresuid(-1, uid, -1); `effective` is what the security module makes of it. */
  function Seteuided(c: Cred, uid: nat, effective: set<nat>): Cred {
    c.(euid := uid, fsuid := uid, effective := effective)
  }

  /** The identity access(2) checks with: the real ids, and root's capabilities for root alone. */
  function RealIdentity(c: Cred): Cred {
    c.(fsuid := c.uid, fsgid := c.gid,
       effective := if c.uid == ROOT_UID then c.permitted else {})
  }

  /** Field by field: the filesystem ids are the real ones whatever the effective ones are, a real
      root has all it is permitted, anyone else nothing, and the rest stays. */
  lemma ChecksWithTheRealIds(c: Cred)
    ensures var r := RealIdentity(c);
      && r.fsuid == c.uid && r.fsgid == c.gid
      && (c.uid == 0 ==> r.effective == c.permitted) && (c.uid != 0 ==> r.effective == {})
      && r.uid == c.uid && r.euid == c.euid && r.suid == c.suid
      && r.gid == c.gid && r.egid == c.egid && r.sgid == c.sgid
      && r.inheritable == c.inheritable && r.permitted == c.permitted
  {
  }

  /** A seteuid in between, whatever it asks for and whatever capabilities it leaves, changes nothing
      of what access(2) checks with; it moves the effective and the filesystem user id only. */
  lemma SeteuidDoesNotChangeTheCheck(c: Cred, uid: nat, effective: set<nat>)
    ensures var e := Seteuided(c, uid, effective);
      var r, was := RealIdentity(e), RealIdentity(c);
      && r.fsuid == was.fsuid && r.fsgid == was.fsgid && r.effective == was.effective
      && e.euid == uid && e.fsuid == uid && e.effective == effective
      && e.uid == c.uid && e.suid == c.suid
      && e.gid == c.gid && e.egid == c.egid && e.sgid == c.sgid && e.fsgid == c.fsgid
      && e.inheritable == c.inheritable && e.permitted == c.permitted
  {
  }

  /** Root stays root for the check, though it runs as somebody else. */
  lemma RootStaysRootForTheCheck(c: Cred, uid: nat, effective: set<nat>)
    requires c.uid == 0
    ensures var r := RealIdentity(Seteuided(c, uid, effective)); r.fsuid == 0 && r.effective == c.permitted
  {
    SeteuidDoesNotChangeTheCheck(c, uid, effective);
    ChecksWithTheRealIds(c);
  }

  /** A switched task has one user id, one group id and no capability, neither for what it does nor
      for the check, unless it switches to root, who is permitted nothing either. */
  lemma SwitchedIdsAreAllAlike(c: Cred, uid: nat, gid: nat)
    ensures var u := Unprivileged(c, uid, gid);
      && u.uid == u.euid == u.suid == u.fsuid == uid && u.gid == u.egid == u.sgid == u.fsgid == gid
      && u.inheritable == u.permitted == u.effective == {}
      && RealIdentity(u) == u
  {
  }

  /** One override in place: `edited` is current under a fresh number, and the credential that
      was current is remembered. */
  function Installed(w: World, edited: Cred): World {
    var k := w.k;
    World(k.(creds := k.creds[k.next := edited],
             refs := k.refs[k.next := if k.counted then 2 else 1],
             current := k.next, next := k.next + 1),
          Some(k.current), Some(k.next))
  }

  /** The override gone: freed outright, with its predecessor current again. */
  function Reverted(w: World): World {
    if w.saved.None? || w.over.None? then w
    else World(w.k.(creds := w.k.creds - {w.over.value}, refs := w.k.refs - {w.over.value},
                    current := w.saved.value), None, None)
  }

  /** From then on the task runs under the edited credential, until the one it ran under returns. */
  lemma InstalledRunsUntilReverted(w: World, edited: Cred)
    requires w.k.Valid() && w.saved.None?
    ensures var i := Installed(w, edited);
      && i.k.current in i.k.creds && i.k.creds[i.k.current] == edited
      && i.k.current !in w.k.creds && i.saved == Some(w.k.current)
      && (forall c :: c in w.k.creds ==> c in i.k.creds && i.k.creds[c] == w.k.creds[c] && i.k.refs[c] == w.k.refs[c])
      && Reverted(i).k == w.k.(next := w.k.next + 1) && Reverted(i).saved.None?
  {
    var i := Installed(w, edited);
    assert i.k.creds - {w.k.next} == w.k.creds && i.k.refs - {w.k.next} == w.k.refs;
  }

  // ---------- one run of the fixture's calls ----------

  /** The state between calls, relative to the kernel the run started from. */
  ghost predicate Inv(w: World, k0: Kernel) {
    && k0.Valid()
    && w.k.counted == k0.counted && w.k.next >= k0.next
    && if w.saved.None?
       then w.over.None? && w.k == k0.(next := w.k.next)
       else
         && w.saved == Some(k0.current) && w.over == Some(w.k.current)
         && var o := w.k.current;
            && k0.next <= o < w.k.next
            && o in w.k.creds
            && w.k == Kernel(k0.counted, k0.creds[o := w.k.creds[o]],
                             k0.refs[o := if k0.counted then 2 else 1], o, w.k.next, false)
  }

  lemma InvIsValid(w: World, k0: Kernel)
    requires Inv(w, k0)
    ensures w.k.Valid()
  {
  }

  /** An override that is reverted and put leaves the kernel as it was, but for the number used. */
  lemma OverrideIsUndone(k: Kernel, edited: Cred)
    requires k.Valid()
    ensures var over := k.Prepare(edited).Override(k.next);
      && over.current in over.creds && over.creds[over.current] == edited
      && over.Revert(k.current).Put(k.next) == k.(next := k.next + 1)
  {
    var over := k.Prepare(edited).Override(k.next);
    assert over.current == k.next && !over.bug;
    var back := over.Revert(k.current);
    assert back.refs == k.refs[k.next := 1] && back.creds == k.creds[k.next := edited];
    assert k.refs[k.next := 1] - {k.next} == k.refs && k.creds[k.next := edited] - {k.next} == k.creds;
  }

  class Task {
    var k: Kernel
    var saved: Option<nat>
    var over: Option<nat>
    /** The kernel as it was when the run started. */
    ghost const k0: Kernel

    ghost function Abs(): World
      reads this
    {
      World(k, saved, over)
    }

    ghost predicate Valid()
      reads this
    {
      Inv(Abs(), k0)
    }

    constructor (kernel: Kernel)
      requires kernel.Valid()
      ensures Valid() && k0 == kernel && Abs() == World(kernel, None, None)
    {
      k, saved, over, k0 := kernel, None, None, kernel;
    }

    method SwitchCreds(uid: nat, gid: nat, memory: bool) returns (err: int)
      requires Valid()
      modifies this
      ensures Valid()
      ensures err == if old(saved).Some? then EBUSY else if !memory then ENOMEM else 0
      ensures Abs() == Apply(old(Abs()), Switch(uid, gid, memory))
      ensures Abs() == if err != 0 then old(Abs())
                       else Installed(old(Abs()), Unprivileged(old(k.creds[k.current]), uid, gid))
    {
      if saved.Some? { return EBUSY; }
      if !memory { return ENOMEM; }
      var c := k.next;
      k := k.Prepare(Unprivileged(k.creds[k.current], uid, gid));
      over := Some(c);
      saved := Some(k.current);
      k := k.Override(c);
      err := 0;
    }

    /** A refusal by the security module drops the half-made credential again. */
    method Seteuid(uid: nat, memory: bool, lsm: int, effective: set<nat>) returns (err: int)
      requires Valid()
      modifies this
      ensures Valid()
      ensures err == if old(saved).Some? then EBUSY else if !memory then ENOMEM else lsm
      ensures Abs() == Apply(old(Abs()), SetEuid(uid, memory, lsm, effective))
      ensures Abs() == if old(saved).Some? || !memory then old(Abs())
                       else if lsm != 0 then old(Abs()).(k := old(k).(next := old(k.next) + 1))
                       else Installed(old(Abs()), Seteuided(old(k.creds[k.current]), uid, effective))
    {
      if saved.Some? { return EBUSY; }
      if !memory { return ENOMEM; }
      var c := k.next;
      k := k.Prepare(Seteuided(k.creds[k.current], uid, effective));
      err := lsm;
      if err != 0 {
        k := k.Put(c);
        return;
      }
      over := Some(c);
      saved := Some(k.current);
      k := k.Override(c);
    }

    method RestoreCreds()
      requires Valid()
      modifies this
      ensures Valid() && saved == None
      ensures Abs() == Reverted(old(Abs())) == Apply(old(Abs()), Restore)
    {
      if saved.None? { return; }
      k := k.Revert(saved.value);
      k := k.Put(over.value);
      saved, over := None, None;
    }

    /** `permission` stands for inode_permission() on the path's inode. */
    method Access(memory: bool, lookup: int, permission: Cred -> int) returns (err: int)
      requires Valid()
      modifies this
      ensures Valid()
      ensures err == if !memory then ENOMEM else if lookup != 0 then lookup
                     else permission(RealIdentity(old(k.creds[k.current])))
      ensures Abs() == Apply(old(Abs()), Check(memory))
      ensures Abs() == if !memory then old(Abs()) else old(Abs()).(k := old(k).(next := old(k.next) + 1))
    {
      if !memory { return ENOMEM; }
      InvIsValid(Abs(), k0);
      OverrideIsUndone(k, RealIdentity(k.creds[k.current]));
      var c := k.next;
      var prior := k.current;
      k := k.Prepare(RealIdentity(k.creds[k.current]));
      k := k.Override(c);
      err := lookup;
      if err == 0 {
        err := permission(k.creds[k.current]);
      }
      k := k.Revert(prior);
      k := k.Put(c);
    }
  }

  // ---------- whole runs ----------

  datatype Op =
    | Switch(uid: nat, gid: nat, memory: bool)
    | SetEuid(uid: nat, memory: bool, lsm: int, effective: set<nat>)
    | Restore
    | Check(memory: bool)

  function Burned(w: World): World {
    w.(k := w.k.(next := w.k.next + 1))
  }

  /** The state each method's contract promises. */
  function Apply(w: World, op: Op): World
    requires w.k.current in w.k.creds
  {
    var now := w.k.creds[w.k.current];
    match op
    case Switch(uid, gid, memory) =>
      if w.saved.Some? || !memory then w else Installed(w, Unprivileged(now, uid, gid))
    case SetEuid(uid, memory, lsm, effective) =>
      if w.saved.Some? || !memory then w
      else if lsm != 0 then Burned(w)
      else Installed(w, Seteuided(now, uid, effective))
    case Restore => Reverted(w)
    case Check(memory) => if memory then Burned(w) else w
  }

  lemma OpKeepsInv(w: World, op: Op, k0: Kernel)
    requires Inv(w, k0)
    ensures Inv(Apply(w, op), k0)
  {
    if op.Restore? && w.saved.Some? {
      var o := w.k.current;
      assert o !in k0.creds && o !in k0.refs;
      assert w.k.creds - {o} == k0.creds && w.k.refs - {o} == k0.refs;
    }
  }

  ghost predicate IsRun(k0: Kernel, ops: seq<Op>, worlds: seq<World>) {
    && |worlds| == |ops| + 1
    && worlds[0] == World(k0, None, None)
    && forall i :: 0 <= i < |ops| ==>
         worlds[i].k.current in worlds[i].k.creds && worlds[i + 1] == Apply(worlds[i], ops[i])
  }

  lemma {:induction false} RunKeepsInv(k0: Kernel, ops: seq<Op>, worlds: seq<World>, n: nat)
    requires k0.Valid() && IsRun(k0, ops, worlds) && n <= |ops|
    ensures Inv(worlds[n], k0)
  {
    if n > 0 {
      RunKeepsInv(k0, ops, worlds, n - 1);
      OpKeepsInv(worlds[n - 1], ops[n - 1], k0);
    }
  }

  /** Under either kernel, in any sequence of calls: no credential is ever freed while current or
      used afterwards, at most one credential is live beyond those the run started with, and
      whenever nothing is saved the task runs under its original credential with every original
      count restored and nothing leaked. */
  lemma EveryRunIsBalanced(k0: Kernel, ops: seq<Op>, worlds: seq<World>, n: nat)
    requires k0.Valid() && IsRun(k0, ops, worlds) && n <= |ops|
    ensures !worlds[n].k.bug
    ensures k0.creds.Keys <= worlds[n].k.creds.Keys && |worlds[n].k.creds.Keys - k0.creds.Keys| <= 1
    ensures worlds[n].k.current in worlds[n].k.refs && worlds[n].k.refs[worlds[n].k.current] > 0
    ensures worlds[n].saved.None? ==>
      && worlds[n].k.current == k0.current
      && worlds[n].k.creds == k0.creds && worlds[n].k.refs == k0.refs
  {
    RunKeepsInv(k0, ops, worlds, n);
    var w := worlds[n];
    if w.saved.Some? {
      assert w.k.creds.Keys - k0.creds.Keys == {w.k.current};
    } else {
      assert w.k.creds.Keys - k0.creds.Keys == {};
    }
  }

  // ---------- why the put comes last ----------

  /** access(2)'s own order: the reference from prepare_creds() is dropped while the override is
      still in place. */
  function EarlyPut(k: Kernel, edited: Cred): Kernel {
    var c := k.next;
    k.Prepare(edited).Override(c).Put(c).Revert(k.current)
  }

  function LatePut(k: Kernel, edited: Cred): Kernel {
    var c := k.next;
    k.Prepare(edited).Override(c).Revert(k.current).Put(c)
  }

  /** Dropping it early is correct exactly on kernels that count the override themselves; dropping
      it after the revert is correct on both, and leaves the same kernel behind. */
  lemma EarlyPutNeedsCountedOverrides(k: Kernel, edited: Cred)
    requires k.Valid()
    ensures LatePut(k, edited) == k.(next := k.next + 1)
    ensures EarlyPut(k, edited).bug <==> !k.counted
    ensures k.counted ==> EarlyPut(k, edited) == LatePut(k, edited)
  {
    var c := k.next;
    assert c !in k.creds && c !in k.refs;
    assert k.creds[c := edited] - {c} == k.creds;
    assert k.refs[c := 1] - {c} == k.refs && k.refs[c := 1][c := 2][c := 1] == k.refs[c := 1];
  }
}
