/**
  generic/007: a table of {exists, inode number} against which the answer to every create,
  remove and lookup is checked.
*/
module NameTable {

  const ENOENT := -2
  const EEXIST := -17

  datatype Op = Create | Remove | Lookup

  /** What the kernel answered: the operation's error, and the error and inode number of the stat
      that follows a create or is the lookup. */
  datatype Reply = Reply(err: int, statErr: int, ino: nat)

  /** One transaction on name number i. */
  datatype Event = Event(op: Op, i: nat, reply: Reply)

  // ---------- what a directory can answer ----------

  type Directory = map<nat, nat>

  /** A directory that maps these names to these inode numbers can answer this. */
  predicate Possible(d: Directory, e: Event) {
    match e.op
    case Create => if e.i in d then e.reply.err == EEXIST else e.reply.err == 0 && e.reply.statErr == 0
    case Remove => e.reply.err == if e.i in d then 0 else ENOENT
    case Lookup => if e.i in d then e.reply.statErr == 0 && e.reply.ino == d[e.i] else e.reply.statErr == ENOENT
  }

  function After(d: Directory, e: Event): Directory {
    match e.op
    case Create => if e.i in d then d else d[e.i := e.reply.ino]
    case Remove => d - {e.i}
    case Lookup => d
  }

  function Replay(events: seq<Event>): Directory {
    if events == [] then map[] else After(Replay(events[..|events| - 1]), events[|events| - 1])
  }

  /** Every answer is possible after the ones before it. */
  predicate IsTrace(events: seq<Event>) {
    events == [] ||
    (IsTrace(events[..|events| - 1]) && Possible(Replay(events[..|events| - 1]), events[|events| - 1]))
  }

  lemma OneMoreEvent(events: seq<Event>, k: nat)
    requires k < |events|
    ensures Replay(events[..k + 1]) == After(Replay(events[..k]), events[k])
    ensures IsTrace(events[..k + 1]) <==> IsTrace(events[..k]) && Possible(Replay(events[..k]), events[k])
  {
    assert events[..k + 1][..k] == events[..k];
  }

  lemma {:induction false} TracesHaveTracePrefixes(events: seq<Event>, k: nat)
    requires k <= |events| && IsTrace(events)
    ensures IsTrace(events[..k])
  {
    if k < |events| {
      TracesHaveTracePrefixes(events[..|events| - 1], k);
      assert events[..|events| - 1][..k] == events[..k];
    } else {
      assert events[..k] == events;
    }
  }

  // ---------- what a trace tells about one name ----------

  /** The k-th event makes the name. */
  predicate Makes(events: seq<Event>, k: nat, i: nat) {
    k < |events| && events[k].op == Create && events[k].i == i && events[k].reply.err == 0
  }

  predicate Unmakes(events: seq<Event>, k: nat, i: nat) {
    k < |events| && events[k].op == Remove && events[k].i == i && events[k].reply.err == 0
  }

  /** Made by event k and not removed since, before event n. */
  ghost predicate MadeAndKept(events: seq<Event>, k: nat, n: nat, i: nat) {
    k < n && Makes(events, k, i) && forall j: nat :: k < j < n ==> !Unmakes(events, j, i)
  }

  /** In a trace a name is there exactly if it was made and not removed since, and then with the
      inode number it was made with. */
  lemma {:induction false} ThereIffMadeAndKept(events: seq<Event>, n: nat, i: nat)
    requires n <= |events| && IsTrace(events[..n])
    ensures i in Replay(events[..n]) <==> exists k: nat :: MadeAndKept(events, k, n, i)
    ensures forall k: nat :: MadeAndKept(events, k, n, i) ==> Replay(events[..n])[i] == events[k].reply.ino
  {
    if n > 0 {
      var e := events[n - 1];
      OneMoreEvent(events, n - 1);
      ThereIffMadeAndKept(events, n - 1, i);
      if Makes(events, n - 1, i) {
        assert MadeAndKept(events, n - 1, n, i);
      }
      forall k: nat ensures MadeAndKept(events, k, n, i) <==>
        ((MadeAndKept(events, k, n - 1, i) && !Unmakes(events, n - 1, i)) || (k == n - 1 && Makes(events, k, i)))
      {
        KeptOneLater(events, k, n - 1, i);
      }
    }
  }

  lemma KeptOneLater(events: seq<Event>, k: nat, n: nat, i: nat)
    ensures MadeAndKept(events, k, n + 1, i) <==>
      ((MadeAndKept(events, k, n, i) && !Unmakes(events, n, i)) || (k == n && Makes(events, k, i)))
  {
  }

  /** So in an accepted transcript a create answers EEXIST, a remove 0, and a lookup the inode number
      of the create, exactly if the name was made and not removed since; and else a create 0, a
      remove and a lookup ENOENT. */
  lemma AnswersInATrace(events: seq<Event>, n: nat)
    requires n < |events| && IsTrace(events)
    ensures var e := events[n];
      var there := exists k: nat :: MadeAndKept(events, k, n, e.i);
      && (e.op == Create ==> e.reply.err == if there then EEXIST else 0)
      && (e.op == Create && !there ==> e.reply.statErr == 0)
      && (e.op == Remove ==> e.reply.err == if there then 0 else ENOENT)
      && (e.op == Lookup ==> e.reply.statErr == if there then 0 else ENOENT)
      && (e.op == Lookup ==> forall k: nat :: MadeAndKept(events, k, n, e.i) ==> e.reply.ino == events[k].reply.ino)
  {
    TracesHaveTracePrefixes(events, n + 1);
    OneMoreEvent(events, n);
    ThereIffMadeAndKept(events, n, events[n].i);
  }

  // ---------- the checker ----------

  /** One slot of the table; a removed name keeps its old inode number. */
  datatype Slot = Slot(there: bool, ino: nat)

  class Checker {
    const tab: array<Slot>

    ghost function Table(): Directory
      reads tab
    {
      map i: nat | i < tab.Length && tab[i].there :: tab[i].ino
    }

    constructor (names: nat)
      ensures Table() == map[] && tab.Length == names && fresh(tab)
    {
      tab := new Slot[names](_ => Slot(false, 0));
    }

    /** g007_create(): false stands for a failed assertion. */
    method CheckCreate(i: nat, reply: Reply) returns (ok: bool)
      requires i < tab.Length
      modifies tab
      ensures ok <==> Possible(old(Table()), Event(Create, i, reply))
      ensures ok ==> Table() == After(old(Table()), Event(Create, i, reply))
    {
      if reply.err == 0 {
        if tab[i].there || reply.statErr != 0 { return false; }
        tab[i] := Slot(true, reply.ino);
        return true;
      }
      return reply.err == EEXIST && tab[i].there;
    }

    method CheckRemove(i: nat, reply: Reply) returns (ok: bool)
      requires i < tab.Length
      modifies tab
      ensures ok <==> Possible(old(Table()), Event(Remove, i, reply))
      ensures ok ==> Table() == After(old(Table()), Event(Remove, i, reply))
    {
      if reply.err == 0 {
        if !tab[i].there { return false; }
        tab[i] := Slot(false, tab[i].ino);
        return true;
      }
      return reply.err == ENOENT && !tab[i].there;
    }

    method CheckLookup(i: nat, reply: Reply) returns (ok: bool)
      requires i < tab.Length
      ensures ok <==> Possible(Table(), Event(Lookup, i, reply))
    {
      if reply.statErr == 0 {
        return tab[i].there && reply.ino == tab[i].ino;
      }
      return reply.statErr == ENOENT && !tab[i].there;
    }
  }

  /** The loop accepts a transcript exactly if it is a trace of a map from names to inode numbers. */
  method RunTest(names: nat, events: seq<Event>) returns (ok: bool)
    requires forall k :: 0 <= k < |events| ==> events[k].i < names
    ensures ok <==> IsTrace(events)
  {
    var c := new Checker(names);
    for k := 0 to |events|
      invariant fresh(c.tab) && c.tab.Length == names
      invariant IsTrace(events[..k]) && c.Table() == Replay(events[..k])
    {
      OneMoreEvent(events, k);
      var e := events[k];
      match e.op {
        case Create => ok := c.CheckCreate(e.i, e.reply);
        case Remove => ok := c.CheckRemove(e.i, e.reply);
        case Lookup => ok := c.CheckLookup(e.i, e.reply);
      }
      if !ok {
        if IsTrace(events) { TracesHaveTracePrefixes(events, k + 1); }
        return;
      }
    }
    assert events[..|events|] == events;
    ok := true;
  }

  // ---------- names do not interfere ----------

  /** The transactions on one name. */
  function OnName(events: seq<Event>, i: nat): seq<Event> {
    if events == [] then []
    else
      var last := events[|events| - 1];
      OnName(events[..|events| - 1], i) + if last.i == i then [last] else []
  }

  lemma {:induction false} ReplayOfOneName(events: seq<Event>, i: nat)
    ensures i in Replay(OnName(events, i)) <==> i in Replay(events)
    ensures i in Replay(events) ==> Replay(OnName(events, i))[i] == Replay(events)[i]
  {
    if events != [] {
      var front, last := events[..|events| - 1], events[|events| - 1];
      ReplayOfOneName(front, i);
      if last.i == i {
        assert OnName(events, i)[..|OnName(events, i)| - 1] == OnName(front, i);
      } else {
        assert OnName(events, i) == OnName(front, i);
      }
    }
  }

  lemma OneNameOneMore(events: seq<Event>, i: nat)
    requires events != []
    ensures var front, last := events[..|events| - 1], events[|events| - 1];
      IsTrace(OnName(events, i)) <==>
        IsTrace(OnName(front, i)) && (i == last.i ==> Possible(Replay(front), last))
  {
    var front, last := events[..|events| - 1], events[|events| - 1];
    if i == last.i {
      ReplayOfOneName(front, i);
      var mine := OnName(events, i);
      assert mine[..|mine| - 1] == OnName(front, i) && mine[|mine| - 1] == last;
    } else {
      assert OnName(events, i) == OnName(front, i);
    }
  }

  ghost predicate EachNameIsTraced(events: seq<Event>) {
    forall i: nat :: IsTrace(OnName(events, i))
  }

  /** A transcript is accepted exactly if, name by name, the transactions on that name are. */
  lemma {:induction false} NamesAreIndependent(events: seq<Event>)
    ensures IsTrace(events) <==> EachNameIsTraced(events)
  {
    if events != [] {
      var front, last := events[..|events| - 1], events[|events| - 1];
      NamesAreIndependent(front);
      OneNameOneMore(events, last.i);
      forall i: nat ensures IsTrace(OnName(events, i)) <==>
        IsTrace(OnName(front, i)) && (i == last.i ==> Possible(Replay(front), last))
      {
        OneNameOneMore(events, i);
      }
      assert EachNameIsTraced(events) ==> EachNameIsTraced(front);
    }
  }
}
