/**
  generic/070: random set, get, remove and list operations on extended attributes, checked
  against a table of 16-bit generation numbers in which 0 means absent.
*/
module XattrStorm {
  import Decimal

  const ENODATA := -61
  const WRAP := 65536

  /** An operation on attribute a of file f, with the kernel's answer. */
  datatype Event =
    | Set(f: nat, a: nat, err: int)
    | Get(f: nat, a: nat, n: int, val: string)
    | Remove(f: nat, a: nat, err: int)
    | List(f: nat, count: int)

  /** The value the g-th generation writes. */
  function Value(g: nat): string {
    "g" + Decimal.Print(g)
  }

  /** What an operation makes of the number of sets of attribute a of file f. */
  function Counted(sets: nat, e: Event, f: nat, a: nat): nat {
    match e
    case Set(f', a', _) => if f' == f && a' == a then sets + 1 else sets
    case Remove(f', a', _) => if f' == f && a' == a then 0 else sets
    case _ => sets
  }

  /** How often the attribute has been set since it was last removed. */
  function Sets(events: seq<Event>, f: nat, a: nat): nat {
    if events == [] then 0
    else Counted(Sets(events[..|events| - 1], f, a), events[|events| - 1], f, a)
  }

  /** The value that the next set of the attribute writes. */
  function Written(events: seq<Event>, f: nat, a: nat): string {
    Value((Sets(events, f, a) + 1) % WRAP)
  }

  // ---------- what the attributes can answer ----------

  /** The attributes of all files: (file, name) to value. */
  type Attributes = map<(nat, nat), string>

  function Attrs(events: seq<Event>): Attributes {
    if events == [] then map[]
    else
      var before := events[..|events| - 1];
      match events[|events| - 1]
      case Set(f, a, _) => Attrs(before)[(f, a) := Written(before, f, a)]
      case Remove(f, a, _) => Attrs(before) - {(f, a)}
      case _ => Attrs(before)
  }

  function Present(attrs: Attributes, f: nat, names: nat): set<nat> {
    set a | 0 <= a < names && (f, a) in attrs
  }

  /** Files with these attributes can answer this. */
  ghost predicate Possible(attrs: Attributes, e: Event, names: nat) {
    match e
    case Set(_, _, err) => err == 0
    case Get(f, a, n, val) =>
      if (f, a) !in attrs then n == ENODATA
      else n == |attrs[(f, a)]| && n <= |val| && val[..n] == attrs[(f, a)]
    case Remove(f, a, err) => err == if (f, a) in attrs then 0 else ENODATA
    case List(f, count) => count == |Present(attrs, f, names)|
  }

  ghost predicate IsTrace(events: seq<Event>, names: nat) {
    forall k :: 0 <= k < |events| ==> Possible(Attrs(events[..k]), events[k], names)
  }

  /** An attribute is there exactly if it has been set since its last removal, and holds what the
      latest set wrote. */
  lemma {:induction false} AttrsAreTheSets(events: seq<Event>, f: nat, a: nat)
    ensures (f, a) in Attrs(events) <==> Sets(events, f, a) > 0
    ensures (f, a) in Attrs(events) ==> Attrs(events)[(f, a)] == Value(Sets(events, f, a) % WRAP)
  {
    if events != [] {
      AttrsAreTheSets(events[..|events| - 1], f, a);
    }
  }

  /** The k-th event sets the attribute. */
  predicate SetsAt(events: seq<Event>, k: nat, f: nat, a: nat) {
    k < |events| && events[k].Set? && events[k].f == f && events[k].a == a
  }

  predicate TouchedAt(events: seq<Event>, k: nat, f: nat, a: nat) {
    SetsAt(events, k, f, a) || (k < |events| && events[k].Remove? && events[k].f == f && events[k].a == a)
  }

  /** Event k is the latest before event n to set or remove the attribute, and it sets it. */
  ghost predicate LatestSet(events: seq<Event>, k: nat, n: nat, f: nat, a: nat) {
    k < n && SetsAt(events, k, f, a) && forall j: nat :: k < j < n ==> !TouchedAt(events, j, f, a)
  }

  lemma AttrsOneLater(events: seq<Event>, n: nat)
    requires n < |events|
    ensures Attrs(events[..n + 1]) ==
      match events[n]
      case Set(f, a, _) => Attrs(events[..n])[(f, a) := Written(events[..n], f, a)]
      case Remove(f, a, _) => Attrs(events[..n]) - {(f, a)}
      case _ => Attrs(events[..n])
  {
    assert events[..n + 1][..n] == events[..n];
  }

  lemma LatestOneLater(events: seq<Event>, k: nat, n: nat, f: nat, a: nat)
    ensures LatestSet(events, k, n + 1, f, a) <==>
      ((LatestSet(events, k, n, f, a) && !TouchedAt(events, n, f, a)) || (k == n && SetsAt(events, k, f, a)))
  {
  }

  /** An attribute is there exactly if its latest set or removal was a set, with the value written
      then. */
  lemma {:induction false} AttrsAreTheLatestSets(events: seq<Event>, n: nat, f: nat, a: nat)
    requires n <= |events|
    ensures (f, a) in Attrs(events[..n]) <==> exists k: nat :: LatestSet(events, k, n, f, a)
    ensures forall k: nat :: LatestSet(events, k, n, f, a) ==>
      Attrs(events[..n])[(f, a)] == Written(events[..k], f, a)
  {
    if n > 0 {
      AttrsAreTheLatestSets(events, n - 1, f, a);
      AttrsOneLater(events, n - 1);
      if SetsAt(events, n - 1, f, a) {
        assert LatestSet(events, n - 1, n, f, a);
      }
      forall k: nat ensures LatestSet(events, k, n, f, a) <==>
        ((LatestSet(events, k, n - 1, f, a) && !TouchedAt(events, n - 1, f, a)) || (k == n - 1 && SetsAt(events, k, f, a)))
      {
        LatestOneLater(events, k, n - 1, f, a);
      }
    }
  }

  /** No value is written twice in fewer than 65536 sets without a removal, so a stale value shows. */
  lemma ValuesDiffer(g: nat, h: nat)
    requires g % WRAP != h % WRAP
    ensures Value(g % WRAP) != Value(h % WRAP)
  {
    if Value(g % WRAP) == Value(h % WRAP) {
      assert Value(g % WRAP)[1..] == Decimal.Print(g % WRAP) && Value(h % WRAP)[1..] == Decimal.Print(h % WRAP);
      Decimal.PrintIsInjective(g % WRAP, h % WRAP);
    }
  }

  lemma {:induction false} SetsGrow(events: seq<Event>, j: nat, k: nat, f: nat, a: nat)
    requires j < k <= |events| && SetsAt(events, j, f, a)
    requires forall i: nat :: j < i < k && TouchedAt(events, i, f, a) ==> SetsAt(events, i, f, a)
    ensures Sets(events[..j], f, a) < Sets(events[..k], f, a) <= Sets(events[..j], f, a) + (k - j)
    decreases k
  {
    assert events[..k][..k - 1] == events[..k - 1];
    if k - 1 > j {
      SetsGrow(events, j, k - 1, f, a);
      assert TouchedAt(events, k - 1, f, a) ==> SetsAt(events, k - 1, f, a);
    }
  }

  lemma StaleValuesShow(events: seq<Event>, j: nat, k: nat, f: nat, a: nat)
    requires j < k < |events| && k - j < WRAP && SetsAt(events, j, f, a) && SetsAt(events, k, f, a)
    requires forall i: nat :: j < i < k && TouchedAt(events, i, f, a) ==> SetsAt(events, i, f, a)
    ensures Written(events[..j], f, a) != Written(events[..k], f, a)
  {
    SetsGrow(events, j, k, f, a);
    var g, d := Sets(events[..j], f, a) + 1, Sets(events[..k], f, a) - Sets(events[..j], f, a);
    NotAMultiple(g, d);
    ValuesDiffer(g, g + d);
  }

  lemma NotAMultiple(g: nat, d: nat)
    requires 0 < d < WRAP
    ensures g % WRAP != (g + d) % WRAP
  {
    var q, r := g / WRAP, (g + d) / WRAP;
    assert g == WRAP * q + g % WRAP && g + d == WRAP * r + (g + d) % WRAP;
  }

  /** The generation has not wrapped round to the mark for absent. */
  predicate Unwrapped(sets: nat) {
    sets == 0 || sets % WRAP != 0
  }

  ghost predicate AllUnwrapped(events: seq<Event>, f: nat, names: nat) {
    forall a: nat :: a < names ==> Unwrapped(Sets(events, f, a))
  }

  /** The operation looks at no attribute whose generation has wrapped to 0. */
  ghost predicate LooksClean(events: seq<Event>, e: Event, names: nat) {
    match e
    case Set(_, _, _) => true
    case List(f, _) => AllUnwrapped(events, f, names)
    case _ => Unwrapped(Sets(events, e.f, e.a))
  }

  ghost predicate IsClean(events: seq<Event>, names: nat) {
    forall k :: 0 <= k < |events| ==> LooksClean(events[..k], events[k], names)
  }

  // ---------- the checker ----------

  lemma OneMoreEvent(events: seq<Event>, e: Event)
    ensures forall f: nat, a: nat :: Sets(events + [e], f, a) == Counted(Sets(events, f, a), e, f, a)
  {
    assert (events + [e])[..|events|] == events;
  }

  function Marked(events: seq<Event>, f: nat, names: nat): set<nat> {
    set a | 0 <= a < names && Sets(events, f, a) % WRAP != 0
  }

  /** What the checker demands of the answer, given the number in its table. */
  ghost predicate Checked(events: seq<Event>, e: Event, names: nat) {
    match e
    case Set(_, _, err) => err == 0
    case Get(f, a, n, val) =>
      var g := Sets(events, f, a) % WRAP;
      if g == 0 then n == ENODATA else n == |Value(g)| && n <= |val| && val[..n] == Value(g)
    case Remove(f, a, err) => err == if Sets(events, f, a) % WRAP == 0 then ENODATA else 0
    case List(f, count) => count == |Marked(events, f, names)|
  }

  lemma ProperSubsetIsSmaller(a: set<nat>, b: set<nat>)
    requires a <= b
    ensures |a| <= |b| && (|a| == |b| <==> a == b)
  {
    assert b == a + (b - a);
  }

  lemma MarkedIsPresentIff(events: seq<Event>, f: nat, names: nat)
    ensures Marked(events, f, names) <= Present(Attrs(events), f, names)
    ensures |Marked(events, f, names)| == |Present(Attrs(events), f, names)| <==> AllUnwrapped(events, f, names)
  {
    var marked, present := Marked(events, f, names), Present(Attrs(events), f, names);
    forall a: nat ensures (f, a) in Attrs(events) <==> Sets(events, f, a) > 0 {
      AttrsAreTheSets(events, f, a);
    }
    ProperSubsetIsSmaller(marked, present);
    if AllUnwrapped(events, f, names) {
      assert marked == present;
    } else {
      var a: nat :| a < names && !Unwrapped(Sets(events, f, a));
      assert a in present && a !in marked;
    }
  }

  /** Where nothing looked at has wrapped, the checker demands exactly what is possible; where
      something has, it refuses every possible answer. */
  lemma CheckedWhenClean(events: seq<Event>, e: Event, names: nat)
    ensures LooksClean(events, e, names) ==> (Checked(events, e, names) <==> Possible(Attrs(events), e, names))
    ensures Possible(Attrs(events), e, names) ==> (Checked(events, e, names) <==> LooksClean(events, e, names))
  {
    match e
    case Set(_, _, _) =>
    case List(f, _) => MarkedIsPresentIff(events, f, names);
    case _ => AttrsAreTheSets(events, e.f, e.a);
  }

  class Checker {
    const names: nat
    const gen: array2<nat>

    ghost predicate Valid(events: seq<Event>)
      reads gen
    {
      && gen.Length1 == names
      && forall f, a :: 0 <= f < gen.Length0 && 0 <= a < names ==> gen[f, a] == Sets(events, f, a) % WRAP
    }

    constructor (files: nat, names: nat)
      ensures Valid([]) && gen.Length0 == files && this.names == names && fresh(gen)
    {
      this.names := names;
      gen := new nat[files, names]((_, _) => 0);
    }

    method CountMarked(f: nat, ghost events: seq<Event>) returns (have: nat)
      requires Valid(events) && f < gen.Length0
      ensures have == |Marked(events, f, names)|
    {
      have := 0;
      for i := 0 to names
        invariant have == |Marked(events, f, i)|
      {
        assert Marked(events, f, i + 1) == Marked(events, f, i) + if gen[f, i] != 0 then {i} else {};
        if gen[f, i] != 0 { have := have + 1; }
      }
    }

    /** One operation: false stands for a failed assertion. */
    method Check(e: Event, ghost events: seq<Event>) returns (ok: bool)
      requires Valid(events) && e.f < gen.Length0 && (!e.List? ==> e.a < names)
      modifies gen
      ensures ok <==> Checked(events, e, names)
      ensures Valid(events + [e])
    {
      OneMoreEvent(events, e);
      match e {
        case Set(f, a, err) =>
          gen[f, a] := (gen[f, a] + 1) % WRAP;
          ok := err == 0;
        case Get(f, a, n, val) =>
          if gen[f, a] == 0 {
            ok := n == ENODATA;
          } else {
            var want := Value(gen[f, a]);
            ok := n == |want| && n <= |val| && val[..n] == want;
          }
        case Remove(f, a, err) =>
          ok := if gen[f, a] == 0 then err == ENODATA else err == 0;
          gen[f, a] := 0;
        case List(f, count) =>
          var have := CountMarked(f, events);
          ok := count == have;
      }
    }
  }

  ghost predicate Accepted(events: seq<Event>, names: nat) {
    forall k :: 0 <= k < |events| ==> Checked(events[..k], events[k], names)
  }

  lemma {:induction false} SetsAreBounded(events: seq<Event>, f: nat, a: nat)
    ensures Sets(events, f, a) <= |events|
  {
    if events != [] {
      SetsAreBounded(events[..|events| - 1], f, a);
    }
  }

  /** A generation cannot wrap in fewer than 65536 operations. */
  lemma ShortRunsAreClean(events: seq<Event>, names: nat)
    requires |events| < WRAP
    ensures IsClean(events, names)
  {
    forall k | 0 <= k < |events| ensures LooksClean(events[..k], events[k], names) {
      forall f: nat, a: nat ensures Unwrapped(Sets(events[..k], f, a)) {
        SetsAreBounded(events[..k], f, a);
      }
    }
  }

  /** On transcripts that look at no wrapped generation, so on all with fewer than 65536
      operations, the checker accepts exactly the traces of a map from (file, name) to values; of
      the traces in general it accepts exactly those that look at none. */
  lemma AcceptedIff(events: seq<Event>, names: nat)
    ensures IsClean(events, names) ==> (Accepted(events, names) <==> IsTrace(events, names))
    ensures IsTrace(events, names) ==> (Accepted(events, names) <==> IsClean(events, names))
    ensures |events| < WRAP ==> (Accepted(events, names) <==> IsTrace(events, names))
  {
    forall k | 0 <= k < |events|
      ensures LooksClean(events[..k], events[k], names) ==>
        (Checked(events[..k], events[k], names) <==> Possible(Attrs(events[..k]), events[k], names))
      ensures Possible(Attrs(events[..k]), events[k], names) ==>
        (Checked(events[..k], events[k], names) <==> LooksClean(events[..k], events[k], names))
    {
      CheckedWhenClean(events[..k], events[k], names);
    }
    if |events| < WRAP { ShortRunsAreClean(events, names); }
  }

  /** The loop over the operations. */
  method CheckAll(files: nat, names: nat, events: seq<Event>) returns (ok: bool)
    requires forall k :: 0 <= k < |events| ==> InRange(events[k], files, names)
    ensures ok <==> Accepted(events, names)
  {
    var c := new Checker(files, names);
    assert events[..0] == [];
    for k := 0 to |events|
      invariant c.Valid(events[..k]) && fresh(c.gen) && c.gen.Length0 == files && c.names == names
      invariant forall j :: 0 <= j < k ==> Checked(events[..j], events[j], names)
    {
      assert InRange(events[k], files, names);
      assert events[..k] + [events[k]] == events[..k + 1];
      ok := c.Check(events[k], events[..k]);
      if !ok { return; }
    }
    ok := true;
  }

  predicate InRange(e: Event, files: nat, names: nat) {
    e.f < files && (!e.List? ==> e.a < names)
  }

  /** The storm decides whether its transcript is a trace, as far as the generations allow. */
  method RunTest(files: nat, names: nat, events: seq<Event>) returns (ok: bool)
    requires forall k :: 0 <= k < |events| ==> InRange(events[k], files, names)
    ensures IsClean(events, names) ==> (ok <==> IsTrace(events, names))
    ensures IsTrace(events, names) ==> (ok <==> IsClean(events, names))
    ensures |events| < WRAP ==> (ok <==> IsTrace(events, names))
  {
    AcceptedIff(events, names);
    ok := CheckAll(files, names, events);
  }
}
