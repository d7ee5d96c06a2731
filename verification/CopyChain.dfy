/**
  generic/001's chain copier: every file grows a chain of copies f -> f.0 -> f.1 ..., the chains
  are collapsed to f.last, and everything is compared with the original.
*/
module CopyChain {
  import Decimal

  const ROOT := "/mnt/nfs/kunit-generic001/"
  const ORIGINAL := -1
  const LAST := -2

  type Content = seq<nat>

  // ---------- names ----------

  function Suffix(link: int): string {
    if link == ORIGINAL then "" else if link < 0 then ".last" else "." + Decimal.Print(link)
  }

  /** gen001_path(). */
  function Path(rel: string, link: int): string {
    ROOT + rel + Suffix(link)
  }

  /** The original under its own name, the copies numbered from 0, and the one that is kept. */
  lemma PathsAre(rel: string, n: nat)
    ensures Path(rel, ORIGINAL) == ROOT + rel
    ensures Path(rel, n) == ROOT + rel + "." + Decimal.Print(n)
    ensures Path(rel, LAST) == ROOT + rel + ".last"
  {
    assert ROOT + rel + "" == ROOT + rel;
    assert ROOT + rel + "." + Decimal.Print(n) == ROOT + rel + ("." + Decimal.Print(n));
  }

  predicate Dotless(s: string) {
    '.' !in s
  }

  function FirstDot(s: string): nat {
    if s == [] || s[0] == '.' then 0 else 1 + FirstDot(s[1..])
  }

  lemma {:induction false} FirstDotIsAtSuffix(a: string, s: string)
    requires Dotless(a) && (s == [] || s[0] == '.')
    ensures FirstDot(a + s) == |a|
  {
    if a == [] {
      assert a + s == s;
    } else {
      assert (a + s)[1..] == a[1..] + s;
      FirstDotIsAtSuffix(a[1..], s);
    }
  }

  lemma FirstDotSplits(a: string, s: string, b: string, t: string)
    requires Dotless(a) && Dotless(b) && a + s == b + t
    requires (s == [] || s[0] == '.') && (t == [] || t[0] == '.')
    ensures a == b && s == t
  {
    FirstDotIsAtSuffix(a, s);
    FirstDotIsAtSuffix(b, t);
    assert (a + s)[..|a|] == a && (b + t)[..|b|] == b;
    assert (a + s)[|a|..] == s && (b + t)[|b|..] == t;
  }

  lemma SuffixIsInjective(l: int, m: int)
    requires l >= LAST && m >= LAST && Suffix(l) == Suffix(m)
    ensures l == m
  {
    assert l >= 0 ==> Suffix(l)[1..] == Decimal.Print(l) && Decimal.IsDigit(Suffix(l)[1]);
    assert m >= 0 ==> Suffix(m)[1..] == Decimal.Print(m) && Decimal.IsDigit(Suffix(m)[1]);
    assert ".last"[1] == 'l' && !Decimal.IsDigit('l');
    if l >= 0 && m >= 0 {
      Decimal.PrintIsInjective(l, m);
    }
  }

  /** Names without a dot give every chain its own paths. */
  lemma PathIsInjective(r: string, l: int, s: string, m: int)
    requires Dotless(r) && Dotless(s) && l >= LAST && m >= LAST
    requires Path(r, l) == Path(s, m)
    ensures r == s && l == m
  {
    assert Path(r, l) == (ROOT + r) + Suffix(l) && Path(s, m) == (ROOT + s) + Suffix(m);
    FirstDotSplits(ROOT + r, Suffix(l), ROOT + s, Suffix(m));
    assert (ROOT + r)[|ROOT|..] == r && (ROOT + s)[|ROOT|..] == s;
    SuffixIsInjective(l, m);
  }

  // ---------- the files there should be ----------

  /** One chain: the numbered copies lo .. hi-1, and whether f.last exists. */
  datatype Span = Span(lo: nat, hi: nat, last: bool)

  predicate Live(s: Span, link: int) {
    link == ORIGINAL || (link == LAST && s.last) || s.lo <= link < s.hi
  }

  ghost predicate GoodNames(rels: seq<string>) {
    && (forall k :: 0 <= k < |rels| ==> Dotless(rels[k]))
    && (forall j, k :: 0 <= j < k < |rels| ==> rels[j] != rels[k])
  }

  ghost predicate Named(rels: seq<string>, p: string) {
    exists k, l :: 0 <= k < |rels| && l >= LAST && p == Path(rels[k], l)
  }

  /** Exactly the live names exist, each with its original's content. */
  ghost predicate Shape(files: map<string, Content>, rels: seq<string>, want: seq<Content>, spans: seq<Span>) {
    && |rels| == |want| == |spans|
    && (forall p :: p in files ==> Named(rels, p))
    && (forall k, l :: 0 <= k < |rels| && l >= LAST ==> (Path(rels[k], l) in files <==> Live(spans[k], l)))
    && (forall k, l :: 0 <= k < |rels| && l >= LAST && Live(spans[k], l) ==> files[Path(rels[k], l)] == want[k])
  }

  lemma OtherPathsDiffer(rels: seq<string>, k: nat, l: int)
    requires GoodNames(rels) && k < |rels| && l >= LAST
    ensures forall j, m :: 0 <= j < |rels| && m >= LAST && (j != k || m != l) ==> Path(rels[j], m) != Path(rels[k], l)
  {
    forall j, m | 0 <= j < |rels| && m >= LAST && (j != k || m != l)
      ensures Path(rels[j], m) != Path(rels[k], l)
    {
      if Path(rels[j], m) == Path(rels[k], l) { PathIsInjective(rels[j], m, rels[k], l); }
    }
  }

  /** Adding one name with the right content adds it to its chain. */
  lemma AddName(files: map<string, Content>, rels: seq<string>, want: seq<Content>, spans: seq<Span>,
                k: nat, l: int, s: Span)
    requires GoodNames(rels) && Shape(files, rels, want, spans) && k < |rels| && l >= LAST
    requires forall m: int :: m >= LAST ==> (Live(s, m) <==> Live(spans[k], m) || m == l)
    ensures Shape(files[Path(rels[k], l) := want[k]], rels, want, spans[k := s])
  {
    OtherPathsDiffer(rels, k, l);
    assert Named(rels, Path(rels[k], l));
  }

  /** Removing one name takes it out of its chain. */
  lemma DropName(files: map<string, Content>, rels: seq<string>, want: seq<Content>, spans: seq<Span>,
                 k: nat, l: int, s: Span)
    requires GoodNames(rels) && Shape(files, rels, want, spans) && k < |rels| && l >= LAST
    requires forall m: int :: m >= LAST ==> (Live(s, m) <==> Live(spans[k], m) && m != l)
    ensures Shape(files - {Path(rels[k], l)}, rels, want, spans[k := s])
  {
    OtherPathsDiffer(rels, k, l);
  }

  /** The original is there and f.last is as well or is not, and they hold what they should. */
  predicate IntactAt(files: map<string, Content>, rel: string, want: Content) {
    && Path(rel, ORIGINAL) in files && files[Path(rel, ORIGINAL)] == want
    && (Path(rel, LAST) in files ==> files[Path(rel, LAST)] == want)
  }

  ghost predicate Intact(files: map<string, Content>, rels: seq<string>, want: seq<Content>)
    requires |want| == |rels|
  {
    forall k :: 0 <= k < |rels| ==> IntactAt(files, rels[k], want[k])
  }

  lemma ShapeIsIntact(files: map<string, Content>, rels: seq<string>, want: seq<Content>, spans: seq<Span>)
    requires GoodNames(rels) && Shape(files, rels, want, spans)
    ensures Intact(files, rels, want)
  {
    forall k | 0 <= k < |rels| ensures IntactAt(files, rels[k], want[k]) {
      assert Live(spans[k], ORIGINAL);
      if Path(rels[k], LAST) in files {
        assert Live(spans[k], LAST);
      }
    }
  }

  /** After setup only the originals exist. */
  lemma OriginalsHaveShape(files: map<string, Content>, rels: seq<string>, want: seq<Content>)
    requires GoodNames(rels) && |want| == |rels|
    requires forall k :: 0 <= k < |rels| ==> Path(rels[k], ORIGINAL) in files && files[Path(rels[k], ORIGINAL)] == want[k]
    requires forall p :: p in files ==> exists k :: 0 <= k < |rels| && p == Path(rels[k], ORIGINAL)
    ensures Shape(files, rels, want, seq(|rels|, _ => Span(0, 0, false)))
  {
    forall k, l | 0 <= k < |rels| && l >= LAST && Path(rels[k], l) in files ensures l == ORIGINAL {
      var j :| 0 <= j < |rels| && Path(rels[k], l) == Path(rels[j], ORIGINAL);
      PathIsInjective(rels[k], l, rels[j], ORIGINAL);
    }
  }

  // ---------- the engine ----------

  const MISSING := -2

  function Renamed(files: map<string, Content>, from: string, to: string): map<string, Content> {
    if from in files then (files - {from})[to := files[from]] else files
  }

  /** The directory tree, as far as these names go. */
  class Files {
    var files: map<string, Content>

    constructor (files: map<string, Content>)
      ensures this.files == files
    {
      this.files := files;
    }

    /** gen001_copy(): the source must exist, the target must not. */
    method Copy(src: string, dst: string) returns (ok: bool)
      modifies this
      ensures ok <==> src in old(files) && dst !in old(files)
      ensures files == if ok then old(files)[dst := old(files)[src]] else old(files)
    {
      ok := src in files && dst !in files;
      if ok { files := files[dst := files[src]]; }
    }

    method Rename(from: string, to: string) returns (err: int)
      modifies this
      ensures err == 0 <==> from in old(files)
      ensures files == Renamed(old(files), from, to)
    {
      err := if from in files then 0 else MISSING;
      files := Renamed(files, from, to);
    }

    method Unlink(path: string) returns (err: int)
      modifies this
      ensures err == 0 <==> path in old(files)
      ensures files == old(files) - {path}
    {
      err := if path in files then 0 else MISSING;
      files := files - {path};
    }
  }

  class Engine {
    const rels: seq<string>
    const fs: Files
    const link: array<nat>
    ghost const want: seq<Content>
    /** What each chain consists of; outside CloseOne that is the copies 0 .. link-1. */
    ghost var spans: seq<Span>

    ghost predicate Valid()
      reads this, fs, link
    {
      && GoodNames(rels)
      && link.Length == |rels|
      && Shape(fs.files, rels, want, spans)
      && forall k :: 0 <= k < |rels| ==> spans[k].lo == 0 && spans[k].hi == link[k]
    }

    constructor (rels: seq<string>, fs: Files, ghost want: seq<Content>)
      requires GoodNames(rels) && |want| == |rels|
      requires Shape(fs.files, rels, want, seq(|rels|, _ => Span(0, 0, false)))
      ensures Valid() && this.rels == rels && this.fs == fs && this.want == want && fresh(link)
      ensures spans == seq(|rels|, _ => Span(0, 0, false))
    {
      this.rels, this.fs, this.want := rels, fs, want;
      link := new nat[|rels|](_ => 0);
      spans := seq(|rels|, _ => Span(0, 0, false));
    }

    /** One copy of the chain step: f or f.(link-1) to f.link; neither guard ever fires. */
    method CopyOne(k: nat) returns (ok: bool)
      requires Valid() && k < |rels|
      modifies this`spans, fs, link
      ensures Valid() && ok
      ensures spans == old(spans)[k := Span(0, old(link[k]) + 1, old(spans[k].last))]
    {
      var from := if link[k] > 0 then link[k] - 1 else ORIGINAL;
      ghost var longer := Span(0, link[k] + 1, spans[k].last);
      assert Live(spans[k], from) && !Live(spans[k], link[k]);
      AddName(fs.files, rels, want, spans, k, link[k], longer);
      ok := fs.Copy(Path(rels[k], from), Path(rels[k], link[k]));
      spans := spans[k := longer];
      link[k] := link[k] + 1;
    }

    /** Removes the lowest numbered copy. */
    method DropLowest(k: nat, j: nat) returns (ok: bool)
      requires GoodNames(rels) && Shape(fs.files, rels, want, spans)
      requires k < |rels| && j == spans[k].lo < spans[k].hi
      modifies this`spans, fs
      ensures Shape(fs.files, rels, want, spans) && ok
      ensures spans == old(spans)[k := old(spans[k]).(lo := j + 1)]
    {
      ghost var shorter := spans[k].(lo := j + 1);
      assert Live(spans[k], j);
      DropName(fs.files, rels, want, spans, k, j, shorter);
      var err := fs.Unlink(Path(rels[k], j));
      spans := spans[k := shorter];
      ok := err == 0;
    }

    /** Removes the numbered copies below the renamed one. */
    method DropCopies(k: nat, n: nat) returns (ok: bool)
      requires GoodNames(rels) && Shape(fs.files, rels, want, spans)
      requires k < |rels| && spans[k] == Span(0, n, true)
      modifies this`spans, fs
      ensures Shape(fs.files, rels, want, spans) && ok
      ensures spans == old(spans)[k := Span(0, 0, true)]
    {
      ok := true;
      var j := 0;
      while j < n
        invariant j <= n && ok
        invariant Shape(fs.files, rels, want, spans)
        invariant spans == old(spans)[k := Span(j, n, true)]
      {
        var dropped := DropLowest(k, j);
        ok := ok && dropped;
        j := j + 1;
      }
      EmptySpan(fs.files, rels, want, spans, k, Span(0, 0, true));
      spans := spans[k := Span(0, 0, true)];
    }

    /** Closes one chain: the newest copy becomes f.last, the others go, and nothing fails. */
    method CloseOne(k: nat) returns (ok: bool)
      requires Valid() && k < |rels|
      modifies this`spans, fs, link
      ensures Valid() && ok
      ensures spans == old(spans)[k := Span(0, 0, old(spans[k].last) || old(spans[k].hi) > 0)]
    {
      if link[k] == 0 {
        return true;
      }
      ok := MakeLast(k, link[k] - 1);
      var dropped := DropCopies(k, link[k] - 1);
      ok := ok && dropped;
      link[k] := 0;
    }

    /** The newest copy is renamed to f.last, over an older one if there is one. */
    method MakeLast(k: nat, newest: nat) returns (ok: bool)
      requires GoodNames(rels) && Shape(fs.files, rels, want, spans)
      requires k < |rels| && spans[k].lo == 0 && spans[k].hi == newest + 1
      modifies this`spans, fs
      ensures Shape(fs.files, rels, want, spans) && ok
      ensures spans == old(spans)[k := Span(0, newest, true)]
    {
      RenameToLast(fs.files, rels, want, spans, k, newest);
      var err := fs.Rename(Path(rels[k], newest), Path(rels[k], LAST));
      spans := spans[k := Span(0, newest, true)];
      return err == 0;
    }

    /** The copies of one iteration: each chain gets as many as it was picked. */
    method CopyPicks(picks: seq<nat>) returns (ok: bool)
      requires Valid() && |rels| > 0 && Closed(spans)
      modifies this`spans, fs, link
      ensures Valid() && ok
      ensures forall k :: 0 <= k < |rels| ==> spans[k] == Span(0, Times(picks, |rels|, k), old(spans[k].last))
    {
      ok := true;
      for i := 0 to |picks|
        invariant Valid() && ok
        invariant forall k :: 0 <= k < |rels| ==> spans[k] == Span(0, Times(picks[..i], |rels|, k), old(spans[k].last))
      {
        OnePickMore(picks, i, |rels|);
        var copied := CopyOne(picks[i] % |rels|);
        ok := ok && copied;
      }
      assert picks[..|picks|] == picks;
    }

    /** One iteration: a copy for every pick, then every chain is closed. */
    method Chain(picks: seq<nat>) returns (ok: bool)
      requires Valid() && |rels| > 0 && Closed(spans)
      modifies this`spans, fs, link
      ensures Valid() && ok && Closed(spans)
      ensures forall k :: 0 <= k < |rels| ==> (spans[k].last <==> old(spans[k].last) || Picked(picks, |rels|, k))
    {
      ok := CopyPicks(picks);
      forall k | 0 <= k < |rels| ensures Times(picks, |rels|, k) > 0 <==> Picked(picks, |rels|, k) {
        PickedIff(picks, |rels|, k);
      }
      for k := 0 to |rels|
        invariant Valid() && ok
        invariant forall j :: 0 <= j < k ==>
          spans[j].hi == 0 && (spans[j].last <==> old(spans[j].last) || Picked(picks, |rels|, j))
        invariant forall j :: k <= j < |rels| ==>
          spans[j].last == old(spans[j].last) && (spans[j].hi > 0 <==> Picked(picks, |rels|, j))
      {
        var closed := CloseOne(k);
        ok := ok && closed;
      }
    }

    /** gen001_check() */
    method Check(expected: seq<Content>) returns (ok: bool)
      requires |expected| == |rels|
      ensures ok <==> Intact(fs.files, rels, expected)
    {
      ok := true;
      for k := 0 to |rels|
        invariant ok <==> forall j :: 0 <= j < k ==> IntactAt(fs.files, rels[j], expected[j])
      {
        var original, last := Path(rels[k], ORIGINAL), Path(rels[k], LAST);
        ok := ok && original in fs.files && fs.files[original] == expected[k];
        if last in fs.files {
          ok := ok && fs.files[last] == expected[k];
        }
      }
    }

    /** The full run: for any number of iterations and any picks no step fails, every check
        succeeds, and what is left is every original and an equal f.last for every entry that was
        ever picked. */
    method RunTest(iterations: seq<seq<nat>>, expected: seq<Content>) returns (ok: bool)
      requires Valid() && |rels| > 0 && expected == want
      requires forall k :: 0 <= k < |rels| ==> spans[k] == Span(0, 0, false)
      modifies this`spans, fs, link
      ensures Valid() && ok
      ensures forall k :: 0 <= k < |rels| ==> spans[k] == Span(0, 0, EverPicked(iterations, |rels|, k))
    {
      ok := true;
      for i := 0 to |iterations|
        invariant Valid() && ok && Closed(spans)
        invariant forall k :: 0 <= k < |rels| ==> (spans[k].last <==> EverPicked(iterations[..i], |rels|, k))
      {
        assert iterations[..i + 1] == iterations[..i] + [iterations[i]];
        var chained := Chain(iterations[i]);
        ShapeIsIntact(fs.files, rels, want, spans);
        var checked := Check(expected);
        ok := ok && chained && checked;
      }
      assert iterations[..|iterations|] == iterations;
    }
  }

  ghost predicate Closed(spans: seq<Span>) {
    forall k :: 0 <= k < |spans| ==> spans[k].hi == 0
  }

  /** How often file k is picked. */
  function Times(picks: seq<nat>, n: nat, k: nat): nat
    requires n > 0
  {
    if picks == [] then 0
    else Times(picks[..|picks| - 1], n, k) + if picks[|picks| - 1] % n == k then 1 else 0
  }

  lemma OnePickMore(picks: seq<nat>, i: nat, n: nat)
    requires i < |picks| && n > 0
    ensures forall k: nat :: Times(picks[..i + 1], n, k) == Times(picks[..i], n, k) + if picks[i] % n == k then 1 else 0
  {
    assert picks[..i + 1][..i] == picks[..i];
  }

  lemma {:induction false} PickedIff(picks: seq<nat>, n: nat, k: nat)
    requires n > 0
    ensures Times(picks, n, k) > 0 <==> Picked(picks, n, k)
  {
    if picks != [] {
      PickedIff(picks[..|picks| - 1], n, k);
      var last := |picks| - 1;
      assert picks[last] % n == k ==> Picked(picks, n, k);
    }
  }

  ghost predicate Picked(picks: seq<nat>, n: nat, k: nat)
    requires n > 0
  {
    exists i :: 0 <= i < |picks| && picks[i] % n == k
  }

  ghost predicate EverPicked(iterations: seq<seq<nat>>, n: nat, k: nat)
    requires n > 0
  {
    exists i :: 0 <= i < |iterations| && Picked(iterations[i], n, k)
  }

  lemma RenameToLast(files: map<string, Content>, rels: seq<string>, want: seq<Content>, spans: seq<Span>,
                     k: nat, newest: nat)
    requires GoodNames(rels) && Shape(files, rels, want, spans) && k < |rels|
    requires spans[k].lo == 0 && spans[k].hi == newest + 1
    ensures Path(rels[k], newest) in files
    ensures Shape(Renamed(files, Path(rels[k], newest), Path(rels[k], LAST)), rels, want, spans[k := Span(0, newest, true)])
  {
    var from, shorter := Path(rels[k], newest), Span(0, newest, spans[k].last);
    assert Live(spans[k], newest);
    DropName(files, rels, want, spans, k, newest, shorter);
    AddName(files - {from}, rels, want, spans[k := shorter], k, LAST, Span(0, newest, true));
    assert spans[k := shorter][k := Span(0, newest, true)] == spans[k := Span(0, newest, true)];
  }

  lemma EmptySpan(files: map<string, Content>, rels: seq<string>, want: seq<Content>, spans: seq<Span>, k: nat, s: Span)
    requires k < |spans| && Shape(files, rels, want, spans)
    requires spans[k].lo == spans[k].hi && s.lo == s.hi && s.last == spans[k].last
    ensures Shape(files, rels, want, spans[k := s])
  {
    assert forall l: int :: l >= LAST ==> (Live(s, l) <==> Live(spans[k], l));
  }
}
