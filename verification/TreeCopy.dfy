/**
  generic/100: building a directory tree, copying it and comparing the copy, by recursions that
  all edit one path buffer in place, append a component and cut it off again.
*/
module TreeCopy {
  import Decimal

  type Path = seq<string>

  datatype Node = Dir | File(data: seq<nat>)

  type Nodes = map<Path, Node>

  /** F files and D directories per directory, and bytes per file. */
  datatype Config = Config(files: nat, dirs: nat, size: nat)

  // ---------- contents ----------

  /** g100_byte() */
  function Byte(seed: nat, off: nat): nat {
    (seed * 31 + off) % 256
  }

  function Fill(c: Config, seed: nat): (r: seq<nat>)
    ensures |r| == c.size && forall i :: 0 <= i < c.size ==> r[i] == Byte(seed, i)
  {
    seq(c.size, i requires 0 <= i < c.size => Byte(seed, i))
  }

  /** 31 is odd, so two files have a byte in common exactly if their seeds agree modulo 256, and
      then they have all of them in common. */
  lemma FilesDifferEverywhereIff(s: nat, t: nat, off: nat)
    ensures Byte(s, off) == Byte(t, off) <==> s % 256 == t % 256
  {
    if s % 256 == t % 256 {
      SameRemainder(s, t, 31, off);
    }
    if Byte(s, off) == Byte(t, off) {
      SameRemainder(s * 31 + off, t * 31 + off, 223, 0);
      Undo(s, off);
      Undo(t, off);
      SameShift(s, t, 223 * off);
    }
  }

  /** Modulo 256, every byte of a file is one more than the byte before it ... */
  lemma NextByte(seed: nat, off: nat)
    ensures Byte(seed, off + 1) == (Byte(seed, off) + 1) % 256
  {
    AddAfterRemainder(seed * 31 + off, 1);
  }

  /** ... and 31 more than the byte at its place in the file before. */
  lemma NextFilesByte(seed: nat, off: nat)
    ensures Byte(seed + 1, off) == (Byte(seed, off) + 31) % 256
  {
    AddAfterRemainder(seed * 31 + off, 31);
  }

  lemma FirstByteOfAll()
    ensures Byte(0, 0) == 0
  {
  }

  lemma AddAfterRemainder(x: nat, k: nat)
    ensures (x % 256 + k) % 256 == (x + k) % 256
  {
    assert x + k == 256 * (x / 256) + (x % 256 + k);
    AddMultiple(x % 256 + k, x / 256);
  }

  lemma SameRemainder(x: nat, y: nat, k: nat, d: nat)
    requires x % 256 == y % 256
    ensures (x * k + d) % 256 == (y * k + d) % 256
  {
    var a, b := x / 256, y / 256;
    assert x * k + d == 256 * (a * k) + (x % 256 * k + d) by {
      assert x == 256 * a + x % 256;
    }
    assert y * k + d == 256 * (b * k) + (y % 256 * k + d) by {
      assert y == 256 * b + y % 256;
    }
    AddMultiple(x % 256 * k + d, a * k);
    AddMultiple(y % 256 * k + d, b * k);
  }

  lemma AddMultiple(x: nat, q: nat)
    ensures (256 * q + x) % 256 == x % 256
  {
  }

  /** 31 * 223 is one more than 27 * 256. */
  lemma Undo(s: nat, off: nat)
    ensures ((s * 31 + off) * 223) % 256 == (s + 223 * off) % 256
  {
    assert (s * 31 + off) * 223 == 256 * (27 * s) + (s + 223 * off);
    AddMultiple(s + 223 * off, 27 * s);
  }

  lemma SameShift(s: nat, t: nat, d: nat)
    requires (s + d) % 256 == (t + d) % 256
    ensures s % 256 == t % 256
  {
    var q, r := (s + d) / 256, (t + d) / 256;
    assert s + d == 256 * q + (s + d) % 256 && t + d == 256 * r + (t + d) % 256;
    if s >= t {
      assert s == 256 * (q - r) + t;
      AddMultiple(t, q - r);
    } else {
      assert t == 256 * (r - q) + s;
      AddMultiple(s, r - q);
    }
  }

  // ---------- names ----------

  function FileName(i: nat): string {
    "f" + Decimal.Print(i)
  }

  function DirName(i: nat): string {
    "d" + Decimal.Print(i)
  }

  lemma NamesDiffer()
    ensures forall i, j :: FileName(i) != DirName(j)
    ensures forall i, j :: FileName(i) == FileName(j) ==> i == j
    ensures forall i, j :: DirName(i) == DirName(j) ==> i == j
  {
    forall i, j ensures FileName(i) != DirName(j) {
      assert FileName(i)[0] == 'f' && DirName(j)[0] == 'd';
    }
    forall i, j | FileName(i) == FileName(j) ensures i == j {
      assert FileName(i)[1..] == Decimal.Print(i) && FileName(j)[1..] == Decimal.Print(j);
      Decimal.PrintIsInjective(i, j);
    }
    forall i, j | DirName(i) == DirName(j) ensures i == j {
      assert DirName(i)[1..] == Decimal.Print(i) && DirName(j)[1..] == Decimal.Print(j);
      Decimal.PrintIsInjective(i, j);
    }
  }

  // ---------- the tree there should be ----------

  /** The number of files in a tree of the given depth. */
  function Count(c: Config, depth: nat): nat {
    c.files + if depth == 0 then 0 else c.dirs * Count(c, depth - 1)
  }

  /** The seed counter before the i-th subdirectory is entered. */
  function SeedBefore(c: Config, depth: nat, seed: nat, i: nat): nat
    requires depth > 0
  {
    seed + c.files + i * Count(c, depth - 1)
  }

  predicate Under(dir: Path, p: Path) {
    |dir| < |p| && p[..|dir|] == dir
  }

  ghost predicate ChildName(name: string, files: nat, dirs: nat) {
    || (exists i: nat :: i < files && name == FileName(i))
    || (exists i: nat :: i < dirs && name == DirName(i))
  }

  /** The directory holds the first `files` files, the first `dirs` subtrees, and nothing else. */
  ghost predicate PartTree(c: Config, nodes: Nodes, path: Path, depth: nat, seed: nat, files: nat, dirs: nat)
    decreases depth, 0
  {
    && path in nodes && nodes[path].Dir?
    && (forall i: nat :: i < files ==>
          path + [FileName(i)] in nodes && nodes[path + [FileName(i)]] == File(Fill(c, seed + 1 + i)))
    && (depth > 0 ==> forall i: nat :: i < dirs ==>
          IsTree(c, nodes, path + [DirName(i)], depth - 1, SeedBefore(c, depth, seed, i)))
    && (forall name :: path + [name] in nodes ==> ChildName(name, files, dirs))
  }

  ghost predicate IsTree(c: Config, nodes: Nodes, path: Path, depth: nat, seed: nat)
    decreases depth, 1
  {
    PartTree(c, nodes, path, depth, seed, c.files, if depth > 0 then c.dirs else 0)
  }

  ghost predicate SameAt(a: Nodes, b: Nodes, p: Path) {
    (p in a <==> p in b) && (p in a ==> a[p] == b[p])
  }

  ghost predicate SameFrom(a: Nodes, b: Nodes, path: Path) {
    forall p :: p == path || Under(path, p) ==> SameAt(a, b, p)
  }

  ghost predicate SameOutside(a: Nodes, b: Nodes, path: Path) {
    forall p :: !Under(path, p) ==> SameAt(a, b, p)
  }

  function Parent(p: Path): Path {
    if p == [] then [] else p[..|p| - 1]
  }

  /** Every node is in a directory, up to the root. */
  ghost predicate WellFormed(nodes: Nodes) {
    forall p {:trigger Parent(p)} :: p in nodes ==> Parent(p) in nodes && nodes[Parent(p)].Dir?
  }

  lemma ParentOfChild(path: Path, name: string)
    ensures Parent(path + [name]) == path && Under(path, path + [name])
  {
  }

  /** A tree depends only on the nodes in it. */
  lemma {:induction false} TreeFrame(c: Config, a: Nodes, b: Nodes, path: Path, depth: nat, seed: nat)
    requires IsTree(c, a, path, depth, seed) && SameFrom(a, b, path)
    ensures IsTree(c, b, path, depth, seed)
    decreases depth
  {
    forall name ensures SameAt(a, b, path + [name]) {
      assert Under(path, path + [name]);
    }
    assert SameAt(a, b, path);
    if depth > 0 {
      forall i: nat | i < c.dirs
        ensures IsTree(c, b, path + [DirName(i)], depth - 1, SeedBefore(c, depth, seed, i))
      {
        SameFromChild(a, b, path, DirName(i));
        TreeFrame(c, a, b, path + [DirName(i)], depth - 1, SeedBefore(c, depth, seed, i));
      }
    }
  }

  lemma UnderChild(path: Path, name: string, p: Path)
    ensures p == path + [name] || Under(path + [name], p) ==> Under(path, p)
  {
    if |p| > |path| {
      assert p[..|path|] == p[..|path| + 1][..|path|];
    }
  }

  lemma SameFromChild(a: Nodes, b: Nodes, path: Path, name: string)
    requires SameFrom(a, b, path)
    ensures SameFrom(a, b, path + [name])
  {
    forall p | p == path + [name] || Under(path + [name], p) ensures SameAt(a, b, p) {
      UnderChild(path, name, p);
    }
  }

  ghost predicate Empty(nodes: Nodes, path: Path) {
    path in nodes && nodes[path].Dir? && forall name :: path + [name] !in nodes
  }

  lemma ChildrenDiffer(path: Path, a: string, b: string)
    requires path + [a] == path + [b]
    ensures a == b
  {
    assert (path + [a])[|path|] == a && (path + [b])[|path|] == b;
  }

  lemma OthersStay(nodes: Nodes, path: Path, name: string, data: seq<nat>)
    ensures var after := nodes[path + [name] := File(data)];
      && SameAt(nodes, after, path)
      && forall other :: other != name ==> SameAt(nodes, after, path + [other])
  {
    assert |path| != |path + [name]|;
    forall other | path + [other] == path + [name] ensures other == name {
      ChildrenDiffer(path, other, name);
    }
  }

  lemma AddFile(c: Config, nodes: Nodes, path: Path, depth: nat, seed: nat, i: nat)
    requires i < c.files && PartTree(c, nodes, path, depth, seed, i, 0)
    ensures path + [FileName(i)] !in nodes
    ensures PartTree(c, nodes[path + [FileName(i)] := File(Fill(c, seed + 1 + i))], path, depth, seed, i + 1, 0)
  {
    var after := nodes[path + [FileName(i)] := File(Fill(c, seed + 1 + i))];
    NamesDiffer();
    OthersStay(nodes, path, FileName(i), Fill(c, seed + 1 + i));
    assert !ChildName(FileName(i), i, 0);
    forall name | path + [name] in after ensures ChildName(name, i + 1, 0) {
      assert name != FileName(i) ==> ChildName(name, i, 0);
    }
  }

  /** Nothing but the child and what is under it has changed. */
  ghost predicate OnlyChild(a: Nodes, b: Nodes, path: Path, name: string) {
    forall p :: p != path + [name] && !Under(path + [name], p) ==> SameAt(a, b, p)
  }

  lemma SiblingIsSame(a: Nodes, b: Nodes, path: Path, name: string, other: string)
    requires OnlyChild(a, b, path, name) && other != name
    ensures SameFrom(a, b, path + [other])
  {
    forall p | p == path + [other] || Under(path + [other], p) ensures SameAt(a, b, p) {
      assert p[..|path| + 1][|path|] == other && (path + [name])[|path|] == name;
    }
  }

  lemma SiblingsStay(c: Config, a: Nodes, b: Nodes, path: Path, depth: nat, seed: nat, i: nat)
    requires depth > 0 && i < c.dirs && PartTree(c, a, path, depth, seed, c.files, i)
    requires OnlyChild(a, b, path, DirName(i))
    ensures path in b && b[path].Dir?
    ensures forall j: nat :: j < c.files ==>
      path + [FileName(j)] in b && b[path + [FileName(j)]] == File(Fill(c, seed + 1 + j))
    ensures forall j: nat :: j < i ==> IsTree(c, b, path + [DirName(j)], depth - 1, SeedBefore(c, depth, seed, j))
    ensures forall name :: name != DirName(i) && path + [name] in b ==> ChildName(name, c.files, i)
  {
    NamesDiffer();
    forall j: nat | j < c.files ensures SameAt(a, b, path + [FileName(j)]) {
      SiblingIsSame(a, b, path, DirName(i), FileName(j));
    }
    forall j: nat | j < i
      ensures IsTree(c, b, path + [DirName(j)], depth - 1, SeedBefore(c, depth, seed, j))
    {
      SiblingIsSame(a, b, path, DirName(i), DirName(j));
      TreeFrame(c, a, b, path + [DirName(j)], depth - 1, SeedBefore(c, depth, seed, j));
    }
    forall name | name != DirName(i) && path + [name] in b ensures ChildName(name, c.files, i) {
      SiblingIsSame(a, b, path, DirName(i), name);
      assert SameAt(a, b, path + [name]) && ChildName(name, c.files, i);
    }
    assert SameAt(a, b, path);
  }

  lemma AddTree(c: Config, a: Nodes, b: Nodes, path: Path, depth: nat, seed: nat, i: nat)
    requires depth > 0 && i < c.dirs && PartTree(c, a, path, depth, seed, c.files, i)
    requires IsTree(c, b, path + [DirName(i)], depth - 1, SeedBefore(c, depth, seed, i))
    requires OnlyChild(a, b, path, DirName(i))
    ensures PartTree(c, b, path, depth, seed, c.files, i + 1)
  {
    SiblingsStay(c, a, b, path, depth, seed, i);
    forall name | path + [name] in b ensures ChildName(name, c.files, i + 1) {
      assert name != DirName(i) ==> ChildName(name, c.files, i);
    }
  }

  lemma OutsideIsTransitive(a: Nodes, b: Nodes, d: Nodes, path: Path)
    requires SameOutside(a, b, path) && SameOutside(b, d, path)
    ensures SameOutside(a, d, path)
  {
    forall p | !Under(path, p) ensures SameAt(a, d, p) {
      assert SameAt(a, b, p) && SameAt(b, d, p);
    }
  }

  /** The number of directories is counted in, too. */
  lemma SeedAdvances(c: Config, depth: nat, seed: nat, i: nat)
    requires depth > 0
    ensures SeedBefore(c, depth, seed, i + 1) == SeedBefore(c, depth, seed, i) + Count(c, depth - 1)
    ensures SeedBefore(c, depth, seed, 0) == seed + c.files
    ensures SeedBefore(c, depth, seed, c.dirs) == seed + Count(c, depth)
  {
    assert (i + 1) * Count(c, depth - 1) == i * Count(c, depth - 1) + Count(c, depth - 1);
  }

  lemma NewDirIsEmpty(nodes: Nodes, p: Path)
    requires WellFormed(nodes) && p !in nodes && |p| > 0
    requires Parent(p) in nodes && nodes[Parent(p)].Dir?
    ensures WellFormed(nodes[p := Dir]) && Empty(nodes[p := Dir], p)
  {
    forall name ensures p + [name] !in nodes {
      ParentOfChild(p, name);
    }
  }

  // ---------- what g100_verify() sees ----------

  /** A single digit below `count` behind the letter. */
  predicate Like(name: string, letter: char, count: nat) {
    |name| == 2 && name[0] == letter && '0' <= name[1] && name[1] as int < '0' as int + count
  }

  predicate Expected(c: Config, name: string) {
    Like(name, 'd', c.dirs) || Like(name, 'f', c.files)
  }

  function Alike(names: set<string>, letter: char, count: nat): set<string> {
    set n | n in names && Like(n, letter, count)
  }

  /** The names iterate_dir() delivers for a directory. */
  function Names(nodes: Nodes, path: Path): set<string> {
    set p | p in nodes && Under(path, p) && |p| == |path| + 1 :: p[|path|]
  }

  lemma NamesAreTheChildren(nodes: Nodes, path: Path, name: string)
    ensures name in Names(nodes, path) <==> path + [name] in nodes
  {
    if path + [name] in nodes {
      assert Under(path, path + [name]) && (path + [name])[|path|] == name;
    }
    if name in Names(nodes, path) {
      var p :| p in nodes && Under(path, p) && |p| == |path| + 1 && p[|path|] == name;
      assert p == path + [name];
    }
  }

  /** The checker knows only names with one digit. */
  predicate Readable(c: Config, depth: nat) {
    c.files <= 10 && (depth > 0 ==> c.dirs <= 10)
  }

  /** What is left of each file if only its first `size` bytes are looked at. */
  function Cut(c: Config, nodes: Nodes): Nodes {
    map p | p in nodes ::
      match nodes[p]
      case Dir => Dir
      case File(data) => File(if |data| <= c.size then data else data[..c.size])
  }

  ghost predicate LevelLooks(c: Config, nodes: Nodes, path: Path, depth: nat) {
    && path in nodes && nodes[path].Dir?
    && |Alike(Names(nodes, path), 'f', c.files)| == c.files
    && |Alike(Names(nodes, path), 'd', c.dirs)| == (if depth > 0 then c.dirs else 0)
    && forall name :: name in Names(nodes, path) ==> Expected(c, name)
  }

  ghost predicate FilesLook(c: Config, nodes: Nodes, path: Path, seed: nat, files: nat) {
    forall i: nat :: i < files ==>
      FileLooks(c, nodes, path + [FileName(i)], seed + 1 + i)
  }

  ghost predicate FileLooks(c: Config, nodes: Nodes, p: Path, seed: nat) {
    p in nodes && nodes[p] == File(Fill(c, seed))
  }

  ghost predicate DirsLook(c: Config, nodes: Nodes, path: Path, depth: nat, seed: nat, dirs: nat)
    requires depth > 0
  {
    forall i: nat :: i < dirs ==>
      IsTree(c, nodes, path + [DirName(i)], depth - 1, SeedBefore(c, depth, seed, i))
  }

  lemma OneNameMore(names: set<string>, name: string, letter: char, count: nat)
    requires name !in names
    ensures |Alike(names + {name}, letter, count)| ==
            |Alike(names, letter, count)| + if Like(name, letter, count) then 1 else 0
  {
    var more := Alike(names + {name}, letter, count);
    if Like(name, letter, count) {
      assert more == Alike(names, letter, count) + {name};
    } else {
      assert more == Alike(names, letter, count);
    }
  }

  lemma LikeIsANumber(name: string, count: nat)
    requires count <= 10
    ensures Like(name, 'f', count) <==> exists i: nat :: i < count && name == FileName(i)
    ensures Like(name, 'd', count) <==> exists i: nat :: i < count && name == DirName(i)
  {
    if Like(name, 'f', count) {
      assert name == FileName(name[1] as int - '0' as int);
    }
    if Like(name, 'd', count) {
      assert name == DirName(name[1] as int - '0' as int);
    }
  }

  lemma TwoDigits(c: Config, i: nat)
    requires i >= 10
    ensures !Expected(c, FileName(i)) && !Expected(c, DirName(i))
  {
    assert |FileName(i)| > 2 && |DirName(i)| > 2;
  }

  /** As many distinct names as numbers. */
  lemma {:induction false} FileNamesCount(names: set<string>, count: nat)
    requires forall n :: n in names <==> exists i: nat :: i < count && n == FileName(i)
    ensures |names| == count
  {
    if count == 0 {
      assert names == {};
    } else {
      NamesDiffer();
      var last := FileName(count - 1);
      assert last in names;
      FileNamesCount(names - {last}, count - 1);
    }
  }

  lemma {:induction false} DirNamesCount(names: set<string>, count: nat)
    requires forall n :: n in names <==> exists i: nat :: i < count && n == DirName(i)
    ensures |names| == count
  {
    if count == 0 {
      assert names == {};
    } else {
      NamesDiffer();
      var last := DirName(count - 1);
      assert last in names;
      DirNamesCount(names - {last}, count - 1);
    }
  }

  lemma CutKeepsNames(c: Config, nodes: Nodes, path: Path)
    ensures Names(Cut(c, nodes), path) == Names(nodes, path)
  {
  }

  lemma TreeIsThere(c: Config, nodes: Nodes, path: Path, depth: nat, seed: nat)
    requires IsTree(c, nodes, path, depth, seed)
    ensures path in nodes && nodes[path].Dir?
  {
  }

  lemma ChildIsThere(c: Config, nodes: Nodes, path: Path, depth: nat, seed: nat, name: string)
    requires IsTree(c, nodes, path, depth, seed)
    requires ChildName(name, c.files, if depth > 0 then c.dirs else 0)
    ensures path + [name] in nodes
  {
    if i: nat :| i < c.files && name == FileName(i) {
      assert path + [FileName(i)] in nodes;
    } else if depth > 0 {
      var i: nat :| i < c.dirs && name == DirName(i);
      TreeIsThere(c, nodes, path + [DirName(i)], depth - 1, SeedBefore(c, depth, seed, i));
    }
  }

  /** A right level passes the count, if its numbers have one digit. */
  lemma TreePasses(c: Config, nodes: Nodes, path: Path, depth: nat, seed: nat)
    requires IsTree(c, nodes, path, depth, seed) && Readable(c, depth)
    ensures LevelLooks(c, nodes, path, depth)
  {
    var names := Names(nodes, path);
    var dirs := if depth > 0 then c.dirs else 0;
    forall n ensures n in names <==> ChildName(n, c.files, dirs) {
      NamesAreTheChildren(nodes, path, n);
      if ChildName(n, c.files, dirs) {
        ChildIsThere(c, nodes, path, depth, seed, n);
      }
    }
    forall n ensures n in Alike(names, 'f', c.files) <==> exists i: nat :: i < c.files && n == FileName(i) {
      LikeIsANumber(n, c.files);
    }
    FileNamesCount(Alike(names, 'f', c.files), c.files);
    NamesDiffer();
    if depth > 0 {
      forall n ensures n in Alike(names, 'd', c.dirs) <==> exists i: nat :: i < c.dirs && n == DirName(i) {
        LikeIsANumber(n, c.dirs);
      }
      DirNamesCount(Alike(names, 'd', c.dirs), c.dirs);
    } else {
      assert forall n :: n in names ==> n[0] == 'f';
      assert Alike(names, 'd', c.dirs) == {};
    }
    forall n | n in names ensures Expected(c, n) {
      LikeIsANumber(n, c.files);
      if depth > 0 {
        LikeIsANumber(n, c.dirs);
      }
    }
  }

  /** A level that passes has only the expected names. */
  lemma PassedNames(c: Config, nodes: Nodes, path: Path, depth: nat, name: string)
    requires LevelLooks(c, nodes, path, depth) && Readable(c, depth) && path + [name] in nodes
    ensures ChildName(name, c.files, if depth > 0 then c.dirs else 0)
  {
    NamesAreTheChildren(nodes, path, name);
    LikeIsANumber(name, c.files);
    if depth > 0 {
      LikeIsANumber(name, c.dirs);
    } else {
      assert name !in Alike(Names(nodes, path), 'd', c.dirs);
    }
  }

  /** A level with a number of two digits does not pass. */
  lemma PassedIsReadable(c: Config, nodes: Nodes, path: Path, depth: nat, seed: nat)
    requires LevelLooks(c, nodes, path, depth)
    requires FilesLook(c, nodes, path, seed, c.files)
    requires depth > 0 ==> DirsLook(c, nodes, path, depth, seed, c.dirs)
    ensures Readable(c, depth)
  {
    TwoDigits(c, 10);
    if c.files > 10 {
      assert path + [FileName(10)] in nodes;
      NamesAreTheChildren(nodes, path, FileName(10));
      assert false;
    }
    if depth > 0 && c.dirs > 10 {
      TreeIsThere(c, nodes, path + [DirName(10)], depth - 1, SeedBefore(c, depth, seed, 10));
      NamesAreTheChildren(nodes, path, DirName(10));
      assert false;
    }
  }

  /** The three checks of a level together say that the tree is right. */
  lemma LevelDecides(c: Config, nodes: Nodes, path: Path, depth: nat, seed: nat)
    ensures IsTree(c, nodes, path, depth, seed) && Readable(c, depth) <==>
            && LevelLooks(c, nodes, path, depth)
            && FilesLook(c, nodes, path, seed, c.files)
            && (depth > 0 ==> DirsLook(c, nodes, path, depth, seed, c.dirs))
  {
    if IsTree(c, nodes, path, depth, seed) && Readable(c, depth) {
      TreePasses(c, nodes, path, depth, seed);
    }
    if && LevelLooks(c, nodes, path, depth)
       && FilesLook(c, nodes, path, seed, c.files)
       && (depth > 0 ==> DirsLook(c, nodes, path, depth, seed, c.dirs))
    {
      PassedIsReadable(c, nodes, path, depth, seed);
      forall name | path + [name] in nodes
        ensures ChildName(name, c.files, if depth > 0 then c.dirs else 0)
      {
        PassedNames(c, nodes, path, depth, name);
      }
    }
  }

  /** Every directory on the way to a node is there. */
  lemma {:induction false} Ancestor(nodes: Nodes, path: Path, p: Path)
    requires WellFormed(nodes) && p in nodes && Under(path, p)
    ensures path in nodes && nodes[path].Dir?
    ensures path + [p[|path|]] in nodes
    ensures p != path + [p[|path|]] ==> Under(path + [p[|path|]], p)
    decreases |p|
  {
    if |p| == |path| + 1 {
      assert Parent(p) == path && p == path + [p[|path|]];
    } else {
      assert Under(path, Parent(p)) && Parent(p)[|path|] == p[|path|];
      Ancestor(nodes, path, Parent(p));
      assert p[..|path| + 1] == path + [p[|path|]];
    }
  }

  /** What a right tree holds is directories and files of the right size, to the bottom. */
  lemma {:induction false} FilesInTree(c: Config, nodes: Nodes, path: Path, depth: nat, seed: nat, p: Path)
    requires WellFormed(nodes) && IsTree(c, nodes, path, depth, seed)
    requires p in nodes && Under(path, p)
    ensures nodes[p].File? ==> |nodes[p].data| == c.size
    decreases depth
  {
    var name := p[|path|];
    Ancestor(nodes, path, p);
    assert ChildName(name, c.files, if depth > 0 then c.dirs else 0);
    if i: nat :| i < c.files && name == FileName(i) {
      assert nodes[path + [FileName(i)]] == File(Fill(c, seed + 1 + i));
      if p != path + [name] {
        Ancestor(nodes, path + [name], p);
        assert false;
      }
    } else if depth > 0 {
      var i: nat :| i < c.dirs && name == DirName(i);
      TreeIsThere(c, nodes, path + [DirName(i)], depth - 1, SeedBefore(c, depth, seed, i));
      if p != path + [name] {
        FilesInTree(c, nodes, path + [name], depth - 1, SeedBefore(c, depth, seed, i), p);
      }
    }
  }

  ghost predicate NoLongFile(c: Config, nodes: Nodes, path: Path) {
    forall p :: p in nodes && Under(path, p) && nodes[p].File? ==> |nodes[p].data| <= c.size
  }

  lemma CutIsSame(c: Config, nodes: Nodes, path: Path)
    requires NoLongFile(c, nodes, path) && path in nodes && nodes[path].Dir?
    ensures SameFrom(nodes, Cut(c, nodes), path)
  {
    var cut := Cut(c, nodes);
    forall p | p == path || Under(path, p) ensures SameAt(nodes, cut, p) {
      if p in nodes && p != path && nodes[p].File? {
        assert |nodes[p].data| <= c.size;
      }
    }
  }

  /** The one thing that the comparison does not see: bytes behind the end of a file. */
  lemma OnlyLongFilesAreMissed(c: Config, nodes: Nodes, path: Path, depth: nat, seed: nat)
    requires WellFormed(nodes)
    ensures IsTree(c, nodes, path, depth, seed) <==>
            IsTree(c, Cut(c, nodes), path, depth, seed) && NoLongFile(c, nodes, path)
  {
    var cut := Cut(c, nodes);
    if IsTree(c, nodes, path, depth, seed) {
      forall p | p in nodes && Under(path, p) && nodes[p].File? ensures |nodes[p].data| <= c.size {
        FilesInTree(c, nodes, path, depth, seed, p);
      }
    }
    if IsTree(c, nodes, path, depth, seed) {
      TreeIsThere(c, nodes, path, depth, seed);
    }
    if IsTree(c, cut, path, depth, seed) {
      TreeIsThere(c, cut, path, depth, seed);
    }
    if NoLongFile(c, nodes, path) && path in nodes && nodes[path].Dir? {
      CutIsSame(c, nodes, path);
      TreeFrameBoth(c, nodes, cut, path, depth, seed);
    }
  }

  lemma TreeFrameBoth(c: Config, a: Nodes, b: Nodes, path: Path, depth: nat, seed: nat)
    requires SameFrom(a, b, path)
    ensures IsTree(c, a, path, depth, seed) <==> IsTree(c, b, path, depth, seed)
  {
    if IsTree(c, a, path, depth, seed) {
      TreeFrame(c, a, b, path, depth, seed);
    }
    forall p | p == path || Under(path, p) ensures SameAt(b, a, p) {
      assert SameAt(a, b, p);
    }
    if IsTree(c, b, path, depth, seed) {
      TreeFrame(c, b, a, path, depth, seed);
    }
  }

  // ---------- the number of files ----------

  function Power(b: nat, k: nat): nat {
    if k == 0 then 1 else b * Power(b, k - 1)
  }

  function PowerSum(b: nat, k: nat): nat {
    Power(b, k) + if k == 0 then 0 else PowerSum(b, k - 1)
  }

  lemma Distribute(b: nat, x: nat, y: nat)
    ensures b * (x + y) == b * x + b * y
  {
  }

  lemma {:induction false} PowerSumStep(b: nat, k: nat)
    requires k > 0
    ensures PowerSum(b, k) == 1 + b * PowerSum(b, k - 1)
  {
    if k > 1 {
      PowerSumStep(b, k - 1);
      Distribute(b, Power(b, k - 1), PowerSum(b, k - 2));
    } else {
      assert Power(b, 1) == b * Power(b, 0) && PowerSum(b, 0) == 1;
    }
  }

  lemma {:induction false} CountIsASumOfPowers(c: Config, depth: nat)
    ensures Count(c, depth) == c.files * PowerSum(c.dirs, depth)
  {
    if depth > 0 {
      CountIsASumOfPowers(c, depth - 1);
      PowerSumStep(c.dirs, depth);
      Regroup(c.files, c.dirs, PowerSum(c.dirs, depth - 1));
    }
  }

  lemma Regroup(f: nat, d: nat, q: nat)
    ensures f + d * (f * q) == f * (1 + d * q)
  {
    assert d * (f * q) == f * (d * q) by {
      assert d * (f * q) == (d * f) * q;
    }
  }

  // ---------- what g100_rmtree() can remove ----------

  /** Of the files those from `files` on, of the subdirectories those from `dirs` on, and no
      other name: all or some of a tree, as it is left when building or copying stops early. */
  ghost predicate Rest(c: Config, nodes: Nodes, path: Path, depth: nat, files: nat, dirs: nat)
    decreases depth, 0
  {
    forall name :: path + [name] in nodes ==>
      || (nodes[path + [name]].File? && exists i: nat :: files <= i < c.files && name == FileName(i))
      || (depth > 0 && Removable(c, nodes, path + [name], depth - 1) &&
          exists i: nat :: dirs <= i < c.dirs && name == DirName(i))
  }

  ghost predicate Removable(c: Config, nodes: Nodes, path: Path, depth: nat)
    decreases depth, 1
  {
    path in nodes ==> nodes[path].Dir? && Rest(c, nodes, path, depth, 0, 0)
  }

  /** The nodes without one of them and all that is under it. */
  function Prune(nodes: Nodes, q: Path): Nodes {
    map p | p in nodes && p != q && !Under(q, p) :: nodes[p]
  }

  lemma UnderParent(q: Path, p: Path)
    requires |q| > 0
    ensures q <= Parent(p) ==> Under(q, p)
  {
    if |p| > |q| {
      assert Parent(p)[..|q|] == p[..|q|];
    }
  }

  lemma PruneKeepsForm(nodes: Nodes, q: Path)
    requires WellFormed(nodes) && |q| > 0
    ensures WellFormed(Prune(nodes, q)) && SameOutside(nodes, Prune(nodes, q), Parent(q))
  {
    var left := Prune(nodes, q);
    forall p {:trigger Parent(p)} | p in left ensures Parent(p) in left && left[Parent(p)].Dir? {
      UnderParent(q, p);
    }
    assert Under(Parent(q), q);
    forall p | Under(q, p) ensures Under(Parent(q), p) {
      assert p[..|q|][..|q| - 1] == p[..|q| - 1];
    }
  }

  lemma LeafPrune(nodes: Nodes, q: Path)
    requires WellFormed(nodes) && (q in nodes && nodes[q].Dir? ==> Empty(nodes, q))
    ensures Prune(nodes, q) == nodes - {q}
  {
    forall p | p in nodes ensures !Under(q, p) {
      if Under(q, p) {
        Ancestor(nodes, q, p);
      }
    }
  }

  lemma RemovableFrame(c: Config, a: Nodes, b: Nodes, path: Path, depth: nat)
    requires Removable(c, a, path, depth) && SameFrom(a, b, path)
    ensures Removable(c, b, path, depth)
    decreases depth
  {
    assert SameAt(a, b, path);
    forall name | path in b && path + [name] in b
      ensures SameAt(a, b, path + [name])
      ensures depth > 0 && Removable(c, a, path + [name], depth - 1) ==> Removable(c, b, path + [name], depth - 1)
    {
      assert Under(path, path + [name]);
      SameFromChild(a, b, path, name);
      if depth > 0 && Removable(c, a, path + [name], depth - 1) {
        RemovableFrame(c, a, b, path + [name], depth - 1);
      }
    }
  }

  /** One child less. */
  lemma RestShrinks(c: Config, a: Nodes, path: Path, depth: nat, files: nat, dirs: nat, name: string)
    requires Rest(c, a, path, depth, files, dirs)
    ensures name == FileName(files) ==> Rest(c, Prune(a, path + [name]), path, depth, files + 1, dirs)
    ensures name == DirName(dirs) ==> Rest(c, Prune(a, path + [name]), path, depth, files, dirs + 1)
  {
    var b := Prune(a, path + [name]);
    forall other | path + [other] in b
      ensures path + [other] in a && a[path + [other]] == b[path + [other]] && other != name
      ensures depth > 0 && Removable(c, a, path + [other], depth - 1) ==> Removable(c, b, path + [other], depth - 1)
    {
      SiblingIsSame(a, b, path, name, other);
      assert SameAt(a, b, path + [other]);
      if depth > 0 && Removable(c, a, path + [other], depth - 1) {
        RemovableFrame(c, a, b, path + [other], depth - 1);
      }
    }
  }

  /** The first files and subtrees are complete; besides them there may be the next file, with
      any contents, and the next subtree, itself stopped anywhere. */
  ghost predicate StoppedAt(c: Config, nodes: Nodes, path: Path, depth: nat, seed: nat, files: nat, dirs: nat)
    decreases depth, 0
  {
    && files <= c.files && dirs <= (if depth > 0 then c.dirs else 0)
    && (forall i: nat :: i < files ==>
          path + [FileName(i)] in nodes && nodes[path + [FileName(i)]] == File(Fill(c, seed + 1 + i)))
    && (depth > 0 ==> forall i: nat :: i < dirs ==>
          IsTree(c, nodes, path + [DirName(i)], depth - 1, SeedBefore(c, depth, seed, i)))
    && forall name :: path + [name] in nodes ==>
         || ChildName(name, files, dirs)
         || (files < c.files && name == FileName(files) && nodes[path + [name]].File?)
         || (depth > 0 && dirs < c.dirs && name == DirName(dirs) &&
             Stopped(c, nodes, path + [name], depth - 1, SeedBefore(c, depth, seed, dirs)))
  }

  /** What building or copying has made of a directory when it stops, after whichever step. */
  ghost predicate Stopped(c: Config, nodes: Nodes, path: Path, depth: nat, seed: nat)
    decreases depth, 1
  {
    && path in nodes && nodes[path].Dir?
    && exists files: nat, dirs: nat :: StoppedAt(c, nodes, path, depth, seed, files, dirs)
  }

  /** Between two children. */
  lemma PartIsStopped(c: Config, nodes: Nodes, path: Path, depth: nat, seed: nat, files: nat, dirs: nat)
    requires PartTree(c, nodes, path, depth, seed, files, dirs)
    requires files <= c.files && dirs <= if depth > 0 then c.dirs else 0
    ensures Stopped(c, nodes, path, depth, seed)
  {
    assert StoppedAt(c, nodes, path, depth, seed, files, dirs);
  }

  /** In the middle of a file. */
  lemma TornFileIsStopped(c: Config, nodes: Nodes, path: Path, depth: nat, seed: nat, i: nat, data: seq<nat>)
    requires i < c.files && PartTree(c, nodes, path, depth, seed, i, 0)
    ensures Stopped(c, nodes[path + [FileName(i)] := File(data)], path, depth, seed)
  {
    var torn := nodes[path + [FileName(i)] := File(data)];
    NamesDiffer();
    OthersStay(nodes, path, FileName(i), data);
    assert StoppedAt(c, torn, path, depth, seed, i, 0);
  }

  /** In the middle of a subtree. */
  lemma StoppedBelow(c: Config, a: Nodes, b: Nodes, path: Path, depth: nat, seed: nat, i: nat)
    requires depth > 0 && i < c.dirs && PartTree(c, a, path, depth, seed, c.files, i)
    requires Stopped(c, b, path + [DirName(i)], depth - 1, SeedBefore(c, depth, seed, i))
    requires OnlyChild(a, b, path, DirName(i))
    ensures Stopped(c, b, path, depth, seed)
  {
    SiblingsStay(c, a, b, path, depth, seed, i);
    assert StoppedAt(c, b, path, depth, seed, c.files, i);
  }

  lemma TreeIsStopped(c: Config, nodes: Nodes, path: Path, depth: nat, seed: nat)
    requires IsTree(c, nodes, path, depth, seed)
    ensures Stopped(c, nodes, path, depth, seed)
  {
    PartIsStopped(c, nodes, path, depth, seed, c.files, if depth > 0 then c.dirs else 0);
  }

  /** Wherever building or copying stopped, what there is can be removed. */
  lemma {:induction false} StoppedIsRemovable(c: Config, nodes: Nodes, path: Path, depth: nat, seed: nat)
    requires Stopped(c, nodes, path, depth, seed)
    ensures Removable(c, nodes, path, depth)
    decreases depth
  {
    var files: nat, dirs: nat :| StoppedAt(c, nodes, path, depth, seed, files, dirs);
    forall name | path + [name] in nodes
      ensures || (nodes[path + [name]].File? && exists i: nat :: 0 <= i < c.files && name == FileName(i))
              || (depth > 0 && Removable(c, nodes, path + [name], depth - 1) &&
                  exists i: nat :: 0 <= i < c.dirs && name == DirName(i))
    {
      if i: nat :| i < files && name == FileName(i) {
        assert nodes[path + [FileName(i)]].File?;
      } else if i: nat :| i < dirs && name == DirName(i) {
        TreeIsStopped(c, nodes, path + [DirName(i)], depth - 1, SeedBefore(c, depth, seed, i));
        StoppedIsRemovable(c, nodes, path + [DirName(i)], depth - 1, SeedBefore(c, depth, seed, i));
      } else if files < c.files && name == FileName(files) && nodes[path + [name]].File? {
        assert 0 <= files < c.files && name == FileName(files);
      } else {
        assert 0 <= dirs < c.dirs && name == DirName(dirs);
        StoppedIsRemovable(c, nodes, path + [name], depth - 1, SeedBefore(c, depth, seed, dirs));
      }
    }
  }

  lemma NothingUnderNothing(nodes: Nodes, path: Path)
    requires WellFormed(nodes) && path !in nodes
    ensures forall name :: path + [name] !in nodes
  {
    forall name ensures path + [name] !in nodes {
      ParentOfChild(path, name);
    }
  }

  lemma NothingLeft(c: Config, nodes: Nodes, path: Path, depth: nat)
    requires Rest(c, nodes, path, depth, c.files, if depth > 0 then c.dirs else 0)
    ensures Names(nodes, path) == {}
    ensures path in nodes && nodes[path].Dir? ==> Empty(nodes, path)
  {
    forall name ensures name !in Names(nodes, path) {
      NamesAreTheChildren(nodes, path, name);
    }
  }

  lemma PruneAgrees(a: Nodes, b: Nodes, path: Path)
    requires SameOutside(a, b, path)
    ensures Prune(a, path) == Prune(b, path)
  {
    forall p | !Under(path, p) ensures SameAt(a, b, p) {
    }
  }

  lemma DirIsRemovable(c: Config, nodes: Nodes, path: Path, depth: nat, dirs: nat)
    requires depth > 0 && Rest(c, nodes, path, depth, c.files, dirs)
    ensures Removable(c, nodes, path + [DirName(dirs)], depth - 1)
  {
  }

  lemma PruneChild(c: Config, nodes: Nodes, path: Path, depth: nat, files: nat, dirs: nat, name: string)
    requires WellFormed(nodes) && Rest(c, nodes, path, depth, files, dirs)
    ensures var left := Prune(nodes, path + [name]);
      && WellFormed(left) && SameOutside(nodes, left, path)
      && (name == FileName(files) ==> Rest(c, left, path, depth, files + 1, dirs))
      && (name == DirName(dirs) ==> Rest(c, left, path, depth, files, dirs + 1))
  {
    RestShrinks(c, nodes, path, depth, files, dirs, name);
    ParentOfChild(path, name);
    PruneKeepsForm(nodes, path + [name]);
  }

  predicate HasDir(nodes: Nodes, p: Path) {
    p in nodes && nodes[p].Dir?
  }

  // ---------- the places ----------

  const MNT: Path := ["mnt", "nfs"]
  const SRC: Path := ["g100src"]
  const ROOT: Path := MNT + ["g100"]
  const DST: Path := ROOT + ["populate_root"]

  lemma TwoPlaces()
    ensures Apart(SRC, DST) && Parent(ROOT) == MNT && Parent(SRC) == [] && Parent(DST) == ROOT
  {
    assert SRC[0] != DST[0] && DST[..3] == ROOT;
  }

  lemma EmptyFrame(a: Nodes, b: Nodes, path: Path, other: Path)
    requires SameOutside(a, b, path) && Apart(path, other) && Empty(a, other)
    ensures Empty(b, other)
  {
    if Under(path, other) {
    }
    assert SameAt(a, b, other);
    forall name ensures other + [name] !in b {
      if Under(path, other + [name]) {
        OnOnePath(path, other, other + [name]);
      }
      assert SameAt(a, b, other + [name]);
    }
  }

  ghost predicate OnlyDst(nodes: Nodes) {
    forall name :: ROOT + [name] in nodes ==> ROOT + [name] == DST
  }

  lemma DstIsInRoot(p: Path)
    ensures p == DST || Under(DST, p) ==> Under(ROOT, p)
    ensures p == SRC || Under(SRC, p) ==> p != ROOT && !Under(ROOT, p)
  {
    TwoPlaces();
    if p == DST || Under(DST, p) {
      assert p[..4][..3] == p[..3];
    }
    if p == SRC || Under(SRC, p) {
      assert p[0] == SRC[0];
    }
  }

  lemma NotUnderMissing(nodes: Nodes, q: Path, p: Path)
    requires WellFormed(nodes) && q !in nodes && p in nodes
    ensures p != q && !Under(q, p)
  {
    if Under(q, p) {
      Ancestor(nodes, q, p);
    }
  }

  lemma SameEverywhere(a: Nodes, b: Nodes)
    requires forall p :: SameAt(a, b, p)
    ensures a == b
  {
    forall p ensures p in a <==> p in b {
      assert SameAt(a, b, p);
    }
    forall p | p in a ensures a[p] == b[p] {
      assert SameAt(a, b, p);
    }
  }

  /** Nothing has changed but in the two trees. */
  ghost predicate OnlyInPlaces(a: Nodes, b: Nodes) {
    forall p :: !(SRC <= p) && !(DST <= p) ==> SameAt(a, b, p)
  }

  lemma InPlacesIsTransitive(a: Nodes, b: Nodes, d: Nodes)
    requires OnlyInPlaces(a, b) && OnlyInPlaces(b, d)
    ensures OnlyInPlaces(a, d)
  {
    forall p | !(SRC <= p) && !(DST <= p) ensures SameAt(a, d, p) {
      assert SameAt(a, b, p) && SameAt(b, d, p);
    }
  }

  lemma InPlacesAt(a: Nodes, b: Nodes, p: Path)
    requires OnlyInPlaces(a, b)
    ensures SRC <= p || DST <= p || SameAt(a, b, p)
  {
  }

  lemma InOnePlace(a: Nodes, b: Nodes, path: Path)
    requires path == SRC || path == DST
    requires SameOutside(a, b, path)
    ensures OnlyInPlaces(a, b)
  {
  }

  /** Building and copying leave the rest alone, so without the two trees it is as before. */
  lemma WithoutThePlaces(nodes: Nodes, both: Nodes)
    requires WellFormed(nodes) && SRC !in nodes && ROOT !in nodes
    requires OnlyInPlaces(nodes[ROOT := Dir], both)
    ensures Prune(Prune(both, ROOT), SRC) == nodes
    ensures HasDir(both, ROOT) && OnlyDst(both)
  {
    DstIsInRoot(DST);
    DstIsInRoot(SRC);
    var left := Prune(Prune(both, ROOT), SRC);
    forall p ensures SameAt(nodes, left, p) {
      DstIsInRoot(p);
      if p in nodes {
        NotUnderMissing(nodes, SRC, p);
        NotUnderMissing(nodes, ROOT, p);
      }
      if !(SRC <= p) && !(DST <= p) {
        assert SameAt(nodes[ROOT := Dir], both, p);
      }
    }
    SameEverywhere(nodes, left);
    TwoPlaces();
    assert ROOT[0] != SRC[0] && |DST| == |ROOT| + 1;
    assert SameAt(nodes[ROOT := Dir], both, ROOT);
    forall name | ROOT + [name] in both ensures ROOT + [name] == DST {
      ParentOfChild(ROOT, name);
      NothingUnderNothing(nodes, ROOT);
      DstIsInRoot(ROOT + [name]);
      InPlacesAt(nodes[ROOT := Dir], both, ROOT + [name]);
    }
  }

  lemma PruneRoot(nodes: Nodes)
    requires WellFormed(nodes) && HasDir(nodes, ROOT) && OnlyDst(nodes)
    ensures var left := Prune(nodes, DST);
      Names(left, ROOT) == {} && ROOT in left && left - {ROOT} == Prune(nodes, ROOT)
    ensures WellFormed(Prune(nodes, ROOT))
  {
    var left := Prune(nodes, DST);
    TwoPlaces();
    PruneKeepsForm(nodes, DST);
    PruneKeepsForm(nodes, ROOT);
    forall name ensures name !in Names(left, ROOT) && ROOT + [name] !in left {
      NamesAreTheChildren(left, ROOT, name);
    }
    LeafPrune(left, ROOT);
    forall p | p == DST || Under(DST, p) ensures Under(ROOT, p) {
      DstIsInRoot(p);
    }
  }

  lemma EmptyIsRemovable(c: Config, nodes: Nodes, path: Path, depth: nat)
    requires path in nodes ==> Empty(nodes, path)
    ensures Removable(c, nodes, path, depth)
  {
  }

  lemma NoTreesYet(c: Config, nodes: Nodes, depth: nat)
    requires (SRC in nodes ==> Empty(nodes, SRC)) && DST !in nodes
    ensures Removable(c, nodes, SRC, depth) && Removable(c, nodes, DST, depth)
  {
    EmptyIsRemovable(c, nodes, SRC, depth);
  }

  lemma StillRemovable(c: Config, nodes: Nodes, depth: nat)
    requires Removable(c, nodes, SRC, depth)
    ensures Removable(c, Prune(nodes, ROOT), SRC, depth)
  {
    var left := Prune(nodes, ROOT);
    forall p | p == SRC || Under(SRC, p) ensures SameAt(nodes, left, p) {
      assert p[0] == SRC[0];
    }
    RemovableFrame(c, nodes, left, SRC, depth);
  }

  // ---------- the recursions ----------

  const EEXIST := -17
  const ENOENT := -2
  const EISDIR := -21
  const EIO := -5

  /** What becomes of a call: it does its work, it fails, or, being a write, it fails after n bytes. */
  datatype Outcome = Fine | Refused | Torn(n: nat)

  ghost predicate AllFine(outcome: nat -> Outcome, from: nat, to: nat) {
    from <= to && forall k: nat :: from <= k < to ==> outcome(k).Fine?
  }

  /** The calls made so far: `ok` tells whether all of them did their work. */
  ghost predicate Ran(outcome: nat -> Outcome, from: nat, to: nat, ok: bool) {
    from <= to && (ok <==> AllFine(outcome, from, to))
  }

  /** The tree is still a tree, and nothing has changed outside the directory. */
  ghost predicate KeptOutside(a: Nodes, b: Nodes, dir: Path) {
    WellFormed(b) && SameOutside(a, b, dir)
  }

  lemma RunsOn(outcome: nat -> Outcome, from: nat, mid: nat, to: nat, ok: bool)
    requires Ran(outcome, from, mid, true) && Ran(outcome, mid, to, ok)
    ensures Ran(outcome, from, to, ok)
  {
    if !ok {
      var k: nat :| mid <= k < to && !outcome(k).Fine?;
      assert from <= k < to;
    }
  }

  /** What has reached the file. */
  function Written(o: Outcome, data: seq<nat>): seq<nat> {
    if o.Torn? && o.n < |data| then data[..o.n] else data
  }

  /** What writing file number i comes to, depending on how the call ends. */
  lemma FileEnds(c: Config, a: Nodes, b: Nodes, dir: Path, depth: nat, seed: nat, i: nat, o: Outcome)
    requires i < c.files && PartTree(c, a, dir, depth, seed, i, 0)
    requires b == if o.Refused? then a else a[dir + [FileName(i)] := File(Written(o, Fill(c, seed + 1 + i)))]
    ensures SameOutside(a, b, dir)
    ensures o.Fine? ==> PartTree(c, b, dir, depth, seed, i + 1, 0)
    ensures Stopped(c, b, dir, depth, seed)
  {
    ParentOfChild(dir, FileName(i));
    if o.Refused? {
      PartIsStopped(c, a, dir, depth, seed, i, 0);
    } else {
      TornFileIsStopped(c, a, dir, depth, seed, i, Written(o, Fill(c, seed + 1 + i)));
    }
    if o.Fine? {
      AddFile(c, a, dir, depth, seed, i);
    }
  }

  lemma RoomForFile(c: Config, nodes: Nodes, dir: Path, depth: nat, seed: nat, i: nat)
    requires i < c.files && PartTree(c, nodes, dir, depth, seed, i, 0)
    ensures HasDir(nodes, Parent(dir + [FileName(i)])) && dir + [FileName(i)] !in nodes
  {
    ParentOfChild(dir, FileName(i));
    AddFile(c, nodes, dir, depth, seed, i);
  }

  class Walk {
    const c: Config
    /** What becomes of the k-th call that building and copying make. */
    const outcome: nat -> Outcome
    var calls: nat
    var nodes: Nodes
    var path: Path
    var dst: Path
    var seed: nat

    method Call() returns (o: Outcome)
      modifies this`calls
      ensures o == outcome(old(calls)) && calls == old(calls) + 1
    {
      o := outcome(calls);
      calls := calls + 1;
    }

    /** A file that is there already is overwritten. */
    method WriteNew(p: Path, data: seq<nat>) returns (err: int)
      requires WellFormed(nodes) && |p| > 0
      modifies this`nodes, this`calls
      ensures WellFormed(nodes) && calls == old(calls) + 1
      ensures var o := outcome(old(calls));
        var possible := HasDir(old(nodes), Parent(p)) && !HasDir(old(nodes), p);
        && (err == 0 <==> possible && o.Fine?)
        && nodes == if possible && !o.Refused? then old(nodes)[p := File(Written(o, data))] else old(nodes)
    {
      var o := Call();
      if !HasDir(nodes, Parent(p)) { return ENOENT; }
      if HasDir(nodes, p) { return EISDIR; }
      if o.Refused? { return EIO; }
      nodes := nodes[p := File(Written(o, data))];
      err := if o.Fine? then 0 else EIO;
    }

    method Mkdir(p: Path) returns (err: int)
      requires WellFormed(nodes) && |p| > 0
      modifies this`nodes, this`calls
      ensures WellFormed(nodes) && calls == old(calls) + 1
      ensures err == 0 <==> HasDir(old(nodes), Parent(p)) && p !in old(nodes) && outcome(old(calls)).Fine?
      ensures nodes == if err == 0 then old(nodes)[p := Dir] else old(nodes)
    {
      var o := Call();
      if !HasDir(nodes, Parent(p)) { return ENOENT; }
      if p in nodes { return EEXIST; }
      if !o.Fine? { return EIO; }
      nodes := nodes[p := Dir];
      err := 0;
    }

    /** The first `size` bytes, and how many there are or a negative error. */
    method ReadRange(p: Path) returns (data: seq<nat>, n: int)
      modifies this`calls
      ensures calls == old(calls) + 1
      ensures if p in nodes && nodes[p].File? && outcome(old(calls)).Fine? then
          n == |data| && data == if |nodes[p].data| <= c.size then nodes[p].data else nodes[p].data[..c.size]
        else n < 0
    {
      var o := Call();
      if p !in nodes { return [], ENOENT; }
      if nodes[p].Dir? { return [], EISDIR; }
      if !o.Fine? { return [], EIO; }
      data := if |nodes[p].data| <= c.size then nodes[p].data else nodes[p].data[..c.size];
      n := |data|;
    }

    /** Writes file number i of a directory. */
    method WriteChild(p: Path, data: seq<nat>, ghost dir: Path, ghost i: nat, ghost depth: nat, ghost start: nat)
      returns (ok: bool)
      requires i < c.files && p == dir + [FileName(i)] && data == Fill(c, start + 1 + i)
      requires WellFormed(nodes) && PartTree(c, nodes, dir, depth, start, i, 0)
      modifies this`nodes, this`calls
      ensures KeptOutside(old(nodes), nodes, dir) && Ran(outcome, old(calls), calls, ok)
      ensures ok ==> PartTree(c, nodes, dir, depth, start, i + 1, 0)
      ensures !ok ==> Stopped(c, nodes, dir, depth, start)
    {
      RoomForFile(c, nodes, dir, depth, start, i);
      var err := WriteNew(p, data);
      ok := err == 0;
      FileEnds(c, old(nodes), nodes, dir, depth, start, i, outcome(old(calls)));
    }

    /** The body of the loop over files. */
    method BuildFile(i: nat, ghost depth: nat, ghost start: nat) returns (ok: bool)
      requires i < c.files && seed == start + i
      requires WellFormed(nodes) && PartTree(c, nodes, path, depth, start, i, 0)
      modifies this`nodes, this`path, this`seed, this`calls
      ensures KeptOutside(old(nodes), nodes, old(path)) && Ran(outcome, old(calls), calls, ok)
      ensures ok ==> path == old(path) && seed == old(seed) + 1 && PartTree(c, nodes, path, depth, start, i + 1, 0)
      ensures !ok ==> Stopped(c, nodes, old(path), depth, start)
    {
      var len := |path|;
      path := path + [FileName(i)];
      seed := seed + 1;
      ok := WriteChild(path, Fill(c, seed), old(path), i, depth, start);
      if !ok { return; }
      path := path[..len];
    }

    /** One level's files. */
    method BuildFiles(ghost depth: nat) returns (ok: bool)
      requires WellFormed(nodes) && Empty(nodes, path)
      modifies this`nodes, this`path, this`seed, this`calls
      ensures KeptOutside(old(nodes), nodes, old(path)) && Ran(outcome, old(calls), calls, ok)
      ensures ok ==> path == old(path) && seed == old(seed) + c.files
      ensures ok ==> PartTree(c, nodes, path, depth, old(seed), c.files, 0)
      ensures !ok ==> Stopped(c, nodes, old(path), depth, old(seed))
    {
      for i := 0 to c.files
        invariant path == old(path) && seed == old(seed) + i
        invariant WellFormed(nodes) && PartTree(c, nodes, path, depth, old(seed), i, 0)
        invariant SameOutside(old(nodes), nodes, path) && Ran(outcome, old(calls), calls, true)
      {
        ghost var before := nodes;
        ok := BuildFile(i, depth, old(seed));
        OutsideIsTransitive(old(nodes), before, nodes, old(path));
        if !ok { return; }
      }
      ok := true;
    }

    /** g100_build(): makes the tree under the buffer's path and hands that back unchanged, unless
        a call fails.  Then it stops at once and leaves what there is. */
    method Build(depth: nat) returns (ok: bool)
      requires WellFormed(nodes) && Empty(nodes, path)
      modifies this`nodes, this`path, this`seed, this`calls
      ensures KeptOutside(old(nodes), nodes, old(path)) && Ran(outcome, old(calls), calls, ok)
      ensures ok ==> path == old(path) && seed == old(seed) + Count(c, depth)
      ensures ok ==> IsTree(c, nodes, path, depth, old(seed))
      ensures !ok ==> Stopped(c, nodes, old(path), depth, old(seed))
      decreases depth
    {
      ok := BuildFiles(depth);
      if depth == 0 || !ok { return; }
      SeedAdvances(c, depth, old(seed), 0);
      for i := 0 to c.dirs
        invariant path == old(path) && seed == SeedBefore(c, depth, old(seed), i)
        invariant WellFormed(nodes) && PartTree(c, nodes, path, depth, old(seed), c.files, i)
        invariant SameOutside(old(nodes), nodes, path) && Ran(outcome, old(calls), calls, true)
      {
        ghost var before := nodes;
        ok := BuildSubtree(depth, i, old(seed));
        OutsideIsTransitive(old(nodes), before, nodes, old(path));
        if !ok { return; }
        SeedAdvances(c, depth, old(seed), i);
      }
      ok := true;
    }

    /** Makes subdirectory number i of a directory. */
    method MkChild(p: Path, ghost dir: Path, ghost i: nat, ghost depth: nat, ghost start: nat) returns (ok: bool)
      requires depth > 0 && i < c.dirs && p == dir + [DirName(i)]
      requires WellFormed(nodes) && PartTree(c, nodes, dir, depth, start, c.files, i)
      modifies this`nodes, this`calls
      ensures KeptOutside(old(nodes), nodes, dir) && Ran(outcome, old(calls), calls, ok)
      ensures ok ==> nodes == old(nodes)[p := Dir] && Empty(nodes, p)
      ensures !ok ==> Stopped(c, nodes, dir, depth, start)
    {
      NoSuchChild(c, nodes, dir, depth, start, i);
      PartIsStopped(c, nodes, dir, depth, start, c.files, i);
      ParentOfChild(dir, DirName(i));
      NewDirIsEmpty(nodes, p);
      SameOutsideOfNew(nodes, p);
      var err := Mkdir(p);
      ok := err == 0;
    }

    /** The body of the loop over subdirectories. */
    method BuildSubtree(depth: nat, i: nat, ghost start: nat) returns (ok: bool)
      requires depth > 0 && i < c.dirs && seed == SeedBefore(c, depth, start, i)
      requires WellFormed(nodes) && PartTree(c, nodes, path, depth, start, c.files, i)
      modifies this`nodes, this`path, this`seed, this`calls
      ensures KeptOutside(old(nodes), nodes, old(path)) && Ran(outcome, old(calls), calls, ok)
      ensures ok ==> path == old(path) && seed == old(seed) + Count(c, depth - 1)
      ensures ok ==> PartTree(c, nodes, path, depth, start, c.files, i + 1)
      ensures !ok ==> Stopped(c, nodes, old(path), depth, start)
      decreases depth, 0
    {
      var len := |path|;
      path := path + [DirName(i)];
      ok := MkChild(path, old(path), i, depth, start);
      if !ok { return; }
      ok := Build(depth - 1);
      SubtreeEnds(c, old(nodes), nodes, old(path), depth, start, i, ok);
      if !ok { return; }
      path := path[..len];
    }

    // ----- copying: `path` is the source buffer, `dst` the other one -----

    /** One file read whole. */
    method ReadSource(p: Path, ghost s: nat) returns (ok: bool, data: seq<nat>)
      requires FileLooks(c, nodes, p, s)
      modifies this`calls
      ensures Ran(outcome, old(calls), calls, ok)
      ensures ok ==> data == Fill(c, s)
    {
      var n;
      data, n := ReadRange(p);
      ok := n == c.size;
    }

    method CopyFile(i: nat, ghost depth: nat, ghost start: nat) returns (ok: bool)
      requires i < c.files && FileLooks(c, nodes, path + [FileName(i)], start + 1 + i)
      requires WellFormed(nodes) && PartTree(c, nodes, dst, depth, start, i, 0)
      modifies this`nodes, this`path, this`dst, this`calls
      ensures KeptOutside(old(nodes), nodes, old(dst)) && Ran(outcome, old(calls), calls, ok)
      ensures ok ==> path == old(path) && dst == old(dst) && PartTree(c, nodes, dst, depth, start, i + 1, 0)
      ensures !ok ==> Stopped(c, nodes, old(dst), depth, start)
    {
      var slen, dlen := |path|, |dst|;
      path := path + [FileName(i)];
      dst := dst + [FileName(i)];
      var data;
      ok, data := ReadSource(path, start + 1 + i);
      PartIsStopped(c, nodes, old(dst), depth, start, i, 0);
      if !ok { return; }
      ghost var mid := calls;
      ok := WriteChild(dst, data, old(dst), i, depth, start);
      RunsOn(outcome, old(calls), mid, calls, ok);
      if !ok { return; }
      path := path[..slen];
      dst := dst[..dlen];
    }

    method CopyFiles(ghost depth: nat, ghost start: nat) returns (ok: bool)
      requires Apart(path, dst) && Empty(nodes, dst)
      requires WellFormed(nodes) && IsTree(c, nodes, path, depth, start)
      modifies this`nodes, this`path, this`dst, this`calls
      ensures KeptOutside(old(nodes), nodes, old(dst)) && Ran(outcome, old(calls), calls, ok)
      ensures ok ==> path == old(path) && dst == old(dst) && PartTree(c, nodes, dst, depth, start, c.files, 0)
      ensures !ok ==> Stopped(c, nodes, old(dst), depth, start)
    {
      for i := 0 to c.files
        invariant path == old(path) && dst == old(dst)
        invariant WellFormed(nodes) && PartTree(c, nodes, dst, depth, start, i, 0)
        invariant SameOutside(old(nodes), nodes, dst) && Ran(outcome, old(calls), calls, true)
      {
        ghost var before := nodes;
        SourceIsSame(c, old(nodes), nodes, path, dst, depth, start);
        SourceFile(c, nodes, path, depth, start, i);
        ok := CopyFile(i, depth, start);
        OutsideIsTransitive(old(nodes), before, nodes, old(dst));
        if !ok { return; }
      }
      ok := true;
    }

    /** g100_copy(): makes under `dst` the tree that is under `path` and hands both buffers back
        unchanged, unless a call fails. */
    method Copy(depth: nat, ghost start: nat) returns (ok: bool)
      requires Apart(path, dst) && Empty(nodes, dst)
      requires WellFormed(nodes) && IsTree(c, nodes, path, depth, start)
      modifies this`nodes, this`path, this`dst, this`calls
      ensures KeptOutside(old(nodes), nodes, old(dst)) && Ran(outcome, old(calls), calls, ok)
      ensures ok ==> path == old(path) && dst == old(dst) && IsTree(c, nodes, dst, depth, start)
      ensures !ok ==> Stopped(c, nodes, old(dst), depth, start)
      decreases depth
    {
      ok := CopyFiles(depth, start);
      if depth == 0 || !ok { return; }
      for i := 0 to c.dirs
        invariant path == old(path) && dst == old(dst)
        invariant WellFormed(nodes) && PartTree(c, nodes, dst, depth, start, c.files, i)
        invariant SameOutside(old(nodes), nodes, dst) && Ran(outcome, old(calls), calls, true)
      {
        ghost var before := nodes;
        SourceIsSame(c, old(nodes), nodes, path, dst, depth, start);
        ok := CopySubtree(depth, i, start);
        OutsideIsTransitive(old(nodes), before, nodes, old(dst));
        if !ok { return; }
      }
      ok := true;
    }

    method CopySubtree(depth: nat, i: nat, ghost start: nat) returns (ok: bool)
      requires depth > 0 && i < c.dirs && Apart(path, dst)
      requires WellFormed(nodes) && IsTree(c, nodes, path, depth, start)
      requires PartTree(c, nodes, dst, depth, start, c.files, i)
      modifies this`nodes, this`path, this`dst, this`calls
      ensures KeptOutside(old(nodes), nodes, old(dst)) && Ran(outcome, old(calls), calls, ok)
      ensures ok ==> path == old(path) && dst == old(dst) && PartTree(c, nodes, dst, depth, start, c.files, i + 1)
      ensures !ok ==> Stopped(c, nodes, old(dst), depth, start)
      decreases depth, 0
    {
      var slen, dlen := |path|, |dst|;
      ghost var seedThere := SeedBefore(c, depth, start, i);
      path := path + [DirName(i)];
      dst := dst + [DirName(i)];
      ApartBelow(old(path), old(dst), DirName(i));
      ok := MkChild(dst, old(dst), i, depth, start);
      if !ok { return; }
      SourceIsSame(c, old(nodes), nodes, path, old(dst), depth - 1, seedThere);
      ok := Copy(depth - 1, seedThere);
      SubtreeEnds(c, old(nodes), nodes, old(dst), depth, start, i, ok);
      if !ok { return; }
      path := path[..slen];
      dst := dst[..dlen];
    }

    // ----- verifying -----

    /** g100_verify_dir(): counts the entries by the look of their names. */
    method VerifyDir(depth: nat) returns (ok: bool)
      ensures ok <==> LevelLooks(c, nodes, path, depth)
    {
      if path !in nodes || nodes[path].File? { return false; }
      var todo, files, dirs, alien := Names(nodes, path), 0, 0, 0;
      ghost var done: set<string> := {};
      while todo != {}
        invariant done + todo == Names(nodes, path) && done !! todo
        invariant files == |Alike(done, 'f', c.files)| && dirs == |Alike(done, 'd', c.dirs)|
        invariant alien >= 0 && (alien == 0 <==> forall name :: name in done ==> Expected(c, name))
        decreases |todo|
      {
        var name :| name in todo;
        OneNameMore(done, name, 'f', c.files);
        OneNameMore(done, name, 'd', c.dirs);
        if Like(name, 'd', c.dirs) {
          dirs := dirs + 1;
        } else if Like(name, 'f', c.files) {
          files := files + 1;
        } else {
          alien := alien + 1;
        }
        todo, done := todo - {name}, done + {name};
      }
      assert done == Names(nodes, path);
      ok := files == c.files && dirs == (if depth > 0 then c.dirs else 0) && alien == 0;
    }

    /** The comparison of what was read with the file's bytes. */
    method SameBytes(data: seq<nat>, s: nat) returns (same: bool)
      requires |data| >= c.size
      ensures same <==> data[..c.size] == Fill(c, s)
    {
      same := true;
      var j := 0;
      while j < c.size && same
        invariant 0 <= j <= c.size
        invariant same <==> forall k :: 0 <= k < j ==> data[k] == Byte(s, k)
        invariant !same ==> exists k :: 0 <= k < c.size && data[k] != Byte(s, k)
      {
        same := data[j] == Byte(s, j);
        j := j + 1;
      }
      if !same {
        var k :| 0 <= k < c.size && data[k] != Byte(s, k);
        assert data[..c.size][k] != Fill(c, s)[k];
      }
    }

    /** The read asks for `size` bytes and sees nothing behind them; a short one ends the test. */
    method VerifyFile(i: nat) returns (read: bool, same: bool)
      modifies this`path, this`seed
      ensures same ==> read
      ensures same <==> FileLooks(c, Cut(c, nodes), old(path) + [FileName(i)], seed)
      ensures seed == old(seed) + 1 && (read ==> path == old(path))
    {
      var len := |path|;
      seed := seed + 1;
      path := path + [FileName(i)];
      if path !in nodes || nodes[path].Dir? || |nodes[path].data| < c.size {
        return false, false;
      }
      read := true;
      same := SameBytes(nodes[path].data, seed);
      path := path[..len];
    }

    /** One level's files. */
    method VerifyFiles() returns (ok: bool)
      modifies this`path, this`seed
      ensures ok <==> FilesLook(c, Cut(c, nodes), old(path), old(seed), c.files)
      ensures ok ==> path == old(path) && seed == old(seed) + c.files
    {
      ok := true;
      ghost var cut := Cut(c, nodes);
      for i := 0 to c.files
        invariant path == old(path) && seed == old(seed) + i
        invariant ok <==> FilesLook(c, cut, path, old(seed), i)
      {
        var read, same := VerifyFile(i);
        ok := ok && same;
        if !read { return; }
      }
    }

    /** g100_verify(): passes exactly the right trees, as far as the names have one digit and not
        looking behind the first `size` bytes of a file. */
    method Verify(depth: nat) returns (ok: bool)
      modifies this`path, this`seed
      ensures ok <==> IsTree(c, Cut(c, nodes), old(path), depth, old(seed)) && Readable(c, depth)
      ensures ok ==> path == old(path) && seed == old(seed) + Count(c, depth)
      decreases depth
    {
      ghost var cut := Cut(c, nodes);
      LevelDecides(c, cut, path, depth, seed);
      CutKeepsNames(c, nodes, path);
      ok := VerifyDir(depth);
      var files := VerifyFiles();
      if !files { return false; }
      ok := ok && files;
      if depth == 0 || !ok { return; }
      var dirs := VerifyDirs(depth, old(seed));
      ok := dirs;
    }

    /** The loop over subdirectories. */
    method VerifyDirs(depth: nat, ghost start: nat) returns (ok: bool)
      requires depth > 0 && seed == start + c.files
      modifies this`path, this`seed
      ensures ok ==> DirsLook(c, Cut(c, nodes), old(path), depth, start, c.dirs)
      ensures ok ==> path == old(path) && seed == start + Count(c, depth)
      ensures !ok ==> !(DirsLook(c, Cut(c, nodes), old(path), depth, start, c.dirs) && Readable(c, depth))
      decreases depth, 0, 1
    {
      ghost var cut := Cut(c, nodes);
      SeedAdvances(c, depth, start, 0);
      for i := 0 to c.dirs
        invariant path == old(path) && seed == SeedBefore(c, depth, start, i)
        invariant DirsLook(c, cut, path, depth, start, i)
      {
        ok := VerifySubtree(depth, i, start);
        if !ok { return; }
        SeedAdvances(c, depth, start, i);
      }
      ok := true;
    }

    method VerifySubtree(depth: nat, i: nat, ghost start: nat) returns (ok: bool)
      requires depth > 0 && i < c.dirs && seed == SeedBefore(c, depth, start, i)
      modifies this`path, this`seed
      ensures ok ==> IsTree(c, Cut(c, nodes), old(path) + [DirName(i)], depth - 1, old(seed))
      ensures ok ==> path == old(path) && seed == old(seed) + Count(c, depth - 1)
      ensures !ok ==> !(IsTree(c, Cut(c, nodes), old(path) + [DirName(i)], depth - 1, old(seed)) && Readable(c, depth))
      decreases depth, 0, 0
    {
      var len := |path|;
      path := path + [DirName(i)];
      ok := Verify(depth - 1);
      if ok { path := path[..len]; }
    }

    // ----- removing: errors are ignored -----

    method Unlink(p: Path)
      modifies this`nodes
      ensures nodes == if p in old(nodes) && old(nodes)[p].File? then old(nodes) - {p} else old(nodes)
    {
      if p in nodes && nodes[p].File? { nodes := nodes - {p}; }
    }

    /** A directory goes only if nothing is in it. */
    method Rmdir(p: Path)
      modifies this`nodes
      ensures nodes == if p in old(nodes) && old(nodes)[p].Dir? && Names(old(nodes), p) == {}
        then old(nodes) - {p} else old(nodes)
    {
      if p in nodes && nodes[p].Dir? && Names(nodes, p) == {} { nodes := nodes - {p}; }
    }

    method RmFile(i: nat, ghost depth: nat)
      requires i < c.files && WellFormed(nodes) && Rest(c, nodes, path, depth, i, 0)
      modifies this`nodes, this`path
      ensures path == old(path) && nodes == Prune(old(nodes), path + [FileName(i)])
    {
      var len := |path|;
      NamesDiffer();
      path := path + [FileName(i)];
      LeafPrune(nodes, path);
      Unlink(path);
      path := path[..len];
    }

    /** g100_rmtree(): the whole tree or what there is of it, and nothing else. */
    method Rmtree(depth: nat)
      requires WellFormed(nodes) && Removable(c, nodes, path, depth) && |path| > 0
      modifies this`nodes, this`path
      ensures path == old(path) && nodes == Prune(old(nodes), path)
      ensures WellFormed(nodes)
      decreases depth, 1
    {
      if path !in nodes { NothingUnderNothing(nodes, path); }
      RmFiles(depth);
      ghost var before := nodes;
      if depth > 0 { RmDirs(depth); }
      OutsideIsTransitive(old(nodes), before, nodes, path);
      NothingLeft(c, nodes, path, depth);
      assert SameAt(old(nodes), nodes, path);
      LeafPrune(nodes, path);
      assert path !in nodes ==> nodes - {path} == nodes;
      PruneAgrees(old(nodes), nodes, path);
      PruneKeepsForm(old(nodes), path);
      Rmdir(path);
    }

    method RmFiles(ghost depth: nat)
      requires WellFormed(nodes) && Rest(c, nodes, path, depth, 0, 0)
      modifies this`nodes, this`path
      ensures path == old(path) && WellFormed(nodes) && SameOutside(old(nodes), nodes, path)
      ensures Rest(c, nodes, path, depth, c.files, 0)
    {
      for i := 0 to c.files
        invariant path == old(path) && WellFormed(nodes) && SameOutside(old(nodes), nodes, path)
        invariant Rest(c, nodes, path, depth, i, 0)
      {
        ghost var before := nodes;
        RmFile(i, depth);
        PruneChild(c, before, path, depth, i, 0, FileName(i));
        OutsideIsTransitive(old(nodes), before, nodes, path);
      }
    }

    method RmDirs(depth: nat)
      requires depth > 0 && WellFormed(nodes) && Rest(c, nodes, path, depth, c.files, 0)
      modifies this`nodes, this`path
      ensures path == old(path) && WellFormed(nodes) && SameOutside(old(nodes), nodes, path)
      ensures Rest(c, nodes, path, depth, c.files, c.dirs)
      decreases depth, 0
    {
      var len := |path|;
      for i := 0 to c.dirs
        invariant path == old(path) && WellFormed(nodes) && SameOutside(old(nodes), nodes, path)
        invariant Rest(c, nodes, path, depth, c.files, i)
      {
        ghost var before := nodes;
        DirIsRemovable(c, nodes, path, depth, i);
        path := path + [DirName(i)];
        Rmtree(depth - 1);
        path := path[..len];
        PruneChild(c, before, path, depth, c.files, i, DirName(i));
        OutsideIsTransitive(old(nodes), before, nodes, path);
      }
    }

    // ----- the test -----

    /** a_copied_tree_matches_the_original(), with the cleanup that ends it: whichever calls fail,
        it passes exactly if none does and the names have one digit, and it leaves everything as it
        was. */
    method RunTest(depth: nat) returns (ok: bool)
      requires WellFormed(nodes) && SRC !in nodes && ROOT !in nodes
      requires HasDir(nodes, []) && HasDir(nodes, MNT)
      modifies this
      ensures ok <==> AllFine(outcome, old(calls), calls) && Readable(c, depth)
      ensures nodes == old(nodes)
    {
      TwoPlaces();
      NewDirIsEmpty(nodes, ROOT);
      var err := Mkdir(ROOT);
      if err != 0 { return false; }
      ghost var rooted := nodes;
      ok := MakeTrees(depth);
      if ok { ok := Compare(depth); }
      WithoutThePlaces(old(nodes), nodes);
      Clean(depth);
    }

    method Compare(depth: nat) returns (ok: bool)
      requires WellFormed(nodes) && IsTree(c, nodes, DST, depth, 0)
      modifies this`path, this`seed
      ensures ok <==> Readable(c, depth)
    {
      seed := 0;
      path := DST;
      OnlyLongFilesAreMissed(c, nodes, DST, depth, 0);
      ok := Verify(depth);
    }

    /** Everything between the registration of the cleanup and the comparison. */
    method MakeTrees(depth: nat) returns (ok: bool)
      requires WellFormed(nodes) && Empty(nodes, ROOT) && SRC !in nodes && HasDir(nodes, [])
      modifies this
      ensures WellFormed(nodes) && OnlyInPlaces(old(nodes), nodes) && Ran(outcome, old(calls), calls, ok)
      ensures Removable(c, nodes, SRC, depth) && Removable(c, nodes, DST, depth)
      ensures ok ==> IsTree(c, nodes, DST, depth, 0)
    {
      TwoPlaces();
      ok := MakeDirs();
      if !ok { NoTreesYet(c, nodes, depth); return; }
      ghost var made := nodes;
      seed := 0;
      path := SRC;
      ok := Build(depth);
      ghost var source := nodes;
      InOnePlace(made, source, SRC);
      InPlacesIsTransitive(old(nodes), made, source);
      EmptyFrame(made, source, SRC, DST);
      EmptyIsRemovable(c, source, DST, depth);
      if !ok { StoppedIsRemovable(c, nodes, SRC, depth, 0); return; }
      path, dst := SRC, DST;
      ok := Copy(depth, 0);
      InOnePlace(source, nodes, DST);
      InPlacesIsTransitive(old(nodes), source, nodes);
      SourceIsSame(c, source, nodes, SRC, DST, depth, 0);
      TreeIsStopped(c, nodes, SRC, depth, 0);
      StoppedIsRemovable(c, nodes, SRC, depth, 0);
      if ok { TreeIsStopped(c, nodes, DST, depth, 0); }
      StoppedIsRemovable(c, nodes, DST, depth, 0);
    }

    /** The two trees' top directories. */
    method MakeDirs() returns (ok: bool)
      requires WellFormed(nodes) && Empty(nodes, ROOT) && SRC !in nodes && HasDir(nodes, [])
      modifies this`nodes, this`calls
      ensures WellFormed(nodes) && OnlyInPlaces(old(nodes), nodes) && Ran(outcome, old(calls), calls, ok)
      ensures ok ==> Empty(nodes, SRC) && Empty(nodes, DST)
      ensures !ok ==> (SRC in nodes ==> Empty(nodes, SRC)) && DST !in nodes
    {
      TwoPlaces();
      assert DST !in nodes by { assert DST == ROOT + ["populate_root"]; }
      NewDirIsEmpty(nodes, SRC);
      var err := Mkdir(SRC);
      if err != 0 { return false; }
      NewDirIsEmpty(nodes, DST);
      err := Mkdir(DST);
      ok := err == 0;
    }

    /** g100_remove_tree(). */
    method Clean(depth: nat)
      requires WellFormed(nodes) && Removable(c, nodes, SRC, depth) && Removable(c, nodes, DST, depth)
      requires HasDir(nodes, ROOT) && OnlyDst(nodes)
      modifies this`nodes, this`path
      ensures nodes == Prune(Prune(old(nodes), ROOT), SRC)
    {
      TwoPlaces();
      path := DST;
      Rmtree(depth);
      PruneRoot(old(nodes));
      Rmdir(ROOT);
      path := SRC;
      StillRemovable(c, old(nodes), depth);
      Rmtree(depth);
    }
  }

  /** Neither path lies on or below the other. */
  predicate Apart(a: Path, b: Path) {
    !(a <= b) && !(b <= a)
  }

  lemma ApartBelow(a: Path, b: Path, name: string)
    requires Apart(a, b)
    ensures Apart(a + [name], b + [name]) && Apart(a + [name], b)
  {
    if |a| <= |b| {
      assert b[..|a|] != a && (b + [name])[..|a|] == b[..|a|] && (a + [name])[..|a|] == a;
      assert |a| < |b| ==> b[..|a| + 1][..|a|] == b[..|a|];
    } else {
      assert a[..|b|] != b && (a + [name])[..|b|] == a[..|b|];
    }
  }

  /** Two directories on one path: the path runs through both. */
  lemma OnOnePath(a: Path, b: Path, p: Path)
    requires a <= p && b <= p
    ensures !Apart(a, b)
  {
    if |a| <= |b| {
      assert p[..|b|][..|a|] == p[..|a|];
    } else {
      assert p[..|a|][..|b|] == p[..|b|];
    }
  }

  /** A new subdirectory has been filled, to the end or not. */
  lemma SubtreeEnds(c: Config, a: Nodes, b: Nodes, path: Path, depth: nat, seed: nat, i: nat, done: bool)
    requires depth > 0 && i < c.dirs && PartTree(c, a, path, depth, seed, c.files, i)
    requires SameOutside(a[path + [DirName(i)] := Dir], b, path + [DirName(i)])
    requires done ==> IsTree(c, b, path + [DirName(i)], depth - 1, SeedBefore(c, depth, seed, i))
    requires !done ==> Stopped(c, b, path + [DirName(i)], depth - 1, SeedBefore(c, depth, seed, i))
    ensures SameOutside(a, b, path)
    ensures done ==> PartTree(c, b, path, depth, seed, c.files, i + 1)
    ensures !done ==> Stopped(c, b, path, depth, seed)
  {
    OnlyChildChanged(a, a[path + [DirName(i)] := Dir], b, path, DirName(i));
    if done {
      AddTree(c, a, b, path, depth, seed, i);
    } else {
      StoppedBelow(c, a, b, path, depth, seed, i);
    }
  }

  lemma SourceFile(c: Config, nodes: Nodes, path: Path, depth: nat, seed: nat, i: nat)
    requires i < c.files && IsTree(c, nodes, path, depth, seed)
    ensures FileLooks(c, nodes, path + [FileName(i)], seed + 1 + i)
  {
  }

  lemma SourceIsSame(c: Config, a: Nodes, b: Nodes, src: Path, dst: Path, depth: nat, seed: nat)
    requires IsTree(c, a, src, depth, seed) && SameOutside(a, b, dst) && Apart(src, dst)
    ensures IsTree(c, b, src, depth, seed)
  {
    forall p | p == src || Under(src, p) ensures SameAt(a, b, p) {
      if Under(dst, p) {
        OnOnePath(src, dst, p);
      }
    }
    TreeFrame(c, a, b, src, depth, seed);
  }

  lemma SameOutsideOfNew(a: Nodes, p: Path)
    requires |p| > 0
    ensures SameOutside(a, a[p := Dir], Parent(p))
  {
    assert Under(Parent(p), p);
  }

  lemma NoSuchChild(c: Config, nodes: Nodes, path: Path, depth: nat, seed: nat, i: nat)
    requires PartTree(c, nodes, path, depth, seed, c.files, i)
    ensures path + [DirName(i)] !in nodes
  {
    NamesDiffer();
    assert !ChildName(DirName(i), c.files, i);
  }

  lemma OnlyChildChanged(a: Nodes, made: Nodes, b: Nodes, path: Path, name: string)
    requires made == a[path + [name] := Dir] && SameOutside(made, b, path + [name])
    ensures OnlyChild(a, b, path, name) && SameOutside(a, b, path)
  {
    forall p | p != path + [name] && !Under(path + [name], p) ensures SameAt(a, b, p) {
      assert SameAt(made, b, p);
    }
    forall p | !Under(path, p) ensures SameAt(a, b, p) {
      UnderChild(path, name, p);
      assert SameAt(made, b, p);
    }
  }
}
