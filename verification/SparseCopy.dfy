/**
  generic/286: copying a sparse file by walking its data extents with SEEK_DATA and SEEK_HOLE.
  The two seeks answer as SEEK does in section 15.11 of RFC 7862: the least offset of the
  wanted kind at or after the given one, with a hole at end of file.
*/
module SparseCopy {
  import opened Options

  /** A file's bytes and, for each of them, whether it is data. */
  datatype Sparse = Sparse(bytes: seq<int>, data: seq<bool>)
  {
    ghost predicate Valid() {
      && |bytes| == |data|
      && forall i :: 0 <= i < |data| && !data[i] ==> bytes[i] == 0
    }
  }

  function NextWith(data: seq<bool>, kind: bool, pos: nat): (r: nat)
    requires pos <= |data|
    ensures pos <= r <= |data|
    ensures forall i :: pos <= i < r ==> data[i] != kind
    ensures r < |data| ==> data[r] == kind
    decreases |data| - pos
  {
    if pos == |data| || data[pos] == kind then pos else NextWith(data, kind, pos + 1)
  }

  /** SEEK_DATA; None is ENXIO. */
  function SeekData(f: Sparse, pos: nat): Option<nat> {
    if pos >= |f.data| then None
    else
      var r := NextWith(f.data, true, pos);
      if r == |f.data| then None else Some(r)
  }

  /** SEEK_HOLE; the end of the file counts as a hole. */
  function SeekHole(f: Sparse, pos: nat): Option<nat> {
    if pos >= |f.data| then None else Some(NextWith(f.data, false, pos))
  }

  /** The least offset from pos on with data, if there is one; and the least without, the end of the
      file being one, unless pos is at the end already. */
  lemma SeeksAreLeast(f: Sparse, pos: nat, r: nat)
    ensures SeekData(f, pos) == Some(r) <==>
      pos <= r < |f.data| && f.data[r] && forall i :: pos <= i < r ==> !f.data[i]
    ensures SeekHole(f, pos) == Some(r) <==>
      pos < |f.data| && pos <= r <= |f.data| && (r < |f.data| ==> !f.data[r]) && forall i :: pos <= i < r ==> f.data[i]
    ensures SeekData(f, pos).None? <==> forall i :: pos <= i < |f.data| ==> !f.data[i]
  {
  }

  /** A file being written: a write past the end leaves zeros between. */
  class File {
    var bytes: seq<int>
    /** The offsets some write has covered. */
    ghost var covered: set<nat>

    constructor ()
      ensures bytes == [] && covered == {}
    {
      bytes, covered := [], {};
    }

    method Write(buf: seq<int>, off: nat)
      modifies this
      ensures |bytes| == if off + |buf| > |old(bytes)| then off + |buf| else |old(bytes)|
      ensures forall i :: 0 <= i < |bytes| ==>
        bytes[i] == if off <= i < off + |buf| then buf[i - off]
                    else if i < |old(bytes)| then old(bytes)[i] else 0
      ensures covered == old(covered) + Range(off, off + |buf|)
    {
      var end := off + |buf|;
      var before := if off <= |bytes| then bytes[..off] else bytes + seq(off - |bytes|, _ => 0);
      bytes := before + buf + if end < |bytes| then bytes[end..] else [];
      covered := covered + Range(off, end);
    }

    method Truncate(size: nat)
      modifies this`bytes
      ensures |bytes| == size
      ensures forall i :: 0 <= i < size ==> bytes[i] == if i < |old(bytes)| then old(bytes)[i] else 0
    {
      bytes := if size <= |bytes| then bytes[..size] else bytes + seq(size - |bytes|, _ => 0);
    }
  }

  ghost function Range(a: nat, b: nat): (r: set<nat>)
    ensures forall i: nat :: i in r <==> a <= i < b
    decreases b - a
  {
    if a >= b then {} else {a} + Range(a + 1, b)
  }

  // ---------- maximal runs of data ----------

  predicate StartsRun(data: seq<bool>, i: nat)
    requires i < |data|
  {
    data[i] && (i == 0 || !data[i - 1])
  }

  /** The number of maximal data runs that start below n. */
  function Runs(data: seq<bool>, n: nat): nat
    requires n <= |data|
  {
    if n == 0 then 0 else Runs(data, n - 1) + if StartsRun(data, n - 1) then 1 else 0
  }

  lemma {:induction false} RunsSkipHole(data: seq<bool>, a: nat, b: nat)
    requires a <= b <= |data|
    requires forall i :: a <= i < b ==> !data[i]
    ensures Runs(data, b) == Runs(data, a)
    decreases b
  {
    if a < b {
      RunsSkipHole(data, a, b - 1);
    }
  }

  lemma {:induction false} RunsCountIsland(data: seq<bool>, a: nat, b: nat)
    requires a < b <= |data|
    requires forall i :: a <= i < b ==> data[i]
    requires a == 0 || !data[a - 1]
    ensures Runs(data, b) == Runs(data, a) + 1
    decreases b
  {
    if a + 1 < b {
      RunsCountIsland(data, a, b - 1);
      assert data[b - 2];
    }
  }

  // ---------- the walk ----------

  ghost function DataBelow(data: seq<bool>, n: nat): set<nat>
    requires n <= |data|
  {
    set i: nat | i < n && data[i]
  }

  /** Everything below pos has been dealt with: what the copy lacks there is hole. */
  ghost predicate CopiedBelow(src: Sparse, dst: File, pos: nat)
    requires src.Valid() && pos <= |src.data|
    reads dst
  {
    && |dst.bytes| <= pos
    && (forall i :: 0 <= i < |dst.bytes| ==> dst.bytes[i] == src.bytes[i])
    && (forall i :: |dst.bytes| <= i < pos ==> !src.data[i])
    && dst.covered == DataBelow(src.data, pos)
  }

  /** Copies one extent in chunks of at most `bufsize` bytes. */
  method CopyExtent(src: Sparse, dst: File, start: nat, hole: nat, bufsize: nat)
    requires src.Valid() && bufsize > 0
    requires start <= hole <= |src.data| && forall i :: start <= i < hole ==> src.data[i]
    requires CopiedBelow(src, dst, start)
    modifies dst
    ensures CopiedBelow(src, dst, hole)
  {
    var data := start;
    while data < hole
      invariant start <= data <= hole
      invariant CopiedBelow(src, dst, data)
    {
      var chunk := if hole - data < bufsize then hole - data else bufsize;
      var buf := src.bytes[data..data + chunk];
      assert DataBelow(src.data, data + chunk) == DataBelow(src.data, data) + Range(data, data + chunk);
      dst.Write(buf, data);
      data := data + chunk;
    }
  }

  /** The walk's state: the copy is right up to pos, where no run is cut in two. */
  ghost predicate Walked(src: Sparse, dst: File, pos: nat, islands: nat)
    reads dst
  {
    && src.Valid() && pos <= |src.data|
    && (0 < pos < |src.data| ==> !src.data[pos])
    && CopiedBelow(src, dst, pos)
    && islands == Runs(src.data, pos)
  }

  /** One round of the walk; without data left there is none. */
  method CopyIsland(src: Sparse, dst: File, pos: nat, ghost islands: nat, bufsize: nat) returns (next: Option<nat>)
    requires bufsize > 0 && Walked(src, dst, pos, islands)
    modifies dst
    ensures next.Some? ==> pos < next.value && Walked(src, dst, next.value, islands + 1)
    ensures next.None? ==> Walked(src, dst, pos, islands) && forall i :: pos <= i < |src.data| ==> !src.data[i]
  {
    var data := SeekData(src, pos);
    if data.None? { return None; }
    var hole := SeekHole(src, data.value);
    assert hole.Some? && hole.value > data.value;
    RunsSkipHole(src.data, pos, data.value);
    RunsCountIsland(src.data, data.value, hole.value);
    assert DataBelow(src.data, data.value) == DataBelow(src.data, pos);
    CopyExtent(src, dst, data.value, hole.value, bufsize);
    next := hole;
  }

  /** The walk ends for every layout; it finds each maximal data run once, writes exactly the data
      bytes, and after the final truncate the copy is the source byte for byte. */
  method CopySparse(src: Sparse, bufsize: nat) returns (dst: File, islands: nat)
    requires src.Valid() && bufsize > 0
    ensures fresh(dst)
    ensures dst.bytes == src.bytes
    ensures dst.covered == DataBelow(src.data, |src.data|)
    ensures islands == Runs(src.data, |src.data|)
  {
    dst := new File();
    islands := 0;
    var pos := 0;
    while true
      invariant fresh(dst) && Walked(src, dst, pos, islands)
      decreases |src.data| - pos
    {
      var next := CopyIsland(src, dst, pos, islands, bufsize);
      if next.None? { break; }
      islands := islands + 1;
      pos := next.value;
    }
    RunsSkipHole(src.data, pos, |src.data|);
    assert DataBelow(src.data, |src.data|) == DataBelow(src.data, pos);
    dst.Truncate(|src.bytes|);
  }
}
