/**
  generic/001's file contents: a byte stream drawn four bytes at a time from a seeded generator,
  written, copied and verified in chunks.  The generator is any function from a state to a word
  and the next state.
*/
module Stream {

  datatype Prng<!S> = Prng(next: S -> (nat, S))

  /** The four bytes of a 32-bit word, lowest first. */
  function Quad(word: nat): (r: seq<nat>)
    ensures |r| == 4
  {
    [word % 256, word / 0x100 % 256, word / 0x1_0000 % 256, word / 0x100_0000 % 256]
  }

  /** Together they are the word, each worth 256 times the one before it. */
  lemma QuadIsTheWord(word: nat)
    requires word < 0x1_0000_0000
    ensures word == Quad(word)[0] + 0x100 * Quad(word)[1] + 0x1_0000 * Quad(word)[2] + 0x100_0000 * Quad(word)[3]
    ensures forall j :: 0 <= j < 4 ==> 0 <= Quad(word)[j] < 256
  {
    var a, b, c := word / 0x100, word / 0x1_0000, word / 0x100_0000;
    assert b == a / 0x100 && c == b / 0x100;
  }

  /** The first n bytes of the stream seeded with st. */
  function Bytes<S>(p: Prng<S>, st: S, n: nat): (r: seq<nat>)
    ensures |r| == n
  {
    if n == 0 then []
    else
      var (word, next) := p.next(st);
      if n < 4 then Quad(word)[..n] else Quad(word) + Bytes(p, next, n - 4)
  }

  /** The generator's state after those n bytes; what is left of a word is lost. */
  function Rest<S>(p: Prng<S>, st: S, n: nat): S {
    if n == 0 then st
    else
      var next := p.next(st).1;
      if n < 4 then next else Rest(p, next, n - 4)
  }

  /** A chunk of whole words followed by the rest of the stream is the stream. */
  lemma {:induction false} ChunksJoin<S>(p: Prng<S>, st: S, a: nat, b: nat)
    requires a % 4 == 0
    ensures Bytes(p, st, a) + Bytes(p, Rest(p, st, a), b) == Bytes(p, st, a + b)
    ensures Rest(p, Rest(p, st, a), b) == Rest(p, st, a + b)
    decreases a
  {
    if a > 0 {
      ChunksJoin(p, p.next(st).1, a - 4, b);
    }
  }

  lemma {:induction false} OneMoreByte<S>(p: Prng<S>, st: S, i: nat)
    ensures var drawn := p.next(Rest(p, st, i - i % 4));
      && Bytes(p, st, i + 1) == Bytes(p, st, i) + [Quad(drawn.0)[i % 4]]
      && Rest(p, st, i + 1) == drawn.1
      && (i % 4 != 0 ==> Rest(p, st, i) == drawn.1)
    decreases i
  {
    if i >= 4 {
      OneMoreByte(p, p.next(st).1, i - 4);
      assert i - i % 4 == (i - 4) - (i - 4) % 4 + 4;
    }
  }

  // ---------- splits between words are the only safe ones ----------

  /** A generator whose words are alternately all zeros and all ones. */
  function Alternate(s: int): (nat, int) {
    (if s % 2 == 0 then 0 else 0xffff_ffff, s + 1)
  }

  const ALTERNATING: Prng<int> := Prng(Alternate)

  lemma {:induction false} AlternatingByte(s: int, a: nat, b: nat)
    requires a % 4 != 0 && b > 0
    ensures Bytes(ALTERNATING, s, a + b)[a] != Bytes(ALTERNATING, Rest(ALTERNATING, s, a), b)[0]
    decreases a
  {
    if a > 4 {
      AlternatingByte(s + 1, a - 4, b);
    } else {
      assert Rest(ALTERNATING, s, a) == s + 1;
      assert Bytes(ALTERNATING, s, a + b)[a] == Quad(Alternate(s).0)[a];
      assert Bytes(ALTERNATING, s + 1, b)[0] == Quad(Alternate(s + 1).0)[0];
    }
  }

  ghost predicate SafeSplit<S>(p: Prng<S>, st: S, a: nat, b: nat) {
    Bytes(p, st, a) + Bytes(p, Rest(p, st, a), b) == Bytes(p, st, a + b)
  }

  /** Generating a bytes and then b more gives the stream, whatever the generator, exactly if the
      split falls between words or there is nothing left to generate. */
  lemma SplitIsSafeIff(a: nat, b: nat)
    ensures a % 4 == 0 || b == 0 <==> forall p: Prng<int>, st :: SafeSplit(p, st, a, b)
  {
    if a % 4 == 0 || b == 0 {
      forall p: Prng<int>, st ensures SafeSplit(p, st, a, b) {
        if a % 4 == 0 { ChunksJoin(p, st, a, b); }
      }
    } else {
      AlternatingByte(0, a, b);
      var later := Bytes(ALTERNATING, Rest(ALTERNATING, 0, a), b);
      assert (Bytes(ALTERNATING, 0, a) + later)[a] == later[0];
      assert !SafeSplit(ALTERNATING, 0, a, b);
    }
  }

  // ---------- the loops ----------

  /** i bytes of a chunk are there; r is the word they were drawn from, if it is not used up. */
  ghost predicate Filling<S>(p: Prng<S>, st: S, done: seq<nat>, i: nat, next: S, r: nat) {
    && done == Bytes(p, st, i)
    && next == Rest(p, st, i)
    && (i % 4 != 0 ==> r == p.next(Rest(p, st, i - i % 4)).0)
  }

  lemma FillNewWord<S>(p: Prng<S>, st: S, done: seq<nat>, i: nat, next: S, r: nat)
    requires Filling(p, st, done, i, next, r) && i % 4 == 0
    ensures Filling(p, st, done + [Quad(p.next(next).0)[0]], i + 1, p.next(next).1, p.next(next).0)
  {
    OneMoreByte(p, st, i);
  }

  lemma FillSameWord<S>(p: Prng<S>, st: S, done: seq<nat>, i: nat, next: S, r: nat)
    requires Filling(p, st, done, i, next, r) && i % 4 != 0
    ensures Filling(p, st, done + [Quad(r)[i % 4]], i + 1, next, r)
  {
    OneMoreByte(p, st, i);
    assert (i + 1) % 4 != 0 ==> i + 1 - (i + 1) % 4 == i - i % 4;
  }

  method FillChunk<S>(p: Prng<S>, st: S, buf: array<nat>, len: nat) returns (next: S)
    requires len <= buf.Length
    modifies buf
    ensures buf[..len] == Bytes(p, st, len)
    ensures next == Rest(p, st, len)
  {
    next := st;
    var r := 0;
    for i := 0 to len
      invariant Filling(p, st, buf[..i], i, next, r)
    {
      ghost var done := buf[..i];
      if i % 4 == 0 {
        FillNewWord(p, st, done, i, next, r);
        var drawn := p.next(next);
        r, next := drawn.0, drawn.1;
      } else {
        FillSameWord(p, st, done, i, next, r);
      }
      buf[i] := Quad(r)[i % 4];
      assert buf[..i + 1] == done + [buf[i]];
    }
  }

  /** gen001_write_file(): the stream in chunks. */
  method WriteFile<S>(p: Prng<S>, seed: S, bytes: nat, chunk: nat) returns (file: seq<nat>)
    requires chunk > 0 && chunk % 4 == 0
    ensures file == Bytes(p, seed, bytes)
  {
    var buf := new nat[chunk];
    var st, left := seed, bytes;
    file := [];
    while left > 0
      invariant 0 <= left <= bytes
      invariant file == Bytes(p, seed, bytes - left)
      invariant left > 0 ==> (bytes - left) % 4 == 0 && st == Rest(p, seed, bytes - left)
    {
      var n := if left < chunk then left else chunk;
      ChunksJoin(p, seed, bytes - left, n);
      ghost var next := Bytes(p, st, n);
      st := FillChunk(p, st, buf, n);
      assert buf[..n] == next;
      file := file + buf[..n];
      left := left - n;
    }
  }

  /** gen001_copy()'s loop: reads until nothing more comes. */
  method CopyContent(src: seq<nat>, chunk: nat) returns (dst: seq<nat>)
    requires chunk > 0
    ensures dst == src
  {
    dst := [];
    var pos := 0;
    while true
      invariant pos <= |src| && dst == src[..pos]
      decreases |src| - pos
    {
      var got := if |src| - pos < chunk then |src| - pos else chunk;
      if got == 0 { break; }
      dst := dst + src[pos..pos + got];
      pos := pos + got;
    }
  }

  /** The file agrees with the stream over its first `off` bytes. */
  ghost predicate AgreesBelow<S>(p: Prng<S>, seed: S, file: seq<nat>, off: nat) {
    off <= |file| && file[..off] == Bytes(p, seed, off)
  }

  lemma AgreesOneMore<S>(p: Prng<S>, seed: S, file: seq<nat>, off: nat, n: nat)
    requires AgreesBelow(p, seed, file, off) && off % 4 == 0 && off + n <= |file|
    ensures AgreesBelow(p, seed, file, off + n) <==> file[off..off + n] == Bytes(p, Rest(p, seed, off), n)
    ensures Rest(p, Rest(p, seed, off), n) == Rest(p, seed, off + n)
  {
    ChunksJoin(p, seed, off, n);
    assert file[..off + n] == file[..off] + file[off..off + n];
    assert file[..off + n][off..] == file[off..off + n];
  }

  /** One differing chunk, which is the last or whole words, is enough. */
  lemma DiffersForGood<S>(p: Prng<S>, seed: S, file: seq<nat>, off: nat, n: nat, bytes: nat)
    requires off % 4 == 0 && off + n <= |file|
    requires off + n == bytes || (n % 4 == 0 && off + n < bytes)
    requires file[off..off + n] != Bytes(p, Rest(p, seed, off), n)
    ensures file != Bytes(p, seed, bytes)
  {
    ChunkOfStream(p, seed, off, n, bytes);
  }

  lemma ChunkOfStream<S>(p: Prng<S>, seed: S, off: nat, n: nat, bytes: nat)
    requires off % 4 == 0 && (off + n == bytes || (n % 4 == 0 && off + n < bytes))
    ensures Bytes(p, seed, bytes)[off..off + n] == Bytes(p, Rest(p, seed, off), n)
  {
    StreamPrefix(p, seed, off + n, bytes);
    LaterPart(p, seed, off, n);
    var whole := Bytes(p, seed, bytes);
    assert whole[off..off + n] == whole[..off + n][off..];
  }

  lemma LaterPart<S>(p: Prng<S>, seed: S, off: nat, n: nat)
    requires off % 4 == 0
    ensures Bytes(p, seed, off + n)[off..] == Bytes(p, Rest(p, seed, off), n)
  {
    ChunksJoin(p, seed, off, n);
  }

  lemma StreamPrefix<S>(p: Prng<S>, seed: S, n: nat, bytes: nat)
    requires n == bytes || (n % 4 == 0 && n < bytes)
    ensures Bytes(p, seed, bytes)[..n] == Bytes(p, seed, n)
  {
    if n < bytes { ChunksJoin(p, seed, n, bytes - n); }
  }

  /** Draws the next bytes of the stream and compares them with what was read. */
  method SameChunk<S>(p: Prng<S>, st: S, want: array<nat>, got: seq<nat>) returns (same: bool, next: S)
    requires |got| <= want.Length
    modifies want
    ensures same <==> got == Bytes(p, st, |got|)
    ensures next == Rest(p, st, |got|)
  {
    next := FillChunk(p, st, want, |got|);
    same := want[..|got|] == got;
  }

  /** gen001_verify_content(): accepts a file exactly when it is the first `bytes` bytes of the
      stream; a shorter, longer or differing one is rejected. */
  method VerifyContent<S>(p: Prng<S>, seed: S, file: seq<nat>, bytes: nat, chunk: nat) returns (ok: bool)
    requires chunk > 0 && chunk % 4 == 0
    ensures ok <==> file == Bytes(p, seed, bytes)
  {
    var want := new nat[chunk];
    var st, off := seed, 0;
    while off < bytes
      invariant off <= bytes && AgreesBelow(p, seed, file, off)
      invariant off < bytes ==> off % 4 == 0 && st == Rest(p, seed, off)
    {
      var n := if bytes - off < chunk then bytes - off else chunk;
      if |file| - off < n { return false; }
      AgreesOneMore(p, seed, file, off, n);
      var same;
      same, st := SameChunk(p, st, want, file[off..off + n]);
      if !same {
        DiffersForGood(p, seed, file, off, n, bytes);
        return false;
      }
      off := off + n;
    }
    ok := off == |file|;
    assert ok ==> file[..off] == file;
  }
}
