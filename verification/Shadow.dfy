/**
  generic/075: a small fsx.  A shadow array is changed by the same random operations as the
  file, and the file is compared with it along the way and at the end.
*/
module Shadow {
  import opened Bytes

  const LENGTHS := 32768

  // ---------- the operations on a plain byte sequence ----------

  datatype Op =
    | Write(off: nat, data: seq<Byte>)
    | Truncate(size: nat)
    | Punch(off: nat, len: nat)
    | Read(off: nat, len: nat)

  function Zeros(n: nat): (r: seq<Byte>)
    ensures |r| == n && forall i :: 0 <= i < n ==> r[i] == 0
  {
    seq(n, _ => 0)
  }

  function Padded(s: seq<Byte>, n: nat): seq<Byte> {
    if n <= |s| then s else s + Zeros(n - |s|)
  }

  function Min(a: int, b: int): int {
    if a < b then a else b
  }

  /** What each operation makes of a file's contents. */
  function Apply(s: seq<Byte>, op: Op): seq<Byte> {
    match op
    case Write(off, data) =>
      var p := Padded(s, off + |data|);
      p[..off] + data + p[off + |data|..]
    case Truncate(size) => Padded(s, size)[..size]
    case Punch(off, len) =>
      if off >= |s| then s
      else
        var end := Min(off + len, |s|);
        s[..off] + Zeros(end - off) + s[end..]
    case Read(_, _) => s
  }

  /** The same, byte by byte: a write past the end leaves zeros between, a truncate upwards adds
      zeros, a punch zeroes what lies within the file. */
  lemma ApplyBytewise(s: seq<Byte>, op: Op, i: nat)
    ensures |Apply(s, op)| ==
      match op
      case Write(off, data) => if off + |data| > |s| then off + |data| else |s|
      case Truncate(size) => size
      case _ => |s|
    ensures i < |Apply(s, op)| ==>
      var before := if i < |s| then s[i] else 0;
      Apply(s, op)[i] ==
        match op
        case Write(off, data) => if off <= i < off + |data| then data[i - off] else before
        case Punch(off, len) => if off <= i < off + len then 0 else before
        case _ => before
  {
  }

  function Replay(ops: seq<Op>): seq<Byte> {
    if ops == [] then [] else Apply(Replay(ops[..|ops| - 1]), ops[|ops| - 1])
  }

  // ---------- drawing an operation ----------

  /** The pattern written by operation number op. */
  function Pattern(op: nat, off: nat, len: nat): (r: seq<Byte>)
    ensures |r| == len
  {
    seq<Byte>(len, (i: int) requires 0 <= i < len => XorByte(op % 256, (off + i) % 256))
  }

  /** Every byte tells its place in the file, whatever the write's offset, once the operation's number
      is taken out again. */
  lemma PatternTellsThePlace(op: nat, off: nat, len: nat, i: nat)
    requires i < len
    ensures XorByte(Pattern(op, off, len)[i], op % 256) == (off + i) % 256
  {
    XorUndoes(op % 256, (off + i) % 256);
  }

  /** So two operations whose numbers differ modulo 256 write different bytes everywhere, and one
      operation's bytes repeat only every 256 places. */
  lemma PatternsDiffer(op: nat, off: nat, len: nat, i: nat, op': nat, off': nat, len': nat, i': nat)
    requires i < len && i' < len'
    ensures off + i == off' + i' ==>
      (Pattern(op, off, len)[i] == Pattern(op', off', len')[i'] <==> op % 256 == op' % 256)
    ensures op == op' ==>
      (Pattern(op, off, len)[i] == Pattern(op', off', len')[i'] <==> (off + i) % 256 == (off' + i') % 256)
  {
    XorUndoes(op % 256, (off + i) % 256);
    XorUndoes(op' % 256, (off' + i') % 256);
    XorUndoes((off + i) % 256, op % 256);
    XorUndoes((off' + i') % 256, op' % 256);
  }

  /** The two random words of one round and the kernel's answer to a punch. */
  datatype Draw = Draw(r: nat, s: nat, punchOk: bool)

  function Offset(maxsz: nat, d: Draw): nat
    requires maxsz > 0
  {
    d.r / 256 % maxsz
  }

  function Length(maxsz: nat, d: Draw): nat
    requires maxsz > 0
  {
    Min(1 + d.s % LENGTHS, maxsz - Offset(maxsz, d))
  }

  /** Operation number op; a refused punch changes nothing, like a read of nothing. */
  function Drawn(maxsz: nat, op: nat, d: Draw): Op
    requires maxsz > 0
  {
    var off, len := Offset(maxsz, d), Length(maxsz, d);
    if d.r % 10 < 4 then Write(off, Pattern(op, off, len))
    else if d.r % 10 < 6 then Truncate(off)
    else if d.r % 10 == 6 then (if d.punchOk then Punch(off, len) else Punch(off, 0))
    else Read(off, len)
  }

  /** The range drawn lies within the maximum size; it starts at the first word's upper 24 bits modulo
      that size and is as long as the second word says, unless it would reach beyond. */
  lemma RangeDrawn(maxsz: nat, d: Draw)
    requires maxsz > 0
    ensures var off, len := Offset(maxsz, d), Length(maxsz, d);
      && off < maxsz && (exists q: nat :: d.r / 256 == q * maxsz + off)
      && 1 <= len <= 1 + d.s % 32768 && off + len <= maxsz
      && (off + len < maxsz ==> len == 1 + d.s % 32768)
  {
    var q := d.r / 256 / maxsz;
    assert d.r / 256 == q * maxsz + d.r / 256 % maxsz;
  }

  /** Of ten values of the first word's last digit four write, two truncate, one punches and three
      read. */
  lemma OperationDrawn(maxsz: nat, op: nat, d: Draw)
    requires maxsz > 0
    ensures var o, off, len := Drawn(maxsz, op, d), Offset(maxsz, d), Length(maxsz, d);
      && (d.r % 10 in {0, 1, 2, 3} <==> o.Write?) && (d.r % 10 in {4, 5} <==> o.Truncate?)
      && (d.r % 10 == 6 <==> o.Punch?) && (d.r % 10 in {7, 8, 9} <==> o.Read?)
      && (o.Write? ==> o.off == off && |o.data| == len)
      && (o.Write? ==> forall i :: 0 <= i < len ==> XorByte(o.data[i], op % 256) == (off + i) % 256)
      && (o.Truncate? ==> o.size == off)
      && (o.Punch? ==> o.off == off && o.len == if d.punchOk then len else 0)
      && (o.Read? ==> o.off == off && o.len == len)
  {
    var off, len := Offset(maxsz, d), Length(maxsz, d);
    forall i | 0 <= i < len ensures XorByte(Pattern(op, off, len)[i], op % 256) == (off + i) % 256 {
      PatternTellsThePlace(op, off, len, i);
    }
  }

  // ---------- the shadow ----------

  class ShadowFile {
    const shadow: array<Byte>
    var size: nat

    ghost predicate Valid()
      reads this
    {
      size <= shadow.Length
    }

    ghost function Contents(): seq<Byte>
      requires Valid()
      reads this, shadow
    {
      shadow[..size]
    }

    constructor (maxsz: nat)
      ensures Valid() && Contents() == [] && shadow.Length == maxsz && fresh(shadow)
    {
      shadow := new Byte[maxsz](_ => 0);
      size := 0;
    }

    /** memset() to zero. */
    method Clear(from: nat, len: nat)
      requires from + len <= shadow.Length
      modifies shadow
      ensures shadow[..] == old(shadow[..from]) + Zeros(len) + old(shadow[from + len..])
    {
      forall i | from <= i < from + len { shadow[i] := 0; }
    }

    method WriteOp(off: nat, data: seq<Byte>)
      requires Valid() && off + |data| <= shadow.Length && |data| > 0
      modifies this, shadow
      ensures Valid() && Contents() == Apply(old(Contents()), Write(off, data))
    {
      if off > size {
        Clear(size, off - size);
      }
      forall i | 0 <= i < |data| { shadow[off + i] := data[i]; }
      if off + |data| > size {
        size := off + |data|;
      }
    }

    method TruncateOp(off: nat)
      requires Valid() && off <= shadow.Length
      modifies this, shadow
      ensures Valid() && Contents() == Apply(old(Contents()), Truncate(off))
    {
      if off > size {
        Clear(size, off - size);
      }
      size := off;
    }

    method PunchOp(off: nat, len: nat)
      requires Valid() && off + len <= shadow.Length
      modifies shadow
      ensures Contents() == Apply(old(Contents()), Punch(off, len))
    {
      if off < size {
        Clear(off, Min(len, size - off));
      }
    }

    /** g075_verify_range(): reads what of the range lies within the shadow's size and compares. */
    method VerifyRange(file: seq<Byte>, off: nat, len: nat) returns (ok: bool)
      requires Valid()
      ensures ok <==> Agrees(file, Contents(), off, len)
    {
      if off >= size { return true; }
      var want := Min(len, size - off);
      var got := if off >= |file| then [] else file[off..Min(off + want, |file|)];
      if |got| != want { return false; }
      ghost var wanted := Contents()[off..off + want];
      assert want > 0 ==> got == file[off..off + want];
      for i := 0 to want
        invariant forall j :: 0 <= j < i ==> got[j] == wanted[j]
      {
        assert wanted[i] == shadow[off + i];
        if got[i] != shadow[off + i] { return false; }
      }
      ok := true;
    }

    /** The size check and the full verify at the end accept exactly the shadow's contents. */
    method FinalCheck(file: seq<Byte>) returns (ok: bool)
      requires Valid()
      ensures ok <==> file == Contents()
    {
      WholeAgrees(file, Contents());
      ok := VerifyRange(file, 0, size);
      ok := ok && |file| == size;
    }

    /** One round of the loop; `observed` is the file as a read in this round would find it. */
    method Round(op: nat, d: Draw, observed: seq<Byte>, ghost drawn: Op) returns (ok: bool)
      requires Valid() && shadow.Length > 0 && drawn == Drawn(shadow.Length, op, d)
      modifies this, shadow
      ensures Valid() && Contents() == Apply(old(Contents()), drawn)
      ensures ok <==> Passes(drawn, old(Contents()), observed)
    {
      ok := true;
      var off, len := Offset(shadow.Length, d), Length(shadow.Length, d);
      if d.r % 10 < 4 {
        WriteOp(off, Pattern(op, off, len));
      } else if d.r % 10 < 6 {
        TruncateOp(off);
      } else if d.r % 10 == 6 {
        if d.punchOk { PunchOp(off, len); }
      } else {
        ok := VerifyRange(observed, off, len);
      }
    }
  }

  /** The file and the expected contents agree on the part of the range that should exist. */
  predicate Agrees(file: seq<Byte>, want: seq<Byte>, off: nat, len: nat) {
    off >= |want| || len == 0 ||
    var end := Min(off + len, |want|);
    end <= |file| && file[off..end] == want[off..end]
  }

  predicate Passes(op: Op, want: seq<Byte>, observed: seq<Byte>) {
    op.Read? ==> Agrees(observed, want, op.off, op.len)
  }

  function Ops(maxsz: nat, draws: seq<Draw>): (r: seq<Op>)
    requires maxsz > 0
    ensures |r| == |draws|
  {
    if draws == [] then []
    else
      var n := |draws| - 1;
      Ops(maxsz, draws[..n]) + [Drawn(maxsz, n, draws[n])]
  }

  lemma {:induction false} OpsAt(maxsz: nat, draws: seq<Draw>, k: nat)
    requires maxsz > 0 && k < |draws|
    ensures Ops(maxsz, draws)[k] == Drawn(maxsz, k, draws[k])
  {
    if k < |draws| - 1 {
      OpsAt(maxsz, draws[..|draws| - 1], k);
    }
  }

  ghost predicate ReadAgrees(ops: seq<Op>, observed: seq<seq<Byte>>, k: nat)
    requires k < |ops| == |observed|
  {
    Passes(ops[k], Replay(ops[..k]), observed[k])
  }

  /** Every read-verify along the way agreed with the replay of the operations before it. */
  ghost predicate ReadsAgree(ops: seq<Op>, observed: seq<seq<Byte>>, n: nat)
    requires n <= |ops| == |observed|
  {
    n == 0 || (ReadsAgree(ops, observed, n - 1) && ReadAgrees(ops, observed, n - 1))
  }

  /** After k rounds: the shadow is the replay, and `ok` tells whether the reads agreed. */
  ghost predicate Synced(sh: ShadowFile, ops: seq<Op>, observed: seq<seq<Byte>>, k: nat, ok: bool)
    requires k <= |ops| == |observed|
    reads sh, sh.shadow
  {
    && sh.Valid() && sh.Contents() == Replay(ops[..k])
    && (ok <==> ReadsAgree(ops, observed, k))
  }

  method NextRound(sh: ShadowFile, k: nat, d: Draw, seen: seq<Byte>, ok: bool,
                   ghost ops: seq<Op>, ghost observed: seq<seq<Byte>>) returns (still: bool)
    requires sh.shadow.Length > 0 && k < |ops| == |observed|
    requires ops[k] == Drawn(sh.shadow.Length, k, d) && observed[k] == seen
    requires Synced(sh, ops, observed, k, ok)
    modifies sh, sh.shadow
    ensures Synced(sh, ops, observed, k + 1, still)
  {
    ReplayOneMore(ops, k);
    var passed := sh.Round(k, d, seen, ops[k]);
    still := ok && passed;
  }

  /** The whole test, for any number of rounds and a file that may hold anything at any time: the
      shadow is the replay of the operations whatever stale bytes lie beyond its size, and the test
      passes exactly when every read agreed with the replay so far and the final file is the
      replay, size and contents. */
  method RunTest(maxsz: nat, draws: seq<Draw>, observed: seq<seq<Byte>>, final: seq<Byte>) returns (ok: bool)
    requires maxsz > 0 && |observed| == |draws|
    ensures ok <==> ReadsAgree(Ops(maxsz, draws), observed, |draws|) && final == Replay(Ops(maxsz, draws))
  {
    var sh := new ShadowFile(maxsz);
    ghost var ops := Ops(maxsz, draws);
    ok := true;
    for k := 0 to |draws|
      invariant fresh(sh) && fresh(sh.shadow) && sh.shadow.Length == maxsz
      invariant Synced(sh, ops, observed, k, ok)
    {
      OpsAt(maxsz, draws, k);
      ok := NextRound(sh, k, draws[k], observed[k], ok, ops, observed);
    }
    assert ops[..|draws|] == ops;
    var same := sh.FinalCheck(final);
    ok := ok && same;
  }

  lemma ReplayOneMore(ops: seq<Op>, k: nat)
    requires k < |ops|
    ensures Replay(ops[..k + 1]) == Apply(Replay(ops[..k]), ops[k])
  {
    assert ops[..k + 1][..k] == ops[..k];
  }

  lemma WholeAgrees(final: seq<Byte>, want: seq<Byte>)
    ensures |final| == |want| && Agrees(final, want, 0, |want|) <==> final == want
  {
    assert |final| == |want| ==> final[0..|want|] == final && want[0..|want|] == want;
  }

  lemma {:induction false} ReadsAgreeMeans(ops: seq<Op>, observed: seq<seq<Byte>>, n: nat)
    requires n <= |ops| == |observed|
    ensures ReadsAgree(ops, observed, n) <==>
      forall k :: 0 <= k < n ==> ReadAgrees(ops, observed, k)
  {
    if n > 0 {
      ReadsAgreeMeans(ops, observed, n - 1);
    }
  }
}
