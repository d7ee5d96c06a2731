/**
  generic/436 and generic/539: finding a filesystem's allocation unit by writing single bytes
  and asking SEEK_DATA what the file looks like.  Both ports contain the same search: doubling
  up to the reported block size, then halving steps.
*/
module AllocSize {

  /** The probe file on a filesystem that allocates whole units; `units` holds the numbers of the
      allocated ones. */
  class ProbeFile {
    const unit: nat
    var units: set<nat>

    ghost predicate Valid()
      reads this
    {
      unit > 0
    }

    constructor (unit: nat)
      requires unit > 0
      ensures Valid() && this.unit == unit
    {
      this.unit, units := unit, {};
    }

    method TruncateToZero()
      modifies this
      ensures units == {}
    {
      units := {};
    }

    method WriteByte(offset: nat)
      requires Valid()
      modifies this
      ensures units == old(units) + {offset / unit}
    {
      units := units + {offset / unit};
    }

    /** SEEK_DATA from offset 0: where the lowest allocated unit starts. */
    method SeekData() returns (pos: nat)
      requires Valid() && units != {}
      ensures exists u :: u in units && pos == u * unit && forall v :: v in units ==> u <= v
    {
      var rest := units;
      var least :| least in rest;
      while rest != {}
        invariant rest <= units && least in units
        invariant forall v :: v in units ==> v in rest || least <= v
        decreases rest
      {
        var v :| v in rest;
        if v < least { least := v; }
        rest := rest - {v};
      }
      pos := least * unit;
    }
  }

  // ---------- what the search finds ----------

  /** The smallest power of two, from `p` on, that reaches `n`. */
  function PowerFrom(p: nat, n: nat): (q: nat)
    requires p > 0
    ensures q >= n && q >= p
    ensures q > p ==> q < 2 * n
    decreases n - p
  {
    if p >= n then p else PowerFrom(2 * p, n)
  }

  /** The halving steps settle exactly on the units that leave remainder 0 or 1 modulo 4, one low
      on those that leave 2 and one high on those that leave 3; units up to 4 stop short of that. */
  function Settles(unit: nat): int {
    if unit <= 2 then 2
    else if unit <= 4 then 3
    else match unit % 4
         case 2 => unit - 1
         case 3 => unit + 1
         case _ => unit
  }

  /** Where the search stops doubling. */
  function Stop(unit: nat, blksize: int): nat {
    if blksize <= 1 then 1 else PowerFrom(2, Target(unit, blksize))
  }

  /** The whole search: halving happens only if doubling met the unit below the block size. */
  function Found(unit: nat, blksize: int): int {
    var stop := Stop(unit, blksize);
    if stop == 1 then 2
    else if stop < blksize then Settles(unit)
    else if stop == 2 then (if unit <= 2 then 2 else 3)
    else stop
  }

  predicate PowerOfTwo(n: nat) {
    n == 1 || (n > 1 && n % 2 == 0 && PowerOfTwo(n / 2))
  }

  method Probe(f: ProbeFile, offset: nat) returns (pos: nat)
    requires f.Valid()
    modifies f
    ensures pos == 0 <==> offset < f.unit
  {
    f.TruncateToZero();
    f.WriteByte(offset);
    pos := f.SeekData();
    assert pos == (offset / f.unit) * f.unit;
    if offset >= f.unit {
      assert offset / f.unit >= 1;
    }
  }

  /** One halving step: `offset` is `m` steps of `shift` and m leaves remainder 2 modulo 4, except
      at the very first step, where offset is four times shift. */
  ghost predicate Narrowed(unit: nat, offset: int, shift: nat, m: int) {
    && offset == shift * m
    && offset - 2 * shift < unit <= offset + 2 * shift
    && (m % 4 == 2 || (m == 4 && unit <= offset))
  }

  lemma NarrowFurther(unit: nat, offset: int, shift: nat, m: int)
    requires shift > 1 && shift % 2 == 0 && Narrowed(unit, offset, shift, m)
    ensures unit <= offset ==> Narrowed(unit, offset - shift, shift / 2, 2 * m - 2)
    ensures unit > offset ==> Narrowed(unit, offset + shift, shift / 2, 2 * m + 2)
  {
    var h := shift / 2;
    assert shift == 2 * h;
    assert h * (2 * m - 2) == shift * m - shift;
    assert h * (2 * m + 2) == shift * m + shift;
  }

  ghost predicate Doubling(unit: nat, blksize: int, offset: nat, found: bool) {
    && PowerOfTwo(offset)
    && (found <==> offset > 1 && offset >= unit)
    && (offset > 2 ==> offset / 2 < unit)
    && (offset > 1 ==> blksize > 1 && Stop(unit, blksize) == PowerFrom(offset, Target(unit, blksize)))
  }

  /** What doubling has to reach. */
  function Target(unit: nat, blksize: int): nat
    requires blksize > 1
  {
    if unit < blksize then unit else blksize
  }

  lemma PowerFromStep(p: nat, n: nat)
    requires 0 < p < n
    ensures PowerFrom(p, n) == PowerFrom(2 * p, n)
  {
  }

  lemma DoublingStep(unit: nat, blksize: int, offset: nat)
    requires unit > 0 && offset < blksize && Doubling(unit, blksize, offset, false)
    ensures Doubling(unit, blksize, 2 * offset, 2 * offset >= unit)
  {
    assert PowerOfTwo(2 * offset);
    if offset > 1 {
      assert offset < Target(unit, blksize);
      PowerFromStep(offset, Target(unit, blksize));
    }
  }

  method Double(f: ProbeFile, blksize: int) returns (offset: int, pos: nat)
    requires f.Valid()
    modifies f
    ensures offset == Stop(f.unit, blksize) && PowerOfTwo(offset)
    ensures pos != 0 <==> offset > 1 && offset >= f.unit
    ensures offset > 2 ==> offset / 2 < f.unit
  {
    pos := 0;
    offset := 1;
    while pos == 0 && offset < blksize
      invariant offset >= 1 && Doubling(f.unit, blksize, offset, pos != 0)
      decreases blksize - offset
    {
      DoublingStep(f.unit, blksize, offset);
      offset := 2 * offset;
      pos := Probe(f, offset);
    }
  }

  lemma Settle(unit: nat, offset: int, m: int)
    requires unit > 2 && Narrowed(unit, offset, 1, m)
    requires m == 4 ==> unit > 2 && offset == 4
    requires m != 4 ==> unit > 4
    ensures unit <= offset ==> offset - 1 == Settles(unit)
    ensures unit > offset ==> offset + 2 == Settles(unit)
  {
  }

  /** The state of the halving loop; it is not entered at all unless doubling stopped below the
      block size, at 4 or more. */
  ghost predicate Halving(unit: nat, blksize: int, offset: int, shift: nat, found: bool, m: int) {
    var stop := Stop(unit, blksize);
    if stop < 4 || stop >= blksize then
      offset == stop && shift == stop / 4 && (found <==> stop > 1 && stop >= unit)
    else
      && 0 < offset <= stop
      && if shift > 0 then
           && PowerOfTwo(shift) && Narrowed(unit, offset, shift, m)
           && unit <= stop < 2 * unit && (m == 4 ==> offset == stop)
           && (m != 4 ==> unit > 4 && offset + 2 * shift <= stop)
         else offset + (if found then 0 else 1) == Settles(unit)
  }

  lemma HalvingStep(unit: nat, blksize: int, offset: int, shift: nat, found: bool, m: int)
    requires Halving(unit, blksize, offset, shift, found, m) && shift > 0 && offset < blksize
    ensures unit <= offset ==> Halving(unit, blksize, offset - shift, shift / 2, true, 2 * m - 2)
    ensures unit > offset ==> Halving(unit, blksize, offset + shift, shift / 2, false, 2 * m + 2)
  {
    if shift > 1 {
      NarrowFurther(unit, offset, shift, m);
    } else {
      Settle(unit, offset, m);
    }
  }

  method Search(f: ProbeFile, blksize: int) returns (offset: int)
    requires f.Valid()
    modifies f
    ensures offset == Found(f.unit, blksize)
  {
    var pos;
    offset, pos := Double(f, blksize);
    var shift := offset / 4;
    ghost var m := 4;
    while shift > 0 && offset < blksize
      invariant 0 <= shift && 0 < offset
      invariant Halving(f.unit, blksize, offset, shift, pos != 0, m)
      decreases shift
    {
      HalvingStep(f.unit, blksize, offset, shift, pos != 0, m);
      pos := Probe(f, offset);
      m := if pos != 0 then 2 * m - 2 else 2 * m + 2;
      offset := offset + if pos != 0 then -shift else shift;
      shift := shift / 2;
    }
    if shift == 0 {
      offset := offset + if pos != 0 then 0 else 1;
    }
  }

  // ---------- when the answer is the allocation unit ----------

  lemma {:induction false} PowerFromIsPower(p: nat, n: nat)
    requires PowerOfTwo(p)
    ensures PowerOfTwo(PowerFrom(p, n))
    decreases n - p
  {
    if p < n {
      PowerFromIsPower(2 * p, n);
    }
  }

  lemma {:induction false} PowersDouble(p: nat, n: nat)
    requires PowerOfTwo(p) && PowerOfTwo(n) && p < n
    ensures 2 * p <= n
    decreases n
  {
    if p > 1 {
      PowersDouble(p / 2, n / 2);
    }
  }

  lemma {:induction false} PowerFromReachesPower(p: nat, n: nat)
    requires PowerOfTwo(p) && PowerOfTwo(n) && p <= n
    ensures PowerFrom(p, n) == n
    decreases n - p
  {
    if p < n {
      PowersDouble(p, n);
      PowerFromReachesPower(2 * p, n);
    }
  }

  /** The units a search answers exactly, for each block size: with room to halve, those that the
      halving settles on; without, the power of two at which doubling passes the block size. */
  predicate Exact(unit: nat, blksize: int) {
    if blksize <= 1 then unit == 2
    else if PowerFrom(2, unit) < blksize then unit == 2 || unit == 3 || (unit > 4 && unit % 4 <= 1)
    else if blksize == 2 then unit == 2 || unit == 3
    else unit == PowerFrom(2, blksize)
  }

  lemma AnswerIsExactIff(unit: nat, blksize: int)
    requires unit > 0
    ensures Found(unit, blksize) == unit <==> Exact(unit, blksize)
  {
  }

  /** Without room to halve the answer is the power of two at which doubling stopped. */
  lemma AnswerIsWhereDoublingStopped(unit: nat, blksize: int)
    requires blksize > 2 && PowerFrom(2, unit) >= blksize
    ensures Found(unit, blksize) == PowerFrom(2, if unit < blksize then unit else blksize)
  {
    if unit >= blksize {
      assert PowerFrom(2, blksize) >= blksize;
    }
  }

  /** If doubling meets the unit below the block size, the answer is within one of it. */
  lemma AnswerIsWithinOne(unit: nat, blksize: int)
    requires unit > 0 && PowerFrom(2, unit) < blksize
    ensures unit - 1 <= Found(unit, blksize) <= unit + 1
    ensures Found(unit, blksize) == unit <==>
            unit == 2 || unit == 3 || (unit > 4 && (unit % 4 == 0 || unit % 4 == 1))
  {
  }

  /** On powers of two from 8 up the search answers the smaller of unit and block size; one step
      below, the unit 4 is answered with 3. */
  lemma AnswerOnPowersOfTwo(unit: nat, blksize: nat)
    requires PowerOfTwo(unit) && PowerOfTwo(blksize) && unit >= 4 && blksize >= 8
    ensures Found(unit, blksize) == if unit == 4 then 3 else if unit < blksize then unit else blksize
  {
    PowerFromReachesPower(2, if unit < blksize then unit else blksize);
    if unit > 4 { PowersDouble(4, unit); assert PowerOfTwo(unit / 2) && PowerOfTwo(unit / 4); }
  }

  /** If doubling passes the block size first, the answer says nothing about the unit: it is the
      first power of two that reaches the block size. */
  lemma AnswerIgnoresLargeUnits(unit: nat, other: nat, blksize: int)
    requires unit >= blksize && other >= blksize > 2
    ensures Found(unit, blksize) == Found(other, blksize)
    ensures Found(unit, blksize) == PowerFrom(2, blksize) && PowerOfTwo(PowerFrom(2, blksize))
    ensures blksize <= Found(unit, blksize) < 2 * blksize
  {
    PowerFromIsPower(2, blksize);
  }
}
