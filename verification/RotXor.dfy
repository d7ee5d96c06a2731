/**
  Hashes that fold a sequence of words by rotating the hash so far and adding the next word with
  exclusive or, over any words, addition and rotation that obey the usual laws.
*/
module RotXor {

  /** How many rotations bring a word back. */
  const PERIOD: nat := 8

  datatype Ops<!T> = Ops(zero: T, add: (T, T) -> T, rol: T -> T)

  /** Addition is commutative and associative with every word its own inverse, and rotation
      respects it and has that period. */
  ghost predicate Laws<T>(o: Ops<T>, x: T, y: T, z: T) {
    && o.add(x, y) == o.add(y, x)
    && o.add(o.add(x, y), z) == o.add(x, o.add(y, z))
    && o.add(o.zero, x) == x
    && o.add(x, x) == o.zero
    && o.rol(o.add(x, y)) == o.add(o.rol(x), o.rol(y))
    && o.rol(o.zero) == o.zero
    && Turn(o, x, PERIOD) == x
  }

  /** Proofs below instantiate the laws by asserting them of the words they need. */
  ghost predicate Lawful<T(!new)>(o: Ops<T>) {
    forall x, y, z :: Laws(o, x, y, z)
  }

  /** d rotations. */
  function Turn<T>(o: Ops<T>, x: T, d: nat): T {
    if d == 0 then x else o.rol(Turn(o, x, d - 1))
  }

  /** The hash as the loop computes it. */
  function Fold<T>(o: Ops<T>, words: seq<T>): T {
    if words == [] then o.zero
    else o.add(words[|words| - 1], o.rol(Fold(o, words[..|words| - 1])))
  }

  /** The sum of the words, each rotated once for every place between it and place m. */
  function SumOfTurns<T>(o: Ops<T>, words: seq<T>, m: nat): T
    requires |words| <= m
  {
    if words == [] then o.zero
    else o.add(Turn(o, words[|words| - 1], m - |words|), SumOfTurns(o, words[..|words| - 1], m))
  }

  lemma {:induction false} TurnsShift<T(!new)>(o: Ops<T>, words: seq<T>, m: nat)
    requires Lawful(o) && |words| <= m
    ensures SumOfTurns(o, words, m + 1) == o.rol(SumOfTurns(o, words, m))
  {
    if words == [] {
      assert Laws(o, o.zero, o.zero, o.zero);
    } else {
      var front, turned := words[..|words| - 1], Turn(o, words[|words| - 1], m - |words|);
      TurnsShift(o, front, m);
      assert Laws(o, turned, SumOfTurns(o, front, m), o.zero);
      assert Turn(o, words[|words| - 1], m + 1 - |words|) == o.rol(turned);
    }
  }

  /** The fold is the sum of the words, each rotated once for every word that follows it. */
  lemma {:induction false} FoldIsSumOfTurns<T(!new)>(o: Ops<T>, words: seq<T>)
    requires Lawful(o)
    ensures Fold(o, words) == SumOfTurns(o, words, |words|)
  {
    if words != [] {
      var front := words[..|words| - 1];
      FoldIsSumOfTurns(o, front);
      TurnsShift(o, front, |front|);
    }
  }

  function Sums<T>(o: Ops<T>, a: seq<T>, b: seq<T>): (r: seq<T>)
    requires |a| == |b|
    ensures |r| == |a| && forall i :: 0 <= i < |a| ==> r[i] == o.add(a[i], b[i])
  {
    seq(|a|, i requires 0 <= i < |a| => o.add(a[i], b[i]))
  }

  lemma Interchange<T(!new)>(o: Ops<T>, x: T, y: T, z: T, w: T)
    requires Lawful(o)
    ensures o.add(o.add(x, y), o.add(z, w)) == o.add(o.add(x, z), o.add(y, w))
  {
    assert Laws(o, x, y, o.add(z, w)) && Laws(o, y, z, w) && Laws(o, z, y, w) && Laws(o, x, z, o.add(y, w));
  }

  lemma {:induction false} FoldIsLinear<T(!new)>(o: Ops<T>, a: seq<T>, b: seq<T>)
    requires Lawful(o) && |a| == |b|
    ensures Fold(o, Sums(o, a, b)) == o.add(Fold(o, a), Fold(o, b))
  {
    if a == [] {
      assert Sums(o, a, b) == [] && Laws(o, o.zero, o.zero, o.zero);
    } else {
      var n := |a| - 1;
      var x, y := Fold(o, a[..n]), Fold(o, b[..n]);
      FoldIsLinear(o, a[..n], b[..n]);
      assert Sums(o, a, b)[..n] == Sums(o, a[..n], b[..n]);
      assert Laws(o, x, y, x);
      Interchange(o, a[n], b[n], o.rol(x), o.rol(y));
    }
  }

  lemma {:induction false} TurnsAdd<T>(o: Ops<T>, x: T, d: nat, e: nat)
    ensures Turn(o, x, d + e) == Turn(o, Turn(o, x, d), e)
  {
    if e > 0 {
      TurnsAdd(o, x, d, e - 1);
      assert Turn(o, x, d + e) == o.rol(Turn(o, x, d + (e - 1)));
    }
  }

  lemma {:induction false} TurnPeriods<T(!new)>(o: Ops<T>, x: T, d: nat, k: nat)
    requires Lawful(o)
    ensures Turn(o, x, d + PERIOD * k) == Turn(o, x, d)
  {
    if k > 0 {
      TurnPeriods(o, x, d, k - 1);
      TurnsAdd(o, x, PERIOD, d + PERIOD * (k - 1));
      assert Laws(o, x, x, x);
    }
  }

  lemma {:induction false} TurnAdds<T(!new)>(o: Ops<T>, x: T, y: T, d: nat)
    requires Lawful(o)
    ensures Turn(o, o.add(x, y), d) == o.add(Turn(o, x, d), Turn(o, y, d))
  {
    if d > 0 {
      TurnAdds(o, x, y, d - 1);
      assert Laws(o, Turn(o, x, d - 1), Turn(o, y, d - 1), x);
    }
  }

  lemma ReplaceSummand<T(!new)>(o: Ops<T>, s: T, x: T, y: T)
    requires Lawful(o)
    ensures o.add(y, s) == o.add(o.add(x, s), o.add(x, y))
  {
    assert Laws(o, x, s, o.add(x, y)) && Laws(o, s, x, o.add(x, y)) && Laws(o, x, x, y)
        && Laws(o, s, o.add(x, o.add(x, y)), x) && Laws(o, y, s, x) && Laws(o, y, y, y);
  }

  /** Replacing a word adds the difference of old and new, rotated to its place. */
  lemma {:induction false} ReplacingOneWord<T(!new)>(o: Ops<T>, words: seq<T>, i: nat, w: T, m: nat)
    requires Lawful(o) && i < |words| <= m
    ensures SumOfTurns(o, words[i := w], m)
         == o.add(SumOfTurns(o, words, m), Turn(o, o.add(words[i], w), m - i - 1))
  {
    var n := |words| - 1;
    var difference := Turn(o, o.add(words[i], w), m - i - 1);
    if i == n {
      assert words[i := w][..n] == words[..n];
      TurnAdds(o, words[i], w, m - i - 1);
      ReplaceSummand(o, SumOfTurns(o, words[..n], m), Turn(o, words[i], m - i - 1), Turn(o, w, m - i - 1));
    } else {
      ReplacingOneWord(o, words[..n], i, w, m);
      assert words[i := w][..n] == words[..n][i := w];
      assert Laws(o, Turn(o, words[n], m - |words|), SumOfTurns(o, words[..n], m), difference);
    }
  }

  /** Two words a multiple of the period apart may change places. */
  lemma FoldIgnoresSwap<T(!new)>(o: Ops<T>, words: seq<T>, i: nat, j: nat)
    requires Lawful(o) && i < j < |words| && (j - i) % PERIOD == 0
    ensures Fold(o, words[i := words[j]][j := words[i]]) == Fold(o, words)
  {
    var once := words[i := words[j]];
    FoldIsSumOfTurns(o, words);
    FoldIsSumOfTurns(o, once[j := words[i]]);
    ReplacingOneWord(o, words, i, words[j], |words|);
    ReplacingOneWord(o, once, j, words[i], |words|);
    var sum, d := SumOfTurns(o, words, |words|), |words| - j - 1;
    var difference := Turn(o, o.add(words[i], words[j]), d);
    TurnPeriods(o, o.add(words[i], words[j]), d, (j - i) / PERIOD);
    assert Laws(o, words[i], words[j], sum) && once[j] == words[j];
    assert Laws(o, sum, difference, difference) && Laws(o, difference, difference, sum)
        && Laws(o, sum, o.zero, sum);
  }
}
