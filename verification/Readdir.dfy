/**
  generic/257: enumerating a directory in batches, closing it after each one, reopening it and
  seeking to the saved position.  Positions are the server's READDIR cookies, opaque numbers as
  in section 18.23 of RFC 8881: each one resumes after the entry it came with.
*/
module Readdir {
  import opened Options
  import Decimal

  const NAME_BUFFER := 16

  /** cookies[k] is the position before names[k]; the last one is the end of the directory. */
  datatype Dir = Dir(names: seq<string>, cookies: seq<nat>)
  {
    ghost predicate Valid() {
      && |cookies| == |names| + 1
      && cookies[0] == 0
      && forall i, j :: 0 <= i < j < |cookies| ==> cookies[i] != cookies[j]
    }
  }

  predicate IsDot(name: string) {
    name == "." || name == ".."
  }

  lemma OnlyTheTwoDots(name: string)
    ensures IsDot(name) <==> name in {".", ".."}
  {
  }

  /** The entry number a name stands for, if it is one of the first n. */
  function IndexOf(name: string, n: nat): Option<nat> {
    if |name| < 2 || |name| >= NAME_BUFFER || name[0] != 'e' then None
    else
      var v := Decimal.ParseInt(name[1..]);
      if v.None? || v.value < 0 || v.value >= n then None else Some(v.value)
  }

  function EntryName(i: nat): string {
    "e" + Decimal.Print(i)
  }

  /** Exactly such names count as entry i: an 'e' and a numeral for i, perhaps with a sign before and a
      newline behind, of at most 15 characters. */
  lemma IndexOfIff(name: string, n: nat, i: nat)
    requires n <= Decimal.INT_MAX
    ensures IndexOf(name, n) == Some(i) <==>
      2 <= |name| < NAME_BUFFER && name[0] == 'e' && i < n && IsTextFor(name[1..], i)
  {
    if 2 <= |name| < NAME_BUFFER && name[0] == 'e' {
      var s := name[1..];
      if Decimal.ParseInt(s).Some? {
        Decimal.ParseIntReads(s);
      }
      forall sign, digits, end | Decimal.IsIntText(s, sign, digits, end)
        ensures Decimal.ParseInt(s) ==
          var v := Decimal.Signed(sign, Decimal.PlaceValue(digits)); if Decimal.InInt(v) then Some(v) else None
      {
        Decimal.ParseIntOf(sign, digits, end);
      }
    }
  }

  ghost predicate IsTextFor(s: string, i: nat) {
    exists sign, digits, end ::
      Decimal.IsIntText(s, sign, digits, end) && Decimal.Signed(sign, Decimal.PlaceValue(digits)) == i
  }

  // ---------- one iterate_dir() ----------

  class Iter {
    var taken: nat
    var dup: nat
    var alien: nat

    constructor ()
      ensures taken == 0 && dup == 0 && alien == 0
    {
      taken, dup, alien := 0, 0, 0;
    }

    /** The callback; false stops the iteration without consuming the entry.  The counters in
        `seen` are bytes. */
    method Actor(seen: array<nat>, batch: nat, name: string) returns (more: bool)
      modifies this, seen
      ensures more <==> old(taken) < batch
      ensures !more || IsDot(name) ==> unchanged(this) && unchanged(seen)
      ensures more && !IsDot(name) ==>
        var idx := IndexOf(name, seen.Length);
        if idx.None? then
          alien == old(alien) + 1 && dup == old(dup) && taken == old(taken) && unchanged(seen)
        else
          && taken == old(taken) + 1 && alien == old(alien)
          && dup == old(dup) + (if old(seen[idx.value]) != 0 then 1 else 0)
          && seen[..] == old(seen[..])[idx.value := (old(seen[idx.value]) + 1) % 256]
    {
      if taken >= batch { return false; }
      if IsDot(name) { return true; }
      if |name| < 2 || |name| >= NAME_BUFFER || name[0] != 'e' {
        alien := alien + 1;
        return true;
      }
      var idx := Decimal.ParseInt(name[1..]);
      if idx.None? || idx.value < 0 || idx.value >= seen.Length {
        alien := alien + 1;
        return true;
      }
      if seen[idx.value] != 0 { dup := dup + 1; }
      seen[idx.value] := (seen[idx.value] + 1) % 256;
      taken := taken + 1;
      more := true;
    }
  }

  // ---------- what the enumeration should see ----------

  /** The first k entries are entries of the test, each listed once. */
  ghost predicate CleanPrefix(names: seq<string>, k: nat, n: nat)
    requires k <= |names|
  {
    && (forall i :: 0 <= i < k && !IsDot(names[i]) ==> IndexOf(names[i], n).Some?)
    && forall i, j :: 0 <= i < j < k && !IsDot(names[i]) && !IsDot(names[j]) ==>
         IndexOf(names[i], n) != IndexOf(names[j], n)
  }

  /** The entry numbers among the first k names. */
  function Listed(names: seq<string>, k: nat, n: nat): set<nat>
    requires k <= |names|
  {
    if k == 0 then {}
    else
      var idx := IndexOf(names[k - 1], n);
      Listed(names, k - 1, n) + if IsDot(names[k - 1]) || idx.None? then {} else {idx.value}
  }

  /** Every entry of the test once, and nothing else but dots. */
  ghost predicate ExactListing(names: seq<string>, n: nat) {
    CleanPrefix(names, |names|, n) && forall i: nat :: i < n ==> i in Listed(names, |names|, n)
  }

  /** How many of the first k names are not dots. */
  function Entries(names: seq<string>, k: nat): nat
    requires k <= |names|
  {
    if k == 0 then 0 else Entries(names, k - 1) + if IsDot(names[k - 1]) then 0 else 1
  }

  lemma {:induction false} EntriesGrow(names: seq<string>, j: nat, k: nat)
    requires j <= k <= |names|
    ensures Entries(names, j) <= Entries(names, k)
  {
    if j < k {
      EntriesGrow(names, j, k - 1);
    }
  }

  lemma {:induction false} ListedHasWitness(names: seq<string>, k: nat, n: nat, i: nat)
    requires k <= |names| && i in Listed(names, k, n)
    ensures i < n
    ensures exists j :: 0 <= j < k && !IsDot(names[j]) && IndexOf(names[j], n) == Some(i)
  {
    if i in Listed(names, k - 1, n) {
      ListedHasWitness(names, k - 1, n, i);
    }
  }

  lemma {:induction false} ListedHasAll(names: seq<string>, k: nat, n: nat, j: nat)
    requires j < k <= |names| && !IsDot(names[j]) && IndexOf(names[j], n).Some?
    ensures IndexOf(names[j], n).value in Listed(names, k, n)
  {
    if j < k - 1 {
      ListedHasAll(names, k - 1, n, j);
    }
  }

  lemma {:induction false} EntriesAreListed(names: seq<string>, k: nat, n: nat)
    requires k <= |names| && CleanPrefix(names, k, n)
    ensures |Listed(names, k, n)| == Entries(names, k)
  {
    if k > 0 {
      EntriesAreListed(names, k - 1, n);
      if !IsDot(names[k - 1]) {
        var i := IndexOf(names[k - 1], n).value;
        if i in Listed(names, k - 1, n) {
          ListedHasWitness(names, k - 1, n, i);
        }
      }
    }
  }

  lemma {:induction false} CountBelow(n: nat, s: set<nat>)
    requires forall i: nat :: i in s <==> i < n
    ensures |s| == n
  {
    if n > 0 {
      CountBelow(n - 1, s - {n - 1});
    } else {
      assert s == {};
    }
  }

  lemma ExactListingHasNEntries(names: seq<string>, n: nat)
    requires ExactListing(names, n)
    ensures Entries(names, |names|) == n
  {
    EntriesAreListed(names, |names|, n);
    forall i: nat ensures i in Listed(names, |names|, n) <==> i < n {
      if i in Listed(names, |names|, n) { ListedHasWitness(names, |names|, n, i); }
    }
    CountBelow(n, Listed(names, |names|, n));
  }

  // ---------- the enumeration ----------

  function Ceil(n: nat, b: nat): nat
    requires b > 0
  {
    (n + b - 1) / b
  }

  lemma MulMonotone(p: int, q: int, b: nat)
    requires p <= q
    ensures p * b <= q * b
  {
  }

  lemma CeilIs(n: nat, b: nat, r: nat)
    requires b > 0 && (r > 0 ==> (r - 1) * b < n) && n <= r * b
    ensures Ceil(n, b) == r
  {
    var q := Ceil(n, b);
    if q < r {
      MulMonotone(q + 1, r, b);
    } else if q > r {
      MulMonotone(r + 1, q, b);
    }
  }

  ghost predicate SeenMatches(seen: seq<nat>, names: seq<string>, k: nat)
    requires k <= |names|
  {
    forall i :: 0 <= i < |seen| ==> seen[i] == if i in Listed(names, k, |seen|) then 1 else 0
  }

  // ---------- one batch ----------

  /** What an iteration has learnt after the first k names: nothing wrong, and then the marks say
      exactly which entries were listed; or a duplicate or alien, and then the listing is wrong. */
  ghost predicate Learnt(it: Iter, seen: array<nat>, names: seq<string>, k: nat)
    requires k <= |names|
    reads it, seen
  {
    if it.dup == 0 && it.alien == 0 then
      CleanPrefix(names, k, seen.Length) && SeenMatches(seen[..], names, k)
    else !CleanPrefix(names, k, seen.Length)
  }

  lemma DotTeachesNothing(names: seq<string>, k: nat, seen: seq<nat>)
    requires k < |names| && CleanPrefix(names, k, |seen|) && SeenMatches(seen, names, k) && IsDot(names[k])
    ensures CleanPrefix(names, k + 1, |seen|) && SeenMatches(seen, names, k + 1)
  {
  }

  lemma WrongEntryShows(names: seq<string>, k: nat, seen: seq<nat>)
    requires k < |names| && CleanPrefix(names, k, |seen|) && SeenMatches(seen, names, k) && !IsDot(names[k])
    requires var idx := IndexOf(names[k], |seen|); idx.None? || seen[idx.value] != 0
    ensures !CleanPrefix(names, k + 1, |seen|)
  {
    var idx := IndexOf(names[k], |seen|);
    if idx.Some? {
      assert idx.value in Listed(names, k, |seen|);
      ListedHasWitness(names, k, |seen|, idx.value);
    }
  }

  lemma FreshEntryFits(names: seq<string>, k: nat, seen: seq<nat>, i: nat)
    requires k < |names| && CleanPrefix(names, k, |seen|) && SeenMatches(seen, names, k) && !IsDot(names[k])
    requires IndexOf(names[k], |seen|) == Some(i) && i < |seen| && seen[i] == 0
    ensures CleanPrefix(names, k + 1, |seen|) && SeenMatches(seen[i := 1], names, k + 1)
  {
    forall j | 0 <= j < k && !IsDot(names[j]) ensures IndexOf(names[j], |seen|) != Some(i) {
      if IndexOf(names[j], |seen|) == Some(i) { ListedHasAll(names, k, |seen|, j); }
    }
    assert Listed(names, k + 1, |seen|) == Listed(names, k, |seen|) + {i};
  }

  lemma ActorLearns(names: seq<string>, k: nat, before: seq<nat>, after: seq<nat>)
    requires k < |names| && CleanPrefix(names, k, |before|) && SeenMatches(before, names, k)
    ensures IsDot(names[k]) && after == before ==>
      CleanPrefix(names, k + 1, |before|) && SeenMatches(after, names, k + 1)
    ensures !IsDot(names[k]) ==>
      var idx := IndexOf(names[k], |before|);
      if idx.None? || before[idx.value] != 0 then !CleanPrefix(names, k + 1, |before|)
      else
        && CleanPrefix(names, k + 1, |before|)
        && (after == before[idx.value := 1] ==> SeenMatches(after, names, k + 1))
  {
    if IsDot(names[k]) {
      DotTeachesNothing(names, k, before);
    } else {
      var idx := IndexOf(names[k], |before|);
      if idx.None? || before[idx.value] != 0 {
        WrongEntryShows(names, k, before);
      } else {
        FreshEntryFits(names, k, before, idx.value);
      }
    }
  }

  /** One iterate_dir() from position k: runs until the actor stops it or the directory ends. */
  method IterateDir(it: Iter, seen: array<nat>, batch: nat, names: seq<string>, from: nat) returns (at: nat)
    requires from <= |names| && batch > 0
    requires it.taken == 0 && Learnt(it, seen, names, from)
    modifies it, seen
    ensures from <= at <= |names|
    ensures Learnt(it, seen, names, at)
    ensures it.dup == 0 && it.alien == 0 ==>
      && it.taken == Entries(names, at) - Entries(names, from)
      && it.taken <= batch && (at < |names| ==> it.taken == batch)
  {
    at := from;
    while at < |names|
      invariant from <= at <= |names|
      invariant Learnt(it, seen, names, at)
      invariant it.dup == 0 && it.alien == 0 ==> it.taken == Entries(names, at) - Entries(names, from)
      invariant it.taken <= batch
    {
      ghost var before := seen[..];
      ghost var clean := it.dup == 0 && it.alien == 0;
      if clean { ActorLearns(names, at, before, before); }
      var more := it.Actor(seen, batch, names[at]);
      if !more { break; }
      if clean { ActorLearns(names, at, before, seen[..]); }
      at := at + 1;
    }
  }

  // ---------- the whole enumeration ----------

  /** Seeking to a cookie resumes at the one entry it belongs to. */
  method Seek(dir: Dir, pos: nat) returns (k: nat)
    requires dir.Valid() && pos in dir.cookies
    ensures k <= |dir.names| && dir.cookies[k] == pos
  {
    k := 0;
    while dir.cookies[k] != pos
      invariant k < |dir.cookies| && pos !in dir.cookies[..k]
      decreases |dir.cookies| - k
    {
      assert pos in dir.cookies[k + 1..];
      k := k + 1;
    }
  }

  /** The batches so far: each of the rounds but the last has taken a full batch. */
  ghost predicate Batched(names: seq<string>, k: nat, batch: nat, rounds: nat)
    requires k <= |names|
  {
    && Entries(names, k) <= rounds * batch
    && (k < |names| ==> Entries(names, k) == rounds * batch)
    && (rounds > 0 ==> (rounds - 1) * batch < Entries(names, k))
  }

  lemma BatchedNext(names: seq<string>, k: nat, at: nat, batch: nat, rounds: nat)
    requires k <= at <= |names| && batch > 0 && Batched(names, k, batch, rounds)
    requires 0 < Entries(names, at) - Entries(names, k) <= batch
    requires at < |names| ==> Entries(names, at) - Entries(names, k) == batch
    ensures Batched(names, at, batch, rounds + 1)
  {
    assert k < |names|;
    assert (rounds + 1) * batch == rounds * batch + batch;
  }

  /** What the rounds establish when they end, having reached entry k: a duplicate or alien was
      met, or nothing was left to deliver, or the allowed rounds ran out. */
  datatype Ending = Rejected | EndOfDirectory | OutOfRounds

  ghost predicate Ended(names: seq<string>, seen: seq<nat>, batch: nat, limit: nat,
                        ending: Ending, rounds: nat, k: nat) {
    match ending
    case Rejected => !CleanPrefix(names, |names|, |seen|)
    case EndOfDirectory =>
      && CleanPrefix(names, |names|, |seen|) && SeenMatches(seen, names, |names|)
      && rounds < limit && Batched(names, |names|, batch, rounds)
    case OutOfRounds =>
      k <= |names| && rounds == limit && Batched(names, k, batch, limit)
  }

  method ReadRounds(dir: Dir, seen: array<nat>, batch: nat, limit: nat)
    returns (ending: Ending, rounds: nat, ghost k: nat)
    requires dir.Valid() && batch > 0 && forall i :: 0 <= i < seen.Length ==> seen[i] == 0
    modifies seen
    ensures Ended(dir.names, seen[..], batch, limit, ending, rounds, k)
  {
    var names := dir.names;
    var pos := 0;
    k := 0;
    rounds := 0;
    while rounds < limit
      invariant k <= |names| && pos == dir.cookies[k]
      invariant rounds <= limit
      invariant CleanPrefix(names, k, seen.Length) && SeenMatches(seen[..], names, k)
      invariant Batched(names, k, batch, rounds)
    {
      var it := new Iter();
      var from := Seek(dir, pos);
      assert from == k;
      var at := IterateDir(it, seen, batch, names, from);
      pos := dir.cookies[at];
      if it.dup != 0 || it.alien != 0 { return Rejected, rounds, at; }
      if it.taken == 0 {
        assert at == |names| && Entries(names, at) == Entries(names, k);
        return EndOfDirectory, rounds, at;
      }
      BatchedNext(names, k, at, batch, rounds);
      k := at;
      rounds := rounds + 1;
    }
    ending := OutOfRounds;
  }

  lemma EndingDecides(names: seq<string>, seen: seq<nat>, batch: nat, limit: nat,
                      ending: Ending, rounds: nat, k: nat)
    requires batch > 0 && Ended(names, seen, batch, limit, ending, rounds, k)
    ensures ExactListing(names, |seen|) && Ceil(|seen|, batch) < limit <==>
      ending == EndOfDirectory && forall i :: 0 <= i < |seen| ==> seen[i] != 0
    ensures ending == EndOfDirectory && ExactListing(names, |seen|) ==> rounds == Ceil(|seen|, batch)
  {
    if ExactListing(names, |seen|) {
      ExactListingHasNEntries(names, |seen|);
      if ending == EndOfDirectory {
        CeilIs(|seen|, batch, rounds);
      } else if ending == OutOfRounds && limit > 0 {
        EntriesGrow(names, k, |names|);
        RoundsAreNeeded(|seen|, batch, limit);
      }
    } else if ending == EndOfDirectory {
      var i: nat :| i < |seen| && i !in Listed(names, |names|, |seen|);
      assert seen[i] == 0;
    }
  }

  /** The enumeration succeeds exactly when the directory lists every entry of the test once and
      nothing else, and the entries fit the allowed rounds; it then ends in the round after the
      ceil(n / batch) that deliver entries, having marked every entry exactly once. */
  method Enumerate(dir: Dir, seen: array<nat>, batch: nat, limit: nat) returns (ok: bool, rounds: nat)
    requires dir.Valid() && batch > 0
    modifies seen
    ensures ok <==> ExactListing(dir.names, seen.Length) && Ceil(seen.Length, batch) < limit
    ensures ok ==> rounds == Ceil(seen.Length, batch)
    ensures ok ==> forall i :: 0 <= i < seen.Length ==> seen[i] == 1
  {
    forall i | 0 <= i < seen.Length { seen[i] := 0; }
    var ending;
    ghost var k;
    ending, rounds, k := ReadRounds(dir, seen, batch, limit);
    EndingDecides(dir.names, seen[..], batch, limit, ending, rounds, k);
    if ending != EndOfDirectory { return false, rounds; }
    var missing := 0;
    for i := 0 to seen.Length
      invariant missing >= 0
      invariant missing == 0 <==> forall j :: 0 <= j < i ==> seen[..][j] != 0
    {
      if seen[i] == 0 { missing := missing + 1; }
    }
    ok := missing == 0;
    assert ok ==> forall i :: 0 <= i < seen.Length ==> seen[i] == seen[..][i];
  }

  lemma RoundsAreNeeded(n: nat, batch: nat, limit: nat)
    requires batch > 0 && limit > 0 && (limit - 1) * batch < n
    ensures Ceil(n, batch) >= limit
  {
    var q := Ceil(n, batch);
    if q < limit {
      MulMonotone(q, limit - 1, batch);
    }
  }

  // ---------- the directory the test makes ----------

  lemma EntryNamesParse(i: nat, n: nat)
    requires i < n <= Decimal.INT_MAX
    ensures IndexOf(EntryName(i), n) == Some(i) && !IsDot(EntryName(i))
  {
    Decimal.ParseIntPrinted(i);
    assert EntryName(i)[1..] == Decimal.Print(i);
  }

  ghost predicate Occurs(names: seq<string>, order: seq<nat>, i: nat)
    requires |order| == |names|
  {
    exists k :: 0 <= k < |names| && !IsDot(names[k]) && order[k] == i
  }

  /** The listing holds e0 .. e(n-1) once each, in any order, with dot entries anywhere. */
  ghost predicate ListsTheFiles(names: seq<string>, order: seq<nat>, n: nat) {
    && |order| == |names|
    && (forall k :: 0 <= k < |names| ==> IsDot(names[k]) || (order[k] < n && names[k] == EntryName(order[k])))
    && (forall j, k :: 0 <= j < k < |names| && !IsDot(names[j]) && !IsDot(names[k]) ==> order[j] != order[k])
    && (forall i: nat :: i < n ==> Occurs(names, order, i))
  }

  /** Such a directory is exactly what the enumeration accepts, whatever the order. */
  lemma TheFilesAreAnExactListing(names: seq<string>, order: seq<nat>, n: nat)
    requires n <= Decimal.INT_MAX && ListsTheFiles(names, order, n)
    ensures ExactListing(names, n)
  {
    forall k | 0 <= k < |names| && !IsDot(names[k]) ensures IndexOf(names[k], n) == Some(order[k]) {
      EntryNamesParse(order[k], n);
    }
    forall i: nat | i < n ensures i in Listed(names, |names|, n) {
      assert Occurs(names, order, i);
      var k :| 0 <= k < |names| && !IsDot(names[k]) && order[k] == i;
      ListedHasAll(names, |names|, n, k);
    }
  }
}
