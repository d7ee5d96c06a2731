/**
  coverage-filter.py: keeps the records of a tracefile whose file is tracked, renames the test
  and rewrites the paths; and how that relates to what coverage-diff.py reads.
*/
module LcovFilter {
  import opened Options
  import opened Lcov

  /** The script's arguments and git's answer. */
  datatype Config = Config(tree: string, name: string, tracked: set<string>)

  predicate IsSource(line: string) {
    "SF:" <= line
  }

  /** The path of a record's first SF line, "" if it has none. */
  function FirstSource(record: seq<string>): string {
    if record == [] then "" else if IsSource(record[0]) then record[0][3..] else FirstSource(record[1..])
  }

  /** The record's path in the tree; "" for a path that is not in a tree. */
  function Rel(record: seq<string>): string {
    var rel := AfterLinux(FirstSource(record));
    if rel.Some? then rel.value else ""
  }

  predicate Keeps(c: Config, record: seq<string>) {
    Rel(record) in c.tracked
  }

  function RewriteLine(c: Config, rel: string, line: string): string {
    if "TN:" <= line then "TN:" + c.name
    else if IsSource(line) then "SF:" + c.tree + "/" + rel
    else line
  }

  function Rewrite(c: Config, rel: string, record: seq<string>): (r: seq<string>)
    ensures |r| == |record| && forall i :: 0 <= i < |record| ==> r[i] == RewriteLine(c, rel, record[i])
  {
    seq(|record|, i requires 0 <= i < |record| => RewriteLine(c, rel, record[i]))
  }

  /** The complete records of a tracefile, given the lines of the one begun before. */
  function RecordsFrom(begun: seq<string>, lines: seq<string>): seq<seq<string>>
    decreases |lines|
  {
    if lines == [] then []
    else if lines[0] == END then [begun + [lines[0]]] + RecordsFrom([], lines[1..])
    else RecordsFrom(begun + [lines[0]], lines[1..])
  }

  function Records(lines: seq<string>): seq<seq<string>> {
    RecordsFrom([], lines)
  }

  /** What the filter makes of each record in turn. */
  function FilterRecords(c: Config, records: seq<seq<string>>): seq<seq<string>> {
    if records == [] then []
    else (if Keeps(c, records[0]) then [Rewrite(c, Rel(records[0]), records[0])] else [])
         + FilterRecords(c, records[1..])
  }

  function Filtered(c: Config, lines: seq<string>): seq<string> {
    Flatten(FilterRecords(c, Records(lines)))
  }

  function Ends(lines: seq<string>): nat {
    if lines == [] then 0 else Ends(lines[1..]) + if lines[0] == END then 1 else 0
  }

  lemma {:induction false} FlattenAppend<T>(a: seq<seq<T>>, b: seq<seq<T>>)
    ensures Flatten(a + b) == Flatten(a) + Flatten(b)
  {
    if a == [] {
      assert a + b == b;
    } else {
      FlattenAppend(a[1..], b);
      assert (a + b)[1..] == a[1..] + b;
    }
  }

  lemma {:induction false} RecordsAreCounted(begun: seq<string>, lines: seq<string>)
    ensures |RecordsFrom(begun, lines)| == Ends(lines)
    decreases |lines|
  {
    if lines != [] {
      RecordsAreCounted(if lines[0] == END then [] else begun + [lines[0]], lines[1..]);
    }
  }

  lemma FilterOneRecord(c: Config, record: seq<string>, rest: seq<seq<string>>, out: seq<string>)
    ensures var all, later := FilterRecords(c, [record] + rest), FilterRecords(c, rest);
      if Keeps(c, record) then
        && |all| == |later| + 1
        && out + Flatten(all) == out + Rewrite(c, Rel(record), record) + Flatten(later)
      else all == later
  {
    assert ([record] + rest)[1..] == rest;
    var next := Rewrite(c, Rel(record), record);
    FlattenAppend([next], FilterRecords(c, rest));
    assert Flatten([next]) == next;
  }

  /** The loop's progress: the lines written, the record begun, and the counts. */
  ghost predicate Filtering(c: Config, lines: seq<string>, i: nat, record: seq<string>, out: seq<string>,
                            kept: nat, dropped: nat)
    requires i <= |lines|
  {
    var rest := FilterRecords(c, RecordsFrom(record, lines[i..]));
    && Filtered(c, lines) == out + Flatten(rest)
    && |FilterRecords(c, Records(lines))| == kept + |rest|
    && kept + dropped + Ends(lines[i..]) == Ends(lines)
  }

  lemma FilterOneLine(c: Config, lines: seq<string>, i: nat, record: seq<string>, out: seq<string>,
                      kept: nat, dropped: nat)
    requires i < |lines| && Filtering(c, lines, i, record, out, kept, dropped)
    ensures var longer := record + [lines[i]];
      if lines[i] != END then Filtering(c, lines, i + 1, longer, out, kept, dropped)
      else if Keeps(c, longer) then
        Filtering(c, lines, i + 1, [], out + Rewrite(c, Rel(longer), longer), kept + 1, dropped)
      else Filtering(c, lines, i + 1, [], out, kept, dropped + 1)
  {
    assert lines[i..][0] == lines[i] && lines[i..][1..] == lines[i + 1..];
    if lines[i] == END {
      FilterOneRecord(c, record + [lines[i]], RecordsFrom([], lines[i + 1..]), out);
    }
  }

  /** main()'s loop: the output is the kept records rewritten, in order, and every complete record
      is counted once, as kept or as dropped. */
  method Filter(c: Config, lines: seq<string>) returns (out: seq<string>, kept: nat, dropped: nat)
    ensures out == Filtered(c, lines)
    ensures kept == |FilterRecords(c, Records(lines))|
    ensures kept + dropped == Ends(lines)
  {
    kept, dropped, out := 0, 0, [];
    var record: seq<string> := [];
    for i := 0 to |lines|
      invariant Filtering(c, lines, i, record, out, kept, dropped)
    {
      FilterOneLine(c, lines, i, record, out, kept, dropped);
      record := record + [lines[i]];
      if lines[i] != END { continue; }
      var rel := Rel(record);
      if rel in c.tracked {
        out := out + Rewrite(c, rel, record);
        kept := kept + 1;
      } else {
        dropped := dropped + 1;
      }
      record := [];
    }
  }

  // ---------- the tree's own path ----------

  /** "/linux/" first occurs in the tree's path, with the slash that follows it, at its very end. */
  predicate EndsInLinux(tree: string) {
    AfterLinux(tree + "/") == Some("")
  }

  lemma {:induction false} FindIsStable(s: string, t: string, pattern: string)
    requires Find(s, pattern).Some?
    ensures Find(s + t, pattern) == Find(s, pattern)
  {
    if pattern <= s {
      assert pattern <= s + t;
    } else {
      FindIsStable(s[1..], t, pattern);
      var at := Find(s[1..], pattern).value;
      NotPrefixOfLonger(s, t, pattern);
      assert (s + t)[1..] == s[1..] + t;
    }
  }

  lemma NotPrefixOfLonger(s: string, t: string, pattern: string)
    requires |pattern| <= |s| && !(pattern <= s)
    ensures !(pattern <= s + t)
  {
    assert s + t == s[..|pattern|] + (s[|pattern|..] + t);
    assert (s + t)[..|pattern|] == s[..|pattern|];
  }

  /** A written path is read back as the path in the tree exactly for such trees. */
  lemma WrittenPathReadsBackIff(tree: string)
    ensures EndsInLinux(tree) <==> forall rel :: AfterLinux(tree + "/" + rel) == Some(rel)
  {
    if EndsInLinux(tree) {
      forall rel ensures AfterLinux(tree + "/" + rel) == Some(rel) {
        FindIsStable(tree + "/", rel, LINUX);
        var at := Find(tree + "/", LINUX).value;
        assert |tree + "/"| == at + |LINUX|;
        assert (tree + "/" + rel)[at + |LINUX|..] == rel;
      }
    } else {
      assert tree + "/" + "" == tree + "/";
    }
  }

  // ---------- filtering and reading ----------

  /** Every SF line of a kept record names the file the record was kept for, and no SF line of a
      dropped one names a tracked file.  One SF per record with a path in the tree is enough. */
  ghost predicate Consistent(c: Config, record: seq<string>) {
    forall i :: 0 <= i < |record| && IsSource(record[i]) ==>
      var file := Key(record[i][3..]);
      if Keeps(c, record) then file == Rel(record) else file !in c.tracked
  }

  function Tracked(c: Config, entries: set<(string, string)>): set<(string, string)> {
    set e | e in entries && e.0 in c.tracked
  }

  lemma TestLineIsOther(line: string)
    requires "TN:" <= line
    ensures Classify(line) == Other && !IsSource(line)
  {
    assert line[0] == 'T';
  }

  lemma SourceLineNames(path: string)
    ensures IsSource("SF:" + path) && Classify("SF:" + path) == Source(Key(path))
  {
    assert ("SF:" + path)[3..] == path;
  }

  /** What a rewritten line is, and that rewriting it again changes nothing. */
  lemma RewrittenLine(c: Config, rel: string, line: string)
    requires EndsInLinux(c.tree)
    ensures var written := RewriteLine(c, rel, line);
      && IsSource(written) == IsSource(line)
      && (IsSource(line) ==> written[3..] == c.tree + "/" + rel && Classify(written) == Source(rel))
      && (!IsSource(line) ==> Classify(written) == Classify(line))
      && RewriteLine(c, rel, written) == written
  {
    if "TN:" <= line {
      TestLineIsOther(line);
      TestLineIsOther("TN:" + c.name);
    } else if IsSource(line) {
      WrittenPathReadsBackIff(c.tree);
      SourceLineNames(c.tree + "/" + rel);
      WrittenSource(c, rel, line);
    }
  }

  lemma WrittenSource(c: Config, rel: string, line: string)
    requires IsSource(line) && !("TN:" <= line)
    ensures var written := RewriteLine(c, rel, line);
      && written == "SF:" + (c.tree + "/" + rel) && written[3..] == c.tree + "/" + rel
      && RewriteLine(c, rel, written) == written
  {
    var written := RewriteLine(c, rel, line);
    assert written == "SF:" + (c.tree + "/" + rel) && written[0] == 'S';
  }

  lemma RewriteKeepsTheRecord(c: Config, record: seq<string>)
    requires EndsInLinux(c.tree) && Keeps(c, record) && Consistent(c, record)
    ensures Classified(Rewrite(c, Rel(record), record)) == Classified(record)
  {
    forall i | 0 <= i < |record|
      ensures Classified(Rewrite(c, Rel(record), record))[i] == Classified(record)[i]
    {
      RewrittenLine(c, Rel(record), record[i]);
    }
  }

  lemma {:induction false} EntriesHaveSources(lines: seq<Line>, e: (string, string))
    requires e in Entries(lines) || e in Hits(lines)
    ensures exists i :: 0 <= i < |lines| && lines[i] == Source(e.0)
  {
    HitsAreEntries(lines);
    assert lines[..|lines|] == lines;
    EntriesMean(lines, |lines|, e.0, e.1);
    var i: nat :| i < |lines| && Mentions(lines, i, e.0, e.1);
    var s: nat :| Opens(lines, s, i, e.0);
    assert lines[s] == Source(e.0);
  }

  lemma DroppedRecordHasNothingTracked(c: Config, record: seq<string>)
    requires !Keeps(c, record) && Consistent(c, record)
    ensures Tracked(c, Entries(Classified(record))) == {} && Tracked(c, Hits(Classified(record))) == {}
  {
    var lines := Classified(record);
    forall e | e in Entries(lines) || e in Hits(lines) ensures e.0 !in c.tracked {
      EntriesHaveSources(lines, e);
      var i :| 0 <= i < |lines| && lines[i] == Source(e.0);
      assert IsSource(record[i]);
    }
  }

  /** `after` says about tracked files what `before` says, and nothing else; and the script stops
      on it only if it stops on `before`, whatever was executed earlier. */
  ghost predicate Reduces(c: Config, before: seq<string>, after: seq<string>) {
    && Entries(Classified(after)) == Tracked(c, Entries(Classified(before)))
    && Hits(Classified(after)) == Tracked(c, Hits(Classified(before)))
    && forall h :: Stops(Tracked(c, h), Classified(after)) ==> Stops(h, Classified(before))
  }

  lemma TextConcatenationMerges(a: seq<string>, b: seq<string>)
    requires Closed(Classified(a))
    ensures Entries(Classified(a + b)) == Entries(Classified(a)) + Entries(Classified(b))
    ensures Hits(Classified(a + b)) == Hits(Classified(a)) + Hits(Classified(b))
  {
    ClassifiedJoins(a, b);
    var x, y := Classified(a), Classified(b);
    ConcatenationMerges(x, y);
  }

  lemma TextConcatenationStops(hits: set<(string, string)>, a: seq<string>, b: seq<string>)
    requires Closed(Classified(a))
    ensures Stops(hits, Classified(a + b)) <==>
      Stops(hits, Classified(a)) || Stops(hits + Hits(Classified(a)), Classified(b))
  {
    ClassifiedJoins(a, b);
    var x, y := Classified(a), Classified(b);
    ConcatenationStops(hits, x, y);
  }

  lemma ReducesJoin(c: Config, a: seq<string>, a': seq<string>, b: seq<string>, b': seq<string>)
    requires Closed(Classified(a)) && Closed(Classified(a'))
    requires Reduces(c, a, a') && Reduces(c, b, b')
    ensures Reduces(c, a + b, a' + b')
  {
    TextConcatenationMerges(a, b);
    TextConcatenationMerges(a', b');
    forall h | Stops(Tracked(c, h), Classified(a' + b')) ensures Stops(h, Classified(a + b)) {
      var hits := h + Hits(Classified(a));
      TextConcatenationStops(h, a, b);
      TextConcatenationStops(Tracked(c, h), a', b');
      assert Tracked(c, h) + Hits(Classified(a')) == Tracked(c, hits);
      assert Stops(Tracked(c, hits), Classified(b')) ==> Stops(hits, Classified(b));
    }
  }

  /** In a record for a tracked file earlier hits of other files do not matter. */
  lemma {:induction false} TrackedRecordStops(c: Config, lines: seq<Line>, hits: set<(string, string)>)
    requires forall i :: 0 <= i < |lines| && lines[i].Source? ==> lines[i].file in c.tracked
    ensures Owner(lines).Some? ==> Owner(lines).value in c.tracked
    ensures Stops(Tracked(c, hits), lines) ==> Stops(hits, lines)
  {
    if lines != [] {
      TrackedRecordStops(c, lines[..|lines| - 1], hits);
    }
  }

  lemma KeptRecordReduces(c: Config, record: seq<string>)
    requires EndsInLinux(c.tree) && Closed(Classified(record)) && Consistent(c, record) && Keeps(c, record)
    ensures var after := Rewrite(c, Rel(record), record);
      Reduces(c, record, after) && Closed(Classified(after))
  {
    RewriteKeepsTheRecord(c, record);
    KeptRecordIsTracked(c, record);
    var lines := Classified(record);
    forall i | 0 <= i < |lines| && lines[i].Source? ensures lines[i].file in c.tracked {
      assert IsSource(record[i]);
    }
    forall h | Stops(Tracked(c, h), lines) ensures Stops(h, lines) {
      TrackedRecordStops(c, lines, h);
    }
  }

  lemma OneRecordReduces(c: Config, record: seq<string>)
    requires EndsInLinux(c.tree) && Closed(Classified(record)) && Consistent(c, record)
    ensures var after := if Keeps(c, record) then Rewrite(c, Rel(record), record) else [];
      Reduces(c, record, after) && Closed(Classified(after))
  {
    if Keeps(c, record) {
      KeptRecordReduces(c, record);
    } else {
      DroppedRecordHasNothingTracked(c, record);
      assert Classified([]) == [];
    }
  }

  lemma {:induction false} FilteredRecordsReduce(c: Config, records: seq<seq<string>>)
    requires EndsInLinux(c.tree)
    requires forall r :: r in records ==> Closed(Classified(r)) && Consistent(c, r)
    ensures Reduces(c, Flatten(records), Flatten(FilterRecords(c, records)))
  {
    if records == [] {
      assert Classified([]) == [];
    } else {
      var first, rest := records[0], records[1..];
      FilteredRecordsReduce(c, rest);
      OneRecordReduces(c, first);
      FilterOneRecord(c, first, rest, []);
      assert [first] + rest == records;
      var after := if Keeps(c, first) then Rewrite(c, Rel(first), first) else [];
      var later := Flatten(FilterRecords(c, rest));
      assert Flatten(FilterRecords(c, records)) == after + later by {
        assert [] + Flatten(FilterRecords(c, records)) == Flatten(FilterRecords(c, records));
        assert [] + after + later == after + later;
        assert [] + later == later;
      }
      ReducesJoin(c, first, after, Flatten(rest), later);
    }
  }

  lemma KeptRecordIsTracked(c: Config, record: seq<string>)
    requires Keeps(c, record) && Consistent(c, record)
    ensures Tracked(c, Entries(Classified(record))) == Entries(Classified(record))
    ensures Tracked(c, Hits(Classified(record))) == Hits(Classified(record))
  {
    var lines := Classified(record);
    forall e | e in Entries(lines) || e in Hits(lines) ensures e.0 in c.tracked {
      EntriesHaveSources(lines, e);
      var i :| 0 <= i < |lines| && lines[i] == Source(e.0);
      assert IsSource(record[i]);
    }
  }

  /** The tracefile ends with a complete record. */
  predicate Complete(lines: seq<string>) {
    lines == [] || lines[|lines| - 1] == END
  }

  ghost predicate IsRecord(record: seq<string>) {
    |record| > 0 && record[|record| - 1] == END && END !in record[..|record| - 1]
  }

  lemma {:induction false} RecordsMakeUpTheFile(begun: seq<string>, lines: seq<string>)
    requires Complete(lines) && (lines == [] ==> begun == [])
    ensures Flatten(RecordsFrom(begun, lines)) == begun + lines
    decreases |lines|
  {
    if lines != [] {
      var longer := begun + [lines[0]];
      assert longer + lines[1..] == begun + lines;
      if lines[0] == END {
        RecordsMakeUpTheFile([], lines[1..]);
        assert ([longer] + RecordsFrom([], lines[1..]))[1..] == RecordsFrom([], lines[1..]);
        assert [] + lines[1..] == lines[1..];
      } else {
        RecordsMakeUpTheFile(longer, lines[1..]);
      }
    }
  }

  function Restrict(table: Table, files: set<string>): Table {
    map file | file in table && file in files :: table[file]
  }

  lemma TabulateTracked(c: Config, entries: set<(string, string)>, hits: set<(string, string)>)
    ensures Tabulate(Tracked(c, entries), Tracked(c, hits)) == Restrict(Tabulate(entries, hits), c.tracked)
  {
    var few := Tracked(c, entries);
    forall file ensures file in Files(few) <==> file in Files(entries) && file in c.tracked {
      if file in Files(entries) && file in c.tracked {
        var e :| e in entries && e.0 == file;
        assert e in few;
      }
    }
    forall file | file in c.tracked ensures Row(few, Tracked(c, hits), file) == Row(entries, hits, file) {
      assert Numbers(few, file) == Numbers(entries, file);
      forall no | no in Numbers(entries, file) ensures (file, no) in Tracked(c, hits) <==> (file, no) in hits {}
    }
  }

  /** Reading the filtered tracefile is reading the original restricted to the tracked files. */
  lemma FilteringCommutesWithReading(c: Config, lines: seq<string>)
    requires EndsInLinux(c.tree) && Complete(lines)
    requires forall r :: r in Records(lines) ==> Consistent(c, r)
    requires !Malformed(Classified(lines))
    ensures var before, after := Classified(lines), Classified(Filtered(c, lines));
      && !Malformed(after)
      && Tabulate(Entries(after), Hits(after)) == Restrict(Tabulate(Entries(before), Hits(before)), c.tracked)
  {
    FilteredFileReduces(c, lines);
    TabulateTracked(c, Entries(Classified(lines)), Hits(Classified(lines)));
    assert Tracked(c, {}) == {};
  }

  lemma FilteredFileReduces(c: Config, lines: seq<string>)
    requires EndsInLinux(c.tree) && Complete(lines)
    requires forall r :: r in Records(lines) ==> Consistent(c, r)
    ensures Reduces(c, lines, Filtered(c, lines))
  {
    RecordsMakeUpTheFile([], lines);
    RecordsAreRecords([], lines);
    assert [] + lines == lines;
    forall r | r in Records(lines) ensures Closed(Classified(r)) {
      EndCloses(r);
    }
    FilteredRecordsReduce(c, Records(lines));
  }

  lemma EndCloses(record: seq<string>)
    requires |record| > 0 && record[|record| - 1] == END
    ensures Closed(Classified(record))
  {
    assert Classified(record)[|record| - 1] == End by { EndIsEnd(); }
  }

  lemma {:induction false} FirstSourceIs(record: seq<string>, i: nat)
    requires i < |record| && IsSource(record[i])
    requires forall j :: 0 <= j < i ==> !IsSource(record[j])
    ensures FirstSource(record) == record[i][3..]
  {
    if i > 0 {
      FirstSourceIs(record[1..], i - 1);
    }
  }

  /** A record with one SF line, whose path lies in a tree, is consistent. */
  lemma OneSourceIsConsistent(c: Config, record: seq<string>, i: nat)
    requires i < |record| && IsSource(record[i]) && AfterLinux(record[i][3..]).Some?
    requires forall j :: 0 <= j < |record| && IsSource(record[j]) ==> j == i
    ensures Consistent(c, record)
  {
    FirstSourceIs(record, i);
  }

  // ---------- filtering twice ----------

  lemma {:induction false} RecordsAreRecords(begun: seq<string>, lines: seq<string>)
    requires END !in begun
    ensures forall r :: r in RecordsFrom(begun, lines) ==> IsRecord(r)
    decreases |lines|
  {
    if lines != [] {
      var longer := begun + [lines[0]];
      assert longer[..|longer| - 1] == begun;
      RecordsAreRecords(if lines[0] == END then [] else longer, lines[1..]);
    }
  }

  lemma {:induction false} ReadOneRecord(begun: seq<string>, more: seq<string>, rest: seq<string>)
    requires IsRecord(begun + more) && more != []
    ensures RecordsFrom(begun, more + rest) == [begun + more] + RecordsFrom([], rest)
    decreases |more|
  {
    var longer := begun + [more[0]];
    assert (more + rest)[1..] == more[1..] + rest;
    assert longer + more[1..] == begun + more;
    if |more| == 1 {
      assert more[1..] + rest == rest && more == [more[0]];
      assert more[0] == (begun + more)[|begun + more| - 1];
    } else {
      assert more[0] == (begun + more)[..|begun + more| - 1][|begun|];
      ReadOneRecord(longer, more[1..], rest);
    }
  }

  lemma {:induction false} RecordsOfFlatten(records: seq<seq<string>>)
    requires forall r :: r in records ==> IsRecord(r)
    ensures Records(Flatten(records)) == records
  {
    if records != [] {
      RecordsOfFlatten(records[1..]);
      assert [] + records[0] == records[0];
      ReadOneRecord([], records[0], Flatten(records[1..]));
    }
  }

  lemma {:induction false} FirstSourceRewritten(c: Config, rel: string, record: seq<string>)
    requires EndsInLinux(c.tree)
    ensures FirstSource(Rewrite(c, rel, record)) ==
      if exists i :: 0 <= i < |record| && IsSource(record[i]) then c.tree + "/" + rel else FirstSource(record)
    ensures (forall i :: 0 <= i < |record| ==> !IsSource(record[i])) ==> FirstSource(record) == ""
  {
    if record != [] {
      FirstSourceRewritten(c, rel, record[1..]);
      RewrittenLine(c, rel, record[0]);
      assert Rewrite(c, rel, record)[1..] == Rewrite(c, rel, record[1..]);
      assert !IsSource(record[0]) ==>
        ((exists i :: 0 <= i < |record| && IsSource(record[i])) ==> exists i :: 0 <= i < |record[1..]| && IsSource(record[1..][i])) by {
        if !IsSource(record[0]) && exists i :: 0 <= i < |record| && IsSource(record[i]) {
          var i :| 0 <= i < |record| && IsSource(record[i]);
          assert record[1..][i - 1] == record[i];
        }
      }
    }
  }

  lemma RewrittenRecordKeepsItsPath(c: Config, record: seq<string>)
    requires EndsInLinux(c.tree)
    ensures Rel(Rewrite(c, Rel(record), record)) == Rel(record)
  {
    FirstSourceRewritten(c, Rel(record), record);
    WrittenPathReadsBackIff(c.tree);
    assert AfterLinux(c.tree + "/" + Rel(record)) == Some(Rel(record));
  }

  lemma RewritingAgainChangesNothing(c: Config, rel: string, record: seq<string>)
    requires EndsInLinux(c.tree)
    ensures Rewrite(c, rel, Rewrite(c, rel, record)) == Rewrite(c, rel, record)
  {
    forall i | 0 <= i < |record|
      ensures Rewrite(c, rel, Rewrite(c, rel, record))[i] == Rewrite(c, rel, record)[i]
    {
      RewrittenLine(c, rel, record[i]);
    }
  }

  lemma RewrittenRecordIsRecord(c: Config, rel: string, record: seq<string>)
    requires EndsInLinux(c.tree) && IsRecord(record)
    ensures IsRecord(Rewrite(c, rel, record))
  {
    var written := Rewrite(c, rel, record);
    EndIsEnd();
    forall i | 0 <= i < |record| ensures written[i] == END <==> record[i] == END {
      EndStaysEnd(c, rel, record[i]);
    }
    forall i | 0 <= i < |record| - 1 ensures written[i] != END {
      assert record[i] == record[..|record| - 1][i];
    }
  }

  lemma EndStaysEnd(c: Config, rel: string, line: string)
    ensures RewriteLine(c, rel, line) == END <==> line == END
  {
    assert END[0] == 'e';
    assert "TN:" <= line ==> line[0] == 'T' && RewriteLine(c, rel, line)[0] == 'T';
    assert !("TN:" <= line) && IsSource(line) ==> line[0] == 'S' && RewriteLine(c, rel, line)[0] == 'S';
  }

  lemma {:induction false} FilteredRecordsAreStable(c: Config, records: seq<seq<string>>)
    requires EndsInLinux(c.tree) && forall r :: r in records ==> IsRecord(r)
    ensures var out := FilterRecords(c, records);
      FilterRecords(c, out) == out && forall r :: r in out ==> IsRecord(r)
  {
    if records != [] {
      var first, later := records[0], FilterRecords(c, records[1..]);
      FilteredRecordsAreStable(c, records[1..]);
      if Keeps(c, first) {
        var written := Rewrite(c, Rel(first), first);
        RewrittenRecordKeepsItsPath(c, first);
        RewritingAgainChangesNothing(c, Rel(first), first);
        RewrittenRecordIsRecord(c, Rel(first), first);
        assert FilterRecords(c, records) == [written] + later;
        assert ([written] + later)[1..] == later;
      } else {
        assert FilterRecords(c, records) == later;
      }
    }
  }

  /** Filtering a filtered tracefile keeps every record and changes nothing. */
  lemma FilteringTwiceIsFilteringOnce(c: Config, lines: seq<string>)
    requires EndsInLinux(c.tree)
    ensures var once := Filtered(c, lines);
      && Filtered(c, once) == once
      && |FilterRecords(c, Records(once))| == Ends(once) == |FilterRecords(c, Records(lines))|
  {
    RecordsAreRecords([], lines);
    FilteredRecordsAreStable(c, Records(lines));
    RecordsOfFlatten(FilterRecords(c, Records(lines)));
    RecordsAreCounted([], Filtered(c, lines));
  }

  // ---------- the lines written ----------

  /** A line written in place of `was`: the test's name, the file's path in the tree, or the line. */
  predicate WrittenFor(c: Config, record: seq<string>, was: string, line: string) {
    if "TN:" <= was then line == "TN:" + c.name
    else if "SF:" <= was then line == "SF:" + c.tree + "/" + Rel(record)
    else line == was
  }

  lemma {:induction false} InFlatten<T>(records: seq<seq<T>>, x: T)
    ensures x in Flatten(records) <==> exists r :: r in records && x in r
  {
    if records != [] {
      InFlatten(records[1..], x);
      assert records == [records[0]] + records[1..];
    }
  }

  lemma {:induction false} InFiltered(c: Config, records: seq<seq<string>>, out: seq<string>)
    ensures out in FilterRecords(c, records) <==>
      exists r :: r in records && Keeps(c, r) && out == Rewrite(c, Rel(r), r)
  {
    if records != [] {
      InFiltered(c, records[1..], out);
      assert records == [records[0]] + records[1..];
    }
  }

  ghost predicate ComesFrom(c: Config, records: seq<seq<string>>, line: string) {
    exists r, i :: r in records && Keeps(c, r) && 0 <= i < |r| && WrittenFor(c, r, r[i], line)
  }

  /** The output has exactly the lines of the kept records, each rewritten for its record. */
  lemma LinesWritten(c: Config, lines: seq<string>, line: string)
    ensures line in Filtered(c, lines) <==> ComesFrom(c, Records(lines), line)
  {
    var records := Records(lines);
    var kept := FilterRecords(c, records);
    InFlatten(kept, line);
    if line in Filtered(c, lines) {
      var out :| out in kept && line in out;
      InFiltered(c, records, out);
      var r :| r in records && Keeps(c, r) && out == Rewrite(c, Rel(r), r);
      var i :| 0 <= i < |out| && out[i] == line;
      WrittenIs(c, r, i);
    }
    if r, i :| r in records && Keeps(c, r) && 0 <= i < |r| && WrittenFor(c, r, r[i], line) {
      var out := Rewrite(c, Rel(r), r);
      InFiltered(c, records, out);
      WrittenIs(c, r, i);
      assert out[i] == line;
    }
  }

  lemma WrittenIs(c: Config, r: seq<string>, i: nat)
    requires i < |r|
    ensures forall line :: WrittenFor(c, r, r[i], line) <==> line == Rewrite(c, Rel(r), r)[i]
  {
  }

  /** So every test line of the output carries the new name. */
  lemma TestLinesCarryTheName(c: Config, lines: seq<string>, line: string)
    requires line in Filtered(c, lines) && "TN:" <= line
    ensures line == "TN:" + c.name
  {
    LinesWritten(c, lines, line);
    var r, i :| r in Records(lines) && Keeps(c, r) && 0 <= i < |r| && WrittenFor(c, r, r[i], line);
    assert ("SF:" + c.tree + "/" + Rel(r))[0] == 'S' && line[0] == 'T';
  }
}
