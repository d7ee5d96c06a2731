/**
  coverage-diff.py's parser of lcov tracefiles: a line-by-line state machine, and what it means
  for a tracefile as a whole.  Lines are strings without their newline.
*/
module Lcov {
  import opened Options
  import Decimal

  const LINUX := "/linux/"
  const END := "end_of_record"

  // ---------- one line ----------

  /** Where pattern first occurs in s. */
  function Find(s: string, pattern: string): (r: Option<nat>)
    ensures r.Some? ==> r.value + |pattern| <= |s| && pattern <= s[r.value..]
  {
    if pattern <= s then Some(0)
    else if s == "" then None
    else
      var later := Find(s[1..], pattern);
      if later.None? then None else Some(later.value + 1)
  }

  /** And nowhere before; if None, nowhere at all. */
  lemma {:induction false} FindIsFirst(s: string, pattern: string, j: nat)
    requires j <= |s|
    ensures Find(s, pattern).Some? && j < Find(s, pattern).value ==> !(pattern <= s[j..])
    ensures Find(s, pattern).None? ==> !(pattern <= s[j..])
  {
    if j > 0 {
      FindIsFirst(s[1..], pattern, j - 1);
      assert s[1..][j - 1..] == s[j..];
    } else {
      assert s[0..] == s;
    }
  }

  /** The part of a path after its first "/linux/". */
  function AfterLinux(path: string): Option<string> {
    var at := Find(path, LINUX);
    if at.None? then None else Some(path[at.value + |LINUX|..])
  }

  /** path.split("/linux/", 1)[-1] */
  function Key(path: string): string {
    var rel := AfterLinux(path);
    if rel.Some? then rel.value else path
  }

  /** int() of an ASCII numeral: an optional sign and digits. */
  function IntOf(s: string): Option<int> {
    var v := Decimal.Parse(Decimal.Body(s));
    if v.None? then None else Some(Decimal.Negated(v.value, |s| > 0 && s[0] == '-'))
  }

  /** Digits are worth what their places say, after a minus sign its negative. */
  lemma IntOfText(sign: string, digits: string)
    requires Decimal.IsSign(sign) && Decimal.IsNumeral(digits)
    ensures IntOf(sign + digits) == Some(Decimal.Signed(sign, Decimal.PlaceValue(digits)))
  {
    assert Decimal.IsDigit(digits[0]);
    Decimal.BodyOf(sign, digits);
    Decimal.ParseIsPlaceValue(digits);
  }

  /** So every number is read back from its numeral, with or without a sign. */
  lemma IntOfPrinted(n: nat)
    ensures IntOf(Decimal.Print(n)) == Some(n)
    ensures IntOf("+" + Decimal.Print(n)) == Some(n)
    ensures IntOf("-" + Decimal.Print(n)) == Some(Decimal.Negated(n, true))
    ensures Decimal.Negated(n, true) + n == 0
  {
    Decimal.PrintIsTheNumeral(n);
    IntOfText("", Decimal.Print(n));
    IntOfText("+", Decimal.Print(n));
    IntOfText("-", Decimal.Print(n));
    assert "" + Decimal.Print(n) == Decimal.Print(n);
  }

  ghost predicate IsInteger(s: string) {
    exists sign, digits :: Decimal.IsSign(sign) && Decimal.IsNumeral(digits) && s == sign + digits
  }

  /** Nothing else is read. */
  lemma IntOfReadsIff(s: string)
    ensures IntOf(s).Some? <==> IsInteger(s)
  {
    Decimal.ParseIsPlaceValue(Decimal.Body(s));
    Decimal.SignAndBody(s);
    if sign, digits :| Decimal.IsSign(sign) && Decimal.IsNumeral(digits) && s == sign + digits {
      IntOfText(sign, digits);
    }
  }

  /** A DA line without a comma is BadData; a count that is no number is None. */
  datatype Line = Source(file: string) | Data(no: string, count: Option<int>) | BadData | End | Other

  predicate Positive(line: Line) {
    line.Data? && line.count.Some? && line.count.value > 0
  }

  /** A DA line is the line number and the count before and after the first comma. */
  function ParseData(s: string): Line {
    var comma := Find(s, ",");
    if comma.None? then BadData
    else
      Data(s[..comma.value], IntOf(UpToComma(s[comma.value + 1..])))
  }

  function UpToComma(s: string): string {
    var comma := Find(s, ",");
    if comma.None? then s else s[..comma.value]
  }

  function Classify(line: string): Line {
    if "SF:" <= line then Source(Key(line[3..]))
    else if "DA:" <= line then ParseData(line[3..])
    else if line == END then End
    else Other
  }

  function Classified(lines: seq<string>): (r: seq<Line>)
    ensures |r| == |lines| && forall i :: 0 <= i < |lines| ==> r[i] == Classify(lines[i])
  {
    seq(|lines|, i requires 0 <= i < |lines| => Classify(lines[i]))
  }

  lemma ClassifiedJoins(a: seq<string>, b: seq<string>)
    ensures Classified(a + b) == Classified(a) + Classified(b)
  {
  }

  /** What kind of line it is shows at its start; the end of a record is the whole line. */
  lemma LineKinds(line: string)
    ensures Classify(line).Source? <==> "SF:" <= line
    ensures Classify(line).Data? || Classify(line).BadData? <==> "DA:" <= line
    ensures Classify(line).BadData? <==> "DA:" <= line && Find(line[3..], ",").None?
    ensures Classify(line).End? <==> line == END
  {
    assert END[0] == 'e';
    assert "SF:" <= line ==> line[0] == 'S';
    assert "DA:" <= line ==> line[0] == 'D';
  }

  /** The file of an SF line: what follows the first "/linux/", or the whole path without one. */
  lemma KeyFollowsTheFirstLinux(path: string)
    ensures (forall j :: 0 <= j <= |path| ==> !(LINUX <= path[j..])) ==> Key(path) == path
    ensures forall at :: 0 <= at <= |path| && LINUX <= path[at..] && (forall j :: 0 <= j < at ==> !(LINUX <= path[j..])) ==>
      Key(path) == path[at + |LINUX|..]
  {
    var found := Find(path, LINUX);
    forall j: nat | j <= |path|
      ensures found.None? ==> !(LINUX <= path[j..])
      ensures found.Some? && j < found.value ==> !(LINUX <= path[j..])
    {
      FindIsFirst(path, LINUX, j);
    }
  }

  /** The scope is everything below fs/. */
  lemma ScopeIs(file: string)
    ensures InScope(file) <==> |file| >= 3 && file[0] == 'f' && file[1] == 's' && file[2] == '/'
  {
    assert |file| >= 3 ==> file[..3] == [file[0], file[1], file[2]];
  }

  predicate InScope(file: string) {
    "fs/" <= file
  }

  // ---------- what a tracefile means ----------

  /** The file in scope that a line after these belongs to. */
  function Owner(lines: seq<Line>): Option<string> {
    if lines == [] then None
    else
      match lines[|lines| - 1]
      case Source(file) => if InScope(file) then Some(file) else None
      case End => None
      case _ => Owner(lines[..|lines| - 1])
  }

  /** The (file, line number) pairs that some DA line of a record for the file mentions. */
  function Entries(lines: seq<Line>): set<(string, string)> {
    if lines == [] then {}
    else
      var front := lines[..|lines| - 1];
      var owner, last := Owner(front), lines[|lines| - 1];
      Entries(front) + if owner.Some? && last.Data? then {(owner.value, last.no)} else {}
  }

  /** Those that some such line counts as executed. */
  function Hits(lines: seq<Line>): set<(string, string)> {
    if lines == [] then {}
    else
      var front := lines[..|lines| - 1];
      var owner, last := Owner(front), lines[|lines| - 1];
      Hits(front) + if owner.Some? && Positive(last) then {(owner.value, last.no)} else {}
  }

  /** A DA line in scope without a comma stops the script.  So does a count that is no number,
      except on a line that has been executed before: then the count is not looked at. */
  predicate StopsOn(line: Line, owner: Option<string>, hits: set<(string, string)>) {
    owner.Some? &&
    (line.BadData? || (line.Data? && line.count.None? && (owner.value, line.no) !in hits))
  }

  /** Reading these lines, after others with the given hits, makes the script stop. */
  predicate Stops(hits: set<(string, string)>, lines: seq<Line>) {
    lines != [] &&
    (Stops(hits, lines[..|lines| - 1])
     || StopsOn(lines[|lines| - 1], Owner(lines[..|lines| - 1]), hits + Hits(lines[..|lines| - 1])))
  }

  predicate Malformed(lines: seq<Line>) {
    Stops({}, lines)
  }

  type Table = map<string, map<string, bool>>

  function Files(entries: set<(string, string)>): set<string> {
    set e | e in entries :: e.0
  }

  function Numbers(entries: set<(string, string)>, file: string): set<string> {
    set e | e in entries && e.0 == file :: e.1
  }

  function Row(entries: set<(string, string)>, hits: set<(string, string)>, file: string): map<string, bool> {
    map no | no in Numbers(entries, file) :: (file, no) in hits
  }

  /** The dictionary for given pairs and hits. */
  function Tabulate(entries: set<(string, string)>, hits: set<(string, string)>): Table {
    map file | file in Files(entries) :: Row(entries, hits, file)
  }

  lemma PairIsListed(entries: set<(string, string)>, file: string, no: string)
    ensures (file, no) in entries ==> file in Files(entries)
    ensures (file, no) in entries <==> no in Numbers(entries, file)
  {
    if (file, no) in entries {
      assert (file, no).0 in Files(entries) && (file, no).1 in Numbers(entries, file);
    }
  }

  lemma TabulateHas(entries: set<(string, string)>, hits: set<(string, string)>, file: string, no: string)
    ensures file in Tabulate(entries, hits) && no in Tabulate(entries, hits)[file] <==> (file, no) in entries
    ensures (file, no) in entries ==> (Tabulate(entries, hits)[file][no] <==> (file, no) in hits)
  {
    PairIsListed(entries, file, no);
  }

  /** What the dictionary's entry for a DA line becomes. */
  function Counted(table: Table, file: string, no: string, hit: bool): Table {
    var fileLines := if file in table then table[file] else map[];
    table[file := fileLines[no := (no in fileLines && fileLines[no]) || hit]]
  }

  lemma RowOfOtherFile(entries: set<(string, string)>, hits: set<(string, string)>, pair: (string, string),
                       hit: bool, f: string)
    requires f != pair.0
    ensures Row(entries + {pair}, hits + (if hit then {pair} else {}), f) == Row(entries, hits, f)
  {
    assert Numbers(entries + {pair}, f) == Numbers(entries, f);
  }

  lemma RowOfFile(entries: set<(string, string)>, hits: set<(string, string)>, pair: (string, string), hit: bool)
    requires hits <= entries
    ensures var row := Row(entries, hits, pair.0);
      Row(entries + {pair}, hits + (if hit then {pair} else {}), pair.0)
      == row[pair.1 := (pair.1 in row && row[pair.1]) || hit]
  {
    PairIsListed(entries, pair.0, pair.1);
    assert Numbers(entries + {pair}, pair.0) == Numbers(entries, pair.0) + {pair.1} by {
      assert pair in entries + {pair};
    }
  }

  lemma CountingTabulates(entries: set<(string, string)>, hits: set<(string, string)>, file: string, no: string, hit: bool)
    requires hits <= entries
    ensures Counted(Tabulate(entries, hits), file, no, hit)
         == Tabulate(entries + {(file, no)}, hits + if hit then {(file, no)} else {})
  {
    var pair := (file, no);
    var more, moreHits := entries + {pair}, hits + if hit then {pair} else {};
    assert Files(more) == Files(entries) + {file} by {
      assert pair in more && pair.0 == file;
    }
    if file !in Files(entries) {
      assert Row(entries, hits, file) == map[] by {
        forall n ensures n !in Numbers(entries, file) { PairIsListed(entries, file, n); }
      }
    }
    RowOfFile(entries, hits, pair, hit);
    forall f | f in Files(entries) && f != file ensures Row(more, moreHits, f) == Row(entries, hits, f) {
      RowOfOtherFile(entries, hits, pair, hit, f);
    }
  }

  lemma {:induction false} HitsAreEntries(lines: seq<Line>)
    ensures Hits(lines) <= Entries(lines)
  {
    if lines != [] {
      HitsAreEntries(lines[..|lines| - 1]);
    }
  }

  /** Line s opens a record for the file, and line i, or the end, comes before the record's end. */
  ghost predicate Opens(lines: seq<Line>, s: nat, i: nat, file: string)
    requires i <= |lines|
  {
    && s < i && lines[s] == Source(file) && InScope(file)
    && forall k :: s < k < i ==> !lines[k].Source? && !lines[k].End?
  }

  lemma {:induction false} OwnerMeans(lines: seq<Line>, i: nat, file: string)
    requires i <= |lines|
    ensures Owner(lines[..i]) == Some(file) <==> exists s: nat :: Opens(lines, s, i, file)
  {
    if i > 0 {
      OwnerMeans(lines, i - 1, file);
      assert lines[..i][..i - 1] == lines[..i - 1] && lines[..i][i - 1] == lines[i - 1];
      if Owner(lines[..i]) == Some(file) {
        if lines[i - 1].Source? {
          assert Opens(lines, i - 1, i, file);
        } else {
          var s: nat :| Opens(lines, s, i - 1, file);
          assert Opens(lines, s, i, file);
        }
      }
      forall s: nat | Opens(lines, s, i, file) ensures Owner(lines[..i]) == Some(file) {
        if s < i - 1 {
          assert Opens(lines, s, i - 1, file);
        }
      }
    }
  }

  /** Line i is a DA line for line number `no` in a record for the file. */
  ghost predicate Mentions(lines: seq<Line>, i: nat, file: string, no: string) {
    i < |lines| && lines[i].Data? && lines[i].no == no && exists s: nat :: Opens(lines, s, i, file)
  }

  ghost predicate MentionedBefore(lines: seq<Line>, n: nat, file: string, no: string) {
    exists i: nat :: i < n && Mentions(lines, i, file, no)
  }

  ghost predicate ExecutedBefore(lines: seq<Line>, n: nat, file: string, no: string) {
    exists i: nat :: i < n && Mentions(lines, i, file, no) && Positive(lines[i])
  }

  lemma MentionedOneLater(lines: seq<Line>, n: nat, file: string, no: string)
    ensures MentionedBefore(lines, n + 1, file, no) <==>
      (MentionedBefore(lines, n, file, no) || Mentions(lines, n, file, no))
    ensures ExecutedBefore(lines, n + 1, file, no) <==>
      (ExecutedBefore(lines, n, file, no) || (Mentions(lines, n, file, no) && Positive(lines[n])))
  {
  }

  lemma MentionsIf(lines: seq<Line>, n: nat, file: string, no: string)
    requires n < |lines|
    ensures Mentions(lines, n, file, no) <==>
      lines[n].Data? && lines[n].no == no && Owner(lines[..n]) == Some(file)
  {
    OwnerMeans(lines, n, file);
  }

  lemma {:induction false} EntriesAreMentioned(lines: seq<Line>, n: nat, file: string, no: string)
    requires n <= |lines|
    ensures (file, no) in Entries(lines[..n]) <==> MentionedBefore(lines, n, file, no)
    ensures (file, no) in Hits(lines[..n]) <==> ExecutedBefore(lines, n, file, no)
  {
    if n > 0 {
      EntriesAreMentioned(lines, n - 1, file, no);
      MentionsIf(lines, n - 1, file, no);
      MentionedOneLater(lines, n - 1, file, no);
      OneMoreLine(lines, n - 1);
    }
  }

  /** Read off the whole tracefile: a pair is an entry exactly if some DA line in some record for
      the file mentions it, and a hit exactly if some such line has a positive count. */
  lemma EntriesMean(lines: seq<Line>, n: nat, file: string, no: string)
    requires n <= |lines|
    ensures (file, no) in Entries(lines[..n]) <==> exists i: nat :: i < n && Mentions(lines, i, file, no)
    ensures (file, no) in Hits(lines[..n]) <==> exists i: nat :: i < n && Mentions(lines, i, file, no) && Positive(lines[i])
  {
    EntriesAreMentioned(lines, n, file, no);
  }

  // ---------- the parser ----------

  lemma OneMoreLine(lines: seq<Line>, i: nat)
    requires i < |lines|
    ensures var before, after, line := lines[..i], lines[..i + 1], lines[i];
      var owned := Owner(before).Some? && line.Data?;
      && Owner(after) == NextOwner(Owner(before), line)
      && Entries(after) == Entries(before) + (if owned then {(Owner(before).value, line.no)} else {})
      && Hits(after) == Hits(before) + (if owned && Positive(line) then {(Owner(before).value, line.no)} else {})
      && (Malformed(after) <==> Malformed(before) || StopsOn(line, Owner(before), Hits(before)))
  {
    assert lines[..i + 1][..i] == lines[..i] && lines[..i + 1][i] == lines[i];
    assert {} + Hits(lines[..i]) == Hits(lines[..i]);
  }

  /** The parser's variables after the first i lines. */
  ghost predicate Parsed(lines: seq<Line>, i: nat, cur: Option<string>, table: Table)
    requires i <= |lines|
  {
    && !Malformed(lines[..i])
    && cur == Owner(lines[..i])
    && table == Tabulate(Entries(lines[..i]), Hits(lines[..i]))
  }

  lemma DataCounts(lines: seq<Line>, i: nat, file: string, table: Table)
    requires i < |lines| && Parsed(lines, i, Some(file), table)
    requires lines[i].Data? && (lines[i].count.None? ==> (file, lines[i].no) in Hits(lines[..i]))
    ensures Parsed(lines, i + 1, Some(file), Counted(table, file, lines[i].no, Positive(lines[i])))
  {
    OneMoreLine(lines, i);
    HitsAreEntries(lines[..i]);
    CountingTabulates(Entries(lines[..i]), Hits(lines[..i]), file, lines[i].no, Positive(lines[i]));
  }

  lemma WasHit(lines: seq<Line>, i: nat, file: string, no: string, table: Table)
    requires i < |lines| && Parsed(lines, i, Some(file), table)
    ensures (file, no) in Hits(lines[..i]) <==> file in table && no in table[file] && table[file][no]
  {
    HitsAreEntries(lines[..i]);
    TabulateHas(Entries(lines[..i]), Hits(lines[..i]), file, no);
  }

  /** What a line makes of the current file. */
  function NextOwner(cur: Option<string>, line: Line): Option<string> {
    match line
    case Source(file) => if InScope(file) then Some(file) else None
    case End => None
    case _ => cur
  }

  lemma OtherLinesKeepTheTable(lines: seq<Line>, i: nat, cur: Option<string>, table: Table)
    requires i < |lines| && Parsed(lines, i, cur, table)
    requires cur.None? || !(lines[i].Data? || lines[i].BadData?)
    ensures Parsed(lines, i + 1, NextOwner(cur, lines[i]), table)
  {
    OneMoreLine(lines, i);
    assert Entries(lines[..i + 1]) == Entries(lines[..i]);
    assert Hits(lines[..i + 1]) == Hits(lines[..i]);
  }

  lemma BadLineStops(lines: seq<Line>, i: nat, cur: Option<string>, table: Table)
    requires i < |lines| && Parsed(lines, i, cur, table) && StopsOn(lines[i], cur, Hits(lines[..i]))
    ensures Malformed(lines)
  {
    OneMoreLine(lines, i);
    MalformedStays(lines, i + 1);
  }

  /** parse_lcov() up to its summary: a line is in the dictionary exactly if some DA line of a
      record for that file mentions it, and marked executed exactly if some such count is
      positive; None if the script stops on a DA line. */
  method ParseLcov(tracefile: seq<string>) returns (r: Option<Table>)
    ensures var lines := Classified(tracefile);
      r == if Malformed(lines) then None else Some(Tabulate(Entries(lines), Hits(lines)))
  {
    ghost var lines := Classified(tracefile);
    var table: Table := map[];
    var cur: Option<string> := None;
    for i := 0 to |tracefile|
      invariant Parsed(lines, i, cur, table)
    {
      var line := Classify(tracefile[i]);
      if cur.Some? && line.Data? {
        WasHit(lines, i, cur.value, line.no, table);
        var hit := cur.value in table && line.no in table[cur.value] && table[cur.value][line.no];
        if !hit && line.count.None? {
          BadLineStops(lines, i, cur, table);
          return None;
        }
        DataCounts(lines, i, cur.value, table);
        table := Counted(table, cur.value, line.no, Positive(line));
      } else if cur.Some? && line.BadData? {
        BadLineStops(lines, i, cur, table);
        return None;
      } else {
        OtherLinesKeepTheTable(lines, i, cur, table);
        cur := NextOwner(cur, line);
      }
    }
    assert lines[..|lines|] == lines;
    r := Some(table);
  }

  lemma {:induction false} MalformedStays(lines: seq<Line>, n: nat)
    requires n <= |lines| && Malformed(lines[..n])
    ensures Malformed(lines)
    decreases |lines| - n
  {
    if n < |lines| {
      assert lines[..n + 1][..n] == lines[..n];
      MalformedStays(lines, n + 1);
    } else {
      assert lines[..n] == lines;
    }
  }

  /** The script's result: executed and instrumented lines per file. */
  function Summary(table: Table): map<string, (nat, nat)> {
    map file | file in table :: (|set no | no in table[file] && table[file][no]|, |table[file]|)
  }

  ghost predicate Mentioned(lines: seq<Line>, file: string, no: string) {
    exists i: nat :: Mentions(lines, i, file, no)
  }

  ghost predicate Executed(lines: seq<Line>, file: string, no: string) {
    exists i: nat :: Mentions(lines, i, file, no) && Positive(lines[i])
  }

  lemma NumbersMean(lines: seq<Line>, file: string, no: string)
    ensures no in Numbers(Hits(lines), file) <==> Executed(lines, file, no)
    ensures no in Numbers(Entries(lines), file) <==> Mentioned(lines, file, no)
  {
    assert lines[..|lines|] == lines;
    EntriesMean(lines, |lines|, file, no);
    PairIsListed(Entries(lines), file, no);
    PairIsListed(Hits(lines), file, no);
  }

  lemma SummaryRow(entries: set<(string, string)>, hits: set<(string, string)>, file: string)
    requires hits <= entries
    ensures file in Tabulate(entries, hits) <==> Numbers(entries, file) != {}
    ensures file in Tabulate(entries, hits) ==>
      Summary(Tabulate(entries, hits))[file] == (|Numbers(hits, file)|, |Numbers(entries, file)|)
  {
    if no :| no in Numbers(entries, file) {
      PairIsListed(entries, file, no);
    }
    if file in Files(entries) {
      var e :| e in entries && e.0 == file;
      assert e.1 in Numbers(entries, file);
      var row := Row(entries, hits, file);
      var executed := set no | no in row && row[no];
      forall no ensures no in executed <==> no in Numbers(hits, file) {
        PairIsListed(entries, file, no);
        PairIsListed(hits, file, no);
      }
      assert executed == Numbers(hits, file) && row.Keys == Numbers(entries, file);
    }
  }

  /** The script's two numbers for a file, from the whole tracefile: of the line numbers that some
      DA line in a record for the file mentions, how many some such line counts as executed, and
      how many there are.  Files of which no line is mentioned do not appear. */
  lemma SummaryCounts(lines: seq<Line>, file: string, executed: set<string>, mentioned: set<string>)
    requires forall no :: no in executed <==> Executed(lines, file, no)
    requires forall no :: no in mentioned <==> Mentioned(lines, file, no)
    ensures var summary := Summary(Tabulate(Entries(lines), Hits(lines)));
      && (file in summary <==> mentioned != {})
      && (file in summary ==> summary[file] == (|executed|, |mentioned|))
  {
    forall no
      ensures (no in executed <==> no in Numbers(Hits(lines), file)) &&
              (no in mentioned <==> no in Numbers(Entries(lines), file))
    {
      NumbersMean(lines, file, no);
    }
    assert executed == Numbers(Hits(lines), file) && mentioned == Numbers(Entries(lines), file);
    HitsAreEntries(lines);
    SummaryRow(Entries(lines), Hits(lines), file);
  }

  lemma HitAtMostTotal(table: Table, file: string)
    requires file in table
    ensures Summary(table)[file].0 <= Summary(table)[file].1
  {
    var hit := set no | no in table[file] && table[file][no];
    assert hit <= table[file].Keys;
    SubsetIsSmaller(hit, table[file].Keys);
  }

  lemma SubsetIsSmaller<T>(a: set<T>, b: set<T>)
    requires a <= b
    ensures |a| <= |b|
  {
    assert b == a + (b - a);
  }

  // ---------- tracefiles put together ----------

  /** Nothing that follows can be taken for part of the last record. */
  predicate Closed(lines: seq<Line>) {
    Owner(lines).None?
  }

  lemma {:induction false} OwnerAfterClosed(a: seq<Line>, b: seq<Line>)
    requires Closed(a)
    ensures Owner(a + b) == Owner(b)
  {
    if b == [] {
      assert a + b == a;
    } else {
      assert (a + b)[..|a + b| - 1] == a + b[..|b| - 1];
      OwnerAfterClosed(a, b[..|b| - 1]);
    }
  }

  /** Parsing a concatenation is merging the parses. */
  lemma {:induction false} ConcatenationMerges(a: seq<Line>, b: seq<Line>)
    requires Closed(a)
    ensures Entries(a + b) == Entries(a) + Entries(b) && Hits(a + b) == Hits(a) + Hits(b)
  {
    if b == [] {
      assert a + b == a;
    } else {
      var front := b[..|b| - 1];
      assert (a + b)[..|a + b| - 1] == a + front;
      ConcatenationMerges(a, front);
      OwnerAfterClosed(a, front);
    }
  }

  /** The second part is read with the hits of the first behind it. */
  lemma {:induction false} ConcatenationStops(hits: set<(string, string)>, a: seq<Line>, b: seq<Line>)
    requires Closed(a)
    ensures Stops(hits, a + b) <==> Stops(hits, a) || Stops(hits + Hits(a), b)
  {
    if b == [] {
      assert a + b == a;
    } else {
      var front := b[..|b| - 1];
      assert (a + b)[..|a + b| - 1] == a + front;
      ConcatenationStops(hits, a, front);
      ConcatenationMerges(a, front);
      OwnerAfterClosed(a, front);
      assert hits + Hits(a + front) == hits + Hits(a) + Hits(front);
    }
  }

  /** Hits only ever excuse. */
  lemma {:induction false} HitsExcuse(few: set<(string, string)>, many: set<(string, string)>, lines: seq<Line>)
    requires few <= many && Stops(many, lines)
    ensures Stops(few, lines)
  {
    var front := lines[..|lines| - 1];
    if Stops(many, front) {
      HitsExcuse(few, many, front);
    }
  }

  function Flatten<T>(records: seq<seq<T>>): seq<T> {
    if records == [] then [] else records[0] + Flatten(records[1..])
  }

  lemma {:induction false} RecordsMerge(records: seq<seq<Line>>)
    requires forall r :: r in records ==> Closed(r)
    ensures Closed(Flatten(records))
    ensures forall e :: e in Entries(Flatten(records)) <==> exists r :: r in records && e in Entries(r)
    ensures forall e :: e in Hits(Flatten(records)) <==> exists r :: r in records && e in Hits(r)
  {
    if records != [] {
      RecordsMerge(records[1..]);
      ConcatenationMerges(records[0], Flatten(records[1..]));
      OwnerAfterClosed(records[0], Flatten(records[1..]));
      assert forall r :: r in records <==> r == records[0] || r in records[1..];
    }
  }

  /** So the result depends only on which records a tracefile has, not on their order or on how
      often each occurs. */
  lemma OrderAndRepetitionDoNotMatter(a: seq<seq<Line>>, b: seq<seq<Line>>)
    requires forall r :: r in a ==> Closed(r)
    requires SameRecords(a, b)
    ensures Entries(Flatten(a)) == Entries(Flatten(b)) && Hits(Flatten(a)) == Hits(Flatten(b))
    ensures (forall r :: r in a ==> !Malformed(r)) ==> !Malformed(Flatten(a)) && !Malformed(Flatten(b))
  {
    RecordsMerge(a);
    RecordsMerge(b);
    if forall r :: r in a ==> !Malformed(r) {
      SoundRecordsAreRead({}, a);
      SoundRecordsAreRead({}, b);
    }
  }

  ghost predicate SameRecords(a: seq<seq<Line>>, b: seq<seq<Line>>) {
    forall r :: r in a <==> r in b
  }

  /** These records are read to the end however they are ordered and repeated. */
  ghost predicate ReadInEveryOrder(a: seq<seq<Line>>) {
    forall b :: SameRecords(a, b) ==> !Malformed(Flatten(b))
  }

  lemma {:induction false} SoundRecordsAreRead(hits: set<(string, string)>, records: seq<seq<Line>>)
    requires forall r :: r in records ==> Closed(r) && !Malformed(r)
    ensures !Stops(hits, Flatten(records))
    decreases records
  {
    if records != [] {
      SoundRecordsAreRead(hits + Hits(records[0]), records[1..]);
      ConcatenationStops(hits, records[0], Flatten(records[1..]));
      if Stops(hits, records[0]) {
        HitsExcuse({}, hits, records[0]);
      }
    }
  }

  /** Whether there is a result at all does not depend on the order and the repetition of the
      records exactly if every record can be read on its own. */
  lemma ReadInEveryOrderIff(a: seq<seq<Line>>)
    requires forall r :: r in a ==> Closed(r)
    ensures ReadInEveryOrder(a) <==> forall r :: r in a ==> !Malformed(r)
  {
    if ReadInEveryOrder(a) {
      forall r | r in a ensures !Malformed(r) {
        var b := [r] + a;
        assert SameRecords(a, b) && b[0] == r && b[1..] == a;
        ConcatenationStops({}, r, Flatten(a));
      }
    }
    if forall r :: r in a ==> !Malformed(r) {
      forall b | SameRecords(a, b) ensures !Malformed(Flatten(b)) {
        SoundRecordsAreRead({}, b);
      }
    }
  }

  /** The text of a record with one DA line. */
  function RecordText(file: string, no: string, count: string): seq<string> {
    ["SF:" + file, "DA:" + (no + ("," + count)), END]
  }

  lemma EndIsEnd()
    ensures Classify(END) == End
  {
    assert END[0] == 'e';
  }

  lemma SourceLine(file: string)
    requires Find(file, LINUX).None?
    ensures Classify("SF:" + file) == Source(file)
  {
    assert ("SF:" + file)[3..] == file;
  }

  lemma {:induction false} FirstComma(no: string, rest: string)
    requires Find(no, ",").None? && |rest| > 0 && rest[0] == ','
    ensures Find(no + rest, ",") == Some(|no|)
  {
    var s := no + rest;
    if no == "" {
      assert s == rest && rest[..1] == ",";
    } else {
      FirstComma(no[1..], rest);
      assert s[1..] == no[1..] + rest && s[0] == no[0] && no[..1] == [no[0]];
    }
  }

  /** The count goes up to the next comma or to the end. */
  lemma DataFields(no: string, count: string, more: string)
    requires Find(no, ",").None? && Find(count, ",").None? && (more == "" || more[0] == ',')
    ensures ParseData(no + ("," + (count + more))) == Data(no, IntOf(count))
  {
    CountUpToComma(count, more);
    SplitAtComma(no, count + more);
  }

  lemma SplitAtComma(no: string, rest: string)
    requires Find(no, ",").None?
    ensures ParseData(no + ("," + rest)) == Data(no, IntOf(UpToComma(rest)))
  {
    FirstComma(no, "," + rest);
    Around(no, rest);
  }

  lemma Around(no: string, rest: string)
    ensures (no + ("," + rest))[..|no|] == no && (no + ("," + rest))[|no| + 1..] == rest
  {
  }

  lemma CountUpToComma(count: string, more: string)
    requires Find(count, ",").None? && (more == "" || more[0] == ',')
    ensures UpToComma(count + more) == count
  {
    if more == "" {
      assert count + more == count;
    } else {
      FirstComma(count, more);
      assert (count + more)[..|count|] == count;
    }
  }

  /** A DA line of any length says what its two fields say. */
  lemma DataLine(no: string, count: string, more: string)
    requires Find(no, ",").None? && Find(count, ",").None? && (more == "" || more[0] == ',')
    ensures Classify("DA:" + (no + ("," + (count + more)))) == Data(no, IntOf(count))
  {
    var s := no + ("," + (count + more));
    DataFields(no, count, more);
    assert ("DA:" + s)[3..] == s && ("DA:" + s)[0] == 'D' && ("DA:" + s)[..3] == "DA:";
  }

  lemma {:induction false} NoCommaIn(s: string)
    requires forall k :: 0 <= k < |s| ==> s[k] != ','
    ensures Find(s, ",").None?
  {
    if s != "" {
      NoCommaIn(s[1..]);
      assert s[0] != ","[0];
    }
  }

  /** Only a number above 0 counts as an execution: not 0, not a negative one, and not what is no number. */
  lemma PositiveIff(no: string, sign: string, digits: string)
    requires Decimal.IsSign(sign) && Decimal.IsNumeral(digits)
    ensures Positive(Data(no, IntOf(sign + digits))) <==> sign != "-" && Decimal.PlaceValue(digits) > 0
    ensures forall bad :: !IsInteger(bad) ==> !Positive(Data(no, IntOf(bad)))
  {
    IntOfText(sign, digits);
    forall bad | !IsInteger(bad) ensures !Positive(Data(no, IntOf(bad))) {
      IntOfReadsIff(bad);
    }
  }

  /** In particular one with a printed count, such as lcov writes, has that count; and one whose
      count is no number has none. */
  lemma DataLineOfNumber(no: string, n: nat)
    requires Find(no, ",").None?
    ensures var line := Classify("DA:" + (no + ("," + Decimal.Print(n))));
      line == Data(no, Some(n)) && (Positive(line) <==> n > 0)
  {
    NoCommaIn(Decimal.Print(n));
    DataLine(no, Decimal.Print(n), "");
    IntOfPrinted(n);
    assert Decimal.Print(n) + "" == Decimal.Print(n);
  }

  lemma WhatARecordHolds(file: string, no: string, count: string)
    requires Find(file, LINUX).None? && Find(no, ",").None? && Find(count, ",").None?
    ensures Classified(RecordText(file, no, count)) == [Source(file), Data(no, IntOf(count)), End]
  {
    SourceLine(file);
    DataLine(no, count, "");
    assert count + "" == count;
    EndIsEnd();
  }

  /** A tracefile with two records for a file: in one the line has been executed, in the other its
      count is no number.  In this order it is read, in the other the script stops: the second
      count is not looked at once the line is known as executed. */
  lemma OrderMatters(file: string, no: string, count: string, bad: string)
    requires InScope(file) && Find(file, LINUX).None? && Find(no, ",").None?
    requires Find(count, ",").None? && IntOf(count).Some? && IntOf(count).value > 0
    requires Find(bad, ",").None? && !IsInteger(bad)
    ensures var executed, uncounted := RecordText(file, no, count), RecordText(file, no, bad);
      !Malformed(Classified(executed + uncounted)) && Malformed(Classified(uncounted + executed))
  {
    var executed, uncounted := RecordText(file, no, count), RecordText(file, no, bad);
    IntOfReadsIff(bad);
    WhatARecordHolds(file, no, count);
    WhatARecordHolds(file, no, bad);
    var a, b := Classified(executed), Classified(uncounted);
    ClassifiedJoins(executed, uncounted);
    ClassifiedJoins(uncounted, executed);
    OneDataRecord(file, Data(no, IntOf(count)));
    OneDataRecord(file, Data(no, IntOf(bad)));
    ConcatenationStops({}, a, b);
    ConcatenationStops({}, b, a);
  }

  const EXECUTED: seq<string> := ["SF:fs/a.c", "DA:1,1", "end_of_record"]
  const UNCOUNTED: seq<string> := ["SF:fs/a.c", "DA:1,x", "end_of_record"]

  lemma TheTexts()
    ensures RecordText("fs/a.c", ['1'], ['1']) == EXECUTED && RecordText("fs/a.c", ['1'], ['x']) == UNCOUNTED
  {
    assert "SF:" + "fs/a.c" == "SF:fs/a.c";
    assert "DA:" + (['1'] + ("," + ['1'])) == "DA:1,1" && "DA:" + (['1'] + ("," + ['x'])) == "DA:1,x";
  }

  lemma IntOfOneCharacter(d: char)
    ensures IntOf([d]) == if '0' <= d <= '9' then Some(d as int - '0' as int) else None
  {
    assert [d][..0] == [] && [d][1..] == [];
  }

  /** For instance. */
  lemma OrderMattersOnce()
    ensures !Malformed(Classified(EXECUTED + UNCOUNTED)) && Malformed(Classified(UNCOUNTED + EXECUTED))
  {
    TooShortForLinux("fs/a.c");
    NoCommaIn(['1']);
    NoCommaIn(['x']);
    IntOfOneCharacter('1');
    IntOfOneCharacter('x');
    IntOfReadsIff(['x']);
    OrderMatters("fs/a.c", ['1'], ['1'], ['x']);
    TheTexts();
  }

  lemma {:induction false} TooShortForLinux(s: string)
    requires |s| < |LINUX|
    ensures Find(s, LINUX).None?
  {
    if s != "" {
      TooShortForLinux(s[1..]);
    }
  }

  lemma OneDataRecord(file: string, data: Line)
    requires InScope(file) && data.Data?
    ensures var record := [Source(file), data, End];
      && Closed(record)
      && Hits(record) == (if Positive(data) then {(file, data.no)} else {})
      && forall h :: Stops(h, record) <==> data.count.None? && (file, data.no) !in h
  {
    var open := [Source(file)];
    LastOf([], Source(file));
    assert [] + [Source(file)] == open;
    LastOf(open, data);
    LastOf(open + [data], End);
    assert [Source(file), data, End] == open + [data] + [End];
  }

  lemma LastOf(front: seq<Line>, last: Line)
    ensures var lines := front + [last];
      && Owner(lines) == NextOwner(Owner(front), last)
      && Hits(lines) == Hits(front) + (if Owner(front).Some? && Positive(last) then {(Owner(front).value, last.no)} else {})
      && forall h :: Stops(h, lines) <==> Stops(h, front) || StopsOn(last, Owner(front), h + Hits(front))
  {
    assert (front + [last])[..|front|] == front;
  }
}
