// Reading the kernel measurement log: splitting, parsing, summarising
// (agent/ima_reader.py, first half).  A log is the list of lines that
// splitlines() yields; fetching it with `sudo cat` is not modelled.

module ImaLog {
  import opened Wrappers
  import opened Text

  datatype Entry = Entry(pcr: string, templateHash: string, templateName: string, fileHash: string, filename: string)

  type Log = seq<string>

  // ---- one line ---------------------------------------------------------------

  function IndexOf(s: string, c: char): (i: nat)
    ensures i <= |s| && (i < |s| ==> s[i] == c)
    ensures forall k | 0 <= k < i :: s[k] != c
  {
    if s == "" || s[0] == c then 0 else 1 + IndexOf(s[1..], c)
  }

  predicate Absent(s: string, c: char) { IndexOf(s, c) == |s| }

  // s.split(c, n): at most n cuts, so the last part keeps any further separators.
  function Split(s: string, c: char, n: nat): (parts: seq<string>)
    ensures 1 <= |parts| <= n + 1
    decreases n
  {
    var i := IndexOf(s, c);
    if n == 0 || i == |s| then [s] else [s[..i]] + Split(s[i + 1..], c, n - 1)
  }

  // c.join(parts)
  function Join(parts: seq<string>, c: char): string
    requires parts != []
  {
    if |parts| == 1 then parts[0] else parts[0] + [c] + Join(parts[1..], c)
  }

  lemma JoinCons(a: string, rest: seq<string>, c: char)
    requires rest != []
    ensures Join([a] + rest, c) == a + [c] + Join(rest, c)
  {
    assert ([a] + rest)[1..] == rest;
  }

  lemma {:induction false} SplitThenJoin(s: string, c: char, n: nat)
    ensures Join(Split(s, c, n), c) == s
    decreases n
  {
    var i := IndexOf(s, c);
    if n > 0 && i < |s| {
      assert s == s[..i] + [c] + s[i + 1..];
      hide IndexOf, Join;
      var a, b := s[..i], s[i + 1..];
      SplitThenJoin(b, c, n - 1);
      JoinCons(a, Split(b, c, n - 1), c);
    }
  }

  predicate AllButLastAbsent(parts: seq<string>, c: char)
  {
    forall k | 0 <= k < |parts| - 1 :: Absent(parts[k], c)
  }

  lemma {:induction false} SplitAbsent(s: string, c: char, n: nat)
    ensures AllButLastAbsent(Split(s, c, n), c)
    decreases n
  {
    var i := IndexOf(s, c);
    if n > 0 && i < |s| {
      CutAt(s, c);
      hide Absent, IndexOf;
      SplitAbsent(s[i + 1..], c, n - 1);
    }
  }

  lemma CutAt(s: string, c: char)
    requires !Absent(s, c)
    ensures var i := IndexOf(s, c); s == s[..i] + [c] + s[i + 1..] && Absent(s[..i], c)
  {}

  lemma IndexOfJoined(a: string, b: string, c: char)
    requires Absent(a, c)
    ensures IndexOf(a + [c] + b, c) == |a|
  {
    var s := a + [c] + b;
    assert s[|a|] == c;
    forall k | 0 <= k < |a| ensures s[k] != c {
      assert s[k] == a[k];
    }
  }

  lemma SplitAfterJoined(a: string, b: string, c: char, n: nat)
    requires Absent(a, c) && n > 0
    ensures Split(a + [c] + b, c, n) == [a] + Split(b, c, n - 1)
  {
    IndexOfJoined(a, b, c);
    var s := a + [c] + b;
    assert s[..|a|] == a && s[|a| + 1..] == b;
  }

  lemma {:induction false} JoinThenSplit(parts: seq<string>, c: char)
    requires parts != []
    requires AllButLastAbsent(parts, c)
    ensures Split(Join(parts, c), c, |parts| - 1) == parts
  {
    hide Absent;
    if |parts| > 1 {
      SplitAfterJoined(parts[0], Join(parts[1..], c), c, |parts| - 1);
      JoinThenSplit(parts[1..], c);
    }
  }

  lemma {:induction false} JoinEnds(parts: seq<string>, c: char)
    requires |parts| > 1
    ensures var s := Join(parts, c); var last := parts[|parts| - 1];
      && s != ""
      && s[0] == (if parts[0] == "" then c else parts[0][0])
      && s[|s| - 1] == (if last == "" then c else last[|last| - 1])
  {
    if |parts| > 2 {
      JoinEnds(parts[1..], c);
    }
  }

  function Fields(e: Entry): seq<string> { [e.pcr, e.templateHash, e.templateName, e.fileHash, e.filename] }

  function PrintEntry(e: Entry): string { Join(Fields(e), ' ') }

  function ParseStripped(s: string): Option<Entry>
  {
    var parts := Split(s, ' ', 4);
    if |parts| < 5 then None else Some(Entry(parts[0], parts[1], parts[2], parts[3], parts[4]))
  }

  function ParseLine(line: string): Option<Entry> { ParseStripped(Strip(line)) }

  predicate NoSpaceBeforeFilename(e: Entry) { AllButLastAbsent(Fields(e), ' ') }

  lemma StrippedFields(s: string, e: Entry)
    requires ParseStripped(s) == Some(e)
    ensures PrintEntry(e) == s && NoSpaceBeforeFilename(e)
  {
    hide Split, Absent, Join;
    SplitThenJoin(s, ' ', 4);
    SplitAbsent(s, ' ', 4);
    assert Fields(e) == Split(s, ' ', 4);
  }

  // Whatever parses, its five fields joined by single spaces are the stripped line.
  lemma ParseGivesFields(line: string, e: Entry)
    requires ParseLine(line) == Some(e)
    ensures PrintEntry(e) == Strip(line) && NoSpaceBeforeFilename(e)
  {
    StrippedFields(Strip(line), e);
  }

  lemma StripFixpoint(s: string)
    ensures Strip(s) == s <==> s == "" || (!IsSpace(s[0]) && !IsSpace(s[|s| - 1]))
  {
    if Strip(s) == s && s != "" {
      assert LStrip(s) == s;
    }
  }

  // Which entries survive being printed and parsed again: exactly these.
  predicate Printable(e: Entry)
  {
    && NoSpaceBeforeFilename(e)
    && e.pcr != "" && !IsSpace(e.pcr[0])
    && e.filename != "" && !IsSpace(e.filename[|e.filename| - 1])
  }

  lemma PrintedEnds(e: Entry)
    ensures var s := PrintEntry(e);
      Strip(s) == s <==> e.pcr != "" && !IsSpace(e.pcr[0]) && e.filename != "" && !IsSpace(e.filename[|e.filename| - 1])
  {
    assert IsSpace(' ');
    JoinEnds(Fields(e), ' ');
    StripFixpoint(PrintEntry(e));
  }

  lemma PrintedFields(e: Entry)
    requires NoSpaceBeforeFilename(e)
    ensures ParseStripped(PrintEntry(e)) == Some(e)
  {
    JoinThenSplit(Fields(e), ' ');
  }

  lemma PrintParse(e: Entry)
    ensures ParseLine(PrintEntry(e)) == Some(e) <==> Printable(e)
  {
    hide ParseStripped, PrintEntry, Strip;
    PrintedEnds(e);
    if Printable(e) {
      PrintedFields(e);
    }
    if ParseLine(PrintEntry(e)) == Some(e) {
      ParseGivesFields(PrintEntry(e), e);
    }
  }

  // The printed line, and when a line parses at all.
  lemma PrintedText(e: Entry)
    ensures PrintEntry(e) ==
      e.pcr + " " + (e.templateHash + " " + (e.templateName + " " + (e.fileHash + " " + e.filename)))
  {
    var r4 := [e.filename];
    var r3 := [e.fileHash] + r4;
    var r2 := [e.templateName] + r3;
    var r1 := [e.templateHash] + r2;
    JoinCons(e.fileHash, r4, ' ');
    JoinCons(e.templateName, r3, ' ');
    JoinCons(e.templateHash, r2, ' ');
    JoinCons(e.pcr, r1, ' ');
    assert Fields(e) == [e.pcr] + r1;
  }

  function Count(s: string, c: char): nat
  {
    if s == "" then 0 else (if s[0] == c then 1 else 0) + Count(s[1..], c)
  }

  lemma {:induction false} CountUpTo(s: string, c: char, i: nat)
    requires i <= |s| && forall k | 0 <= k < i :: s[k] != c
    ensures Count(s, c) == Count(s[i..], c)
  {
    if i > 0 {
      CountUpTo(s[1..], c, i - 1);
      assert s[1..][i - 1..] == s[i..];
    }
  }

  lemma {:induction false} SplitCounts(s: string, c: char, n: nat)
    ensures |Split(s, c, n)| == if Count(s, c) < n then Count(s, c) + 1 else n + 1
    decreases n
  {
    var i := IndexOf(s, c);
    CountUpTo(s, c, i);
    if i == |s| {
      assert s[i..] == "";
    } else if n > 0 {
      assert s[i..][1..] == s[i + 1..] && s[i..][0] == c;
      SplitCounts(s[i + 1..], c, n - 1);
    }
  }

  lemma ParsesIff(line: string)
    ensures ParseLine(line).Some? <==> Count(Strip(line), ' ') >= 4
  {
    hide Strip, Split;
    SplitCounts(Strip(line), ' ', 4);
  }

  // ---- whole logs -------------------------------------------------------------

  function Keep<A, B>(f: A -> Option<B>, xs: seq<A>): (ys: seq<B>)
    ensures |ys| <= |xs|
  {
    if xs == [] then [] else Kept(f(xs[0])) + Keep(f, xs[1..])
  }

  function Kept<B>(o: Option<B>): (ys: seq<B>)
    ensures |ys| <= 1
  {
    match o case None => [] case Some(y) => [y]
  }

  function NonBlankLine(line: string): Option<string> { if Strip(line) == "" then None else Some(line) }

  function NonBlank(lines: Log): Log { Keep(NonBlankLine, lines) }

  function ParseAll(lines: Log): seq<Entry> { Keep(ParseLine, lines) }

  // all_lines[start:], which is empty when start is past the end.
  function From(lines: Log, start: nat): Log { if start <= |lines| then lines[start..] else [] }

  function EntriesFrom(lines: Log, start: nat): seq<Entry> { ParseAll(From(NonBlank(lines), start)) }

  function Entries(lines: Log): seq<Entry> { ParseAll(NonBlank(lines)) }

  lemma KeepCons<A, B>(f: A -> Option<B>, x: A, xs: seq<A>)
    ensures Keep(f, [x] + xs) == Kept(f(x)) + Keep(f, xs)
  {
    assert ([x] + xs)[1..] == xs;
  }

  lemma {:induction false} KeepAppend<A, B>(f: A -> Option<B>, a: seq<A>, b: seq<A>)
    ensures Keep(f, a + b) == Keep(f, a) + Keep(f, b)
  {
    if a == [] {
      assert a + b == b;
    } else {
      hide Keep;
      var x, rest := a[0], a[1..];
      assert a == [x] + rest && a + b == [x] + (rest + b);
      KeepCons(f, x, rest);
      KeepCons(f, x, rest + b);
      KeepAppend(f, rest, b);
    }
  }

  lemma KeepNext<A, B>(f: A -> Option<B>, xs: seq<A>, i: nat)
    requires i < |xs|
    ensures Keep(f, xs[..i + 1]) == Keep(f, xs[..i]) + Kept(f(xs[i]))
  {
    KeepAppend(f, xs[..i], [xs[i]]);
    assert xs[..i + 1] == xs[..i] + [xs[i]];
    assert [xs[i]][1..] == [];
  }

  // Parsing distributes over concatenation of line lists.
  lemma EntriesAppend(a: Log, b: Log)
    ensures Entries(a + b) == Entries(a) + Entries(b)
  {
    KeepAppend(NonBlankLine, a, b);
    KeepAppend(ParseLine, NonBlank(a), NonBlank(b));
  }

  // With that, what a log holds is settled by single lines: a blank or unparseable line
  // holds nothing, any other its one entry.
  lemma EntriesOfOne(line: string)
    ensures Entries([line]) == match ParseLine(line) case None => [] case Some(e) => [e]
    ensures Strip(line) == "" ==> ParseLine(line).None?
  {
    ParsesIff(line);
    hide ParseLine, Strip;
    assert [line] == [line] + [];
    KeepCons(NonBlankLine, line, []);
    KeepCons(ParseLine, line, []);
    if Strip(line) == "" {
      assert NonBlank([line]) == [];
    } else {
      assert NonBlank([line]) == [line];
    }
  }

  // Raw lines are skipped, all of them past the end.
  lemma EntriesFromEnds(lines: Log, start: nat)
    ensures EntriesFrom(lines, 0) == Entries(lines)
    ensures start >= |NonBlank(lines)| ==> EntriesFrom(lines, start) == []
    ensures start < |NonBlank(lines)| ==>
      EntriesFrom(lines, start) == Kept(ParseLine(NonBlank(lines)[start])) + EntriesFrom(lines, start + 1)
  {
    hide ParseLine, NonBlank;
    var raw := NonBlank(lines);
    assert raw[0..] == raw;
    if start < |raw| {
      assert raw[start..] == [raw[start]] + raw[start + 1..];
      KeepCons(ParseLine, raw[start], raw[start + 1..]);
    }
  }

  predicate AllKept<A(!new), B(!new)>(f: A -> Option<B>, xs: seq<A>) { forall i | 0 <= i < |xs| :: f(xs[i]).Some? }

  lemma {:induction false} KeepFull<A(!new), B(!new)>(f: A -> Option<B>, xs: seq<A>)
    ensures |Keep(f, xs)| == |xs| <==> AllKept(f, xs)
  {
    if xs != [] {
      KeepFull(f, xs[1..]);
      assert AllKept(f, xs) <==> f(xs[0]).Some? && AllKept(f, xs[1..]) by {
        assert forall i | 1 <= i < |xs| :: xs[i] == xs[1..][i - 1];
      }
    }
  }

  predicate AllParse(lines: Log) { AllKept(ParseLine, lines) }

  // ---- the three readers --------------------------------------------------------

  method ReadImaLog(lines: Log, startLine: nat) returns (entries: seq<Entry>)
    ensures entries == EntriesFrom(lines, startLine)
  {
    entries := [];
    var rest := From(NonBlank(lines), startLine);
    for i := 0 to |rest|
      invariant entries == ParseAll(rest[..i])
    {
      KeepNext(ParseLine, rest, i);
      match ParseLine(rest[i]) {
        case None =>
        case Some(e) => entries := entries + [e];
      }
    }
    assert rest[..|rest|] == rest;
  }

  method ReadImaLogLineCount(lines: Log) returns (count: nat)
    ensures count == |Entries(lines)|
  {
    hide ParseLine;
    count := 0;
    var rest := NonBlank(lines);
    for i := 0 to |rest|
      invariant count == |ParseAll(rest[..i])|
    {
      KeepNext(ParseLine, rest, i);
      if ParseLine(rest[i]).Some? {
        count := count + 1;
      }
    }
    assert rest[..|rest|] == rest;
  }

  datatype Summary = Summary(totalEntries: nat, uniqueFiles: nat, hasBootAggregate: bool, modulesMeasured: nat)

  predicate IsModule(f: string)
  {
    var n := |f|;
    (n >= 3 && f[n - 3..] == ".ko") || (n >= 7 && f[n - 7..] == ".ko.zst")
  }

  function CountModules(entries: seq<Entry>): nat
  {
    if entries == [] then 0 else (if IsModule(entries[0].filename) then 1 else 0) + CountModules(entries[1..])
  }

  function Summarise(lines: Log): Summary
  {
    var entries := Entries(lines);
    Summary(|entries|,
            |set i | 0 <= i < |entries| :: entries[i].filename|,
            exists i :: 0 <= i < |entries| && entries[i].filename == "boot_aggregate",
            CountModules(entries))
  }

  function FilesOf(entries: seq<Entry>): set<string> { set i | 0 <= i < |entries| :: entries[i].filename }

  lemma {:induction false} ModulesAppend(a: seq<Entry>, b: seq<Entry>)
    ensures CountModules(a + b) == CountModules(a) + CountModules(b)
  {
    hide IsModule;
    if a == [] {
      assert a + b == b;
    } else {
      ModulesAppend(a[1..], b);
      assert (a + b)[1..] == a[1..] + b;
    }
  }

  lemma ModulesOfOne(e: Entry)
    ensures CountModules([e]) == if IsModule(e.filename) then 1 else 0
  {
    assert [e][1..] == [];
  }

  // What the summary says of the entries, written out.
  lemma SummaryMeans(lines: Log)
    ensures var entries, s := Entries(lines), Summarise(lines);
      && s.totalEntries == |entries|
      && s.uniqueFiles == |FilesOf(entries)|
      && (forall f :: f in FilesOf(entries) <==> exists e :: e in entries && e.filename == f)
      && (s.hasBootAggregate <==> exists e :: e in entries && e.filename == "boot_aggregate")
      && s.modulesMeasured == CountModules(entries)
  {
    hide Entries;
    var entries := Entries(lines);
    forall e | e in entries ensures e.filename in FilesOf(entries) {
      var i :| 0 <= i < |entries| && entries[i] == e;
      assert entries[i].filename == e.filename;
    }
    if Summarise(lines).hasBootAggregate {
      var i :| 0 <= i < |entries| && entries[i].filename == "boot_aggregate";
      assert entries[i] in entries;
    }
  }

  // A module's name ends in one of two ways.
  lemma ModuleNames(stem: string, f: string)
    ensures IsModule(stem + ".ko") && IsModule(stem + ".ko.zst")
    ensures IsModule(f) ==> exists front :: f == front + ".ko" || f == front + ".ko.zst"
  {
    if IsModule(f) {
      if |f| >= 3 && f[|f| - 3..] == ".ko" {
        assert f == f[..|f| - 3] + ".ko";
      } else {
        assert f == f[..|f| - 7] + ".ko.zst";
      }
    }
    var a, b := stem + ".ko", stem + ".ko.zst";
    assert a[|a| - 3..] == ".ko" && b[|b| - 7..] == ".ko.zst";
  }
}
