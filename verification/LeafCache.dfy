// The shim's incremental leaf cache (phase3/shim.py): two module globals that
// must always describe the log as a full rebuild would.

module Reports {
  import opened Wrappers
  import opened ImaLog

  type Pcrs = seq<(string, string)>

  // The fields of an attestation report that anything ever reads.
  datatype Report = Report(nonce: string, machineId: Option<string>, pcrs: Pcrs, summary: Summary,
                           merkleRoot: string, merkleDepth: nat, leafCount: nat,
                           quoteAvailable: bool, quoteMsg: Option<string>, quoteSig: Option<string>)
}

module LeafCache {
  import opened Wrappers
  import opened Text
  import opened Merkle
  import opened ImaLog
  import opened ImaTree
  import opened Reports
  import opened ImaBinding

  datatype Cache = Cache(leaves: seq<Digest>, offset: nat)

  // What one collection meets outside the process.  A read that raises is None;
  // the three reads of the log may see three different logs.
  datatype World = World(pcrs: Option<Pcrs>, log1: Option<Log>, log2: Option<Log>, log3: Option<Log>,
                         quote: Option<(string, string)>, machineId: string)

  // The cache as the third read finds it: emptied when the log looks shorter than the offset.
  function Flushed(c: Cache, log2: Log): Cache { if |Entries(log2)| < c.offset then Cache([], 0) else c }

  function Extended(h: Hash, c: Cache, log3: Log): Cache
  {
    var leaves := c.leaves + Leaves(h, EntriesFrom(log3, c.offset), c.offset);
    Cache(leaves, |leaves|)
  }

  // The cache is refreshed exactly when the reads before the quote all work.
  predicate Refreshes(w: World) { w.pcrs.Some? && w.log1.Some? && w.log2.Some? && w.log3.Some? }

  function CacheAfter(h: Hash, c: Cache, w: World): Cache
  {
    if w.pcrs.None? || w.log1.None? || w.log2.None? then c
    else if w.log3.None? then Flushed(c, w.log2.value)
    else Extended(h, Flushed(c, w.log2.value), w.log3.value)
  }

  function ReportAfter(h: Hash, c: Cache, w: World, nonce: string): Option<Report>
  {
    if !Refreshes(w) || w.quote.None? then None
    else
      var tree := TreeOf(h, CacheAfter(h, c, w).leaves);
      Some(Report(nonce, Some(w.machineId), w.pcrs.value, Summarise(w.log1.value), tree.root, tree.depth,
                  tree.leafCount, true, Some(w.quote.value.0), Some(w.quote.value.1)))
  }

  // A report needs every read and the quote, and holds what they returned.
  lemma ReportIff(h: Hash, c: Cache, w: World, nonce: string)
    ensures var r := ReportAfter(h, c, w, nonce);
      && (r.Some? <==> w.pcrs.Some? && w.log1.Some? && w.log2.Some? && w.log3.Some? && w.quote.Some?)
      && (r.Some? ==>
            && r.value.nonce == nonce && r.value.machineId == Some(w.machineId) && r.value.pcrs == w.pcrs.value
            && r.value.summary == Summarise(w.log1.value) && r.value.quoteAvailable
            && r.value.quoteMsg == Some(w.quote.value.0) && r.value.quoteSig == Some(w.quote.value.1))
  {
    hide Summarise, TreeOf, CacheAfter;
  }

  class Shim {
    const h: Hash
    var leafCache: seq<Digest>
    var lineOffset: nat

    function Globals(): Cache
      reads this
    {
      Cache(leafCache, lineOffset)
    }

    constructor (h: Hash)
      ensures this.h == h && Globals() == Cache([], 0)
    {
      this.h := h;
      leafCache, lineOffset := [], 0;
    }

    method CollectReportIncremental(nonce: string, w: World) returns (report: Option<Report>)
      modifies this
      ensures Globals() == CacheAfter(h, old(Globals()), w)
      ensures report == ReportAfter(h, old(Globals()), w, nonce)
    {
      hide Leaves, Entries, EntriesFrom, Summarise, Root, Depth, Hex, HexAll;
      if w.pcrs.None? || w.log1.None? {
        return None;
      }
      var imaSummary := Summarise(w.log1.value);
      if w.log2.None? {
        return None;
      }
      var totalLineCount := ReadImaLogLineCount(w.log2.value);
      if totalLineCount < lineOffset {
        leafCache, lineOffset := [], 0;
      }
      if w.log3.None? {
        return None;
      }
      var newEntries := ReadImaLog(w.log3.value, lineOffset);
      var updatedCache, imaTree := BuildIncrementalMerkleTree(h, leafCache, newEntries, lineOffset);
      leafCache, lineOffset := updatedCache, imaTree.leafCount;
      if w.quote.None? {
        return None;
      }
      report := Some(Report(nonce, Some(w.machineId), w.pcrs.value, imaSummary, imaTree.root, imaTree.depth,
                            imaTree.leafCount, true, Some(w.quote.value.0), Some(w.quote.value.1)));
    }
  }

  // ---- when a refresh is right ------------------------------------------------------

  predicate Correct(h: Hash, c: Cache, log: Log)
  {
    c == Cache(Leaves(h, Entries(log), 0), |Entries(log)|)
  }

  // The offset counts parsed entries but cuts raw lines.  That is sound exactly when
  // the lines it skips all parse and the leaves it keeps are still the log's.
  predicate Aligned(h: Hash, c: Cache, log: Log)
  {
    && c.offset <= |NonBlank(log)|
    && AllParse(NonBlank(log)[..c.offset])
    && c.leaves <= Leaves(h, Entries(log), 0)
  }

  lemma CutEntries(log: Log, k: nat)
    requires k <= |NonBlank(log)|
    ensures Entries(log) == ParseAll(NonBlank(log)[..k]) + EntriesFrom(log, k)
    ensures |ParseAll(NonBlank(log)[..k])| <= k
    ensures |ParseAll(NonBlank(log)[..k])| == k <==> AllParse(NonBlank(log)[..k])
  {
    var raw := NonBlank(log);
    hide Keep, ParseLine;
    KeepAppend(ParseLine, raw[..k], raw[k..]);
    assert raw == raw[..k] + raw[k..];
    KeepFull(ParseLine, raw[..k]);
  }

  lemma ExtendedCorrectIff(h: Hash, c: Cache, log: Log)
    requires |c.leaves| == c.offset
    ensures Correct(h, Extended(h, c, log), log) <==> Aligned(h, c, log)
  {
    hide ParseAll, LeafHash, NonBlank, Entries, AllParse;
    var entries, k := Entries(log), c.offset;
    var out := Extended(h, c, log).leaves;
    if k > |NonBlank(log)| {
      assert |entries| <= |NonBlank(log)| by { CutEntries(log, |NonBlank(log)|); AllEntries(log); }
    } else {
      CutEntries(log, k);
      var head := ParseAll(NonBlank(log)[..k]);
      LeavesAppend(h, head, EntriesFrom(log, k), 0);
      if |head| == k {
        PrefixCancels(c.leaves, Leaves(h, head, 0), Leaves(h, EntriesFrom(log, k), k));
      }
    }
  }

  lemma AllEntries(log: Log)
    ensures |Entries(log)| <= |NonBlank(log)|
  {}

  lemma PrefixCancels(a: seq<Digest>, b: seq<Digest>, t: seq<Digest>)
    requires |a| == |b|
    ensures a + t == b + t <==> a <= b + t
  {
    if a + t == b + t {
      assert a == (a + t)[..|a|];
    }
    if a <= b + t {
      assert a == (b + t)[..|a|] == b;
    }
  }

  // For every state and every three logs: the refreshed cache is a full rebuild of the
  // last log read if and only if the log looked reset or the old cache was aligned.
  lemma RefreshCorrectIff(h: Hash, c: Cache, w: World)
    requires |c.leaves| == c.offset && Refreshes(w)
    ensures Correct(h, CacheAfter(h, c, w), w.log3.value)
      <==> |Entries(w.log2.value)| < c.offset || Aligned(h, c, w.log3.value)
  {
    hide Correct, Extended, Entries;
    ExtendedCorrectIff(h, Flushed(c, w.log2.value), w.log3.value);
  }

  // For a log that only grew, that is just that the skipped lines parse.
  lemma GrowthCorrectIff(h: Hash, c: Cache, log: Log, more: Log)
    requires Correct(h, c, log)
    ensures c.offset <= |NonBlank(log + more)|
    ensures Correct(h, Extended(h, c, log + more), log + more) <==> AllParse(NonBlank(log + more)[..c.offset])
  {
    hide Entries, Leaves, NonBlank, Extended, AllParse;
    GrowKeepsLeaves(h, log, more);
    EntriesAppend(log, more);
    AllEntries(log + more);
    ExtendedCorrectIff(h, c, log + more);
  }

  lemma GrowKeepsLeaves(h: Hash, log: Log, lines: Log)
    ensures Leaves(h, Entries(log), 0) <= Leaves(h, Entries(log + lines), 0)
  {
    hide Entries, LeafHash;
    EntriesAppend(log, lines);
    LeavesAppend(h, Entries(log), Entries(lines), 0);
  }

  // What the kept leaves hash is what the new log starts with.
  predicate SameStart(a: seq<Entry>, b: seq<Entry>)
  {
    |a| <= |b| && forall i | 0 <= i < |a| :: PreImage(a[i], i) == PreImage(b[i], i)
  }

  ghost predicate LeavesClash(h: Hash, a: seq<Entry>, b: seq<Entry>)
  {
    exists i :: 0 <= i < |a| && i < |b| && Clash(h, Utf8(PreImage(a[i], i)), Utf8(PreImage(b[i], i)))
  }

  lemma SameStartLeaves(h: Hash, a: seq<Entry>, b: seq<Entry>)
    ensures SameStart(a, b) ==> Leaves(h, a, 0) <= Leaves(h, b, 0)
    ensures Leaves(h, a, 0) <= Leaves(h, b, 0) ==> SameStart(a, b) || LeavesClash(h, a, b)
  {
    hide PreImage, Utf8;
    var la, lb := Leaves(h, a, 0), Leaves(h, b, 0);
    if SameStart(a, b) {
      assert la == lb[..|a|];
    }
    if la <= lb && !SameStart(a, b) {
      var i :| 0 <= i < |a| && PreImage(a[i], i) != PreImage(b[i], i);
      assert la[i] == lb[i];
      Utf8Distinct(PreImage(a[i], i), PreImage(b[i], i));
      assert Clash(h, Utf8(PreImage(a[i], i)), Utf8(PreImage(b[i], i)));
    }
  }

  lemma Utf8Distinct(a: string, b: string)
    requires a != b
    ensures Utf8(a) != Utf8(b)
  {
    if Utf8(a) == Utf8(b) {
      Utf8Injective(a, b);
    }
  }

  // A cache built from one log and refreshed from another, in terms of the two logs.
  predicate Extends(known: Log, log3: Log)
  {
    && SameStart(Entries(known), Entries(log3))
    && |Entries(known)| <= |NonBlank(log3)| && AllParse(NonBlank(log3)[..|Entries(known)|])
  }

  lemma AlignedIff(h: Hash, c: Cache, known: Log, log3: Log)
    requires Correct(h, c, known)
    ensures Extends(known, log3) ==> Aligned(h, c, log3)
    ensures Aligned(h, c, log3) ==> Extends(known, log3) || LeavesClash(h, Entries(known), Entries(log3))
  {
    hide Entries, Leaves, NonBlank, SameStart, LeavesClash, AllParse;
    SameStartLeaves(h, Entries(known), Entries(log3));
  }

  lemma LeavesOfOne(h: Hash, e: Entry, base: nat)
    ensures Leaves(h, [e], base) == [LeafHash(h, e, base)]
  {}

  lemma {:induction false} AbsentIn(s: string)
    requires forall i | 0 <= i < |s| :: s[i] != ' '
    ensures Absent(s, ' ')
  {}

  // ---- whole runs ------------------------------------------------------------------

  datatype Change = Grow(lines: Log) | Reset(lines: Log)

  function Apply(log: Log, change: Change): Log
  {
    match change case Grow(lines) => log + lines case Reset(lines) => lines
  }

  // A collection during which the log changes twice, between its three reads.  Any of
  // the four steps outside the process may fail.
  datatype Event = Kernel(change: Change)
                 | Collect(pcrs: Option<Pcrs>, ok1: bool, change1: Change, ok2: bool, change2: Change, ok3: bool,
                           quote: Option<(string, string)>, machineId: string, nonce: string)

  // `synced` is the log the cache was last built from.
  datatype State = State(cache: Cache, log: Log, synced: Log)

  function Read(ok: bool, log: Log): Option<Log> { if ok then Some(log) else None }

  function WorldOf(s: State, e: Event): World
    requires e.Collect?
  {
    var log2 := Apply(s.log, e.change1);
    World(e.pcrs, Read(e.ok1, s.log), Read(e.ok2, log2), Read(e.ok3, Apply(log2, e.change2)), e.quote, e.machineId)
  }

  predicate ResetDuring(e: Event) { e.Collect? && (e.change1.Reset? || e.change2.Reset?) }

  // The log the cache is built from after a collection, if it was built from `known` before.
  function Synced(c: Cache, known: Log, w: World): Log
  {
    if w.pcrs.None? || w.log1.None? || w.log2.None? then known
    else if w.log3.Some? then w.log3.value
    else if |Entries(w.log2.value)| < c.offset then []
    else known
  }

  function Next(h: Hash, s: State, e: Event): State
  {
    match e
    case Kernel(change) => s.(log := Apply(s.log, change))
    case Collect(_, _, change1, _, change2, _, _, _, _) =>
      var w := WorldOf(s, e);
      State(CacheAfter(h, s.cache, w), Apply(Apply(s.log, change1), change2), Synced(s.cache, s.synced, w))
  }

  // If the cache is refreshed, the second read finds fewer entries than the offset, or
  // the log read third extends the one the cache was built from.
  predicate HarmlessRead(c: Cache, known: Log, w: World)
  {
    Refreshes(w) ==> |Entries(w.log2.value)| < c.offset || Extends(known, w.log3.value)
  }

  predicate Harmless(s: State, e: Event) { e.Collect? ==> HarmlessRead(s.cache, s.synced, WorldOf(s, e)) }

  const START := State(Cache([], 0), [], [])

  function After(h: Hash, events: seq<Event>): State
  {
    if events == [] then START
    else Next(h, After(h, events[..|events| - 1]), events[|events| - 1])
  }

  predicate Admissible(h: Hash, events: seq<Event>)
  {
    forall k | 0 <= k < |events| :: Harmless(After(h, events[..k]), events[k])
  }

  // Between collections, failed ones included.
  predicate Invariant(h: Hash, s: State) { Correct(h, s.cache, s.synced) }

  // An empty cache is harmless, and so is a log of parseable lines that has only grown
  // since the cache was built.
  lemma GrowthIsHarmless(h: Hash, s: State, e: Event)
    requires Invariant(h, s) && e.Collect?
    requires var log3 := Apply(Apply(s.log, e.change1), e.change2);
      s.cache.offset == 0 || (s.synced <= log3 && AllParse(NonBlank(log3)))
    ensures Harmless(s, e)
  {
    var log3 := Apply(Apply(s.log, e.change1), e.change2);
    CorrectSizes(h, s.cache, s.synced);
    if s.cache.offset == 0 {
      EmptyExtends(s.synced, log3);
    } else {
      GrownExtends(s.synced, log3);
    }
    hide Extends, Entries, AllParse, Correct;
  }

  lemma EmptyExtends(known: Log, log3: Log)
    requires Entries(known) == []
    ensures Extends(known, log3)
  {
    assert NonBlank(log3)[..0] == [];
  }

  lemma GrownExtends(known: Log, log3: Log)
    requires known <= log3 && AllParse(NonBlank(log3))
    ensures Extends(known, log3)
  {
    hide Entries, NonBlank, ParseLine, PreImage;
    var more := log3[|known|..];
    assert log3 == known + more;
    EntriesAppend(known, more);
    AllEntries(log3);
    var a, b := Entries(known), Entries(log3);
    forall i | 0 <= i < |a| ensures a[i] == b[i] {
      assert b == a + Entries(more);
    }
  }

  // One collection of any run: exactly the harmless ones leave a right cache, unless two
  // leaves collide.
  lemma CollectionCorrectIff(h: Hash, s: State, e: Event)
    requires Invariant(h, s) && e.Collect? && Refreshes(WorldOf(s, e))
    ensures var log3 := WorldOf(s, e).log3.value; var c := Next(h, s, e).cache;
      && (Harmless(s, e) ==> Correct(h, c, log3))
      && (Correct(h, c, log3) ==> Harmless(s, e) || LeavesClash(h, Entries(s.synced), Entries(log3)))
  {
    hide Entries, CacheAfter, Correct, Extends, LeavesClash, Synced;
    ReadCorrectIff(h, s.cache, s.synced, WorldOf(s, e));
  }

  lemma ReadCorrectIff(h: Hash, c: Cache, known: Log, w: World)
    requires Correct(h, c, known) && Refreshes(w)
    ensures HarmlessRead(c, known, w) ==> Correct(h, CacheAfter(h, c, w), w.log3.value)
    ensures Correct(h, CacheAfter(h, c, w), w.log3.value) ==>
      HarmlessRead(c, known, w) || LeavesClash(h, Entries(known), Entries(w.log3.value))
  {
    hide Entries, Leaves, Aligned, CacheAfter, Extends, LeavesClash;
    AlignedIff(h, c, known, w.log3.value);
    CorrectSizes(h, c, known);
    hide Correct;
    RefreshCorrectIff(h, c, w);
  }

  // Harmless or failing, a collection leaves the cache right for the log it is now built from.
  lemma ReadKeepsCorrect(h: Hash, c: Cache, known: Log, w: World)
    requires Correct(h, c, known) && HarmlessRead(c, known, w)
    ensures Correct(h, CacheAfter(h, c, w), Synced(c, known, w))
  {
    hide Entries, Correct, HarmlessRead, Extended;
    FlushedIsRight(h);
    if Refreshes(w) {
      hide CacheAfter;
      ReadCorrectIff(h, c, known, w);
    }
  }

  lemma CorrectSizes(h: Hash, c: Cache, log: Log)
    requires Correct(h, c, log)
    ensures |c.leaves| == c.offset == |Entries(log)|
  {}

  lemma FlushedIsRight(h: Hash)
    ensures Correct(h, Cache([], 0), [])
  {}

  lemma NextKeepsInvariant(h: Hash, s: State, e: Event)
    requires Invariant(h, s) && Harmless(s, e)
    ensures Invariant(h, Next(h, s, e))
  {
    hide Correct, CacheAfter, Synced, HarmlessRead;
    if e.Collect? {
      ReadKeepsCorrect(h, s.cache, s.synced, WorldOf(s, e));
    }
  }

  lemma {:induction false} RunKeepsInvariant(h: Hash, events: seq<Event>)
    requires Admissible(h, events)
    ensures Invariant(h, After(h, events))
  {
    hide Invariant, Next, Harmless;
    if events == [] {
      StartIsGood(h);
    } else {
      var front, e := events[..|events| - 1], events[|events| - 1];
      assert events == front + [e];
      AdmissibleFront(h, front, e);
      RunKeepsInvariant(h, front);
      NextKeepsInvariant(h, After(h, front), e);
    }
  }

  lemma StartIsGood(h: Hash)
    ensures Invariant(h, START)
  {}

  lemma AfterLast(h: Hash, events: seq<Event>, e: Event)
    ensures After(h, events + [e]) == Next(h, After(h, events), e)
  {
    hide Next;
    assert (events + [e])[..|events|] == events;
  }

  lemma AdmissibleFront(h: Hash, events: seq<Event>, e: Event)
    requires Admissible(h, events + [e])
    ensures Admissible(h, events) && Harmless(After(h, events), e)
    ensures After(h, events + [e]) == Next(h, After(h, events), e)
  {
    hide Harmless, Next;
    var all, n := events + [e], |events|;
    AfterLast(h, events, e);
    assert all[..n] == events && all[n] == e;
    assert Harmless(After(h, all[..n]), all[n]);
    forall k | 0 <= k < n ensures Harmless(After(h, events[..k]), events[k]) {
      assert events[..k] == all[..k] && events[k] == all[k];
    }
  }

  // Main result.  In every admissible run, each collection that gets past its reads
  // leaves the cache equal to a rebuild of the log it read; a report, if the quote
  // works, carries the root, depth and count of that rebuild, and counts no more
  // entries in its summary than leaves unless a reset fell inside the collection.
  lemma CacheRefinesRebuild(h: Hash, events: seq<Event>, e: Event)
    requires Admissible(h, events + [e]) && e.Collect? && Refreshes(WorldOf(After(h, events), e))
    ensures var s := After(h, events); var w := WorldOf(s, e); var log := w.log3.value;
      && After(h, events + [e]).cache == Cache(Leaves(h, Entries(log), 0), |Entries(log)|)
      && var r := ReportAfter(h, s.cache, w, e.nonce);
      && (r.Some? <==> e.quote.Some?)
      && (r.Some? ==>
            var tree := TreeOf(h, Leaves(h, Entries(log), 0));
            && r.value.merkleRoot == tree.root && r.value.merkleDepth == tree.depth
            && r.value.leafCount == tree.leafCount
            && (!ResetDuring(e) ==> r.value.summary.totalEntries <= r.value.leafCount))
  {
    hide Entries, Leaves, Root, Depth, Hex, HexAll, Invariant, CacheAfter, Harmless, Summarise, After, Admissible,
         Synced, LeavesClash;
    var s := After(h, events);
    AdmissibleFront(h, events, e);
    RunKeepsInvariant(h, events);
    CollectionCorrectIff(h, s, e);
    if !ResetDuring(e) {
      SummaryBound(s, e);
    }
  }

  lemma SummaryBound(s: State, e: Event)
    requires e.Collect? && !ResetDuring(e)
    ensures var log3 := Apply(Apply(s.log, e.change1), e.change2); Summarise(s.log).totalEntries <= |Entries(log3)|
  {
    hide Entries;
    EntriesAppend(s.log, e.change1.lines);
    EntriesAppend(s.log + e.change1.lines, e.change2.lines);
  }

  // ---- runs in which the cache goes wrong ----------------------------------------------

  // A collection that works while the log stands still.
  const QUIET: Event := Collect(Some([]), true, Grow([]), true, Grow([]), true, Some(("", "")), "", "")

  lemma QuietStep(h: Hash, s: State)
    ensures Next(h, s, QUIET) == State(Extended(h, Flushed(s.cache, s.log), s.log), s.log, s.log)
  {
    hide Extended, Entries;
    assert s.log + [] == s.log;
  }

  lemma GrowAndCollect(h: Hash, log: Log)
    ensures After(h, [Kernel(Grow(log)), QUIET]) == State(Cache(Leaves(h, Entries(log), 0), |Entries(log)|), log, log)
  {
    hide Entries, Extended, Leaves;
    AfterLast(h, [], Kernel(Grow(log)));
    AfterLast(h, [Kernel(Grow(log))], QUIET);
    assert [] + [Kernel(Grow(log))] == [Kernel(Grow(log))];
    assert [Kernel(Grow(log))] + [QUIET] == [Kernel(Grow(log)), QUIET];
    assert [] + log == log;
    QuietStep(h, State(Cache([], 0), log, []));
    EmptyIsAligned(h, log);
    ExtendedCorrectIff(h, Cache([], 0), log);
  }

  lemma EmptyIsAligned(h: Hash, log: Log)
    ensures Aligned(h, Cache([], 0), log)
  {
    assert NonBlank(log)[..0] == [];
  }

  // The count of parsed lines is not an index of raw lines: after [bad, good] has been
  // collected once, collecting the same log again appends `good` a second time.
  lemma MalformedLineIsCountedTwice(h: Hash, bad: string, e: Entry)
    requires Strip(bad) != "" && ParseLine(bad).None? && Printable(e)
    ensures var log := [bad, PrintEntry(e)];
      var once := After(h, [Kernel(Grow(log)), QUIET]).cache;
      var twice := After(h, [Kernel(Grow(log)), QUIET, QUIET]).cache;
      && once == Cache([LeafHash(h, e, 0)], 1) && Correct(h, once, log)
      && twice == Cache([LeafHash(h, e, 0), LeafHash(h, e, 1)], 2) && !Correct(h, twice, log)
  {
    PrintParse(e);
    var log := [bad, PrintEntry(e)];
    BadThenGood(bad, PrintEntry(e), e);
    hide ParseLine, Strip, PrintEntry, Printable;
    TwoCollections(h, log, e);
  }

  lemma TwoCollections(h: Hash, log: Log, e: Entry)
    requires Entries(log) == [e] && EntriesFrom(log, 1) == [e]
    ensures var once := After(h, [Kernel(Grow(log)), QUIET]).cache;
      var twice := After(h, [Kernel(Grow(log)), QUIET, QUIET]).cache;
      && once == Cache([LeafHash(h, e, 0)], 1) && Correct(h, once, log)
      && twice == Cache([LeafHash(h, e, 0), LeafHash(h, e, 1)], 2) && !Correct(h, twice, log)
  {
    hide After, Next, Entries, EntriesFrom, LeafHash, Leaves;
    GrowAndCollect(h, log);
    var two := [Kernel(Grow(log)), QUIET];
    AfterLast(h, two, QUIET);
    assert two + [QUIET] == [Kernel(Grow(log)), QUIET, QUIET];
    QuietStep(h, After(h, two));
    LeavesOfOne(h, e, 0);
    LeavesOfOne(h, e, 1);
    assert [LeafHash(h, e, 0)] + [LeafHash(h, e, 1)] == [LeafHash(h, e, 0), LeafHash(h, e, 1)];
  }

  lemma BadThenGood(bad: string, good: string, e: Entry)
    requires Strip(bad) != "" && ParseLine(bad).None? && ParseLine(good) == Some(e)
    ensures Entries([bad, good]) == [e] && EntriesFrom([bad, good], 1) == [e]
  {
    assert Strip(good) != "";
    hide Strip, ParseStripped;
    var log := [bad, good];
    assert log == [bad] + [good] && log[1..] == [good] && [good] == [good] + [];
    KeepCons(NonBlankLine, bad, [good]);
    KeepCons(NonBlankLine, good, []);
    KeepCons(ParseLine, bad, [good]);
    KeepCons(ParseLine, good, []);
    assert NonBlank(log) == log;
  }

  // Main result on resets.  After a first collection, a reset to any log with at least as
  // many entries is not noticed: the old leaves stay, and the cache is right only if the
  // new log extends the old one, or two leaves collide.
  lemma UnseenResetGoesStale(h: Hash, log: Log, log': Log)
    requires |Entries(log)| <= |Entries(log')|
    ensures var c := After(h, [Kernel(Grow(log)), QUIET, Kernel(Reset(log')), QUIET]).cache;
      && Leaves(h, Entries(log), 0) <= c.leaves
      && (Extends(log, log') ==> Correct(h, c, log'))
      && (Correct(h, c, log') ==> Extends(log, log') || LeavesClash(h, Entries(log), Entries(log')))
  {
    hide After, Entries, Leaves, Extends, LeavesClash, Aligned;
    GrowAndCollect(h, log);
    var two := [Kernel(Grow(log)), QUIET];
    var c := Cache(Leaves(h, Entries(log), 0), |Entries(log)|);
    AfterLast(h, two, Kernel(Reset(log')));
    AfterLast(h, two + [Kernel(Reset(log'))], QUIET);
    assert two + [Kernel(Reset(log'))] + [QUIET] == [Kernel(Grow(log)), QUIET, Kernel(Reset(log')), QUIET];
    QuietStep(h, State(c, log', log));
    ExtendedCorrectIff(h, c, log');
    AlignedIff(h, c, log, log');
  }

  // Both happen: `x` is neither blank nor parseable, one measured file is printable, and
  // a reset can replace it by another file.
  const FILE: Entry := Entry("10", "ab", "ima-ng", "sha256:cd", "boot_aggregate")
  const OTHER: Entry := Entry("10", "ab", "ima-ng", "sha256:cd", "other")

  lemma MalformedLineExists()
    ensures Strip("x") != "" && ParseLine("x").None?
  {
    StripFixpoint("x");
    assert Strip("x") == "x";
    AbsentIn("x");
  }

  lemma FilesArePrintable()
    ensures Printable(FILE) && Printable(OTHER)
  {
    hide Absent;
    AbsentIn("10");
    AbsentIn("ab");
    AbsentIn("ima-ng");
    AbsentIn("sha256:cd");
  }

  lemma MalformedFileIsCountedTwice(h: Hash)
    ensures var log := ["x", PrintEntry(FILE)];
      && Correct(h, After(h, [Kernel(Grow(log)), QUIET]).cache, log)
      && !Correct(h, After(h, [Kernel(Grow(log)), QUIET, QUIET]).cache, log)
  {
    MalformedLineExists();
    FilesArePrintable();
    hide *;
    MalformedLineIsCountedTwice(h, "x", FILE);
  }

  lemma ReplacedFileGoesStale(h: Hash)
    ensures var log, log' := [PrintEntry(FILE)], [PrintEntry(OTHER)];
      var c := After(h, [Kernel(Grow(log)), QUIET, Kernel(Reset(log')), QUIET]).cache;
      !Correct(h, c, log') || Clash(h, Utf8(PreImage(FILE, 0)), Utf8(PreImage(OTHER, 0)))
  {
    FilesArePrintable();
    PrintParse(FILE);
    PrintParse(OTHER);
    OtherPreImage();
    hide *;
    OneLine(PrintEntry(FILE), FILE);
    OneLine(PrintEntry(OTHER), OTHER);
    UnseenResetGoesStale(h, [PrintEntry(FILE)], [PrintEntry(OTHER)]);
    OneEntryClash(h, [PrintEntry(FILE)], [PrintEntry(OTHER)], FILE, OTHER);
  }

  lemma OtherPreImage()
    ensures PreImage(FILE, 0) != PreImage(OTHER, 0)
  {
    PreImageNested(FILE, 0);
    PreImageNested(OTHER, 0);
    hide PreImage, Dec;
    assert |FILE.filename| != |OTHER.filename|;
    assert |PreImage(FILE, 0)| != |PreImage(OTHER, 0)|;
  }

  lemma OneLine(line: string, e: Entry)
    requires ParseLine(line) == Some(e)
    ensures Entries([line]) == [e] && NonBlank([line]) == [line]
  {
    assert Strip(line) != "";
    hide ParseStripped, Strip;
    assert [line] == [line] + [];
    KeepCons(NonBlankLine, line, []);
    KeepCons(ParseLine, line, []);
    assert NonBlank([line]) == [line];
  }

  lemma OneEntryClash(h: Hash, log: Log, log': Log, e: Entry, f: Entry)
    requires Entries(log) == [e] && Entries(log') == [f] && PreImage(e, 0) != PreImage(f, 0)
    ensures !Extends(log, log')
    ensures LeavesClash(h, Entries(log), Entries(log')) ==> Clash(h, Utf8(PreImage(e, 0)), Utf8(PreImage(f, 0)))
  {
    hide Entries, PreImage, Utf8, NonBlank;
    assert [e][0] == e && [f][0] == f;
  }
}
