/** The body of `listen`: compare each new snapshot with the previous one and print
    the report when some detector's status changed. Fetching, the clock and the
    30-second sleep are outside the model: each poll is given as the page's cell
    texts together with the clock reading a report of it would show. */
module Monitor {
  import opened Wrappers
  import opened Seqs
  import opened Snapshots
  import opened StatusPage
  import opened Report

  /** Detector `n` is listed in `next` with a status other than its status in `prev`. */
  predicate StatusChanged(prev: Snapshot, next: Snapshot, n: string) {
    n in Names(next) && Get(next, n) != Get(prev, n)
  }

  /** Some detector of `next` changed its status since `prev`. */
  ghost predicate AnyChanged(prev: Snapshot, next: Snapshot) {
    exists n :: StatusChanged(prev, next, n)
  }

  /** Every key of `next` from position `i` on is also a key of `prev`. */
  predicate KeysKnownFrom(prev: Snapshot, next: Snapshot, i: int) {
    forall j :: 0 <= i <= j < |next| ==> next[j].name in Names(prev)
  }

  /** `next[j]` is the first entry from position `i` on whose key `prev` lacks. */
  predicate FirstUnknownAt(prev: Snapshot, next: Snapshot, i: int, j: int) {
    0 <= i <= j < |next| && next[j].name !in Names(prev) && KeysKnownFrom(prev, next[..j], i)
  }

  /** The list comprehension `[d for d in new if new[d] != old[d]]` restricted to
      the entries of `next` from position `i` on; a key missing from `prev` raises
      `KeyError`, returned here as the failing key. */
  function ChangedFrom(prev: Snapshot, next: Snapshot, i: nat): Result<seq<string>, string>
    requires i <= |next|
    decreases |next| - i
  {
    if i == |next| then Success([])
    else
      var e := next[i];
      match Get(prev, e.name)
      case None => Failure(e.name)
      case Some(v) =>
        match ChangedFrom(prev, next, i + 1)
        case Failure(missing) => Failure(missing)
        case Success(rest) => if e.status != v then Success([e.name] + rest) else Success(rest)
  }

  /** From position `i` on, the comprehension raises `KeyError` for the first key
      that `prev` lacks; otherwise it lists exactly the changed keys, each once, in
      the order of `next`. */
  lemma {:induction false} ChangedFromSpec(prev: Snapshot, next: Snapshot, i: nat)
    requires i <= |next|
    ensures ChangedFrom(prev, next, i).Success? <==> KeysKnownFrom(prev, next, i)
    ensures ChangedFrom(prev, next, i).Failure? ==>
      exists j :: FirstUnknownAt(prev, next, i, j) && next[j].name == ChangedFrom(prev, next, i).error
    ensures ChangedFrom(prev, next, i).Success? ==> forall n :: n in ChangedFrom(prev, next, i).value <==>
      n in Names(next)[i..] && StatusChanged(prev, next, n)
    ensures ChangedFrom(prev, next, i).Success? ==>
      IsSubsequence(ChangedFrom(prev, next, i).value, Names(next)[i..]) &&
      Distinct(ChangedFrom(prev, next, i).value)
    decreases |next| - i
  {
    if i < |next| {
      var e := next[i];
      assert Names(next)[i..] == [e.name] + Names(next)[i + 1..];
      assert Get(next, e.name) == Some(e.status);
      ChangedFromSpec(prev, next, i + 1);
      match Get(prev, e.name)
      case None =>
        assert FirstUnknownAt(prev, next, i, i);
      case Some(v) =>
        match ChangedFrom(prev, next, i + 1)
        case Failure(missing) =>
          var j :| FirstUnknownAt(prev, next, i + 1, j) && next[j].name == missing;
          assert FirstUnknownAt(prev, next, i, j);
        case Success(rest) =>
          assert e.name !in Names(next)[i + 1..];
    }
  }

  /** `changed` in `listen`: the detectors of the new snapshot whose status differs
      from the old one, in the new snapshot's key order. */
  function Changed(prev: Snapshot, next: Snapshot): Result<seq<string>, string> {
    ChangedFrom(prev, next, 0)
  }

  /** `changed` can be computed exactly when every new key is an old key, and then
      lists exactly the detectors whose status differs, each once, in the new
      snapshot's key order. */
  lemma ChangedSpec(prev: Snapshot, next: Snapshot)
    ensures Changed(prev, next).Success? <==> forall n :: n in Names(next) ==> n in Names(prev)
    ensures Changed(prev, next).Failure? ==>
      Changed(prev, next).error in Names(next) && Changed(prev, next).error !in Names(prev)
    ensures Changed(prev, next).Success? ==>
      forall n :: n in Changed(prev, next).value <==> StatusChanged(prev, next, n)
    ensures Changed(prev, next).Success? ==>
      IsSubsequence(Changed(prev, next).value, Names(next)) && Distinct(Changed(prev, next).value)
  {
    ChangedFromSpec(prev, next, 0);
    assert Names(next)[0..] == Names(next);
    assert KeysKnownFrom(prev, next, 0) <==> forall n :: n in Names(next) ==> n in Names(prev);
  }

  /** A snapshot compared with itself has no changes. */
  lemma ChangedSelf(s: Snapshot)
    ensures Changed(s, s) == Success([])
  {
    ChangedSpec(s, s);
    var r := Changed(s, s);
    EmptyIffNoElement(r.value);
  }

  /** When a single detector's status is replaced and nothing else is touched, the
      change list is that detector alone if the status really differs, and empty
      otherwise. */
  lemma ChangedOne(prev: Snapshot, next: Snapshot, k: int)
    requires 0 <= k < |prev| == |next|
    requires next[k].name == prev[k].name
    requires forall j :: 0 <= j < |prev| && j != k ==> next[j] == prev[j]
    ensures Changed(prev, next) ==
      Success(if next[k].status != prev[k].status then [prev[k].name] else [])
  {
    assert Names(next) == Names(prev);
    ChangedSpec(prev, next);
    var r := Changed(prev, next);
    var n := prev[k].name;
    forall m | StatusChanged(prev, next, m)
      ensures m == n
    {
      var j :| 0 <= j < |next| && Names(next)[j] == m;
    }
    if next[k].status != prev[k].status {
      assert StatusChanged(prev, next, n);
      OnlyElement(r.value, n);
    } else {
      assert !StatusChanged(prev, next, n);
      EmptyIffNoElement(r.value);
    }
  }

  /** The outcome of one loop iteration: the `changed` list and the report printed,
      if any. */
  datatype Outcome = Outcome(changed: seq<string>, report: Option<string>)

  /** One iteration of the `while True` loop, after the fetch: diff the snapshots
      and print the new one's report only when the diff is non-empty. */
  function Step(prev: Snapshot, next: Snapshot, now: string): Result<Outcome, string> {
    match Changed(prev, next)
    case Failure(n) => Failure(n)
    case Success(changed) =>
      Success(Outcome(changed, if changed != [] then Some(FormatStatus(now, next)) else None))
  }

  /** An iteration fails only on a new key the old snapshot lacks; otherwise it
      prints exactly when some detector changed, and what it prints is the new
      snapshot's report. */
  lemma StepSpec(prev: Snapshot, next: Snapshot, now: string)
    ensures Step(prev, next, now).Success? <==> forall n :: n in Names(next) ==> n in Names(prev)
    ensures Step(prev, next, now).Success? ==>
      forall n :: n in Step(prev, next, now).value.changed <==> StatusChanged(prev, next, n)
    ensures Step(prev, next, now).Success? ==>
      (Step(prev, next, now).value.report.Some? <==> AnyChanged(prev, next))
    ensures Step(prev, next, now).Success? && Step(prev, next, now).value.report.Some? ==>
      Step(prev, next, now).value.report.value == FormatStatus(now, next)
  {
    ChangedSpec(prev, next);
    if Changed(prev, next).Success? {
      var changed := Changed(prev, next).value;
      assert changed != [] ==> changed[0] in changed;
    }
  }

  /** Polling an unchanged page prints nothing. */
  lemma StepQuiet(s: Snapshot, now: string)
    ensures Step(s, s, now) == Success(Outcome([], None))
  {
    ChangedSelf(s);
  }

  /** One fetch as the loop sees it: what `parse_status_page` made of the page, and
      the clock reading `Time.now()` would give if its report were printed. */
  datatype Fetch = Fetch(page: Result<Snapshot, ParseError>, now: string)

  /** The exception that ends `listen`. */
  datatype Stop =
    | PageError(error: ParseError)  // `parse_status_page` raised
    | KeyError(name: string)        // `old_status_dict[detector]` raised

  /** What a run printed, one entry per completed fetch (`None` for a quiet
      iteration), and the exception that ended it, if one did. */
  datatype Run = Run(printed: seq<Option<string>>, stopped: Option<Stop>)

  /** Every page that parsed has exactly the detectors as keys, as
      `parse_status_page` guarantees. */
  predicate Keyed(fs: seq<Fetch>) {
    forall i :: 0 <= i < |fs| && fs[i].page.Success? ==> Names(fs[i].page.value) == Detectors
  }

  /** The `while True` loop over the given fetches, starting from snapshot `prev`. */
  function Watch(prev: Snapshot, fs: seq<Fetch>): (r: Run)
    requires Names(prev) == Detectors && Keyed(fs)
    ensures |r.printed| <= |fs|
    ensures r.stopped.None? <==> |r.printed| == |fs|
    ensures r.stopped.Some? ==> r.stopped.value.PageError?
    decreases |fs|
  {
    if fs == [] then Run([], None)
    else
      match fs[0].page
      case Failure(e) => Run([], Some(PageError(e)))
      case Success(next) =>
        StepSpec(prev, next, fs[0].now);
        match Step(prev, next, fs[0].now)
        case Failure(n) => Run([], Some(KeyError(n)))
        case Success(o) =>
          var rest := Watch(next, fs[1..]);
          Run([o.report] + rest.printed, rest.stopped)
  }

  /** `listen` over the given fetches: the first snapshot is always printed, then
      the loop runs on the rest. */
  function Listen(fs: seq<Fetch>): (r: Run)
    requires Keyed(fs)
    ensures |r.printed| <= |fs|
    ensures r.stopped.None? <==> |r.printed| == |fs|
    ensures r.stopped.Some? ==> r.stopped.value.PageError?
  {
    if fs == [] then Run([], None)
    else
      match fs[0].page
      case Failure(e) => Run([], Some(PageError(e)))
      case Success(s) =>
        var rest := Watch(s, fs[1..]);
        Run([Some(FormatStatus(fs[0].now, s))] + rest.printed, rest.stopped)
  }

  /** One fetch of the page: its table's cell texts and the clock reading. */
  datatype Poll = Poll(cells: seq<string>, now: string)

  /** Each fetched page run through `parse_status_page`. */
  function Fetches(polls: seq<Poll>): (fs: seq<Fetch>)
    ensures |fs| == |polls|
    ensures forall i :: 0 <= i < |polls| ==>
      fs[i].page == ParseStatusPage(polls[i].cells) && fs[i].now == polls[i].now
  {
    seq(|polls|, i requires 0 <= i < |polls| => Fetch(ParseStatusPage(polls[i].cells), polls[i].now))
  }

  /** Every page that parses has exactly the tracked detectors as keys. */
  lemma FetchesKeyed(polls: seq<Poll>)
    ensures Keyed(Fetches(polls))
  {
    var fs := Fetches(polls);
    forall i | 0 <= i < |fs| && fs[i].page.Success?
      ensures Names(fs[i].page.value) == Detectors
    {
      ParsedNames(polls[i].cells);
    }
  }

  /** `listen` over the pages fetched, as the script runs it. */
  function ListenPolls(polls: seq<Poll>): Run {
    FetchesKeyed(polls);
    Listen(Fetches(polls))
  }

  /** The pages of fetches `0 .. j-1` all parsed. */
  predicate ParsedBefore(fs: seq<Fetch>, j: int) {
    forall i :: 0 <= i < j && i < |fs| ==> fs[i].page.Success?
  }

  /** The snapshot parsed at fetch `i`. */
  function SnapshotAt(fs: seq<Fetch>, i: int): (s: Snapshot)
    requires Keyed(fs) && 0 <= i < |fs| && fs[i].page.Success?
    ensures Names(s) == Detectors
  {
    fs[i].page.value
  }

  /** The snapshot that iteration `i` of the loop compares against. */
  function Before(prev: Snapshot, fs: seq<Fetch>, i: int): Snapshot
    requires Keyed(fs) && 0 <= i < |fs| && ParsedBefore(fs, i)
  {
    if i == 0 then prev else SnapshotAt(fs, i - 1)
  }

  /** When every page parses, the loop never stops. */
  lemma {:induction false} WatchCompletes(prev: Snapshot, fs: seq<Fetch>)
    requires Names(prev) == Detectors && Keyed(fs) && ParsedBefore(fs, |fs|)
    ensures Watch(prev, fs).stopped.None?
    ensures |Watch(prev, fs).printed| == |fs|
    decreases |fs|
  {
    if fs != [] {
      WatchCompletes(fs[0].page.value, fs[1..]);
    }
  }

  /** When fetches `0 .. i` all parse, iteration `i` prints what one step from the
      snapshot before it prints. */
  lemma {:induction false} WatchPrints(prev: Snapshot, fs: seq<Fetch>, i: int)
    requires Names(prev) == Detectors && Keyed(fs)
    requires 0 <= i < |fs| && ParsedBefore(fs, i + 1)
    ensures i < |Watch(prev, fs).printed|
    ensures Step(Before(prev, fs, i), SnapshotAt(fs, i), fs[i].now).Success?
    ensures Watch(prev, fs).printed[i] ==
      Step(Before(prev, fs, i), SnapshotAt(fs, i), fs[i].now).value.report
    decreases i
  {
    StepSpec(Before(prev, fs, i), SnapshotAt(fs, i), fs[i].now);
    if i > 0 {
      var tail := fs[1..];
      var next := fs[0].page.value;
      WatchPrints(next, tail, i - 1);
      assert tail[i - 1] == fs[i];
      if i > 1 {
        assert tail[i - 2] == fs[i - 1];
      }
    }
  }

  /** When every page parses, the loop never stops, and iteration `i` prints the
      report of its snapshot exactly when some detector's status differs from the
      snapshot before it. */
  lemma WatchTrace(prev: Snapshot, fs: seq<Fetch>)
    requires Names(prev) == Detectors && Keyed(fs) && ParsedBefore(fs, |fs|)
    ensures Watch(prev, fs).stopped.None?
    ensures |Watch(prev, fs).printed| == |fs|
    ensures forall i :: 0 <= i < |fs| ==>
      (Watch(prev, fs).printed[i].Some? <==> AnyChanged(Before(prev, fs, i), SnapshotAt(fs, i)))
    ensures forall i :: 0 <= i < |fs| && Watch(prev, fs).printed[i].Some? ==>
      Watch(prev, fs).printed[i].value == FormatStatus(fs[i].now, SnapshotAt(fs, i))
  {
    WatchCompletes(prev, fs);
    forall i | 0 <= i < |fs|
      ensures Watch(prev, fs).printed[i].Some? <==> AnyChanged(Before(prev, fs, i), SnapshotAt(fs, i))
      ensures Watch(prev, fs).printed[i].Some? ==>
        Watch(prev, fs).printed[i].value == FormatStatus(fs[i].now, SnapshotAt(fs, i))
    {
      WatchPrints(prev, fs, i);
      StepSpec(Before(prev, fs, i), SnapshotAt(fs, i), fs[i].now);
    }
  }

  /** When fetches `0 .. i` all parse, iteration `i` of `listen`, after the first,
      prints what one step from snapshot `i - 1` to snapshot `i` prints. */
  lemma ListenPrints(fs: seq<Fetch>, i: int)
    requires Keyed(fs) && 1 <= i < |fs| && ParsedBefore(fs, i + 1)
    ensures i < |Listen(fs).printed|
    ensures Step(SnapshotAt(fs, i - 1), SnapshotAt(fs, i), fs[i].now).Success?
    ensures Listen(fs).printed[i] ==
      Step(SnapshotAt(fs, i - 1), SnapshotAt(fs, i), fs[i].now).value.report
  {
    var tail := fs[1..];
    StepSpec(SnapshotAt(fs, i - 1), SnapshotAt(fs, i), fs[i].now);
    WatchPrints(fs[0].page.value, tail, i - 1);
    assert tail[i - 1] == fs[i];
    if i > 1 {
      assert tail[i - 2] == fs[i - 1];
    }
  }

  /** When every page parses, `listen` never stops; it prints the first snapshot's
      report unconditionally, and afterwards prints a snapshot's report exactly when
      some detector's status differs from the previous snapshot. */
  lemma ListenTrace(fs: seq<Fetch>)
    requires Keyed(fs) && ParsedBefore(fs, |fs|)
    ensures Listen(fs).stopped.None?
    ensures |Listen(fs).printed| == |fs|
    ensures fs != [] ==> Listen(fs).printed[0] == Some(FormatStatus(fs[0].now, SnapshotAt(fs, 0)))
    ensures forall i :: 1 <= i < |fs| ==>
      (Listen(fs).printed[i].Some? <==> AnyChanged(SnapshotAt(fs, i - 1), SnapshotAt(fs, i)))
    ensures forall i :: 1 <= i < |fs| && Listen(fs).printed[i].Some? ==>
      Listen(fs).printed[i].value == FormatStatus(fs[i].now, SnapshotAt(fs, i))
  {
    if fs != [] {
      WatchCompletes(fs[0].page.value, fs[1..]);
      forall i | 1 <= i < |fs|
        ensures Listen(fs).printed[i].Some? <==> AnyChanged(SnapshotAt(fs, i - 1), SnapshotAt(fs, i))
        ensures Listen(fs).printed[i].Some? ==>
          Listen(fs).printed[i].value == FormatStatus(fs[i].now, SnapshotAt(fs, i))
      {
        ListenPrints(fs, i);
        StepSpec(SnapshotAt(fs, i - 1), SnapshotAt(fs, i), fs[i].now);
      }
    }
  }

  /** The first page that does not parse ends the loop with its parse error, after
      one printed entry per earlier fetch. */
  lemma {:induction false} WatchStopsAtBadPage(prev: Snapshot, fs: seq<Fetch>, j: int)
    requires Names(prev) == Detectors && Keyed(fs)
    requires 0 <= j < |fs| && ParsedBefore(fs, j) && fs[j].page.Failure?
    ensures Watch(prev, fs).stopped == Some(PageError(fs[j].page.error))
    ensures |Watch(prev, fs).printed| == j
    decreases j
  {
    if j > 0 {
      var tail := fs[1..];
      assert tail[j - 1] == fs[j];
      WatchStopsAtBadPage(fs[0].page.value, tail, j - 1);
    }
  }

  /** `listen` ends with the parse error of the first page that does not parse,
      having printed one entry per earlier fetch. */
  lemma ListenStopsAtBadPage(fs: seq<Fetch>, j: int)
    requires Keyed(fs)
    requires 0 <= j < |fs| && ParsedBefore(fs, j) && fs[j].page.Failure?
    ensures Listen(fs).stopped == Some(PageError(fs[j].page.error))
    ensures |Listen(fs).printed| == j
  {
    if j > 0 {
      var tail := fs[1..];
      assert tail[j - 1] == fs[j];
      WatchStopsAtBadPage(fs[0].page.value, tail, j - 1);
    }
  }

  /** A page that never changes is reported once, at the first fetch, and never
      again. */
  lemma ListenQuiet(fs: seq<Fetch>)
    requires Keyed(fs) && fs != [] && ParsedBefore(fs, |fs|)
    requires forall i :: 0 <= i < |fs| ==> fs[i].page == fs[0].page
    ensures Listen(fs).printed[0] == Some(FormatStatus(fs[0].now, SnapshotAt(fs, 0)))
    ensures forall i :: 1 <= i < |Listen(fs).printed| ==> Listen(fs).printed[i] == None
  {
    ListenTrace(fs);
    var printed := Listen(fs).printed;
    forall i | 1 <= i < |fs|
      ensures printed[i] == None
    {
      var s := SnapshotAt(fs, i);
      assert SnapshotAt(fs, i - 1) == s;
      ChangedSelf(s);
    }
  }

  /** Run on real fetches, the script stops only on a page that does not parse,
      never on a `KeyError`, and then exactly at the first such page with that
      page's error. */
  lemma ListenPollsStops(polls: seq<Poll>, j: int)
    requires 0 <= j < |polls| && ParseStatusPage(polls[j].cells).Failure?
    requires forall i :: 0 <= i < j ==> ParseStatusPage(polls[i].cells).Success?
    ensures ListenPolls(polls).stopped == Some(PageError(ParseStatusPage(polls[j].cells).error))
    ensures |ListenPolls(polls).printed| == j
  {
    FetchesKeyed(polls);
    ListenStopsAtBadPage(Fetches(polls), j);
  }
}
