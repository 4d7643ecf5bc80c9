/** `format_status`: the text block printed for a snapshot. The clock reading that
    the source takes inside the function is a parameter here. */
module Report {
  import opened Wrappers
  import opened Seqs
  import opened Sorting
  import opened Snapshots

  /** The first line, without its line break. */
  function HeaderText(now: string): string {
    "Status at " + now + ":"
  }

  /** One detector's line, without its line break: a tab, the name, a colon and the
      status in double quotes. */
  function DetectorText(name: string, status: string): string {
    "\t" + name + ": \"" + status + "\""
  }

  /** The detector lines for `names`, in that order, each ended by a line break. */
  function DetectorLines(s: Snapshot, names: seq<string>): string
    requires forall n :: n in names ==> n in Names(s)
  {
    if names == [] then ""
    else DetectorText(names[0], Get(s, names[0]).value) + "\n" + DetectorLines(s, names[1..])
  }

  /** `format_status(status_dict)` with the clock reading `now`: the header line,
      then one line per detector in ascending name order. */
  function FormatStatus(now: string, s: Snapshot): string {
    var names := Sort(Names(s));
    SortSpec(Names(s));
    HeaderText(now) + "\n" + DetectorLines(s, names)
  }

  /** Splits text at line breaks, dropping them; text after the last break, if any,
      is a final line. */
  function Lines(text: string): seq<string>
    decreases |text|
  {
    match IndexOf(text, '\n')
    case None => if text == [] then [] else [text]
    case Some(i) => [text[..i]] + Lines(text[i + 1..])
  }

  lemma LinesCons(a: string, b: string)
    requires '\n' !in a
    ensures Lines(a + "\n" + b) == [a] + Lines(b)
  {
    var t := a + "\n" + b;
    assert FirstAt(t, '\n', |a|) by { assert t[..|a|] == a; }
    FirstAtUnique(t, '\n', |a|, IndexOf(t, '\n').value);
    assert t[..|a|] == a && t[|a| + 1..] == b;
  }

  /** No line break inside the clock reading or any name or status. */
  predicate SingleLine(now: string, s: Snapshot) {
    '\n' !in now && forall k :: 0 <= k < |s| ==> '\n' !in s[k].name && '\n' !in s[k].status
  }

  /** A detector's line holds no line break when neither its name nor its status does. */
  lemma DetectorTextSingleLine(s: Snapshot, n: string)
    requires n in Names(s) && SingleLine([], s)
    ensures '\n' !in DetectorText(n, Get(s, n).value)
  {
    var i := IndexOf(Names(s), n).value;
    assert Get(s, n).value == s[i].status;
  }

  lemma {:induction false} DetectorLinesSplit(s: Snapshot, names: seq<string>)
    requires forall n :: n in names ==> n in Names(s)
    requires SingleLine([], s)
    ensures |Lines(DetectorLines(s, names))| == |names|
    ensures forall k :: 0 <= k < |names| ==>
      Lines(DetectorLines(s, names))[k] == DetectorText(names[k], Get(s, names[k]).value)
  {
    if names != [] {
      var n := names[0];
      assert n in names;
      var line := DetectorText(n, Get(s, n).value);
      var rest := DetectorLines(s, names[1..]);
      DetectorTextSingleLine(s, n);
      DetectorLinesSplit(s, names[1..]);
      LinesCons(line, rest);
      assert Lines(DetectorLines(s, names)) == [line] + Lines(rest);
    }
  }

  /** The detector lines are empty exactly when there are no names, and otherwise
      end with the last line's line break. */
  lemma {:induction false} DetectorLinesEnd(s: Snapshot, names: seq<string>)
    requires forall n :: n in names ==> n in Names(s)
    ensures DetectorLines(s, names) == [] <==> names == []
    ensures DetectorLines(s, names) != [] ==>
      DetectorLines(s, names)[|DetectorLines(s, names)| - 1] == '\n'
  {
    if names != [] {
      var rest := DetectorLines(s, names[1..]);
      var text := DetectorLines(s, names);
      DetectorLinesEnd(s, names[1..]);
      if rest != [] {
        assert text[|text| - 1] == rest[|rest| - 1];
      }
    }
  }

  /** `sorted(status_dict)`: every key exactly once, in strictly ascending order. */
  lemma SortedNames(s: Snapshot)
    ensures |Sort(Names(s))| == |s|
    ensures forall n :: n in Sort(Names(s)) <==> n in Names(s)
    ensures forall k, l :: 0 <= k < l < |s| ==> LexLess(Sort(Names(s))[k], Sort(Names(s))[l])
  {
    var names := Sort(Names(s));
    SortSpec(Names(s));
    PermutationDistinct(Names(s), names);
    forall k, l | 0 <= k < l < |s|
      ensures LexLess(names[k], names[l])
    {
      LexLessTotal(names[k], names[l]);
    }
  }

  /** Read back line by line, the report is the header with the clock reading and
      then one line per detector, `|s|` of them, in the order of `sorted`, each with
      the detector's own status; every line, the last included, ends with a line
      break. */
  lemma ReportLines(now: string, s: Snapshot)
    requires SingleLine(now, s)
    ensures |FormatStatus(now, s)| > 0 && FormatStatus(now, s)[|FormatStatus(now, s)| - 1] == '\n'
    ensures |Lines(FormatStatus(now, s))| == 1 + |s|
    ensures Lines(FormatStatus(now, s))[0] == HeaderText(now)
    ensures |Sort(Names(s))| == |s| && forall n :: n in Sort(Names(s)) ==> n in Names(s)
    ensures forall k :: 0 <= k < |Sort(Names(s))| ==>
      var n := Sort(Names(s))[k];
      Lines(FormatStatus(now, s))[k + 1] == DetectorText(n, Get(s, n).value)
  {
    var names := Sort(Names(s));
    SortSpec(Names(s));
    var body := DetectorLines(s, names);
    assert FormatStatus(now, s) == HeaderText(now) + "\n" + body;
    assert '\n' !in HeaderText(now);
    LinesCons(HeaderText(now), body);
    DetectorLinesSplit(s, names);
    DetectorLinesEnd(s, names);
    var text := FormatStatus(now, s);
    if body != [] {
      assert text[|text| - 1] == body[|body| - 1];
    }
  }

  /** The report depends only on which detector has which status, not on the order
      in which the snapshot's keys were inserted. */
  lemma ReportOrderIndependent(now: string, s: Snapshot, t: Snapshot)
    requires forall n :: Get(s, n) == Get(t, n)
    ensures FormatStatus(now, s) == FormatStatus(now, t)
  {
    assert forall n :: n in Names(s) <==> n in Names(t) by {
      forall n ensures n in Names(s) <==> n in Names(t) {
        assert Get(s, n).None? == Get(t, n).None?;
      }
    }
    SameElementsPermutation(Names(s), Names(t));
    var names := Sort(Names(s));
    SortSpec(Names(s));
    SortSpec(Names(t));
    SortedUnique(names, Sort(Names(t)));
    SortedNames(s);
    SameLines(s, t, names);
  }

  lemma {:induction false} SameLines(s: Snapshot, t: Snapshot, names: seq<string>)
    requires forall n :: n in names ==> n in Names(s) && n in Names(t)
    requires forall n :: Get(s, n) == Get(t, n)
    ensures DetectorLines(s, names) == DetectorLines(t, names)
  {
    if names != [] {
      SameLines(s, t, names[1..]);
    }
  }
}
