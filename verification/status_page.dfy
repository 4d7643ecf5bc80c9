/** `parse_status_page`: from the text of the page's table cells to a snapshot of the
    fixed detector list. The HTML parser itself is not modelled; its output, the
    text of every `<td>` cell in document order, is the input here. */
module StatusPage {
  import opened Wrappers
  import opened Seqs
  import opened Text
  import opened Snapshots

  /** The detectors the monitor tracks, in the order it looks them up. */
  const Detectors: seq<string> :=
    ["GEO 600", "LIGO Hanford", "LIGO Livingston", "Virgo", "KAGRA"]

  /** Why the page could not be read. */
  datatype ParseError =
    | LabelMissing(name: string)  // `list.index` raised `ValueError`: no cell holds the detector's name
    | ValueMissing(name: string)  // indexing raised `IndexError`: the name is the last cell

  /** The list comprehension `[t.strip() for t in cells if t.strip()]`. */
  function Clean(cells: seq<string>): seq<string> {
    if cells == [] then []
    else
      var t := Strip(cells[|cells| - 1]);
      Clean(cells[..|cells| - 1]) + (if t == [] then [] else [t])
  }

  /** The positions of the cells that the comprehension keeps. */
  function Kept(cells: seq<string>): (idx: seq<nat>)
    ensures forall k :: 0 <= k < |idx| ==> idx[k] < |cells|
  {
    if cells == [] then []
    else
      var n := |cells| - 1;
      Kept(cells[..n]) + (if Strip(cells[n]) == [] then [] else [n])
  }

  /** `Kept` lists, in ascending order, exactly the positions of the cells that do
      not strip to the empty string. */
  lemma {:induction false} KeptPositions(cells: seq<string>)
    ensures forall k :: 0 <= k < |Kept(cells)| ==> Strip(cells[Kept(cells)[k]]) != []
    ensures forall k, l :: 0 <= k < l < |Kept(cells)| ==> Kept(cells)[k] < Kept(cells)[l]
    ensures forall i :: 0 <= i < |cells| && Strip(cells[i]) != [] ==> i in Kept(cells)
  {
    if cells != [] {
      var n := |cells| - 1;
      KeptPositions(cells[..n]);
      assert forall i :: 0 <= i < n ==> cells[..n][i] == cells[i];
    }
  }

  /** The comprehension keeps exactly the cells that do not strip to nothing,
      stripped, in their original relative order. */
  lemma {:induction false} CleanKeepsNonBlank(cells: seq<string>)
    ensures |Clean(cells)| == |Kept(cells)|
    ensures forall k :: 0 <= k < |Clean(cells)| ==> Clean(cells)[k] == Strip(cells[Kept(cells)[k]])
  {
    if cells != [] {
      var n := |cells| - 1;
      CleanKeepsNonBlank(cells[..n]);
      KeptPositions(cells[..n]);
      var front, idx := Clean(cells[..n]), Kept(cells[..n]);
      forall k | 0 <= k < |idx|
        ensures cells[..n][idx[k]] == cells[idx[k]]
      {
      }
      if Strip(cells[n]) == [] {
        assert Clean(cells) == front && Kept(cells) == idx;
      } else {
        assert Clean(cells) == front + [Strip(cells[n])] && Kept(cells) == idx + [n];
      }
    }
  }

  /** Every kept cell is non-empty and has no whitespace at either end. */
  lemma CleanCellsTrimmed(cells: seq<string>)
    ensures forall k :: 0 <= k < |Clean(cells)| ==> Clean(cells)[k] != [] && IsTrimmed(Clean(cells)[k])
  {
    CleanKeepsNonBlank(cells);
    KeptPositions(cells);
  }

  /** `data[data.index(name) + 1]`: the cell after the first occurrence of `name`. */
  function StatusAfter(data: seq<string>, name: string): Result<string, ParseError> {
    match IndexOf(data, name)
    case None => Failure(LabelMissing(name))
    case Some(i) => if i + 1 < |data| then Success(data[i + 1]) else Failure(ValueMissing(name))
  }

  /** The lookup fails with `LabelMissing` when no cell holds the name, with
      `ValueMissing` when its first occurrence is the last cell, and otherwise
      yields the cell after that first occurrence. */
  lemma StatusAfterSpec(data: seq<string>, name: string)
    ensures name !in data ==> StatusAfter(data, name) == Failure(LabelMissing(name))
    ensures forall i :: FirstAt(data, name, i) && i + 1 < |data| ==>
      StatusAfter(data, name) == Success(data[i + 1])
    ensures forall i :: FirstAt(data, name, i) && i + 1 == |data| ==>
      StatusAfter(data, name) == Failure(ValueMissing(name))
  {
    forall i | FirstAt(data, name, i)
      ensures IndexOf(data, name) == Some(i)
    {
      FirstAtUnique(data, name, IndexOf(data, name).value, i);
    }
  }

  /** `labels[k]` is the first label whose lookup fails, with error `e`. */
  predicate FirstFailure(data: seq<string>, labels: seq<string>, k: int, e: ParseError) {
    0 <= k < |labels| && StatusAfter(data, labels[k]) == Failure(e) &&
    forall j :: 0 <= j < k ==> StatusAfter(data, labels[j]).Success?
  }

  /** The dict comprehension `{label: status for label in labels}`: the lookups run
      in list order and the first failing one aborts the whole comprehension. */
  function Extract(data: seq<string>, labels: seq<string>): Result<Snapshot, ParseError> {
    if labels == [] then Success([])
    else
      var n := |labels| - 1;
      match Extract(data, labels[..n])
      case Failure(e) => Failure(e)
      case Success(d) =>
        match StatusAfter(data, labels[n])
        case Failure(e) => Failure(e)
        case Success(v) => Success(Insert(d, labels[n], v))
  }

  /** The comprehension succeeds exactly when every label's lookup does. */
  lemma {:induction false} ExtractSucceedsIff(data: seq<string>, labels: seq<string>)
    ensures Extract(data, labels).Success? <==>
            forall k :: 0 <= k < |labels| ==> StatusAfter(data, labels[k]).Success?
  {
    if labels != [] {
      var n := |labels| - 1;
      var front := labels[..n];
      assert forall k :: 0 <= k < n ==> front[k] == labels[k];
      assert Extract(data, labels).Success? <==>
        Extract(data, front).Success? && StatusAfter(data, labels[n]).Success?;
      ExtractSucceedsIff(data, front);
    }
  }

  /** On failure, the error is the one raised by the first label whose lookup fails. */
  lemma {:induction false} ExtractFailsAtFirst(data: seq<string>, labels: seq<string>)
    requires Extract(data, labels).Failure?
    ensures exists k :: FirstFailure(data, labels, k, Extract(data, labels).error)
  {
    var n := |labels| - 1;
    var front := labels[..n];
    assert forall k :: 0 <= k < n ==> front[k] == labels[k];
    if Extract(data, front).Failure? {
      ExtractFailsAtFirst(data, front);
      var k :| FirstFailure(data, front, k, Extract(data, front).error);
      assert FirstFailure(data, labels, k, Extract(data, labels).error);
    } else {
      ExtractSucceedsIff(data, front);
      assert FirstFailure(data, labels, n, Extract(data, labels).error);
    }
  }

  /** On success the snapshot's keys are exactly the labels, and in list order when
      the labels are distinct. */
  lemma {:induction false} ExtractNames(data: seq<string>, labels: seq<string>)
    requires Extract(data, labels).Success?
    ensures forall x :: x in Names(Extract(data, labels).value) <==> x in labels
    ensures Distinct(labels) ==> Names(Extract(data, labels).value) == labels
  {
    if labels != [] {
      var n := |labels| - 1;
      var front := labels[..n];
      assert labels == front + [labels[n]];
      ExtractNames(data, front);
      var d := Extract(data, front).value;
      InsertSpec(d, labels[n], StatusAfter(data, labels[n]).value);
      assert Distinct(labels) ==> labels[n] !in front;
    }
  }

  /** On success each label maps to the status its own lookup yields. */
  lemma {:induction false} ExtractValues(data: seq<string>, labels: seq<string>)
    requires Extract(data, labels).Success?
    ensures forall k :: 0 <= k < |labels| ==>
      Get(Extract(data, labels).value, labels[k]) == StatusAfter(data, labels[k]).ToOption()
  {
    if labels != [] {
      var n := |labels| - 1;
      var front := labels[..n];
      ExtractValues(data, front);
      var d := Extract(data, front).value;
      var v := StatusAfter(data, labels[n]).value;
      var r := Extract(data, labels).value;
      assert r == Insert(d, labels[n], v);
      InsertSpec(d, labels[n], v);
      forall k | 0 <= k < |labels|
        ensures Get(r, labels[k]) == StatusAfter(data, labels[k]).ToOption()
      {
        if labels[k] != labels[n] {
          assert k < n && labels[k] == front[k];
          assert Get(r, labels[k]) == Get(d, front[k]);
        }
      }
    }
  }

  /** `name` occurs among the cells and its first occurrence is not the last cell. */
  ghost predicate HasValue(data: seq<string>, name: string) {
    exists i :: FirstAt(data, name, i) && i + 1 < |data|
  }

  /** A lookup succeeds exactly when the name occurs and its first occurrence is
      not the last cell. */
  lemma StatusAfterSucceedsIff(data: seq<string>, name: string)
    ensures StatusAfter(data, name).Success? <==> HasValue(data, name)
  {
    StatusAfterSpec(data, name);
  }

  lemma StatusAfterSucceedsIffAll(data: seq<string>, names: seq<string>)
    ensures forall k :: 0 <= k < |names| ==>
      (StatusAfter(data, names[k]).Success? <==> HasValue(data, names[k]))
  {
    forall k | 0 <= k < |names|
      ensures StatusAfter(data, names[k]).Success? <==> HasValue(data, names[k])
    {
      StatusAfterSucceedsIff(data, names[k]);
    }
  }

  lemma DetectorsDistinct()
    ensures Distinct(Detectors)
  {
  }

  /** The lookups of `parse_status_page` on the cleaned cell list. */
  function ReadDetectors(data: seq<string>): Result<Snapshot, ParseError> {
    Extract(data, Detectors)
  }

  /** The lookups succeed exactly when every tracked detector's name is present with
      some cell after its first occurrence, and the snapshot then holds exactly the
      tracked detectors, in list order. Otherwise they fail for the first detector,
      in list order, that is absent or last. */
  lemma ReadDetectorsSpec(data: seq<string>)
    ensures ReadDetectors(data).Success? <==>
      forall k :: 0 <= k < |Detectors| ==> HasValue(data, Detectors[k])
    ensures ReadDetectors(data).Success? ==> Names(ReadDetectors(data).value) == Detectors
    ensures ReadDetectors(data).Failure? ==>
      exists k :: FirstFailure(data, Detectors, k, ReadDetectors(data).error)
  {
    ExtractSucceedsIff(data, Detectors);
    StatusAfterSucceedsIffAll(data, Detectors);
    if ReadDetectors(data).Success? {
      DetectorsDistinct();
      ExtractNames(data, Detectors);
    } else {
      ExtractFailsAtFirst(data, Detectors);
    }
  }

  /** Each detector's status is the cell right after the first occurrence of its
      name. */
  lemma ReadDetectorsValues(data: seq<string>)
    requires ReadDetectors(data).Success?
    ensures forall k, i :: 0 <= k < |Detectors| && FirstAt(data, Detectors[k], i) ==>
      i + 1 < |data| && Get(ReadDetectors(data).value, Detectors[k]) == Some(data[i + 1])
  {
    ReadDetectorsSpec(data);
    ExtractValues(data, Detectors);
    forall k, i | 0 <= k < |Detectors| && FirstAt(data, Detectors[k], i)
      ensures i + 1 < |data| && Get(ReadDetectors(data).value, Detectors[k]) == Some(data[i + 1])
    {
      assert HasValue(data, Detectors[k]);
      var j :| FirstAt(data, Detectors[k], j) && j + 1 < |data|;
      FirstAtUnique(data, Detectors[k], i, j);
      StatusAfterSpec(data, Detectors[k]);
    }
  }

  /** `parse_status_page`, from the texts of the page's table cells. */
  function ParseStatusPage(cells: seq<string>): Result<Snapshot, ParseError> {
    ReadDetectors(Clean(cells))
  }

  /** A parsed page has exactly the tracked detectors as keys. */
  lemma ParsedNames(cells: seq<string>)
    requires ParseStatusPage(cells).Success?
    ensures Names(ParseStatusPage(cells).value) == Detectors
  {
    ReadDetectorsSpec(Clean(cells));
  }
}
