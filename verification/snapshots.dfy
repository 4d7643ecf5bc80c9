/** A status snapshot: the Python `dict` from detector name to status string that
    `parse_status_page` builds. A Python dict remembers the order in which its keys
    were first inserted, and iterating it follows that order, so the model keeps the
    entries in a sequence whose names are distinct. */
module Snapshots {
  import opened Wrappers
  import opened Seqs

  datatype Entry = Entry(name: string, status: string)

  function NamesOf(es: seq<Entry>): (ns: seq<string>)
    ensures |ns| == |es|
    ensures forall k :: 0 <= k < |es| ==> ns[k] == es[k].name
  {
    seq(|es|, k requires 0 <= k < |es| => es[k].name)
  }

  /** A dict never holds a key twice. */
  type Snapshot = es: seq<Entry> | Distinct(NamesOf(es)) witness []

  /** The keys in iteration order (Python `list(d)`). */
  function Names(s: Snapshot): seq<string> {
    NamesOf(s)
  }

  /** Python `d[name]`, with `None` where Python raises `KeyError`. */
  function Get(s: Snapshot, name: string): (r: Option<string>)
    ensures r.None? <==> name !in Names(s)
    ensures forall k :: 0 <= k < |s| && s[k].name == name ==> r == Some(s[k].status)
  {
    match IndexOf(Names(s), name)
    case None => None
    case Some(i) => Some(s[i].status)
  }

  /** Python `d[name] = status`. */
  function Insert(s: Snapshot, name: string, status: string): Snapshot {
    match IndexOf(Names(s), name)
    case Some(i) =>
      var r := s[i := Entry(name, status)];
      assert NamesOf(r) == NamesOf(s);
      r
    case None =>
      var r := s + [Entry(name, status)];
      assert NamesOf(r) == NamesOf(s) + [name];
      r
  }

  /** Assignment binds `name` to `status` and leaves every other key alone; an
      existing key keeps its place in the iteration order and a new key goes last. */
  lemma InsertSpec(s: Snapshot, name: string, status: string)
    ensures Get(Insert(s, name, status), name) == Some(status)
    ensures forall n :: n != name ==> Get(Insert(s, name, status), n) == Get(s, n)
    ensures name in Names(s) ==> Names(Insert(s, name, status)) == Names(s)
    ensures name !in Names(s) ==> Names(Insert(s, name, status)) == Names(s) + [name]
  {
    var r := Insert(s, name, status);
    var i := if name in Names(s) then IndexOf(Names(s), name).value else |s|;
    assert r[i] == Entry(name, status);
    assert forall k :: 0 <= k < |s| && k != i ==> r[k] == s[k];
    forall n | n != name
      ensures Get(r, n) == Get(s, n)
    {
      if n in Names(s) {
        var k :| 0 <= k < |s| && Names(s)[k] == n;
        assert r[k] == s[k];
      } else {
        assert n !in Names(r);
      }
    }
  }

}
