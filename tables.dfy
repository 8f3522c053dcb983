/**
 * The pandas tables of src/data/data_preprocessing.py: ordered rows, each with
 * an index label, and the one in-place mutation the filter uses,
 * `DataFrame.drop(index=..., inplace=True)`.
 */
module Tables {
  import opened Wrappers
  import opened PolicyAge

  /** A `Premium Amount` cell: a number, or NaN for a missing value. */
  datatype Premium = Amount(value: real) | Missing

  /** A `Policy Start Date` cell: text the timestamp format accepts, or text it rejects. */
  datatype Timestamp = Parsed(date: Date) | Malformed(text: string)

  /** One row: the two columns the script reads, the column it adds, and every other column as text. */
  datatype Record = Record(policyStart: Timestamp, premium: Premium, policyAge: Option<int>, otherCells: seq<string>)

  /** A row together with its index label. */
  datatype Entry = Entry(rowLabel: int, record: Record)

  /** The labels are 0, 1, ..., n-1 in row order: the default index `read_csv` builds. */
  predicate RangeLabeled(s: seq<Entry>) {
    forall i :: 0 <= i < |s| ==> s[i].rowLabel == i
  }

  /** Some row carries label `t`. */
  predicate HasLabel(s: seq<Entry>, t: int) {
    exists j :: 0 <= j < |s| && s[j].rowLabel == t
  }

  /** The rows of a freshly loaded table, labelled by position. */
  function Labeled(rows: seq<Record>): (s: seq<Entry>)
    ensures |s| == |rows| && RangeLabeled(s)
    ensures forall i :: 0 <= i < |s| ==> s[i].record == rows[i]
  {
    seq(|rows|, i requires 0 <= i < |rows| => Entry(i, rows[i]))
  }

  /** What `to_csv(index=False)` writes: the rows in order, without their labels. */
  function Records(s: seq<Entry>): (rows: seq<Record>)
    ensures |rows| == |s|
    ensures forall i :: 0 <= i < |s| ==> rows[i] == s[i].record
  {
    seq(|s|, i requires 0 <= i < |s| => s[i].record)
  }

  /** The rows whose label is not targeted, in their original order. */
  function Without(s: seq<Entry>, targets: seq<int>): seq<Entry>
  {
    if s == [] then []
    else
      var last := s[|s| - 1];
      Without(s[..|s| - 1], targets) + (if last.rowLabel in targets then [] else [last])
  }

  /** A row survives `Without` exactly when it was there and its label is not targeted. */
  lemma {:induction false} WithoutMembership(s: seq<Entry>, targets: seq<int>, e: Entry)
    ensures e in Without(s, targets) <==> e in s && e.rowLabel !in targets
  {
    if s != [] {
      var init := s[..|s| - 1];
      WithoutMembership(init, targets, e);
      assert s == init + [s[|s| - 1]];
    }
  }

  /** A pandas DataFrame: its rows with their labels, updated in place. */
  class Table {
    var entries: seq<Entry>

    /** `pd.read_csv`: the parsed rows under the default 0..n-1 index. */
    constructor Load(rows: seq<Record>)
      ensures entries == Labeled(rows)
    {
      entries := Labeled(rows);
    }

    /**
     * `drop(index=targets, inplace=True)`: refuses (KeyError) and leaves the table
     * alone when some target is not a label; otherwise removes every row whose
     * label is targeted. The labels of the survivors are kept.
     */
    method Drop(targets: seq<int>) returns (found: bool)
      modifies this
      ensures found <==> forall t :: t in targets ==> HasLabel(old(entries), t)
      ensures entries == if found then Without(old(entries), targets) else old(entries)
    {
      found := forall t :: t in targets ==> HasLabel(entries, t);
      if !found {
        return;
      }
      var kept: seq<Entry> := [];
      var i := 0;
      while i < |entries|
        invariant 0 <= i <= |entries|
        invariant kept == Without(entries[..i], targets)
      {
        assert entries[..i + 1][..i] == entries[..i];
        if entries[i].rowLabel !in targets {
          kept := kept + [entries[i]];
        }
        i := i + 1;
      }
      assert entries[..i] == entries;
      entries := kept;
    }
  }
}
