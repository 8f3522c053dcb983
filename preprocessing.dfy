/**
 * The flow of `preprocess_data` and `main` in src/data/data_preprocessing.py:
 * both tables get a `Policy Age` column, only the train table is filtered, and
 * both are handed to the writer. Files, directories and the clock are outside:
 * the loaded rows, "today" and the train quartiles are parameters, and the
 * result is what would be written.
 */
module Preprocessing {
  import opened Wrappers
  import opened PolicyAge
  import opened Tables
  import opened OutlierRemoval

  /** Every `Policy Start Date` matches the timestamp format, so `apply(age)` does not raise. */
  predicate AllParsed(s: seq<Entry>) {
    forall i :: 0 <= i < |s| ==> s[i].record.policyStart.Parsed?
  }

  /** One row with its `Policy Age` cell set from its start date. */
  function WithAge(e: Entry, today: Date): Entry
    requires e.record.policyStart.Parsed?
  {
    e.(record := e.record.(policyAge := Some(Age(e.record.policyStart.date, today))))
  }

  /** `df['Policy Age'] = df['Policy Start Date'].apply(age)` on a table whose dates all parse. */
  function WithAgeColumn(s: seq<Entry>, today: Date): (r: seq<Entry>)
    requires AllParsed(s)
    ensures |r| == |s|
    ensures forall i :: 0 <= i < |s| ==> r[i].rowLabel == s[i].rowLabel
    ensures forall i :: 0 <= i < |s| ==>
              r[i].record.policyAge == Some(Age(s[i].record.policyStart.date, today)) &&
              r[i].record.policyStart == s[i].record.policyStart &&
              r[i].record.premium == s[i].record.premium &&
              r[i].record.otherCells == s[i].record.otherCells
  {
    seq(|s|, i requires 0 <= i < |s| => WithAge(s[i], today))
  }

  /** Adding the column keeps the default index. */
  lemma WithAgeColumnRangeLabeled(s: seq<Entry>, today: Date)
    requires AllParsed(s) && RangeLabeled(s)
    ensures RangeLabeled(WithAgeColumn(s, today))
  {
  }

  /**
   * Lines 88-89: computes every row's age, then assigns the column. A malformed
   * date raises before the assignment, so the table is then left as it was.
   */
  method AddPolicyAge(df: Table, today: Date) returns (ok: bool)
    modifies df
    ensures ok <==> AllParsed(old(df.entries))
    ensures ok ==> df.entries == WithAgeColumn(old(df.entries), today)
    ensures !ok ==> df.entries == old(df.entries)
  {
    var column: seq<Entry> := [];
    var i := 0;
    while i < |df.entries|
      invariant 0 <= i <= |df.entries|
      invariant AllParsed(df.entries[..i])
      invariant |column| == i
      invariant forall j :: 0 <= j < i ==> column[j] == WithAge(df.entries[j], today)
    {
      if df.entries[i].record.policyStart.Malformed? {
        return false;
      }
      column := column + [WithAge(df.entries[i], today)];
      i := i + 1;
    }
    assert df.entries[..i] == df.entries;
    df.entries := column;
    ok := true;
  }

  /**
   * `preprocess_data(df)`: runs the outlier filter. The filter catches its own
   * errors, so the re-raise never happens and the (filtered) table is returned.
   */
  method PreprocessData(df: Table, q1: real, q3: real) returns (r: Table)
    modifies df
    ensures r == df
    ensures old(RangeLabeled(df.entries)) ==> df.entries == KeepWithin(old(df.entries), IqrBounds(q1, q3))
    ensures var s, b := old(df.entries), IqrBounds(q1, q3);
            df.entries == (if exists t :: t in OutlierTargets(s, b) && !HasLabel(s, t) then s else Without(s, OutlierTargets(s, b)))
  {
    var logged;
    r, logged := RemoveOutliers(df, q1, q3);
  }

  /** The two tables `save_data` writes, without their index labels. */
  datatype Output = Output(train: seq<Record>, test: seq<Record>)

  /**
   * `main()`: loads both tables, adds `Policy Age` to train then test, filters
   * train with the quartiles `q1` and `q3` of its premiums, and returns what is
   * saved. A malformed date aborts the run before anything is saved. `train` is
   * rebound to the returned object, which is the loaded one filtered in place.
   */
  method Run(trainCsv: seq<Record>, testCsv: seq<Record>, today: Date, q1: real, q3: real)
    returns (saved: Option<Output>)
    ensures saved.Some? <==> AllParsed(Labeled(trainCsv)) && AllParsed(Labeled(testCsv))
    ensures saved.Some? ==>
              saved.value.test == Records(WithAgeColumn(Labeled(testCsv), today)) &&
              saved.value.train == Records(KeepWithin(WithAgeColumn(Labeled(trainCsv), today), IqrBounds(q1, q3)))
  {
    var trainData := new Table.Load(trainCsv);
    var testData := new Table.Load(testCsv);
    var trainOk := AddPolicyAge(trainData, today);
    if !trainOk {
      return None;
    }
    var testOk := AddPolicyAge(testData, today);
    if !testOk {
      return None;
    }
    WithAgeColumnRangeLabeled(Labeled(trainCsv), today);
    trainData := PreprocessData(trainData, q1, q3);
    saved := Some(Output(Records(trainData.entries), Records(testData.entries)));
  }

  /** The test table is written with exactly its loaded rows, each gaining only its age. */
  lemma TestTableKeepsItsRows(testCsv: seq<Record>, today: Date)
    requires AllParsed(Labeled(testCsv))
    ensures |Records(WithAgeColumn(Labeled(testCsv), today))| == |testCsv|
    ensures forall i :: 0 <= i < |testCsv| ==>
              Records(WithAgeColumn(Labeled(testCsv), today))[i] ==
                testCsv[i].(policyAge := Some(Age(testCsv[i].policyStart.date, today)))
  {
  }
}
