/** Finding the report batch files, reading and merging their `reports`
    tables, and counting the reviewed reports. The directory listing and the
    sqlite reads are inputs: `listing` is what `os.listdir` returned, and
    `store` maps each file name to the rows of its `reports` table, a name
    without an entry being a file with no such table. */
module Reports {
  import opened Text
  import opened Rows

  /** The exceptions that stop the script. */
  datatype Error =
    | NoSuchTable(file: string)   // `pd.read_sql_query` on a file without a `reports` table
    | NoObjectsToConcatenate      // `pd.concat` of an empty list
    | NoDeviceColumn              // `devices_df['device']` on the frame built from no rows

  datatype Result<T> = Success(value: T) | Failure(error: Error)

  const BatchPrefix: string := "reports_"
  const BatchSuffix: string := ".db"

  /** `f.startswith('reports_') and f.endswith('.db')`. */
  predicate IsReportBatch(name: string) {
    BatchPrefix <= name && EndsWith(name, BatchSuffix)
  }

  /** A batch file name is exactly `reports_<anything>.db`: prefix and suffix
      cannot overlap, so every selected name is at least 11 characters. */
  lemma BatchNameShape(name: string)
    ensures IsReportBatch(name) <==> exists mid :: name == BatchPrefix + mid + BatchSuffix
  {
    if IsReportBatch(name) {
      assert name[|name| - 3] == '.';
      assert forall j :: 0 <= j < 8 ==> name[j] == BatchPrefix[j] != '.';
      var mid := name[8..|name| - 3];
      assert name == BatchPrefix + mid + BatchSuffix;
    }
    if exists mid :: name == BatchPrefix + mid + BatchSuffix {
      var mid :| name == BatchPrefix + mid + BatchSuffix;
      assert name[..8] == BatchPrefix;
      assert name[|name| - 3..] == BatchSuffix;
    }
  }

  /** The list comprehension over the directory listing: the batch files,
      in listing order. */
  function SelectBatches(listing: seq<string>): (bs: seq<string>)
    ensures |bs| <= |listing|
    ensures forall n :: n in bs <==> n in listing && IsReportBatch(n)
  {
    if listing == [] then []
    else (if IsReportBatch(listing[0]) then [listing[0]] else []) + SelectBatches(listing[1..])
  }

  /** The selection keeps listing order: selecting from two listings one
      after the other is selecting from each. */
  lemma {:induction false} SelectBatchesAppend(a: seq<string>, b: seq<string>)
    ensures SelectBatches(a + b) == SelectBatches(a) + SelectBatches(b)
  {
    if a == [] {
      assert a + b == b;
    } else {
      assert (a + b)[0] == a[0];
      assert (a + b)[1..] == a[1..] + b;
      SelectBatchesAppend(a[1..], b);
    }
  }

  /** What the batch loop produces: one table per batch, in batch order, or
      the error of the first batch that has no `reports` table. */
  function ReadBatches(bs: seq<string>, store: map<string, seq<Report>>): (r: Result<seq<seq<Report>>>)
    ensures r.Success? ==> |r.value| == |bs|
    ensures r.Failure? ==> r.error.NoSuchTable?
  {
    if bs == [] then Success([])
    else
      match ReadBatches(bs[..|bs| - 1], store)
      case Failure(e) => Failure(e)
      case Success(dfs) =>
        var b := bs[|bs| - 1];
        if b in store then Success(dfs + [store[b]]) else Failure(NoSuchTable(b))
  }

  /** The batch loop succeeds exactly when every batch has a table, and then
      holds the tables in batch order; otherwise it fails on the first batch
      without one. */
  lemma {:induction false} ReadBatchesSpec(bs: seq<string>, store: map<string, seq<Report>>)
    ensures ReadBatches(bs, store).Success? <==> forall i :: 0 <= i < |bs| ==> bs[i] in store
    ensures ReadBatches(bs, store).Success? ==>
              |ReadBatches(bs, store).value| == |bs|
              && forall i :: 0 <= i < |bs| ==> ReadBatches(bs, store).value[i] == store[bs[i]]
    ensures ReadBatches(bs, store).Failure? ==>
              exists i :: 0 <= i < |bs| && ReadBatches(bs, store).error == NoSuchTable(bs[i])
                          && bs[i] !in store && forall j :: 0 <= j < i ==> bs[j] in store
  {
    if bs != [] {
      var init := bs[..|bs| - 1];
      ReadBatchesSpec(init, store);
      var n := |bs| - 1;
      assert forall i :: 0 <= i < n ==> bs[i] == init[i];
      if ReadBatches(init, store).Failure? {
        var i :| 0 <= i < |init| && ReadBatches(init, store).error == NoSuchTable(init[i])
                 && init[i] !in store && forall j :: 0 <= j < i ==> init[j] in store;
        assert bs[i] == init[i];
      } else if bs[n] !in store {
        assert ReadBatches(bs, store).error == NoSuchTable(bs[n]);
      }
    }
  }

  /** The batch loop of `get_data`: read each batch file in turn and append
      its table to `dfs`; a failed read ends the loop with that error. */
  method CollectBatches(bs: seq<string>, store: map<string, seq<Report>>) returns (r: Result<seq<seq<Report>>>)
    ensures r == ReadBatches(bs, store)
  {
    var dfs: seq<seq<Report>> := [];
    var i := 0;
    while i < |bs|
      invariant 0 <= i <= |bs|
      invariant ReadBatches(bs[..i], store) == Success(dfs)
    {
      assert bs[..i + 1][..i] == bs[..i];
      if bs[i] !in store {
        r := Failure(NoSuchTable(bs[i]));
        FailureSticks(bs, i + 1, store);
        return;
      }
      dfs := dfs + [store[bs[i]]];
      i := i + 1;
    }
    assert bs[..i] == bs;
    r := Success(dfs);
  }

  /** Once a prefix of the batches fails, the whole loop fails the same way. */
  lemma {:induction false} FailureSticks(bs: seq<string>, k: nat, store: map<string, seq<Report>>)
    requires k <= |bs|
    requires ReadBatches(bs[..k], store).Failure?
    ensures ReadBatches(bs, store) == ReadBatches(bs[..k], store)
    decreases |bs| - k
  {
    if k < |bs| {
      assert bs[..k + 1][..k] == bs[..k];
      FailureSticks(bs, k + 1, store);
    } else {
      assert bs[..k] == bs;
    }
  }

  /** The rows of all tables, one table after the other. */
  function Flatten(dfs: seq<seq<Report>>): seq<Report> {
    if dfs == [] then [] else dfs[0] + Flatten(dfs[1..])
  }

  /** The number of rows of all tables together. */
  function TotalRows(dfs: seq<seq<Report>>): nat {
    if dfs == [] then 0 else |dfs[0]| + TotalRows(dfs[1..])
  }

  /** `pd.concat(dfs, ignore_index=True)`: fails on an empty list. */
  function Concat(dfs: seq<seq<Report>>): (r: Result<seq<Report>>)
    ensures r.Success? ==> |r.value| == TotalRows(dfs)
  {
    FlattenLength(dfs);
    if dfs == [] then Failure(NoObjectsToConcatenate) else Success(Flatten(dfs))
  }

  /** The merged table has as many rows as all batches together. */
  lemma {:induction false} FlattenLength(dfs: seq<seq<Report>>)
    ensures |Flatten(dfs)| == TotalRows(dfs)
  {
    if dfs != [] {
      FlattenLength(dfs[1..]);
    }
  }

  lemma {:induction false} FlattenAppend(a: seq<seq<Report>>, b: seq<seq<Report>>)
    ensures Flatten(a + b) == Flatten(a) + Flatten(b)
  {
    if a == [] {
      assert a + b == b;
    } else {
      assert (a + b)[0] == a[0];
      assert (a + b)[1..] == a[1..] + b;
      FlattenAppend(a[1..], b);
    }
  }

  /** Row `j` of batch `i` sits at position `j` after all rows of the
      earlier batches: batch order and the order inside a batch are kept and
      the positions are renumbered contiguously. */
  lemma {:induction false} FlattenAt(dfs: seq<seq<Report>>, i: nat, j: nat)
    requires i < |dfs| && j < |dfs[i]|
    ensures TotalRows(dfs[..i]) + j < |Flatten(dfs)|
    ensures Flatten(dfs)[TotalRows(dfs[..i]) + j] == dfs[i][j]
  {
    FlattenLength(dfs[1..]);
    if i > 0 {
      FlattenAt(dfs[1..], i - 1, j);
      assert dfs[..i][1..] == dfs[1..][..i - 1];
      assert dfs[..i][0] == dfs[0];
    }
  }

  /** The merged table is the rows before batch `i`, batch `i`, and the rows
      after it. */
  lemma FlattenAround(dfs: seq<seq<Report>>, i: nat)
    requires i < |dfs|
    ensures Flatten(dfs) == Flatten(dfs[..i]) + dfs[i] + Flatten(dfs[i + 1..])
  {
    assert dfs == dfs[..i] + dfs[i..];
    FlattenAppend(dfs[..i], dfs[i..]);
    assert dfs[i..][1..] == dfs[i + 1..];
  }

  /** Nothing is deduplicated: the rows of any two different batches are all
      in the merged table, with their multiplicities. */
  lemma BatchRowsKept(dfs: seq<seq<Report>>, i: nat, k: nat)
    requires i < k < |dfs|
    ensures multiset(dfs[i]) + multiset(dfs[k]) <= multiset(Flatten(dfs))
  {
    var rest := dfs[i + 1..];
    var a, b := multiset(dfs[i]), multiset(dfs[k]);
    MultisetAround(dfs, i);
    MultisetAround(rest, k - i - 1);
    assert rest[k - i - 1] == dfs[k];
    TwoParts(multiset(Flatten(dfs[..i])), a, multiset(Flatten(rest[..k - i - 1])), b,
             multiset(Flatten(rest[k - i..])));
  }

  /** A row present in two different batches appears at least twice in the
      merged table. */
  lemma RepeatedRowKept(dfs: seq<seq<Report>>, i: nat, k: nat, x: Report)
    requires i < k < |dfs|
    requires x in dfs[i] && x in dfs[k]
    ensures multiset(Flatten(dfs))[x] >= 2
  {
    BatchRowsKept(dfs, i, k);
    assert multiset(dfs[i])[x] >= 1 && multiset(dfs[k])[x] >= 1;
  }

  lemma MultisetAround(dfs: seq<seq<Report>>, i: nat)
    requires i < |dfs|
    ensures multiset(Flatten(dfs))
            == multiset(Flatten(dfs[..i])) + multiset(dfs[i]) + multiset(Flatten(dfs[i + 1..]))
  {
    FlattenAround(dfs, i);
  }

  lemma TwoParts(p: multiset<Report>, a: multiset<Report>, q: multiset<Report>,
                 b: multiset<Report>, s: multiset<Report>)
    ensures a + b <= p + a + (q + b + s)
  {
  }

  /** What `get_data` yields as the reports frame. */
  function MergedReports(listing: seq<string>, store: map<string, seq<Report>>): Result<seq<Report>> {
    match ReadBatches(SelectBatches(listing), store)
    case Failure(e) => Failure(e)
    case Success(dfs) => Concat(dfs)
  }

  /** Lines 30-38 of `get_data`: select the batch files, read them in turn,
      concatenate the tables. */
  method LoadReports(listing: seq<string>, store: map<string, seq<Report>>) returns (r: Result<seq<Report>>)
    ensures r == MergedReports(listing, store)
  {
    var bs := SelectBatches(listing);
    var dfs := CollectBatches(bs, store);
    match dfs
    case Failure(e) =>
      r := Failure(e);
    case Success(tables) =>
      r := Concat(tables);
  }

  /** The merge fails only when a batch file has no `reports` table or when
      the listing holds no batch file at all; otherwise it holds exactly the
      rows of all batches, in listing order. */
  lemma MergedReportsSpec(listing: seq<string>, store: map<string, seq<Report>>)
    ensures var bs := SelectBatches(listing);
            MergedReports(listing, store).Success? <==>
              bs != [] && forall i :: 0 <= i < |bs| ==> bs[i] in store
    ensures var bs := SelectBatches(listing);
            MergedReports(listing, store) == Failure(NoObjectsToConcatenate) <==> bs == []
    ensures var bs := SelectBatches(listing);
            MergedReports(listing, store).Success? ==>
              var dfs := seq(|bs|, i requires 0 <= i < |bs| && bs[i] in store => store[bs[i]]);
              MergedReports(listing, store).value == Flatten(dfs)
              && |MergedReports(listing, store).value| == TotalRows(dfs)
  {
    var bs := SelectBatches(listing);
    var rb := ReadBatches(bs, store);
    ReadBatchesSpec(bs, store);
    if rb.Failure? {
      assert rb.error.NoSuchTable?;
      assert MergedReports(listing, store) == Failure(rb.error);
      assert bs != [];
    } else {
      var dfs := seq(|bs|, i requires 0 <= i < |bs| && bs[i] in store => store[bs[i]]);
      assert rb.value == dfs;
      assert MergedReports(listing, store) == Concat(dfs);
      FlattenLength(dfs);
    }
  }

  // ---------------------------------------------------------------------
  // Reviewed reports

  /** `reports_df[reports_df["is_reviewed"] == 1]`. */
  function Reviewed(reports: seq<Report>): (r: seq<Report>)
    ensures forall x :: x in r ==> x in reports && x.isReviewed == 1
  {
    if reports == [] then []
    else (if reports[0].isReviewed == 1 then [reports[0]] else []) + Reviewed(reports[1..])
  }

  /** The number of reviewed reports: the rows flagged 1, with their
      multiplicities. */
  function ReviewedCount(reports: seq<Report>): (n: nat)
    ensures n <= |reports|
  {
    ReviewedLength(reports);
    |Reviewed(reports)|
  }

  /** The filter keeps every reviewed row as often as it occurs and no other. */
  lemma {:induction false} ReviewedRows(reports: seq<Report>)
    ensures forall x :: multiset(Reviewed(reports))[x]
                        == if x.isReviewed == 1 then multiset(reports)[x] else 0
  {
    if reports != [] {
      ReviewedRows(reports[1..]);
      assert reports == [reports[0]] + reports[1..];
    }
  }

  /** The filter never adds rows, and keeps them all exactly when every row
      is reviewed. */
  lemma {:induction false} ReviewedLength(reports: seq<Report>)
    ensures |Reviewed(reports)| <= |reports|
    ensures |Reviewed(reports)| == |reports| <==> forall i :: 0 <= i < |reports| ==> reports[i].isReviewed == 1
  {
    if reports != [] {
      ReviewedLength(reports[1..]);
      if forall i :: 0 <= i < |reports| ==> reports[i].isReviewed == 1 {
        assert forall i :: 0 <= i < |reports[1..]| ==> reports[1..][i].isReviewed == 1;
      } else {
        var i :| 0 <= i < |reports| && reports[i].isReviewed != 1;
        if i > 0 {
          assert reports[1..][i - 1].isReviewed != 1;
        }
      }
    }
  }

  /** Counting the merged table is counting each batch: the reviewed count
      of a concatenation is the sum of the counts. */
  lemma {:induction false} ReviewedCountAppend(a: seq<Report>, b: seq<Report>)
    ensures ReviewedCount(a + b) == ReviewedCount(a) + ReviewedCount(b)
  {
    if a == [] {
      assert a + b == b;
    } else {
      assert (a + b)[0] == a[0];
      assert (a + b)[1..] == a[1..] + b;
      ReviewedCountAppend(a[1..], b);
    }
  }

  /** `len(annotated_reports) + 1`: the number the progress text and bar
      show, as the source computes it. */
  function DisplayedProgress(reports: seq<Report>): (n: nat)
    ensures n == ReviewedCount(reports) + 1
  {
    |Reviewed(reports)| + 1
  }

  /** The displayed number is one more than the reviewed reports: 37
      reviewed rows show as 38, and a table whose rows are all reviewed
      shows more reports than it has. */
  lemma DisplayedProgressOffByOne(reports: seq<Report>)
    requires forall i :: 0 <= i < |reports| ==> reports[i].isReviewed == 1
    ensures DisplayedProgress(reports) == |reports| + 1
  {
    ReviewedLength(reports);
  }
}
