/** The dashboard script from the loaded tables to the five figures it
    draws: the reviewed count, the present and the explicitly missing
    findings, the devices and the artifacts. Each label column is
    overwritten step by step, as the script does, and then tallied. */
module Dashboard {
  import opened Text
  import opened Rows
  import opened StopWords
  import opened Tally
  import opened Reports
  import opened Devices

  // ---------------------------------------------------------------------
  // Findings

  /** The findings table once its label column is normalised. */
  function NormalisedFindings(rows: seq<FindingRow>): seq<FindingRow> {
    seq(|rows|, i requires 0 <= i < |rows| => rows[i].(finding := Normalise(FindingStopWords, rows[i].finding)))
  }

  /** The findings after line 68 (`str.lower`) and line 70 (the stop-word
      lambda). */
  method NormaliseFindings(rows: seq<FindingRow>) returns (out: seq<FindingRow>)
    ensures |out| == |rows|
    ensures forall i :: 0 <= i < |rows| ==>
              out[i] == rows[i].(finding := Normalise(FindingStopWords, rows[i].finding))
  {
    out := seq(|rows|, i requires 0 <= i < |rows| => rows[i].(finding := Lower(rows[i].finding)));
    out := seq(|out|, i requires 0 <= i < |out| => out[i].(finding := StripStopWords(FindingStopWords, out[i].finding)));
  }

  /** `findings_df[findings_df["is_present"] == flag]["finding"]`: the labels
      of the rows carrying `flag`, in row order. */
  function FindingsFlagged(rows: seq<FindingRow>, flag: int): (labels: seq<string>)
    ensures |labels| <= |rows|
  {
    if rows == [] then []
    else (if rows[0].isPresent == flag then [rows[0].finding] else []) + FindingsFlagged(rows[1..], flag)
  }

  /** The labels of all rows. */
  function FindingLabels(rows: seq<FindingRow>): seq<string> {
    seq(|rows|, i requires 0 <= i < |rows| => rows[i].finding)
  }

  /** The rows flagged present and the rows flagged missing are disjoint
      parts of the table: together they hold each label at most as often as
      the table does, and exactly as often if and only if every flag is 0 or
      1. */
  lemma PresenceSplit(rows: seq<FindingRow>)
    ensures multiset(FindingsFlagged(rows, 1)) + multiset(FindingsFlagged(rows, 0))
            <= multiset(FindingLabels(rows))
    ensures (forall i :: 0 <= i < |rows| ==> rows[i].isPresent in {0, 1}) <==>
            multiset(FindingsFlagged(rows, 1)) + multiset(FindingsFlagged(rows, 0))
            == multiset(FindingLabels(rows))
  {
    PresenceIncluded(rows);
    if forall i :: 0 <= i < |rows| ==> rows[i].isPresent in {0, 1} {
      PresenceExact(rows);
    } else {
      FlagCounts(rows);
      assert |multiset(FindingsFlagged(rows, 1)) + multiset(FindingsFlagged(rows, 0))|
             < |multiset(FindingLabels(rows))|;
    }
  }

  lemma {:induction false} PresenceIncluded(rows: seq<FindingRow>)
    ensures multiset(FindingsFlagged(rows, 1)) + multiset(FindingsFlagged(rows, 0))
            <= multiset(FindingLabels(rows))
  {
    if rows != [] {
      PresenceIncluded(rows[1..]);
      PresenceStep(rows);
    }
  }

  lemma {:induction false} PresenceExact(rows: seq<FindingRow>)
    requires forall i :: 0 <= i < |rows| ==> rows[i].isPresent in {0, 1}
    ensures multiset(FindingsFlagged(rows, 1)) + multiset(FindingsFlagged(rows, 0))
            == multiset(FindingLabels(rows))
  {
    if rows != [] {
      var rest := rows[1..];
      assert forall i :: 0 <= i < |rest| ==> rest[i].isPresent == rows[i + 1].isPresent;
      PresenceExact(rest);
      PresenceStep(rows);
      assert rows[0].isPresent in {0, 1};
    }
  }

  /** One row of `PresenceSplit`: the first row adds its label to the
      selection under its flag and to the whole column. */
  lemma PresenceStep(rows: seq<FindingRow>)
    requires rows != []
    ensures multiset(FindingsFlagged(rows, 1)) + multiset(FindingsFlagged(rows, 0))
            == (if rows[0].isPresent in {0, 1} then multiset{rows[0].finding} else multiset{})
               + multiset(FindingsFlagged(rows[1..], 1)) + multiset(FindingsFlagged(rows[1..], 0))
    ensures multiset(FindingLabels(rows)) == multiset{rows[0].finding} + multiset(FindingLabels(rows[1..]))
  {
    assert FindingLabels(rows) == [rows[0].finding] + FindingLabels(rows[1..]);
  }

  /** Counting rows: the rows flagged present and the rows flagged missing
      are at most all rows, and all of them if and only if every flag is 0
      or 1. */
  lemma {:induction false} FlagCounts(rows: seq<FindingRow>)
    ensures |FindingsFlagged(rows, 1)| + |FindingsFlagged(rows, 0)| <= |rows|
    ensures (forall i :: 0 <= i < |rows| ==> rows[i].isPresent in {0, 1}) <==>
            |FindingsFlagged(rows, 1)| + |FindingsFlagged(rows, 0)| == |rows|
  {
    if rows != [] {
      var rest := rows[1..];
      FlagCounts(rest);
      assert (forall i :: 0 <= i < |rows| ==> rows[i].isPresent in {0, 1}) <==>
             rows[0].isPresent in {0, 1} && forall i :: 0 <= i < |rest| ==> rest[i].isPresent in {0, 1} by {
        assert forall i :: 0 <= i < |rest| ==> rest[i] == rows[i + 1];
        if forall i :: 0 <= i < |rest| ==> rest[i].isPresent in {0, 1} {
          forall i | 1 <= i < |rows| ensures rows[i].isPresent in {0, 1} {
            assert rows[i] == rest[i - 1];
          }
        }
      }
    }
  }

  /** The selection works row by row: selecting from two tables in turn
      gives the two selections in row order. */
  lemma {:induction false} FlaggedAppend(a: seq<FindingRow>, b: seq<FindingRow>, flag: int)
    ensures FindingsFlagged(a + b, flag) == FindingsFlagged(a, flag) + FindingsFlagged(b, flag)
  {
    if a != [] {
      assert (a + b)[1..] == a[1..] + b;
      FlaggedAppend(a[1..], b, flag);
    } else {
      assert a + b == b;
    }
  }

  /** A single row is selected exactly when it carries the flag. */
  lemma FlaggedSingle(row: FindingRow, flag: int)
    ensures FindingsFlagged([row], flag) == if row.isPresent == flag then [row.finding] else []
  {
    assert [row][1..] == [];
  }

  /** Normalising the labels keeps the flags, so it selects as many rows
      under each flag as before. */
  lemma {:induction false} FlaggedLength(a: seq<FindingRow>, b: seq<FindingRow>, flag: int)
    requires |a| == |b|
    requires forall i :: 0 <= i < |a| ==> a[i].isPresent == b[i].isPresent
    ensures |FindingsFlagged(a, flag)| == |FindingsFlagged(b, flag)|
  {
    if a != [] {
      FlaggedLength(a[1..], b[1..], flag);
    }
  }

  lemma {:induction false} FlaggedMembers(rows: seq<FindingRow>, flag: int)
    ensures forall k :: k in FindingsFlagged(rows, flag) <==>
              exists i :: 0 <= i < |rows| && rows[i].isPresent == flag && rows[i].finding == k
  {
    if rows != [] {
      FlaggedMembers(rows[1..], flag);
      forall k ensures k in FindingsFlagged(rows, flag) <==>
                 exists i :: 0 <= i < |rows| && rows[i].isPresent == flag && rows[i].finding == k
      {
        if exists i :: 0 <= i < |rows| && rows[i].isPresent == flag && rows[i].finding == k {
          var i :| 0 <= i < |rows| && rows[i].isPresent == flag && rows[i].finding == k;
          if i > 0 {
            assert rows[1..][i - 1] == rows[i];
          }
        }
        if exists i :: 0 <= i < |rows[1..]| && rows[1..][i].isPresent == flag && rows[1..][i].finding == k {
          var i :| 0 <= i < |rows[1..]| && rows[1..][i].isPresent == flag && rows[1..][i].finding == k;
          assert rows[i + 1] == rows[1..][i];
        }
      }
    }
  }

  /** The tally under a flag counts every row carrying that flag once. */
  lemma FlaggedTotal(findings: seq<FindingRow>, flag: int)
    ensures Total(ValueCounts(FindingsFlagged(NormalisedFindings(findings), flag)))
            == |FindingsFlagged(findings, flag)|
  {
    ValueCountsTotal(FindingsFlagged(NormalisedFindings(findings), flag));
    FlaggedLength(NormalisedFindings(findings), findings, flag);
  }

  /** The tally under a flag has as keys exactly the normalised labels of
      the rows carrying that flag. */
  lemma FlaggedKeys(findings: seq<FindingRow>, flag: int)
    ensures forall k :: k in ValueCounts(FindingsFlagged(NormalisedFindings(findings), flag)) <==>
              exists i :: 0 <= i < |findings| && findings[i].isPresent == flag
                          && Normalise(FindingStopWords, findings[i].finding) == k
  {
    var fs := NormalisedFindings(findings);
    FlaggedMembers(fs, flag);
    forall k | k in ValueCounts(FindingsFlagged(fs, flag))
      ensures exists i :: 0 <= i < |findings| && findings[i].isPresent == flag
                          && Normalise(FindingStopWords, findings[i].finding) == k
    {
      var i :| 0 <= i < |fs| && fs[i].isPresent == flag && fs[i].finding == k;
      assert findings[i].isPresent == flag && Normalise(FindingStopWords, findings[i].finding) == k;
    }
    forall k | exists i :: 0 <= i < |findings| && findings[i].isPresent == flag
                           && Normalise(FindingStopWords, findings[i].finding) == k
      ensures k in ValueCounts(FindingsFlagged(fs, flag))
    {
      var i :| 0 <= i < |findings| && findings[i].isPresent == flag
               && Normalise(FindingStopWords, findings[i].finding) == k;
      assert fs[i].isPresent == flag && fs[i].finding == k;
    }
  }

  // ---------------------------------------------------------------------
  // Devices

  /** The devices table after lines 82-103: the split rows, each with its
      label rewritten, lower-cased and stripped of the devices stop words. */
  function DeviceRows(rows: seq<CatheterRow>): seq<DeviceRow> {
    var split := SplitCompound(Rename(rows));
    seq(|split|, i requires 0 <= i < |split| => split[i].(device := DeviceLabel(split[i].device)))
  }

  /** Lines 82-103: rename, split compound labels, apply the synonym
      rewrites, lower-case and drop the devices stop words. A table with no
      rows gives `pd.DataFrame([])`, a frame without a `device` column, and
      the rewrite at line 96 fails on it; splitting never empties a table
      that has rows, so that is the only failure. */
  method PrepareDevices(rows: seq<CatheterRow>) returns (r: Result<seq<DeviceRow>>)
    ensures r.Failure? <==> rows == []
    ensures r.Failure? ==> r.error == NoDeviceColumn
    ensures r.Success? ==> r.value == DeviceRows(rows)
  {
    var devices := Rename(rows);
    var out := SplitCompoundRows(devices);
    SplitCompoundLength(devices);
    if out == [] {
      return Failure(NoDeviceColumn);
    }
    out := seq(|out|, i requires 0 <= i < |out| => out[i].(device := ReplaceAll(out[i].device, "enteric", "enteric tube")));
    out := seq(|out|, i requires 0 <= i < |out| => out[i].(device := ReplaceAll(out[i].device, "endotracheal tubes", "endotracheal tube")));
    out := seq(|out|, i requires 0 <= i < |out| => out[i].(device := Lower(out[i].device)));
    out := seq(|out|, i requires 0 <= i < |out| => out[i].(device := StripStopWords(DeviceStopWords, out[i].device)));
    r := Success(out);
  }

  function DeviceLabels(rows: seq<DeviceRow>): seq<string> {
    seq(|rows|, i requires 0 <= i < |rows| => rows[i].device)
  }

  /** The devices tally counts one device per catheter row plus one more
      per `' and '` split off: exactly the rows of the split table. */
  lemma DeviceTally(catheters: seq<CatheterRow>)
    ensures Total(ValueCounts(DeviceLabels(DeviceRows(catheters))))
            == |catheters| + Connectives(Rename(catheters))
  {
    ValueCountsTotal(DeviceLabels(DeviceRows(catheters)));
    SplitCompoundLength(Rename(catheters));
  }

  // ---------------------------------------------------------------------
  // Artifacts

  /** The artifacts table once its label column is normalised. */
  function NormalisedArtifacts(rows: seq<ArtifactRow>): seq<ArtifactRow> {
    seq(|rows|, i requires 0 <= i < |rows| => rows[i].(artifact := Normalise(ArtifactStopWords, rows[i].artifact)))
  }

  /** Lines 108-110: lower-case the artifacts and drop their stop words. */
  method NormaliseArtifacts(rows: seq<ArtifactRow>) returns (out: seq<ArtifactRow>)
    ensures |out| == |rows|
    ensures forall i :: 0 <= i < |rows| ==>
              out[i] == rows[i].(artifact := Normalise(ArtifactStopWords, rows[i].artifact))
  {
    out := seq(|rows|, i requires 0 <= i < |rows| => rows[i].(artifact := Lower(rows[i].artifact)));
    out := seq(|out|, i requires 0 <= i < |out| => out[i].(artifact := StripStopWords(ArtifactStopWords, out[i].artifact)));
  }

  function ArtifactLabels(rows: seq<ArtifactRow>): seq<string> {
    seq(|rows|, i requires 0 <= i < |rows| => rows[i].artifact)
  }

  /** The artifacts tally counts every artifact row once, under its
      normalised label. */
  lemma ArtifactTally(artifacts: seq<ArtifactRow>)
    ensures Total(ValueCounts(ArtifactLabels(NormalisedArtifacts(artifacts)))) == |artifacts|
    ensures forall k :: k in ValueCounts(ArtifactLabels(NormalisedArtifacts(artifacts))) <==>
              exists i :: 0 <= i < |artifacts| && Normalise(ArtifactStopWords, artifacts[i].artifact) == k
  {
    var labels := ArtifactLabels(NormalisedArtifacts(artifacts));
    ValueCountsTotal(labels);
    forall k | k in ValueCounts(labels)
      ensures exists i :: 0 <= i < |artifacts| && Normalise(ArtifactStopWords, artifacts[i].artifact) == k
    {
      var i :| 0 <= i < |labels| && labels[i] == k;
      assert Normalise(ArtifactStopWords, artifacts[i].artifact) == k;
    }
    forall k | exists i :: 0 <= i < |artifacts| && Normalise(ArtifactStopWords, artifacts[i].artifact) == k
      ensures k in ValueCounts(labels)
    {
      var i :| 0 <= i < |artifacts| && Normalise(ArtifactStopWords, artifacts[i].artifact) == k;
      assert labels[i] == k;
    }
  }

  // ---------------------------------------------------------------------
  // The whole script

  /** The figures of the dashboard. `progress` is the number the progress
      text shows; `reviewed` is the number of reviewed reports it stands
      for. */
  datatype Figures = Figures(
    reviewed: nat,
    progress: nat,
    presentFindings: map<string, nat>,
    missingFindings: map<string, nat>,
    devices: map<string, nat>,
    artifacts: map<string, nat>)

  /** `get_data()` followed by the script's computations, the three
      annotation tables given as read. The script stops when the reports
      cannot be merged, and again when the devices table has no rows.
      Otherwise each figure is the tally of its normalised table: the
      present and missing tallies count the rows flagged 1 and 0, the
      devices tally one device per row plus one per connective split off,
      the artifacts tally every artifact row. */
  method Aggregate(listing: seq<string>, store: map<string, seq<Report>>,
                   findings: seq<FindingRow>, artifacts: seq<ArtifactRow>, catheters: seq<CatheterRow>)
    returns (r: Result<Figures>)
    ensures MergedReports(listing, store).Failure? ==> r == Failure(MergedReports(listing, store).error)
    ensures MergedReports(listing, store).Success? && catheters == [] ==> r == Failure(NoDeviceColumn)
    ensures r.Success? <==> MergedReports(listing, store).Success? && catheters != []
    ensures r.Success? ==>
              var reports := MergedReports(listing, store).value;
              var fs := NormalisedFindings(findings);
              && r.value.reviewed == ReviewedCount(reports)
              && r.value.progress == DisplayedProgress(reports)
              && r.value.presentFindings == ValueCounts(FindingsFlagged(fs, 1))
              && r.value.missingFindings == ValueCounts(FindingsFlagged(fs, 0))
              && r.value.devices == ValueCounts(DeviceLabels(DeviceRows(catheters)))
              && r.value.artifacts == ValueCounts(ArtifactLabels(NormalisedArtifacts(artifacts)))
    ensures r.Success? ==>
              && Total(r.value.presentFindings) == |FindingsFlagged(findings, 1)|
              && Total(r.value.missingFindings) == |FindingsFlagged(findings, 0)|
              && Total(r.value.presentFindings) + Total(r.value.missingFindings) <= |findings|
              && Total(r.value.devices) == |catheters| + Connectives(Rename(catheters))
              && Total(r.value.artifacts) == |artifacts|
    ensures r.Success? ==>
              && (forall k :: k in r.value.presentFindings <==>
                    exists i :: 0 <= i < |findings| && findings[i].isPresent == 1
                                && Normalise(FindingStopWords, findings[i].finding) == k)
              && (forall k :: k in r.value.missingFindings <==>
                    exists i :: 0 <= i < |findings| && findings[i].isPresent == 0
                                && Normalise(FindingStopWords, findings[i].finding) == k)
              && (forall k :: k in r.value.artifacts <==>
                    exists i :: 0 <= i < |artifacts| && Normalise(ArtifactStopWords, artifacts[i].artifact) == k)
  {
    var reports := LoadReports(listing, store);
    if reports.Failure? {
      return Failure(reports.error);
    }
    var merged := reports.value;
    var reviewed := ReviewedCount(merged);
    var progress := DisplayedProgress(merged);

    var fs := NormaliseFindings(findings);
    assert fs == NormalisedFindings(findings);
    var present := ValueCounts(FindingsFlagged(fs, 1));
    var missing := ValueCounts(FindingsFlagged(fs, 0));

    var ds := PrepareDevices(catheters);
    if ds.Failure? {
      return Failure(ds.error);
    }
    var devices := ValueCounts(DeviceLabels(ds.value));

    var ars := NormaliseArtifacts(artifacts);
    assert ars == NormalisedArtifacts(artifacts);
    var arts := ValueCounts(ArtifactLabels(ars));

    r := Success(Figures(reviewed, progress, present, missing, devices, arts));
    FlaggedTotal(findings, 1);
    FlaggedTotal(findings, 0);
    FlagCounts(findings);
    FlaggedKeys(findings, 1);
    FlaggedKeys(findings, 0);
    DeviceTally(catheters);
    ArtifactTally(artifacts);
  }
}
