/** Pre-processing of the medical-devices table before its stop words are
    removed: the `catheter` column is renamed `device`, every row whose label
    contains `' and '` is expanded into one row per piece, and two literal
    synonym rewrites are applied to the label column. */
module Devices {
  import opened Text
  import opened Rows
  import opened StopWords

  const Connective: string := " and "

  /** `devices_df.rename(columns={"catheter": "device"})`. */
  function Rename(rows: seq<CatheterRow>): (ds: seq<DeviceRow>)
    ensures |ds| == |rows|
    ensures forall i :: 0 <= i < |rows| ==>
              ds[i].device == rows[i].catheter && ds[i].others == rows[i].others
  {
    seq(|rows|, i requires 0 <= i < |rows| => DeviceRow(rows[i].catheter, rows[i].others))
  }

  /** The rows that replace `row` in the split loop: one copy of `row` per
      piece of `row.device.split(' and ')`, each holding its piece stripped,
      or `row` itself, untouched, when the label has no `' and '`. */
  function Expand(row: DeviceRow): seq<DeviceRow> {
    if Contains(row.device, Connective) then CopiesWith(row, SplitOn(row.device, Connective))
    else [row]
  }

  /** One copy of `row` per piece, holding that piece stripped. */
  function CopiesWith(row: DeviceRow, pieces: seq<string>): seq<DeviceRow> {
    if pieces == [] then []
    else CopiesWith(row, pieces[..|pieces| - 1]) + [row.(device := Strip(pieces[|pieces| - 1]))]
  }

  lemma {:induction false} CopiesWithSpec(row: DeviceRow, pieces: seq<string>)
    ensures |CopiesWith(row, pieces)| == |pieces|
    ensures forall k :: 0 <= k < |pieces| ==> CopiesWith(row, pieces)[k] == row.(device := Strip(pieces[k]))
  {
    if pieces != [] {
      CopiesWithSpec(row, pieces[..|pieces| - 1]);
    }
  }

  /** A label with k occurrences of `' and '` yields k + 1 rows, each a copy
      of the original but for its label; a label without one yields the row
      unchanged, its label not even stripped. */
  lemma ExpandSpec(row: DeviceRow)
    ensures |Expand(row)| == Count(row.device, Connective) + 1
    ensures forall k :: 0 <= k < |Expand(row)| ==> Expand(row)[k].others == row.others
    ensures Contains(row.device, Connective) ==>
              forall k :: 0 <= k < |Expand(row)| ==>
                Expand(row)[k].device == Strip(SplitOn(row.device, Connective)[k])
    ensures !Contains(row.device, Connective) ==> Expand(row) == [row]
  {
    ContainsIffCount(row.device, Connective);
    CopiesWithSpec(row, SplitOn(row.device, Connective));
  }

  /** The frame built by the split loop: the expansions of the rows, in row
      order. */
  function SplitCompound(rows: seq<DeviceRow>): seq<DeviceRow> {
    if rows == [] then [] else SplitCompound(rows[..|rows| - 1]) + Expand(rows[|rows| - 1])
  }

  /** The total number of `' and '` connectives in the labels. */
  function Connectives(rows: seq<DeviceRow>): nat {
    if rows == [] then 0 else Connectives(rows[..|rows| - 1]) + Count(rows[|rows| - 1].device, Connective)
  }

  /** Splitting adds one row per connective, so it never loses a row, and it
      adds rows exactly when some label holds `' and '`. */
  lemma {:induction false} SplitCompoundLength(rows: seq<DeviceRow>)
    ensures |SplitCompound(rows)| == |rows| + Connectives(rows)
    ensures |SplitCompound(rows)| >= |rows|
    ensures |SplitCompound(rows)| > |rows| <==>
            exists i :: 0 <= i < |rows| && Contains(rows[i].device, Connective)
  {
    if rows != [] {
      var init, last := rows[..|rows| - 1], rows[|rows| - 1];
      SplitCompoundLength(init);
      ExpandSpec(last);
      ContainsIffCount(last.device, Connective);
      if exists i :: 0 <= i < |rows| && Contains(rows[i].device, Connective) {
        var i :| 0 <= i < |rows| && Contains(rows[i].device, Connective);
        if i < |rows| - 1 {
          assert init[i] == rows[i];
        }
      }
      if exists i :: 0 <= i < |init| && Contains(init[i].device, Connective) {
        var i :| 0 <= i < |init| && Contains(init[i].device, Connective);
        assert rows[i] == init[i];
      }
    }
  }

  /** Lines 84-94: walk the rows, appending either the stripped pieces of a
      compound label (each a copy of the row) or the row itself. */
  method SplitCompoundRows(rows: seq<DeviceRow>) returns (splitRows: seq<DeviceRow>)
    ensures splitRows == SplitCompound(rows)
  {
    splitRows := [];
    var i := 0;
    while i < |rows|
      invariant 0 <= i <= |rows|
      invariant splitRows == SplitCompound(rows[..i])
    {
      var row := rows[i];
      SplitCompoundStep(rows, i);
      if Contains(row.device, Connective) {
        splitRows := AppendPieces(splitRows, row, SplitOn(row.device, Connective));
      } else {
        splitRows := splitRows + [row];
      }
      i := i + 1;
    }
    assert rows[..i] == rows;
  }

  /** The inner loop of lines 88-91: one stripped copy of `row` per piece,
      appended in piece order. */
  method AppendPieces(acc: seq<DeviceRow>, row: DeviceRow, devices: seq<string>) returns (splitRows: seq<DeviceRow>)
    ensures splitRows == acc + CopiesWith(row, devices)
  {
    splitRows := acc;
    var j := 0;
    while j < |devices|
      invariant 0 <= j <= |devices|
      invariant splitRows == acc + CopiesWith(row, devices[..j])
    {
      CopiesWithStep(row, devices, j);
      splitRows := splitRows + [row.(device := Strip(devices[j]))];
      j := j + 1;
    }
    assert devices[..j] == devices;
  }

  lemma SplitCompoundStep(rows: seq<DeviceRow>, i: nat)
    requires i < |rows|
    ensures SplitCompound(rows[..i + 1]) == SplitCompound(rows[..i]) + Expand(rows[i])
  {
    assert rows[..i + 1][..i] == rows[..i];
  }

  lemma CopiesWithStep(row: DeviceRow, pieces: seq<string>, j: nat)
    requires j < |pieces|
    ensures CopiesWith(row, pieces[..j + 1]) == CopiesWith(row, pieces[..j]) + [row.(device := Strip(pieces[j]))]
  {
    assert pieces[..j + 1][..j] == pieces[..j];
  }

  /** Lines 96-97: `'enteric'` becomes `'enteric tube'`, then
      `'endotracheal tubes'` becomes `'endotracheal tube'`, both literal and
      case-sensitive, on the label as it is (before lower-casing). */
  function Synonyms(s: string): (r: string)
    ensures !Contains(s, "enteric") && !Contains(s, "endotracheal tubes") ==> r == s
  {
    var e := ReplaceAll(s, "enteric", "enteric tube");
    var r := ReplaceAll(e, "endotracheal tubes", "endotracheal tube");
    assert !Contains(s, "enteric") && !Contains(s, "endotracheal tubes") ==> r == s by {
      if !Contains(s, "enteric") && !Contains(s, "endotracheal tubes") {
        ReplaceAbsent(s, "enteric", "enteric tube");
        ReplaceAbsent(s, "endotracheal tubes", "endotracheal tube");
      }
    }
    r
  }

  /** The device label after the rewrites, `str.lower` and the devices
      stop-word lambda (lines 96-103). */
  function DeviceLabel(raw: string): (r: string)
    ensures AllLower(r) && SingleSpaced(r)
  {
    Normalise(DeviceStopWords, Synonyms(raw))
  }

  /** Each `enteric` grows the label by five characters (`' tube'`). */
  lemma EntericGrowth(s: string)
    ensures |ReplaceAll(s, "enteric", "enteric tube")| == |s| + 5 * Count(s, "enteric")
  {
  }

  /** `"enteric"` lands in the `"enteric tube"` bucket. */
  lemma EntericExample()
    ensures Synonyms("enteric") == "enteric tube"
    ensures DeviceLabel("enteric") == "enteric tube"
  {
    assert "enteric"[..7] == "enteric";
    assert ReplaceAll("enteric", "enteric", "enteric tube") == "enteric tube";
    var ts := ["enteric", "tube"];
    assert ts[1..] == ["tube"];
    assert Join(ts) == "enteric tube";
    NormaliseClean(DeviceStopWords, ts);
  }

  /** The first rewrite is not idempotent: a label already reading
      `"enteric tube"` becomes `"enteric tube tube"`, a bucket of its own. */
  lemma EntericNotIdempotent()
    ensures Synonyms("enteric tube") == "enteric tube tube"
  {
    var s := "enteric tube";
    assert s[..7] == "enteric";
    assert s[7..] == " tube";
    assert ReplaceAll(" tube", "enteric", "enteric tube") == " tube";
    assert ReplaceAll(s, "enteric", "enteric tube") == "enteric tube" + " tube";
  }

  /** The rewrites are case-sensitive: `"Enteric"` is not rewritten. */
  lemma CapitalisedEntericUntouched(raw: string)
    requires raw == "Enteric"
    ensures Synonyms(raw) == raw
  {
    assert raw[..7] != "enteric" by {
      assert raw[0] != "enteric"[0];
    }
    assert raw[1..] == "nteric";
    assert ReplaceAll(raw, "enteric", "enteric tube") == raw;
  }

  /** The rewrites run before lower-casing, so `"Enteric"` ends up as
      `"enteric"`, a bucket apart from `"enteric tube"`. */
  lemma CapitalisedEntericExample(raw: string, clean: string)
    requires raw == "Enteric" && clean == "enteric"
    ensures DeviceLabel(raw) == clean
  {
    CapitalisedEntericUntouched(raw);
    LowerEnteric(raw, clean);
    NormaliseSameLower(DeviceStopWords, raw, clean);
    NormaliseClean(DeviceStopWords, [clean]);
  }

  lemma LowerEnteric(raw: string, clean: string)
    requires raw == "Enteric" && clean == "enteric"
    ensures Lower(raw) == Lower(clean) && Join([clean]) == clean
    ensures AllTokens([clean]) && AllLower(clean) && clean !in DeviceStopWords
  {
  }

  /** A label with exactly one `' and '` becomes two copies of its row,
      holding the stripped text before and after it. */
  lemma {:induction false} ExpandTwo(a: string, b: string, others: map<string, Cell>)
    requires forall i :: 0 <= i < |a| ==> !OccursAt(a + Connective + b, Connective, i)
    requires !Contains(b, Connective)
    ensures Expand(DeviceRow(a + Connective + b, others))
            == [DeviceRow(Strip(a), others), DeviceRow(Strip(b), others)]
  {
    var row := DeviceRow(a + Connective + b, others);
    ContainsJoined(a, b);
    SplitOnFirst(a, Connective, b);
    SplitOnAbsent(b, Connective);
    assert [a] + [b] == [a, b];
    CopiesWithSpec(row, [a, b]);
  }

  /** The compound label `"frontal and parietal catheter"` becomes the two
      rows `"frontal"` and `"parietal catheter"`. */
  lemma CompoundExample(a: string, b: string, others: map<string, Cell>)
    requires a == "frontal" && b == "parietal catheter"
    ensures Expand(DeviceRow(a + Connective + b, others)) == [DeviceRow(a, others), DeviceRow(b, others)]
  {
    NoConnectiveBefore(a, b);
    NoConnectiveIn(b);
    ExpandTwo(a, b, others);
    StripToken(a);
    StripToken(b);
  }

  lemma ContainsJoined(a: string, b: string)
    ensures Contains(a + Connective + b, Connective)
  {
    var s := a + Connective + b;
    assert s[|a|..|a| + |Connective|] == Connective;
    assert OccursAt(s, Connective, |a|);
  }

  lemma NoConnectiveBefore(a: string, b: string)
    requires a == "frontal"
    ensures forall i :: 0 <= i < |a| ==> !OccursAt(a + Connective + b, Connective, i)
  {
    var s := a + Connective + b;
    forall i | 0 <= i < |a| ensures !OccursAt(s, Connective, i) {
      if OccursAt(s, Connective, i) {
        OccursAtStart(s, Connective, i);
      }
    }
  }

  lemma NoConnectiveIn(b: string)
    requires b == "parietal catheter"
    ensures !Contains(b, Connective)
  {
    forall i | 0 <= i <= |b| - |Connective| ensures !OccursAt(b, Connective, i) {
      if OccursAt(b, Connective, i) {
        OccursAtStart(b, Connective, i);
      }
    }
  }

  lemma StripToken(s: string)
    requires s != [] && !IsSpace(s[0]) && !IsSpace(s[|s| - 1])
    ensures Strip(s) == s
  {
  }
}
