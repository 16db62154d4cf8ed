/** `Series.value_counts()` over a label column: each distinct label with
    the number of rows that carry it. The order in which pandas lists the
    labels (by descending count) is presentation and is not part of the
    map. */
module Tally {

  /** Add one occurrence of `k`. */
  function Bump(m: map<string, nat>, k: string): map<string, nat> {
    m[k := (if k in m then m[k] else 0) + 1]
  }

  /** `labels.value_counts()`: the keys are exactly the labels that occur
      (the empty label included), and each maps to its number of
      occurrences. */
  function ValueCounts(labels: seq<string>): (t: map<string, nat>)
    ensures forall k :: k in t <==> k in labels
    ensures forall k :: k in t ==> t[k] == multiset(labels)[k]
  {
    if labels == [] then map[]
    else
      assert labels == [labels[0]] + labels[1..];
      Bump(ValueCounts(labels[1..]), labels[0])
  }

  /** The sum of the counts of a tally. */
  ghost function Total(m: map<string, nat>): nat
    decreases |m|
  {
    if m == map[] then 0
    else
      var k :| k in m;
      m[k] + Total(m - {k})
  }

  /** The sum does not depend on which key is taken out first. */
  lemma {:induction false} TotalRemove(m: map<string, nat>, x: string)
    requires x in m
    ensures Total(m) == m[x] + Total(m - {x})
    decreases |m|
  {
    var k :| k in m && Total(m) == m[k] + Total(m - {k});
    assert |m - {k}| == |m| - 1 by {
      assert (m - {k}).Keys == m.Keys - {k};
    }
    if k != x {
      assert |m - {x}| == |m| - 1 by {
        assert (m - {x}).Keys == m.Keys - {x};
      }
      TotalRemove(m - {k}, x);
      TotalRemove(m - {x}, k);
      assert m - {k} - {x} == m - {x} - {k};
    }
  }

  lemma TotalBump(m: map<string, nat>, k: string)
    ensures Total(Bump(m, k)) == Total(m) + 1
  {
    var b := Bump(m, k);
    TotalRemove(b, k);
    if k in m {
      TotalRemove(m, k);
      assert b - {k} == m - {k};
    } else {
      assert b - {k} == m;
    }
  }

  /** The counts add up to the number of labels tallied: no row is lost. */
  lemma {:induction false} ValueCountsTotal(labels: seq<string>)
    ensures Total(ValueCounts(labels)) == |labels|
  {
    if labels != [] {
      ValueCountsTotal(labels[1..]);
      TotalBump(ValueCounts(labels[1..]), labels[0]);
    }
  }

  /** Tallying the same labels in any order gives the same tally. */
  lemma ValueCountsOrderFree(a: seq<string>, b: seq<string>)
    requires multiset(a) == multiset(b)
    ensures ValueCounts(a) == ValueCounts(b)
  {
    forall k ensures k in a <==> k in b {
      assert k in a <==> multiset(a)[k] > 0;
      assert k in b <==> multiset(b)[k] > 0;
    }
  }
}
