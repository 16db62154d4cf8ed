/** The stop-word normaliser applied to the finding, device and artifact
    labels: the column is lower-cased, then each label is split on
    whitespace, the tokens whose lower-case form is in the category's
    stop-word list are dropped, and the rest are joined with single spaces. */
module StopWords {
  import opened Text

  /** The stop-word list of the findings column. */
  const FindingStopWords: seq<string> := ["tiny", "left", "right", "posterior", "thin", "mild"]

  /** The stop-word list of the devices column. */
  const DeviceStopWords: seq<string> := ["left", "right", "frontal", "posterior", "multiple"]

  /** The stop-word list of the artifacts column. */
  const ArtifactStopWords: seq<string> := ["mild", "artifact"]

  /** The list comprehension `[w for w in ts if w.lower() not in stop]`. */
  function DropStopWords(ts: seq<string>, stop: seq<string>): (kept: seq<string>)
    ensures |kept| <= |ts|
  {
    if ts == [] then []
    else (if Lower(ts[0]) in stop then [] else [ts[0]]) + DropStopWords(ts[1..], stop)
  }

  /** Exact filtering: a stop word is kept zero times, every other token as
      many times as it occurs. */
  lemma {:induction false} DropStopWordsCount(ts: seq<string>, stop: seq<string>)
    ensures forall w :: multiset(DropStopWords(ts, stop))[w]
                        == if Lower(w) in stop then 0 else multiset(ts)[w]
  {
    if ts != [] {
      DropStopWordsCount(ts[1..], stop);
      assert ts == [ts[0]] + ts[1..];
    }
  }

  /** The filter works token by token: filtering a concatenation is
      concatenating the filtered parts, so the kept tokens stay in their
      original order. */
  lemma {:induction false} DropStopWordsAppend(a: seq<string>, b: seq<string>, stop: seq<string>)
    ensures DropStopWords(a + b, stop) == DropStopWords(a, stop) + DropStopWords(b, stop)
  {
    if a != [] {
      assert (a + b)[0] == a[0];
      assert (a + b)[1..] == a[1..] + b;
      DropStopWordsAppend(a[1..], b, stop);
      var head := if Lower(a[0]) in stop then [] else [a[0]];
      calc {
        DropStopWords(a + b, stop);
        head + DropStopWords(a[1..] + b, stop);
        head + (DropStopWords(a[1..], stop) + DropStopWords(b, stop));
        (head + DropStopWords(a[1..], stop)) + DropStopWords(b, stop);
      }
    } else {
      assert a + b == b;
    }
  }

  /** Filtering a list that holds no stop word leaves it unchanged. */
  lemma {:induction false} DropStopWordsKeepsAll(ts: seq<string>, stop: seq<string>)
    requires forall i :: 0 <= i < |ts| ==> Lower(ts[i]) !in stop
    ensures DropStopWords(ts, stop) == ts
  {
    if ts != [] {
      DropStopWordsKeepsAll(ts[1..], stop);
    }
  }

  /** The list is emptied exactly when every token is a stop word. */
  lemma DropStopWordsEmpty(ts: seq<string>, stop: seq<string>)
    ensures DropStopWords(ts, stop) == [] <==> forall i :: 0 <= i < |ts| ==> Lower(ts[i]) in stop
  {
    var r := DropStopWords(ts, stop);
    DropStopWordsCount(ts, stop);
    if r != [] {
      assert multiset(r)[r[0]] > 0;
      assert r[0] in ts;
    }
    if exists i :: 0 <= i < |ts| && Lower(ts[i]) !in stop {
      var i :| 0 <= i < |ts| && Lower(ts[i]) !in stop;
      assert multiset(ts)[ts[i]] > 0;
      assert multiset(r)[ts[i]] > 0;
    }
  }

  /** The lambda applied to each label after the column was lower-cased:
      `' '.join([w for w in x.split() if w.lower() not in stop])`. */
  function StripStopWords(stop: seq<string>, x: string): (r: string)
    ensures SingleSpaced(r)
  {
    KeptTokens(Split(x), stop);
    JoinSingleSpaced(DropStopWords(Split(x), stop));
    Join(DropStopWords(Split(x), stop))
  }

  /** The whole normaliser: `str.lower` on the column, then the lambda. The
      label it yields is lower-case and single-spaced. */
  function Normalise(stop: seq<string>, raw: string): (r: string)
    ensures AllLower(r) && SingleSpaced(r)
  {
    var ts := Split(Lower(raw));
    SplitAllLower(Lower(raw));
    KeptTokens(ts, stop);
    JoinAllLower(DropStopWords(ts, stop));
    StripStopWords(stop, Lower(raw))
  }

  /** The whitespace tokens of a normalised label are exactly those of the
      lower-cased input, in order, less the stop words (with their
      multiplicities). */
  lemma NormaliseSpec(stop: seq<string>, raw: string)
    ensures Split(Normalise(stop, raw)) == DropStopWords(Split(Lower(raw)), stop)
    ensures forall w :: multiset(Split(Normalise(stop, raw)))[w]
                        == if w in stop then 0 else multiset(Split(Lower(raw)))[w]
  {
    var ts := Split(Lower(raw));
    var kept := DropStopWords(ts, stop);
    KeptTokens(ts, stop);
    SplitAllLower(Lower(raw));
    SplitJoin(kept);
    DropStopWordsCount(ts, stop);
    forall w ensures multiset(kept)[w] == if w in stop then 0 else multiset(ts)[w] {
      if multiset(ts)[w] > 0 {
        assert w in ts;
        var i :| 0 <= i < |ts| && ts[i] == w;
        LowerOfLower(ts[i]);
      }
    }
  }

  /** The kept tokens are tokens, lower-case when the input is, and none of
      them is a stop word. */
  lemma KeptTokens(ts: seq<string>, stop: seq<string>)
    requires AllTokens(ts)
    ensures AllTokens(DropStopWords(ts, stop))
    ensures (forall i :: 0 <= i < |ts| ==> AllLower(ts[i]))
            ==> forall i :: 0 <= i < |DropStopWords(ts, stop)| ==> AllLower(DropStopWords(ts, stop)[i])
    ensures forall i :: 0 <= i < |DropStopWords(ts, stop)| ==> Lower(DropStopWords(ts, stop)[i]) !in stop
  {
    var r := DropStopWords(ts, stop);
    DropStopWordsCount(ts, stop);
    forall i | 0 <= i < |r|
      ensures r[i] in ts && Lower(r[i]) !in stop
    {
      assert multiset(r)[r[i]] > 0;
    }
  }

  /** Normalising a normalised label changes nothing. */
  lemma NormaliseIdempotent(stop: seq<string>, raw: string)
    ensures Normalise(stop, Normalise(stop, raw)) == Normalise(stop, raw)
  {
    var r := Normalise(stop, raw);
    var ts := Split(Lower(raw));
    var kept := DropStopWords(ts, stop);
    NormaliseSpec(stop, raw);
    KeptTokens(ts, stop);
    LowerOfLower(r);
    DropStopWordsKeepsAll(kept, stop);
  }

  /** A label that is already lower-case, single-spaced tokens none of
      which is a stop word comes out unchanged. */
  lemma NormaliseClean(stop: seq<string>, ts: seq<string>)
    requires AllTokens(ts)
    requires forall i :: 0 <= i < |ts| ==> AllLower(ts[i]) && ts[i] !in stop
    ensures Normalise(stop, Join(ts)) == Join(ts)
  {
    JoinAllLower(ts);
    LowerOfLower(Join(ts));
    SplitJoin(ts);
    forall i | 0 <= i < |ts| ensures Lower(ts[i]) !in stop {
      LowerOfLower(ts[i]);
    }
    DropStopWordsKeepsAll(ts, stop);
  }

  /** The normaliser sees only the lower-cased label. */
  lemma NormaliseSameLower(stop: seq<string>, a: string, b: string)
    requires Lower(a) == Lower(b)
    ensures Normalise(stop, a) == Normalise(stop, b)
  {
  }

  /** A label made only of stop words (or only of whitespace) normalises to
      the empty label, which is kept as a category of its own; no other
      label does. */
  lemma NormaliseToEmpty(stop: seq<string>, raw: string)
    ensures Normalise(stop, raw) == "" <==>
            forall i :: 0 <= i < |Split(Lower(raw))| ==> Split(Lower(raw))[i] in stop
  {
    var ts := Split(Lower(raw));
    var kept := DropStopWords(ts, stop);
    SplitAllLower(Lower(raw));
    KeptTokens(ts, stop);
    DropStopWordsEmpty(ts, stop);
    assert Normalise(stop, raw) == Join(kept);
    if Normalise(stop, raw) == "" {
      if kept != [] {
        JoinNonEmpty(kept);
      }
      forall i | 0 <= i < |ts| ensures ts[i] in stop {
        LowerOfLower(ts[i]);
      }
    } else {
      assert kept != [];
      var i :| 0 <= i < |ts| && Lower(ts[i]) !in stop;
      LowerOfLower(ts[i]);
      assert Split(Lower(raw))[i] !in stop;
    }
  }

  /** Example: `"Tiny Left Posterior Effusion"` keeps only `"effusion"`
      under the findings list. */
  lemma FindingExample()
    ensures Normalise(FindingStopWords, "Tiny Left Posterior Effusion") == "effusion"
  {
    LowerExample();
    SplitExample();
    DropExample();
  }

  lemma SplitExample()
    ensures Split("tiny left posterior effusion") == ["tiny", "left", "posterior", "effusion"]
  {
    JoinFour("tiny", "left", "posterior", "effusion");
    assert "tiny" + " " + "left" + " " + "posterior" + " " + "effusion" == "tiny left posterior effusion";
    TokensExample();
    SplitJoin(["tiny", "left", "posterior", "effusion"]);
  }

  lemma JoinFour(a: string, b: string, c: string, d: string)
    ensures Join([a, b, c, d]) == a + " " + b + " " + c + " " + d
  {
    JoinCons(c, [d]);
    assert [c] + [d] == [c, d];
    JoinCons(b, [c, d]);
    assert [b] + [c, d] == [b, c, d];
    JoinCons(a, [b, c, d]);
    assert [a] + [b, c, d] == [a, b, c, d];
  }

  lemma TokensExample()
    ensures AllTokens(["tiny", "left", "posterior", "effusion"])
  {
  }

  lemma LowerExample()
    ensures Lower("Tiny Left Posterior Effusion") == "tiny left posterior effusion"
  {
  }

  lemma DropExample()
    ensures DropStopWords(["tiny", "left", "posterior", "effusion"], FindingStopWords) == ["effusion"]
  {
    var ts := ["tiny", "left", "posterior", "effusion"];
    assert ts[1..] == ["left", "posterior", "effusion"];
    assert ts[1..][1..] == ["posterior", "effusion"];
    assert ts[1..][1..][1..] == ["effusion"];
    assert Lower("effusion") == "effusion";
    assert Lower("effusion") !in FindingStopWords;
    assert DropStopWords(["effusion"], FindingStopWords) == ["effusion"];
    assert Lower("posterior") == "posterior";
    assert Lower("left") == "left";
    assert Lower("tiny") == "tiny";
  }

  lemma JoinCons(t: string, ts: seq<string>)
    requires ts != []
    ensures Join([t] + ts) == t + " " + Join(ts)
  {
    assert ([t] + ts)[1..] == ts;
  }
}
