/** Per-group scoring: `DeciphermentMetrics` and `DeciphermentResults.compute_metrics`
    with its helpers `symbol_error_rate` and `word_accuracy`. */
module Metrics {
  import opened Wrappers
  import opened Text
  import opened Records

  function Min3(a: nat, b: nat, c: nat): (m: nat)
    ensures m <= a && m <= b && m <= c
    ensures m == a || m == b || m == c
  {
    if a <= b && a <= c then a else if b <= c then b else c
  }

  /** Levenshtein distance between two token sequences: the fewest substitutions,
      deletions and insertions that turn `ref` into `hyp`. */
  function EditDistance(ref: seq<string>, hyp: seq<string>): nat
    decreases |ref| + |hyp|
  {
    if ref == [] then |hyp|
    else if hyp == [] then |ref|
    else
      Min3(EditDistance(ref[1..], hyp) + 1,
           EditDistance(ref, hyp[1..]) + 1,
           EditDistance(ref[1..], hyp[1..]) + (if ref[0] == hyp[0] then 0 else 1))
  }

  /** No edit is needed exactly when the two token sequences are equal. */
  lemma {:induction false} EditDistanceZero(ref: seq<string>, hyp: seq<string>)
    ensures EditDistance(ref, hyp) == 0 <==> ref == hyp
    decreases |ref| + |hyp|
  {
    if ref != [] && hyp != [] {
      EditDistanceZero(ref[1..], hyp[1..]);
      if ref == hyp {
        assert ref[1..] == hyp[1..];
      }
      if EditDistance(ref, hyp) == 0 {
        assert ref == [ref[0]] + ref[1..];
        assert hyp == [hyp[0]] + hyp[1..];
      }
    }
  }

  /** Deleting from one side is inserting into the other: the distance is symmetric. */
  lemma {:induction false} EditDistanceSymmetric(a: seq<string>, b: seq<string>)
    ensures EditDistance(a, b) == EditDistance(b, a)
    decreases |a| + |b|
  {
    if a != [] && b != [] {
      EditDistanceSymmetric(a[1..], b);
      EditDistanceSymmetric(a, b[1..]);
      EditDistanceSymmetric(a[1..], b[1..]);
    }
  }

  /** The distance is at least the length difference and at most the longer length. */
  lemma {:induction false} EditDistanceBounds(ref: seq<string>, hyp: seq<string>)
    ensures |ref| - |hyp| <= EditDistance(ref, hyp)
    ensures |hyp| - |ref| <= EditDistance(ref, hyp)
    ensures EditDistance(ref, hyp) <= if |ref| < |hyp| then |hyp| else |ref|
    decreases |ref| + |hyp|
  {
    if ref != [] && hyp != [] {
      EditDistanceBounds(ref[1..], hyp);
      EditDistanceBounds(ref, hyp[1..]);
      EditDistanceBounds(ref[1..], hyp[1..]);
    }
  }

  /** Word error rate numerator: the summed token-level edit distances of the group. */
  function TotalEdits(outputs: seq<Output>): nat {
    if outputs == [] then 0
    else
      EditDistance(Tokens(outputs[0].reference), Tokens(outputs[0].hypothesis))
      + TotalEdits(outputs[1..])
  }

  /** Word error rate denominator: the number of reference tokens of the group. */
  function ReferenceTokens(outputs: seq<Output>): nat {
    if outputs == [] then 0 else |Tokens(outputs[0].reference)| + ReferenceTokens(outputs[1..])
  }

  ghost predicate TokensAgree(o: Output) {
    Tokens(o.reference) == Tokens(o.hypothesis)
  }

  lemma {:induction false} TotalEditsZero(outputs: seq<Output>)
    ensures TotalEdits(outputs) == 0 <==> forall i :: 0 <= i < |outputs| ==> TokensAgree(outputs[i])
  {
    if outputs != [] {
      var o := outputs[0];
      EditDistanceZero(Tokens(o.reference), Tokens(o.hypothesis));
      TotalEditsZero(outputs[1..]);
      assert forall i :: 1 <= i < |outputs| ==> outputs[i] == outputs[1..][i - 1];
    }
  }

  /** `jiwer.wer` over the group: total edits over total reference tokens,
      pooled over the whole group; undefined without any reference token. */
  function SymbolErrorRate(outputs: seq<Output>): (r: Result<real>)
    ensures r.Err? <==> ReferenceTokens(outputs) == 0
    ensures r.Err? ==> r.error == ValueError
    ensures r.Ok? ==> r.value == TotalEdits(outputs) as real / ReferenceTokens(outputs) as real
    ensures r.Ok? ==> r.value >= 0.0
    ensures r.Ok? ==> (r.value == 0.0 <==> forall i :: 0 <= i < |outputs| ==> TokensAgree(outputs[i]))
  {
    if ReferenceTokens(outputs) == 0 then Err(ValueError)
    else
      TotalEditsZero(outputs);
      Ok(TotalEdits(outputs) as real / ReferenceTokens(outputs) as real)
  }

  /** Number of records whose reference is exactly the hypothesis. */
  function ExactMatches(outputs: seq<Output>): nat {
    if outputs == [] then 0
    else (if outputs[0].reference == outputs[0].hypothesis then 1 else 0) + ExactMatches(outputs[1..])
  }

  lemma {:induction false} ExactMatchesBounds(outputs: seq<Output>)
    ensures ExactMatches(outputs) <= |outputs|
    ensures ExactMatches(outputs) == |outputs| <==>
              forall i :: 0 <= i < |outputs| ==> outputs[i].reference == outputs[i].hypothesis
    ensures ExactMatches(outputs) == 0 <==>
              forall i :: 0 <= i < |outputs| ==> outputs[i].reference != outputs[i].hypothesis
  {
    if outputs != [] {
      ExactMatchesBounds(outputs[1..]);
      assert forall i :: 1 <= i < |outputs| ==> outputs[i] == outputs[1..][i - 1];
    }
  }

  /** `np.mean([int(o.reference == o.hypothesis) ...])`: the fraction of exact
      matches; `None` stands for the NaN that the mean of no records gives. */
  function WordAccuracy(outputs: seq<Output>): (r: Option<real>)
    ensures r.Some? <==> outputs != []
    ensures r.Some? ==> r.value == ExactMatches(outputs) as real / |outputs| as real
    ensures r.Some? ==> 0.0 <= r.value <= 1.0
    ensures r.Some? ==> (r.value == 1.0 <==>
              forall i :: 0 <= i < |outputs| ==> outputs[i].reference == outputs[i].hypothesis)
    ensures r.Some? ==> (r.value == 0.0 <==>
              forall i :: 0 <= i < |outputs| ==> outputs[i].reference != outputs[i].hypothesis)
  {
    if outputs == [] then None
    else
      ExactMatchesBounds(outputs);
      var m, n := ExactMatches(outputs) as real, |outputs| as real;
      Fraction(m, n);
      Some(m / n)
  }

  /** A part over a positive whole lies in [0, 1], is 1 only for the whole and 0 only for nothing. */
  lemma Fraction(m: real, n: real)
    requires 0.0 <= m <= n && n > 0.0
    ensures 0.0 <= m / n <= 1.0
    ensures m / n == 1.0 <==> m == n
    ensures m / n == 0.0 <==> m == 0.0
  {
    assert m / n * n == m;
  }

  /** The group's label: `"global"` when its records carry more than one
      language, else their one language; `list(set())[0]` fails on an empty group. */
  function GroupLanguage(outputs: seq<Output>): (r: Result<string>)
    ensures r.Err? <==> outputs == []
    ensures r.Err? ==> r.error == IndexError
    ensures |Languages(outputs)| > 1 ==> r == Ok("global")
    ensures outputs != [] && |Languages(outputs)| <= 1 ==> r.Ok? && Languages(outputs) == {r.value}
  {
    if |Languages(outputs)| > 1 then Ok("global")
    else if outputs == [] then Err(IndexError)
    else
      var l := outputs[0].language;
      assert outputs[0] in outputs;
      assert Languages(outputs) == {l} by {
        var rest := Languages(outputs) - {l};
        assert |rest| == |Languages(outputs)| - 1;
        assert rest == {};
      }
      Ok(l)
  }

  /** `DeciphermentMetrics` (the rounding to five places is not modelled). */
  datatype DeciphermentMetrics = DeciphermentMetrics(symbolErrorRate: real, wordAcc: real, language: string)

  /** `DeciphermentResults.compute_metrics`: the label is resolved first, then
      the symbol error rate, then the word accuracy scaled to a percentage. */
  function ComputeMetrics(outputs: seq<Output>): (r: Result<DeciphermentMetrics>)
    ensures r.Ok? <==> outputs != [] && ReferenceTokens(outputs) > 0
    ensures outputs == [] ==> r == Err(IndexError)
    ensures outputs != [] && ReferenceTokens(outputs) == 0 ==> r == Err(ValueError)
    ensures r.Ok? ==> r.value.language == GroupLanguage(outputs).value
    ensures r.Ok? ==> r.value.symbolErrorRate == SymbolErrorRate(outputs).value
    ensures r.Ok? ==> r.value.wordAcc == 100.0 * WordAccuracy(outputs).value
    ensures r.Ok? ==> 0.0 <= r.value.wordAcc <= 100.0
    ensures r.Ok? ==> (r.value.wordAcc == 100.0 <==>
              forall i :: 0 <= i < |outputs| ==> outputs[i].reference == outputs[i].hypothesis)
    ensures r.Ok? ==> (r.value.wordAcc == 0.0 <==>
              forall i :: 0 <= i < |outputs| ==> outputs[i].reference != outputs[i].hypothesis)
    ensures r.Ok? ==> r.value.symbolErrorRate >= 0.0
    ensures r.Ok? ==> (r.value.symbolErrorRate == 0.0 <==>
              forall i :: 0 <= i < |outputs| ==> TokensAgree(outputs[i]))
  {
    var language :- GroupLanguage(outputs);
    var ser :- SymbolErrorRate(outputs);
    var acc := WordAccuracy(outputs).value;
    Ok(DeciphermentMetrics(ser, 100.0 * acc, language))
  }

  /** `DeciphermentResults`: a group of records with the metrics computed
      from them once, when the object is built. */
  datatype DeciphermentResults = DeciphermentResults(systemOutputs: seq<Output>, metrics: DeciphermentMetrics)

  function NewResults(outputs: seq<Output>): (r: Result<DeciphermentResults>)
    ensures r.Ok? <==> outputs != [] && ReferenceTokens(outputs) > 0
    ensures r.Ok? ==> r.value.systemOutputs == outputs && Ok(r.value.metrics) == ComputeMetrics(outputs)
  {
    var metrics :- ComputeMetrics(outputs);
    Ok(DeciphermentResults(outputs, metrics))
  }

  /** A group whose records all carry one language is labelled with that
      language, even when it is the group stored under `"global"`. */
  lemma PureGroupLabel(outputs: seq<Output>, lang: string)
    requires outputs != [] && ReferenceTokens(outputs) > 0
    requires forall i :: 0 <= i < |outputs| ==> outputs[i].language == lang
    ensures ComputeMetrics(outputs).value.language == lang
  {
    LanguagesOfPure(outputs, lang);
    assert GroupLanguage(outputs) == Ok(lang) by {
      assert |Languages(outputs)| == 1;
    }
  }

  /** `"a b c"` has three reference tokens. */
  lemma ThreeReferenceTokens(o: Output)
    requires o.reference == "a b c"
    ensures Tokens(o.reference) == ["a", "b", "c"]
    ensures ReferenceTokens([o]) == 3
  {
    TokensOfJoin(["a", "b", "c"]);
    assert Join(["a", "b", "c"], " ") == "a b c";
    assert [o][1..] == [];
  }

  /** Reference `"a b c"`, hypothesis `"a b c"`: no error, full accuracy. */
  lemma ScenarioIdentical(lang: string)
    ensures ComputeMetrics([Output(lang, "a b c", "a b c", "")]) == Ok(DeciphermentMetrics(0.0, 100.0, lang))
  {
    var os := [Output(lang, "a b c", "a b c", "")];
    ThreeReferenceTokens(os[0]);
    PureGroupLabel(os, lang);
    assert TokensAgree(os[0]);
    var r := ComputeMetrics(os);
    assert r.value.symbolErrorRate == 0.0;
    assert r.value.wordAcc == 100.0;
  }

  lemma SubstitutionDistance()
    ensures EditDistance(["a", "b", "c"], ["a", "b", "d"]) == 1
  {
    var r, h := ["a", "b", "c"], ["a", "b", "d"];
    assert r[1..] == ["b", "c"] && h[1..] == ["b", "d"];
    assert ["b", "c"][1..] == ["c"] && ["b", "d"][1..] == ["d"];
    assert EditDistance(["c"], ["d"]) <= 1;
    assert EditDistance(["b", "c"], ["b", "d"]) <= 1;
    EditDistanceZero(r, h);
  }

  /** Reference `"a b c"`, hypothesis `"a b d"`: one substitution over three
      reference tokens. */
  lemma SubstitutionSer(o: Output)
    requires o.reference == "a b c" && o.hypothesis == "a b d"
    ensures SymbolErrorRate([o]) == Ok(1.0 / 3.0)
  {
    ThreeReferenceTokens(o);
    SubstitutedTokens(o.hypothesis);
    SubstitutionDistance();
    SingleRecord(o);
  }

  /** The counts of a one-record group are those of its record. */
  lemma SingleRecord(o: Output)
    ensures TotalEdits([o]) == EditDistance(Tokens(o.reference), Tokens(o.hypothesis))
    ensures ReferenceTokens([o]) == |Tokens(o.reference)|
  {
    assert [o][0] == o && [o][1..] == [];
  }

  lemma SubstitutedTokens(h: string)
    requires h == "a b d"
    ensures Tokens(h) == ["a", "b", "d"]
  {
    TokensOfJoin(["a", "b", "d"]);
    assert Join(["a", "b", "d"], " ") == "a b d";
  }

  /** One substituted token: a third of the tokens wrong, no exact match. */
  lemma ScenarioOneSubstitution(lang: string)
    ensures ComputeMetrics([Output(lang, "a b c", "a b d", "")]) == Ok(DeciphermentMetrics(1.0 / 3.0, 0.0, lang))
  {
    var os := [Output(lang, "a b c", "a b d", "")];
    SubstitutionSer(os[0]);
    ThreeReferenceTokens(os[0]);
    PureGroupLabel(os, lang);
    assert os[0].reference != os[0].hypothesis;
    var r := ComputeMetrics(os);
    assert r.value.wordAcc == 0.0;
  }
}
