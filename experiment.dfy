/** `ExperimentResults`: ingestion of four line-aligned inputs, the grouping
    engine that scores the whole corpus and every language, and the two
    renderings of its results (`main`'s text blocks, `as_data_frame`'s rows). */
module Experiment {
  import opened Wrappers
  import opened Text
  import opened Records
  import opened Metrics

  function Min(a: nat, b: nat): nat {
    if a <= b then a else b
  }

  /** What `zip` over the four inputs yields: as many records as the shortest
      input has lines, record `i` made of the stripped line `i` of each. */
  function AlignedOutputs(references: seq<string>, hypotheses: seq<string>,
                          sources: seq<string>, languageLines: seq<string>): seq<Output>
  {
    var n := Min(Min(|hypotheses|, |references|), Min(|sources|, |languageLines|));
    seq(n, i requires 0 <= i < n =>
      Output(Strip(languageLines[i]), Strip(references[i]), Strip(hypotheses[i]), Strip(sources[i])))
  }

  /** `outputs_from_paths`, over the lines already read from the four files. */
  method OutputsFromPaths(references: seq<string>, hypotheses: seq<string>,
                          sources: seq<string>, languageLines: seq<string>)
    returns (systemOutputs: seq<Output>, languages: set<string>)
    ensures systemOutputs == AlignedOutputs(references, hypotheses, sources, languageLines)
    ensures |systemOutputs| == Min(Min(|hypotheses|, |references|), Min(|sources|, |languageLines|))
    ensures forall i :: 0 <= i < |systemOutputs| ==>
              systemOutputs[i] == Output(Strip(languageLines[i]), Strip(references[i]),
                                         Strip(hypotheses[i]), Strip(sources[i]))
    ensures languages == Languages(systemOutputs)
  {
    var n := Min(Min(|hypotheses|, |references|), Min(|sources|, |languageLines|));
    ghost var aligned := AlignedOutputs(references, hypotheses, sources, languageLines);
    assert |aligned| == n;
    languages := {};
    systemOutputs := [];
    var i := 0;
    while i < n
      invariant 0 <= i <= n
      invariant systemOutputs == aligned[..i]
      invariant languages == Languages(systemOutputs)
    {
      var hypothesis := Strip(hypotheses[i]);
      var reference := Strip(references[i]);
      var source := Strip(sources[i]);
      var language := Strip(languageLines[i]);
      var output := Output(language, reference, hypothesis, source);
      assert aligned[i] == output;
      assert aligned[..i + 1] == aligned[..i] + [output];
      LanguagesAppend(systemOutputs, output);
      languages := languages + {language};
      systemOutputs := systemOutputs + [output];
      i := i + 1;
    }
    assert aligned[..n] == aligned;
  }

  /** `DeciphermentResults` can be built for the whole corpus and for every language. */
  ghost predicate Scorable(systemOutputs: seq<Output>, languages: set<string>) {
    && NewResults(systemOutputs).Ok?
    && forall l :: l in languages ==> NewResults(LanguageGroup(systemOutputs, l)).Ok?
  }

  /** The metrics dictionary holds `"global"` and every language, each
      language mapped to the results of exactly its records, and `"global"`
      to the results of all records unless a language is itself named `"global"`. */
  ghost predicate GroupedBy(m: map<string, DeciphermentResults>, systemOutputs: seq<Output>, languages: set<string>) {
    && m.Keys == {"global"} + languages
    && (forall l :: l in languages ==> Ok(m[l]) == NewResults(LanguageGroup(systemOutputs, l)))
    && ("global" !in languages ==> Ok(m["global"]) == NewResults(systemOutputs))
  }

  /** `compute_metrics_dict`: `"global"` is written first, then every language
      in the set's enumeration order, so a language named `"global"` overwrites it.
      The first group that cannot be scored aborts the whole computation. */
  method ComputeMetricsDict(systemOutputs: seq<Output>, languages: set<string>)
    returns (r: Result<map<string, DeciphermentResults>>)
    ensures r.Ok? <==> Scorable(systemOutputs, languages)
    ensures r.Ok? ==> GroupedBy(r.value, systemOutputs, languages)
    ensures r.Err? ==> r.error == IndexError || r.error == ValueError
  {
    var global := NewResults(systemOutputs);
    if global.Err? {
      return Err(global.error);
    }
    var metrics := map["global" := global.value];
    var remaining := languages;
    while remaining != {}
      invariant remaining <= languages
      invariant metrics.Keys == {"global"} + (languages - remaining)
      invariant forall l :: l in languages - remaining ==>
                  Ok(metrics[l]) == NewResults(LanguageGroup(systemOutputs, l))
      invariant "global" !in languages - remaining ==> metrics["global"] == global.value
      decreases remaining
    {
      var lang :| lang in remaining;
      var filteredOutputs := LanguageGroup(systemOutputs, lang);
      var results := NewResults(filteredOutputs);
      if results.Err? {
        return Err(results.error);
      }
      metrics := metrics[lang := results.value];
      remaining := remaining - {lang};
    }
    return Ok(metrics);
  }

  /** `ExperimentResults` once built: its records, languages and metrics dictionary. */
  datatype ExperimentResults = ExperimentResults(
    systemOutputs: seq<Output>,
    languages: set<string>,
    metricsDict: map<string, DeciphermentResults>)

  /** `ExperimentResults.from_paths`: ingest, then group and score. */
  method FromPaths(references: seq<string>, hypotheses: seq<string>,
                   sources: seq<string>, languageLines: seq<string>)
    returns (r: Result<ExperimentResults>)
    ensures var outputs := AlignedOutputs(references, hypotheses, sources, languageLines);
            r.Ok? <==> Scorable(outputs, Languages(outputs))
    ensures r.Ok? ==> r.value.systemOutputs == AlignedOutputs(references, hypotheses, sources, languageLines)
    ensures r.Ok? ==> r.value.languages == Languages(r.value.systemOutputs)
    ensures r.Ok? ==> GroupedBy(r.value.metricsDict, r.value.systemOutputs, r.value.languages)
    ensures r.Ok? ==> forall l :: l in r.value.languages ==> r.value.metricsDict[l].systemOutputs != []
  {
    var systemOutputs, languages := OutputsFromPaths(references, hypotheses, sources, languageLines);
    var metricsDict :- ComputeMetricsDict(systemOutputs, languages);
    forall l | l in languages
      ensures metricsDict[l].systemOutputs != []
    {
      LanguageGroupNonEmpty(systemOutputs, l);
    }
    return Ok(ExperimentResults(systemOutputs, languages, metricsDict));
  }

  /** Sizes of the record groups stored under `order` in a metrics dictionary. */
  function StoredGroupSizes(m: map<string, DeciphermentResults>, order: seq<string>): nat
    requires forall i :: 0 <= i < |order| ==> order[i] in m
  {
    if order == [] then 0 else |m[order[0]].systemOutputs| + StoredGroupSizes(m, order[1..])
  }

  lemma {:induction false} StoredGroupSizesAreGroupSizes(m: map<string, DeciphermentResults>,
                                                         systemOutputs: seq<Output>, languages: set<string>,
                                                         order: seq<string>)
    requires GroupedBy(m, systemOutputs, languages)
    requires forall i :: 0 <= i < |order| ==> order[i] in languages
    ensures StoredGroupSizes(m, order) == GroupSizes(systemOutputs, order)
  {
    if order != [] {
      StoredGroupSizesAreGroupSizes(m, systemOutputs, languages, order[1..]);
    }
  }

  /** The per-language entries partition the records: over any enumeration of
      the languages, their record counts add up to the size of the corpus. */
  lemma PerLanguagePartition(e: ExperimentResults, order: seq<string>)
    requires GroupedBy(e.metricsDict, e.systemOutputs, e.languages)
    requires e.languages == Languages(e.systemOutputs)
    requires NoRepeats(order) && (set l | l in order) == e.languages
    ensures StoredGroupSizes(e.metricsDict, order) == |e.systemOutputs|
  {
    StoredGroupSizesAreGroupSizes(e.metricsDict, e.systemOutputs, e.languages, order);
    PartitionSizes(e.systemOutputs, order);
  }

  /** With a single language in the corpus, the entry stored under `"global"`
      is labelled with that language, so the table carries two rows with
      the same `Language` (one row, when the language is itself `"global"`
      and its entry has overwritten the global one). */
  lemma GlobalLabelOfSingleLanguage(e: ExperimentResults, lang: string)
    requires GroupedBy(e.metricsDict, e.systemOutputs, e.languages)
    requires e.languages == Languages(e.systemOutputs) == {lang}
    ensures e.metricsDict["global"].metrics.language == lang
    ensures e.metricsDict[lang].metrics.language == lang
  {
    var outputs := e.systemOutputs;
    forall i | 0 <= i < |outputs| ensures outputs[i].language == lang {
      assert outputs[i].language in Languages(outputs);
    }
    LanguageGroupOfPure(outputs, lang);
    assert NewResults(outputs).Ok?;
    PureGroupLabel(outputs, lang);
  }

  /** One text block of `main`: `"<label>:\n"` followed by the block of the
      metrics (the number formatting is not modelled). */
  datatype Block = Block(heading: string, metrics: DeciphermentMetrics)

  /** The text output of `main`: one block per language, each exactly once, in
      the set's enumeration order, then the block of `"global"` last. */
  method TextReport(e: ExperimentResults) returns (blocks: seq<Block>)
    requires e.languages <= e.metricsDict.Keys && "global" in e.metricsDict
    ensures |blocks| == |e.languages| + 1
    ensures blocks[|blocks| - 1] == Block("global", e.metricsDict["global"].metrics)
    ensures forall i :: 0 <= i < |blocks| - 1 ==>
              blocks[i].heading in e.languages && blocks[i].metrics == e.metricsDict[blocks[i].heading].metrics
    ensures forall i, j :: 0 <= i < j < |blocks| - 1 ==> blocks[i].heading != blocks[j].heading
    ensures forall l :: l in e.languages ==> exists i :: 0 <= i < |blocks| - 1 && blocks[i].heading == l
  {
    blocks := [];
    var remaining := e.languages;
    while remaining != {}
      invariant remaining <= e.languages
      invariant |blocks| + |remaining| == |e.languages|
      invariant forall i :: 0 <= i < |blocks| ==>
                  blocks[i].heading in e.languages - remaining
                  && blocks[i].metrics == e.metricsDict[blocks[i].heading].metrics
      invariant forall i, j :: 0 <= i < j < |blocks| ==> blocks[i].heading != blocks[j].heading
      invariant forall l :: l in e.languages - remaining ==>
                  exists i :: 0 <= i < |blocks| && blocks[i].heading == l
      decreases remaining
    {
      var lang :| lang in remaining;
      ghost var before := blocks;
      blocks := blocks + [Block(lang, e.metricsDict[lang].metrics)];
      forall l | l in e.languages - (remaining - {lang})
        ensures exists i :: 0 <= i < |blocks| && blocks[i].heading == l
      {
        if l == lang {
          assert blocks[|blocks| - 1].heading == l;
        } else {
          assert l in e.languages - remaining;
          var i :| 0 <= i < |before| && before[i].heading == l;
          assert blocks[i].heading == l;
        }
      }
      remaining := remaining - {lang};
    }
    ghost var perLanguage := blocks;
    blocks := blocks + [Block("global", e.metricsDict["global"].metrics)];
    forall l | l in e.languages
      ensures exists i :: 0 <= i < |blocks| - 1 && blocks[i].heading == l
    {
      assert l in e.languages - remaining;
      var i :| 0 <= i < |perLanguage| && perLanguage[i].heading == l;
      assert blocks[i].heading == l;
    }
  }

  /** The rows of `as_data_frame`: one per key of `languages | {"global"}`, in
      the set's enumeration order, each the metrics stored under that key
      (whose `language` field becomes the `Language` column). */
  method TableRows(e: ExperimentResults) returns (rows: seq<DeciphermentMetrics>, keys: seq<string>)
    requires e.languages + {"global"} <= e.metricsDict.Keys
    ensures |rows| == |keys| == |e.languages + {"global"}|
    ensures NoRepeats(keys)
    ensures forall i :: 0 <= i < |keys| ==> keys[i] in e.languages + {"global"}
    ensures forall l :: l in e.languages + {"global"} ==> l in keys
    ensures forall i :: 0 <= i < |rows| ==> rows[i] == e.metricsDict[keys[i]].metrics
  {
    var allLanguages := e.languages + {"global"};
    rows, keys := [], [];
    var remaining := allLanguages;
    while remaining != {}
      invariant remaining <= allLanguages
      invariant |rows| == |keys| && |keys| + |remaining| == |allLanguages|
      invariant NoRepeats(keys)
      invariant forall i :: 0 <= i < |keys| ==> keys[i] in allLanguages - remaining
      invariant forall l :: l in allLanguages - remaining ==> l in keys
      invariant forall i :: 0 <= i < |rows| ==> rows[i] == e.metricsDict[keys[i]].metrics
      decreases remaining
    {
      var lang :| lang in remaining;
      rows := rows + [e.metricsDict[lang].metrics];
      keys := keys + [lang];
      remaining := remaining - {lang};
    }
  }
}
