/** One scored line (`DeciphermentOutput`) and the grouping of records by language. */
module Records {

  /** `DeciphermentOutput`: the language label, the gold reference, the
      system hypothesis and the source line of one record. */
  datatype Output = Output(language: string, reference: string, hypothesis: string, source: string)

  /** `set([o.language for o in outputs])`. */
  function Languages(outputs: seq<Output>): set<string> {
    set o | o in outputs :: o.language
  }

  lemma LanguagesAppend(outputs: seq<Output>, o: Output)
    ensures Languages(outputs + [o]) == Languages(outputs) + {o.language}
  {
    assert forall x :: x in outputs + [o] <==> x in outputs || x == o;
  }

  /** Records that all carry `lang` have `lang` as their one language. */
  lemma LanguagesOfPure(outputs: seq<Output>, lang: string)
    requires outputs != []
    requires forall i :: 0 <= i < |outputs| ==> outputs[i].language == lang
    ensures Languages(outputs) == {lang}
  {
    forall x | x in Languages(outputs) ensures x == lang {
      var o :| o in outputs && o.language == x;
      var i :| 0 <= i < |outputs| && outputs[i] == o;
    }
    assert outputs[0] in outputs;
  }

  /** `[o for o in outputs if o.language == lang]`. */
  function LanguageGroup(outputs: seq<Output>, lang: string): (group: seq<Output>)
    ensures |group| <= |outputs|
    ensures forall o :: o in group <==> o in outputs && o.language == lang
  {
    if outputs == [] then []
    else
      (if outputs[0].language == lang then [outputs[0]] else []) + LanguageGroup(outputs[1..], lang)
  }

  /** Filtering keeps input order: the group of a concatenation is the concatenation of the groups. */
  lemma {:induction false} LanguageGroupAppend(a: seq<Output>, b: seq<Output>, lang: string)
    ensures LanguageGroup(a + b, lang) == LanguageGroup(a, lang) + LanguageGroup(b, lang)
  {
    if a == [] {
      assert a + b == b;
    } else {
      var head := if a[0].language == lang then [a[0]] else [];
      assert (a + b)[0] == a[0];
      assert (a + b)[1..] == a[1..] + b;
      LanguageGroupAppend(a[1..], b, lang);
      calc {
        LanguageGroup(a + b, lang);
        head + LanguageGroup(a[1..] + b, lang);
        head + (LanguageGroup(a[1..], lang) + LanguageGroup(b, lang));
        (head + LanguageGroup(a[1..], lang)) + LanguageGroup(b, lang);
      }
    }
  }

  /** A group is empty exactly when no record carries its language. */
  lemma LanguageGroupNonEmpty(outputs: seq<Output>, lang: string)
    ensures LanguageGroup(outputs, lang) != [] <==> lang in Languages(outputs)
  {
    var g := LanguageGroup(outputs, lang);
    if lang in Languages(outputs) {
      var o :| o in outputs && o.language == lang;
      assert o in g;
    }
  }

  /** A group whose records all carry `lang` is its own `lang` group. */
  lemma {:induction false} LanguageGroupOfPure(outputs: seq<Output>, lang: string)
    requires forall i :: 0 <= i < |outputs| ==> outputs[i].language == lang
    ensures LanguageGroup(outputs, lang) == outputs
  {
    if outputs != [] {
      LanguageGroupOfPure(outputs[1..], lang);
    }
  }

  /** Number of records whose language lies in `langs`. */
  function CountIn(outputs: seq<Output>, langs: set<string>): nat {
    if outputs == [] then 0
    else (if outputs[0].language in langs then 1 else 0) + CountIn(outputs[1..], langs)
  }

  /** `sum(len(group(l)) for l in langs)` over an enumeration of languages. */
  function GroupSizes(outputs: seq<Output>, langs: seq<string>): nat {
    if langs == [] then 0 else |LanguageGroup(outputs, langs[0])| + GroupSizes(outputs, langs[1..])
  }

  predicate NoRepeats<T(==)>(s: seq<T>) {
    forall i, j :: 0 <= i < j < |s| ==> s[i] != s[j]
  }

  lemma {:induction false} CountInSplit(outputs: seq<Output>, lang: string, langs: set<string>)
    requires lang !in langs
    ensures CountIn(outputs, {lang} + langs) == |LanguageGroup(outputs, lang)| + CountIn(outputs, langs)
  {
    if outputs != [] {
      CountInSplit(outputs[1..], lang, langs);
    }
  }

  lemma {:induction false} CountInAll(outputs: seq<Output>, langs: set<string>)
    requires Languages(outputs) <= langs
    ensures CountIn(outputs, langs) == |outputs|
  {
    if outputs != [] {
      assert outputs[0] in outputs;
      assert Languages(outputs[1..]) <= Languages(outputs) by {
        forall l | l in Languages(outputs[1..]) ensures l in Languages(outputs) {
          var o :| o in outputs[1..] && o.language == l;
          assert o in outputs;
        }
      }
      CountInAll(outputs[1..], langs);
    }
  }

  lemma {:induction false} GroupSizesCount(outputs: seq<Output>, langs: seq<string>)
    requires NoRepeats(langs)
    ensures GroupSizes(outputs, langs) == CountIn(outputs, set l | l in langs)
  {
    if langs == [] {
      assert (set l | l in langs) == {};
      CountInNone(outputs);
    } else {
      var rest := set l | l in langs[1..];
      assert (set l | l in langs) == {langs[0]} + rest;
      assert langs[0] !in rest;
      GroupSizesCount(outputs, langs[1..]);
      CountInSplit(outputs, langs[0], rest);
    }
  }

  lemma {:induction false} CountInNone(outputs: seq<Output>)
    ensures CountIn(outputs, {}) == 0
  {
    if outputs != [] {
      CountInNone(outputs[1..]);
    }
  }

  /** The language groups partition the records: over any repetition-free
      enumeration of the record languages, the group sizes add up to the
      number of records. */
  lemma PartitionSizes(outputs: seq<Output>, langs: seq<string>)
    requires NoRepeats(langs)
    requires Languages(outputs) <= set l | l in langs
    ensures GroupSizes(outputs, langs) == |outputs|
  {
    GroupSizesCount(outputs, langs);
    CountInAll(outputs, set l | l in langs);
  }
}
