/** The order-statistic transform of one input line: every symbol of the line
    is replaced by its frequency rank within that line, written in decimal and
    joined by a separator; optionally the rank key follows after a tab. */
module OrderStatTransform {
  import opened Wrappers
  import opened Text
  import opened Cipher

  /** `{k: str(v) for k, v in gen_order_stat_map(line).items()}`: each symbol
      of the line mapped to its rank in decimal. */
  function RankKey(line: string): (freqs: map<string, string>)
    ensures freqs.Keys == OrderStatMap(line).Keys
    ensures forall k :: k in freqs ==> |freqs[k]| >= 1 && forall i :: 0 <= i < |freqs[k]| ==> IsDigit(freqs[k][i])
  {
    var ranks := OrderStatMap(line);
    map k | k in ranks :: Decimal(ranks[k])
  }

  /** The rank of each symbol of the line, one decimal string per symbol. */
  function RankTokens(line: string): (tokens: seq<string>)
    ensures |tokens| == |line|
    ensures forall i :: 0 <= i < |line| ==> [line[i]] in RankKey(line) && tokens[i] == RankKey(line)[[line[i]]]
  {
    seq(|line|, i requires 0 <= i < |line| => RankKey(line)[[line[i]]])
  }

  /** `encrypt(line, freqs, sep=separator)`: it cannot fail, since every
      symbol of the line has a rank. */
  function EncodeSymbols(line: string, separator: string): (encrypted: string)
    ensures Encrypt(line, RankKey(line), separator).Ok?
    ensures encrypted == Join(RankTokens(line), separator)
  {
    RankImages(line);
    Encrypt(line, RankKey(line), separator).value
  }

  /** Every symbol of the line is a key of its rank key, and its images are the rank tokens. */
  lemma RankImages(line: string)
    ensures Images(line, RankKey(line)).Ok?
    ensures Images(line, RankKey(line)).value == RankTokens(line)
  {
    ImagesOfCovered(line, RankKey(line), RankTokens(line));
  }

  /** One output line (without the newline the echo appends): the encoding,
      followed by a tab and the key when `includeKey` is set. `keyRepr` stands
      for Python's rendering of the key dict. */
  function EncodeLine(line: string, separator: string, includeKey: bool, keyRepr: map<string, string> -> string): string {
    var encrypted := EncodeSymbols(line, separator);
    if includeKey then encrypted + "\t" + keyRepr(RankKey(line)) else encrypted
  }

  /** Splitting the encoding of a non-empty line at a one-character non-digit
      separator gives one rank token per symbol of the line. */
  lemma TokenPerSymbol(line: string, d: char)
    requires line != [] && !IsDigit(d)
    ensures SplitOn(EncodeSymbols(line, [d]), d) == RankTokens(line)
    ensures |SplitOn(EncodeSymbols(line, [d]), d)| == |line|
  {
    var tokens := RankTokens(line);
    assert forall i :: 0 <= i < |tokens| ==> d !in tokens[i];
    SplitOnJoin(tokens, d);
  }

  /** The rank key is injective: distinct symbols get distinct tokens. */
  lemma RankKeyInjective(line: string)
    ensures Injective(RankKey(line))
  {
    var m, freqs := OrderStatMap(line), RankKey(line);
    OrderStatMapRanks(line);
    forall a, b | a in freqs && b in freqs && freqs[a] == freqs[b] ensures a == b {
      DecimalInjective(m[a], m[b]);
    }
  }

  /** Two positions of the line get the same token exactly when they hold the same symbol. */
  lemma SameTokenSameSymbol(line: string, i: nat, j: nat)
    requires i < |line| && j < |line|
    ensures RankTokens(line)[i] == RankTokens(line)[j] <==> line[i] == line[j]
  {
    RankKeyInjective(line);
    var tokens := RankTokens(line);
    if tokens[i] == tokens[j] {
      assert [line[i]] == [line[j]];
      assert [line[i]][0] == line[i];
    }
  }

  /** Every token is the decimal form of its symbol's rank, and that rank is
      below the number of distinct symbols of the line. */
  lemma TokensAreRanks(line: string, i: nat)
    requires i < |line|
    ensures var token := RankTokens(line)[i];
      && (forall k :: 0 <= k < |token| ==> IsDigit(token[k]))
      && ParseDecimal(token) == OrderStatMap(line)[[line[i]]]
      && ParseDecimal(token) < NumSymbols(line)
  {
    OrderStatMapRanks(line);
    ParseDecimalOfDecimal(OrderStatMap(line)[[line[i]]]);
  }

  /** The most frequent symbol of the line (the earliest one among equally
      frequent ones) is encoded as `0` wherever it occurs. */
  lemma MostFrequentIsZero(line: string, c: char)
    requires c in line
    requires forall d :: d in line && d != c ==> RanksBefore(line, c, d)
    ensures forall i :: 0 <= i < |line| && line[i] == c ==> RankTokens(line)[i] == "0"
  {
    var m := OrderStatMap(line);
    OrderStatMapIndex(line);
    var top := MostCommon(line)[0];
    assert m[[top]] == 0;
    if top != c {
      RankOrder(line, c, top);
      assert false;
    }
    assert Decimal(0) == "0";
  }

  /** Without `--include-key` the output is the encoding alone; with it, the
      output starts with the encoding, then a tab, then the rendered key. */
  lemma OutputShape(line: string, separator: string, includeKey: bool, keyRepr: map<string, string> -> string)
    ensures !includeKey ==> EncodeLine(line, separator, includeKey, keyRepr) == EncodeSymbols(line, separator)
    ensures includeKey ==> var out, n := EncodeLine(line, separator, includeKey, keyRepr), |EncodeSymbols(line, separator)|;
              && |out| > n && out[..n] == EncodeSymbols(line, separator) && out[n] == '\t'
              && out[n + 1..] == keyRepr(RankKey(line))
  {
    if includeKey {
      TabAfter(EncodeSymbols(line, separator), keyRepr(RankKey(line)));
    }
  }

  lemma TabAfter(a: string, b: string)
    ensures var out := a + "\t" + b; |out| > |a| && out[..|a|] == a && out[|a|] == '\t' && out[|a| + 1..] == b
  {
  }

  /** With `--include-key`, the part of the output line before the first tab
      is the encoding, provided the separator holds no tab. */
  lemma EncodingBeforeTab(line: string, separator: string, keyRepr: map<string, string> -> string)
    requires '\t' !in separator
    ensures SplitOn(EncodeLine(line, separator, true, keyRepr), '\t')[0] == EncodeSymbols(line, separator)
  {
    var tokens := RankTokens(line);
    assert forall i :: 0 <= i < |tokens| ==> '\t' !in tokens[i];
    JoinAvoids(tokens, separator, '\t');
    var encrypted := EncodeSymbols(line, separator);
    assert EncodeLine(line, separator, true, keyRepr) == encrypted + ['\t'] + keyRepr(RankKey(line));
    SplitOnAfterWord(encrypted, '\t', keyRepr(RankKey(line)));
  }

  /** The key makes the encoding reversible: each token of a line split at a
      one-character non-digit separator maps back, through the reversed key,
      to the symbol it encodes. */
  lemma DecodeWithKey(line: string, d: char)
    requires line != [] && !IsDigit(d)
    ensures var tokens := SplitOn(EncodeSymbols(line, [d]), d);
      && |tokens| == |line|
      && forall i :: 0 <= i < |line| ==>
           tokens[i] in Reverse(RankKey(line)) && Reverse(RankKey(line))[tokens[i]] == [line[i]]
  {
    TokenPerSymbol(line, d);
    RankKeyInjective(line);
    ReverseInjective(RankKey(line));
  }
}
