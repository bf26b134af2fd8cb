/** The few Python string operations the modelled code relies on. */
module Text {

  /** Python's `str.isspace` for a single character. */
  predicate IsSpace(c: char) {
    || ('\t' <= c <= '\r')
    || ('\U{1C}' <= c <= '\U{1F}')
    || c == ' '
    || c == '\U{85}'
    || c == '\U{A0}'
    || c == '\U{1680}'
    || ('\U{2000}' <= c <= '\U{200A}')
    || c == '\U{2028}'
    || c == '\U{2029}'
    || c == '\U{202F}'
    || c == '\U{205F}'
    || c == '\U{3000}'
  }

  /** `str.lstrip()`. */
  function StripLeading(s: string): string {
    if s != [] && IsSpace(s[0]) then StripLeading(s[1..]) else s
  }

  /** `str.rstrip()`. */
  function StripTrailing(s: string): string {
    if s != [] && IsSpace(s[|s| - 1]) then StripTrailing(s[..|s| - 1]) else s
  }

  /** `str.strip()`. */
  function Strip(s: string): string {
    StripTrailing(StripLeading(s))
  }

  /** `s.lstrip()` is the suffix of `s` left after its leading whitespace. */
  lemma {:induction false} StripLeadingSpec(s: string)
    ensures var r := StripLeading(s);
      && |r| <= |s| && r == s[|s| - |r|..]
      && (forall i :: 0 <= i < |s| - |r| ==> IsSpace(s[i]))
      && (r != [] ==> !IsSpace(r[0]))
  {
    if s != [] && IsSpace(s[0]) {
      StripLeadingSpec(s[1..]);
    }
  }

  /** `s.rstrip()` is the prefix of `s` left before its trailing whitespace. */
  lemma {:induction false} StripTrailingSpec(s: string)
    ensures var r := StripTrailing(s);
      && |r| <= |s| && r == s[..|r|]
      && (forall i :: |r| <= i < |s| ==> IsSpace(s[i]))
      && (r != [] ==> !IsSpace(r[|r| - 1]))
  {
    if s != [] && IsSpace(s[|s| - 1]) {
      StripTrailingSpec(s[..|s| - 1]);
    }
  }

  /** `s.strip()` is a slice of `s` with no whitespace at either end, and
      everything around it in `s` is whitespace. */
  lemma StripSpec(s: string)
    ensures var r := Strip(s); r != [] ==> !IsSpace(r[0]) && !IsSpace(r[|r| - 1])
    ensures StrippedAt(s, Strip(s), |s| - |StripLeading(s)|)
  {
    StripLeadingSpec(s);
    StripTrailingSpec(StripLeading(s));
  }

  /** `r` sits in `s` at offset `a`, with only whitespace before and after it. */
  ghost predicate StrippedAt(s: string, r: string, a: int) {
    && 0 <= a && a + |r| <= |s|
    && s[a..a + |r|] == r
    && (forall i :: 0 <= i < a ==> IsSpace(s[i]))
    && (forall i :: a + |r| <= i < |s| ==> IsSpace(s[i]))
  }

  lemma StripIdempotent(s: string)
    ensures Strip(Strip(s)) == Strip(s)
  {
    var r := Strip(s);
    StripSpec(s);
    assert StripLeading(r) == r;
    assert StripTrailing(r) == r;
  }

  /** The first run of non-space characters of `s`, when `s` starts with one. */
  function Word(s: string): (w: string)
    ensures |w| <= |s| && w == s[..|w|]
    ensures ' ' !in w
    ensures |w| == |s| || s[|w|] == ' '
  {
    if s == [] || s[0] == ' ' then [] else [s[0]] + Word(s[1..])
  }

  /** The non-empty pieces of `s` between single spaces: `[w for w in s.split(" ") if w]`. */
  function Tokens(s: string): (ts: seq<string>)
    ensures forall i :: 0 <= i < |ts| ==> ts[i] != [] && ' ' !in ts[i]
    decreases |s|
  {
    if s == [] then []
    else if s[0] == ' ' then Tokens(s[1..])
    else
      var w := Word(s);
      [w] + Tokens(s[|w|..])
  }

  /** `sep.join(ts)`. */
  function Join(ts: seq<string>, sep: string): string {
    if |ts| == 0 then ""
    else if |ts| == 1 then ts[0]
    else ts[0] + sep + Join(ts[1..], sep)
  }

  /** `s.split(c)` for a one-character separator: every occurrence splits, empty pieces are kept. */
  function SplitOn(s: string, c: char): (parts: seq<string>)
    ensures |parts| >= 1
    ensures forall i :: 0 <= i < |parts| ==> c !in parts[i]
  {
    if s == [] then [""]
    else if s[0] == c then [""] + SplitOn(s[1..], c)
    else
      var rest := SplitOn(s[1..], c);
      [[s[0]] + rest[0]] + rest[1..]
  }

  lemma {:induction false} WordOfJoined(w: string, tail: string)
    requires w != [] && ' ' !in w
    requires tail == [] || tail[0] == ' '
    ensures Word(w + tail) == w
  {
    if |w| > 1 {
      assert (w + tail)[1..] == w[1..] + tail;
      WordOfJoined(w[1..], tail);
    } else {
      assert (w + tail)[1..] == tail;
    }
  }

  /** Splitting a space-joined list of non-empty, space-free tokens gives the tokens back. */
  lemma {:induction false} TokensOfJoin(ts: seq<string>)
    requires forall i :: 0 <= i < |ts| ==> ts[i] != [] && ' ' !in ts[i]
    ensures Tokens(Join(ts, " ")) == ts
  {
    if |ts| == 1 {
      var w := ts[0];
      assert w + [] == w;
      WordOfJoined(w, []);
      assert w[0] != ' ';
      assert w[|w|..] == [];
      assert Tokens(w) == [w] + Tokens([]);
    } else if |ts| > 1 {
      var w, rest := ts[0], Join(ts[1..], " ");
      var s := w + " " + rest;
      assert s == w + (" " + rest);
      WordOfJoined(w, " " + rest);
      assert s[|w|..] == " " + rest;
      assert (" " + rest)[1..] == rest;
      TokensOfJoin(ts[1..]);
    }
  }

  lemma {:induction false} SplitOnAfterWord(w: string, c: char, tail: string)
    requires c !in w
    ensures SplitOn(w + [c] + tail, c) == [w] + SplitOn(tail, c)
  {
    if w == [] {
      assert w + [c] + tail == [c] + tail;
      assert ([c] + tail)[1..] == tail;
    } else {
      assert (w + [c] + tail)[1..] == w[1..] + [c] + tail;
      SplitOnAfterWord(w[1..], c, tail);
      assert [w[0]] + w[1..] == w;
    }
  }

  lemma {:induction false} SplitOnWord(w: string, c: char)
    requires c !in w
    ensures SplitOn(w, c) == [w]
  {
    if w != [] {
      SplitOnWord(w[1..], c);
      assert [w[0]] + w[1..] == w;
    }
  }

  /** `sep.join(ts).split(sep)` gives `ts` back when the one-character
      separator occurs in none of the (at least one) tokens. */
  lemma {:induction false} SplitOnJoin(ts: seq<string>, c: char)
    requires |ts| >= 1
    requires forall i :: 0 <= i < |ts| ==> c !in ts[i]
    ensures SplitOn(Join(ts, [c]), c) == ts
  {
    if |ts| == 1 {
      SplitOnWord(ts[0], c);
    } else {
      SplitOnAfterWord(ts[0], c, Join(ts[1..], [c]));
      SplitOnJoin(ts[1..], c);
    }
  }

  /** Concatenating one-character strings: `"".join(ts)`. */
  lemma {:induction false} JoinSingles(ts: seq<string>)
    requires forall i :: 0 <= i < |ts| ==> |ts[i]| == 1
    ensures |Join(ts, "")| == |ts|
    ensures forall i :: 0 <= i < |ts| ==> Join(ts, "")[i] == ts[i][0]
  {
    if |ts| > 1 {
      JoinSingles(ts[1..]);
      assert Join(ts, "") == ts[0] + Join(ts[1..], "");
    }
  }

  /** A character in none of the pieces and not in the separator is not in the joined string. */
  lemma {:induction false} JoinAvoids(ts: seq<string>, sep: string, c: char)
    requires forall i :: 0 <= i < |ts| ==> c !in ts[i]
    requires c !in sep
    ensures c !in Join(ts, sep)
  {
    if |ts| > 1 {
      JoinAvoids(ts[1..], sep, c);
    }
  }

  predicate IsDigit(c: char) {
    '0' <= c <= '9'
  }

  function DigitChar(d: nat): (c: char)
    requires d < 10
    ensures IsDigit(c) && c as int - '0' as int == d
  {
    ('0' as int + d) as char
  }

  /** `str(n)` for a non-negative integer. */
  function Decimal(n: nat): (s: string)
    ensures |s| >= 1
    ensures forall i :: 0 <= i < |s| ==> IsDigit(s[i])
    ensures s[0] != '0' || n == 0
  {
    if n < 10 then [DigitChar(n)] else Decimal(n / 10) + [DigitChar(n % 10)]
  }

  /** `int(s)` for a string of decimal digits. */
  function ParseDecimal(s: string): nat
    requires forall i :: 0 <= i < |s| ==> IsDigit(s[i])
  {
    if s == [] then 0
    else
      assert IsDigit(s[|s| - 1]);
      10 * ParseDecimal(s[..|s| - 1]) + (s[|s| - 1] as int - '0' as int)
  }

  lemma {:induction false} ParseDecimalOfDecimal(n: nat)
    ensures ParseDecimal(Decimal(n)) == n
  {
    if n >= 10 {
      var s := Decimal(n);
      assert s[..|s| - 1] == Decimal(n / 10);
      ParseDecimalOfDecimal(n / 10);
    }
  }

  /** Different ranks render as different strings. */
  lemma DecimalInjective(m: nat, n: nat)
    ensures Decimal(m) == Decimal(n) <==> m == n
  {
    if Decimal(m) == Decimal(n) {
      ParseDecimalOfDecimal(m);
      ParseDecimalOfDecimal(n);
    }
  }
}
