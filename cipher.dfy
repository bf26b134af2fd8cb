/** The frequency-rank substitution cipher: `encrypt`, `gen_order_stat_map`,
    `reverse`, `decrypt` and `infer_key`. A Python dict keyed by symbols is a
    `map<string, _>` whose keys are one-character strings. */
module Cipher {
  import opened Wrappers
  import opened Text

  /** `Counter(s)[c]`. */
  function Count(s: string, c: char): nat {
    multiset(s)[c]
  }

  /** Index of the first occurrence of `c` in `s`. */
  function First(s: string, c: char): (i: nat)
    requires c in s
    ensures i < |s| && s[i] == c && c !in s[..i]
  {
    if s[0] == c then 0
    else
      var i := 1 + First(s[1..], c);
      assert s[..i] == [s[0]] + s[1..][..i - 1];
      i
  }

  lemma FirstUnique(s: string, c: char, k: nat)
    requires k < |s| && s[k] == c && c !in s[..k]
    ensures First(s, c) == k
  {
  }

  lemma FirstOfPrefix(s: string, n: nat, c: char)
    requires n <= |s| && c in s[..n]
    ensures c in s && First(s, c) == First(s[..n], c)
  {
    var j := First(s[..n], c);
    assert s[..n][..j] == s[..j];
    FirstUnique(s, c, j);
  }

  /** The distinct symbols of `s` in order of first occurrence: the key order of `Counter(s)`. */
  function Distinct(s: string): (d: seq<char>)
    ensures forall c :: c in d <==> c in s
    ensures forall i, j :: 0 <= i < j < |d| ==> First(s, d[i]) < First(s, d[j])
  {
    if s == [] then []
    else
      var prefix, last := s[..|s| - 1], s[|s| - 1];
      var d := Distinct(prefix);
      assert s == prefix + [last];
      assert forall i :: 0 <= i < |d| ==> First(s, d[i]) == First(prefix, d[i]) < |prefix| by {
        forall i | 0 <= i < |d| ensures First(s, d[i]) == First(prefix, d[i]) < |prefix| {
          FirstOfPrefix(s, |s| - 1, d[i]);
        }
      }
      if last in d then d
      else
        FirstUnique(s, last, |s| - 1);
        d + [last]
  }

  /** Number of distinct symbols of `s`. */
  function NumSymbols(s: string): nat {
    |Distinct(s)|
  }

  /** `a` precedes `b` in `Counter(s).most_common()`: it is more frequent, or
      equally frequent and seen first (the sort is stable over insertion order). */
  predicate RanksBefore(s: string, a: char, b: char)
    requires a in s && b in s
  {
    Count(s, a) > Count(s, b) || (Count(s, a) == Count(s, b) && First(s, a) < First(s, b))
  }

  /** `r` lists symbols of `s`, each strictly before the ones after it. */
  predicate StrictlyRanked(s: string, r: seq<char>) {
    && (forall i :: 0 <= i < |r| ==> r[i] in s)
    && (forall i, j :: 0 <= i < j < |r| ==> RanksBefore(s, r[i], r[j]))
  }

  /** One step of a stable sort by descending count: `x` goes before the first
      element that is not more frequent than it. */
  function Insert(s: string, x: char, ys: seq<char>): (r: seq<char>)
    ensures multiset(r) == multiset(ys) + multiset{x}
  {
    if ys == [] || Count(s, ys[0]) <= Count(s, x) then [x] + ys
    else
      assert ys == [ys[0]] + ys[1..];
      [ys[0]] + Insert(s, x, ys[1..])
  }

  /** Stable sort of `xs` by descending count in `s`. */
  function SortByCount(s: string, xs: seq<char>): (r: seq<char>)
    ensures multiset(r) == multiset(xs)
  {
    if xs == [] then []
    else
      assert xs == [xs[0]] + xs[1..];
      Insert(s, xs[0], SortByCount(s, xs[1..]))
  }

  /** Putting a symbol that precedes every element in front of a strictly ranked list keeps it strictly ranked. */
  lemma ConsRanked(s: string, y: char, rest: seq<char>)
    requires y in s && StrictlyRanked(s, rest)
    requires forall c :: c in rest ==> c in s && RanksBefore(s, y, c)
    ensures StrictlyRanked(s, [y] + rest)
  {
    var r := [y] + rest;
    forall i, j | 0 <= i < j < |r| ensures RanksBefore(s, r[i], r[j]) {
      assert r[j] == rest[j - 1];
      if i > 0 {
        assert r[i] == rest[i - 1];
      }
    }
  }

  /** The head of a strictly ranked list precedes every other element. */
  lemma RankedHead(s: string, r: seq<char>)
    requires StrictlyRanked(s, r) && r != []
    ensures r[0] in s
    ensures forall c :: c in r && c != r[0] ==> c in s && RanksBefore(s, r[0], c)
  {
    forall c | c in r && c != r[0] ensures c in s && RanksBefore(s, r[0], c) {
      var j :| 0 <= j < |r| && r[j] == c;
    }
  }

  /** The tail of a strictly ranked list is strictly ranked and holds exactly the other symbols. */
  lemma RankedTail(s: string, r: seq<char>)
    requires StrictlyRanked(s, r) && r != []
    ensures StrictlyRanked(s, r[1..])
    ensures forall c :: c in r[1..] <==> c in r && c != r[0]
  {
    RankedDistinct(s, r);
    var t := r[1..];
    assert forall i :: 0 <= i < |t| ==> t[i] == r[i + 1];
    forall c | c in t ensures c != r[0] {
      var i :| 0 <= i < |t| && t[i] == c;
    }
    forall c | c in r && c != r[0] ensures c in t {
      var j :| 0 <= j < |r| && r[j] == c;
      assert t[j - 1] == c;
    }
  }

  lemma {:induction false} InsertRanked(s: string, x: char, ys: seq<char>)
    requires x in s && StrictlyRanked(s, ys)
    requires forall i :: 0 <= i < |ys| ==> First(s, x) < First(s, ys[i])
    ensures StrictlyRanked(s, Insert(s, x, ys))
  {
    if ys == [] || Count(s, ys[0]) <= Count(s, x) {
      if ys != [] {
        RankedHead(s, ys);
        assert RanksBefore(s, x, ys[0]);
      }
      forall c | c in ys ensures c in s && RanksBefore(s, x, c) {
        var j :| 0 <= j < |ys| && ys[j] == c;
      }
      ConsRanked(s, x, ys);
    } else {
      RankedTail(s, ys);
      RankedHead(s, ys);
      var tail := ys[1..];
      assert forall i :: 0 <= i < |tail| ==> tail[i] == ys[i + 1];
      InsertRanked(s, x, tail);
      var rest := Insert(s, x, tail);
      forall c | c in rest ensures c in s && RanksBefore(s, ys[0], c) {
        assert c in multiset(rest);
        if c != x {
          assert c in multiset(tail);
        }
      }
      ConsRanked(s, ys[0], rest);
    }
  }

  lemma {:induction false} SortRanked(s: string, xs: seq<char>)
    requires forall i :: 0 <= i < |xs| ==> xs[i] in s
    requires forall i, j :: 0 <= i < j < |xs| ==> First(s, xs[i]) < First(s, xs[j])
    ensures StrictlyRanked(s, SortByCount(s, xs))
  {
    if xs != [] {
      var tail := xs[1..];
      assert forall i :: 0 <= i < |tail| ==> tail[i] == xs[i + 1];
      SortRanked(s, tail);
      var sorted := SortByCount(s, tail);
      forall i | 0 <= i < |sorted| ensures First(s, xs[0]) < First(s, sorted[i]) {
        assert sorted[i] in multiset(tail);
        var k :| 0 <= k < |tail| && tail[k] == sorted[i];
      }
      InsertRanked(s, xs[0], sorted);
    }
  }

  /** The symbols of `Counter(s).most_common()`, most frequent first, ties in
      order of first occurrence. */
  function MostCommon(s: string): (r: seq<char>)
    ensures forall c :: c in r <==> c in s
    ensures StrictlyRanked(s, r)
    ensures |r| == NumSymbols(s)
  {
    var d := Distinct(s);
    SortRanked(s, d);
    var r := SortByCount(s, d);
    assert forall c :: c in r <==> c in multiset(d);
    assert |r| == |multiset(r)| == |multiset(d)| == |d|;
    r
  }

  /** No symbol precedes itself, so a strictly ranked list has no repeats. */
  lemma RankedDistinct(s: string, r: seq<char>)
    requires StrictlyRanked(s, r)
    ensures forall i, j :: 0 <= i < |r| && 0 <= j < |r| && r[i] == r[j] ==> i == j
  {
  }

  lemma SameEmptiness(r1: seq<char>, r2: seq<char>)
    requires forall c :: c in r1 <==> c in r2
    ensures r1 == [] <==> r2 == []
  {
    if r1 != [] {
      assert r1[0] in r2;
    }
    if r2 != [] {
      assert r2[0] in r1;
    }
  }

  /** A strictly ranked listing of a symbol set is unique: there is one
      `most_common()` order. */
  lemma {:induction false} RankedUnique(s: string, r1: seq<char>, r2: seq<char>)
    requires StrictlyRanked(s, r1) && StrictlyRanked(s, r2)
    requires forall c :: c in r1 <==> c in r2
    ensures r1 == r2
  {
    SameEmptiness(r1, r2);
    if r1 != [] {
      var x, y := r1[0], r2[0];
      RankedHead(s, r1);
      RankedHead(s, r2);
      assert x == y;
      RankedTail(s, r1);
      RankedTail(s, r2);
      RankedUnique(s, r1[1..], r2[1..]);
      assert r1 == [x] + r1[1..] && r2 == [y] + r2[1..];
    }
  }

  /** Each symbol of the repetition-free `r`, as a one-character string, mapped to its index. */
  function IndexMap(r: seq<char>): (m: map<string, nat>)
    requires forall i, j :: 0 <= i < |r| && 0 <= j < |r| && r[i] == r[j] ==> i == j
    ensures forall k :: k in m <==> |k| == 1 && k[0] in r
    ensures forall i :: 0 <= i < |r| ==> [r[i]] in m && m[[r[i]]] == i
  {
    var m := map i | 0 <= i < |r| :: [r[i]] := i;
    assert forall k :: k in m ==> |k| == 1 && k[0] in r;
    assert forall k :: |k| == 1 && k[0] in r ==> k in m by {
      forall k | |k| == 1 && k[0] in r ensures k in m {
        var i :| 0 <= i < |r| && r[i] == k[0];
        assert k == [r[i]];
      }
    }
    m
  }

  /** `{sym: ix for ix, (sym, _) in enumerate(Counter(s).most_common())}`. */
  function OrderStatMap(s: string): (m: map<string, nat>)
    ensures forall k :: k in m <==> |k| == 1 && k[0] in s
  {
    var r := MostCommon(s);
    RankedDistinct(s, r);
    IndexMap(r)
  }

  /** The symbol at position `i` of `most_common()` has rank `i`. */
  lemma OrderStatMapIndex(s: string)
    ensures forall i :: 0 <= i < NumSymbols(s) ==>
              [MostCommon(s)[i]] in OrderStatMap(s) && OrderStatMap(s)[[MostCommon(s)[i]]] == i
  {
    RankedDistinct(s, MostCommon(s));
  }

  /** Every rank is below the number of symbols, and no two symbols share one. */
  lemma OrderStatMapRanks(s: string)
    ensures forall k :: k in OrderStatMap(s) ==> OrderStatMap(s)[k] < NumSymbols(s)
    ensures Injective(OrderStatMap(s))
  {
    var r, m := MostCommon(s), OrderStatMap(s);
    OrderStatMapIndex(s);
    forall k | k in m ensures exists i :: 0 <= i < |r| && k == [r[i]] && m[k] == i {
      var i :| 0 <= i < |r| && r[i] == k[0];
      assert k == [r[i]];
    }
  }

  /** The ranks of `s`'s symbols are exactly `0 .. NumSymbols(s) - 1`. */
  lemma OrderStatMapValues(s: string)
    ensures forall i :: i in OrderStatMap(s).Values <==> 0 <= i < NumSymbols(s)
  {
    var m := OrderStatMap(s);
    OrderStatMapRanks(s);
    OrderStatMapIndex(s);
    forall i | i in m.Values ensures 0 <= i < NumSymbols(s) {
      var k :| k in m && m[k] == i;
    }
    forall i | 0 <= i < NumSymbols(s) ensures i in m.Values {
      assert [MostCommon(s)[i]] in m;
    }
  }

  /** Rank order is `most_common()` order: `a` gets a smaller rank than `b`
      exactly when it is more frequent, or as frequent and seen first. */
  lemma RankOrder(s: string, a: char, b: char)
    requires a in s && b in s
    ensures [a] in OrderStatMap(s) && [b] in OrderStatMap(s)
    ensures OrderStatMap(s)[[a]] < OrderStatMap(s)[[b]] <==> RanksBefore(s, a, b)
  {
    var r, m := MostCommon(s), OrderStatMap(s);
    OrderStatMapIndex(s);
    var i :| 0 <= i < |r| && r[i] == a;
    var j :| 0 <= j < |r| && r[j] == b;
    assert m[[a]] == i && m[[b]] == j;
    if j < i {
      assert RanksBefore(s, b, a);
    }
  }

  /** A strictly more frequent symbol gets a strictly smaller rank; equally
      frequent symbols are ranked by first occurrence. */
  lemma RankByFrequency(s: string, a: char, b: char)
    requires a in s && b in s
    ensures [a] in OrderStatMap(s) && [b] in OrderStatMap(s)
    ensures Count(s, a) > Count(s, b) ==> OrderStatMap(s)[[a]] < OrderStatMap(s)[[b]]
    ensures Count(s, a) == Count(s, b) ==>
              (OrderStatMap(s)[[a]] < OrderStatMap(s)[[b]] <==> First(s, a) < First(s, b))
  {
    RankOrder(s, a, b);
  }

  /** The key images of the symbols of `msg`, in order; the first symbol that
      is not a key raises `KeyError`. */
  function Images(msg: string, key: map<string, string>): (r: Result<seq<string>>)
    ensures r.Ok? <==> forall i :: 0 <= i < |msg| ==> [msg[i]] in key
    ensures r.Ok? ==> |r.value| == |msg| && forall i :: 0 <= i < |msg| ==> r.value[i] == key[[msg[i]]]
    ensures r.Err? ==> exists i :: FirstMissing(msg, key, i) && r.error == MissingKey([msg[i]])
  {
    if msg == [] then Ok([])
    else if [msg[0]] !in key then
      assert FirstMissing(msg, key, 0);
      Err(MissingKey([msg[0]]))
    else
      var rest := Images(msg[1..], key);
      if rest.Err? then
        var i :| FirstMissing(msg[1..], key, i) && rest.error == MissingKey([msg[1..][i]]);
        assert FirstMissing(msg, key, i + 1);
        Err(rest.error)
      else
        Ok([key[[msg[0]]]] + rest.value)
  }

  /** A message whose every symbol is a key has exactly the given images. */
  lemma ImagesOfCovered(msg: string, key: map<string, string>, images: seq<string>)
    requires |images| == |msg|
    requires forall i :: 0 <= i < |msg| ==> [msg[i]] in key && images[i] == key[[msg[i]]]
    ensures Images(msg, key) == Ok(images)
  {
    assert Images(msg, key).value == images;
  }

  /** `msg[i]` is the first symbol of `msg` that is not a key. */
  predicate FirstMissing(msg: string, key: map<string, string>, i: int) {
    0 <= i < |msg| && [msg[i]] !in key && forall k :: 0 <= k < i ==> [msg[k]] in key
  }

  /** `encrypt(msg, key, sep)`: the images of the symbols of `msg`, joined by `sep`. */
  function Encrypt(msg: string, key: map<string, string>, sep: string): (r: Result<string>)
    ensures r.Ok? <==> forall c :: c in msg ==> [c] in key
    ensures r.Ok? ==> var images := Images(msg, key).value;
              && |images| == |msg|
              && (forall i :: 0 <= i < |msg| ==> images[i] == key[[msg[i]]])
              && r.value == Join(images, sep)
    ensures r.Err? ==> exists i :: FirstMissing(msg, key, i) && r.error == MissingKey([msg[i]])
  {
    var images :- Images(msg, key);
    Ok(Join(images, sep))
  }

  ghost predicate Injective<K, V>(d: map<K, V>) {
    forall a, b :: a in d && b in d && d[a] == d[b] ==> a == b
  }

  /** `reverse(d)`: every value of `d` mapped back to a key that has it (for a
      map that is not injective, which of the keys is not modelled). */
  ghost function Reverse<K, V>(d: map<K, V>): (r: map<V, K>)
    ensures r.Keys == d.Values
    ensures forall v :: v in r ==> r[v] in d && d[r[v]] == v
  {
    map v | v in d.Values :: var k :| k in d && d[k] == v; k
  }

  /** For an injective map, `reverse` undoes the map, is injective itself, and
      reversing twice gives the map back. */
  lemma ReverseInjective<K, V>(d: map<K, V>)
    requires Injective(d)
    ensures forall k :: k in d ==> d[k] in Reverse(d) && Reverse(d)[d[k]] == k
    ensures Injective(Reverse(d))
    ensures Reverse(Reverse(d)) == d
  {
    var r := Reverse(d);
    assert forall k :: k in d ==> d[k] in d.Values;
    var rr := Reverse(r);
    assert rr.Keys == d.Keys by {
      forall k | k in d ensures k in r.Values {
        assert r[d[k]] == k;
      }
      forall k | k in r.Values ensures k in d {
        var v :| v in r && r[v] == k;
      }
    }
    forall k | k in d ensures rr[k] == d[k] {
      assert r[d[k]] == k;
      var v := rr[k];
      assert r[v] == k;
    }
  }

  /** `decrypt(ciphertext, key)`: encryption under the reversed key, no separator. */
  ghost function Decrypt(ciphertext: string, key: map<string, string>): Result<string>
  {
    Encrypt(ciphertext, Reverse(key), "")
  }

  /** Decryption undoes encryption without separator under an injective key
      of one-character values that covers the message. */
  lemma DecryptEncrypt(msg: string, key: map<string, string>)
    requires Injective(key)
    requires forall k :: k in key ==> |key[k]| == 1
    requires forall c :: c in msg ==> [c] in key
    ensures Encrypt(msg, key, "").Ok?
    ensures Decrypt(Encrypt(msg, key, "").value, key) == Ok(msg)
  {
    var images := Images(msg, key).value;
    JoinSingles(images);
    var q := Join(images, "");
    assert forall i :: 0 <= i < |q| ==> [q[i]] == key[[msg[i]]];
    var inv := Reverse(key);
    ReverseInjective(key);
    assert forall i :: 0 <= i < |q| ==> [q[i]] in inv && inv[[q[i]]] == [msg[i]];
    var back := Images(q, inv).value;
    JoinSingles(back);
    assert Join(back, "") == msg;
  }

  /** Every plaintext rank is a ciphertext rank exactly when the ciphertext
      has at least as many symbols. */
  lemma RanksCovered(p: string, c: string)
    ensures (forall sym :: sym in OrderStatMap(p) ==> OrderStatMap(p)[sym] in OrderStatMap(c).Values)
            <==> NumSymbols(p) <= NumSymbols(c)
  {
    var kp, kc := OrderStatMap(p), OrderStatMap(c);
    OrderStatMapValues(p);
    OrderStatMapValues(c);
    OrderStatMapIndex(p);
    if NumSymbols(c) < NumSymbols(p) {
      var sym := [MostCommon(p)[NumSymbols(c)]];
      assert sym in kp && kp[sym] !in kc.Values;
    } else {
      forall sym | sym in kp ensures kp[sym] in kc.Values {
        assert kp[sym] in kp.Values;
      }
    }
  }

  /** The loop of `infer_key` over rank maps: each plaintext symbol mapped to
      the ciphertext symbol of the same rank; a rank the ciphertext lacks is
      reported as `missing` (the plaintext ranks are visited in increasing
      order, and `InferKey` shows which rank that is). */
  ghost function MatchRanks(kPlain: map<string, nat>, kCipher: map<string, nat>, missing: nat): (r: Result<map<string, string>>)
    ensures r.Ok? <==> forall sym :: sym in kPlain ==> kPlain[sym] in kCipher.Values
    ensures r.Err? ==> r.error == MissingRank(missing)
    ensures r.Ok? ==> r.value.Keys == kPlain.Keys
    ensures r.Ok? ==> forall sym :: sym in r.value ==> r.value[sym] in kCipher && kCipher[r.value[sym]] == kPlain[sym]
  {
    var kCipherInv := Reverse(kCipher);
    if forall sym :: sym in kPlain ==> kPlain[sym] in kCipherInv then
      Ok(map sym | sym in kPlain :: kCipherInv[kPlain[sym]])
    else
      Err(MissingRank(missing))
  }

  /** `infer_key(plaintext, ciphertext)`: the plaintext symbol of rank `i`
      mapped to the ciphertext symbol of rank `i`. When the ciphertext has
      fewer symbols, the lookup fails at rank `NumSymbols(ciphertext)`: the
      smallest plaintext rank the ciphertext lacks. */
  ghost function InferKey(plaintext: string, ciphertext: string): (r: Result<map<string, string>>)
    ensures r.Ok? <==> NumSymbols(plaintext) <= NumSymbols(ciphertext)
    ensures r.Err? ==> r.error == MissingRank(NumSymbols(ciphertext))
    ensures r.Err? ==> var rank := NumSymbols(ciphertext);
              && rank in OrderStatMap(plaintext).Values && rank !in OrderStatMap(ciphertext).Values
              && forall i :: 0 <= i < rank ==> i in OrderStatMap(plaintext).Values && i in OrderStatMap(ciphertext).Values
    ensures r.Ok? ==> r.value.Keys == OrderStatMap(plaintext).Keys
    ensures r.Ok? ==> forall sym :: sym in r.value ==>
              r.value[sym] in OrderStatMap(ciphertext)
              && OrderStatMap(ciphertext)[r.value[sym]] == OrderStatMap(plaintext)[sym]
  {
    RanksCovered(plaintext, ciphertext);
    OrderStatMapValues(plaintext);
    OrderStatMapValues(ciphertext);
    MatchRanks(OrderStatMap(plaintext), OrderStatMap(ciphertext), NumSymbols(ciphertext))
  }

  /** `q` is `p` with every symbol replaced through the injective map `g`. */
  ghost predicate ImageOf(g: map<char, char>, p: string, q: string) {
    && Injective(g)
    && |q| == |p|
    && (forall i :: 0 <= i < |p| ==> p[i] in g && q[i] == g[p[i]])
  }

  lemma {:induction false} CountImage(g: map<char, char>, p: string, q: string, a: char)
    requires ImageOf(g, p, q) && a in g
    ensures Count(q, g[a]) == Count(p, a)
  {
    if p != [] {
      assert ImageOf(g, p[1..], q[1..]);
      CountImage(g, p[1..], q[1..], a);
      assert p == [p[0]] + p[1..] && q == [q[0]] + q[1..];
      assert q[0] == g[a] <==> p[0] == a;
    }
  }

  lemma FirstImage(g: map<char, char>, p: string, q: string, a: char)
    requires ImageOf(g, p, q) && a in p
    ensures g[a] in q && First(q, g[a]) == First(p, a)
  {
    var k := First(p, a);
    assert q[k] == g[a];
    FirstUnique(q, g[a], k);
  }

  /** Substituting through an injective map keeps the ranking: the symbol of
      rank `i` in `q` is the image of the symbol of rank `i` in `p`. */
  lemma MostCommonImage(g: map<char, char>, p: string, q: string)
    requires ImageOf(g, p, q)
    ensures |MostCommon(q)| == |MostCommon(p)|
    ensures forall i :: 0 <= i < |MostCommon(p)| ==> MostCommon(q)[i] == g[MostCommon(p)[i]]
  {
    var r := MostCommon(p);
    var image := seq(|r|, i requires 0 <= i < |r| => g[r[i]]);
    ImageRanked(g, p, q, r);
    ImageSymbols(g, p, q, r);
    RankedUnique(q, image, MostCommon(q));
  }

  /** A strictly ranked list of `p`'s symbols, mapped through `g`, is strictly ranked in `q`. */
  lemma ImageRanked(g: map<char, char>, p: string, q: string, r: seq<char>)
    requires ImageOf(g, p, q) && StrictlyRanked(p, r)
    ensures forall i :: 0 <= i < |r| ==> r[i] in g
    ensures StrictlyRanked(q, seq(|r|, i requires 0 <= i < |r| => g[r[i]]))
  {
    assert forall i :: 0 <= i < |r| ==> r[i] in p && r[i] in g;
    var image := seq(|r|, i requires 0 <= i < |r| => g[r[i]]);
    forall i | 0 <= i < |r|
      ensures image[i] in q && Count(q, image[i]) == Count(p, r[i]) && First(q, image[i]) == First(p, r[i])
    {
      CountImage(g, p, q, r[i]);
      FirstImage(g, p, q, r[i]);
    }
    forall i, j | 0 <= i < j < |image| ensures RanksBefore(q, image[i], image[j]) {
      assert RanksBefore(p, r[i], r[j]);
    }
  }

  /** Mapping all of `p`'s symbols through `g` gives all of `q`'s. */
  lemma ImageSymbols(g: map<char, char>, p: string, q: string, r: seq<char>)
    requires ImageOf(g, p, q)
    requires forall c :: c in r <==> c in p
    ensures forall i :: 0 <= i < |r| ==> r[i] in g
    ensures forall c :: c in seq(|r|, i requires 0 <= i < |r| => g[r[i]]) <==> c in q
  {
    forall i | 0 <= i < |r| ensures r[i] in p && r[i] in g {
      assert r[i] in r;
    }
    var image := seq(|r|, i requires 0 <= i < |r| => g[r[i]]);
    forall c | c in image ensures c in q {
      var i :| 0 <= i < |image| && image[i] == c;
      var k :| 0 <= k < |p| && p[k] == r[i];
      assert q[k] == c;
    }
    forall c | c in q ensures c in image {
      var k :| 0 <= k < |q| && q[k] == c;
      assert p[k] in r;
      var i :| 0 <= i < |r| && r[i] == p[k];
      assert image[i] == c;
    }
  }

  /** Encrypting through the injective map `g` keeps every symbol's rank. */
  lemma RankImage(g: map<char, char>, p: string, q: string, a: char)
    requires ImageOf(g, p, q) && a in p
    ensures [a] in OrderStatMap(p) && [g[a]] in OrderStatMap(q)
    ensures OrderStatMap(q)[[g[a]]] == OrderStatMap(p)[[a]]
  {
    MostCommonImage(g, p, q);
    OrderStatMapIndex(p);
    OrderStatMapIndex(q);
    var r := MostCommon(p);
    var i :| 0 <= i < |r| && r[i] == a;
    assert OrderStatMap(p)[[a]] == i;
    assert MostCommon(q)[i] == g[a];
  }

  /** The symbol map of a one-character-valued key. */
  ghost function SymbolMap(p: string, key: map<string, string>): (g: map<char, char>)
    requires forall c :: c in p ==> [c] in key && |key[[c]]| == 1
    ensures g.Keys == set c | c in p
  {
    map c | c in p :: key[[c]][0]
  }

  lemma SymbolMapAt(p: string, key: map<string, string>, k: string)
    requires forall c :: c in p ==> [c] in key && |key[[c]]| == 1
    requires k in OrderStatMap(p)
    ensures k == [k[0]] && k[0] in p && k in key
    ensures [SymbolMap(p, key)[k[0]]] == key[k]
  {
    var v := key[[k[0]]];
    assert v == [v[0]];
    assert k == [k[0]];
  }

  lemma EncryptionImage(p: string, key: map<string, string>)
    requires Injective(key)
    requires forall k :: k in key ==> |key[k]| == 1
    requires forall c :: c in p ==> [c] in key
    ensures Encrypt(p, key, "").Ok?
    ensures ImageOf(SymbolMap(p, key), p, Encrypt(p, key, "").value)
  {
    var g := SymbolMap(p, key);
    var images := Images(p, key).value;
    JoinSingles(images);
    forall a, b | a in g && b in g && g[a] == g[b] ensures a == b {
      assert [g[a]] == key[[a]] && [g[b]] == key[[b]];
      assert [a] == [b];
      assert [a][0] == a;
    }
  }

  /** Without separator, an injective one-character key preserves how often
      and where first each symbol occurs. */
  lemma EncryptPreservesStatistics(p: string, key: map<string, string>, a: char)
    requires Injective(key)
    requires forall k :: k in key ==> |key[k]| == 1
    requires forall c :: c in p ==> [c] in key
    requires a in p
    ensures Encrypt(p, key, "").Ok?
    ensures var q := Encrypt(p, key, "").value;
      && |q| == |p|
      && [q[First(p, a)]] == key[[a]]
      && Count(q, q[First(p, a)]) == Count(p, a)
      && First(q, q[First(p, a)]) == First(p, a)
  {
    EncryptionImage(p, key);
    var g, q := SymbolMap(p, key), Encrypt(p, key, "").value;
    CountImage(g, p, q, a);
    FirstImage(g, p, q, a);
  }

  /** `infer_key` maps each symbol of `p` to its image in `q`. */
  lemma InferredSymbol(g: map<char, char>, p: string, q: string, a: char)
    requires ImageOf(g, p, q) && a in p
    requires NumSymbols(p) <= NumSymbols(q)
    ensures InferKey(p, q).Ok? && [a] in InferKey(p, q).value
    ensures InferKey(p, q).value[[a]] == [g[a]]
  {
    var inferred, kq := InferKey(p, q).value, OrderStatMap(q);
    RankImage(g, p, q, a);
    OrderStatMapRanks(q);
    assert kq[inferred[[a]]] == kq[[g[a]]];
  }

  /** `infer_key` on a plaintext and its image through an injective symbol map recovers the map. */
  lemma InferKeyOfImage(g: map<char, char>, p: string, q: string)
    requires ImageOf(g, p, q)
    ensures InferKey(p, q).Ok?
    ensures InferKey(p, q).value.Keys == OrderStatMap(p).Keys
    ensures forall a :: a in p ==> InferKey(p, q).value[[a]] == [g[a]]
  {
    MostCommonImage(g, p, q);
    forall a | a in p ensures InferKey(p, q).value[[a]] == [g[a]] {
      InferredSymbol(g, p, q, a);
    }
  }

  lemma InferredAt(p: string, key: map<string, string>, q: string, k: string)
    requires forall c :: c in p ==> [c] in key && |key[[c]]| == 1
    requires ImageOf(SymbolMap(p, key), p, q)
    requires k in OrderStatMap(p)
    ensures InferKey(p, q).Ok? && k in InferKey(p, q).value && k in key
    ensures InferKey(p, q).value[k] == key[k]
  {
    var g := SymbolMap(p, key);
    MostCommonImage(g, p, q);
    SymbolMapAt(p, key, k);
    InferredSymbol(g, p, q, k[0]);
  }

  /** `infer_key` recovers an injective one-character key on every symbol
      of the plaintext, from the plaintext and its encryption. */
  lemma InferKeyOfEncryption(p: string, key: map<string, string>)
    requires Injective(key)
    requires forall k :: k in key ==> |key[k]| == 1
    requires forall c :: c in p ==> [c] in key
    ensures Encrypt(p, key, "").Ok?
    ensures var inferred := InferKey(p, Encrypt(p, key, "").value);
      && inferred.Ok?
      && inferred.value.Keys == OrderStatMap(p).Keys
      && forall k :: k in inferred.value ==> k in key && inferred.value[k] == key[k]
  {
    EncryptionImage(p, key);
    var q := Encrypt(p, key, "").value;
    InferKeyOfImage(SymbolMap(p, key), p, q);
    forall k | k in InferKey(p, q).value ensures k in key && InferKey(p, q).value[k] == key[k] {
      InferredAt(p, key, q, k);
    }
  }
}
