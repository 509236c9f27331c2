/** Estimating the model from the training corpus:
    `calcular_probabilidades_a_priori` and
    `calcular_probabilidades_condicionales`. Python's floats are modelled as
    exact reals. */
module Estimation {
  import opened OrderedDict
  import opened PyStr
  import opened Corpus

  /** The sum of a table of reals. */
  function SumValues(t: Dict<real>): real
  {
    if t == [] then 0.0 else t[0].1 + SumValues(t[1..])
  }

  // ---------------------------------------------------------------------
  // Priors (`calcular_probabilidades_a_priori`)
  // ---------------------------------------------------------------------

  /** `sum(len(tweets) for tweets in diccionario.values())`. */
  function TotalTweets(d: Corpus): nat
  {
    if d == [] then 0 else |d[0].1| + TotalTweets(d[1..])
  }

  /** `{usuario: len(tweets) / total for usuario, tweets in d.items()}`. */
  function Shares(d: Corpus, total: nat): (r: Dict<real>)
    requires total > 0
    ensures Keys(r) == Keys(d)
  {
    if d == [] then []
    else
      var r := [(d[0].0, |d[0].1| as real / total as real)] + Shares(d[1..], total);
      assert Keys(r) == [d[0].0] + Keys(d[1..]);
      r
  }

  /** `calcular_probabilidades_a_priori`. The division by the total is only
      evaluated for an entry of the dict, so an empty dict gives an empty
      table, and a non-empty dict without tweets divides by zero. */
  function Priors(d: Corpus): (r: Result<Dict<real>>)
    ensures r.Err? <==> d != [] && TotalTweets(d) == 0
    ensures r.Err? ==> r.error == ZeroDivisionError
    ensures r.Ok? ==> Keys(r.value) == Keys(d)
  {
    var total := TotalTweets(d);
    if d == [] then Ok([])
    else if total == 0 then Err(ZeroDivisionError)
    else Ok(Shares(d, total))
  }

  lemma {:induction false} SharesAt(d: Corpus, total: nat, i: nat)
    requires total > 0 && i < |d|
    ensures Shares(d, total)[i].1 == |d[i].1| as real / total as real
  {
    if i > 0 {
      SharesAt(d[1..], total, i - 1);
    }
  }

  lemma {:induction false} SumShares(d: Corpus, total: nat)
    requires total > 0
    ensures SumValues(Shares(d, total)) == TotalTweets(d) as real / total as real
  {
    if d != [] {
      SumShares(d[1..], total);
      var a, b := |d[0].1| as real, TotalTweets(d[1..]) as real;
      assert a / total as real + b / total as real == (a + b) / total as real;
    }
  }

  lemma {:induction false} TweetsBelowTotal(d: Corpus, i: nat)
    requires i < |d|
    ensures |d[i].1| <= TotalTweets(d)
    ensures |d[i].1| == TotalTweets(d) ==> forall j :: 0 <= j < |d| && j != i ==> d[j].1 == []
  {
    if i > 0 {
      TweetsBelowTotal(d[1..], i - 1);
    } else if d[1..] != [] {
      forall j | 0 < j < |d| ensures |d[j].1| <= TotalTweets(d[1..]) {
        TweetsBelowTotal(d[1..], j - 1);
      }
    }
  }

  /** An author's prior is its share of the training tweets: between 0 and
      1, and 0 exactly when the author has no training tweet. */
  lemma PriorIsShare(d: Corpus, i: nat)
    requires Priors(d).Ok? && i < |d|
    ensures var p := Priors(d).value;
      |p| == |d| && p[i].0 == d[i].0 &&
      p[i].1 == |d[i].1| as real / TotalTweets(d) as real &&
      0.0 <= p[i].1 <= 1.0 &&
      (p[i].1 == 0.0 <==> d[i].1 == [])
  {
    var p := Priors(d).value;
    assert Keys(p)[i] == Keys(d)[i];
    SharesAt(d, TotalTweets(d), i);
    TweetsBelowTotal(d, i);
    Fraction(|d[i].1|, TotalTweets(d));
  }

  /** A part over a positive whole lies in [0, 1] and is 0 only for no part. */
  lemma Fraction(part: nat, whole: nat)
    requires 0 < whole && part <= whole
    ensures var q := part as real / whole as real;
      0.0 <= q <= 1.0 && (q == 0.0 <==> part == 0) && (q == 1.0 <==> part == whole)
  {
    var q := part as real / whole as real;
    assert q * whole as real == part as real;
  }

  /** The priors of a non-empty training corpus sum to exactly 1. */
  lemma PriorsSumToOne(d: Corpus)
    requires Priors(d).Ok? && d != []
    ensures SumValues(Priors(d).value) == 1.0
  {
    SumShares(d, TotalTweets(d));
  }

  // ---------------------------------------------------------------------
  // Word tables (`calcular_probabilidades_condicionales`)
  // ---------------------------------------------------------------------

  /** The words of a list of tweets, tweet by tweet, each split by `split()`. */
  function AllWords(tweets: seq<string>): seq<string>
  {
    if tweets == [] then [] else AllWords(tweets[..|tweets| - 1]) + Words(tweets[|tweets| - 1])
  }

  /** `contador[palabra] = contador.get(palabra, 0) + 1`. */
  function Increment(counts: Dict<int>, w: string): (r: Dict<int>)
    requires DistinctKeys(counts)
    ensures DistinctKeys(r)
  {
    Put(counts, w, (if w in Keys(counts) then Get(counts, w) else 0) + 1)
  }

  /** The counter after counting the words `ws` one after another. */
  function Counts(ws: seq<string>): (counts: Dict<int>)
    ensures DistinctKeys(counts)
  {
    if ws == [] then [] else Increment(Counts(ws[..|ws| - 1]), ws[|ws| - 1])
  }

  /** `sum(contador.values())`. */
  function SumCounts(counts: Dict<int>): int
  {
    if counts == [] then 0 else counts[0].1 + SumCounts(counts[1..])
  }

  lemma {:induction false} SumCountsAppend(c: Dict<int>, e: (string, int))
    ensures SumCounts(c + [e]) == SumCounts(c) + e.1
  {
    if c != [] {
      assert (c + [e])[1..] == c[1..] + [e];
      SumCountsAppend(c[1..], e);
    }
  }

  lemma {:induction false} SumCountsUpdate(c: Dict<int>, i: nat, e: (string, int))
    requires i < |c|
    ensures SumCounts(c[i := e]) == SumCounts(c) - c[i].1 + e.1
  {
    if i > 0 {
      assert c[i := e][1..] == c[1..][i - 1 := e];
      SumCountsUpdate(c[1..], i - 1, e);
    }
  }

  /** A word's count is its number of occurrences; the words are counted in
      the order they first occur; the counts add up to the number of words. */
  lemma {:induction false} CountsContents(ws: seq<string>)
    ensures Keys(Counts(ws)) == FirstSeen(ws)
    ensures forall w :: w in Keys(Counts(ws)) ==> Get(Counts(ws), w) == multiset(ws)[w]
    ensures SumCounts(Counts(ws)) == |ws|
  {
    CountsSum(ws);
    if ws != [] {
      var init, w := ws[..|ws| - 1], ws[|ws| - 1];
      assert ws == init + [w];
      CountsContents(init);
      IncrementContents(Counts(init), init, w);
    }
  }

  /** Counting one more word keeps a counter that matches the words so far. */
  lemma IncrementContents(c: Dict<int>, init: seq<string>, w: string)
    requires DistinctKeys(c) && Keys(c) == FirstSeen(init)
    requires forall u :: u in Keys(c) ==> Get(c, u) == multiset(init)[u]
    ensures Keys(Increment(c, w)) == FirstSeen(init + [w])
    ensures forall u :: u in Keys(Increment(c, w)) ==> Get(Increment(c, w), u) == multiset(init + [w])[u]
  {
    var s := init + [w];
    assert s[..|s| - 1] == init;
    assert multiset(s) == multiset(init) + multiset{w};
  }

  lemma {:induction false} CountsSum(ws: seq<string>)
    ensures SumCounts(Counts(ws)) == |ws|
  {
    if ws != [] {
      var init := ws[..|ws| - 1];
      CountsSum(init);
      IncrementSum(Counts(init), ws[|ws| - 1]);
    }
  }

  /** Counting one more word adds one to the total. */
  lemma IncrementSum(c: Dict<int>, w: string)
    requires DistinctKeys(c)
    ensures SumCounts(Increment(c, w)) == SumCounts(c) + 1
  {
    if w in Keys(c) {
      var i := Find(c, w);
      assert Increment(c, w) == c[i := (w, c[i].1 + 1)];
      SumCountsUpdate(c, i, (w, c[i].1 + 1));
    } else {
      PutNew(c, w, 1);
      SumCountsAppend(c, (w, 1));
    }
  }

  /** `{palabra: count / total for palabra, count in contador.items()}`. */
  function Ratios(counts: Dict<int>, total: int): (r: Dict<real>)
    requires counts == [] || total != 0
    ensures Keys(r) == Keys(counts)
  {
    if counts == [] then []
    else
      var r := [(counts[0].0, counts[0].1 as real / total as real)] + Ratios(counts[1..], total);
      assert Keys(r) == [counts[0].0] + Keys(counts[1..]);
      r
  }

  lemma {:induction false} RatiosAt(counts: Dict<int>, total: int, i: nat)
    requires total != 0 && i < |counts|
    ensures Ratios(counts, total)[i].1 == counts[i].1 as real / total as real
  {
    if i > 0 {
      RatiosAt(counts[1..], total, i - 1);
    }
  }

  lemma {:induction false} SumRatios(counts: Dict<int>, total: int)
    requires total != 0
    ensures SumValues(Ratios(counts, total)) == SumCounts(counts) as real / total as real
  {
    if counts != [] {
      SumRatios(counts[1..], total);
      var a, b := counts[0].1 as real, SumCounts(counts[1..]) as real;
      assert a / total as real + b / total as real == (a + b) / total as real;
    }
  }

  /** One author's word table: each word's count over the number of words. */
  function WordTable(ws: seq<string>): Dict<real>
  {
    var counts := Counts(ws);
    CountsTotal(ws);
    Ratios(counts, SumCounts(counts))
  }

  /** A counter with a word in it has a positive total. */
  lemma CountsTotal(ws: seq<string>)
    ensures Counts(ws) == [] || SumCounts(Counts(ws)) != 0
  {
    CountsContents(ws);
    if ws != [] {
      assert ws[0] in Keys(Counts(ws));
    }
  }

  /** The word table holds every word of the author once, in the order of
      first use; an author without words has an empty table. */
  lemma WordTableKeys(ws: seq<string>)
    ensures DistinctKeys(WordTable(ws))
    ensures Keys(WordTable(ws)) == FirstSeen(ws)
    ensures WordTable(ws) == [] <==> ws == []
  {
    var t := WordTable(ws);
    var counts := Counts(ws);
    CountsContents(ws);
    assert Keys(t) == Keys(counts);
    forall i, j | 0 <= i < j < |t| ensures t[i].0 != t[j].0 {
      assert Keys(t)[i] == Keys(counts)[i] && Keys(t)[j] == Keys(counts)[j];
    }
    if ws != [] {
      assert ws[0] in Keys(t);
    }
  }

  /** A word's probability is its relative frequency among the author's
      words, a number in (0, 1]. */
  lemma WordProbability(ws: seq<string>, w: string)
    requires w in Keys(WordTable(ws))
    ensures Get(WordTable(ws), w) == multiset(ws)[w] as real / |ws| as real
    ensures 0.0 < Get(WordTable(ws), w) <= 1.0
  {
    var t := WordTable(ws);
    var counts := Counts(ws);
    CountsContents(ws);
    WordTableKeys(ws);
    FindByKeys(t, counts, w);
    RatiosAt(counts, |ws|, Find(t, w));
    assert w in ws;
    assert multiset(ws)[w] <= |multiset(ws)|;
    Fraction(multiset(ws)[w], |ws|);
  }

  /** The probabilities of an author with words sum to exactly 1. */
  lemma WordTableSumsToOne(ws: seq<string>)
    requires ws != []
    ensures SumValues(WordTable(ws)) == 1.0
  {
    var counts := Counts(ws);
    CountsContents(ws);
    assert WordTable(ws) == Ratios(counts, |ws|);
    SumRatios(counts, |ws|);
    Fraction(|ws|, |ws|);
  }

  lemma CountsSnoc(ws: seq<string>, w: string)
    ensures Counts(ws + [w]) == Increment(Counts(ws), w)
  {
    assert (ws + [w])[..|ws|] == ws;
  }

  /** Counting one more word of the current tweet. */
  lemma CountsStep(before: seq<string>, words: seq<string>, k: nat)
    requires k < |words|
    ensures Counts(before + words[..k + 1]) == Increment(Counts(before + words[..k]), words[k])
  {
    var ws := before + words[..k];
    assert before + words[..k + 1] == ws + [words[k]];
    CountsSnoc(ws, words[k]);
  }

  /** The innermost loop of `calcular_probabilidades_condicionales`: the
      words of one tweet counted, in order, into a counter that holds the
      counts of the words `seen` so far. */
  method CountTweetWords(counts: Dict<int>, ghost seen: seq<string>, words: seq<string>) returns (r: Dict<int>)
    requires counts == Counts(seen)
    ensures r == Counts(seen + words)
  {
    r := counts;
    assert seen + words[..0] == seen;
    for k := 0 to |words|
      invariant r == Counts(seen + words[..k])
    {
      CountsStep(seen, words, k);
      r := Increment(r, words[k]);
    }
    assert words[..|words|] == words;
  }

  /** The two inner loops of `calcular_probabilidades_condicionales`: every
      word of every tweet, in order, counted into `contador_palabras`. */
  method CountWords(tweets: seq<string>) returns (counts: Dict<int>)
    ensures counts == Counts(AllWords(tweets))
  {
    counts := [];
    for t := 0 to |tweets|
      invariant counts == Counts(AllWords(tweets[..t]))
    {
      counts := CountTweetWords(counts, AllWords(tweets[..t]), Words(tweets[t]));
      assert tweets[..t + 1][..t] == tweets[..t];
    }
    assert tweets[..|tweets|] == tweets;
  }

  /** `calcular_probabilidades_condicionales`: for every author, in order, the
      word table of all the words of its training tweets. */
  method ConditionalProbabilities(d: Corpus) returns (cond: Dict<Dict<real>>)
    requires DistinctKeys(d)
    ensures cond == Tables(d) && DistinctKeys(cond)
  {
    cond := [];
    for i := 0 to |d|
      invariant cond == Tables(d[..i])
    {
      var (user, tweets) := d[i];
      var counts := CountWords(tweets);
      var total := SumCounts(counts);
      CountsTotal(AllWords(tweets));
      var probabilities := Ratios(counts, total);
      TablesStep(d, i);
      cond := Put(cond, user, probabilities);
    }
    assert d[..|d|] == d;
    SameKeysDistinct(cond, d);
  }

  /** Every author of `d`, in order, with the word table of its tweets. */
  function Tables(d: Corpus): (cond: Dict<Dict<real>>)
    ensures Keys(cond) == Keys(d)
  {
    seq(|d|, i requires 0 <= i < |d| => (d[i].0, WordTable(AllWords(d[i].1))))
  }

  /** One pass of the outer loop: a new author's table goes last. */
  lemma TablesStep(d: Corpus, i: nat)
    requires DistinctKeys(d) && i < |d|
    ensures DistinctKeys(Tables(d[..i])) && d[i].0 !in Keys(Tables(d[..i]))
    ensures Put(Tables(d[..i]), d[i].0, WordTable(AllWords(d[i].1))) == Tables(d[..i + 1])
  {
    var t := Tables(d[..i]);
    SameKeysDistinct(t, d[..i]);
    assert d[i].0 !in Keys(d[..i]);
    var e := (d[i].0, WordTable(AllWords(d[i].1)));
    PutNew(t, e.0, e.1);
    var u := Tables(d[..i + 1]);
    forall j | 0 <= j < |u| ensures u[j] == (t + [e])[j] {
      assert d[..i + 1][j] == d[j];
      if j < i {
        assert d[..i][j] == d[j];
      }
    }
    assert u == t + [e];
  }
}
