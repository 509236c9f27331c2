/** Classifying a message: `clasificar_tweet`. Every author's score starts at
    its prior and is multiplied, once per token of the message (with
    repetitions), by the author's probability for that token when the author
    has used it; the author with the largest score wins, the earliest one in
    dict order on a tie. */
module Classifier {
  import opened OrderedDict
  import opened PyStr

  // ---------------------------------------------------------------------
  // The scoring loops
  // ---------------------------------------------------------------------

  /** Multiplying a score by a probability (exact here, a float product in
      the program). */
  function Times(x: real, p: real): real
  {
    x * p
  }

  /** The scores after the inner loop for author `u` has gone through the
      tokens `ws`: `probabilidades_usuario[usuario] *= palabras[palabra]` for
      every token the author knows. Reading the score of an author missing
      from the scores is a `KeyError`. */
  function ScoreTokens(s: Dict<real>, u: string, vocab: Dict<real>, ws: seq<string>): (r: Result<Dict<real>>)
    requires DistinctKeys(s)
    ensures r.Ok? ==> DistinctKeys(r.value) && Keys(r.value) == Keys(s)
    ensures r.Err? ==> r.error == KeyError(u)
  {
    if ws == [] then Ok(s)
    else
      match ScoreTokens(s, u, vocab, ws[..|ws| - 1])
      case Err(e) => Err(e)
      case Ok(t) =>
        var w := ws[|ws| - 1];
        if w !in Keys(vocab) then Ok(t)
        else if u !in Keys(t) then Err(KeyError(u))
        else Ok(Put(t, u, Times(Get(t, u), Get(vocab, w))))
  }

  /** The scores after the outer loop has gone through the authors of `cond`,
      in order, starting from a copy of the priors. The first failing author
      stops the loop. */
  function Scores(priors: Dict<real>, cond: Dict<Dict<real>>, ws: seq<string>): (r: Result<Dict<real>>)
    requires DistinctKeys(priors)
    ensures r.Ok? ==> DistinctKeys(r.value) && Keys(r.value) == Keys(priors)
  {
    if cond == [] then Ok(priors)
    else
      match Scores(priors, cond[..|cond| - 1], ws)
      case Err(e) => Err(e)
      case Ok(s) => ScoreTokens(s, cond[|cond| - 1].0, cond[|cond| - 1].1, ws)
  }

  // ---------------------------------------------------------------------
  // Classification (`clasificar_tweet`)
  // ---------------------------------------------------------------------

  /** What `clasificar_tweet` returns or raises. The message is split with
      `split()` and is not cleaned. */
  function ClassifySpec(tweet: string, priors: Dict<real>, cond: Dict<Dict<real>>): (r: Result<string>)
    requires DistinctKeys(priors)
    ensures r.Ok? ==> r.value in Keys(priors)
  {
    match Scores(priors, cond, Words(tweet))
    case Err(e) => Err(e)
    case Ok(s) => ArgMax(s)
  }

  /** `clasificar_tweet`: the scores start as a copy of the priors and are
      updated in place, author by author. */
  method Classify(tweet: string, priors: Dict<real>, cond: Dict<Dict<real>>) returns (r: Result<string>)
    requires DistinctKeys(priors)
    ensures r == ClassifySpec(tweet, priors, cond)
  {
    var ws := Words(tweet);
    var scores := priors;
    for i := 0 to |cond|
      invariant Scores(priors, cond[..i], ws) == Ok(scores)
    {
      var (usuario, palabras) := cond[i];
      assert cond[..i + 1][..i] == cond[..i];
      var next := MultiplyKnown(scores, usuario, palabras, ws);
      if next.Err? {
        ScoresErrStays(priors, cond, ws, i + 1);
        return Err(next.error);
      }
      scores := next.value;
    }
    assert cond[..|cond|] == cond;
    r := ArgMax(scores);
  }

  /** The inner loop of `clasificar_tweet` for one author: its score is
      multiplied by its probability for every token of the message it knows. */
  method MultiplyKnown(scores: Dict<real>, usuario: string, palabras: Dict<real>, ws: seq<string>)
    returns (r: Result<Dict<real>>)
    requires DistinctKeys(scores)
    ensures r == ScoreTokens(scores, usuario, palabras, ws)
  {
    var current := scores;
    for k := 0 to |ws|
      invariant ScoreTokens(scores, usuario, palabras, ws[..k]) == Ok(current)
    {
      ScoreTokensStep(scores, usuario, palabras, ws, k, current);
      if ws[k] in Keys(palabras) {
        if usuario !in Keys(current) {
          ScoreTokensErrStays(scores, usuario, palabras, ws, k + 1);
          return Err(KeyError(usuario));
        }
        current := Put(current, usuario, Times(Get(current, usuario), Get(palabras, ws[k])));
      }
    }
    assert ws[..|ws|] == ws;
    r := Ok(current);
  }

  /** One more token of the inner loop. */
  lemma ScoreTokensStep(s: Dict<real>, u: string, vocab: Dict<real>, ws: seq<string>, k: nat, t: Dict<real>)
    requires DistinctKeys(s) && k < |ws|
    requires ScoreTokens(s, u, vocab, ws[..k]) == Ok(t)
    ensures DistinctKeys(t)
    ensures ScoreTokens(s, u, vocab, ws[..k + 1]) ==
      if ws[k] !in Keys(vocab) then Ok(t)
      else if u !in Keys(t) then Err(KeyError(u))
      else Ok(Put(t, u, Times(Get(t, u), Get(vocab, ws[k]))))
  {
    var p := ws[..k + 1];
    assert p[..|p| - 1] == ws[..k];
    assert p[|p| - 1] == ws[k];
    assert ScoreTokens(s, u, vocab, ws[..k]) == Ok(t);
  }

  /** Once the inner loop fails, the remaining tokens are never read. */
  lemma {:induction false} ScoreTokensErrStays(s: Dict<real>, u: string, vocab: Dict<real>, ws: seq<string>, n: nat)
    requires DistinctKeys(s) && n <= |ws|
    requires ScoreTokens(s, u, vocab, ws[..n]).Err?
    ensures ScoreTokens(s, u, vocab, ws) == ScoreTokens(s, u, vocab, ws[..n])
    decreases |ws| - n
  {
    if n < |ws| {
      var init := ws[..|ws| - 1];
      assert init[..n] == ws[..n];
      ScoreTokensErrStays(s, u, vocab, init, n);
    } else {
      assert ws[..n] == ws;
    }
  }

  /** Once an author fails, the later authors are never processed. */
  lemma {:induction false} ScoresErrStays(priors: Dict<real>, cond: Dict<Dict<real>>, ws: seq<string>, n: nat)
    requires DistinctKeys(priors) && n <= |cond|
    requires Scores(priors, cond[..n], ws).Err?
    ensures Scores(priors, cond, ws) == Scores(priors, cond[..n], ws)
    decreases |cond| - n
  {
    if n < |cond| {
      var init := cond[..|cond| - 1];
      assert init[..n] == cond[..n];
      ScoresErrStays(priors, init, ws, n);
    } else {
      assert cond[..n] == cond;
    }
  }

  // ---------------------------------------------------------------------
  // The scores in closed form
  // ---------------------------------------------------------------------

  /** Some token of `ws` is in the author's vocabulary. */
  predicate Hits(vocab: Dict<real>, ws: seq<string>)
  {
    exists i :: 0 <= i < |ws| && ws[i] in Keys(vocab)
  }

  lemma HitsSnoc(vocab: Dict<real>, ws: seq<string>, w: string)
    ensures Hits(vocab, ws + [w]) <==> Hits(vocab, ws) || w in Keys(vocab)
  {
    var ws' := ws + [w];
    if Hits(vocab, ws) {
      var i :| 0 <= i < |ws| && ws[i] in Keys(vocab);
      assert ws'[i] == ws[i];
    }
    if w in Keys(vocab) {
      assert ws'[|ws|] == w;
    }
    if Hits(vocab, ws') {
      var i :| 0 <= i < |ws'| && ws'[i] in Keys(vocab);
      if i < |ws| {
        assert ws[i] == ws'[i];
      }
    }
  }

  /** The product, over the tokens of `ws` in order, of the author's
      probability for each token it knows; an unknown token counts as 1. */
  function TokenFactor(vocab: Dict<real>, ws: seq<string>): real
  {
    if ws == [] then 1.0
    else
      var w := ws[|ws| - 1];
      Times(TokenFactor(vocab, ws[..|ws| - 1]), if w in Keys(vocab) then Get(vocab, w) else 1.0)
  }

  /** The inner loop for author `u` fails exactly when `u` has no score and
      knows a token of the message; otherwise it multiplies `u`'s score by
      the product of the known tokens and leaves every other score alone. */
  lemma {:induction false} ScoreTokensClosed(s: Dict<real>, u: string, vocab: Dict<real>, ws: seq<string>)
    requires DistinctKeys(s)
    ensures ScoreTokens(s, u, vocab, ws).Err? <==> Hits(vocab, ws) && u !in Keys(s)
    ensures var r := ScoreTokens(s, u, vocab, ws);
      r.Ok? ==> (|r.value| == |s| &&
        forall i :: 0 <= i < |s| ==> (r.value[i].0 == s[i].0 &&
          r.value[i].1 == Times(s[i].1, if s[i].0 == u then TokenFactor(vocab, ws) else 1.0)))
  {
    var r := ScoreTokens(s, u, vocab, ws);
    if ws == [] {
      assert !Hits(vocab, ws);
      assert r == Ok(s);
    } else {
      var init, w := ws[..|ws| - 1], ws[|ws| - 1];
      assert ws == init + [w];
      HitsSnoc(vocab, init, w);
      ScoreTokensClosed(s, u, vocab, init);
      var t := ScoreTokens(s, u, vocab, init);
      if t.Ok? && r.Ok? {
        var p := if w in Keys(vocab) then Get(vocab, w) else 1.0;
        assert TokenFactor(vocab, ws) == Times(TokenFactor(vocab, init), p);
        assert |Keys(r.value)| == |Keys(s)|;
        forall i | 0 <= i < |s|
          ensures r.value[i].0 == s[i].0
          ensures r.value[i].1 == Times(s[i].1, if s[i].0 == u then TokenFactor(vocab, ws) else 1.0)
        {
          assert Keys(r.value)[i] == Keys(s)[i] && Keys(t.value)[i] == Keys(s)[i];
          if w in Keys(vocab) && u in Keys(t.value) {
            KeyAt(t.value, i, s[i].0);
            KeyAt(r.value, i, s[i].0);
          }
          ClosedEntry(s[i].0 == u, s[i].1, t.value[i].1, r.value[i].1, TokenFactor(vocab, init), p);
        }
      }
    }
  }

  /** The arithmetic of one token for one score. */
  lemma ClosedEntry(mine: bool, x0: real, x1: real, x2: real, f: real, p: real)
    requires x1 == Times(x0, if mine then f else 1.0)
    requires x2 == (if mine then Times(x1, p) else x1)
    ensures x2 == Times(x0, if mine then Times(f, p) else 1.0)
  {
    if mine {
      assert x0 * f * p == x0 * (f * p);
    }
  }

  /** With probabilities in [0, 1] the product is in [0, 1] as well. */
  lemma {:induction false} TokenFactorUnit(vocab: Dict<real>, ws: seq<string>)
    requires forall i :: 0 <= i < |vocab| ==> 0.0 <= vocab[i].1 <= 1.0
    ensures 0.0 <= TokenFactor(vocab, ws) <= 1.0
  {
    if ws != [] {
      var init, w := ws[..|ws| - 1], ws[|ws| - 1];
      TokenFactorUnit(vocab, init);
      var p := if w in Keys(vocab) then Get(vocab, w) else 1.0;
      if w in Keys(vocab) {
        assert p == vocab[Find(vocab, w)].1;
      }
      UnitProduct(TokenFactor(vocab, init), p);
    }
  }

  lemma UnitProduct(a: real, b: real)
    requires 0.0 <= a <= 1.0 && 0.0 <= b <= 1.0
    ensures 0.0 <= a * b <= 1.0
  {
    assert a - a * b == a * (1.0 - b);
    assert a * b <= a;
  }

  /** Scoring fails exactly when an author of the word tables that knows a
      token of the message has no prior, and it fails with a `KeyError` for
      the first such author. */
  lemma {:induction false} ScoresOkIff(priors: Dict<real>, cond: Dict<Dict<real>>, ws: seq<string>)
    requires DistinctKeys(priors)
    ensures Scores(priors, cond, ws).Ok? <==>
      forall i :: 0 <= i < |cond| && Hits(cond[i].1, ws) ==> cond[i].0 in Keys(priors)
    ensures Scores(priors, cond, ws).Err? ==>
      exists i :: 0 <= i < |cond| && Hits(cond[i].1, ws) && cond[i].0 !in Keys(priors) &&
        Scores(priors, cond, ws).error == KeyError(cond[i].0) &&
        forall j :: 0 <= j < i ==> !(Hits(cond[j].1, ws) && cond[j].0 !in Keys(priors))
  {
    if cond != [] {
      var init := cond[..|cond| - 1];
      ScoresOkIff(priors, init, ws);
      assert forall i :: 0 <= i < |init| ==> init[i] == cond[i];
      var s := Scores(priors, init, ws);
      if s.Ok? {
        ScoreTokensClosed(s.value, cond[|cond| - 1].0, cond[|cond| - 1].1, ws);
      }
    }
  }

  /** The product an author's prior is multiplied by: 1 for an author
      without a word table. */
  function Factor(cond: Dict<Dict<real>>, u: string, ws: seq<string>): real
  {
    if u in Keys(cond) then TokenFactor(Get(cond, u), ws) else 1.0
  }

  /** An author's score: prior times the product of its known tokens. */
  function Score(priors: Dict<real>, cond: Dict<Dict<real>>, u: string, ws: seq<string>): real
    requires u in Keys(priors)
  {
    Times(Get(priors, u), Factor(cond, u, ws))
  }

  /** The scores are the priors, author by author, times each author's
      product of known tokens. */
  lemma {:induction false} ScoresValues(priors: Dict<real>, cond: Dict<Dict<real>>, ws: seq<string>)
    requires DistinctKeys(priors) && DistinctKeys(cond) && Scores(priors, cond, ws).Ok?
    ensures var s := Scores(priors, cond, ws).value;
      |s| == |priors| &&
      forall i :: 0 <= i < |s| ==> s[i].0 == priors[i].0 && s[i].1 == Times(priors[i].1, Factor(cond, priors[i].0, ws))
  {
    var s := Scores(priors, cond, ws).value;
    assert |Keys(s)| == |Keys(priors)|;
    if cond == [] {
      forall i | 0 <= i < |s| ensures s[i].0 == priors[i].0 && s[i].1 == Times(priors[i].1, Factor(cond, priors[i].0, ws)) {
      }
    } else {
      var init := cond[..|cond| - 1];
      var (c, vocab) := cond[|cond| - 1];
      assert DistinctKeys(init) by {
        assert forall i :: 0 <= i < |init| ==> init[i] == cond[i];
      }
      ScoresValues(priors, init, ws);
      var s0 := Scores(priors, init, ws).value;
      ScoreTokensClosed(s0, c, vocab, ws);
      assert c !in Keys(init) by {
        forall i | 0 <= i < |init| ensures init[i].0 != c {
          assert init[i] == cond[i];
        }
      }
      assert cond == init + [(c, vocab)];
      PutNew(init, c, vocab);
      forall i | 0 <= i < |s|
        ensures s[i].0 == priors[i].0 && s[i].1 == Times(priors[i].1, Factor(cond, priors[i].0, ws))
      {
        var u := priors[i].0;
        assert Factor(cond, u, ws) == if u == c then TokenFactor(vocab, ws) else Factor(init, u, ws);
        assert u == c ==> Factor(init, u, ws) == 1.0;
        ScoreEntry(u == c, priors[i].1, Factor(init, u, ws), s0[i].1, s[i].1, TokenFactor(vocab, ws));
      }
    }
  }

  /** The arithmetic of one author for one score. */
  lemma ScoreEntry(mine: bool, p: real, f0: real, x0: real, x: real, t: real)
    requires x0 == Times(p, f0) && (mine ==> f0 == 1.0)
    requires x == Times(x0, if mine then t else 1.0)
    ensures x == Times(p, if mine then t else f0)
  {
  }

  // ---------------------------------------------------------------------
  // The winner (`max(probabilidades_usuario, key=probabilidades_usuario.get)`)
  // ---------------------------------------------------------------------

  /** Python's `max` scan: the position of the first maximal element. A later
      element replaces the current best only when strictly larger. */
  function ArgMaxIndex(xs: seq<real>): (i: nat)
    requires xs != []
    ensures i < |xs|
    ensures forall j :: 0 <= j < |xs| ==> xs[j] <= xs[i]
    ensures forall j :: 0 <= j < i ==> xs[j] < xs[i]
  {
    if |xs| == 1 then 0
    else
      var m := ArgMaxIndex(xs[..|xs| - 1]);
      if xs[|xs| - 1] > xs[m] then |xs| - 1 else m
  }

  /** Being maximal with every earlier element strictly smaller pins down the
      position `max` returns. */
  lemma {:induction false} FirstMaxUnique(xs: seq<real>, i: nat)
    requires i < |xs|
    requires forall j :: 0 <= j < |xs| ==> xs[j] <= xs[i]
    requires forall j :: 0 <= j < i ==> xs[j] < xs[i]
    ensures ArgMaxIndex(xs) == i
  {
  }

  /** The key with the largest value, the earliest on a tie; `max` of an
      empty dict is an error. */
  function ArgMax(d: Dict<real>): (r: Result<string>)
    requires DistinctKeys(d)
    ensures r.Err? <==> d == []
    ensures r.Err? ==> r.error == EmptyMaxError
    ensures r.Ok? ==> r.value in Keys(d)
    ensures r.Ok? ==> forall j :: 0 <= j < |d| ==> d[j].1 <= Get(d, r.value)
    ensures r.Ok? ==> forall j :: 0 <= j < Find(d, r.value) ==> d[j].1 < Get(d, r.value)
  {
    if d == [] then Err(EmptyMaxError)
    else
      var vs := Values(d);
      var i := ArgMaxIndex(vs);
      KeyAt(d, i, d[i].0);
      assert forall j :: 0 <= j < |d| ==> d[j].1 == vs[j];
      Ok(d[i].0)
  }

  // ---------------------------------------------------------------------
  // Properties of classification
  // ---------------------------------------------------------------------

  /** The winner is an author with a prior whose score is maximal, and every
      author before it in the priors' order scores strictly less. */
  lemma ClassifyChoosesBest(tweet: string, priors: Dict<real>, cond: Dict<Dict<real>>)
    requires DistinctKeys(priors) && DistinctKeys(cond)
    requires ClassifySpec(tweet, priors, cond).Ok?
    ensures var u, ws := ClassifySpec(tweet, priors, cond).value, Words(tweet);
      u in Keys(priors) &&
      (forall v :: v in Keys(priors) ==> Score(priors, cond, v, ws) <= Score(priors, cond, u, ws)) &&
      (forall j :: 0 <= j < Find(priors, u) ==> Score(priors, cond, Keys(priors)[j], ws) < Score(priors, cond, u, ws))
  {
    var ws := Words(tweet);
    var s := Scores(priors, cond, ws).value;
    var u := ClassifySpec(tweet, priors, cond).value;
    ScoresValues(priors, cond, ws);
    assert forall j :: 0 <= j < |priors| ==> s[j].1 == Score(priors, cond, Keys(priors)[j], ws) by {
      forall j | 0 <= j < |priors| ensures s[j].1 == Score(priors, cond, Keys(priors)[j], ws) {
        KeyAt(priors, j, priors[j].0);
      }
    }
    FindByKeys(s, priors, u);
    forall v | v in Keys(priors) ensures Score(priors, cond, v, ws) <= Score(priors, cond, u, ws) {
      var j := Find(priors, v);
      assert s[j].1 == Score(priors, cond, v, ws);
    }
  }

  /** Classification fails exactly when there is no author at all, or an
      author of the word tables that knows a token has no prior. */
  lemma ClassifyFails(tweet: string, priors: Dict<real>, cond: Dict<Dict<real>>)
    requires DistinctKeys(priors)
    ensures var ws := Words(tweet);
      ClassifySpec(tweet, priors, cond).Err? <==>
        priors == [] || exists i :: 0 <= i < |cond| && Hits(cond[i].1, ws) && cond[i].0 !in Keys(priors)
  {
    var ws := Words(tweet);
    ScoresOkIff(priors, cond, ws);
    if Scores(priors, cond, ws).Ok? {
      assert |Keys(Scores(priors, cond, ws).value)| == |Keys(priors)|;
    }
  }

  /** A message none of whose tokens any author has used is given to the
      first author with the largest prior. */
  lemma UnseenWordsGivePriorArgmax(tweet: string, priors: Dict<real>, cond: Dict<Dict<real>>)
    requires DistinctKeys(priors)
    requires forall i :: 0 <= i < |cond| ==> !Hits(cond[i].1, Words(tweet))
    ensures Scores(priors, cond, Words(tweet)) == Ok(priors)
    ensures ClassifySpec(tweet, priors, cond) == ArgMax(priors)
  {
    UnseenScores(priors, cond, Words(tweet));
  }

  lemma {:induction false} UnseenScores(priors: Dict<real>, cond: Dict<Dict<real>>, ws: seq<string>)
    requires DistinctKeys(priors)
    requires forall i :: 0 <= i < |cond| ==> !Hits(cond[i].1, ws)
    ensures Scores(priors, cond, ws) == Ok(priors)
  {
    if cond != [] {
      var init := cond[..|cond| - 1];
      assert forall i :: 0 <= i < |init| ==> init[i] == cond[i];
      UnseenScores(priors, init, ws);
      ScoreTokensNoHits(priors, cond[|cond| - 1].0, cond[|cond| - 1].1, ws);
    }
  }

  /** An author that knows no token of the message changes no score. */
  lemma {:induction false} ScoreTokensNoHits(s: Dict<real>, u: string, vocab: Dict<real>, ws: seq<string>)
    requires DistinctKeys(s) && !Hits(vocab, ws)
    ensures ScoreTokens(s, u, vocab, ws) == Ok(s)
  {
    if ws != [] {
      var init := ws[..|ws| - 1];
      assert ws == init + [ws[|ws| - 1]];
      HitsSnoc(vocab, init, ws[|ws| - 1]);
      ScoreTokensNoHits(s, u, vocab, init);
    }
  }

  /** The product over two pieces of a message is the product of the products. */
  lemma {:induction false} TokenFactorAppend(vocab: Dict<real>, a: seq<string>, b: seq<string>)
    ensures TokenFactor(vocab, a + b) == Times(TokenFactor(vocab, a), TokenFactor(vocab, b))
  {
    if b != [] {
      var init, w := b[..|b| - 1], b[|b| - 1];
      assert (a + b)[..|a + b| - 1] == a + init;
      assert (a + b)[|a + b| - 1] == w;
      TokenFactorAppend(vocab, a, init);
      var p := if w in Keys(vocab) then Get(vocab, w) else 1.0;
      var fa, fi := TokenFactor(vocab, a), TokenFactor(vocab, init);
      assert TokenFactor(vocab, a + b) == Times(TokenFactor(vocab, a + init), p);
      assert TokenFactor(vocab, b) == Times(fi, p);
      Assoc(fa, fi, p);
    } else {
      assert a + b == a;
      assert Times(TokenFactor(vocab, a), 1.0) == TokenFactor(vocab, a);
    }
  }

  lemma Assoc(x: real, y: real, z: real)
    ensures Times(Times(x, y), z) == Times(x, Times(y, z))
  {
    assert x * y * z == x * (y * z);
  }

  /** `k` copies of a token. */
  function Repeat(w: string, k: nat): (ws: seq<string>)
    ensures |ws| == k && forall i :: 0 <= i < k ==> ws[i] == w
  {
    if k == 0 then [] else Repeat(w, k - 1) + [w]
  }

  function Pow(x: real, k: nat): real
  {
    if k == 0 then 1.0 else Times(Pow(x, k - 1), x)
  }

  /** A known token repeated `k` times multiplies the score by its
      probability to the power `k`. */
  lemma {:induction false} TokenRepeat(vocab: Dict<real>, ws: seq<string>, w: string, k: nat)
    requires w in Keys(vocab)
    ensures TokenFactor(vocab, ws + Repeat(w, k)) == Times(TokenFactor(vocab, ws), Pow(Get(vocab, w), k))
  {
    TokenFactorAppend(vocab, ws, Repeat(w, k));
    RepeatFactor(vocab, w, k);
  }

  lemma {:induction false} RepeatFactor(vocab: Dict<real>, w: string, k: nat)
    requires w in Keys(vocab)
    ensures TokenFactor(vocab, Repeat(w, k)) == Pow(Get(vocab, w), k)
  {
    if k > 0 {
      var r := Repeat(w, k);
      assert r[..k - 1] == Repeat(w, k - 1);
      RepeatFactor(vocab, w, k - 1);
    }
  }
}
