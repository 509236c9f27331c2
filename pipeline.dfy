/** The script that ends the program: load the tweets, drop the authors with
    fewer than five, keep 80% of every author's tweets for training, estimate
    the model and classify every test tweet, author by author. */
module Pipeline {
  import opened OrderedDict
  import opened Corpus
  import opened Estimation
  import opened Classifier

  /** `eliminar_cortos(diccionario_tweets, 5)`. */
  const MinTweets := 5
  /** `dividir_entrenamiento_prueba(diccionario_tweets, 0.8)`. */
  const TrainRatio := 0.8

  /** The corpus after loading and filtering. */
  function Prepared(lines: seq<string>): (d: Corpus)
    ensures DistinctKeys(d)
    ensures forall i :: 0 <= i < |d| ==> |d[i].1| >= MinTweets
  {
    var d := RemoveShort(Load(lines), MinTweets);
    RemoveShortDistinct(Load(lines), MinTweets);
    assert forall i :: 0 <= i < |d| ==> d[i] in d;
    d
  }

  /** The test tweets in the order the script visits them. */
  function TestTweets(test: Corpus): seq<string>
  {
    if test == [] then [] else TestTweets(test[..|test| - 1]) + test[|test| - 1].1
  }

  /** Classifying `tweets` one after the other; the first error ends the
      script (`ClassifyAllContents`). */
  function ClassifyAll(tweets: seq<string>, priors: Dict<real>, cond: Dict<Dict<real>>): (r: Result<seq<string>>)
    requires DistinctKeys(priors)
    ensures r.Ok? ==> |r.value| == |tweets|
  {
    if tweets == [] then Ok([])
    else
      var init := tweets[..|tweets| - 1];
      match ClassifyAll(init, priors, cond)
      case Err(e) => Err(e)
      case Ok(us) =>
        match ClassifySpec(tweets[|tweets| - 1], priors, cond)
        case Err(e) => Err(e)
        case Ok(u) => Ok(us + [u])
  }

  /** The script fails exactly when one of the tweets cannot be classified,
      and otherwise holds the answer for every tweet, in order. */
  lemma {:induction false} ClassifyAllContents(tweets: seq<string>, priors: Dict<real>, cond: Dict<Dict<real>>)
    requires DistinctKeys(priors)
    ensures var r := ClassifyAll(tweets, priors, cond);
      (r.Err? <==> exists j :: 0 <= j < |tweets| && ClassifySpec(tweets[j], priors, cond).Err?) &&
      (r.Ok? ==> forall j :: 0 <= j < |tweets| ==> ClassifySpec(tweets[j], priors, cond) == Ok(r.value[j]))
  {
    if tweets != [] {
      var n := |tweets| - 1;
      var init := tweets[..n];
      ClassifyAllContents(init, priors, cond);
      assert forall j :: 0 <= j < n ==> init[j] == tweets[j];
      var r := ClassifyAll(tweets, priors, cond);
      if r.Ok? {
        var us := ClassifyAll(init, priors, cond).value;
        var u := ClassifySpec(tweets[n], priors, cond).value;
        assert r.value == us + [u];
        forall j | 0 <= j < |tweets| ensures ClassifySpec(tweets[j], priors, cond) == Ok(r.value[j]) {
          if j < n {
            assert r.value[j] == us[j];
          }
        }
      }
    }
  }

  /** What the script prints, one author per line, or the exception that stops it. */
  function Script(lines: seq<string>): Result<seq<string>>
  {
    var d := Prepared(lines);
    var train, test := TrainPart(d, TrainRatio), TestPart(d, TrainRatio);
    PartsOfSplit(d, TrainRatio);
    match Priors(train)
    case Err(e) => Err(e)
    case Ok(priors) =>
      SameKeysDistinct(priors, train);
      ClassifyAll(TestTweets(test), priors, Tables(train))
  }

  /** The script on the lines of `./tuits_bayes.txt`; `print` is modelled by
      collecting the answers in order. */
  method Run(lines: seq<string>) returns (r: Result<seq<string>>)
    ensures r == Script(lines)
  {
    var d := LoadTweets(lines);
    RemoveShortDistinct(d, MinTweets);
    d := RemoveShort(d, MinTweets);
    var train, test := TrainTestSplit(d, TrainRatio);
    var found := Priors(train);
    if found.Err? {
      return Err(found.error);
    }
    var priors := found.value;
    SameKeysDistinct(priors, train);
    var cond := ConditionalProbabilities(train);
    r := ClassifyAuthors(test, priors, cond);
  }

  /** The outer loop of the script: the test authors in order. */
  method ClassifyAuthors(test: Corpus, priors: Dict<real>, cond: Dict<Dict<real>>) returns (r: Result<seq<string>>)
    requires DistinctKeys(priors)
    ensures r == ClassifyAll(TestTweets(test), priors, cond)
  {
    var out: seq<string> := [];
    for i := 0 to |test|
      invariant ClassifyAll(TestTweets(test[..i]), priors, cond) == Ok(out)
    {
      assert test[..i + 1][..i] == test[..i];
      var next := ClassifyTweets(out, TestTweets(test[..i]), test[i].1, priors, cond);
      if next.Err? {
        AuthorStops(test, i, priors, cond);
        return Err(next.error);
      }
      out := next.value;
    }
    assert test[..|test|] == test;
    r := Ok(out);
  }

  /** A failure among one author's tweets is the failure of the whole script. */
  lemma AuthorStops(test: Corpus, i: nat, priors: Dict<real>, cond: Dict<Dict<real>>)
    requires DistinctKeys(priors) && i < |test|
    requires ClassifyAll(TestTweets(test[..i + 1]), priors, cond).Err?
    ensures ClassifyAll(TestTweets(test), priors, cond) == ClassifyAll(TestTweets(test[..i + 1]), priors, cond)
  {
    assert test == test[..i + 1] + test[i + 1..];
    TestTweetsAppend(test[..i + 1], test[i + 1..]);
    ClassifyAllErrStays(TestTweets(test[..i + 1]), TestTweets(test[i + 1..]), priors, cond);
  }

  /** The inner loop of the script: the tweets of one test author. */
  method ClassifyTweets(out: seq<string>, ghost done: seq<string>, tweets: seq<string>,
                        priors: Dict<real>, cond: Dict<Dict<real>>) returns (r: Result<seq<string>>)
    requires DistinctKeys(priors)
    requires ClassifyAll(done, priors, cond) == Ok(out)
    ensures r == ClassifyAll(done + tweets, priors, cond)
  {
    var current := out;
    assert done + tweets[..0] == done;
    for k := 0 to |tweets|
      invariant ClassifyAll(done + tweets[..k], priors, cond) == Ok(current)
    {
      ClassifyAllStep(done, tweets, k, priors, cond);
      var answer := Classify(tweets[k], priors, cond);
      if answer.Err? {
        ClassifyAllStops(done, tweets, k, priors, cond);
        return Err(answer.error);
      }
      current := current + [answer.value];
    }
    assert tweets[..|tweets|] == tweets;
    r := Ok(current);
  }

  /** Classifying one more tweet. */
  lemma ClassifyAllSnoc(a: seq<string>, t: string, priors: Dict<real>, cond: Dict<Dict<real>>)
    requires DistinctKeys(priors)
    requires ClassifyAll(a, priors, cond).Ok?
    ensures var r, c := ClassifyAll(a + [t], priors, cond), ClassifySpec(t, priors, cond);
      r == if c.Err? then Err(c.error) else Ok(ClassifyAll(a, priors, cond).value + [c.value])
  {
    var seen := a + [t];
    assert seen[..|seen| - 1] == a;
  }

  /** One pass of the inner loop. */
  lemma ClassifyAllStep(done: seq<string>, tweets: seq<string>, k: nat, priors: Dict<real>, cond: Dict<Dict<real>>)
    requires DistinctKeys(priors) && k < |tweets|
    requires ClassifyAll(done + tweets[..k], priors, cond).Ok?
    ensures var r, c := ClassifyAll(done + tweets[..k + 1], priors, cond), ClassifySpec(tweets[k], priors, cond);
      r == if c.Err? then Err(c.error) else Ok(ClassifyAll(done + tweets[..k], priors, cond).value + [c.value])
  {
    assert done + tweets[..k + 1] == (done + tweets[..k]) + [tweets[k]];
    ClassifyAllSnoc(done + tweets[..k], tweets[k], priors, cond);
  }

  /** A failure in the inner loop is the failure of the whole list. */
  lemma ClassifyAllStops(done: seq<string>, tweets: seq<string>, k: nat, priors: Dict<real>, cond: Dict<Dict<real>>)
    requires DistinctKeys(priors) && k < |tweets|
    requires ClassifyAll(done + tweets[..k + 1], priors, cond).Err?
    ensures ClassifyAll(done + tweets, priors, cond) == ClassifyAll(done + tweets[..k + 1], priors, cond)
  {
    assert done + tweets == (done + tweets[..k + 1]) + tweets[k + 1..];
    ClassifyAllErrStays(done + tweets[..k + 1], tweets[k + 1..], priors, cond);
  }

  /** Once a tweet has failed, later tweets change nothing. */
  lemma {:induction false} ClassifyAllErrStays(a: seq<string>, b: seq<string>, priors: Dict<real>, cond: Dict<Dict<real>>)
    requires DistinctKeys(priors)
    requires ClassifyAll(a, priors, cond).Err?
    ensures ClassifyAll(a + b, priors, cond) == ClassifyAll(a, priors, cond)
    decreases |b|
  {
    if b == [] {
      assert a + b == a;
    } else {
      var b' := b[..|b| - 1];
      ClassifyAllErrStays(a, b', priors, cond);
      assert (a + b)[..|a + b| - 1] == a + b';
    }
  }

  lemma {:induction false} TestTweetsAppend(a: Corpus, b: Corpus)
    ensures TestTweets(a + b) == TestTweets(a) + TestTweets(b)
    decreases |b|
  {
    if b == [] {
      assert a + b == a;
    } else {
      var b' := b[..|b| - 1];
      TestTweetsAppend(a, b');
      assert (a + b)[..|a + b| - 1] == a + b';
    }
  }

  /** An author with at least five tweets trains on at least four of them. */
  lemma SplitKeepsFour(n: nat)
    requires n >= MinTweets
    ensures SplitPoint(n, TrainRatio) >= 4
  {
    assert Scaled(n, TrainRatio) >= 4.0;
  }

  /** The script never raises: every author it keeps has training tweets, so
      the priors divide by a positive total, every author of the conditional
      tables is an author of the priors, and the priors are not empty when
      there is a test tweet. It prints one answer per test tweet, each the
      classification of that tweet and an author of the filtered corpus. */
  lemma ScriptNeverFails(lines: seq<string>)
    ensures var d := Prepared(lines);
      var tweets := TestTweets(TestPart(d, TrainRatio));
      var r := Script(lines);
      r.Ok? && |r.value| == |tweets| &&
      forall j :: 0 <= j < |tweets| ==> r.value[j] in Keys(d)
  {
    var d := Prepared(lines);
    var train, test := TrainPart(d, TrainRatio), TestPart(d, TrainRatio);
    PartsOfSplit(d, TrainRatio);
    if train != [] {
      SplitKeepsFour(|d[0].1|);
      TweetsBelowTotal(train, 0);
    }
    var priors := Priors(train).value;
    SameKeysDistinct(priors, train);
    var cond := Tables(train);
    var tweets := TestTweets(test);
    if tweets != [] {
      assert test != [];
    }
    ClassifyAllContents(tweets, priors, cond);
    forall j | 0 <= j < |tweets| ensures ClassifySpec(tweets[j], priors, cond).Ok? {
      ClassifyFails(tweets[j], priors, cond);
      forall i | 0 <= i < |cond| ensures cond[i].0 in Keys(priors) {
        assert Keys(cond)[i] == Keys(priors)[i];
      }
    }
  }
}
