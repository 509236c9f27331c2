/** The corpus of tweets grouped by author: `cargar_tweets`, `agregar_valor`,
    `eliminar_cortos` and `dividir_entrenamiento_prueba`. A corpus is a dict
    from an author's name to the author's cleaned tweets, in insertion order. */
module Corpus {
  import opened OrderedDict
  import opened PyStr
  import opened TextNormalizer

  type Corpus = Dict<seq<string>>

  // ---------------------------------------------------------------------
  // Loading (`cargar_tweets`, `agregar_valor`)
  // ---------------------------------------------------------------------

  /** `linea.strip().split(',')`: naive comma fields, no quoting. */
  function Fields(line: string): (f: seq<string>)
    ensures |f| >= 1
  {
    SplitOn(Strip(line), ',')
  }

  /** A line is kept when it has at least four fields and its fourth field
      is not empty once cleaned. */
  predicate Qualifies(line: string)
  {
    |Fields(line)| >= 4 && Clean(Fields(line)[3]) != []
  }

  /** The author of a kept line: the third field, verbatim. */
  function Author(line: string): string
    requires Qualifies(line)
  {
    Fields(line)[2]
  }

  /** The message of a kept line: the fourth field, cleaned. */
  function Message(line: string): string
    requires Qualifies(line)
  {
    Clean(Fields(line)[3])
  }

  /** `agregar_valor`: `diccionario.setdefault(clave, []).append(valor)`. The
      value goes at the end of the key's list; a new key gets a fresh list
      and takes the last position; every other key keeps its list. */
  function AddValue(d: Corpus, k: string, v: string): (r: Corpus)
    requires DistinctKeys(d)
    ensures DistinctKeys(r)
    ensures Keys(r) == if k in Keys(d) then Keys(d) else Keys(d) + [k]
    ensures k in Keys(d) ==> Get(r, k) == Get(d, k) + [v]
    ensures k !in Keys(d) ==> Get(r, k) == [v]
    ensures forall k' :: k' in Keys(d) && k' != k ==> Get(r, k') == Get(d, k')
  {
    var list := if k in Keys(d) then Get(d, k) else [];
    Put(d, k, list + [v])
  }

  /** One pass of the loop of `cargar_tweets`. */
  function LoadLine(d: Corpus, line: string): (r: Corpus)
    requires DistinctKeys(d)
    ensures DistinctKeys(r)
  {
    if Qualifies(line) then AddValue(d, Author(line), Message(line)) else d
  }

  /** The dict `cargar_tweets` has built after reading `lines`. */
  function Load(lines: seq<string>): (d: Corpus)
    ensures DistinctKeys(d)
  {
    if lines == [] then [] else LoadLine(Load(lines[..|lines| - 1]), lines[|lines| - 1])
  }

  /** The authors of the kept lines, one per kept line, in line order. */
  function AuthorsOf(lines: seq<string>): seq<string>
  {
    if lines == [] then []
    else
      var init := AuthorsOf(lines[..|lines| - 1]);
      var l := lines[|lines| - 1];
      if Qualifies(l) then init + [Author(l)] else init
  }

  /** The messages of the kept lines whose author is `k`, in line order. Each
      is a non-empty text that cleaning leaves as it is. */
  function MessagesBy(lines: seq<string>, k: string): (ms: seq<string>)
    ensures forall i :: 0 <= i < |ms| ==> ms[i] != [] && Clean(ms[i]) == ms[i]
  {
    if lines == [] then []
    else
      var init := MessagesBy(lines[..|lines| - 1], k);
      var l := lines[|lines| - 1];
      if Qualifies(l) && Author(l) == k then
        MessageClean(l);
        init + [Message(l)]
      else init
  }

  /** The message of a kept line is non-empty and already clean. */
  lemma MessageClean(l: string)
    requires Qualifies(l)
    ensures Message(l) != [] && Clean(Message(l)) == Message(l)
  {
    CleanIdempotent(Fields(l)[3]);
  }

  /** An author with a message has a kept line. */
  lemma {:induction false} MessagesByAuthor(lines: seq<string>, k: string)
    requires k !in AuthorsOf(lines)
    ensures MessagesBy(lines, k) == []
  {
    if lines != [] {
      var init := lines[..|lines| - 1];
      assert k !in AuthorsOf(init) by {
        var l := lines[|lines| - 1];
        assert AuthorsOf(lines) == if Qualifies(l) then AuthorsOf(init) + [Author(l)] else AuthorsOf(init);
      }
      MessagesByAuthor(init, k);
    }
  }

  /** What loading builds: the authors in the order of their first kept line,
      each with the cleaned messages of all its kept lines, in line order. */
  lemma {:induction false} LoadContents(lines: seq<string>)
    ensures Keys(Load(lines)) == FirstSeen(AuthorsOf(lines))
    ensures forall k :: k in Keys(Load(lines)) ==> Get(Load(lines), k) == MessagesBy(lines, k)
  {
    if lines != [] {
      var init, l := lines[..|lines| - 1], lines[|lines| - 1];
      assert lines == init + [l];
      LoadContents(init);
      LoadLineContents(init, l);
    }
  }

  /** One more line keeps the dict in step with the lines read so far. */
  lemma LoadLineContents(init: seq<string>, l: string)
    requires Keys(Load(init)) == FirstSeen(AuthorsOf(init))
    requires forall k :: k in Keys(Load(init)) ==> Get(Load(init), k) == MessagesBy(init, k)
    ensures var lines := init + [l];
      Keys(Load(lines)) == FirstSeen(AuthorsOf(lines)) &&
      forall k :: k in Keys(Load(lines)) ==> Get(Load(lines), k) == MessagesBy(lines, k)
  {
    var lines := init + [l];
    assert lines[..|lines| - 1] == init;
    if Qualifies(l) {
      LoadKeptKeys(init, l);
      LoadKeptValues(init, l);
    }
  }

  lemma LoadKeptKeys(init: seq<string>, l: string)
    requires Qualifies(l)
    requires Keys(Load(init)) == FirstSeen(AuthorsOf(init))
    ensures Keys(Load(init + [l])) == FirstSeen(AuthorsOf(init + [l]))
  {
    var lines := init + [l];
    assert lines[..|lines| - 1] == init;
    var authors, a := AuthorsOf(init), Author(l);
    assert AuthorsOf(lines) == authors + [a];
    assert (authors + [a])[..|authors + [a]| - 1] == authors;
  }

  lemma LoadKeptValues(init: seq<string>, l: string)
    requires Qualifies(l)
    requires Keys(Load(init)) == FirstSeen(AuthorsOf(init))
    requires forall k :: k in Keys(Load(init)) ==> Get(Load(init), k) == MessagesBy(init, k)
    ensures forall k :: k in Keys(Load(init + [l])) ==> Get(Load(init + [l]), k) == MessagesBy(init + [l], k)
  {
    forall k | k in Keys(Load(init + [l])) ensures Get(Load(init + [l]), k) == MessagesBy(init + [l], k) {
      LoadKeptValue(init, l, k);
    }
  }

  /** The same for one author `k`. */
  lemma LoadKeptValue(init: seq<string>, l: string, k: string)
    requires Qualifies(l)
    requires Keys(Load(init)) == FirstSeen(AuthorsOf(init))
    requires k in Keys(Load(init)) ==> Get(Load(init), k) == MessagesBy(init, k)
    requires k in Keys(Load(init + [l]))
    ensures Get(Load(init + [l]), k) == MessagesBy(init + [l], k)
  {
    var d, a, m := Load(init), Author(l), Message(l);
    LoadSnoc(init, l);
    MessagesBySnoc(init, l, k);
    if k !in Keys(d) {
      MessagesByAuthor(init, k);
    }
  }

  /** Loading one more kept line adds its message to its author. */
  lemma LoadSnoc(init: seq<string>, l: string)
    requires Qualifies(l)
    ensures Load(init + [l]) == AddValue(Load(init), Author(l), Message(l))
  {
    var lines := init + [l];
    assert lines[..|lines| - 1] == init;
  }

  /** One more kept line adds its message to its author's messages only. */
  lemma MessagesBySnoc(init: seq<string>, l: string, k: string)
    requires Qualifies(l)
    ensures MessagesBy(init + [l], k) ==
      if k == Author(l) then MessagesBy(init, k) + [Message(l)] else MessagesBy(init, k)
  {
    var lines := init + [l];
    assert lines[..|lines| - 1] == init;
  }

  /** `cargar_tweets` on the lines of the file (the file itself is not modelled). */
  method LoadTweets(lines: seq<string>) returns (d: Corpus)
    ensures d == Load(lines)
    ensures DistinctKeys(d)
    ensures Keys(d) == FirstSeen(AuthorsOf(lines))
    ensures forall k :: k in Keys(d) ==> Get(d, k) == MessagesBy(lines, k)
  {
    d := [];
    for i := 0 to |lines|
      invariant d == Load(lines[..i])
    {
      assert lines[..i + 1][..i] == lines[..i];
      var campos := SplitOn(Strip(lines[i]), ',');
      if |campos| >= 4 {
        var tweet := Clean(campos[3]);
        if tweet != [] {
          d := AddValue(d, campos[2], tweet);
        }
      }
    }
    assert lines[..|lines|] == lines;
    LoadContents(lines);
  }

  // ---------------------------------------------------------------------
  // Filtering (`eliminar_cortos`)
  // ---------------------------------------------------------------------

  /** `eliminar_cortos`: keep exactly the authors with at least `minLength`
      tweets, each with its list unchanged and in the original order. */
  function RemoveShort(d: Corpus, minLength: int): (r: Corpus)
    ensures forall e :: e in r <==> e in d && |e.1| >= minLength
    ensures Subsequence(r, d)
  {
    if d == [] then []
    else
      var rest := RemoveShort(d[1..], minLength);
      assert forall e :: e in d <==> e == d[0] || e in d[1..] by {
        assert d == [d[0]] + d[1..];
      }
      if |d[0].1| >= minLength then [d[0]] + rest else rest
  }

  /** Filtering twice with the same threshold removes nothing more. */
  lemma {:induction false} RemoveShortIdempotent(d: Corpus, minLength: int)
    ensures RemoveShort(RemoveShort(d, minLength), minLength) == RemoveShort(d, minLength)
  {
    if d != [] {
      RemoveShortIdempotent(d[1..], minLength);
    }
  }

  /** Filtering a dict gives a dict. */
  lemma {:induction false} RemoveShortDistinct(d: Corpus, minLength: int)
    requires DistinctKeys(d)
    ensures DistinctKeys(RemoveShort(d, minLength))
  {
    if d != [] {
      var rest := RemoveShort(d[1..], minLength);
      RemoveShortDistinct(d[1..], minLength);
      if |d[0].1| >= minLength {
        var r := [d[0]] + rest;
        forall j | 0 < j < |r| ensures r[j].0 != d[0].0 {
          assert rest[j - 1] in d[1..];
          var m :| 0 <= m < |d[1..]| && d[1..][m] == rest[j - 1];
          assert d[m + 1] == rest[j - 1];
        }
      }
    }
  }

  /** Filtering keeps a subset of the authors, each with its own list. */
  lemma RemoveShortKeys(d: Corpus, minLength: int)
    requires DistinctKeys(d)
    ensures DistinctKeys(RemoveShort(d, minLength))
    ensures forall k :: k in Keys(RemoveShort(d, minLength)) <==> k in Keys(d) && |Get(d, k)| >= minLength
    ensures forall k :: k in Keys(RemoveShort(d, minLength)) ==> Get(RemoveShort(d, minLength), k) == Get(d, k)
  {
    var r := RemoveShort(d, minLength);
    RemoveShortDistinct(d, minLength);
    forall k | k in Keys(r)
      ensures k in Keys(d) && |Get(d, k)| >= minLength && Get(r, k) == Get(d, k)
    {
      var i := Find(r, k);
      assert r[i] in d;
      var j :| 0 <= j < |d| && d[j] == r[i];
      KeyAt(d, j, k);
    }
    forall k | k in Keys(d) && |Get(d, k)| >= minLength
      ensures k in Keys(r)
    {
      var j := Find(d, k);
      assert d[j] in r;
      var i :| 0 <= i < |r| && r[i] == d[j];
      assert Keys(r)[i] == k;
    }
  }

  // ---------------------------------------------------------------------
  // Splitting (`dividir_entrenamiento_prueba`)
  // ---------------------------------------------------------------------

  /** Python's `int(x)` on a number: truncation toward zero. */
  function Trunc(x: real): int
  {
    if x >= 0.0 then x.Floor else -((-x).Floor)
  }

  /** The position in a list of length `n` that a slice bound `c` stands for:
      a negative bound counts from the end, and `tweets[:c]`, `tweets[c:]`
      clamp the result to `0..n`. */
  function SliceIndex(c: int, n: nat): (i: nat)
    ensures i <= n
    ensures 0 <= c <= n ==> i == c
    ensures c < 0 <= c + n ==> i == n + c
    ensures c + n < 0 ==> i == 0
    ensures c > n ==> i == n
  {
    if c < 0 then (if c + n < 0 then 0 else c + n) else if c > n then n else c
  }

  /** `len(tweets) * porcentaje_entrenamiento`. */
  function Scaled(n: nat, ratio: real): real
  {
    n as real * ratio
  }

  /** `punto_separacion = int(len(tweets) * porcentaje_entrenamiento)`, as a
      position in the list. */
  function SplitPoint(n: nat, ratio: real): (i: nat)
    ensures i <= n
    ensures 0.0 <= ratio <= 1.0 ==> i == Scaled(n, ratio).Floor
  {
    assert 0.0 <= ratio <= 1.0 ==> Scaled(n, ratio).Floor <= n by {
      if 0.0 <= ratio <= 1.0 { ScaleBelow(n, ratio); }
    }
    SliceIndex(Trunc(Scaled(n, ratio)), n)
  }

  /** A ratio between 0 and 1 scales a length to at most itself. */
  lemma ScaleBelow(n: nat, ratio: real)
    requires 0.0 <= ratio <= 1.0
    ensures 0.0 <= Scaled(n, ratio) <= n as real
    ensures 0 <= Scaled(n, ratio).Floor <= n
  {
    var a := n as real;
    ProductNonNegative(a, ratio);
    ProductNonNegative(a, 1.0 - ratio);
    assert a - a * ratio == a * (1.0 - ratio);
    var x := Scaled(n, ratio);
    assert x.Floor as real <= x;
    assert (x.Floor as real) < (n + 1) as real;
  }

  lemma ProductNonNegative(x: real, y: real)
    requires 0.0 <= x && 0.0 <= y
    ensures 0.0 <= x * y
  {
  }

  /** The training part of every author: the first `SplitPoint` tweets. */
  function TrainPart(d: Corpus, ratio: real): (r: Corpus)
    ensures |r| == |d|
  {
    seq(|d|, i requires 0 <= i < |d| => (d[i].0, d[i].1[..SplitPoint(|d[i].1|, ratio)]))
  }

  /** The test part of every author: the tweets after the split point. */
  function TestPart(d: Corpus, ratio: real): (r: Corpus)
    ensures |r| == |d|
  {
    seq(|d|, i requires 0 <= i < |d| => (d[i].0, d[i].1[SplitPoint(|d[i].1|, ratio)..]))
  }

  /** Both parts keep the authors and their order, and side by side they
      give back every author's list. */
  lemma PartsOfSplit(d: Corpus, ratio: real)
    ensures Keys(TrainPart(d, ratio)) == Keys(d) && Keys(TestPart(d, ratio)) == Keys(d)
    ensures DistinctKeys(d) ==> DistinctKeys(TrainPart(d, ratio)) && DistinctKeys(TestPart(d, ratio))
    ensures forall i :: 0 <= i < |d| ==> TrainPart(d, ratio)[i].1 + TestPart(d, ratio)[i].1 == d[i].1
    ensures forall i :: 0 <= i < |d| ==> |TrainPart(d, ratio)[i].1| == SplitPoint(|d[i].1|, ratio)
  {
    forall i | 0 <= i < |d| ensures TrainPart(d, ratio)[i].1 + TestPart(d, ratio)[i].1 == d[i].1 {
      var t, c := d[i].1, SplitPoint(|d[i].1|, ratio);
      assert t[..c] + t[c..] == t;
    }
  }

  lemma PartsSnoc(d: Corpus, ratio: real, i: nat)
    requires i < |d|
    ensures TrainPart(d[..i + 1], ratio) == TrainPart(d[..i], ratio) + [(d[i].0, d[i].1[..SplitPoint(|d[i].1|, ratio)])]
    ensures TestPart(d[..i + 1], ratio) == TestPart(d[..i], ratio) + [(d[i].0, d[i].1[SplitPoint(|d[i].1|, ratio)..])]
  {
  }

  /** `dividir_entrenamiento_prueba`: every author, in the input's order, in
      both outputs; its training tweets are the first `SplitPoint` tweets and
      its test tweets the rest (`PartsOfSplit`). */
  method TrainTestSplit(d: Corpus, ratio: real) returns (train: Corpus, test: Corpus)
    requires DistinctKeys(d)
    ensures train == TrainPart(d, ratio) && test == TestPart(d, ratio)
    ensures DistinctKeys(train) && DistinctKeys(test)
  {
    train, test := [], [];
    for i := 0 to |d|
      invariant train == TrainPart(d[..i], ratio) && test == TestPart(d[..i], ratio)
    {
      var (user, tweets) := d[i];
      var cut := SliceIndex(Trunc(Scaled(|tweets|, ratio)), |tweets|);
      PartsOfSplit(d[..i], ratio);
      assert user !in Keys(d[..i]);
      PutNew(train, user, tweets[..cut]);
      PutNew(test, user, tweets[cut..]);
      train := Put(train, user, tweets[..cut]);
      test := Put(test, user, tweets[cut..]);
      PartsSnoc(d, ratio, i);
    }
    assert d[..|d|] == d;
    PartsOfSplit(d, ratio);
  }
}
