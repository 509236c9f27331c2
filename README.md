# Naive Bayes tweet author classifier, modelled in Dafny

The program guesses the author of a tweet with a multinomial Naive Bayes
model. It reads a comma-separated file of tweets and cleans each message:
URLs removed, the ten accented vowels á é í ó ú Á É Í Ó Ú folded to
plain vowels (other accented letters such as ü or à are kept), newlines
deleted, only letters and whitespace kept, then lower-cased. It groups the messages by author and drops the
authors with fewer than five tweets. It then splits every author's tweets
into 80% for training and 20% for testing. From the training part it
estimates:
- the prior of each author: its share of the training tweets;
- the conditional probability of each word per author: its relative
  frequency among that author's words.

Each test tweet is scored per author. The score starts at the author's prior
and is multiplied by the author's probability of every token the author knows.
The author with the largest score is printed.

The repository holds the code twice. `explicado_codigo.py` has docstrings.
`trabajo_final_codigo_bonito.py` has none, but its functions are the same
line for line. The table below cites `explicado_codigo.py`. The same code in
the other file is at:

| function | explicado_codigo.py | trabajo_final_codigo_bonito.py |
|---|---|---|
| quitar_url | 7-8 | 4-5 |
| quitar_acentos | 15-20 | 9-14 |
| limpiar_texto | 26-30 | 17-21 |
| cargar_tweets | 36-44 | 24-32 |
| agregar_valor | 50 | 35 |
| eliminar_cortos | 56 | 38 |
| dividir_entrenamiento_prueba | 62-68 | 41-47 |
| calcular_probabilidades_a_priori | 74-75 | 50-51 |
| calcular_probabilidades_condicionales | 81-90 | 54-63 |
| clasificar_tweet | 96-101 | 66-71 |
| the script | 104-119 | 73-84 |

The modules follow the program's stages:
- `OrderedDict`: Python's insertion-ordered `dict` as a sequence of entries,
  plus the exceptions the program can raise.
- `PyStr`: the string built-ins.
- `TextNormalizer`: the three cleaning functions.
- `Corpus`: loading, filtering and splitting.
- `Estimation`: priors and word tables.
- `Classifier`: `clasificar_tweet`.
- `Pipeline`: the script at the end of the file.

Dicts are values. Every loop of the source is a `method` with a `for` loop,
proved equal to a specification function. The properties are proved about
those functions. Exceptions (`ZeroDivisionError`, `KeyError`, the
`ValueError` of `max` on an empty dict) are the error half of a `Result`.

Four behaviours of the code worth knowing:
- The URL pattern's class `[$-_@.&+]` is a range from `$` to `_`. It holds
  digits, capitals, `:`, `/`, `?`, `=` and more, besides the literal `@`,
  `.`, `&` and `+`.
- `calcular_probabilidades_a_priori` of an empty dict returns `{}`. Only a
  non-empty dict without tweets divides by zero.
- A corpus that filtering leaves empty raises nothing. The script then
  prints nothing.
- When two authors tie, `max` returns the earliest one in dict order. That
  order is the order of each author's first kept line: a line with fewer
  than four fields, or whose cleaned message is empty, does not count.

## Model

| member | source | states |
|---|---|---|
| OrderedDict.Put | explicado_codigo.py:66-67 | `d[k] = v`: the dict stays well formed; an existing key keeps its position and a new key is appended; `k` now maps to `v` and every other key keeps its value |
| PyStr.ToLower | explicado_codigo.py:30 | lower-casing one character keeps it alphabetic or whitespace exactly when it was, and leaves no capital; a non-capital is unchanged |
| PyStr.LowerClasses | explicado_codigo.py:30 | `str.lower` keeps the length and leaves no capital; every letter stays a letter, every whitespace character stays whitespace, and every character that is not a capital is kept as it is |
| PyStr.LowerIdempotent | explicado_codigo.py:30 | lower-casing twice changes nothing more |
| PyStr.LowerAppend | explicado_codigo.py:30 | lower-casing a concatenation is the concatenation of the lower-cased pieces |
| PyStr.Strip | explicado_codigo.py:39 | `str.strip` removes only whitespace, and only from the two ends: the input is whitespace, then the result, then whitespace, and the result neither starts nor ends with whitespace |
| PyStr.SplitOn | explicado_codigo.py:39 | `split(',')` gives at least one field and no field holds a comma |
| PyStr.JoinSplitOn | explicado_codigo.py:39 | splitting on commas loses nothing: joining the fields with commas gives back the line |
| PyStr.Words | explicado_codigo.py:85 | `str.split()` gives non-empty tokens without whitespace |
| PyStr.WordsJoinWords | explicado_codigo.py:85 | splitting tokens joined by single spaces gives back the tokens |
| PyStr.WordsOfWord | explicado_codigo.py:85 | a non-empty string without whitespace splits into itself |
| PyStr.WordsAtSpace | explicado_codigo.py:85 | `str.split()` breaks at every whitespace character, however many there are in a row: the tokens of `a + [c] + b` with `c` whitespace are the tokens of `a` followed by those of `b` |
| TextNormalizer.UrlCharClosedForm | explicado_codigo.py:7 | the URL character class is exactly `!`, the range `$`..`_`, and `a`..`z` |
| TextNormalizer.UrlRun | explicado_codigo.py:7 | the greedy `+` takes the longest run of URL characters |
| TextNormalizer.SchemeLengthHttp | explicado_codigo.py:7 | a scheme is recognised exactly when the text starts with `https://` followed by a URL character (length 8, tried first) or with `http://` followed by a URL character (length 7) |
| TextNormalizer.UrlMatch | explicado_codigo.py:7 | the pattern matches at a position exactly when a scheme does |
| TextNormalizer.StripUrls | explicado_codigo.py:8 | `re.sub` never lengthens the text |
| TextNormalizer.StripUrlsKeepsPrefix | explicado_codigo.py:8 | the characters before the first match come out unchanged, in front of what remains of the rest |
| TextNormalizer.StripUrlsKeepsPlain | explicado_codigo.py:8 | the same for a text `p + q` with no match starting inside `p`: the result is `p` followed by the result for `q` |
| TextNormalizer.StripUrlsAroundUrl | explicado_codigo.py:7-8 | a URL `u` matched in full between plain text `p` and the rest `q` is the only thing deleted: the result is `p` followed by the result for `q`, so the text after a URL survives |
| TextNormalizer.StripUrlsLeavesNoUrl | explicado_codigo.py:8 | after `quitar_url`, no position of the text starts a match of the pattern |
| TextNormalizer.StripUrlsUnchangedIff | explicado_codigo.py:8 | `quitar_url` returns its input unchanged exactly when the input holds no URL |
| TextNormalizer.StripUrlsWithoutHttp | explicado_codigo.py:7-8 | a text with no `http` is returned unchanged |
| TextNormalizer.StripUrlsIdempotent | explicado_codigo.py:8 | removing URLs twice removes nothing more |
| TextNormalizer.RemoveAccents | explicado_codigo.py:15-20 | `quitar_acentos` keeps the length, replaces each of the ten accented vowels by its plain vowel, keeps every other character, and leaves none of the ten vowels á é í ó ú Á É Í Ó Ú; other accented letters such as ü or à pass through |
| TextNormalizer.RemoveAccentsIdempotent | explicado_codigo.py:15-20 | folding accents twice folds nothing more |
| TextNormalizer.RemoveAccentsAppend | explicado_codigo.py:15-20 | folding a concatenation is the concatenation of the folded pieces |
| TextNormalizer.DeleteNewlines | explicado_codigo.py:28 | `replace("\n", "")` leaves no newline, adds no character, and changes nothing in a text without newlines |
| TextNormalizer.DeleteNewlinesAppend | explicado_codigo.py:28 | deleting newlines works piece by piece; with the clause above, every character other than a newline survives, in order |
| TextNormalizer.KeepAlphaSpace | explicado_codigo.py:29 | the filter keeps only letters and whitespace from the text, and changes nothing in a text made only of them |
| TextNormalizer.KeepAlphaSpaceAppend | explicado_codigo.py:29 | the filter works piece by piece; with the clauses above, every letter and whitespace character survives, in order |
| TextNormalizer.Clean | explicado_codigo.py:26-30 | every character `limpiar_texto` returns is a lower-case letter or whitespace, not a newline, none of the ten vowels á é í ó ú Á É Í Ó Ú (other accented letters such as ü or à pass through), not a digit, and no URL punctuation |
| TextNormalizer.CleanTextNoUrl | explicado_codigo.py:26-30 | a cleaned text holds no URL |
| TextNormalizer.CleanIdempotent | explicado_codigo.py:26-30 | `limpiar_texto` is idempotent |
| TextNormalizer.CleanKeepsClean | explicado_codigo.py:26-30 | a text made only of lower-case letters and whitespace other than newlines, without any of the ten vowels á é í ó ú Á É Í Ó Ú, comes back exactly as it is |
| TextNormalizer.CleanOneChar | explicado_codigo.py:26-30 | one character is folded, kept when it is then a letter or whitespace other than a newline, and lower-cased |
| TextNormalizer.NoUrlParts | explicado_codigo.py:7-8 | both pieces of a text without URLs are without URLs |
| TextNormalizer.CleanAppend | explicado_codigo.py:26-30 | on a text without URLs, cleaning works piece by piece; with CleanOneChar it is fixed character by character |
| Corpus.Fields | explicado_codigo.py:39 | a line always gives at least one field |
| Corpus.AddValue | explicado_codigo.py:50 | `setdefault(k, []).append(v)`: `v` goes at the end of `k`'s list; a new key gets `[v]` and takes the last position; every other key keeps its list |
| Corpus.LoadLine | explicado_codigo.py:39-43 | one line of the loop keeps the dict well formed |
| Corpus.MessagesBy | explicado_codigo.py:41-43 | every message kept for an author is non-empty and is already clean |
| Corpus.LoadContents | explicado_codigo.py:36-44 | after loading, the authors are those of the kept lines in order of first appearance, and each holds the cleaned messages of its kept lines in line order |
| Corpus.LoadTweets | explicado_codigo.py:36-44 | `cargar_tweets` builds exactly that dict |
| Corpus.RemoveShort | explicado_codigo.py:56 | `eliminar_cortos` keeps exactly the entries whose lists have at least `longitud_minima` elements, in their original order |
| Corpus.RemoveShortIdempotent | explicado_codigo.py:56 | filtering twice with the same threshold removes nothing more |
| Corpus.RemoveShortKeys | explicado_codigo.py:56 | the filtered dict is well formed; a key is kept if and only if its list is long enough; each kept key keeps its list |
| Corpus.SliceIndex | explicado_codigo.py:66-67 | Python's slice bound: a bound within the list is itself; a negative bound `c` down to `-n` counts from the end (`n + c`); a bound below `-n` is 0 and one above `n` is `n` |
| Corpus.SplitPoint | explicado_codigo.py:65 | for a ratio in [0, 1], `int(len(tweets) * ratio)` is the floor of the product, at most the length |
| Corpus.ScaleBelow | explicado_codigo.py:65 | a ratio in [0, 1] scales a length into [0, length] |
| Corpus.PartsOfSplit | explicado_codigo.py:64-67 | both halves keep the authors and their order; for every author, training tweets followed by test tweets give back its list, and the training half has `SplitPoint` tweets |
| Corpus.TrainTestSplit | explicado_codigo.py:62-68 | `dividir_entrenamiento_prueba` returns exactly the two halves, both well formed |
| Estimation.Shares | explicado_codigo.py:75 | the priors have the authors of the corpus in its order |
| Estimation.Priors | explicado_codigo.py:74-75 | raises `ZeroDivisionError` exactly when the dict is non-empty and has no tweets; otherwise returns one prior per author, in order |
| Estimation.PriorIsShare | explicado_codigo.py:75 | an author's prior is its tweet count over the total, in [0, 1], and 0 exactly when the author has no tweet |
| Estimation.PriorsSumToOne | explicado_codigo.py:74-75 | the priors of a non-empty corpus sum to exactly 1 |
| Estimation.Increment | explicado_codigo.py:86 | one count update keeps the counter well formed |
| Estimation.CountsContents | explicado_codigo.py:83-86 | the counter holds each word once, in order of first use; its count is the number of occurrences; the counts sum to the number of words |
| Estimation.CountTweetWords | explicado_codigo.py:85-86 | counting one tweet's words continues the count of the words before it |
| Estimation.CountWords | explicado_codigo.py:83-86 | the two inner loops count all the words of the author's tweets, tweet by tweet |
| Estimation.Ratios | explicado_codigo.py:88 | the probabilities have the counter's words in its order |
| Estimation.WordTableKeys | explicado_codigo.py:87-88 | an author's table is well formed, holds its words in order of first use, and is empty exactly when the author has no word |
| Estimation.WordProbability | explicado_codigo.py:87-88 | a word's probability is its number of occurrences over the number of the author's words, in (0, 1] |
| Estimation.WordTableSumsToOne | explicado_codigo.py:87-88 | the probabilities of an author with words sum to exactly 1 |
| Estimation.Tables | explicado_codigo.py:82-89 | the conditional tables have the authors of the corpus in its order |
| Estimation.ConditionalProbabilities | explicado_codigo.py:81-90 | `calcular_probabilidades_condicionales` gives every author, in order, the word table of all the words of its tweets |
| Classifier.ScoreTokens | explicado_codigo.py:98-100 | the inner loop keeps the scores' keys; it can only fail with the `KeyError` of its own author |
| Classifier.Scores | explicado_codigo.py:96-100 | the scores have the authors of the priors, in their order |
| Classifier.ClassifySpec | explicado_codigo.py:96-101 | a classification is always an author with a prior |
| Classifier.MultiplyKnown | explicado_codigo.py:98-100 | the in-place `*=` loop over the tokens computes `ScoreTokens` |
| Classifier.Classify | explicado_codigo.py:96-101 | `clasificar_tweet` computes `ClassifySpec`, error cases included |
| Classifier.ScoreTokensClosed | explicado_codigo.py:98-100 | the inner loop fails exactly when its author has no score and knows a token; otherwise it multiplies that author's score by the product of its known tokens' probabilities and leaves the other scores alone |
| Classifier.ScoresOkIff | explicado_codigo.py:96-100 | scoring succeeds if and only if every author of the word tables that knows a token has a prior; on failure the error is the `KeyError` of the first author that does not |
| Classifier.ScoresValues | explicado_codigo.py:96-100 | each final score is the author's prior times the product of the probabilities of the message's tokens the author knows |
| Classifier.TokenFactorUnit | explicado_codigo.py:100 | with probabilities in [0, 1], an author's product is in [0, 1] |
| Classifier.TokenFactorAppend | explicado_codigo.py:98-100 | the product over a message is the product of the products over its two pieces |
| Classifier.TokenRepeat | explicado_codigo.py:98-100 | a known token repeated `k` times multiplies the score by its probability to the power `k` |
| Classifier.ArgMaxIndex | explicado_codigo.py:101 | Python's `max` scan returns a position holding the maximum, with every earlier element strictly smaller |
| Classifier.FirstMaxUnique | explicado_codigo.py:101 | that position is the only one with both properties |
| Classifier.ArgMax | explicado_codigo.py:101 | `max(d, key=d.get)` fails exactly on an empty dict; otherwise it returns a key whose value is maximal, with every earlier value strictly smaller |
| Classifier.ClassifyChoosesBest | explicado_codigo.py:96-101 | the winner has a prior and the largest score (prior times product of known tokens) of all authors; every author before it in the priors' order scores strictly less |
| Classifier.ClassifyFails | explicado_codigo.py:96-101 | classification fails if and only if the priors are empty or an author of the word tables that knows a token has no prior |
| Classifier.UnseenWordsGivePriorArgmax | explicado_codigo.py:97-101 | a message no author has a token of leaves every score at its prior, and goes to the first author with the largest prior |
| Pipeline.Prepared | explicado_codigo.py:104-107 | after loading and filtering, the corpus is well formed and every author has at least five tweets |
| Pipeline.ClassifyAll | explicado_codigo.py:117-119 | classifying the test tweets gives one answer per tweet |
| Pipeline.ClassifyAllContents | explicado_codigo.py:117-119 | the loop fails if and only if some test tweet cannot be classified; otherwise answer `j` is the classification of tweet `j` |
| Pipeline.ClassifyTweets | explicado_codigo.py:118-119 | the inner loop continues the answers for the tweets before it |
| Pipeline.ClassifyAuthors | explicado_codigo.py:117-119 | the outer loop classifies the test tweets author by author, in order |
| Pipeline.Run | explicado_codigo.py:104-119 | the script loads, filters with 5, splits with 0.8, estimates and prints the classification of every test tweet, or stops at the first exception |
| Pipeline.SplitKeepsFour | explicado_codigo.py:107-110 | an author with at least five tweets keeps at least four for training |
| Pipeline.ScriptNeverFails | explicado_codigo.py:104-119 | the script never raises, for any lines the file yields: it prints exactly one answer per test tweet, and each answer is an author of the filtered corpus |

## Left out

- Reading `./tuits_bayes.txt` (`open`, UTF-8 decoding) is not modelled. The
  model takes the file's lines as a parameter. A missing or undecodable file
  makes the program raise before any answer is printed; the model has no such
  case. A line's `\n` is removed by
  `strip`, as in the code.
- `print` is modelled by collecting the answers in order. `Pipeline.Run`
  returns them.
- Classifier.Classify: Python floats are modelled as exact reals, so rounding
  and underflow are not captured. In the program a long message can
  underflow every score to 0.0 and give a tie that the exact model does not
  have. Estimation.Priors and Estimation.ConditionalProbabilities divide exactly
  too, and their probabilities sum to exactly 1, not within a tolerance.
- PyStr.ToLower: `str.isalpha` and `str.lower` follow Python exactly on
  U+0000..U+00FF only. A character above U+00FF is treated as non-alphabetic
  and as its own lower case. `str.isspace` follows Python's whitespace table
  in full.
- TextNormalizer.StripUrls: Python's general `re` engine is not modelled. The
  function is a hand-written matcher for this one pattern. Its `%` plus two
  hex digits alternative matches only characters the range alternative
  already matches one by one, so it adds nothing.
- `agregar_valor`, `dividir_entrenamiento_prueba`,
  `calcular_probabilidades_condicionales` and `clasificar_tweet` update dicts
  and lists in place. The model passes them by value, so aliasing between
  the dict and the lists it holds is not modelled. No caller keeps a second
  reference.
- `tweet.split()` in `clasificar_tweet` is evaluated again for every author.
  It always gives the same tokens, so the model splits once.
- Pipeline.Run: when a test tweet raises, the program has already printed
  the answers before it. The model returns only the error and drops those
  answers. Pipeline.ScriptNeverFails shows that no list of lines makes the script
  raise.
- `clasificar_tweet` does not clean the message it is given. The model does
  not clean it either. In the script the test tweets were cleaned at load
  time.

## Findings

None: no discrepancy between the code and its evident intent was found.
