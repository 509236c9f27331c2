/** Text normalisation of a tweet: `quitar_url`, `quitar_acentos` and
    `limpiar_texto`. */
module TextNormalizer {
  import opened PyStr

  /** One character of the URL pattern's repeated group, alternative by
      alternative: `[a-zA-Z]`, `[0-9]`, `[$-_@.&+]` (a RANGE from `$` to `_`,
      which already holds digits, capitals and most punctuation), and
      `[!*\\(\\),]`. The fifth alternative, `%` and two hex digits, matches
      only characters the third one matches singly, so it adds nothing. */
  predicate UrlChar(c: char)
  {
    ('a' <= c <= 'z') || ('A' <= c <= 'Z')
    || ('0' <= c <= '9')
    || ('$' <= c <= '_') || c == '@' || c == '.' || c == '&' || c == '+'
    || c == '!' || c == '*' || c == '\\' || c == '(' || c == ')' || c == ','
  }

  /** The URL character class in closed form. */
  lemma UrlCharClosedForm(c: char)
    ensures UrlChar(c) <==> c == '!' || ('$' <= c <= '_') || ('a' <= c <= 'z')
  {
  }

  /** The length of the run of URL characters `s` starts with (the greedy `+`). */
  function UrlRun(s: string): (n: nat)
    ensures n <= |s|
    ensures forall i :: 0 <= i < n ==> UrlChar(s[i])
    ensures n < |s| ==> !UrlChar(s[n])
  {
    if s != [] && UrlChar(s[0]) then 1 + UrlRun(s[1..]) else 0
  }

  /** `s` starts with `p`. */
  predicate StartsWith(s: string, p: string)
  {
    |p| <= |s| && forall j :: 0 <= j < |p| ==> s[j] == p[j]
  }

  /** The length of the scheme `https?://` at the start of `s` when a URL
      character follows it, else 0. `s?` is greedy, so `https://` is tried
      before `http://`. */
  function SchemeLength(s: string): (k: nat)
    ensures k == 0 || k == 7 || k == 8
    ensures k > 0 ==> k < |s| && forall j :: 0 <= j <= k ==> UrlChar(s[j])
    ensures k > 0 ==> s[k - 3] == ':'
  {
    if StartsWith(s, "https://") && |s| > 8 && UrlChar(s[8]) then 8
    else if StartsWith(s, "http://") && |s| > 7 && UrlChar(s[7]) then 7
    else 0
  }

  /** The scheme is `https://` or `http://`, `https://` when both could be
      read, and each is recognised whenever a URL character follows it. */
  lemma SchemeLengthHttp(s: string)
    ensures var k := SchemeLength(s);
      (k > 0 ==> StartsWith(s, "http") && (k == 8 <==> s[4] == 's')) &&
      (k == 8 <==> StartsWith(s, "https://") && |s| > 8 && UrlChar(s[8])) &&
      (k == 7 <==> StartsWith(s, "http://") && |s| > 7 && UrlChar(s[7]))
  {
  }

  /** The length of the match of `https?://(...)+` at the start of `s`, or 0
      when the pattern does not match there. */
  function UrlMatch(s: string): (n: nat)
    ensures n <= |s|
    ensures n > 0 <==> SchemeLength(s) > 0
  {
    var k := SchemeLength(s);
    if k > 0 then k + UrlRun(s[k..]) else 0
  }

  /** Whether a scheme matches is decided by its own characters and the one after. */
  lemma SchemeByPrefix(s: string, t: string)
    requires SchemeLength(s) > 0
    requires |t| > SchemeLength(s)
    requires forall j :: 0 <= j <= SchemeLength(s) ==> t[j] == s[j]
    ensures SchemeLength(t) > 0
  {
  }

  /** No position of `s` starts a URL match. */
  predicate NoUrl(s: string)
  {
    forall i :: 0 <= i <= |s| ==> UrlMatch(s[i..]) == 0
  }

  /** `quitar_url`: `re.sub` of the URL pattern by the empty string, scanning
      left to right and resuming after each match. The pattern has no
      anchors, so `re.MULTILINE` changes nothing. */
  function StripUrls(s: string): (r: string)
    ensures |r| <= |s|
    decreases |s|
  {
    if s == [] then []
    else
      var n := UrlMatch(s);
      if n > 0 then StripUrls(s[n..]) else [s[0]] + StripUrls(s[1..])
  }

  /** The length of the match starting at position `i` of `s`. */
  function UrlAt(s: string, i: nat): nat
    requires i <= |s|
  {
    UrlMatch(s[i..])
  }

  /** Text before the first URL survives: when no match starts at any of
      the first `n` positions, those characters come out unchanged in front
      of what remains of the rest. */
  lemma {:induction false} StripUrlsKeepsPrefix(s: string, n: nat)
    requires n <= |s|
    requires forall i :: 0 <= i < n ==> UrlAt(s, i) == 0
    ensures StripUrls(s) == s[..n] + StripUrls(s[n..])
    decreases n
  {
    if n == 0 {
      assert s[..0] == [] && s[0..] == s;
    } else {
      NoMatchInTail(s, n);
      StripUrlsKeepsPrefix(s[1..], n - 1);
      KeptPrefixStep(s, n);
    }
  }

  /** No match in the first `n` positions of `s` means none in the first
      `n - 1` of its tail, and none at its start. */
  lemma NoMatchInTail(s: string, n: nat)
    requires 0 < n <= |s|
    requires forall i :: 0 <= i < n ==> UrlAt(s, i) == 0
    ensures UrlMatch(s) == 0
    ensures forall i :: 0 <= i < n - 1 ==> UrlAt(s[1..], i) == 0
  {
    assert UrlAt(s, 0) == 0 && s[0..] == s;
    forall i | 0 <= i < n - 1 ensures UrlAt(s[1..], i) == 0 {
      assert s[1..][i..] == s[i + 1..];
      assert UrlAt(s, i + 1) == 0;
    }
  }

  /** One kept character in front of a kept prefix of the tail. */
  lemma KeptPrefixStep(s: string, n: nat)
    requires 0 < n <= |s| && UrlMatch(s) == 0
    requires StripUrls(s[1..]) == s[1..][..n - 1] + StripUrls(s[1..][n - 1..])
    ensures StripUrls(s) == s[..n] + StripUrls(s[n..])
  {
    assert s[1..][n - 1..] == s[n..];
    KeptFirst(s);
    ConsPrefix(s, n, StripUrls(s[1..]), StripUrls(s[n..]));
  }

  /** The first character put back in front of a prefix of the tail. */
  lemma ConsPrefix(s: string, n: nat, a: string, b: string)
    requires 0 < n <= |s|
    requires a == s[1..][..n - 1] + b
    ensures [s[0]] + a == s[..n] + b
  {
    assert s[..n] == [s[0]] + s[1..][..n - 1];
  }

  /** A character at which no URL starts is kept. */
  lemma KeptFirst(s: string)
    requires s != [] && UrlMatch(s) == 0
    ensures StripUrls(s) == [s[0]] + StripUrls(s[1..])
  {
  }

  /** The same for a text written as `p + q`. */
  lemma StripUrlsKeepsPlain(p: string, q: string)
    requires forall i :: 0 <= i < |p| ==> UrlAt(p + q, i) == 0
    ensures StripUrls(p + q) == p + StripUrls(q)
  {
    StripUrlsKeepsPrefix(p + q, |p|);
    assert (p + q)[..|p|] == p && (p + q)[|p|..] == q;
  }

  /** Text after a URL survives too: a URL `u` between plain text `p` and
      the rest `q` is deleted, and nothing else is. */
  lemma StripUrlsAroundUrl(p: string, u: string, q: string)
    requires forall i :: 0 <= i < |p| ==> UrlAt(p + u + q, i) == 0
    requires |u| > 0 && UrlMatch(u + q) == |u|
    ensures StripUrls(p + u + q) == p + StripUrls(q)
  {
    assert p + u + q == p + (u + q);
    StripUrlsKeepsPlain(p, u + q);
    assert (u + q)[|u|..] == q;
  }

  /** Every URL is removed: the result holds no match of the pattern. */
  lemma {:induction false} StripUrlsLeavesNoUrl(s: string)
    ensures NoUrl(StripUrls(s))
    decreases |s|
  {
    if s != [] {
      var n := UrlMatch(s);
      if n > 0 {
        StripUrlsLeavesNoUrl(s[n..]);
      } else {
        var rest := StripUrls(s[1..]);
        var r := [s[0]] + rest;
        StripUrlsLeavesNoUrl(s[1..]);
        forall i | 0 <= i <= |r| ensures UrlMatch(r[i..]) == 0 {
          if i == 0 {
            KeptCharStartsNoUrl(s);
          } else {
            assert r[i..] == rest[i - 1..];
          }
        }
      }
    }
  }

  /** A character kept because no URL starts at it does not start one in the
      result either. */
  lemma KeptCharStartsNoUrl(s: string)
    requires s != [] && UrlMatch(s) == 0
    ensures UrlMatch([s[0]] + StripUrls(s[1..])) == 0
  {
    var rest := StripUrls(s[1..]);
    var r := [s[0]] + rest;
    if UrlMatch(r) > 0 {
      var k := SchemeLength(r);
      assert forall j :: 0 <= j < k ==> rest[j] == r[j + 1];
      UrlCharsSurvive(s[1..], k);
      SchemeByPrefix(r, s);
      assert false;
    }
  }

  /** A leading run of URL characters in the result was copied unchanged from
      the start of the input: a removal always ends before a character that
      is not a URL character. */
  lemma {:induction false} UrlCharsSurvive(s: string, m: nat)
    requires m <= |StripUrls(s)|
    requires forall j :: 0 <= j < m ==> UrlChar(StripUrls(s)[j])
    ensures m <= |s| && forall j :: 0 <= j < m ==> s[j] == StripUrls(s)[j]
    decreases |s|
  {
    if m > 0 {
      var n := UrlMatch(s);
      if n > 0 {
        AfterUrl(s);
      } else {
        var rest := StripUrls(s[1..]);
        assert StripUrls(s) == [s[0]] + rest;
        assert forall j :: 0 <= j < m - 1 ==> rest[j] == StripUrls(s)[j + 1];
        UrlCharsSurvive(s[1..], m - 1);
      }
    }
  }

  /** What is left after a removed URL starts with a character that is not a
      URL character: the greedy run stopped there. */
  lemma AfterUrl(s: string)
    requires UrlMatch(s) > 0
    ensures StripUrls(s) == [] || !UrlChar(StripUrls(s)[0])
  {
    var k := SchemeLength(s);
    var t := s[UrlMatch(s)..];
    if t != [] {
      assert t[0] == s[k..][UrlRun(s[k..])];
      assert SchemeLength(t) == 0;
    }
  }

  /** A string is returned unchanged exactly when it holds no URL. */
  lemma {:induction false} StripUrlsUnchangedIff(s: string)
    ensures StripUrls(s) == s <==> NoUrl(s)
    decreases |s|
  {
    if NoUrl(s) {
      StripUrlsNoUrl(s);
    } else {
      StripUrlsShortens(s);
    }
  }

  lemma {:induction false} StripUrlsNoUrl(s: string)
    requires NoUrl(s)
    ensures StripUrls(s) == s
    decreases |s|
  {
    if s != [] {
      assert UrlMatch(s[0..]) == 0;
      assert NoUrl(s[1..]) by {
        forall i | 0 <= i <= |s[1..]| ensures UrlMatch(s[1..][i..]) == 0 {
          assert s[1..][i..] == s[i + 1..];
        }
      }
      StripUrlsNoUrl(s[1..]);
    }
  }

  lemma {:induction false} StripUrlsShortens(s: string)
    requires !NoUrl(s)
    ensures |StripUrls(s)| < |s|
    decreases |s|
  {
    var i :| 0 <= i <= |s| && UrlMatch(s[i..]) > 0;
    if UrlMatch(s) == 0 {
      assert i > 0;
      assert s[1..][i - 1..] == s[i..];
      StripUrlsShortens(s[1..]);
    }
  }

  /** A string with no "http" in it is returned unchanged. */
  lemma StripUrlsWithoutHttp(s: string)
    requires forall i :: 0 <= i <= |s| - 4 ==> !StartsWith(s[i..], "http")
    ensures StripUrls(s) == s
  {
    forall i | 0 <= i <= |s| ensures UrlMatch(s[i..]) == 0 {
      if UrlMatch(s[i..]) > 0 {
        UrlStartsHttp(s[i..]);
      }
    }
    StripUrlsNoUrl(s);
  }

  /** Every URL starts with "http". */
  lemma UrlStartsHttp(t: string)
    requires UrlMatch(t) > 0
    ensures |t| > 4 && StartsWith(t, "http")
  {
  }

  /** Removing URLs twice removes nothing more. */
  lemma StripUrlsIdempotent(s: string)
    ensures StripUrls(StripUrls(s)) == StripUrls(s)
  {
    StripUrlsLeavesNoUrl(s);
    StripUrlsNoUrl(StripUrls(s));
  }

  /** `equivalencias`: the ten accented vowels and their plain forms. */
  const Equivalences: map<char, char> := map[
    'á' := 'a', 'é' := 'e', 'í' := 'i', 'ó' := 'o', 'ú' := 'u',
    'Á' := 'A', 'É' := 'E', 'Í' := 'I', 'Ó' := 'O', 'Ú' := 'U']

  /** `equivalencias.get(letra, letra)`. */
  function FoldAccent(c: char): char
  {
    if c in Equivalences then Equivalences[c] else c
  }

  /** `quitar_acentos`: each of the ten vowels in `equivalencias` replaced,
      position by position; every other character, including other accented
      letters, kept. */
  function RemoveAccents(s: string): (r: string)
    ensures |r| == |s|
    ensures forall i :: 0 <= i < |s| ==> r[i] !in Equivalences
    ensures forall i :: 0 <= i < |s| && s[i] !in Equivalences ==> r[i] == s[i]
    ensures forall i :: 0 <= i < |s| && s[i] in Equivalences ==> r[i] == Equivalences[s[i]]
  {
    seq(|s|, i requires 0 <= i < |s| => FoldAccent(s[i]))
  }

  /** Folding accents twice folds nothing more: no plain form is a key. */
  lemma RemoveAccentsIdempotent(s: string)
    ensures RemoveAccents(RemoveAccents(s)) == RemoveAccents(s)
  {
  }

  /** `texto.replace("\n", "")`. */
  function DeleteNewlines(s: string): (r: string)
    ensures '\n' !in r
    ensures forall c :: c in r ==> c in s
    ensures '\n' !in s ==> r == s
  {
    if s == [] then []
    else if s[0] == '\n' then DeleteNewlines(s[1..])
    else [s[0]] + DeleteNewlines(s[1..])
  }

  /** Deleting newlines works piece by piece, so every other character
      survives, in order. */
  lemma {:induction false} DeleteNewlinesAppend(a: string, b: string)
    ensures DeleteNewlines(a + b) == DeleteNewlines(a) + DeleteNewlines(b)
    decreases |a|
  {
    if a == [] {
      assert a + b == b;
    } else {
      assert (a + b)[1..] == a[1..] + b;
      DeleteNewlinesAppend(a[1..], b);
    }
  }

  /** `''.join(c for c in s if c.isalpha() or c.isspace())`. */
  function KeepAlphaSpace(s: string): (r: string)
    ensures forall c :: c in r ==> c in s && (IsAlpha(c) || IsSpace(c))
    ensures (forall c :: c in s ==> IsAlpha(c) || IsSpace(c)) ==> r == s
  {
    if s == [] then []
    else if IsAlpha(s[0]) || IsSpace(s[0]) then [s[0]] + KeepAlphaSpace(s[1..])
    else KeepAlphaSpace(s[1..])
  }

  /** The filter works piece by piece, so every letter and whitespace
      character survives, in order. */
  lemma {:induction false} KeepAlphaSpaceAppend(a: string, b: string)
    ensures KeepAlphaSpace(a + b) == KeepAlphaSpace(a) + KeepAlphaSpace(b)
    decreases |a|
  {
    if a == [] {
      assert a + b == b;
    } else {
      assert (a + b)[1..] == a[1..] + b;
      KeepAlphaSpaceAppend(a[1..], b);
    }
  }

  /** Folding accents works piece by piece. */
  lemma RemoveAccentsAppend(a: string, b: string)
    ensures RemoveAccents(a + b) == RemoveAccents(a) + RemoveAccents(b)
  {
    assert forall i :: 0 <= i < |a + b| ==> (a + b)[i] == if i < |a| then a[i] else b[i - |a|];
  }

  /** A character of a cleaned text. */
  predicate CleanChar(c: char)
  {
    (IsAlpha(c) || IsSpace(c)) && c != '\n' && !IsUpper(c) && c !in Equivalences
  }

  /** `limpiar_texto`: URLs removed, the ten vowels folded, newlines deleted, only
      letters and whitespace kept, then lower-cased. */
  function Clean(text: string): (r: string)
    ensures forall i :: 0 <= i < |r| ==> CleanChar(r[i])
    ensures '\n' !in r
    ensures forall i :: 0 <= i < |r| ==> !('0' <= r[i] <= '9') && (UrlChar(r[i]) ==> 'a' <= r[i] <= 'z')
  {
    var letters := KeepAlphaSpace(DeleteNewlines(RemoveAccents(StripUrls(text))));
    var r := Lower(letters);
    LowerClean(letters);
    forall i | 0 <= i < |r|
      ensures !('0' <= r[i] <= '9') && (UrlChar(r[i]) ==> 'a' <= r[i] <= 'z')
    {
      CleanCharPlain(r[i]);
    }
    r
  }

  /** The characters the filter keeps, lower-cased, are clean. */
  lemma LowerClean(s: string)
    requires forall c :: c in s ==> (IsAlpha(c) || IsSpace(c)) && c != '\n' && c !in Equivalences
    ensures forall i :: 0 <= i < |Lower(s)| ==> CleanChar(Lower(s)[i])
  {
    forall i | 0 <= i < |s| ensures CleanChar(Lower(s)[i]) {
      assert s[i] in s;
      LowerKeepsPlain(s[i]);
    }
  }

  /** A clean character is no digit and no URL punctuation. */
  lemma CleanCharPlain(c: char)
    requires CleanChar(c)
    ensures !('0' <= c <= '9') && (UrlChar(c) ==> 'a' <= c <= 'z')
  {
  }

  /** Lower-casing never produces one of the ten folded vowels from another
      character. */
  lemma LowerKeepsPlain(c: char)
    requires c !in Equivalences
    ensures ToLower(c) !in Equivalences && (ToLower(c) == '\n' <==> c == '\n')
  {
  }

  /** A cleaned text is cleaned already: `limpiar_texto` is idempotent. */
  lemma CleanIdempotent(text: string)
    ensures Clean(Clean(text)) == Clean(text)
  {
    CleanKeepsClean(Clean(text));
  }

  /** A text made only of clean characters is left exactly as it is. */
  lemma CleanKeepsClean(r: string)
    requires forall i :: 0 <= i < |r| ==> CleanChar(r[i])
    ensures Clean(r) == r
  {
    CleanTextNoUrl(r);
    StripUrlsNoUrl(r);
    CleanTextFixed(r);
  }

  /** A character outside any URL is folded, kept when it is then a letter
      or whitespace other than a newline, and lower-cased. */
  lemma CleanOneChar(c: char)
    ensures var f := FoldAccent(c);
      Clean([c]) == if (IsAlpha(f) || IsSpace(f)) && f != '\n' then [ToLower(f)] else []
  {
    assert NoUrl([c]) by {
      forall i | 0 <= i <= 1 ensures UrlMatch([c][i..]) == 0 {
        assert |[c][i..]| <= 1;
      }
    }
    StripUrlsNoUrl([c]);
    assert RemoveAccents([c]) == [FoldAccent(c)];
  }

  /** Part of a text without URLs splits into texts without URLs. */
  lemma NoUrlParts(a: string, b: string)
    requires NoUrl(a + b)
    ensures NoUrl(a) && NoUrl(b)
  {
    forall i | 0 <= i <= |b| ensures UrlMatch(b[i..]) == 0 {
      assert (a + b)[|a| + i..] == b[i..];
    }
    forall i | 0 <= i <= |a| ensures UrlMatch(a[i..]) == 0 {
      if SchemeLength(a[i..]) > 0 {
        var k := SchemeLength(a[i..]);
        forall j | 0 <= j <= k ensures (a + b)[i..][j] == a[i..][j] {
          assert (a + b)[i + j] == a[i + j];
        }
        SchemeByPrefix(a[i..], (a + b)[i..]);
        assert false;
      }
    }
  }

  /** On a text without URLs the cleaner works piece by piece: nothing but
      the rejected characters is lost, and the order is kept. */
  lemma CleanAppend(a: string, b: string)
    requires NoUrl(a + b)
    ensures Clean(a + b) == Clean(a) + Clean(b)
  {
    NoUrlParts(a, b);
    StripUrlsNoUrl(a + b);
    StripUrlsNoUrl(a);
    StripUrlsNoUrl(b);
    RemoveAccentsAppend(a, b);
    var fa, fb := RemoveAccents(a), RemoveAccents(b);
    DeleteNewlinesAppend(fa, fb);
    var da, db := DeleteNewlines(fa), DeleteNewlines(fb);
    KeepAlphaSpaceAppend(da, db);
    LowerAppend(KeepAlphaSpace(da), KeepAlphaSpace(db));
  }

  /** A cleaned text has no ':' and so no URL. */
  lemma CleanTextNoUrl(r: string)
    requires forall i :: 0 <= i < |r| ==> CleanChar(r[i])
    ensures NoUrl(r)
  {
    forall i | 0 <= i <= |r| ensures UrlMatch(r[i..]) == 0 {
      var k := SchemeLength(r[i..]);
      if k > 0 {
        assert r[i..][k - 3] == r[i + k - 3];
        CleanCharPlain(r[i + k - 3]);
      }
    }
  }

  /** Folding, deleting newlines, filtering and lower-casing leave a
      cleaned text as it is. */
  lemma CleanTextFixed(r: string)
    requires forall i :: 0 <= i < |r| ==> CleanChar(r[i])
    ensures RemoveAccents(r) == r && DeleteNewlines(r) == r
    ensures KeepAlphaSpace(r) == r && Lower(r) == r
  {
    assert forall c :: c in r ==> CleanChar(c);
  }
}
