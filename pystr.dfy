/** The Python string built-ins the program relies on: `str.isspace`,
    `str.isalpha`, `str.lower`, `str.strip`, `str.split(sep)` and `str.split()`.
    `isspace` follows Python's whitespace table exactly; `isalpha` and `lower`
    follow Python exactly on U+0000..U+00FF (ASCII and Latin-1) and treat every
    character above U+00FF as non-alphabetic and as its own lower case. */
module PyStr {

  /** `c.isspace()`: the characters Python counts as whitespace. */
  predicate IsSpace(c: char)
  {
    var n := c as int;
    (0x09 <= n <= 0x0D) || (0x1C <= n <= 0x20) || n == 0x85 || n == 0xA0
    || n == 0x1680 || (0x2000 <= n <= 0x200A) || n == 0x2028 || n == 0x2029
    || n == 0x202F || n == 0x205F || n == 0x3000
  }

  /** Upper-case letters that `lower` changes: A-Z and the Latin-1 capitals. */
  predicate IsUpper(c: char)
  {
    var n := c as int;
    (0x41 <= n <= 0x5A) || (0xC0 <= n <= 0xDE && n != 0xD7)
  }

  /** `c.isalpha()` on ASCII and Latin-1. */
  predicate IsAlpha(c: char)
  {
    var n := c as int;
    IsUpper(c) || (0x61 <= n <= 0x7A) || n == 0xAA || n == 0xB5 || n == 0xBA
    || n == 0xDF || (0xE0 <= n <= 0xFF && n != 0xF7)
  }

  /** `c.lower()` for a single character. */
  function ToLower(c: char): (l: char)
    ensures IsAlpha(l) <==> IsAlpha(c)
    ensures IsSpace(l) <==> IsSpace(c)
    ensures !IsUpper(l)
    ensures !IsUpper(c) ==> l == c
  {
    if IsUpper(c) then (c as int + 0x20) as char else c
  }

  /** `s.lower()`. */
  function Lower(s: string): (r: string)
    ensures |r| == |s|
    ensures forall i :: 0 <= i < |s| ==> r[i] == ToLower(s[i])
  {
    seq(|s|, i requires 0 <= i < |s| => ToLower(s[i]))
  }

  /** What `lower` does to a whole string: no capital is left, letters stay
      letters, whitespace stays whitespace, and every character that is not
      a capital is kept. */
  lemma LowerClasses(s: string)
    ensures var r := Lower(s);
      |r| == |s| &&
      (forall i :: 0 <= i < |r| ==>
        !IsUpper(r[i]) && (IsAlpha(r[i]) <==> IsAlpha(s[i])) && (IsSpace(r[i]) <==> IsSpace(s[i]))) &&
      (forall i :: 0 <= i < |s| && !IsUpper(s[i]) ==> r[i] == s[i])
  {
  }

  /** Lower-casing twice changes nothing more. */
  lemma LowerIdempotent(s: string)
    ensures Lower(Lower(s)) == Lower(s)
  {
  }

  /** Lower-casing works piece by piece. */
  lemma LowerAppend(a: string, b: string)
    ensures Lower(a + b) == Lower(a) + Lower(b)
  {
    assert forall i :: 0 <= i < |a + b| ==> (a + b)[i] == if i < |a| then a[i] else b[i - |a|];
  }

  /** The number of whitespace characters `s` starts with. */
  function LeadingSpaces(s: string): (n: nat)
    ensures n <= |s|
    ensures forall i :: 0 <= i < n ==> IsSpace(s[i])
    ensures n < |s| ==> !IsSpace(s[n])
  {
    if s != [] && IsSpace(s[0]) then 1 + LeadingSpaces(s[1..]) else 0
  }

  /** The number of whitespace characters `s` ends with. */
  function TrailingSpaces(s: string): (n: nat)
    ensures n <= |s|
    ensures forall i :: |s| - n <= i < |s| ==> IsSpace(s[i])
    ensures n < |s| ==> !IsSpace(s[|s| - 1 - n])
  {
    if s != [] && IsSpace(s[|s| - 1]) then 1 + TrailingSpaces(s[..|s| - 1]) else 0
  }

  /** `s.strip()`: `s` without its leading and trailing whitespace. */
  function Strip(s: string): (r: string)
    ensures r != [] ==> !IsSpace(r[0]) && !IsSpace(r[|r| - 1])
    ensures exists a, b :: s == a + r + b && forall c :: c in a + b ==> IsSpace(c)
  {
    var k := LeadingSpaces(s);
    var t := s[k..];
    var r := t[..|t| - TrailingSpaces(t)];
    var a, b := s[..k], t[|t| - TrailingSpaces(t)..];
    assert s == a + r + b;
    assert forall c :: c in a + b ==> IsSpace(c);
    r
  }

  /** `s.split(sep)` for a one-character separator: the fields between
      separators, empty fields included. */
  function SplitOn(s: string, sep: char): (fields: seq<string>)
    ensures |fields| >= 1
    ensures forall f :: f in fields ==> sep !in f
  {
    if s == [] then [[]]
    else
      var rest := SplitOn(s[1..], sep);
      if s[0] == sep then [[]] + rest else [[s[0]] + rest[0]] + rest[1..]
  }

  /** `sep.join(fields)`. */
  function Join(fields: seq<string>, sep: char): string
    requires |fields| >= 1
  {
    if |fields| == 1 then fields[0] else fields[0] + [sep] + Join(fields[1..], sep)
  }

  /** Splitting loses nothing: joining the fields back gives the string. */
  lemma {:induction false} JoinSplitOn(s: string, sep: char)
    ensures Join(SplitOn(s, sep), sep) == s
  {
    if s != [] {
      JoinSplitOn(s[1..], sep);
      var rest := SplitOn(s[1..], sep);
      if s[0] != sep && |rest| > 1 {
        assert ([s[0]] + rest[0] + [sep] + Join(rest[1..], sep)) == [s[0]] + Join(rest, sep);
      }
    }
  }

  /** The length of the run of non-whitespace characters `s` starts with. */
  function WordLength(s: string): (n: nat)
    ensures n <= |s|
    ensures forall i :: 0 <= i < n ==> !IsSpace(s[i])
    ensures n < |s| ==> IsSpace(s[n])
  {
    if s == [] || IsSpace(s[0]) then 0 else 1 + WordLength(s[1..])
  }

  /** A word: a non-empty string without whitespace. */
  predicate IsWord(w: string)
  {
    w != [] && forall i :: 0 <= i < |w| ==> !IsSpace(w[i])
  }

  /** `s.split()`: the maximal runs of non-whitespace characters, in order. */
  function Words(s: string): (ws: seq<string>)
    ensures forall i :: 0 <= i < |ws| ==> IsWord(ws[i])
    decreases |s|
  {
    if s == [] then []
    else if IsSpace(s[0]) then Words(s[1..])
    else
      var n := WordLength(s);
      [s[..n]] + Words(s[n..])
  }

  /** `" ".join(ws)`. */
  function JoinWords(ws: seq<string>): string
  {
    if ws == [] then [] else if |ws| == 1 then ws[0] else ws[0] + " " + JoinWords(ws[1..])
  }

  /** Splitting words joined by single spaces gives the words back. */
  lemma {:induction false} WordsJoinWords(ws: seq<string>)
    requires forall i :: 0 <= i < |ws| ==> IsWord(ws[i])
    ensures Words(JoinWords(ws)) == ws
  {
    if ws != [] {
      var w := ws[0];
      var s := JoinWords(ws);
      WordLengthOfWord(w, if |ws| == 1 then [] else " " + JoinWords(ws[1..]));
      WordsJoinWords(ws[1..]);
      if |ws| > 1 {
        assert s == w + (" " + JoinWords(ws[1..]));
        assert s[|w|..] == " " + JoinWords(ws[1..]);
        assert s[|w|..][1..] == JoinWords(ws[1..]);
      } else {
        assert s == w + [];
      }
    }
  }

  /** A word followed by nothing or by whitespace is read as one whole word. */
  lemma {:induction false} WordLengthOfWord(w: string, t: string)
    requires IsWord(w)
    requires t == [] || IsSpace(t[0])
    ensures WordLength(w + t) == |w|
    decreases |w|
  {
    if |w| > 1 {
      assert (w + t)[1..] == w[1..] + t;
      WordLengthOfWord(w[1..], t);
    } else {
      assert (w + t)[1..] == t;
    }
  }

  /** A run of non-whitespace that ends before the end of `s` ends at the same
      place whatever follows `s`. */
  lemma {:induction false} WordLengthPrefix(s: string, t: string)
    requires WordLength(s) < |s|
    ensures WordLength(s + t) == WordLength(s)
    decreases |s|
  {
    if !IsSpace(s[0]) {
      assert (s + t)[1..] == s[1..] + t;
      WordLengthPrefix(s[1..], t);
    }
  }

  /** A single word splits into itself. */
  lemma WordsOfWord(w: string)
    requires IsWord(w)
    ensures Words(w) == [w]
  {
    WordLengthOfWord(w, []);
    assert w + [] == w;
  }

  /** `str.split()` breaks at every whitespace character: the words on either
      side of one are the words of the two sides. */
  lemma {:induction false} WordsAtSpace(a: string, c: char, b: string)
    requires IsSpace(c)
    ensures Words(a + [c] + b) == Words(a) + Words(b)
    decreases |a|
  {
    var s := a + [c] + b;
    if a == [] {
      assert s[1..] == b;
    } else if IsSpace(a[0]) {
      assert s[1..] == a[1..] + [c] + b;
      WordsAtSpace(a[1..], c, b);
    } else {
      var m := WordLength(a);
      if m < |a| {
        WordLengthPrefix(a, [c] + b);
        assert s == a + ([c] + b);
        assert s[..m] == a[..m];
        assert s[m..] == a[m..] + [c] + b;
        WordsAtSpace(a[m..], c, b);
      } else {
        assert IsWord(a);
        WordLengthOfWord(a, [c] + b);
        assert s == a + ([c] + b);
        assert s[..m] == a;
        assert s[m..] == [c] + b;
        assert s[m..][1..] == b;
        assert Words(s[m..]) == Words(b);
        assert a[..m] == a && a[m..] == [];
        assert Words(a) == [a];
      }
    }
  }
}
