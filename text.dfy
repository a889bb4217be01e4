/**
  `normalize_ws` and `join`: text is split on whitespace into words, and the
  words are joined with a separator. `split_whitespace` splits on the Unicode
  White_Space characters and drops empty pieces.
 */
module Text {

  /** The Unicode White_Space property, which `str::split_whitespace` uses. */
  predicate IsWhitespace(c: char) {
    || c == ' '
    || ('\t' <= c <= '\r')
    || c == '\U{85}' || c == '\U{A0}' || c == '\U{1680}'
    || ('\U{2000}' <= c <= '\U{200A}')
    || c == '\U{2028}' || c == '\U{2029}' || c == '\U{202F}' || c == '\U{205F}' || c == '\U{3000}'
  }

  /** A word: non-empty, with no whitespace in it. */
  predicate IsWord(w: string) {
    w != [] && forall k :: 0 <= k < |w| ==> !IsWhitespace(w[k])
  }

  /** Length of the leading run of non-whitespace characters of `s`. */
  function WordEnd(s: string): (n: nat)
    ensures n <= |s|
    ensures forall k :: 0 <= k < n ==> !IsWhitespace(s[k])
    ensures n < |s| ==> IsWhitespace(s[n])
  {
    if s == [] || IsWhitespace(s[0]) then 0 else 1 + WordEnd(s[1..])
  }

  /** `split_whitespace`: the maximal whitespace-free runs of `s`, in order. */
  function Words(s: string): (ws: seq<string>)
    ensures forall i :: 0 <= i < |ws| ==> IsWord(ws[i])
    decreases |s|
  {
    if s == [] then []
    else if IsWhitespace(s[0]) then Words(s[1..])
    else
      var n := WordEnd(s);
      [s[..n]] + Words(s[n..])
  }

  /** `join(sep)`: the parts with `sep` between consecutive ones. */
  function JoinWith(parts: seq<string>, sep: string): string {
    if parts == [] then ""
    else if |parts| == 1 then parts[0]
    else parts[0] + sep + JoinWith(parts[1..], sep)
  }

  /**
    `normalize_ws`: collapse every whitespace run to one space and trim both
    ends. The result is whitespace-normal, spells exactly the visible
    characters of the text, in order, and splits into the same words.
   */
  function NormalizeWs(text: string): (r: string)
    ensures Normalized(r)
    ensures Visible(r) == Visible(text)
    ensures Words(r) == Words(text)
  {
    VisibleIsConcatOfWords(text);
    WordsOfJoin(Words(text));
    VisibleOfJoin(Words(text));
    JoinOfWordsNormalized(Words(text));
    JoinWith(Words(text), " ")
  }

  /** The visible (non-whitespace) characters of `s`, in order. */
  function Visible(s: string): string {
    if s == [] then ""
    else (if IsWhitespace(s[0]) then "" else [s[0]]) + Visible(s[1..])
  }

  function Concat(ws: seq<string>): string {
    if ws == [] then "" else ws[0] + Concat(ws[1..])
  }

  /** Whitespace-normal text: the only whitespace is single spaces between visible characters. */
  predicate Normalized(t: string) {
    forall i :: 0 <= i < |t| ==> SpaceAt(t, i)
  }

  /** Position `i` of `t` is visible, or a single space strictly inside `t`. */
  predicate SpaceAt(t: string, i: int)
    requires 0 <= i < |t|
  {
    IsWhitespace(t[i]) ==> t[i] == ' ' && 0 < i < |t| - 1 && !IsWhitespace(t[i + 1])
  }

  // ---------------------------------------------------------------- lemmas

  lemma {:induction false} VisibleAppend(a: string, b: string)
    ensures Visible(a + b) == Visible(a) + Visible(b)
  {
    if a != [] {
      assert (a + b)[1..] == a[1..] + b;
      VisibleAppend(a[1..], b);
    } else {
      assert a + b == b;
    }
  }

  lemma {:induction false} VisibleOfWord(w: string)
    requires forall k :: 0 <= k < |w| ==> !IsWhitespace(w[k])
    ensures Visible(w) == w
  {
    if w != [] {
      VisibleOfWord(w[1..]);
    }
  }

  /** Splitting keeps every visible character, in order, and nothing else. */
  lemma {:induction false} VisibleIsConcatOfWords(s: string)
    ensures Visible(s) == Concat(Words(s))
    decreases |s|
  {
    if s == [] {
    } else if IsWhitespace(s[0]) {
      VisibleIsConcatOfWords(s[1..]);
    } else {
      var n := WordEnd(s);
      assert s == s[..n] + s[n..];
      VisibleAppend(s[..n], s[n..]);
      VisibleOfWord(s[..n]);
      VisibleIsConcatOfWords(s[n..]);
      assert Words(s) == [s[..n]] + Words(s[n..]);
    }
  }

  lemma {:induction false} VisibleOfJoin(ws: seq<string>)
    requires forall i :: 0 <= i < |ws| ==> IsWord(ws[i])
    ensures Visible(JoinWith(ws, " ")) == Concat(ws)
  {
    if |ws| == 1 {
      VisibleOfWord(ws[0]);
      assert Concat(ws[1..]) == "";
    } else if |ws| > 1 {
      VisibleOfJoin(ws[1..]);
      VisibleAppend(ws[0] + " ", JoinWith(ws[1..], " "));
      VisibleAppend(ws[0], " ");
      VisibleOfWord(ws[0]);
      assert Visible(" ") == "";
    }
  }

  lemma {:induction false} JoinStartsWithWord(ws: seq<string>)
    requires ws != [] && IsWord(ws[0])
    ensures JoinWith(ws, " ") != [] && JoinWith(ws, " ")[0] == ws[0][0]
  {
  }

  lemma {:induction false} JoinOfWordsNormalized(ws: seq<string>)
    requires forall i :: 0 <= i < |ws| ==> IsWord(ws[i])
    ensures Normalized(JoinWith(ws, " "))
  {
    if |ws| > 1 {
      var w, rest := ws[0], JoinWith(ws[1..], " ");
      JoinOfWordsNormalized(ws[1..]);
      JoinStartsWithWord(ws[1..]);
      var t := w + " " + rest;
      assert JoinWith(ws, " ") == t;
      forall i | 0 <= i < |t|
        ensures SpaceAt(t, i)
      {
        if i > |w| {
          assert SpaceAt(rest, i - |w| - 1);
          assert t[i] == rest[i - |w| - 1];
          assert i + 1 < |t| ==> t[i + 1] == rest[i - |w|];
        }
      }
    }
  }

  lemma {:induction false} WordEndOfWordThenSpace(w: string, rest: string)
    requires forall k :: 0 <= k < |w| ==> !IsWhitespace(w[k])
    requires rest == [] || IsWhitespace(rest[0])
    ensures WordEnd(w + rest) == |w|
  {
    if w != [] {
      assert (w + rest)[1..] == w[1..] + rest;
      WordEndOfWordThenSpace(w[1..], rest);
    } else {
      assert w + rest == rest;
    }
  }

  /** Splitting undoes joining with a space: the round trip of words through text. */
  lemma {:induction false} WordsOfJoin(ws: seq<string>)
    requires forall i :: 0 <= i < |ws| ==> IsWord(ws[i])
    ensures Words(JoinWith(ws, " ")) == ws
  {
    if |ws| == 1 {
      var w := ws[0];
      WordEndOfWordThenSpace(w, "");
      assert w + "" == w;
      assert w[..|w|] == w && w[|w|..] == [];
    } else if |ws| > 1 {
      var w, rest := ws[0], JoinWith(ws[1..], " ");
      var t := w + " " + rest;
      assert JoinWith(ws, " ") == t;
      assert t == w + (" " + rest);
      WordEndOfWordThenSpace(w, " " + rest);
      assert t[..|w|] == w;
      assert t[|w|..] == " " + rest;
      assert (" " + rest)[1..] == rest;
      WordsOfJoin(ws[1..]);
      assert ws == [w] + ws[1..];
    }
  }

  /** Normalising twice is normalising once. */
  lemma NormalizeIdempotent(text: string)
    ensures NormalizeWs(NormalizeWs(text)) == NormalizeWs(text)
  {
    WordsOfJoin(Words(text));
  }

  /** What follows a whitespace character of normal text is normal text. */
  lemma NormalizedAfterSpace(t: string, m: int)
    requires Normalized(t) && 0 < m <= |t| && IsWhitespace(t[m - 1])
    ensures Normalized(t[m..])
  {
    var tail := t[m..];
    assert SpaceAt(t, m - 1);
    forall i | 0 <= i < |tail|
      ensures SpaceAt(tail, i)
    {
      assert SpaceAt(t, m + i);
      assert tail[i] == t[m + i];
      assert i + 1 < |tail| ==> tail[i + 1] == t[m + i + 1];
    }
  }

  /** Past its first word, normal text continues with one space and more normal text. */
  lemma NormalizedTail(t: string)
    requires Normalized(t) && t != [] && WordEnd(t) < |t|
    ensures var n := WordEnd(t);
      && t[n] == ' ' && n + 1 < |t|
      && Normalized(t[n + 1..])
      && Words(t[n + 1..]) != []
      && Words(t) == [t[..n]] + Words(t[n + 1..])
  {
    assert SpaceAt(t, 0);
    var n := WordEnd(t);
    assert SpaceAt(t, n);
    NormalizedAfterSpace(t, n + 1);
    var tail := t[n + 1..];
    assert t[n..][1..] == tail;
    assert Words(t[n..]) == Words(tail);
    assert Words(tail) != [] by {
      assert tail[0] == t[n + 1];
      assert Words(tail) == [tail[..WordEnd(tail)]] + Words(tail[WordEnd(tail)..]);
    }
  }

  /** Text that is already whitespace-normal is left unchanged. */
  lemma {:induction false} NormalizeFixesNormalized(t: string)
    requires Normalized(t)
    ensures NormalizeWs(t) == t
    decreases |t|
  {
    if t != [] {
      assert SpaceAt(t, 0);
      var n := WordEnd(t);
      if n == |t| {
        assert t[..n] == t && t[n..] == [];
        assert Words(t) == [t];
      } else {
        NormalizedTail(t);
        var tail := t[n + 1..];
        NormalizeFixesNormalized(tail);
        var ws := Words(tail);
        assert ([t[..n]] + ws)[1..] == ws;
        assert NormalizeWs(t) == t[..n] + " " + tail;
        assert t == t[..n] + [t[n]] + tail;
      }
    }
  }
}
