/**
 * Text handling of the resume: Python's `str.lower()` (ASCII letters only) and
 * `str.split()` with no separator, which breaks on runs of whitespace and drops
 * empty pieces. `ResumeWords` is `set(resume_text.lower().split())`.
 */
module Text {

  /** The characters for which Python's `str.isspace()` holds, on which `str.split()` breaks. */
  predicate IsSpace(c: char) {
    || c == ' '
    || '\t' <= c <= '\r'
    || '\U{1C}' <= c <= '\U{1F}'
    || c == '\U{85}' || c == '\U{A0}' || c == '\U{1680}'
    || '\U{2000}' <= c <= '\U{200A}'
    || c == '\U{2028}' || c == '\U{2029}' || c == '\U{202F}' || c == '\U{205F}' || c == '\U{3000}'
  }

  predicate IsUpper(c: char) {
    'A' <= c <= 'Z'
  }

  /** No upper-case ASCII letter in `s`. */
  predicate IsLower(s: string) {
    forall k :: 0 <= k < |s| ==> !IsUpper(s[k])
  }

  /** No whitespace character in `s`. */
  predicate NoSpace(s: string) {
    forall k :: 0 <= k < |s| ==> !IsSpace(s[k])
  }

  function LowerChar(c: char): (d: char)
    ensures !IsUpper(d)
    ensures IsUpper(c) || d == c
    ensures IsSpace(d) <==> IsSpace(c)
  {
    if IsUpper(c) then (c as int + 32) as char else c
  }

  /** `s.lower()`, restricted to ASCII letters. */
  function Lower(s: string): (r: string)
    ensures |r| == |s|
    ensures forall k :: 0 <= k < |s| ==> r[k] == LowerChar(s[k])
    ensures IsLower(r)
    ensures IsLower(s) ==> r == s
  {
    seq(|s|, k requires 0 <= k < |s| => LowerChar(s[k]))
  }

  /** Length of the leading run of non-whitespace characters of `s`. */
  function WordEnd(s: string): (n: nat)
    ensures n <= |s|
    ensures forall k :: 0 <= k < n ==> !IsSpace(s[k])
    ensures n < |s| ==> IsSpace(s[n])
  {
    if s == [] || IsSpace(s[0]) then 0 else 1 + WordEnd(s[1..])
  }

  /** `s.split()`: the maximal runs of non-whitespace characters, left to right. */
  function Split(s: string): (words: seq<string>)
    ensures forall w :: w in words ==> w != [] && NoSpace(w)
    ensures IsLower(s) ==> forall w :: w in words ==> IsLower(w)
    decreases |s|
  {
    if s == [] then []
    else if IsSpace(s[0]) then Split(s[1..])
    else
      var n := WordEnd(s);
      [s[..n]] + Split(s[n..])
  }

  /** `set(text.lower().split())` */
  function ResumeWords(text: string): set<string> {
    set w | w in Split(Lower(text))
  }

  /** Every resume token is non-empty, lower-case and free of whitespace. */
  lemma ResumeWordsShape(text: string)
    ensures forall w :: w in ResumeWords(text) ==> w != [] && NoSpace(w) && IsLower(w)
  {
  }

  /** A skill containing whitespace lowercases to a string that no resume token can equal. */
  lemma {:induction false} SpacedNeverAWord(text: string, skill: string, k: nat)
    requires k < |skill| && IsSpace(skill[k])
    ensures Lower(skill) !in ResumeWords(text)
  {
    assert IsSpace(Lower(skill)[k]);
    ResumeWordsShape(text);
  }

  /** `lower()` works character by character, so it distributes over concatenation. */
  lemma LowerAppend(a: string, b: string)
    ensures Lower(a + b) == Lower(a) + Lower(b)
  {
    assert forall k :: 0 <= k < |a| + |b| ==> Lower(a + b)[k] == (Lower(a) + Lower(b))[k];
  }

  /**
   * `split()` breaks at every whitespace character: the words of `a`, a
   * whitespace character and `b` are the words of `a` followed by those of `b`,
   * whatever whitespace `a` and `b` start or end with.
   */
  lemma {:induction false} SplitAtSpace(a: string, c: char, b: string)
    requires IsSpace(c)
    ensures Split(a + [c] + b) == Split(a) + Split(b)
    decreases |a|
  {
    var s := a + [c] + b;
    if a == [] {
      assert s == [c] + b;
      assert s[1..] == b;
    } else if IsSpace(a[0]) {
      assert s[1..] == a[1..] + [c] + b;
      SplitAtSpace(a[1..], c, b);
    } else {
      var w, rest := a[..WordEnd(a)], a[WordEnd(a)..];
      SplitAtSpace(rest, c, b);
      SplitAfterWord(a, c, b);
      ConsAppend(w, Split(rest), Split(b));
    }
  }

  /** Prepending one element commutes with appending a sequence. */
  lemma ConsAppend<T>(x: T, p: seq<T>, q: seq<T>)
    ensures [x] + (p + q) == ([x] + p) + q
  {
  }

  /** The first word of `a` is split off both `a` and `a`, a whitespace character and `b`. */
  lemma SplitAfterWord(a: string, c: char, b: string)
    requires IsSpace(c) && a != [] && !IsSpace(a[0])
    ensures var w, rest := a[..WordEnd(a)], a[WordEnd(a)..];
      && Split(a) == [w] + Split(rest)
      && Split(a + [c] + b) == [w] + Split(rest + [c] + b)
  {
    var n := WordEnd(a);
    var w, rest := a[..n], a[n..];
    assert a == w + rest;
    assert a + [c] + b == w + (rest + [c] + b);
    assert (rest + [c] + b)[0] == if rest == [] then c else rest[0];
    SplitLeadingWord(w, rest + [c] + b);
  }

  /** A non-empty run with no whitespace is split into itself alone. */
  lemma SplitWord(w: string)
    requires w != [] && NoSpace(w)
    ensures Split(w) == [w]
  {
    SplitLeadingWord(w, []);
    assert w + [] == w;
  }

  /** Text made only of whitespace has no words. */
  lemma {:induction false} SplitBlank(s: string)
    requires forall k :: 0 <= k < |s| ==> IsSpace(s[k])
    ensures Split(s) == []
    decreases |s|
  {
    if s != [] {
      SplitBlank(s[1..]);
    }
  }

  /**
   * The resume tokens of `a`, a whitespace character and `b` are those of `a`
   * together with those of `b`: every maximal non-whitespace run is tokenised
   * on its own, whatever whitespace surrounds it.
   */
  lemma ResumeWordsAtSpace(a: string, c: char, b: string)
    requires IsSpace(c)
    ensures ResumeWords(a + [c] + b) == ResumeWords(a) + ResumeWords(b)
  {
    LowerAppend(a + [c], b);
    LowerAppend(a, [c]);
    assert Lower([c]) == [LowerChar(c)];
    SplitAtSpace(Lower(a), LowerChar(c), Lower(b));
  }

  /** A non-empty run with no whitespace is a single token, lower-cased. */
  lemma ResumeWordsOfWord(w: string)
    requires w != [] && NoSpace(w)
    ensures ResumeWords(w) == {Lower(w)}
  {
    assert NoSpace(Lower(w));
    SplitWord(Lower(w));
  }

  /** A resume of whitespace only has no tokens. */
  lemma ResumeWordsOfBlank(s: string)
    requires forall k :: 0 <= k < |s| ==> IsSpace(s[k])
    ensures ResumeWords(s) == {}
  {
    SplitBlank(Lower(s));
  }

  /** Words separated by single spaces: the inverse of `Split` on well-formed words. */
  function Join(ws: seq<string>): string {
    if ws == [] then []
    else if |ws| == 1 then ws[0]
    else ws[0] + " " + Join(ws[1..])
  }

  lemma {:induction false} WordEndOf(w: string, rest: string)
    requires w != [] && NoSpace(w)
    requires rest == [] || IsSpace(rest[0])
    ensures WordEnd(w + rest) == |w|
    decreases |w|
  {
    if |w| > 1 {
      assert (w + rest)[1..] == w[1..] + rest;
      WordEndOf(w[1..], rest);
    } else if rest != [] {
      assert (w + rest)[1..] == rest;
    }
  }

  /** A leading word followed by whitespace or the end is split off as it stands. */
  lemma SplitLeadingWord(w: string, rest: string)
    requires w != [] && NoSpace(w)
    requires rest == [] || IsSpace(rest[0])
    ensures Split(w + rest) == [w] + Split(rest)
  {
    WordEndOf(w, rest);
    assert (w + rest)[..|w|] == w;
    assert (w + rest)[|w|..] == rest;
  }

  /** Splitting the single-space join of non-empty, whitespace-free words gives the words back. */
  lemma {:induction false} SplitJoin(ws: seq<string>)
    requires forall w :: w in ws ==> w != [] && NoSpace(w)
    ensures Split(Join(ws)) == ws
  {
    if |ws| == 1 {
      assert ws[0] in ws;
      SplitLeadingWord(ws[0], []);
      assert ws[0] + [] == ws[0];
    } else if |ws| > 1 {
      var rest := " " + Join(ws[1..]);
      assert ws[0] in ws;
      assert Join(ws) == ws[0] + rest;
      SplitLeadingWord(ws[0], rest);
      assert rest[1..] == Join(ws[1..]);
      assert forall w :: w in ws[1..] ==> w in ws;
      SplitJoin(ws[1..]);
    }
  }

  lemma {:induction false} JoinIsLower(ws: seq<string>)
    requires forall w :: w in ws ==> IsLower(w)
    ensures IsLower(Join(ws))
  {
    if |ws| > 1 {
      JoinIsLower(ws[1..]);
      assert ws[0] in ws;
    } else if |ws| == 1 {
      assert ws[0] in ws;
    }
  }

  /** A resume that is lower-case words separated by single spaces yields exactly those words. */
  lemma ResumeWordsOfJoin(ws: seq<string>)
    requires forall w :: w in ws ==> w != [] && NoSpace(w) && IsLower(w)
    ensures ResumeWords(Join(ws)) == set w | w in ws
  {
    JoinIsLower(ws);
    SplitJoin(ws);
  }
}
