/** The cleaning rule shared by indexing and querying (`cleanText` in
    dao_service/nosql.py and, verbatim, in file_manager/parsers.py): lower-case,
    ё becomes е, every character outside [a-zа-я0-9 ] becomes a space, runs of
    whitespace collapse to one space, the ends are stripped. `Words` is Python's
    `str.split()`, which turns a cleaned phrase into the needle. */
module TextClean {
  import opened PyStr

  predicate IsLatinLower(c: char) { 'a' <= c <= 'z' }

  /** а..я, U+0430..U+044F (ё, U+0451, is outside the range). */
  predicate IsCyrillicLower(c: char) { 'а' <= c <= 'я' }

  /** The characters the pattern [^a-zа-яе0-9 ] leaves alone. */
  predicate InAlphabet(c: char) { IsLatinLower(c) || IsCyrillicLower(c) || IsDigit(c) || c == ' ' }

  /** Every character of `s` is in the cleaned alphabet. */
  predicate AllAlphabet(s: string) {
    forall c | c in s :: InAlphabet(c)
  }

  /** `str.lower()` on one character, for ASCII and the Cyrillic block U+0400..U+042F. */
  function Lower(c: char): (r: char)
    ensures 'A' <= c <= 'Z' ==> IsLatinLower(r)
    ensures 'А' <= c <= 'Я' ==> IsCyrillicLower(r)
    ensures c == 'Ё' ==> r == 'ё'
    ensures InAlphabet(c) ==> r == c
  {
    if 'A' <= c <= 'Z' then (c as int + 32) as char
    else if 'А' <= c <= 'Я' then (c as int + 32) as char
    else if '\U{400}' <= c <= '\U{40f}' then (c as int + 80) as char
    else c
  }

  /** The three per-character steps: lower(), replace('ё', 'е') and the regex
      substitution of everything outside the alphabet by a space. */
  function RewriteChar(c: char): (r: char)
    ensures InAlphabet(r) && r != 'ё'
    ensures InAlphabet(c) ==> r == c
    ensures (c == 'ё' || c == 'Ё' || c == 'Е') ==> r == 'е'
  {
    var l := Lower(c);
    var l' := if l == 'ё' then 'е' else l;
    if InAlphabet(l') then l' else ' '
  }

  /** The per-character steps over the whole text: one character for each,
      all in the alphabet, no ё left, and text already in the alphabet kept. */
  function Rewrite(s: string): (r: string)
    ensures |r| == |s|
    ensures forall i :: 0 <= i < |s| ==> r[i] == RewriteChar(s[i])
    ensures AllAlphabet(r) && 'ё' !in r
    ensures AllAlphabet(s) ==> r == s
  {
    seq(|s|, i requires 0 <= i < |s| => RewriteChar(s[i]))
  }

  /** `re.sub(r'\s+', ' ', s)` on text whose only whitespace is the space. */
  function Collapse(s: string): (r: string)
    ensures |r| <= |s|
    ensures s != [] ==> r != [] && r[0] == s[0] && r[|r| - 1] == s[|s| - 1]
    ensures forall c | c in r :: c in s
  {
    if |s| >= 2 && s[0] == ' ' && s[1] == ' ' then Collapse(s[1..])
    else if s == [] then []
    else [s[0]] + Collapse(s[1..])
  }

  /** No two spaces in a row. */
  predicate NoDoubleSpace(s: string) {
    forall i :: 0 <= i < |s| - 1 ==> !(s[i] == ' ' && s[i + 1] == ' ')
  }

  /** What the cleaning rule promises of its output. */
  predicate IsClean(s: string) {
    && AllAlphabet(s)
    && (s == [] || (s[0] != ' ' && s[|s| - 1] != ' '))
    && NoDoubleSpace(s)
  }

  lemma {:induction false} CollapseNoDoubleSpace(s: string)
    ensures NoDoubleSpace(Collapse(s))
  {
    if |s| >= 2 && s[0] == ' ' && s[1] == ' ' {
      CollapseNoDoubleSpace(s[1..]);
    } else if s != [] {
      var t := Collapse(s[1..]);
      CollapseNoDoubleSpace(s[1..]);
      var r := [s[0]] + t;
      forall i | 0 <= i < |r| - 1 ensures !(r[i] == ' ' && r[i + 1] == ' ') {
        if i > 0 { assert r[i] == t[i - 1] && r[i + 1] == t[i]; }
      }
    }
  }

  lemma {:induction false} CollapseOfNoDoubleSpace(s: string)
    requires NoDoubleSpace(s)
    ensures Collapse(s) == s
  {
    if s != [] {
      assert !(|s| >= 2 && s[0] == ' ' && s[1] == ' ');
      SliceNoDoubleSpace(s, 1, |s|);
      CollapseOfNoDoubleSpace(s[1..]);
      assert Collapse(s) == [s[0]] + s[1..];
    }
  }

  lemma SliceNoDoubleSpace(s: string, i: nat, j: nat)
    requires i <= j <= |s| && NoDoubleSpace(s)
    ensures NoDoubleSpace(s[i..j])
  {
    forall k | 0 <= k < j - i - 1 ensures !(s[i..j][k] == ' ' && s[i..j][k + 1] == ' ') {
      assert s[i..j][k] == s[i + k] && s[i..j][k + 1] == s[i + k + 1];
    }
  }

  lemma SliceAllAlphabet(s: string, i: nat, j: nat)
    requires i <= j <= |s| && AllAlphabet(s)
    ensures AllAlphabet(s[i..j])
  {
    forall k | 0 <= k < j - i
      ensures InAlphabet(s[i..j][k])
    {
      assert s[i..j][k] == s[i + k];
    }
  }

  lemma AlphabetWhitespaceIsSpace(c: char)
    requires InAlphabet(c)
    ensures IsWhitespace(c) <==> c == ' '
  {
  }

  /** `strip()` returns a slice of its argument. */
  lemma StripIsSlice(s: string) returns (i: nat)
    ensures i + |Strip(s)| <= |s| && Strip(s) == s[i..i + |Strip(s)|]
  {
    var l := StripLeft(s);
    i := |s| - |l|;
    assert Strip(s) == StripRight(l);
  }

  /** Stripping text of the cleaned alphabet with no double space leaves clean text. */
  lemma StripIsClean(c: string)
    requires AllAlphabet(c)
    requires NoDoubleSpace(c)
    ensures IsClean(Strip(c))
  {
    var r := Strip(c);
    var i := StripIsSlice(c);
    SliceNoDoubleSpace(c, i, i + |r|);
    SliceAllAlphabet(c, i, i + |r|);
    if r != [] {
      AlphabetWhitespaceIsSpace(r[0]);
      AlphabetWhitespaceIsSpace(r[|r| - 1]);
    }
  }

  /** `cleanText(text)`, as both nosql.py and parsers.py define it. */
  function CleanText(text: string): string {
    Strip(Collapse(Rewrite(text)))
  }

  /** The cleaned text keeps to the alphabet, has no space at either end and
      no two spaces in a row. */
  lemma CleanTextIsClean(text: string)
    ensures IsClean(CleanText(text))
  {
    var w := Rewrite(text);
    CollapseNoDoubleSpace(w);
    StripIsClean(Collapse(w));
  }

  /** A clean text is left unchanged by cleaning. */
  lemma CleanTextOfClean(s: string)
    requires IsClean(s)
    ensures CleanText(s) == s
  {
    assert Rewrite(s) == s;
    CollapseOfNoDoubleSpace(s);
    if s != [] {
      AlphabetWhitespaceIsSpace(s[0]);
      AlphabetWhitespaceIsSpace(s[|s| - 1]);
    }
  }

  /** Cleaning is idempotent. */
  lemma CleanTextIdempotent(s: string)
    ensures CleanText(CleanText(s)) == CleanText(s)
  {
    CleanTextIsClean(s);
    CleanTextOfClean(CleanText(s));
  }

  // ---------------------------------------------------------------- str.split()

  /** `s.split()` with the word under construction in `cur`. */
  function WordsFrom(s: string, cur: string): seq<string>
  {
    if s == [] then (if cur == [] then [] else [cur])
    else if IsWhitespace(s[0]) then (if cur == [] then [] else [cur]) + WordsFrom(s[1..], [])
    else WordsFrom(s[1..], cur + [s[0]])
  }

  /** Python's `s.split()`: the maximal runs of non-whitespace characters;
      none when the text is all whitespace. */
  function Words(s: string): (r: seq<string>)
    ensures forall w | w in r :: IsWord(w)
    ensures r == [] <==> forall c | c in s :: IsWhitespace(c)
  {
    WordsFromAreWords(s, []);
    WordsFromEmpty(s, []);
    WordsFrom(s, [])
  }

  /** A word never is empty and never holds whitespace. */
  predicate IsWord(w: string) {
    w != [] && forall c | c in w :: !IsWhitespace(c)
  }

  lemma {:induction false} WordsFromAreWords(s: string, cur: string)
    requires forall c | c in cur :: !IsWhitespace(c)
    ensures forall w | w in WordsFrom(s, cur) :: IsWord(w)
  {
    if s != [] {
      if IsWhitespace(s[0]) {
        WordsFromAreWords(s[1..], []);
      } else {
        WordsFromAreWords(s[1..], cur + [s[0]]);
      }
    }
  }

  lemma {:induction false} WordsFromEmpty(s: string, cur: string)
    ensures WordsFrom(s, cur) == [] <==> cur == [] && forall c | c in s :: IsWhitespace(c)
  {
    if s != [] {
      if IsWhitespace(s[0]) {
        WordsFromEmpty(s[1..], []);
        assert forall c | c in s :: c == s[0] || c in s[1..];
      } else {
        WordsFromEmpty(s[1..], cur + [s[0]]);
      }
    }
  }

  lemma {:induction false} WordsFromCollapse(s: string, cur: string)
    ensures WordsFrom(Collapse(s), cur) == WordsFrom(s, cur)
  {
    if |s| >= 2 && s[0] == ' ' && s[1] == ' ' {
      WordsFromCollapse(s[1..], cur);
      assert s[1..][0] == ' ';
    } else if s != [] {
      assert Collapse(s)[1..] == Collapse(s[1..]);
      WordsFromCollapse(s[1..], []);
      WordsFromCollapse(s[1..], cur + [s[0]]);
    }
  }

  lemma {:induction false} WordsFromTrailingSpace(s: string, c: char, cur: string)
    requires IsWhitespace(c)
    ensures WordsFrom(s + [c], cur) == WordsFrom(s, cur)
  {
    if s != [] {
      assert (s + [c])[1..] == s[1..] + [c];
      WordsFromTrailingSpace(s[1..], c, []);
      WordsFromTrailingSpace(s[1..], c, cur + [s[0]]);
    }
  }

  lemma {:induction false} WordsStripRight(s: string)
    ensures Words(StripRight(s)) == Words(s)
  {
    if s != [] && IsWhitespace(s[|s| - 1]) {
      WordsStripRight(s[..|s| - 1]);
      assert s == s[..|s| - 1] + [s[|s| - 1]];
      WordsFromTrailingSpace(s[..|s| - 1], s[|s| - 1], []);
    }
  }

  lemma {:induction false} WordsStripLeft(s: string)
    ensures Words(StripLeft(s)) == Words(s)
  {
    if s != [] && IsWhitespace(s[0]) {
      WordsStripLeft(s[1..]);
    }
  }

  /** The needle `search` builds (`.split()` of the rewritten phrase, without the
      collapse and strip) is exactly the word list of `cleanText(phrase)`; it is
      empty exactly when the cleaned phrase is empty, and every token is a
      non-empty word of the cleaned alphabet. */
  lemma PhraseTokensAreCleanWords(phrase: string)
    ensures Words(Rewrite(phrase)) == Words(CleanText(phrase))
    ensures Words(CleanText(phrase)) == [] <==> CleanText(phrase) == []
    ensures forall w | w in Words(CleanText(phrase)) :: IsWord(w) && AllAlphabet(w)
  {
    var w := Rewrite(phrase);
    var c := Collapse(w);
    WordsFromCollapse(w, []);
    WordsStripLeft(c);
    WordsStripRight(StripLeft(c));
    var r := CleanText(phrase);
    CleanTextIsClean(phrase);
    WordsFromEmpty(r, []);
    if r != [] {
      AlphabetWhitespaceIsSpace(r[0]);
    }
    WordsFromAreWords(r, []);
    WordsOfAlphabet(r, []);
  }

  lemma {:induction false} WordsOfAlphabet(s: string, cur: string)
    requires AllAlphabet(s) && AllAlphabet(cur)
    ensures forall w | w in WordsFrom(s, cur) :: AllAlphabet(w)
  {
    if s != [] {
      if IsWhitespace(s[0]) {
        WordsOfAlphabet(s[1..], []);
      } else {
        WordsOfAlphabet(s[1..], cur + [s[0]]);
      }
    }
  }
}
