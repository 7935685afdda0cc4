/** Knuth-Morris-Pratt search of a phrase (a list of tokens) in the words of a
    page (dao_service/kmp_module.cpp and its Python twin in dao_service/nosql.py).
    The prefix table compares needle tokens by equality, while the scan accepts a
    page word when the needle token merely OCCURS INSIDE it (`find != npos` in C++,
    `in` in Python). Every complete match emits all m word indices of its window. */
module Kmp {
  import opened Wrappers
  import opened PyStr

  /** A word of a page or of the searched phrase. */
  type Token = string

  // ------------------------------------------------------------------ borders

  /** `k` is the length of a proper border of `s`: its first `k` items are its last `k`. */
  predicate IsBorder(s: seq<Token>, k: int) {
    0 <= k < |s| && s[..k] == s[|s| - k..]
  }

  /** The longest border of `s` not longer than `k`, searching downwards. */
  function LongestBorderFrom(s: seq<Token>, k: nat): (r: nat)
    requires k < |s|
    ensures r <= k
    decreases k
  {
    if k == 0 || IsBorder(s, k) then k else LongestBorderFrom(s, k - 1)
  }

  lemma {:induction false} LongestBorderFromSpec(s: seq<Token>, k: nat)
    requires k < |s|
    ensures IsBorder(s, LongestBorderFrom(s, k)) && LongestBorderFrom(s, k) <= k
    ensures forall c :: LongestBorderFrom(s, k) < c <= k ==> !IsBorder(s, c)
    decreases k
  {
    if k > 0 && !IsBorder(s, k) {
      LongestBorderFromSpec(s, k - 1);
    }
  }

  /** The length of the longest proper border of a non-empty token list. */
  function LongestBorder(s: seq<Token>): (r: nat)
    requires |s| >= 1
    ensures r < |s|
  {
    LongestBorderFrom(s, |s| - 1)
  }

  /** LongestBorder(s) is a border of s, and no border of s is longer. */
  lemma LongestBorderSpec(s: seq<Token>)
    requires |s| >= 1
    ensures IsBorder(s, LongestBorder(s))
    ensures forall c :: IsBorder(s, c) ==> c <= LongestBorder(s)
  {
    LongestBorderFromSpec(s, |s| - 1);
  }

  lemma LongestBorderIsBorder(s: seq<Token>)
    requires |s| >= 1
    ensures IsBorder(s, LongestBorder(s))
  {
    LongestBorderFromSpec(s, |s| - 1);
  }

  /** A border of a border is a border. */
  lemma BorderOfBorder(s: seq<Token>, j: nat, c: nat)
    requires IsBorder(s, j) && IsBorder(s[..j], c)
    ensures IsBorder(s, c)
  {
    assert s[..c] == s[..j][..c];
    assert s[|s| - c..] == s[|s| - j..][j - c..];
  }

  /** A border shorter than another border is a border of that border. */
  lemma ShorterBorder(s: seq<Token>, j: nat, c: nat)
    requires IsBorder(s, j) && IsBorder(s, c) && c < j
    ensures IsBorder(s[..j], c)
  {
    assert s[..j][..c] == s[..c];
    assert s[..j][j - c..] == s[|s| - j..][j - c..] == s[|s| - c..];
  }

  /** A border of length `k` >= 1 is a border of length `k - 1` of the list
      without its last item, extended by an item equal to that last item. */
  lemma BorderExtend(s: seq<Token>, k: nat)
    requires 1 <= k < |s|
    ensures IsBorder(s, k) <==> IsBorder(s[..|s| - 1], k - 1) && s[k - 1] == s[|s| - 1]
  {
    var last := |s| - 1;
    var u := s[..last];
    assert u[..k - 1] == s[..k - 1];
    assert u[last - (k - 1)..] == s[|s| - k..last];
    assert s[..k] == s[..k - 1] + [s[k - 1]];
    assert s[|s| - k..] == s[|s| - k..last] + [s[last]];
    if s[..k] == s[|s| - k..] {
      assert s[..k - 1] == s[..k][..k - 1];
      assert s[|s| - k..last] == s[|s| - k..][..k - 1];
    }
  }

  /** One step of the prefix function: extending by `x`, the longest border is one
      more than the longest border of `s` followed by `x`, or 0 when there is none. */
  lemma ExtendLongest(s: seq<Token>, x: Token, j: nat)
    requires IsBorder(s, j)
    requires forall c :: j < c && IsBorder(s, c) ==> s[c] != x
    requires j == 0 || s[j] == x
    ensures LongestBorder(s + [x]) == if s[j] == x then j + 1 else 0
  {
    var t := s + [x];
    assert t[..|t| - 1] == s;
    LongestBorderSpec(t);
    var v := if s[j] == x then j + 1 else 0;
    if v > 0 {
      BorderExtend(t, v);
    }
    assert IsBorder(t, v);
    forall k | IsBorder(t, k)
      ensures k <= v
    {
      if k >= 1 {
        BorderExtend(t, k);
      }
    }
  }

  /** `t[i]` is the longest border of needle[..i + 1] for every i below n. */
  ghost predicate PrefixTable(needle: seq<Token>, t: seq<nat>, n: nat) {
    n <= |t| && n <= |needle| && forall i :: 0 <= i < n ==> t[i] == LongestBorder(needle[..i + 1])
  }

  /** j is a border of s, and no longer border of s is followed by x. */
  ghost predicate Candidate(s: seq<Token>, x: Token, j: nat) {
    IsBorder(s, j) && forall c :: j < c && IsBorder(s, c) ==> s[c] != x
  }

  /** One turn of the prefix function's fallback loop: from border j of s, whose next
      token is not x, the next candidate is the longest border of s[..j]. */
  lemma PrefixFallbackStep(needle: seq<Token>, t: seq<nat>, i: nat, j: nat)
    requires i < |needle| && PrefixTable(needle, t, i)
    requires 0 < j && Candidate(needle[..i], needle[i], j) && needle[j] != needle[i]
    ensures t[j - 1] < j && Candidate(needle[..i], needle[i], t[j - 1])
  {
    var s := needle[..i];
    var x := needle[i];
    assert s[..j] == needle[..j];
    var b := LongestBorder(s[..j]);
    LongestBorderSpec(s[..j]);
    assert t[j - 1] == b;
    BorderOfBorder(s, j, b);
    forall c | b < c && IsBorder(s, c)
      ensures s[c] != x
    {
      if c < j {
        ShorterBorder(s, j, c);
      }
    }
  }

  /** Leaving the fallback loop: the new table entry is the longest border of needle[..i+1]. */
  lemma PrefixExtendStep(needle: seq<Token>, t: seq<nat>, i: nat, j: nat)
    requires i < |needle| && PrefixTable(needle, t, i) && i < |t|
    requires Candidate(needle[..i], needle[i], j) && (j == 0 || needle[j] == needle[i])
    ensures PrefixTable(needle, t[i := if needle[i] == needle[j] then j + 1 else 0], i + 1)
  {
    var s := needle[..i];
    assert needle[..i + 1] == s + [needle[i]];
    ExtendLongest(s, needle[i], j);
  }

  /** The fallback loop starts from the longest border of needle[..i]. */
  lemma CandidateStart(needle: seq<Token>, i: nat)
    requires 1 <= i < |needle|
    ensures LongestBorder(needle[..i]) < i
    ensures Candidate(needle[..i], needle[i], LongestBorder(needle[..i]))
  {
    LongestBorderSpec(needle[..i]);
  }

  lemma PrefixTableStart(needle: seq<Token>, t: seq<nat>)
    requires 1 <= |needle| && 1 <= |t| && t[0] == 0
    ensures PrefixTable(needle, t, 1)
    ensures LongestBorder(needle[..1]) == 0
  {
    LongestBorderSpec(needle[..1]);
  }

  lemma PrefixTableEntry(needle: seq<Token>, t: seq<nat>, i: nat)
    requires 1 <= i && PrefixTable(needle, t, i)
    ensures t[i - 1] == LongestBorder(needle[..i])
  {
  }

  /** `_kmpPrefix`: lps[i] is the length of the longest proper border of needle[..i+1]. */
  method KmpPrefix(needle: seq<Token>) returns (lps: seq<nat>)
    ensures |lps| == |needle| && PrefixTable(needle, lps, |needle|)
    ensures forall i :: 0 <= i < |lps| ==> lps[i] <= i
  {
    var m := |needle|;
    var a := new nat[m](_ => 0);
    if m == 0 {
      return a[..];
    }
    PrefixTableStart(needle, a[..]);
    var j: nat := 0;
    var i := 1;
    while i < m
      invariant 1 <= i <= m
      invariant PrefixTable(needle, a[..], i)
      invariant j == a[i - 1]
    {
      PrefixTableEntry(needle, a[..], i);
      CandidateStart(needle, i);
      while j > 0 && needle[i] != needle[j]
        invariant j < i
        invariant PrefixTable(needle, a[..], i)
        invariant Candidate(needle[..i], needle[i], j)
        decreases j
      {
        PrefixFallbackStep(needle, a[..], i, j);
        j := a[j - 1];
      }
      ghost var t := a[..];
      PrefixExtendStep(needle, t, i, j);
      if needle[i] == needle[j] {
        j := j + 1;
      }
      a[i] := j;
      assert a[..] == t[i := j];
      i := i + 1;
    }
    lps := a[..];
  }

  // ------------------------------------------------------ the scan, as functions

  /** The fallback loop: while the page word does not hold needle[j], j moves to the
      longest border of needle[..j]. */
  function Fallback(needle: seq<Token>, word: Token, j: nat): (r: nat)
    requires j < |needle|
    ensures r <= j
    ensures r == 0 || Contains(word, needle[r])
    decreases j
  {
    if j > 0 && !Contains(word, needle[j]) then
      Fallback(needle, word, LongestBorder(needle[..j]))
    else j
  }

  /** After reading k page words: the matched needle length `j`, the start index of
      every complete match so far and the indices emitted so far. */
  datatype ScanState = ScanState(j: nat, starts: seq<int>, out: seq<int>)

  /** The matched needle length after reading `word` with `j` tokens matched:
      the fallback, then one more when the word holds the next needle token. */
  function Advance(needle: seq<Token>, word: Token, j: nat): (a: nat)
    requires j < |needle|
    ensures a <= j + 1
  {
    var r := Fallback(needle, word, j);
    if Contains(word, needle[r]) then r + 1 else r
  }

  /** Reading page word number k - 1 (so that k words have been read); a complete
      match records its start, emits its window and restarts from the needle's
      longest border. */
  function Step(needle: seq<Token>, word: Token, k: int, prev: ScanState): (st: ScanState)
    requires |needle| >= 1 && prev.j < |needle|
    ensures st.j < |needle|
  {
    var a := Advance(needle, word, prev.j);
    if a < |needle| then prev.(j := a)
    else
      var start := k - |needle|;
      ScanState(LongestBorder(needle), prev.starts + [start], prev.out + Range(start, start + |needle|))
  }

  function Scan(hay: seq<Token>, needle: seq<Token>, k: nat): (st: ScanState)
    requires |needle| >= 1 && k <= |hay|
    ensures st.j < |needle|
  {
    if k == 0 then ScanState(0, [], [])
    else Step(needle, hay[k - 1], k, Scan(hay, needle, k - 1))
  }

  /** The start indices of the matches the search reports, in order. */
  function MatchStarts(hay: seq<Token>, needle: seq<Token>): seq<int>
  {
    if |needle| == 0 || |hay| < |needle| then [] else Scan(hay, needle, |hay|).starts
  }

  /** range(a, b) */
  function Range(a: int, b: int): (r: seq<int>)
    requires a <= b
    ensures |r| == b - a
    ensures forall i :: 0 <= i < |r| ==> r[i] == a + i
  {
    seq(b - a, i requires 0 <= i < b - a => a + i)
  }

  lemma RangeSnoc(a: int, b: int)
    requires a <= b
    ensures Range(a, b + 1) == Range(a, b) + [b]
  {
  }

  /** Every start s contributes the m indices s, s+1, ..., s+m-1, in order. */
  function Runs(starts: seq<int>, m: nat): seq<int>
  {
    if starts == [] then []
    else Runs(starts[..|starts| - 1], m) + Range(starts[|starts| - 1], starts[|starts| - 1] + m)
  }

  /** What `kmpSearch` returns. */
  function KmpSearchSpec(hay: seq<Token>, needle: seq<Token>): seq<int>
  {
    if |needle| == 0 || |hay| < |needle| then [] else Scan(hay, needle, |hay|).out
  }

  lemma RunsSnoc(starts: seq<int>, s: int, m: nat)
    ensures Runs(starts + [s], m) == Runs(starts, m) + Range(s, s + m)
  {
    assert (starts + [s])[..|starts|] == starts;
  }

  /** One step keeps the emitted indices equal to the runs of the recorded starts. */
  lemma StepOutRuns(needle: seq<Token>, word: Token, k: int, prev: ScanState)
    requires |needle| >= 1 && prev.j < |needle|
    requires prev.out == Runs(prev.starts, |needle|)
    ensures Step(needle, word, k, prev).out == Runs(Step(needle, word, k, prev).starts, |needle|)
  {
    var st := Step(needle, word, k, prev);
    if Advance(needle, word, prev.j) >= |needle| {
      var start := k - |needle|;
      assert st.starts == prev.starts + [start] && st.out == prev.out + Range(start, start + |needle|);
      RunsSnoc(prev.starts, start, |needle|);
    } else {
      assert st.starts == prev.starts && st.out == prev.out;
    }
  }

  /** The emitted indices are the runs of the recorded starts. */
  lemma {:induction false} ScanOutRuns(hay: seq<Token>, needle: seq<Token>, k: nat)
    requires |needle| >= 1 && k <= |hay|
    ensures Scan(hay, needle, k).out == Runs(Scan(hay, needle, k).starts, |needle|)
  {
    if k > 0 {
      ScanOutRuns(hay, needle, k - 1);
      StepOutRuns(needle, hay[k - 1], k, Scan(hay, needle, k - 1));
    }
  }

  /** The search output is the runs of the match starts. */
  lemma KmpSearchRuns(hay: seq<Token>, needle: seq<Token>)
    ensures KmpSearchSpec(hay, needle) == Runs(MatchStarts(hay, needle), |needle|)
  {
    if |needle| >= 1 && |hay| >= |needle| {
      ScanOutRuns(hay, needle, |hay|);
    }
  }

  // ------------------------------------------------------------- the methods

  /** One turn of the search's fallback loop does not change where the fallback ends. */
  lemma FallbackTurn(needle: seq<Token>, word: Token, j: nat, lps: seq<nat>)
    requires 0 < j < |needle| && !Contains(word, needle[j])
    requires |lps| == |needle| && PrefixTable(needle, lps, |needle|)
    ensures lps[j - 1] < j && Fallback(needle, word, lps[j - 1]) == Fallback(needle, word, j)
  {
    assert lps[j - 1] == LongestBorder(needle[..j]);
  }

  /** The scan state after word i + 1 when, after the fallback to r, the word lacks needle[r]. */
  lemma ScanNextMiss(hay: seq<Token>, needle: seq<Token>, i: nat, r: nat)
    requires |needle| >= 1 && i < |hay|
    requires r == Fallback(needle, hay[i], Scan(hay, needle, i).j) && !Contains(hay[i], needle[r])
    ensures Scan(hay, needle, i + 1) == Scan(hay, needle, i).(j := r)
  {
  }

  /** The scan state after word i + 1 when it extends a partial match. */
  lemma ScanNextPartial(hay: seq<Token>, needle: seq<Token>, i: nat, r: nat)
    requires |needle| >= 1 && i < |hay|
    requires r == Fallback(needle, hay[i], Scan(hay, needle, i).j) && Contains(hay[i], needle[r])
    requires r + 1 < |needle|
    ensures Scan(hay, needle, i + 1) == Scan(hay, needle, i).(j := r + 1)
  {
  }

  /** The scan state after word i + 1 when it completes a match. */
  lemma ScanNextFull(hay: seq<Token>, needle: seq<Token>, i: nat, r: nat, start: int)
    requires |needle| >= 1 && i < |hay| && start == i + 1 - |needle|
    requires r == Fallback(needle, hay[i], Scan(hay, needle, i).j) && Contains(hay[i], needle[r])
    requires r + 1 == |needle|
    ensures var prev := Scan(hay, needle, i);
      Scan(hay, needle, i + 1) ==
        ScanState(LongestBorder(needle[..|needle|]), prev.starts + [start], prev.out + Range(start, start + |needle|))
  {
    assert needle[..|needle|] == needle;
  }

  /** The `push_back` loop of `kmpSearch` that emits the indices of one window. */
  method PushRange(acc: seq<int>, start: int, end: int) returns (res: seq<int>)
    requires start <= end
    ensures res == acc + Range(start, end)
  {
    res := acc;
    for k := start to end
      invariant res == acc + Range(start, k)
    {
      RangeSnoc(start, k);
      res := res + [k];
    }
  }

  /** `kmpSearch` of kmp_module.cpp (the one `search` calls through cppyy). */
  method KmpSearch(haystack: seq<Token>, needle: seq<Token>) returns (res: seq<int>)
    ensures res == KmpSearchSpec(haystack, needle)
    ensures |needle| == 0 || |haystack| < |needle| ==> res == []
  {
    var n := |haystack|;
    var m := |needle|;
    if m == 0 || n < m {
      return [];
    }
    var lps := KmpPrefix(needle);
    res := [];
    var j: nat := 0;
    var i := 0;
    while i < n
      invariant 0 <= i <= n
      invariant j == Scan(haystack, needle, i).j && res == Scan(haystack, needle, i).out
    {
      ghost var r := Fallback(needle, haystack[i], j);
      while j > 0 && Find(haystack[i], needle[j]) == None
        invariant j < m
        invariant Fallback(needle, haystack[i], j) == r
        decreases j
      {
        FallbackTurn(needle, haystack[i], j, lps);
        j := lps[j - 1];
      }
      if Find(haystack[i], needle[j]) != None {
        j := j + 1;
        if j == m {
          var start := i - m + 1;
          res := PushRange(res, start, start + m);
          ScanNextFull(haystack, needle, i, r, start);
          PrefixTableEntry(needle, lps, m);
          j := lps[j - 1];
        } else {
          ScanNextPartial(haystack, needle, i, r);
        }
      } else {
        ScanNextMiss(haystack, needle, i, r);
      }
      i := i + 1;
    }
    return res;
  }

  /** `kmpSearch_python` of nosql.py: the same scan with `in` and `extend(range(...))`. */
  method KmpSearchPython(haystack: seq<Token>, needle: seq<Token>) returns (res: seq<int>)
    ensures res == KmpSearchSpec(haystack, needle)
    ensures |needle| == 0 || |haystack| < |needle| ==> res == []
  {
    var n := |haystack|;
    var m := |needle|;
    if m == 0 || n < m {
      return [];
    }
    var lps := KmpPrefix(needle);
    res := [];
    var j: nat := 0;
    var num := 0;
    while num < n
      invariant 0 <= num <= n
      invariant j == Scan(haystack, needle, num).j && res == Scan(haystack, needle, num).out
    {
      var element := haystack[num];
      ghost var r := Fallback(needle, element, j);
      while j > 0 && !Contains(element, needle[j])
        invariant j < m
        invariant Fallback(needle, element, j) == r
        decreases j
      {
        FallbackTurn(needle, element, j, lps);
        j := lps[j - 1];
      }
      if Contains(element, needle[j]) {
        j := j + 1;
        if j == m {
          var start := num - m + 1;
          res := res + Range(start, start + m);
          ScanNextFull(haystack, needle, num, r, start);
          PrefixTableEntry(needle, lps, m);
          j := lps[j - 1];
        } else {
          ScanNextPartial(haystack, needle, num, r);
        }
      } else {
        ScanNextMiss(haystack, needle, num, r);
      }
      num := num + 1;
    }
    return res;
  }

  // ------------------------------------------------------------------ soundness

  /** Each needle token needle[t], t < len, occurs inside page word hay[start + t]. */
  predicate WindowMatch(hay: seq<Token>, needle: seq<Token>, start: int, len: int)
  {
    && 0 <= start && 0 <= len <= |needle| && start + len <= |hay|
    && forall t :: 0 <= t < len ==> Contains(hay[start + t], needle[t])
  }

  /** The first `len` needle tokens match the `len` page words just before `e`. */
  predicate MatchEndingAt(hay: seq<Token>, needle: seq<Token>, e: int, len: int)
  {
    WindowMatch(hay, needle, e - len, len)
  }

  /** A border of the matched needle prefix is itself matched at the same end. */
  lemma BorderTransfer(hay: seq<Token>, needle: seq<Token>, e: int, j: nat, b: nat)
    requires MatchEndingAt(hay, needle, e, j)
    requires IsBorder(needle[..j], b)
    ensures MatchEndingAt(hay, needle, e, b)
  {
    forall t | 0 <= t < b
      ensures Contains(hay[e - b + t], needle[t])
    {
      assert needle[..j][..b][t] == needle[..j][j - b..][t];
      assert needle[t] == needle[j - b + t];
      assert e - b + t == (e - j) + (j - b + t);
    }
  }

  lemma {:induction false} FallbackSound(hay: seq<Token>, needle: seq<Token>, e: int, j: nat)
    requires j < |needle| && 0 <= e < |hay|
    requires MatchEndingAt(hay, needle, e, j)
    ensures MatchEndingAt(hay, needle, e, Fallback(needle, hay[e], j))
    decreases j
  {
    if j > 0 && !Contains(hay[e], needle[j]) {
      var b := LongestBorder(needle[..j]);
      LongestBorderIsBorder(needle[..j]);
      BorderTransfer(hay, needle, e, j, b);
      FallbackSound(hay, needle, e, b);
    }
  }

  predicate StrictlyIncreasing(s: seq<int>) {
    forall i, k :: 0 <= i < k < |s| ==> s[i] < s[k]
  }

  /** Every start is a complete match lying within the first k words, in increasing order. */
  predicate SoundStarts(hay: seq<Token>, needle: seq<Token>, starts: seq<int>, k: int) {
    && StrictlyIncreasing(starts)
    && forall i :: 0 <= i < |starts| ==> WindowMatch(hay, needle, starts[i], |needle|) && starts[i] + |needle| <= k
  }

  /** Reading one more word keeps the matched prefix a real match. */
  lemma AdvanceSound(hay: seq<Token>, needle: seq<Token>, k: nat, j: nat)
    requires 1 <= k <= |hay| && j < |needle|
    requires MatchEndingAt(hay, needle, k - 1, j)
    ensures MatchEndingAt(hay, needle, k, Advance(needle, hay[k - 1], j))
  {
    var e := k - 1;
    var r := Fallback(needle, hay[e], j);
    FallbackSound(hay, needle, e, j);
    if Contains(hay[e], needle[r]) {
      forall t | 0 <= t < r + 1
        ensures Contains(hay[k - (r + 1) + t], needle[t])
      {
        if t < r {
          assert k - (r + 1) + t == e - r + t;
        }
      }
    }
  }


  /** A step keeps the matched prefix a real match, and a new start is a complete
      match. */
  lemma StepSound(hay: seq<Token>, needle: seq<Token>, k: nat, prev: ScanState)
    requires 1 <= k <= |hay| && |needle| >= 1 && prev.j < |needle|
    requires MatchEndingAt(hay, needle, k - 1, prev.j)
    ensures MatchEndingAt(hay, needle, k, Step(needle, hay[k - 1], k, prev).j)
    ensures var st := Step(needle, hay[k - 1], k, prev);
      st.starts == prev.starts ||
      (st.starts == prev.starts + [k - |needle|] && WindowMatch(hay, needle, k - |needle|, |needle|))
  {
    var st := Step(needle, hay[k - 1], k, prev);
    var a := Advance(needle, hay[k - 1], prev.j);
    AdvanceSound(hay, needle, k, prev.j);
    if a >= |needle| {
      assert a == |needle|;
      assert st.j == LongestBorder(needle) && st.starts == prev.starts + [k - |needle|];
      assert MatchEndingAt(hay, needle, k, |needle|);
      assert needle[..|needle|] == needle;
      LongestBorderIsBorder(needle);
      BorderTransfer(hay, needle, k, |needle|, LongestBorder(needle));
    } else {
      assert st.j == a && st.starts == prev.starts;
    }
  }

  lemma SoundStartsSnoc(hay: seq<Token>, needle: seq<Token>, starts: seq<int>, k: int)
    requires |needle| >= 1
    requires SoundStarts(hay, needle, starts, k - 1)
    requires WindowMatch(hay, needle, k - |needle|, |needle|)
    ensures SoundStarts(hay, needle, starts + [k - |needle|], k)
  {
    var t := starts + [k - |needle|];
    forall i | 0 <= i < |t|
      ensures WindowMatch(hay, needle, t[i], |needle|) && t[i] + |needle| <= k
    {
      if i < |starts| {
        assert t[i] == starts[i];
      }
    }
  }

  lemma {:induction false} ScanSound(hay: seq<Token>, needle: seq<Token>, k: nat)
    requires |needle| >= 1 && k <= |hay|
    ensures MatchEndingAt(hay, needle, k, Scan(hay, needle, k).j)
    ensures SoundStarts(hay, needle, Scan(hay, needle, k).starts, k)
  {
    if k > 0 {
      var prev := Scan(hay, needle, k - 1);
      ScanSound(hay, needle, k - 1);
      StepSound(hay, needle, k, prev);
      if Scan(hay, needle, k).starts != prev.starts {
        SoundStartsSnoc(hay, needle, prev.starts, k);
      }
    }
  }

  /** Every reported window is a real match: each phrase token occurs, in order, in
      consecutive page words; the windows come in increasing order and fit the page. */
  lemma MatchStartsSound(hay: seq<Token>, needle: seq<Token>)
    ensures forall i :: 0 <= i < |MatchStarts(hay, needle)| ==>
      WindowMatch(hay, needle, MatchStarts(hay, needle)[i], |needle|)
    ensures StrictlyIncreasing(MatchStarts(hay, needle))
  {
    if |needle| >= 1 && |hay| >= |needle| {
      ScanSound(hay, needle, |hay|);
    }
  }

  lemma RangeMember(a: int, b: int, x: int)
    requires a <= b
    ensures x in Range(a, b) <==> a <= x < b
  {
    if a <= x < b {
      assert Range(a, b)[x - a] == x;
    }
  }

  /** An emitted index lies in the window of some start. */
  lemma {:induction false} RunsWitness(starts: seq<int>, m: nat, x: int) returns (i: nat)
    requires x in Runs(starts, m)
    ensures i < |starts| && starts[i] <= x < starts[i] + m
  {
    var init := starts[..|starts| - 1];
    var last := starts[|starts| - 1];
    RangeMember(last, last + m, x);
    if x in Runs(init, m) {
      i := RunsWitness(init, m, x);
      assert init[i] == starts[i];
    } else {
      i := |starts| - 1;
    }
  }

  /** Every index in the window of a start is emitted. */
  lemma {:induction false} RunsCover(starts: seq<int>, m: nat, i: nat, x: int)
    requires i < |starts| && starts[i] <= x < starts[i] + m
    ensures x in Runs(starts, m)
  {
    var init := starts[..|starts| - 1];
    var last := starts[|starts| - 1];
    if i < |init| {
      assert init[i] == starts[i];
      RunsCover(init, m, i, x);
    } else {
      RangeMember(last, last + m, x);
    }
  }

  lemma RunsMember(starts: seq<int>, m: nat, x: int)
    ensures x in Runs(starts, m) <==> exists i :: 0 <= i < |starts| && starts[i] <= x < starts[i] + m
  {
    if x in Runs(starts, m) {
      var i := RunsWitness(starts, m, x);
    }
    if exists i :: 0 <= i < |starts| && starts[i] <= x < starts[i] + m {
      var i :| 0 <= i < |starts| && starts[i] <= x < starts[i] + m;
      RunsCover(starts, m, i, x);
    }
  }


  /** Every index `kmpSearch` returns is a page word inside a matched window. */
  lemma KmpSearchIndicesSound(hay: seq<Token>, needle: seq<Token>, x: int)
    requires x in KmpSearchSpec(hay, needle)
    ensures 0 <= x < |hay|
    ensures exists s :: s <= x < s + |needle| && WindowMatch(hay, needle, s, |needle|)
  {
    var starts := MatchStarts(hay, needle);
    KmpSearchRuns(hay, needle);
    RunsMember(starts, |needle|, x);
    MatchStartsSound(hay, needle);
    var i :| 0 <= i < |starts| && starts[i] <= x < starts[i] + |needle|;
    assert WindowMatch(hay, needle, starts[i], |needle|);
  }

  // ------------------------------------------------------------- completeness

  /** No needle token occurs inside a page word other than as the whole word
      (the `'br' in 'break'` situation is absent). */
  predicate ExactTokens(hay: seq<Token>, needle: seq<Token>)
  {
    forall x, y :: 0 <= x < |hay| && 0 <= y < |needle| && Contains(hay[x], needle[y]) ==> hay[x] == needle[y]
  }

  /** With exact tokens, two matches ending at the same place make the shorter
      needle prefix a border of the longer. */
  lemma ExactBorder(hay: seq<Token>, needle: seq<Token>, e: int, a: nat, b: nat)
    requires ExactTokens(hay, needle)
    requires MatchEndingAt(hay, needle, e, a) && MatchEndingAt(hay, needle, e, b) && b < a
    ensures IsBorder(needle[..a], b)
  {
    forall t | 0 <= t < b
      ensures needle[..a][..b][t] == needle[..a][a - b..][t]
    {
      assert Contains(hay[e - b + t], needle[t]);
      assert e - b + t == (e - a) + (a - b + t);
      assert Contains(hay[(e - a) + (a - b + t)], needle[a - b + t]);
    }
  }

  /** The fallback skips only positions of the border chain whose token the word lacks. */
  lemma {:induction false} FallbackSkips(needle: seq<Token>, word: Token, j: nat, c: nat)
    requires j < |needle|
    requires Fallback(needle, word, j) < c <= j
    requires c == j || IsBorder(needle[..j], c)
    ensures !Contains(word, needle[c])
    decreases j
  {
    if j > 0 && !Contains(word, needle[j]) && c < j {
      var b := LongestBorder(needle[..j]);
      LongestBorderSpec(needle[..j]);
      if c < b {
        assert needle[..j][..b] == needle[..b];
        ShorterBorder(needle[..j], b, c);
      }
      FallbackSkips(needle, word, b, c);
    }
  }

  /** No proper needle prefix longer than j matches the words just before e. */
  predicate LongestPartial(hay: seq<Token>, needle: seq<Token>, e: int, j: int) {
    forall l :: j < l < |needle| ==> !MatchEndingAt(hay, needle, e, l)
  }

  /** A match of length l ending after word e extends a match of length l - 1
      ending before it that the fallback has not skipped. */
  lemma StepBound(hay: seq<Token>, needle: seq<Token>, e: nat, j0: nat, l: nat)
    requires e < |hay| && j0 < |needle| && ExactTokens(hay, needle)
    requires MatchEndingAt(hay, needle, e, j0) && LongestPartial(hay, needle, e, j0)
    requires 1 <= l <= |needle| && MatchEndingAt(hay, needle, e + 1, l)
    ensures l <= Fallback(needle, hay[e], j0) + 1
    ensures Contains(hay[e], needle[l - 1])
  {
    var c := l - 1;
    assert Contains(hay[e + 1 - l + c], needle[c]);
    assert MatchEndingAt(hay, needle, e, c) by {
      forall t | 0 <= t < c
        ensures Contains(hay[e - c + t], needle[t])
      {
        assert Contains(hay[e + 1 - l + t], needle[t]);
      }
    }
    if c < j0 {
      ExactBorder(hay, needle, e, j0, c);
    }
    if c > Fallback(needle, hay[e], j0) {
      FallbackSkips(needle, hay[e], j0, c);
    }
  }

  /** With exact tokens, reading one more word keeps j the longest partial match and
      records a start whenever a complete match ends at that word. */
  lemma StepComplete(hay: seq<Token>, needle: seq<Token>, k: nat, prev: ScanState)
    requires 1 <= k <= |hay| && |needle| >= 1 && prev.j < |needle| && ExactTokens(hay, needle)
    requires MatchEndingAt(hay, needle, k - 1, prev.j) && LongestPartial(hay, needle, k - 1, prev.j)
    ensures LongestPartial(hay, needle, k, Step(needle, hay[k - 1], k, prev).j)
    ensures MatchEndingAt(hay, needle, k, |needle|) ==>
      Step(needle, hay[k - 1], k, prev).starts == prev.starts + [k - |needle|]
  {
    var m := |needle|;
    var e := k - 1;
    var r := Fallback(needle, hay[e], prev.j);
    var st := Step(needle, hay[e], k, prev);
    StepSound(hay, needle, k, prev);
    forall l | st.j < l < m
      ensures !MatchEndingAt(hay, needle, k, l)
    {
      if MatchEndingAt(hay, needle, k, l) {
        StepBound(hay, needle, e, prev.j, l);
        if Contains(hay[e], needle[r]) && r + 1 == m {
          ExactBorder(hay, needle, k, m, l);
          assert needle[..m] == needle;
          LongestBorderSpec(needle);
        }
      }
    }
    if MatchEndingAt(hay, needle, k, m) {
      StepBound(hay, needle, e, prev.j, m);
    }
  }

  /** Every complete match lying within the first k words is among the starts. */
  ghost predicate CompleteStarts(hay: seq<Token>, needle: seq<Token>, starts: seq<int>, k: int) {
    forall s :: WindowMatch(hay, needle, s, |needle|) && s + |needle| <= k ==> s in starts
  }

  lemma CompleteStartsStep(hay: seq<Token>, needle: seq<Token>, prev: seq<int>, next: seq<int>, k: int)
    requires CompleteStarts(hay, needle, prev, k - 1)
    requires next == prev || next == prev + [k - |needle|]
    requires MatchEndingAt(hay, needle, k, |needle|) ==> next == prev + [k - |needle|]
    ensures CompleteStarts(hay, needle, next, k)
  {
    forall s | WindowMatch(hay, needle, s, |needle|) && s + |needle| <= k
      ensures s in next
    {
      if s + |needle| == k {
        assert MatchEndingAt(hay, needle, k, |needle|);
      } else {
        assert s in prev;
      }
    }
  }

  /** With exact tokens, a step keeps j the longest partial match and the starts complete. */
  lemma StepKeepsComplete(hay: seq<Token>, needle: seq<Token>, k: nat, prev: ScanState)
    requires 1 <= k <= |hay| && |needle| >= 1 && prev.j < |needle| && ExactTokens(hay, needle)
    requires MatchEndingAt(hay, needle, k - 1, prev.j) && LongestPartial(hay, needle, k - 1, prev.j)
    requires CompleteStarts(hay, needle, prev.starts, k - 1)
    ensures LongestPartial(hay, needle, k, Step(needle, hay[k - 1], k, prev).j)
    ensures CompleteStarts(hay, needle, Step(needle, hay[k - 1], k, prev).starts, k)
  {
    StepComplete(hay, needle, k, prev);
    StepSound(hay, needle, k, prev);
    CompleteStartsStep(hay, needle, prev.starts, Step(needle, hay[k - 1], k, prev).starts, k);
  }

  lemma {:induction false} ScanComplete(hay: seq<Token>, needle: seq<Token>, k: nat)
    requires |needle| >= 1 && k <= |hay| && ExactTokens(hay, needle)
    ensures LongestPartial(hay, needle, k, Scan(hay, needle, k).j)
    ensures CompleteStarts(hay, needle, Scan(hay, needle, k).starts, k)
  {
    if k > 0 {
      ScanComplete(hay, needle, k - 1);
      ScanSound(hay, needle, k - 1);
      StepKeepsComplete(hay, needle, k, Scan(hay, needle, k - 1));
    }
  }

  /** When no needle token hides inside a longer page word, the search reports a
      window exactly when the phrase occurs there. */
  lemma MatchStartsCompleteWhenExact(hay: seq<Token>, needle: seq<Token>, s: int)
    requires |needle| >= 1 && ExactTokens(hay, needle)
    ensures s in MatchStarts(hay, needle) <==> WindowMatch(hay, needle, s, |needle|)
  {
    MatchStartsSound(hay, needle);
    if |hay| >= |needle| {
      ScanComplete(hay, needle, |hay|);
    }
  }

  // ------------------------------------------------------------------ examples

  lemma ContainsAt(h: string, t: string, k: nat)
    requires OccursAt(h, t, k)
    ensures Contains(h, t)
  {
  }

  /** With substring matching the search is not complete: on the page words
      ["a", "ab", "b"] the phrase ["a", "b"] is reported at 0 only, although
      "ab" holds "a" and "b" holds "b", so the window at 1 matches as well. */
  lemma SubstringMatchMissesWindow()
    ensures WindowMatch(["a", "ab", "b"], ["a", "b"], 1, 2)
    ensures MatchStarts(["a", "ab", "b"], ["a", "b"]) == [0]
    ensures KmpSearchSpec(["a", "ab", "b"], ["a", "b"]) == [0, 1]
  {
    var hay: seq<Token> := ["a", "ab", "b"];
    var needle: seq<Token> := ["a", "b"];
    ContainsAt("a", "a", 0);
    ContainsAt("ab", "a", 0);
    ContainsAt("ab", "b", 1);
    ContainsAt("b", "b", 0);
    assert !Contains("b", "a") by {
      assert !OccursAt("b", "a", 0);
    }
    assert LongestBorder(needle) == 0 by {
      assert needle[..1] == ["a"] && needle[1..] == ["b"];
      assert "a"[0] != "b"[0];
    }
    var s1 := Scan(hay, needle, 1);
    assert Fallback(needle, hay[0], 0) == 0;
    assert s1 == ScanState(1, [], []);
    var s2 := Scan(hay, needle, 2);
    assert Fallback(needle, hay[1], 1) == 1;
    assert s2 == ScanState(0, [0], Range(0, 2));
    assert Range(0, 2) == [0, 1];
    var s3 := Scan(hay, needle, 3);
    assert Fallback(needle, hay[2], 0) == 0;
    assert s3 == s2;
    assert WindowMatch(hay, needle, 1, 2) by {
      assert Contains(hay[1 + 0], needle[0]) && Contains(hay[1 + 1], needle[1]);
    }
  }

  /** Reading "aaa" against ["aa", "aa"] after a partial match of one token completes
      a match and falls back to one token again. */
  lemma DoubledStep(hay: seq<Token>, k: nat)
    requires 1 <= k <= |hay| && hay[k - 1] == "aaa" && Scan(hay, ["aa", "aa"], k - 1).j == 1
    ensures var prev := Scan(hay, ["aa", "aa"], k - 1);
      Scan(hay, ["aa", "aa"], k) ==
        ScanState(1, prev.starts + [k - 2], prev.out + [k - 2, k - 1])
  {
    var needle: seq<Token> := ["aa", "aa"];
    ContainsAt("aaa", "aa", 0);
    assert LongestBorder(needle) == 1 by {
      assert IsBorder(needle, 1);
    }
    assert Fallback(needle, hay[k - 1], 1) == 1;
    assert Range(k - 2, k) == [k - 2, k - 1];
  }

  /** The example of kmp_module.cpp's main(): four words "aaa", phrase ["aa", "aa"].
      The windows at 0, 1 and 2 all match, so the indices of each window are
      repeated: the output is 0 1 1 2 2 3, not the "0 1 2 3" its comment gives. */
  lemma MainExample()
    ensures KmpSearchSpec(["aaa", "aaa", "aaa", "aaa"], ["aa", "aa"]) == [0, 1, 1, 2, 2, 3]
  {
    var hay: seq<Token> := ["aaa", "aaa", "aaa", "aaa"];
    var needle: seq<Token> := ["aa", "aa"];
    ContainsAt("aaa", "aa", 0);
    assert Fallback(needle, hay[0], 0) == 0;
    assert Scan(hay, needle, 1) == ScanState(1, [], []);
    DoubledStep(hay, 2);
    DoubledStep(hay, 3);
    DoubledStep(hay, 4);
  }

  /** Overlapping equal-word matches repeat indices: ["a","a","a"] with ["a","a"]
      gives 0 1 1 2. */
  lemma OverlapExample()
    ensures KmpSearchSpec(["a", "a", "a"], ["a", "a"]) == [0, 1, 1, 2]
  {
    var hay: seq<Token> := ["a", "a", "a"];
    var needle: seq<Token> := ["a", "a"];
    ContainsAt("a", "a", 0);
    assert LongestBorder(needle) == 1 by {
      assert IsBorder(needle, 1);
    }
    assert Fallback(needle, hay[0], 0) == 0;
    assert Scan(hay, needle, 1) == ScanState(1, [], []);
    assert Fallback(needle, hay[1], 1) == 1;
    assert Range(0, 2) == [0, 1];
    assert Scan(hay, needle, 2) == ScanState(1, [0], [0, 1]);
    assert Fallback(needle, hay[2], 1) == 1;
    assert Range(1, 3) == [1, 2];
    assert Scan(hay, needle, 3) == ScanState(1, [0, 1], [0, 1, 1, 2]);
  }

  /** A two-word phrase matched by the whole of a two-word page: ["a","b"]
      with ["a","b"] gives 0 1. */
  lemma TwoWordExample()
    ensures KmpSearchSpec(["a", "b"], ["a", "b"]) == [0, 1]
  {
    var hay: seq<Token> := ["a", "b"];
    var needle: seq<Token> := ["a", "b"];
    ContainsAt("a", "a", 0);
    ContainsAt("b", "b", 0);
    assert LongestBorder(needle) == 0 by {
      assert needle[..1] != needle[1..] by {
        assert needle[..1][0] == "a" && needle[1..][0] == "b";
      }
    }
    assert Fallback(needle, hay[0], 0) == 0;
    assert Scan(hay, needle, 1) == ScanState(1, [], []);
    assert Fallback(needle, hay[1], 1) == 1;
    assert Range(0, 2) == [0, 1];
    assert Scan(hay, needle, 2) == ScanState(0, [0], [0, 1]);
  }
}
