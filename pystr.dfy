/** The Python `str` built-ins the search engine and the bot rely on, stated over
    `seq<char>`: whitespace and `strip()`, `split(sep)` and `split(sep, maxsplit)`,
    `sep.join(...)`, `str(n)` and `int(s)`, `replace`, and substring search
    (`t in h` in Python, `h.find(t)` in C++). */
module PyStr {
  import opened Wrappers

  /** The characters Python's `str.isspace()` accepts; `strip()` and `split()` use them. */
  predicate IsWhitespace(c: char) {
    || c == ' ' || ('\t' <= c <= '\r') || ('\U{1c}' <= c <= '\U{1f}')
    || c == '\U{85}' || c == '\U{a0}' || c == '\U{1680}' || ('\U{2000}' <= c <= '\U{200a}')
    || c == '\U{2028}' || c == '\U{2029}' || c == '\U{202f}' || c == '\U{205f}' || c == '\U{3000}'
  }

  predicate IsDigit(c: char) { '0' <= c <= '9' }

  // ---------------------------------------------------------------- strip()

  function StripLeft(s: string): (r: string)
    ensures r == [] || !IsWhitespace(r[0])
    ensures |r| <= |s| && r == s[|s| - |r|..]
    ensures forall i :: 0 <= i < |s| - |r| ==> IsWhitespace(s[i])
    ensures s != [] && !IsWhitespace(s[0]) ==> r == s
  {
    if s != [] && IsWhitespace(s[0]) then StripLeft(s[1..]) else s
  }

  function StripRight(s: string): (r: string)
    ensures r == [] || !IsWhitespace(r[|r| - 1])
    ensures |r| <= |s| && r == s[..|r|]
    ensures forall i :: |r| <= i < |s| ==> IsWhitespace(s[i])
    ensures s != [] && !IsWhitespace(s[|s| - 1]) ==> r == s
  {
    if s != [] && IsWhitespace(s[|s| - 1]) then StripRight(s[..|s| - 1]) else s
  }

  /** `s.strip()`: drops leading and trailing whitespace and nothing else. */
  function Strip(s: string): (r: string)
    ensures r == [] || (!IsWhitespace(r[0]) && !IsWhitespace(r[|r| - 1]))
    ensures (s == [] || (!IsWhitespace(s[0]) && !IsWhitespace(s[|s| - 1]))) ==> r == s
  {
    StripRight(StripLeft(s))
  }

  /** `s.strip()` is empty exactly when every character of `s` is whitespace. */
  lemma StripEmptyIffWhitespace(s: string)
    ensures Strip(s) == [] <==> forall c | c in s :: IsWhitespace(c)
  {
  }

  // ---------------------------------------------------------------- split / join

  /** The index of the first occurrence of `c` in `s`, if any. */
  function IndexOf(s: string, c: char): (r: Option<nat>)
    ensures r.None? <==> c !in s
    ensures r.Some? ==> r.value < |s| && s[r.value] == c && c !in s[..r.value]
  {
    if s == [] then None
    else if s[0] == c then Some(0)
    else match IndexOf(s[1..], c)
      case None => None
      case Some(k) => assert s[1..][..k] == s[1..k + 1]; Some(k + 1)
  }

  /** `sep.join(parts)` for a one-character separator. */
  function Join(parts: seq<string>, sep: char): string
  {
    if |parts| == 0 then ""
    else if |parts| == 1 then parts[0]
    else parts[0] + [sep] + Join(parts[1..], sep)
  }

  /** `s.split(sep)`: every piece between separators, empty pieces included. */
  function Split(s: string, sep: char): (r: seq<string>)
    ensures |r| >= 1
    ensures forall p | p in r :: sep !in p
    ensures Join(r, sep) == s
    decreases |s|
  {
    match IndexOf(s, sep)
    case None => [s]
    case Some(k) =>
      var rest := Split(s[k + 1..], sep);
      var r := [s[..k]] + rest;
      assert r[1..] == rest;
      assert s == s[..k] + [sep] + s[k + 1..];
      r
  }

  /** `s.split(sep, maxsplit)`: at most `maxsplit` cuts, the tail keeps its
      separators; the pieces re-join to the text. */
  function SplitMax(s: string, sep: char, maxsplit: nat): (r: seq<string>)
    ensures 1 <= |r| <= maxsplit + 1
    ensures Join(r, sep) == s
    decreases |s|
  {
    if maxsplit == 0 then [s]
    else match IndexOf(s, sep)
      case None => [s]
      case Some(k) =>
        var rest := SplitMax(s[k + 1..], sep, maxsplit - 1);
        var r := [s[..k]] + rest;
        assert r[1..] == rest;
        assert s == s[..k] + [sep] + s[k + 1..];
        r
  }

  /** No cut is made when no cut is allowed or the text holds no separator. */
  lemma SplitMaxNoCut(s: string, sep: char, maxsplit: nat)
    requires maxsplit == 0 || IndexOf(s, sep).None?
    ensures SplitMax(s, sep, maxsplit) == [s]
    ensures maxsplit > 0 ==> sep !in s
  {
  }

  /** Only the last of `pieces` may hold `sep`, and it holds none when fewer
      than `maxsplit` cuts were made. */
  predicate CutPieces(pieces: seq<string>, sep: char, maxsplit: nat)
  {
    && (forall i | 0 <= i < |pieces| - 1 :: sep !in pieces[i])
    && (1 <= |pieces| <= maxsplit ==> sep !in pieces[|pieces| - 1])
  }

  /** A cut piece free of `sep` in front of properly cut pieces keeps them properly cut. */
  lemma CutPiecesCons(head: string, rest: seq<string>, sep: char, maxsplit: nat)
    requires maxsplit > 0 && |rest| >= 1 && sep !in head && CutPieces(rest, sep, maxsplit - 1)
    ensures CutPieces([head] + rest, sep, maxsplit)
  {
    var r := [head] + rest;
    assert forall i | 1 <= i < |r| :: r[i] == rest[i - 1];
  }

  /** Only the last piece of `split(sep, maxsplit)` may hold `sep`, and it holds
      none when fewer than `maxsplit` cuts were made. */
  lemma {:induction false} SplitMaxPieces(s: string, sep: char, maxsplit: nat)
    ensures CutPieces(SplitMax(s, sep, maxsplit), sep, maxsplit)
    decreases |s|
  {
    if maxsplit == 0 {
      SplitMaxNoCut(s, sep, maxsplit);
    } else {
      match IndexOf(s, sep)
      case None =>
        SplitMaxNoCut(s, sep, maxsplit);
      case Some(k) =>
        var rest := SplitMax(s[k + 1..], sep, maxsplit - 1);
        SplitMaxPieces(s[k + 1..], sep, maxsplit - 1);
        CutPiecesCons(s[..k], rest, sep, maxsplit);
        assert SplitMax(s, sep, maxsplit) == [s[..k]] + rest;
    }
  }

  lemma {:induction false} IndexOfJoined(p: string, sep: char, t: string)
    requires sep !in p
    ensures IndexOf(p + [sep] + t, sep) == Some(|p|)
  {
    if p != [] {
      assert (p + [sep] + t)[1..] == p[1..] + [sep] + t;
      IndexOfJoined(p[1..], sep, t);
    }
  }

  /** Splitting a join gives the parts back when no part holds the separator. */
  lemma {:induction false} SplitJoin(parts: seq<string>, sep: char)
    requires |parts| >= 1
    requires forall p | p in parts :: sep !in p
    ensures Split(Join(parts, sep), sep) == parts
  {
    if |parts| > 1 {
      var tail := Join(parts[1..], sep);
      var s := parts[0] + [sep] + tail;
      assert Join(parts, sep) == s;
      assert parts[0] in parts;
      IndexOfJoined(parts[0], sep, tail);
      assert s[|parts[0]| + 1..] == tail;
      assert s[..|parts[0]|] == parts[0];
      assert Split(s, sep) == [parts[0]] + Split(tail, sep);
      assert forall p | p in parts[1..] :: p in parts;
      SplitJoin(parts[1..], sep);
      assert [parts[0]] + parts[1..] == parts;
    }
  }

  /** Splitting a join with `maxsplit` one less than the number of parts gives the
      parts back when no part but the last holds the separator. */
  lemma {:induction false} SplitMaxOfJoin(parts: seq<string>, sep: char)
    requires |parts| >= 1
    requires forall p | p in parts[..|parts| - 1] :: sep !in p
    ensures SplitMax(Join(parts, sep), sep, |parts| - 1) == parts
  {
    if |parts| > 1 {
      var s := Join(parts, sep);
      var rest := parts[1..];
      assert parts[0] in parts[..|parts| - 1];
      IndexOfJoined(parts[0], sep, Join(rest, sep));
      assert s[|parts[0]| + 1..] == Join(rest, sep);
      assert s[..|parts[0]|] == parts[0];
      assert rest[..|rest| - 1] == parts[..|parts| - 1][1..];
      SplitMaxOfJoin(rest, sep);
      assert [parts[0]] + rest == parts;
    }
  }

  // ---------------------------------------------------------------- str(n) / int(s)

  function DigitChar(d: nat): (c: char)
    requires d < 10
    ensures IsDigit(c) && c as int - '0' as int == d
  {
    ('0' as int + d) as char
  }

  function DigitValue(c: char): nat
    requires IsDigit(c)
  {
    (c as int - '0' as int) as nat
  }

  /** `str(n)` for a non-negative integer: decimal digits without leading zeros. */
  function NatToString(n: nat): (r: string)
    ensures |r| >= 1 && forall c | c in r :: IsDigit(c)
    ensures r[0] == '0' ==> n == 0
  {
    if n < 10 then [DigitChar(n)] else NatToString(n / 10) + [DigitChar(n % 10)]
  }

  /** The value of a run of decimal digits. */
  function DigitsValue(s: string): nat
    requires forall c | c in s :: IsDigit(c)
  {
    if s == [] then 0 else DigitsValue(s[..|s| - 1]) * 10 + DigitValue(s[|s| - 1])
  }

  /** `int(s)` on the forms the bot's callback data take: optional surrounding
      whitespace, an optional sign and at least one ASCII digit. Every such
      string parses as Python parses it. Anything else is None here, which is
      Python's `ValueError` except for digit groups split by '_' ("1_0") and
      non-ASCII decimal digits, both of which Python accepts. */
  function ParseInt(s: string): Option<int>
  {
    var t := Strip(s);
    var sign, digits := if t != [] && (t[0] == '-' || t[0] == '+') then t[0] else '+',
                        if t != [] && (t[0] == '-' || t[0] == '+') then t[1..] else t;
    if digits != [] && forall c | c in digits :: IsDigit(c) then
      var v: int := DigitsValue(digits);
      Some(if sign == '-' then -v else v)
    else None
  }

  lemma {:induction false} DigitsOfNat(n: nat)
    ensures DigitsValue(NatToString(n)) == n
  {
    if n >= 10 {
      DigitsOfNat(n / 10);
      var s := NatToString(n);
      assert s[..|s| - 1] == NatToString(n / 10);
    }
  }

  lemma DigitIsNotWhitespace(c: char)
    requires IsDigit(c)
    ensures !IsWhitespace(c)
  {
  }

  /** `int(str(n)) == n`. */
  lemma ParseNatToString(n: nat)
    ensures ParseInt(NatToString(n)) == Some(n as int)
  {
    var s := NatToString(n);
    DigitIsNotWhitespace(s[0]);
    DigitIsNotWhitespace(s[|s| - 1]);
    var t := Strip(s);
    assert t == s;
    assert t[0] != '-' && t[0] != '+';
    DigitsOfNat(n);
  }

  /** `str(n)` is injective, which is what lets a callback carry an index. */
  lemma NatToStringInjective(a: nat, b: nat)
    requires NatToString(a) == NatToString(b)
    ensures a == b
  {
    DigitsOfNat(a);
    DigitsOfNat(b);
  }

  /** `str(i)` for any integer: digits after an optional '-'. */
  function IntToString(i: int): (r: string)
    ensures forall c | c in r :: IsDigit(c) || c == '-'
  {
    if i < 0 then "-" + NatToString(-i) else NatToString(i)
  }

  /** `int(s)` for a '-' followed by digits. */
  lemma ParseNegative(s: string)
    requires |s| >= 2 && s[0] == '-' && forall c | c in s[1..] :: IsDigit(c)
    ensures ParseInt(s) == Some(-(DigitsValue(s[1..]) as int))
  {
    assert Strip(s) == s by {
      assert s[|s| - 1] == s[1..][|s| - 2];
      DigitIsNotWhitespace(s[|s| - 1]);
    }
  }

  /** `int(str(i)) == i`. */
  lemma ParseIntToString(i: int)
    ensures ParseInt(IntToString(i)) == Some(i)
  {
    if i >= 0 {
      ParseNatToString(i);
    } else {
      var s := IntToString(i);
      assert s[1..] == NatToString(-i);
      ParseNegative(s);
      DigitsOfNat(-i);
    }
  }

  /** `sep.join(parts)` for a separator of any length. */
  function JoinWith(parts: seq<string>, sep: string): string {
    if |parts| == 0 then ""
    else if |parts| == 1 then parts[0]
    else parts[0] + sep + JoinWith(parts[1..], sep)
  }

  // ---------------------------------------------------------------- substrings

  /** `t` occurs in `h` starting at position `k`. */
  predicate OccursAt(h: string, t: string, k: int) {
    0 <= k <= |h| - |t| && h[k..k + |t|] == t
  }

  /** Python's `t in h` (the C++ code's `h.find(t) != npos`). */
  predicate Contains(h: string, t: string) {
    exists k | 0 <= k <= |h| - |t| :: OccursAt(h, t, k)
  }

  function FindFrom(h: string, t: string, from: nat): (r: Option<nat>)
    requires from <= |h|
    ensures r.Some? ==> from <= r.value && OccursAt(h, t, r.value)
    ensures r.Some? ==> forall k :: from <= k < r.value ==> !OccursAt(h, t, k)
    ensures r.None? ==> forall k :: from <= k ==> !OccursAt(h, t, k)
    decreases |h| - from
  {
    if from + |t| > |h| then None
    else if h[from..from + |t|] == t then Some(from)
    else FindFrom(h, t, from + 1)
  }

  /** C++ `h.find(t)`: the first position of `t` in `h`, or `npos` (None). */
  function Find(h: string, t: string): (r: Option<nat>)
    ensures r.Some? <==> Contains(h, t)
    ensures r.Some? ==> OccursAt(h, t, r.value)
  {
    FindFrom(h, t, 0)
  }

  /** `find` reports the first occurrence. */
  lemma FindIsFirst(h: string, t: string, k: nat)
    requires Find(h, t).Some? && k < Find(h, t).value
    ensures !OccursAt(h, t, k)
  {
  }

  // ---------------------------------------------------------------- replace

  /** `s.replace(pat, rep)`: every non-overlapping occurrence, left to right. */
  function ReplaceAll(s: string, pat: string, rep: string): (r: string)
    requires |pat| > 0
    ensures !Contains(s, pat) ==> r == s
    decreases |s|
  {
    if |s| < |pat| then s
    else if s[..|pat|] == pat then
      assert OccursAt(s, pat, 0);
      rep + ReplaceAll(s[|pat|..], pat, rep)
    else
      var tail := ReplaceAll(s[1..], pat, rep);
      ContainsTail(s, pat);
      assert [s[0]] + s[1..] == s;
      [s[0]] + tail
  }

  lemma ContainsTail(s: string, t: string)
    requires s != []
    ensures Contains(s[1..], t) ==> Contains(s, t)
  {
    if Contains(s[1..], t) {
      var k :| 0 <= k <= |s[1..]| - |t| && OccursAt(s[1..], t, k);
      assert s[k + 1..k + 1 + |t|] == s[1..][k..k + |t|];
      assert OccursAt(s, t, k + 1);
    }
  }

  /** `s.replace(a, c)` for single characters: every `a` becomes `c`, nothing else moves. */
  lemma {:induction false} ReplaceCharAt(s: string, a: char, c: char)
    ensures |ReplaceAll(s, [a], [c])| == |s|
    ensures forall i :: 0 <= i < |s| ==> ReplaceAll(s, [a], [c])[i] == (if s[i] == a then c else s[i])
    decreases |s|
  {
    if |s| >= 1 {
      var t := ReplaceAll(s[1..], [a], [c]);
      ReplaceCharAt(s[1..], a, c);
      if s[..1] == [a] {
        assert ReplaceAll(s, [a], [c]) == [c] + t;
      } else {
        assert ReplaceAll(s, [a], [c]) == [s[0]] + t;
      }
    }
  }

  /** After `s.replace(a, c)` no `a` is left. */
  lemma ReplaceCharRemoves(s: string, a: char, c: char)
    requires a != c
    ensures a !in ReplaceAll(s, [a], [c])
  {
    ReplaceCharAt(s, a, c);
  }

  /** `s.replace(a, c)` leaves a string without `a` unchanged. */
  lemma ReplaceCharAbsent(s: string, a: char, c: char)
    requires a !in s
    ensures ReplaceAll(s, [a], [c]) == s
  {
    ReplaceCharAt(s, a, c);
  }

  /** No `a` is immediately followed by `b` in `s`. */
  predicate NoPair(s: string, a: char, b: char) {
    forall i :: 0 <= i < |s| - 1 ==> !(s[i] == a && s[i + 1] == b)
  }

  lemma HeadOfReplace(s: string, a: char, b: char, c: char)
    requires s != []
    ensures ReplaceAll(s, [a, b], [c]) != []
    ensures ReplaceAll(s, [a, b], [c])[0] == (if |s| >= 2 && s[0] == a && s[1] == b then c else s[0])
  {
    if |s| >= 2 && s[..2] == [a, b] {
    } else if |s| >= 2 {
      assert s[..2] == [s[0], s[1]];
    }
  }

  /** After replacing every "ab" by "c" (with c neither a nor b), no "ab" is left. */
  lemma {:induction false} ReplacePairRemovesPair(s: string, a: char, b: char, c: char)
    requires c != a && c != b
    ensures NoPair(ReplaceAll(s, [a, b], [c]), a, b)
    decreases |s|
  {
    var r := ReplaceAll(s, [a, b], [c]);
    if |s| < 2 {
    } else if s[..2] == [a, b] {
      var t := ReplaceAll(s[2..], [a, b], [c]);
      ReplacePairRemovesPair(s[2..], a, b, c);
      assert r == [c] + t;
      forall i | 0 <= i < |r| - 1 ensures !(r[i] == a && r[i + 1] == b) {
        if i > 0 { assert r[i] == t[i - 1] && r[i + 1] == t[i]; }
      }
    } else {
      var t := ReplaceAll(s[1..], [a, b], [c]);
      ReplacePairRemovesPair(s[1..], a, b, c);
      assert r == [s[0]] + t;
      HeadOfReplace(s[1..], a, b, c);
      assert s[..2] == [s[0], s[1]];
      forall i | 0 <= i < |r| - 1 ensures !(r[i] == a && r[i + 1] == b) {
        if i > 0 { assert r[i] == t[i - 1] && r[i + 1] == t[i]; }
      }
    }
  }

  /** Replacing "ab" by a character c that is neither p nor q creates no new "pq". */
  lemma {:induction false} ReplacePairKeepsNoPair(s: string, a: char, b: char, c: char, p: char, q: char)
    requires c != p && c != q
    requires NoPair(s, p, q)
    ensures NoPair(ReplaceAll(s, [a, b], [c]), p, q)
    decreases |s|
  {
    var r := ReplaceAll(s, [a, b], [c]);
    if |s| < 2 {
    } else if s[..2] == [a, b] {
      var t := ReplaceAll(s[2..], [a, b], [c]);
      ReplacePairKeepsNoPair(s[2..], a, b, c, p, q);
      assert r == [c] + t;
      forall i | 0 <= i < |r| - 1 ensures !(r[i] == p && r[i + 1] == q) {
        if i > 0 { assert r[i] == t[i - 1] && r[i + 1] == t[i]; }
      }
    } else {
      var t := ReplaceAll(s[1..], [a, b], [c]);
      ReplacePairKeepsNoPair(s[1..], a, b, c, p, q);
      assert r == [s[0]] + t;
      HeadOfReplace(s[1..], a, b, c);
      assert !(s[0] == p && s[1] == q);
      forall i | 0 <= i < |r| - 1 ensures !(r[i] == p && r[i + 1] == q) {
        if i > 0 { assert r[i] == t[i - 1] && r[i + 1] == t[i]; }
      }
    }
  }
}
