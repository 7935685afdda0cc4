/** The page-level phrase search of `DataBase.search` and the normalisation
    `DataBase.__call__` applies before inserting a document
    (dao_service/nosql.py). The store's cursor is an input sequence of
    documents; the Mongo query that produced it is not modelled. */
module DataBase {
  import opened Wrappers
  import opened PyStr
  import opened TextClean
  import Kmp

  datatype Point = Point(x: int, y: int)

  /** A word's `coords`: either a flat list `[x, y, ...]` or a list of points. */
  datatype Coords = Flat(values: seq<int>) | Polygon(points: seq<Point>)

  /** One element of a page: `{"word": ..., "coords": ...}`. */
  datatype Token = Token(word: string, coords: Coords)

  datatype Document = Document(id: string, path: string, pages: seq<seq<Token>>)

  /** One search result: a document, a 1-based page number and one coords entry per matched position. */
  datatype Hit = Hit(docId: string, page: nat, coords: seq<Coords>, path: string)

  // ------------------------------------------------------------ reading order

  /** `min(y for _, y in coords)`. */
  function MinY(ps: seq<Point>): int
    requires ps != []
  {
    if |ps| == 1 then ps[0].y
    else
      var m := MinY(ps[1..]);
      if ps[0].y <= m then ps[0].y else m
  }

  /** `min(x for x, _ in coords)`. */
  function MinX(ps: seq<Point>): int
    requires ps != []
  {
    if |ps| == 1 then ps[0].x
    else
      var m := MinX(ps[1..]);
      if ps[0].x <= m then ps[0].x else m
  }

  /** The minimum is the y of some point and no point lies above it. */
  lemma {:induction false} MinYSpec(ps: seq<Point>)
    requires ps != []
    ensures forall p | p in ps :: MinY(ps) <= p.y
    ensures exists p | p in ps :: MinY(ps) == p.y
  {
    assert ps[0] in ps;
    if |ps| > 1 {
      MinYSpec(ps[1..]);
      var w :| w in ps[1..] && MinY(ps[1..]) == w.y;
      assert w in ps;
      forall p | p in ps
        ensures MinY(ps) <= p.y
      {
        if p != ps[0] {
          assert p in ps[1..];
        }
      }
    }
  }

  /** The minimum is the x of some point and no point lies left of it. */
  lemma {:induction false} MinXSpec(ps: seq<Point>)
    requires ps != []
    ensures forall p | p in ps :: MinX(ps) <= p.x
    ensures exists p | p in ps :: MinX(ps) == p.x
  {
    assert ps[0] in ps;
    if |ps| > 1 {
      MinXSpec(ps[1..]);
      var w :| w in ps[1..] && MinX(ps[1..]) == w.x;
      assert w in ps;
      forall p | p in ps
        ensures MinX(ps) <= p.x
      {
        if p != ps[0] {
          assert p in ps[1..];
        }
      }
    }
  }

  /** The sort key `(min_y(tok), min_x(tok))`. */
  datatype Key = Key(y: int, x: int)

  /** `min_y`/`min_x`: a non-empty list of points gives the least y and the
      least x over its points; otherwise the list is read as flat and
      `coords[1]`, `coords[0]` are taken, which raises (None here) when it has
      fewer than two entries. */
  function SortKey(c: Coords): (r: Option<Key>)
    ensures r.None? <==> (c.Flat? && |c.values| < 2) || c == Polygon([])
  {
    match c
    case Polygon(ps) =>
      if ps != [] then Some(Key(MinY(ps), MinX(ps)))
      else None
    case Flat(vs) =>
      if |vs| >= 2 then Some(Key(vs[1], vs[0])) else None
  }

  /** A polygon's key is its top-left corner: no point lies above it, and no point lies to its left. */
  lemma PolygonKeyIsCorner(ps: seq<Point>)
    requires ps != []
    ensures SortKey(Polygon(ps)).Some?
    ensures forall p | p in ps :: SortKey(Polygon(ps)).value.y <= p.y && SortKey(Polygon(ps)).value.x <= p.x
    ensures exists p | p in ps :: p.y == SortKey(Polygon(ps)).value.y
    ensures exists p | p in ps :: p.x == SortKey(Polygon(ps)).value.x
  {
    MinYSpec(ps);
    MinXSpec(ps);
  }

  /** The box of a word as the PDF parser stores it: (x0,y0),(x1,y0),(x1,y1),(x0,y1). */
  function BoxPolygon(x0: int, y0: int, x1: int, y1: int): (c: Coords)
    ensures c.Polygon? && |c.points| == 4
  {
    Polygon([Point(x0, y0), Point(x1, y0), Point(x1, y1), Point(x0, y1)])
  }

  /** For a box whose first corner is its top-left one, the key is that corner. */
  lemma BoxPolygonKey(x0: int, y0: int, x1: int, y1: int)
    requires x0 <= x1 && y0 <= y1
    ensures SortKey(BoxPolygon(x0, y0, x1, y1)) == Some(Key(y0, x0))
  {
    var ps := BoxPolygon(x0, y0, x1, y1).points;
    assert ps[3..] == [Point(x0, y1)];
    assert ps[2..] == [Point(x1, y1), Point(x0, y1)] && ps[2..][1..] == ps[3..];
    assert ps[1..][1..] == ps[2..];
    assert MinY(ps[2..]) == y1 && MinX(ps[2..]) == x0;
    assert MinY(ps[1..]) == y0 && MinX(ps[1..]) == x0;
  }

  /** Python's tuple comparison on `(y, x)`. */
  predicate KeyLess(a: Key, b: Key) {
    a.y < b.y || (a.y == b.y && a.x < b.x)
  }

  /** A token with its key and its position on the page before sorting. */
  datatype Entry = Entry(key: Key, index: nat, token: Token)

  /** Order of a stable sort: by key, and by original position between equal keys. */
  predicate EntryLe(a: Entry, b: Entry) {
    KeyLess(a.key, b.key) || (a.key == b.key && a.index <= b.index)
  }

  predicate SortedEntries(s: seq<Entry>) {
    forall i, j :: 0 <= i < j < |s| ==> EntryLe(s[i], s[j])
  }

  function Insert(e: Entry, s: seq<Entry>): (r: seq<Entry>)
    ensures multiset(r) == multiset(s) + multiset{e}
    ensures |r| == |s| + 1
  {
    if s == [] || EntryLe(e, s[0]) then [e] + s
    else
      assert s == [s[0]] + s[1..];
      [s[0]] + Insert(e, s[1..])
  }

  lemma {:induction false} InsertSorted(e: Entry, s: seq<Entry>)
    requires SortedEntries(s)
    ensures SortedEntries(Insert(e, s))
  {
    if s != [] && !EntryLe(e, s[0]) {
      var rest := Insert(e, s[1..]);
      InsertSorted(e, s[1..]);
      assert SortedEntries(s[1..]);
      forall x | x in rest
        ensures EntryLe(s[0], x)
      {
        assert x in multiset(rest);
        assert x in multiset(s[1..]) + multiset{e};
        if x != e {
          assert x in s[1..];
        }
      }
      assert Insert(e, s) == [s[0]] + rest;
    }
  }

  /** Insertion sort by `EntryLe`. */
  function SortEntries(s: seq<Entry>): (r: seq<Entry>)
    ensures multiset(r) == multiset(s)
  {
    if s == [] then []
    else
      assert s == [s[0]] + s[1..];
      Insert(s[0], SortEntries(s[1..]))
  }

  lemma {:induction false} SortEntriesSorted(s: seq<Entry>)
    ensures SortedEntries(SortEntries(s))
  {
    if s != [] {
      SortEntriesSorted(s[1..]);
      InsertSorted(s[0], SortEntries(s[1..]));
    }
  }

  /** Every token's coords have a key, so `sorted(...)` does not raise. */
  predicate WellFormedPage(page: seq<Token>) {
    forall t | t in page :: SortKey(t.coords).Some?
  }

  predicate WellFormedDoc(d: Document) {
    forall page | page in d.pages :: WellFormedPage(page)
  }

  /** The page's tokens with their keys and positions. */
  function Decorate(page: seq<Token>): (r: seq<Entry>)
    requires WellFormedPage(page)
    ensures |r| == |page|
  {
    seq(|page|, i requires 0 <= i < |page| => Entry(SortKey(page[i].coords).value, i, page[i]))
  }

  function EntryTokens(s: seq<Entry>): (r: seq<Token>)
    ensures |r| == |s| && forall i :: 0 <= i < |s| ==> r[i] == s[i].token
  {
    seq(|s|, i requires 0 <= i < |s| => s[i].token)
  }

  /** `sorted(page_tokens, key=lambda t: (min_y(t), min_x(t)))`. */
  function ReadingOrder(page: seq<Token>): (r: seq<Token>)
    requires WellFormedPage(page)
  {
    EntryTokens(SortEntries(Decorate(page)))
  }

  /** The reading order is a stable sort of the page by key: the sorted
      entries are a permutation of the decorated page, their keys never
      decrease, equal keys keep their original order, and the i-th sorted
      token is the page token at the i-th entry's original position. */
  lemma ReadingOrderSpec(page: seq<Token>)
    requires WellFormedPage(page)
    ensures var s := SortEntries(Decorate(page));
      && multiset(s) == multiset(Decorate(page))
      && (forall i, j :: 0 <= i < j < |s| ==> !KeyLess(s[j].key, s[i].key))
      && (forall i, j :: 0 <= i < j < |s| && s[i].key == s[j].key ==> s[i].index <= s[j].index)
      && |ReadingOrder(page)| == |page|
      && forall i :: 0 <= i < |s| ==>
           s[i].index < |page| && ReadingOrder(page)[i] == page[s[i].index]
           && s[i].key == SortKey(page[s[i].index].coords).value
  {
    var d := Decorate(page);
    var s := SortEntries(d);
    SortEntriesSorted(d);
    assert |s| == |d| by {
      assert |multiset(s)| == |multiset(d)|;
    }
    forall i | 0 <= i < |s|
      ensures s[i].index < |page| && s[i].token == page[s[i].index]
      ensures s[i].key == SortKey(page[s[i].index].coords).value
    {
      assert s[i] in multiset(d);
      var k :| 0 <= k < |d| && d[k] == s[i];
    }
  }

  // ------------------------------------------------------------ page localisation

  function WordsOf(tokens: seq<Token>): (r: seq<string>)
    ensures |r| == |tokens| && forall i :: 0 <= i < |tokens| ==> r[i] == tokens[i].word
  {
    seq(|tokens|, i requires 0 <= i < |tokens| => tokens[i].word)
  }

  predicate InPage(positions: seq<int>, n: int) {
    forall i :: 0 <= i < |positions| ==> 0 <= positions[i] < n
  }

  predicate NonNegative(positions: seq<int>) {
    forall i :: 0 <= i < |positions| ==> 0 <= positions[i]
  }

  /** Every position the matcher emits is a word of the page. */
  lemma PositionsInPage(words: seq<string>, phrase: seq<string>)
    ensures InPage(Kmp.KmpSearchSpec(words, phrase), |words|)
  {
    var positions := Kmp.KmpSearchSpec(words, phrase);
    forall i | 0 <= i < |positions|
      ensures 0 <= positions[i] < |words|
    {
      Kmp.KmpSearchIndicesSound(words, phrase, positions[i]);
    }
  }

  /** The coords list of a page hit as the loop at nosql.py:529-534 is
      evidently meant to build it: the coords of the token at each position. */
  function PageCoords(sorted: seq<Token>, positions: seq<int>): (r: seq<Coords>)
    requires InPage(positions, |sorted|)
    ensures |r| == |positions|
  {
    if positions == [] then []
    else PageCoords(sorted, positions[..|positions| - 1]) + [sorted[positions[|positions| - 1]].coords]
  }

  lemma {:induction false} PageCoordsAt(sorted: seq<Token>, positions: seq<int>, k: nat)
    requires InPage(positions, |sorted|) && k < |positions|
    ensures PageCoords(sorted, positions)[k] == sorted[positions[k]].coords
  {
    if k < |positions| - 1 {
      PageCoordsAt(sorted, positions[..|positions| - 1], k);
    }
  }

  /** The loop as written: for each position it builds the tuple
      `sorted_tokens[pos + i]["coords"] for i in range(m)` and keeps its first
      entry. The tuple reads m words from `pos`, so a position closer than m
      words to the end of the page raises IndexError (None here). */
  function PageCoordsAsWritten(sorted: seq<Token>, positions: seq<int>, m: nat): (r: Option<seq<Coords>>)
    requires m >= 1 && NonNegative(positions)
  {
    if positions == [] then Some([])
    else
      var pos := positions[|positions| - 1];
      match PageCoordsAsWritten(sorted, positions[..|positions| - 1], m)
      case None => None
      case Some(front) =>
        if pos + m - 1 < |sorted| then Some(front + [sorted[pos].coords]) else None
  }

  /** The as-written loop succeeds exactly when every position has m - 1 words
      after it, and then it agrees with `PageCoords`. */
  lemma {:induction false} PageCoordsAsWrittenSpec(sorted: seq<Token>, positions: seq<int>, m: nat)
    requires m >= 1 && NonNegative(positions)
    ensures PageCoordsAsWritten(sorted, positions, m).Some? <==> forall i :: 0 <= i < |positions| ==> positions[i] + m - 1 < |sorted|
    ensures PageCoordsAsWritten(sorted, positions, m).Some? ==>
      InPage(positions, |sorted|) && PageCoordsAsWritten(sorted, positions, m).value == PageCoords(sorted, positions)
  {
    if positions != [] {
      var front := positions[..|positions| - 1];
      assert positions == front + [positions[|positions| - 1]];
      PageCoordsAsWrittenSpec(sorted, front, m);
    }
  }

  /** A two-word phrase found at the very end of a two-word page: the matcher
      emits positions 0 and 1, and the tuple for position 1 reads word 2. */
  lemma PageEndMatchRaises(c0: Coords, c1: Coords)
    ensures var sorted := [Token("a", c0), Token("b", c1)];
      && Kmp.KmpSearchSpec(WordsOf(sorted), ["a", "b"]) == [0, 1]
      && PageCoordsAsWritten(sorted, [0, 1], 2).None?
      && PageCoords(sorted, [0, 1]) == [c0, c1]
  {
    var sorted := [Token("a", c0), Token("b", c1)];
    assert WordsOf(sorted) == ["a", "b"];
    Kmp.TwoWordExample();
    assert [0, 1][..1] == [0];
  }

  // ------------------------------------------------------------ search

  /** `re.sub(r'[^a-zа-яе0-9 ]', ' ', phrase.lower().replace('ё', 'е')).split()`. */
  function PhraseTokens(phrase: string): (r: seq<string>)
  {
    Words(Rewrite(phrase))
  }

  /** The phrase is tokenised exactly as `cleanText` followed by `split()`, and
      the search gives up on a phrase that cleans to nothing. */
  lemma PhraseTokensSpec(phrase: string)
    ensures PhraseTokens(phrase) == Words(CleanText(phrase))
    ensures PhraseTokens(phrase) == [] <==> CleanText(phrase) == []
    ensures forall w | w in PhraseTokens(phrase) :: IsWord(w) && AllAlphabet(w)
  {
    PhraseTokensAreCleanWords(phrase);
  }

  /** What one page contributes: a hit when the matcher reports any position. */
  function PageResult(phrase: seq<string>, doc: Document, p: nat): (r: Option<Hit>)
    requires WellFormedDoc(doc) && p < |doc.pages|
    ensures r.Some? ==> r.value.page == p + 1
  {
    var sorted := ReadingOrder(doc.pages[p]);
    var positions := Kmp.KmpSearchSpec(WordsOf(sorted), phrase);
    if positions == [] then None
    else
      PositionsInPage(WordsOf(sorted), phrase);
      Some(Hit(doc.id, p + 1, PageCoords(sorted, positions), doc.path))
  }

  function OptionSeq(o: Option<Hit>): (r: seq<Hit>)
    ensures (o.Some? ==> r == [o.value]) && (o.None? ==> r == [])
  {
    match o
    case None => []
    case Some(h) => [h]
  }

  /** The outcome of every page of a document, in page order. */
  function Outcomes(phrase: seq<string>, doc: Document): (r: seq<Option<Hit>>)
    requires WellFormedDoc(doc)
    ensures |r| == |doc.pages|
  {
    seq(|doc.pages|, q requires 0 <= q < |doc.pages| => PageResult(phrase, doc, q))
  }

  /** The hits among a list of page outcomes, in order. */
  function Somes(os: seq<Option<Hit>>): (r: seq<Hit>)
    ensures |r| <= |os|
  {
    if os == [] then [] else Somes(os[..|os| - 1]) + OptionSeq(os[|os| - 1])
  }

  lemma SomesSnoc(os: seq<Option<Hit>>, o: Option<Hit>)
    ensures Somes(os + [o]) == Somes(os) + OptionSeq(o)
  {
    assert (os + [o])[..|os|] == os;
  }

  /** The outcome at index q, when there is one, is numbered q + 1. */
  predicate Numbered(os: seq<Option<Hit>>) {
    forall q :: 0 <= q < |os| && os[q].Some? ==> os[q].value.page == q + 1
  }

  /** The hits of numbered outcomes come in increasing page order, one for each `Some`. */
  lemma {:induction false} SomesSpec(os: seq<Option<Hit>>)
    requires Numbered(os)
    ensures var r := Somes(os);
      && (forall i :: 0 <= i < |r| ==> 1 <= r[i].page <= |os|)
      && (forall i, j :: 0 <= i < j < |r| ==> r[i].page < r[j].page)
      && (forall q :: 0 <= q < |os| && os[q].Some? ==> os[q].value in r)
  {
    if os != [] {
      var front := os[..|os| - 1];
      var o := os[|os| - 1];
      assert Numbered(front);
      SomesSpec(front);
      var rf := Somes(front);
      var r := Somes(os);
      assert r == rf + OptionSeq(o);
      forall q | 0 <= q < |front| && os[q].Some?
        ensures os[q].value in r
      {
        assert front[q] == os[q];
      }
    }
  }

  /** Each hit is the outcome of the page it names. */
  lemma {:induction false} SomesAt(os: seq<Option<Hit>>, i: nat)
    requires Numbered(os) && i < |Somes(os)|
    ensures 1 <= Somes(os)[i].page <= |os| && os[Somes(os)[i].page - 1] == Some(Somes(os)[i])
  {
    var front := os[..|os| - 1];
    var o := os[|os| - 1];
    assert Numbered(front);
    SomesSpec(front);
    assert Somes(os) == Somes(front) + OptionSeq(o);
    if i < |Somes(front)| {
      SomesAt(front, i);
      assert front[Somes(front)[i].page - 1] == os[Somes(front)[i].page - 1];
    }
  }

  /** The hits of numbered outcomes, in full: increasing pages, each the
      outcome of the page it names, and one for every `Some`. */
  lemma SomesOfNumbered(os: seq<Option<Hit>>)
    requires Numbered(os)
    ensures var r := Somes(os);
      && (forall i, j :: 0 <= i < j < |r| ==> r[i].page < r[j].page)
      && (forall i :: 0 <= i < |r| ==> 1 <= r[i].page <= |os| && os[r[i].page - 1] == Some(r[i]))
      && (forall q :: 0 <= q < |os| && os[q].Some? ==> os[q].value in r)
  {
    SomesSpec(os);
    forall i | 0 <= i < |Somes(os)|
      ensures 1 <= Somes(os)[i].page <= |os| && os[Somes(os)[i].page - 1] == Some(Somes(os)[i])
    {
      SomesAt(os, i);
    }
  }

  /** Page q's hit, when it has one, is numbered q + 1. */
  lemma OutcomesNumbered(phrase: seq<string>, doc: Document)
    requires WellFormedDoc(doc)
    ensures Numbered(Outcomes(phrase, doc))
  {
  }

  /** The hits of a document. */
  function DocResults(phrase: seq<string>, doc: Document): (r: seq<Hit>)
    requires WellFormedDoc(doc)
  {
    Somes(Outcomes(phrase, doc))
  }

  /** The hits of the cursor's documents, in cursor order. */
  function DocsResults(phrase: seq<string>, docs: seq<Document>): (r: seq<Hit>)
    requires forall d | d in docs :: WellFormedDoc(d)
  {
    if docs == [] then []
    else
      var last := docs[|docs| - 1];
      DocsResults(phrase, docs[..|docs| - 1]) + DocResults(phrase, last)
  }

  /** What `search(phrase)` returns for the documents of the cursor. */
  function SearchSpec(phrase: string, docs: seq<Document>): (r: seq<Hit>)
    requires forall d | d in docs :: WellFormedDoc(d)
  {
    var tokens := PhraseTokens(phrase);
    if |tokens| == 0 then [] else DocsResults(tokens, docs)
  }

  /** A phrase that cleans to nothing finds nothing. */
  lemma SearchEmptyPhrase(phrase: string, docs: seq<Document>)
    requires forall d | d in docs :: WellFormedDoc(d)
    requires CleanText(phrase) == []
    ensures SearchSpec(phrase, docs) == []
  {
    PhraseTokensSpec(phrase);
  }

  /** Every hit of a document names that document and its file. */
  lemma DocResultsOwn(phrase: seq<string>, doc: Document)
    requires WellFormedDoc(doc)
    ensures forall h | h in DocResults(phrase, doc) :: h.docId == doc.id && h.path == doc.path
  {
    var os := Outcomes(phrase, doc);
    OutcomesNumbered(phrase, doc);
    SomesOfNumbered(os);
    forall h | h in DocResults(phrase, doc)
      ensures h.docId == doc.id && h.path == doc.path
    {
      var i :| 0 <= i < |Somes(os)| && Somes(os)[i] == h;
      PageResultSpec(phrase, doc, h.page - 1);
    }
  }

  /** Every hit of a search names a document of the cursor. */
  lemma {:induction false} DocsResultsFromDocs(phrase: seq<string>, docs: seq<Document>)
    requires forall d | d in docs :: WellFormedDoc(d)
    ensures forall h | h in DocsResults(phrase, docs) :: exists d | d in docs :: d.id == h.docId
  {
    if docs != [] {
      var front := docs[..|docs| - 1];
      var last := docs[|docs| - 1];
      DocsResultsFromDocs(phrase, front);
      DocResultsOwn(phrase, last);
      forall h | h in DocsResults(phrase, docs)
        ensures exists d | d in docs :: d.id == h.docId
      {
        if h in DocsResults(phrase, front) {
          var d :| d in front && d.id == h.docId;
          assert d in docs;
        } else {
          assert h in DocResults(phrase, last);
          assert last in docs;
        }
      }
    }
  }

  lemma SearchHitsFromDocs(phrase: string, docs: seq<Document>)
    requires forall d | d in docs :: WellFormedDoc(d)
    ensures forall h | h in SearchSpec(phrase, docs) :: exists d | d in docs :: d.id == h.docId
  {
    if |PhraseTokens(phrase)| > 0 {
      DocsResultsFromDocs(PhraseTokens(phrase), docs);
    }
  }

  /** A page hit: page number p + 1, one coords entry per emitted position,
      each the coords of the sorted token at that position, whose word
      contains the phrase token it was matched against. */
  lemma PageResultSpec(phrase: seq<string>, doc: Document, p: nat)
    requires WellFormedDoc(doc) && p < |doc.pages|
    ensures var sorted := ReadingOrder(doc.pages[p]);
      var positions := Kmp.KmpSearchSpec(WordsOf(sorted), phrase);
      && (PageResult(phrase, doc, p).Some? <==> positions != [])
      && (PageResult(phrase, doc, p).Some? ==>
          var h := PageResult(phrase, doc, p).value;
          && h.docId == doc.id && h.page == p + 1 && h.path == doc.path
          && |h.coords| == |positions|
          && forall k :: 0 <= k < |positions| ==>
               0 <= positions[k] < |sorted| && h.coords[k] == sorted[positions[k]].coords
               && exists t :: 0 <= t < |phrase| && Contains(sorted[positions[k]].word, phrase[t]))
  {
    var sorted := ReadingOrder(doc.pages[p]);
    var words := WordsOf(sorted);
    var positions := Kmp.KmpSearchSpec(words, phrase);
    if positions != [] {
      PositionsInPage(words, phrase);
      forall k | 0 <= k < |positions|
        ensures 0 <= positions[k] < |sorted|
        ensures PageCoords(sorted, positions)[k] == sorted[positions[k]].coords
        ensures exists t :: 0 <= t < |phrase| && Contains(sorted[positions[k]].word, phrase[t])
      {
        var x := positions[k];
        PageCoordsAt(sorted, positions, k);
        Kmp.KmpSearchIndicesSound(words, phrase, x);
        var s :| s <= x < s + |phrase| && Kmp.WindowMatch(words, phrase, s, |phrase|);
        assert Contains(words[s + (x - s)], phrase[x - s]);
      }
    }
  }

  /** One page's outcome, given the reading order and the positions computed for it. */
  lemma PageResultIs(phrase: seq<string>, doc: Document, p: nat, sorted: seq<Token>, positions: seq<int>)
    requires WellFormedDoc(doc) && p < |doc.pages|
    requires sorted == ReadingOrder(doc.pages[p])
    requires positions == Kmp.KmpSearchSpec(WordsOf(sorted), phrase)
    ensures InPage(positions, |sorted|)
    ensures positions == [] ==> PageResult(phrase, doc, p) == None
    ensures positions != [] ==> PageResult(phrase, doc, p) == Some(Hit(doc.id, p + 1, PageCoords(sorted, positions), doc.path))
  {
    PositionsInPage(WordsOf(sorted), phrase);
  }

  /** The coords list of a page with matches (nosql.py:527-535, as evidently meant). */
  method CollectCoords(sorted: seq<Token>, positions: seq<int>) returns (coordsList: seq<Coords>)
    requires InPage(positions, |sorted|)
    ensures coordsList == PageCoords(sorted, positions)
  {
    coordsList := [];
    for q := 0 to |positions|
      invariant coordsList == PageCoords(sorted, positions[..q])
    {
      assert positions[..q + 1][..q] == positions[..q];
      coordsList := coordsList + [sorted[positions[q]].coords];
    }
    assert positions[..|positions|] == positions;
  }

  /** One iteration of the page loop: reading order, matcher, and a hit if anything matched. */
  method SearchPage(tokens: seq<string>, doc: Document, p: nat) returns (hit: Option<Hit>)
    requires WellFormedDoc(doc) && p < |doc.pages|
    ensures hit == PageResult(tokens, doc, p)
  {
    assert doc.pages[p] in doc.pages;
    var sorted := ReadingOrder(doc.pages[p]);
    var words := WordsOf(sorted);
    var positions := Kmp.KmpSearch(words, tokens);
    PageResultIs(tokens, doc, p, sorted, positions);
    if |positions| > 0 {
      var coordsList := CollectCoords(sorted, positions);
      hit := Some(Hit(doc.id, p + 1, coordsList, doc.path));
    } else {
      hit := None;
    }
  }

  /** The prefix one step longer; `SearchDoc`'s loop takes one page at a time. */
  lemma TakeSnoc<T>(s: seq<T>, p: nat)
    requires p < |s|
    ensures s[..p + 1] == s[..p] + [s[p]]
  {
  }

  /** The full prefix is the sequence, as `SearchDoc`'s loop ends. */
  lemma TakeAll<T>(s: seq<T>)
    ensures s[..|s|] == s
  {
  }

  /** The page loop for one document of the cursor, pages numbered from 1. */
  method SearchDoc(tokens: seq<string>, doc: Document) returns (hits: seq<Hit>)
    requires WellFormedDoc(doc)
    ensures hits == DocResults(tokens, doc)
  {
    hits := [];
    ghost var os := Outcomes(tokens, doc);
    for p := 0 to |doc.pages|
      invariant hits == Somes(os[..p])
    {
      var hit := SearchPage(tokens, doc, p);
      TakeSnoc(os, p);
      SomesSnoc(os[..p], os[p]);
      if hit.Some? {
        hits := hits + [hit.value];
      }
    }
    TakeAll(os);
  }

  /** `search` in full: the phrase tokens, then the hits of each document of
      the cursor, in cursor order. */
  method Search(phrase: string, docs: seq<Document>) returns (results: seq<Hit>)
    requires forall d | d in docs :: WellFormedDoc(d)
    ensures results == SearchSpec(phrase, docs)
  {
    results := [];
    var tokens := Words(Rewrite(phrase));
    var m := |tokens|;
    if m == 0 {
      return;
    }
    for d := 0 to |docs|
      invariant results == DocsResults(tokens, docs[..d])
    {
      assert docs[d] in docs;
      var hits := SearchDoc(tokens, docs[d]);
      assert docs[..d + 1][..d] == docs[..d];
      results := results + hits;
    }
    assert docs[..|docs|] == docs;
  }

  // ------------------------------------------------------------ insertion

  /** `item["word"].strip() == ""`. */
  predicate Blank(t: Token) {
    Strip(t.word) == []
  }

  /** `[x for x in s if keep(x)]`. */
  function Filter<T>(keep: T -> bool, s: seq<T>): (r: seq<T>)
    ensures |r| <= |s|
  {
    if s == [] then []
    else (if keep(s[0]) then [s[0]] else []) + Filter(keep, s[1..])
  }

  lemma {:induction false} FilterAppend<T>(keep: T -> bool, a: seq<T>, b: seq<T>)
    ensures Filter(keep, a + b) == Filter(keep, a) + Filter(keep, b)
  {
    if a != [] {
      FilterAppend(keep, a[1..], b);
      assert (a + b)[0] == a[0] && (a + b)[1..] == a[1..] + b;
    } else {
      assert a + b == b;
    }
  }

  lemma {:induction false} FilterMembers<T>(keep: T -> bool, a: seq<T>, x: T)
    ensures x in Filter(keep, a) <==> x in a && keep(x)
  {
    if a != [] {
      FilterMembers(keep, a[1..], x);
      assert a == [a[0]] + a[1..];
    }
  }

  lemma {:induction false} FilterKeepsAll<T>(keep: T -> bool, a: seq<T>)
    requires forall i :: 0 <= i < |a| ==> keep(a[i])
    ensures Filter(keep, a) == a
  {
    if a != [] {
      FilterKeepsAll(keep, a[1..]);
      assert a == [a[0]] + a[1..];
    }
  }

  /** `[item for item in page if item["word"].strip() != ""]`. */
  function NonBlank(page: seq<Token>): (r: seq<Token>)
  {
    Filter(t => !Blank(t), page)
  }

  /** The filter keeps exactly the tokens that are not blank, in page order:
      it distributes over concatenation, keeps no blank token, drops no other,
      and leaves a page without blank tokens as it is. */
  lemma NonBlankSpec(a: seq<Token>, b: seq<Token>, t: Token)
    ensures NonBlank(a + b) == NonBlank(a) + NonBlank(b)
    ensures t in NonBlank(a) <==> t in a && !Blank(t)
    ensures (forall i :: 0 <= i < |a| ==> !Blank(a[i])) ==> NonBlank(a) == a
  {
    var keep := (t: Token) => !Blank(t);
    FilterAppend(keep, a, b);
    FilterMembers(keep, a, t);
    if forall i :: 0 <= i < |a| ==> !Blank(a[i]) {
      FilterKeepsAll(keep, a);
    }
  }

  /** A word is blank exactly when all of its characters are whitespace. */
  lemma BlankIffWhitespace(t: Token)
    ensures Blank(t) <==> forall c | c in t.word :: IsWhitespace(c)
  {
    StripEmptyIffWhitespace(t.word);
  }

  /** `tags.get('date')` is missing or empty. */
  predicate DateMissing(tags: map<string, string>) {
    "date" !in tags || tags["date"] == ""
  }

  /** The document handed to `DataBase(data)`, which the insertion changes in place. */
  class NewDocument {
    var text: string
    var textClear: string
    var pages: seq<seq<Token>>
    var tags: map<string, string>
    var path: string

    constructor(text: string, pages: seq<seq<Token>>, tags: map<string, string>, path: string)
      ensures this.text == text && this.textClear == [] && this.pages == pages
      ensures this.tags == tags && this.path == path
    {
      this.text := text;
      this.textClear := [];
      this.pages := pages;
      this.tags := tags;
      this.path := path;
    }

    /** The normalisation before `insert_one`: `text_clear` is set from
        `text`, blank tokens leave every page (`page[:] = ...`), and a missing
        or empty date tag becomes the file's date. */
    method Normalize(fileDate: string)
      modifies this
      ensures text == old(text) && path == old(path)
      ensures textClear == CleanText(text) && IsClean(textClear)
      ensures |pages| == |old(pages)|
      ensures forall i :: 0 <= i < |pages| ==> pages[i] == NonBlank(old(pages)[i])
      ensures tags == if DateMissing(old(tags)) then old(tags)["date" := fileDate] else old(tags)
      ensures !DateMissing(tags) || fileDate == []
    {
      textClear := CleanText(text);
      CleanTextIsClean(text);
      var ps := pages;
      for i := 0 to |ps|
        invariant |ps| == |old(pages)|
        invariant forall k :: 0 <= k < i ==> ps[k] == NonBlank(old(pages)[k])
        invariant forall k :: i <= k < |ps| ==> ps[k] == old(pages)[k]
      {
        ps := ps[i := NonBlank(ps[i])];
      }
      pages := ps;
      if DateMissing(tags) {
        tags := tags["date" := fileDate];
      }
    }
  }
}
