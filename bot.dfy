// The Telegram handlers of BotCore that drive the report store: query
// acceptance, filter choice, report population and page turning, plus the
// dotted-path tag edit of the admin command. Telegram calls themselves are
// left out: a handler returns what it would send.

module Bot {
  import opened Wrappers
  import opened PyStr
  import opened TextClean
  import opened Dicts
  import opened ReportStore
  import opened Markup
  import DataBase

  const QueryMinLimit := 3
  /** The rejection text; its first letter is a Latin 'C'. */
  const QueryIsSmall := "Cлишком короткий запрос!\n(минимум 3 буквы)"
  const NoResults := "По вашему запросу ничего не найдено."

  /** What a handler raises: a store error, the `KeyError` of a filter
      without a label, or the `IndexError`/`ValueError` of callback data that
      does not decode. */
  datatype BotError = StoreFailed(error: StoreError) | MissingLabel | BadCallback

  /** What a handler sends back. */
  datatype Reply = Silent | Text(text: string) | ShowMenu(menu: Menu) | Raised(error: BotError)

  /** A photo message of a report page. */
  datatype ReportPhoto = ReportPhoto(imgPath: string, caption: string, keyboard: Keyboard)

  /** One `renderToPic` request followed by its `drawRectangle` calls. */
  datatype Render = Render(path: string, pageIndex: int, output: string, coords: seq<DataBase.Coords>)

  // ---------------------------------------------------------------- search_handler

  /** The guard of `search_handler` on the stripped text. */
  predicate QueryTooShort(text: string) {
    |CleanText(Strip(text))| < QueryMinLimit
  }

  /** `kb_initial(filters)` as a reply. */
  function MenuReply(filters: Dict): Reply {
    match KbInitial(filters)
    case None => Raised(MissingLabel)
    case Some(menu) => ShowMenu(menu)
  }

  /** A query long enough to accept is not empty once stripped. */
  lemma AcceptedQueryNotEmpty(text: string)
    requires !QueryTooShort(text)
    ensures Strip(text) != ""
  {
  }

  /** After a non-empty query is accepted the user reads that query back and
      the new report as the last one; their filters stay as they were. */
  lemma AcceptedSession(users: Users, u: string, query: string, id: string)
    requires query != ""
    ensures var after := WithLastReport(WithQuery(users, u, query), u, id);
      && QueryOf(after, u) == Success(Some(query))
      && LastReportOf(after, u) == Success(id)
      && FiltersOf(after, u) == (if u in users then FiltersOf(users, u) else Success([]))
  {
  }

  // ---------------------------------------------------------------- callbacks

  /** `cb_set_value`'s reading of "filters:value:{tag}:{idx}": `parts[2]` and
      `int(parts[3])` of `split(":")`, None where Python raises. */
  function DecodeValueData(data: string): Option<(string, int)> {
    var parts := Split(data, ':');
    if |parts| < 4 then None
    else match ParseInt(parts[3])
      case None => None
      case Some(i) => Some((parts[2], i))
  }

  /** A value button's callback decodes to its tag and index. */
  lemma ValueDataRoundTrip(tag: string, i: nat)
    requires ':' !in tag
    ensures DecodeValueData(ValueData(tag, i)) == Some((tag, i as int))
  {
    var n := NatToString(i);
    var parts := ["filters", "value", tag, n];
    assert Join(parts[2..], ':') == tag + ":" + n by {
      assert parts[2..][1..] == [n];
    }
    assert Join(parts[1..], ':') == "value" + ":" + (tag + ":" + n) by {
      assert parts[1..][1..] == parts[2..];
    }
    assert Join(parts, ':') == ValueData(tag, i);
    assert forall c | c in NatToString(i) :: IsDigit(c);
    SplitJoin(parts, ':');
    ParseNatToString(i);
  }

  /** The i-th value button of `kb_values` leads back to the tag and to
      value i. */
  lemma KbValuesDecode(tag: string, values: seq<string>, i: nat)
    requires ':' !in tag && i < |values|
    ensures KbValues(tag, values)[i][0].text == values[i]
    ensures DecodeValueData(KbValues(tag, values)[i][0].data) == Some((tag, i as int))
  {
    ValueDataRoundTrip(tag, i);
  }

  /** `cb_choose_tag`'s `c.data.split(":")[-1]`. */
  function LastField(data: string): string {
    var parts := Split(data, ':');
    parts[|parts| - 1]
  }

  /** A tag button's callback "filters:tag:{key}" reads back as its key. */
  lemma TagData(key: string)
    requires ':' !in key
    ensures LastField("filters:tag:" + key) == key
  {
    var parts := ["filters", "tag", key];
    assert Join(parts[1..], ':') == "tag" + ":" + key by {
      assert parts[1..][1..] == [key];
    }
    assert "filters:tag:" + key == Join(parts, ':');
    SplitJoin(parts, ':');
  }

  /** Each tag button of `kb_choose_tag` leads back to a labelled tag other
      than "date", shown under its own label. */
  lemma {:induction false} ChooseTagDecode(labels: Dict, i: nat)
    requires UniqueKeys(labels) && forall j | 0 <= j < |labels| :: ':' !in labels[j].0
    requires i < |ChooseTagRows(labels)|
    ensures var b := ChooseTagRows(labels)[i][0];
      LastField(b.data) != "date" && Get(labels, LastField(b.data)) == Some(b.text)
  {
    assert UniqueKeys(labels[1..]) && forall j | 0 <= j < |labels| - 1 :: labels[1..][j] == labels[j + 1];
    var k := labels[0].0;
    if k == "date" {
      ChooseTagDecode(labels[1..], i);
      var b := ChooseTagRows(labels)[i][0];
      assert Get(labels, LastField(b.data)) == Get(labels[1..], LastField(b.data));
    } else if i == 0 {
      TagData(k);
    } else {
      ChooseTagDecode(labels[1..], i - 1);
      var b := ChooseTagRows(labels)[i][0];
      assert b == ChooseTagRows(labels[1..])[i - 1][0];
      assert LastField(b.data) != k by {
        var key := LastField(b.data);
        assert Get(labels[1..], key).Some?;
        var j :| 0 <= j < |labels| - 1 && labels[1..][j].0 == key;
        assert labels[j + 1].0 == key;
      }
    }
  }

  /** Every labelled tag other than "date" has its button. */
  lemma {:induction false} ChooseTagComplete(labels: Dict, j: nat)
    requires j < |labels| && labels[j].0 != "date"
    ensures [Button(labels[j].1, "filters:tag:" + labels[j].0)] in ChooseTagRows(labels)
  {
    if j > 0 {
      ChooseTagComplete(labels[1..], j - 1);
      assert labels[1..][j - 1] == labels[j];
    }
  }

  /** The tag labels have distinct keys, none holding ':'. */
  lemma TagLabelsWellFormed()
    ensures UniqueKeys(TagLabels)
    ensures forall j | 0 <= j < |TagLabels| :: ':' !in TagLabels[j].0
  {
  }

  /** `kb_choose_tag` offers labelled tags other than "date", each under its
      own label, and ends with the back button. */
  lemma ChooseTagOffers()
    ensures KbChooseTag()[|KbChooseTag()| - 1] == [Button(BackLabel, "filters:back")]
    ensures forall i | 0 <= i < |KbChooseTag()| - 1 ::
      var b := KbChooseTag()[i][0];
      LastField(b.data) != "date" && Get(TagLabels, LastField(b.data)) == Some(b.text)
  {
    TagLabelsWellFormed();
    forall i | 0 <= i < |KbChooseTag()| - 1
      ensures var b := KbChooseTag()[i][0];
        LastField(b.data) != "date" && Get(TagLabels, LastField(b.data)) == Some(b.text)
    {
      assert KbChooseTag()[i] == ChooseTagRows(TagLabels)[i];
      ChooseTagDecode(TagLabels, i);
    }
  }

  /** `filters[tag] = value` on the stored filters: the tag now holds the
      chosen value and every other tag what it held. */
  lemma ChosenValueStored(users: Users, u: string, tag: string, v: string)
    requires u in users
    ensures var f := FiltersOf(users, u).value;
      var after := FiltersOf(WithFilters(users, u, Set(f, tag, v)), u).value;
      Get(after, tag) == Some(v) && forall k | k != tag :: Get(after, k) == Get(f, k)
  {
    SetGet(FiltersOf(users, u).value, tag, v);
  }

  /** `{f"tags.{k}": v for k, v in uf.items()}`. */
  function TagFilters(uf: Dict): Dict {
    seq(|uf|, i requires 0 <= i < |uf| => ("tags." + uf[i].0, uf[i].1))
  }

  /** The store keys are the filter keys under "tags.", with the same values
      in the same order. */
  lemma {:induction false} TagFiltersSpec(uf: Dict, k: string)
    ensures Get(TagFilters(uf), "tags." + k) == Get(uf, k)
    ensures |TagFilters(uf)| == |uf|
    ensures forall i | 0 <= i < |uf| :: TagFilters(uf)[i].0[..5] == "tags." && TagFilters(uf)[i].0[5..] == uf[i].0
  {
    if uf != [] {
      TagFiltersSpec(uf[1..], k);
      assert TagFilters(uf)[1..] == TagFilters(uf[1..]);
      assert TagFilters(uf)[0].0 == "tags." + uf[0].0;
      if uf[0].0 != k {
        assert ("tags." + uf[0].0)[5..] == uf[0].0;
        assert ("tags." + k)[5..] == k;
      }
    }
  }

  // ---------------------------------------------------------------- report pages

  /** "{report_id}_{idx}.png". */
  function ImgName(id: string, k: nat): string {
    id + "_" + NatToString(k) + ".png"
  }

  /** Distinct pages of a report get distinct image files. */
  lemma ImgNameInjective(id: string, j: nat, k: nat)
    requires ImgName(id, j) == ImgName(id, k)
    ensures j == k
  {
    var a := ImgName(id, j);
    var b := ImgName(id, k);
    assert NatToString(j) == a[|id| + 1..|a| - 4];
    assert NatToString(k) == b[|id| + 1..|b| - 4];
    NatToStringInjective(j, k);
  }

  /** The pages table after `add_page` for results 0 .. n-1. */
  function StoredPages(pages: Pages, id: string, results: seq<DataBase.Hit>,
                       docTags: map<string, map<string, string>>, n: nat): Pages
    requires n <= |results| && forall k | 0 <= k < |results| :: results[k].docId in docTags
  {
    if n == 0 then pages
    else
      var item := results[n - 1];
      AddPageTo(StoredPages(pages, id, results, docTags, n - 1), id, n - 1,
                PageRow(ImgName(id, n - 1), docTags[item.docId], item.docId))
  }

  /** Result k is stored as page k with its image name, its document's tags
      and its id. */
  lemma {:induction false} StoredPagesRows(pages: Pages, id: string, results: seq<DataBase.Hit>,
                                           docTags: map<string, map<string, string>>, n: nat, k: nat)
    requires n <= |results| && forall j | 0 <= j < |results| :: results[j].docId in docTags
    requires k < n
    ensures (id, k) in StoredPages(pages, id, results, docTags, n)
    ensures StoredPages(pages, id, results, docTags, n)[(id, k)]
      == PageRow(ImgName(id, k), docTags[results[k].docId], results[k].docId)
  {
    if k < n - 1 {
      StoredPagesRows(pages, id, results, docTags, n - 1, k);
    }
  }

  /** No row outside pages 0 .. n-1 of the report is added or changed. */
  lemma {:induction false} StoredPagesOthers(pages: Pages, id: string, results: seq<DataBase.Hit>,
                                             docTags: map<string, map<string, string>>, n: nat, key: (string, int))
    requires n <= |results| && forall j | 0 <= j < |results| :: results[j].docId in docTags
    requires !(key.0 == id && 0 <= key.1 < n)
    ensures key in StoredPages(pages, id, results, docTags, n) <==> key in pages
    ensures key in pages ==> StoredPages(pages, id, results, docTags, n)[key] == pages[key]
  {
    if n > 0 {
      StoredPagesOthers(pages, id, results, docTags, n - 1, key);
    }
  }

  /** A report that had no pages has exactly n of them afterwards. */
  lemma {:induction false} StoredPagesCount(pages: Pages, id: string, results: seq<DataBase.Hit>,
                                            docTags: map<string, map<string, string>>, n: nat)
    requires n <= |results| && forall j | 0 <= j < |results| :: results[j].docId in docTags
    requires PageKeys(pages, id) == {}
    ensures PageCount(StoredPages(pages, id, results, docTags, n), id) == n
  {
    if n > 0 {
      StoredPagesCount(pages, id, results, docTags, n - 1);
      var before := StoredPages(pages, id, results, docTags, n - 1);
      assert (id, n - 1) !in before by {
        StoredPagesOthers(pages, id, results, docTags, n - 1, (id, n - 1));
        assert (id, n - 1) !in PageKeys(pages, id);
      }
      var item := results[n - 1];
      AddPageCount(before, id, n - 1, PageRow(ImgName(id, n - 1), docTags[item.docId], item.docId), id + "_");
    }
  }

  /** The render request for result k: its file, its 0-based page, the
      image the store names, and the rectangles to draw. */
  function RenderOf(imgDir: string, id: string, item: DataBase.Hit, k: nat): Render {
    Render(item.path, item.page - 1, PathJoin(imgDir, ImgName(id, k)), item.coords)
  }

  /** The lines listing a page's tags: "{label}: {value}" for each label
      whose tag is present and non-empty, in label order. */
  function TagLines(labels: Dict, tags: map<string, string>): seq<string> {
    if labels == [] then []
    else
      var (key, name) := labels[0];
      (if key in tags && tags[key] != "" then [name + ": " + tags[key]] else [])
        + TagLines(labels[1..], tags)
  }

  /** The caption of `_send_report`. */
  function ReportCaption(p: PageView): string {
    JoinWith(["По запросу \"" + p.query + "\"",
              "Результат (" + IntToString(p.pageIdx + 1) + " из " + NatToString(p.total) + "):",
              ""] + TagLines(TagLabels, p.tags), "\n")
  }

  /** A tag is listed exactly when it has a label and a non-empty value, as
      "{label}: {value}", and nothing else is. */
  lemma {:induction false} TagLinesSpec(labels: Dict, tags: map<string, string>)
    ensures |TagLines(labels, tags)| <= |labels|
    ensures forall j | 0 <= j < |labels| && labels[j].0 in tags && tags[labels[j].0] != "" ::
      labels[j].1 + ": " + tags[labels[j].0] in TagLines(labels, tags)
    ensures forall line | line in TagLines(labels, tags) ::
      exists j | 0 <= j < |labels| ::
        labels[j].0 in tags && tags[labels[j].0] != "" && line == labels[j].1 + ": " + tags[labels[j].0]
  {
    if labels != [] {
      TagLinesSpec(labels[1..], tags);
      assert forall j | 1 <= j < |labels| :: labels[j] == labels[1..][j - 1];
      forall line | line in TagLines(labels, tags)
        ensures exists j | 0 <= j < |labels| ::
          labels[j].0 in tags && tags[labels[j].0] != "" && line == labels[j].1 + ": " + tags[labels[j].0]
      {
        if line !in TagLines(labels[1..], tags) {
          assert labels[0].0 in tags && tags[labels[0].0] != "" && line == labels[0].1 + ": " + tags[labels[0].0];
        } else {
          var j :| 0 <= j < |labels| - 1 && labels[1..][j].0 in tags && tags[labels[1..][j].0] != ""
            && line == labels[1..][j].1 + ": " + tags[labels[1..][j].0];
          assert labels[j + 1] == labels[1..][j];
        }
      }
    }
  }

  /** The lines follow the labels' order: the lines of a run of labels are
      those of its first part, then those of the rest. */
  lemma {:induction false} TagLinesAppend(a: Dict, b: Dict, tags: map<string, string>)
    ensures TagLines(a + b, tags) == TagLines(a, tags) + TagLines(b, tags)
    decreases |a|
  {
    if a != [] {
      assert (a + b)[1..] == a[1..] + b;
      TagLinesAppend(a[1..], b, tags);
    } else {
      assert a + b == b;
    }
  }

  /** The caption opens with the quoted query. */
  lemma CaptionOpensWithQuery(p: PageView)
    ensures var head := "По запросу \"" + p.query + "\"";
      |ReportCaption(p)| > |head| && ReportCaption(p)[..|head|] == head
  {
    var head := "По запросу \"" + p.query + "\"";
    var lines := [head,
                  "Результат (" + IntToString(p.pageIdx + 1) + " из " + NatToString(p.total) + "):",
                  ""] + TagLines(TagLabels, p.tags);
    assert JoinWith(lines, "\n") == head + "\n" + JoinWith(lines[1..], "\n");
  }

  /** The caption's second line counts the page from 1 out of the report's
      total: "Результат ({page_idx + 1} из {total}):". */
  lemma CaptionCountsPage(p: PageView)
    ensures var head := "По запросу \"" + p.query + "\"";
      var count := "Результат (" + IntToString(p.pageIdx + 1) + " из " + NatToString(p.total) + "):";
      var n := |head| + 1 + |count| + 1;
      |ReportCaption(p)| >= n && ReportCaption(p)[..n] == head + "\n" + count + "\n"
  {
    var head := "По запросу \"" + p.query + "\"";
    var count := "Результат (" + IntToString(p.pageIdx + 1) + " из " + NatToString(p.total) + "):";
    var lines := [head, count, ""] + TagLines(TagLabels, p.tags);
    assert JoinWith(lines, "\n") == head + "\n" + JoinWith(lines[1..], "\n");
    assert JoinWith(lines[1..], "\n") == count + "\n" + JoinWith(lines[2..], "\n");
  }

  /** `_send_report`: nothing without a page; otherwise the page image, at
      `img_dir` joined with the path the store reports, with its caption and
      the page-turn keyboard. */
  function ReportMessage(imgDir: string, page: Option<PageView>, id: string, idx: int): Option<ReportPhoto> {
    match page
    case None => None
    case Some(p) => Some(ReportPhoto(PathJoin(imgDir, p.imgPath), ReportCaption(p),
                                     ReportKeyboard(id, idx, p.total, p.docId)))
  }

  /** With an absolute image directory, as the store's default is, the photo
      sent is the image the store names for that page. */
  lemma PhotoIsPageImage(reports: map<string, Report>, pages: Pages, imgDir: string, id: string, idx: int)
    requires imgDir != [] && imgDir[0] == '/'
    ensures var photo := ReportMessage(imgDir, PageOf(reports, pages, imgDir, id, idx), id, idx);
      && (photo.Some? <==> (id, idx) in pages)
      && (photo.Some? ==> photo.value.imgPath == PathJoin(imgDir, pages[(id, idx)].imgName))
  {
    if (id, idx) in pages {
      var inner := PathJoin(imgDir, pages[(id, idx)].imgName);
      assert inner[0] == '/' by {
        var name := pages[(id, idx)].imgName;
        if !(name != [] && name[0] == '/') {
          assert inner[..|imgDir|] == imgDir;
        }
      }
    }
  }

  /** `report_nav`'s reading of "rep_{id}_{idx}": `split('_', 2)` must give
      three parts and the last must be an integer. */
  function DecodeNav(data: string): Option<(string, int)> {
    var parts := SplitMax(data, '_', 2);
    if |parts| != 3 then None
    else match ParseInt(parts[2])
      case None => None
      case Some(i) => Some((parts[1], i))
  }

  /** A page-turn callback decodes to its report and page when the report id
      has no '_', as a uuid4 string never does. */
  lemma NavRoundTrip(id: string, idx: int)
    requires '_' !in id
    ensures DecodeNav(NavData(id, idx)) == Some((id, idx))
  {
    var n := IntToString(idx);
    var parts := ["rep", id, n];
    assert Join(parts[1..], '_') == id + "_" + n by {
      assert parts[1..][1..] == [n];
    }
    assert Join(parts, '_') == NavData(id, idx);
    assert parts[..2] == ["rep", id];
    SplitMaxOfJoin(parts, '_');
    ParseIntToString(idx);
  }

  /** A button carrying a page-turn callback is not "noop" and decodes to its
      report and page. */
  lemma NavButtonTurns(b: Button, id: string, idx: int)
    requires '_' !in id && b.data == NavData(id, idx)
    ensures b.data != "noop" && DecodeNav(b.data) == Some((id, idx))
  {
    NavRoundTrip(id, idx);
    assert b.data[0] == 'r';
  }

  /** The back button turns to page idx-1 exactly when there is one. */
  lemma BackButton(id: string, idx: int, total: int, docId: string)
    requires '_' !in id
    ensures var b := ReportKeyboard(id, idx, total, docId)[0][0];
      && (b.data != "noop" <==> idx > 0)
      && (idx > 0 ==> DecodeNav(b.data) == Some((id, idx - 1)))
  {
    var b := ReportKeyboard(id, idx, total, docId)[0][0];
    if idx > 0 {
      NavButtonTurns(b, id, idx - 1);
    } else {
      assert b.data == "noop";
    }
  }

  /** The forward button turns to page idx+1 exactly when there is one. */
  lemma ForwardButton(id: string, idx: int, total: int, docId: string)
    requires '_' !in id
    ensures var b := ReportKeyboard(id, idx, total, docId)[0][2];
      && (b.data != "noop" <==> idx < total - 1)
      && (idx < total - 1 ==> DecodeNav(b.data) == Some((id, idx + 1)))
  {
    var b := ReportKeyboard(id, idx, total, docId)[0][2];
    if idx < total - 1 {
      NavButtonTurns(b, id, idx + 1);
    } else {
      assert b.data == "noop";
    }
  }

  /** From any page of a report, every page-turn button of its keyboard
      leads to a page of the same report. */
  lemma NavigationTargets(id: string, idx: int, total: int, docId: string)
    requires '_' !in id && 0 <= idx < total
    ensures forall b | b in ReportKeyboard(id, idx, total, docId)[0] && b.data != "noop" ::
      DecodeNav(b.data).Some? && DecodeNav(b.data).value.0 == id
      && 0 <= DecodeNav(b.data).value.1 < total
  {
    var row := ReportKeyboard(id, idx, total, docId)[0];
    BackButton(id, idx, total, docId);
    ForwardButton(id, idx, total, docId);
    assert row == [row[0], row[1], row[2]];
    assert row[1].data == "noop";
  }

  /** `callback_download`'s `split(":", 1)`: the document id after the
      first ':', None where the unpacking raises. */
  function DecodeDownload(data: string): (r: Option<string>)
    ensures r.Some? <==> ':' in data
    ensures r.Some? ==> r.value == data[IndexOf(data, ':').value + 1..]
  {
    var parts := SplitMax(data, ':', 1);
    assert IndexOf(data, ':').Some? ==> parts[1..] == SplitMax(data[IndexOf(data, ':').value + 1..], ':', 0);
    if |parts| != 2 then None else Some(parts[1])
  }

  /** The download button of a report page names its document, whatever
      characters the id holds. */
  lemma DownloadRoundTrip(id: string, idx: int, total: int, docId: string)
    ensures DecodeDownload(ReportKeyboard(id, idx, total, docId)[1][0].data) == Some(docId)
  {
    var parts := ["download", docId];
    assert Join(parts, ':') == "download:" + docId by {
      assert parts[1..] == [docId];
    }
    assert parts[..1] == ["download"];
    SplitMaxOfJoin(parts, ':');
  }

  // ---------------------------------------------------------------- change_tag_cmd

  /** A document field: a string or a nested dictionary. */
  datatype Value = Str(s: string) | Obj(fields: map<string, Value>)

  /** The walk of `change_tag_cmd`: every missing or non-dict step becomes
      {}, and the last key is set to the new value. */
  function SetPath(doc: map<string, Value>, keys: seq<string>, v: string): map<string, Value>
    requires |keys| >= 1
    decreases |keys|
  {
    if |keys| == 1 then doc[keys[0] := Str(v)]
    else
      var child := if keys[0] in doc && doc[keys[0]].Obj? then doc[keys[0]].fields else map[];
      doc[keys[0] := Obj(SetPath(child, keys[1..], v))]
  }

  /** The dictionary reached by following `path`, if every step is one. */
  function ObjAt(doc: map<string, Value>, path: seq<string>): Option<map<string, Value>>
    decreases |path|
  {
    if path == [] then Some(doc)
    else if path[0] in doc && doc[path[0]].Obj? then ObjAt(doc[path[0]].fields, path[1..])
    else None
  }

  /** After the walk every step along the path is a dictionary and the last
      key holds the new value. */
  lemma {:induction false} SetPathReadsBack(doc: map<string, Value>, keys: seq<string>, v: string)
    requires |keys| >= 1
    ensures var parent := ObjAt(SetPath(doc, keys, v), keys[..|keys| - 1]);
      parent.Some? && keys[|keys| - 1] in parent.value && parent.value[keys[|keys| - 1]] == Str(v)
    decreases |keys|
  {
    if |keys| > 1 {
      var child := if keys[0] in doc && doc[keys[0]].Obj? then doc[keys[0]].fields else map[];
      SetPathReadsBack(child, keys[1..], v);
      assert keys[..|keys| - 1][1..] == keys[1..][..|keys| - 2];
    }
  }

  /** At step j of the walk every key off the path keeps its value. */
  lemma {:induction false} SetPathKeepsSiblings(doc: map<string, Value>, keys: seq<string>, v: string, j: nat)
    requires |keys| >= 1 && j < |keys|
    ensures ObjAt(SetPath(doc, keys, v), keys[..j]).Some?
    ensures ObjAt(doc, keys[..j]).Some? ==>
      forall k | k in ObjAt(doc, keys[..j]).value && k != keys[j] ::
        k in ObjAt(SetPath(doc, keys, v), keys[..j]).value
        && ObjAt(SetPath(doc, keys, v), keys[..j]).value[k] == ObjAt(doc, keys[..j]).value[k]
    decreases |keys|
  {
    if j > 0 {
      var child := if keys[0] in doc && doc[keys[0]].Obj? then doc[keys[0]].fields else map[];
      SetPathKeepsSiblings(child, keys[1..], v, j - 1);
      assert keys[..j][1..] == keys[1..][..j - 1];
    }
  }

  /** At step j of the walk the dictionary holds exactly the keys it had
      before, none when the step was missing or not a dictionary (it is
      replaced by a fresh `{}`), plus the next key of the path. */
  lemma {:induction false} SetPathKeys(doc: map<string, Value>, keys: seq<string>, v: string, j: nat)
    requires |keys| >= 1 && j < |keys|
    ensures ObjAt(SetPath(doc, keys, v), keys[..j]).Some?
    ensures ObjAt(SetPath(doc, keys, v), keys[..j]).value.Keys
      == (if ObjAt(doc, keys[..j]).Some? then ObjAt(doc, keys[..j]).value.Keys else {}) + {keys[j]}
    decreases |keys|
  {
    if j > 0 {
      var child := if keys[0] in doc && doc[keys[0]].Obj? then doc[keys[0]].fields else map[];
      SetPathKeys(child, keys[1..], v, j - 1);
      assert keys[..j][1..] == keys[1..][..j - 1];
    }
  }

  /** `change_tag_cmd`'s edit of the document for the path "a.b.c". */
  function ChangeTag(doc: map<string, Value>, tagPath: string, v: string): map<string, Value> {
    SetPath(doc, Split(tagPath, '.'), v)
  }

  /** After `/change_tag` the dotted path leads to the new value. */
  lemma ChangeTagReadsBack(doc: map<string, Value>, tagPath: string, v: string)
    ensures var keys := Split(tagPath, '.');
      var parent := ObjAt(ChangeTag(doc, tagPath, v), keys[..|keys| - 1]);
      parent.Some? && keys[|keys| - 1] in parent.value && parent.value[keys[|keys| - 1]] == Str(v)
  {
    SetPathReadsBack(doc, Split(tagPath, '.'), v);
  }

  // ---------------------------------------------------------------- the handlers

  class BotCore {
    const store: UserReportStore

    constructor(store: UserReportStore)
      ensures this.store == store
    {
      this.store := store;
    }

    /** `search_handler`; `reportId` is the fresh uuid4 string and `now` the
        clock reading `create_report` stores. */
    method SearchHandler(userId: string, text: string, reportId: string, now: string) returns (reply: Reply)
      modifies store
      ensures QueryTooShort(text) ==> reply == Text(QueryIsSmall) && unchanged(store)
      ensures !QueryTooShort(text) ==> Accepted(old(store.users), old(store.reports), old(store.pages),
                                                userId, Strip(text), reportId, now, reply)
    {
      if QueryTooShort(text) {
        return Text(QueryIsSmall);
      }
      reply := AcceptQuery(userId, Strip(text), reportId, now);
    }

    /** The store and the reply once `search_handler` accepts `query`: the
        query is saved, then the report is created (raising on a reused id),
        then it becomes the user's last report and the filters menu is shown. */
    ghost predicate Accepted(users: Users, reports: map<string, Report>, pages: Pages,
                             userId: string, query: string, reportId: string, now: string, reply: Reply)
      reads store
    {
      && store.pages == pages
      && (reportId in reports ==>
            && store.users == WithQuery(users, userId, query)
            && store.reports == reports
            && reply == Raised(StoreFailed(IntegrityError(reportId))))
      && (reportId !in reports ==>
            && store.users == WithLastReport(WithQuery(users, userId, query), userId, reportId)
            && store.reports == reports[reportId := Report(query, now)]
            && reply == MenuReply(FiltersOf(store.users, userId).value))
    }

    method AcceptQuery(userId: string, query: string, reportId: string, now: string) returns (reply: Reply)
      modifies store
      ensures Accepted(old(store.users), old(store.reports), old(store.pages), userId, query, reportId, now, reply)
    {
      store.SetQuery(userId, query);
      var created := store.CreateReport(reportId, query, now);
      if created.Failure? {
        return Raised(StoreFailed(created.error));
      }
      store.SetLastReport(userId, reportId);
      var filters := store.GetFilters(userId);
      reply := MenuReply(filters.value);
    }

    /** `cb_set_value`; `values` is `db.distinct(f"tags.{tag}")`. */
    method CbSetValue(userId: string, data: string, values: seq<string>) returns (reply: Reply)
      modifies store
      ensures DecodeValueData(data).None? ==> reply == Raised(BadCallback) && unchanged(store)
      ensures DecodeValueData(data).Some? ==>
        var (tag, idx) := DecodeValueData(data).value;
        && (!(0 <= idx < |values|) ==> reply == Silent && unchanged(store))
        && (0 <= idx < |values| && userId !in old(store.users) ==>
              reply == Raised(StoreFailed(NoUserRow(userId))) && unchanged(store))
        && (0 <= idx < |values| && userId in old(store.users) ==>
              var chosen := Set(FiltersOf(old(store.users), userId).value, tag, values[idx]);
              && store.users == WithFilters(old(store.users), userId, chosen)
              && store.reports == old(store.reports) && store.pages == old(store.pages)
              && reply == MenuReply(chosen))
    {
      var decoded := DecodeValueData(data);
      if decoded.None? {
        return Raised(BadCallback);
      }
      var (tag, idx) := decoded.value;
      if idx < 0 || idx >= |values| {
        return Silent;
      }
      var value := values[idx];
      var filters := store.GetFilters(userId);
      if filters.Failure? {
        return Raised(StoreFailed(filters.error));
      }
      var chosen := Set(filters.value, tag, value);
      store.SetFilters(userId, chosen);
      reply := MenuReply(chosen);
    }

    /** `_send_report` without the Telegram call. */
    method SendReport(id: string, idx: int) returns (photo: Option<ReportPhoto>)
      ensures photo == ReportMessage(store.imgDir, PageOf(store.reports, store.pages, store.imgDir, id, idx), id, idx)
    {
      var page := store.GetPage(id, idx);
      if page.None? {
        return None;
      }
      var p := page.value;
      photo := Some(ReportPhoto(PathJoin(store.imgDir, p.imgPath), ReportCaption(p),
                                ReportKeyboard(id, idx, p.total, p.docId)));
    }

    /** `_do_report`: nothing stored for no results; otherwise result k
        becomes page k, and page 0 is sent. `docTags` is each document's
        `tags` as the database holds them. */
    method DoReport(id: string, results: seq<DataBase.Hit>, docTags: map<string, map<string, string>>)
      returns (renders: seq<Render>, reply: Reply, photo: Option<ReportPhoto>)
      requires forall k | 0 <= k < |results| :: results[k].docId in docTags
      modifies store
      ensures results == [] ==> renders == [] && reply == Text(NoResults) && photo.None? && unchanged(store)
      ensures results != [] ==>
        && store.pages == StoredPages(old(store.pages), id, results, docTags, |results|)
        && store.reports == old(store.reports) && store.users == old(store.users)
        && |renders| == |results|
        && (forall k | 0 <= k < |results| :: renders[k] == RenderOf(store.imgDir, id, results[k], k))
        && reply == Silent
        && photo == ReportMessage(store.imgDir, PageOf(store.reports, store.pages, store.imgDir, id, 0), id, 0)
    {
      if results == [] {
        return [], Text(NoResults), None;
      }
      renders := StorePages(id, results, docTags);
      reply := Silent;
      photo := SendReport(id, 0);
    }

    /** The page loop of `_do_report`: result k is rendered and stored as
        page k. */
    method StorePages(id: string, results: seq<DataBase.Hit>, docTags: map<string, map<string, string>>)
      returns (renders: seq<Render>)
      requires forall k | 0 <= k < |results| :: results[k].docId in docTags
      modifies store
      ensures store.pages == StoredPages(old(store.pages), id, results, docTags, |results|)
      ensures store.reports == old(store.reports) && store.users == old(store.users)
      ensures |renders| == |results|
      ensures forall k | 0 <= k < |results| :: renders[k] == RenderOf(store.imgDir, id, results[k], k)
    {
      renders := [];
      for k := 0 to |results|
        invariant store.pages == StoredPages(old(store.pages), id, results, docTags, k)
        invariant store.reports == old(store.reports) && store.users == old(store.users)
        invariant |renders| == k
        invariant forall j | 0 <= j < k :: renders[j] == RenderOf(store.imgDir, id, results[j], j)
      {
        var item := results[k];
        var imgName := ImgName(id, k);
        renders := renders + [Render(item.path, item.page - 1, PathJoin(store.imgDir, imgName), item.coords)];
        store.AddPage(id, k, imgName, docTags[item.docId], item.docId);
      }
    }

    /** `report_nav`. The handler only receives data starting with "rep_"
        (its filter, api_service/bot.py:363), so the prefix is not checked
        again here: `split('_', 2)` ignores what stands before the first '_'. */
    method ReportNav(data: string) returns (r: Result<Option<ReportPhoto>, BotError>)
      ensures DecodeNav(data).None? ==> r == Failure(BadCallback)
      ensures DecodeNav(data).Some? ==>
        var (id, idx) := DecodeNav(data).value;
        r == Success(ReportMessage(store.imgDir, PageOf(store.reports, store.pages, store.imgDir, id, idx), id, idx))
    {
      var decoded := DecodeNav(data);
      if decoded.None? {
        return Failure(BadCallback);
      }
      var (id, idx) := decoded.value;
      var photo := SendReport(id, idx);
      r := Success(photo);
    }

    /** `cb_filters_done`: the last report is filled with the results of the
        stored query, and page 0 of it is sent. `docs` is the cursor the
        database returns for the store keys `tagFilters`: the documents are
        taken as given, already narrowed by those keys. */
    method CbFiltersDone(userId: string, docs: seq<DataBase.Document>, docTags: map<string, map<string, string>>)
      returns (tagFilters: Dict, renders: seq<Render>, reply: Reply, photo: Option<ReportPhoto>)
      requires forall d | d in docs :: DataBase.WellFormedDoc(d)
      requires forall d | d in docs :: d.id in docTags
      modifies store
      ensures userId !in old(store.users) ==>
        reply == Raised(StoreFailed(NoUserRow(userId))) && renders == [] && photo.None? && unchanged(store)
      ensures userId in old(store.users) ==>
        var id := LastReportOf(old(store.users), userId).value;
        var results := DataBase.SearchSpec(
          if QueryOf(old(store.users), userId).value.Some? then QueryOf(old(store.users), userId).value.value else "",
          docs);
        && tagFilters == TagFilters(FiltersOf(old(store.users), userId).value)
        && (forall k | 0 <= k < |results| :: results[k].docId in docTags)
        && (results == [] ==> reply == Text(NoResults) && renders == [] && photo.None? && unchanged(store))
        && (results != [] ==>
              && store.pages == StoredPages(old(store.pages), id, results, docTags, |results|)
              && store.users == old(store.users) && store.reports == old(store.reports)
              && |renders| == |results|
              && (forall k | 0 <= k < |results| :: renders[k] == RenderOf(store.imgDir, id, results[k], k))
              && reply == Silent
              && photo == ReportMessage(store.imgDir, PageOf(store.reports, store.pages, store.imgDir, id, 0), id, 0))
    {
      var id := store.GetLastReport(userId);
      if id.Failure? {
        return [], [], Raised(StoreFailed(id.error)), None;
      }
      var stored := store.GetQuery(userId);
      var query := if stored.value.Some? then stored.value.value else "";
      var uf := store.GetFilters(userId);
      tagFilters := TagFilters(uf.value);
      var results := DataBase.Search(query, docs);
      assert forall k | 0 <= k < |results| :: results[k].docId in docTags by {
        DataBase.SearchHitsFromDocs(query, docs);
        forall k | 0 <= k < |results| ensures results[k].docId in docTags {
          assert results[k] in results;
        }
      }
      renders, reply, photo := DoReport(id.value, results, docTags);
    }
  }
}
