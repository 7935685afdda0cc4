/** The metadata and word extraction of file_manager/parsers.py:
    `BaseParser._filenameToDict` (file name to tags), the cleaned word lists
    of the OCR and PDF parsers. `BaseParser.cleanText` is the same rewrite as
    the store's and is `TextClean.CleanText`. */
module Parsers {
  import opened Wrappers
  import opened PyStr
  import opened TextClean
  import opened FileNames
  import DataBase

  // ---------------------------------------------------------------- path

  /** U+0306 COMBINING BREVE and U+0308 COMBINING DIAERESIS. */
  const Breve: char := '\U{0306}'
  const Diaeresis: char := '\U{0308}'

  /** The two `.replace` calls that compose "и"+breve into "й" and
      "е"+diaeresis into "ё" (file names written on macOS arrive decomposed). */
  function ComposeLetters(path: string): string {
    ReplaceAll(ReplaceAll(path, ['и', Breve], ['й']), ['е', Diaeresis], ['ё'])
  }

  /** No decomposed "й" or "ё" is left after the fix. */
  lemma ComposeLettersComplete(path: string)
    ensures NoPair(ComposeLetters(path), 'и', Breve)
    ensures NoPair(ComposeLetters(path), 'е', Diaeresis)
  {
    var once := ReplaceAll(path, ['и', Breve], ['й']);
    ReplacePairRemovesPair(path, 'и', Breve, 'й');
    ReplacePairKeepsNoPair(once, 'е', Diaeresis, 'ё', 'и', Breve);
    ReplacePairRemovesPair(once, 'е', Diaeresis, 'ё');
  }

  /** `Path(p).name`: the text after the last '/'. */
  function FileName(p: string): (r: string)
    ensures '/' !in r
    ensures |r| <= |p| && p[|p| - |r|..] == r
    ensures |r| < |p| ==> p[|p| - |r| - 1] == '/'
  {
    if p == [] || p[|p| - 1] == '/' then []
    else
      var r := FileName(p[..|p| - 1]);
      assert p[..|p| - 1][|p| - 1 - |r|..] + [p[|p| - 1]] == p[|p| - |r| - 1..];
      r + [p[|p| - 1]]
  }

  // ---------------------------------------------------------------- date

  predicate IsLeap(y: int) {
    y % 4 == 0 && (y % 100 != 0 || y % 400 == 0)
  }

  function DaysInMonth(y: int, m: int): int
    requires 1 <= m <= 12
  {
    if m == 2 then (if IsLeap(y) then 29 else 28)
    else if m == 4 || m == 6 || m == 9 || m == 11 then 30
    else 31
  }

  predicate EightDigits(d: string) {
    |d| == 8 && AllOf(d, IsDigit)
  }

  /** The calendar date "YYYYMMDD" exists (`datetime` admits years from 1). */
  predicate ValidDate(d: string)
    requires EightDigits(d)
  {
    var y := DigitsValue(d[..4]);
    var m := DigitsValue(d[4..6]);
    var day := DigitsValue(d[6..8]);
    1 <= y && 1 <= m <= 12 && 1 <= day <= DaysInMonth(y, m)
  }

  datatype ParseError = ValueError(date: string)

  /** `datetime.strptime(d, "%Y%m%d").strftime("%d.%m.%Y")`: a date that does
      not exist raises ValueError. */
  function DateFormat(d: string): (r: Result<string, ParseError>)
    requires EightDigits(d)
    ensures r.Success? <==> ValidDate(d)
  {
    if ValidDate(d) then Success(d[6..8] + "." + d[4..6] + "." + d[..4])
    else Failure(ValueError(d))
  }

  /** Reads "DD.MM.YYYY" back as "YYYYMMDD". */
  function DateDigits(r: string): string
    requires |r| == 10
  {
    r[6..10] + r[3..5] + r[..2]
  }

  /** The formatted date is "DD.MM.YYYY" with digits only around the two dots,
      and it carries the whole input: reading it back gives the input. */
  lemma DateFormatRoundTrip(d: string)
    requires EightDigits(d) && ValidDate(d)
    ensures var r := DateFormat(d).value;
      && |r| == 10 && r[2] == '.' && r[5] == '.'
      && (forall i | 0 <= i < 10 && i != 2 && i != 5 :: IsDigit(r[i]))
      && DateDigits(r) == d
  {
    var r := DateFormat(d).value;
    assert r == [d[6], d[7], '.', d[4], d[5], '.', d[0], d[1], d[2], d[3]];
    assert DateDigits(r) == [d[0], d[1], d[2], d[3], d[4], d[5], d[6], d[7]];
    assert forall i | 0 <= i < 8 :: d[i] in d;
  }

  /** The values of the digit runs the two examples below read. */
  lemma ExampleDigits()
    ensures DigitsValue("2024") == 2024 && DigitsValue("2023") == 2023
    ensures DigitsValue("02") == 2 && DigitsValue("29") == 29
  {
    assert "2"[..0] == [] && "0"[..0] == [];
    assert "20"[..1] == "2" && "02"[..1] == "0" && "29"[..1] == "2";
    assert DigitsValue("20") == 20;
    assert "202"[..2] == "20";
    assert DigitsValue("202") == 202;
    assert "2024"[..3] == "202" && "2023"[..3] == "202";
  }

  /** 29 February 2024 exists and is written "29.02.2024". */
  lemma LeapDayExample()
    ensures DateFormat("20240229") == Success("29.02.2024")
  {
    var d := "20240229";
    assert d[..4] == "2024" && d[4..6] == "02" && d[6..8] == "29";
    ExampleDigits();
    assert ValidDate(d);
    assert d[6..8] + "." + d[4..6] + "." + d[..4] == "29.02.2024";
  }

  /** 2023 is not a leap year: "20230229" raises ValueError. */
  lemma NonLeapDayExample()
    ensures DateFormat("20230229") == Failure(ValueError("20230229"))
  {
    var d := "20230229";
    assert d[..4] == "2023" && d[4..6] == "02" && d[6..8] == "29";
    ExampleDigits();
  }

  // ---------------------------------------------------------------- tags

  /** The dictionary's keys, in insertion order. */
  const TagKeys: seq<string> :=
    ["subject", "number", "date", "course", "semester", "teacher", "doginfo", "filetype"]

  /** The dictionary `res` before the underscore pass: groups that did not
      take part become "", the date is the formatted one. */
  function RawTags(f: FileFields, date: string): map<string, string> {
    map["subject" := f.subject, "number" := f.number, "date" := date,
        "course" := f.course, "semester" := f.semester, "teacher" := f.teacher,
        "doginfo" := (if f.doginfo.Some? then f.doginfo.value else ""),
        "filetype" := "." + f.ext]
  }

  function Underscores(s: string): string {
    ReplaceAll(s, ['_'], [' '])
  }

  /** Every value with each '_' turned into a space. */
  function SpacedTags(m: map<string, string>): map<string, string> {
    map k | k in m :: Underscores(m[k])
  }

  /** The formatted date of a match, or the error `strptime` raises. */
  function FieldDate(f: FileFields): (r: Result<string, ParseError>)
    requires WellFormed(f)
  {
    if f.date == [] then Success("") else DateFormat(f.date)
  }

  /** The dictionary for a match with groups `f`, or the error the date
      raises. */
  function Tags(f: FileFields): Result<map<string, string>, ParseError>
    requires WellFormed(f)
  {
    match FieldDate(f)
    case Failure(e) => Failure(e)
    case Success(date) => Success(SpacedTags(RawTags(f, date)))
  }

  /** `_filenameToDict` on a file name that has already been fixed up: {}
      when the pattern does not match. */
  function NameTags(name: string): Result<map<string, string>, ParseError>
  {
    match ParseFileName(name)
    case None => Success(map[])
    case Some(f) =>
      ParsedFieldsWellFormed(name);
      Tags(f)
  }

  /** `_filenameToDict(path)` for an already resolved path. */
  function FilenameToDictSpec(path: string): Result<map<string, string>, ParseError> {
    NameTags(FileName(ComposeLetters(path)))
  }

  /** Turning '_' into a space twice is the same as once. */
  lemma UnderscoresIdempotent(s: string)
    ensures Underscores(Underscores(s)) == Underscores(s)
  {
    ReplaceCharRemoves(s, '_', ' ');
    ReplaceCharAbsent(Underscores(s), '_', ' ');
  }

  /** The loop `for key, value in res.items(): res[key] = value.replace('_', ' ')`,
      with `keys` the dictionary's keys in insertion order. */
  method SpaceValues(raw: map<string, string>, keys: seq<string>) returns (res: map<string, string>)
    requires raw.Keys == set k | k in keys
    ensures res == SpacedTags(raw)
  {
    res := raw;
    for i := 0 to |keys|
      invariant res.Keys == raw.Keys
      invariant forall k | k in res :: res[k] == (if k in keys[..i] then Underscores(raw[k]) else raw[k])
    {
      var key := keys[i];
      assert keys[..i + 1] == keys[..i] + [key];
      UnderscoresIdempotent(raw[key]);
      res := res[key := Underscores(res[key])];
    }
    assert keys[..|keys|] == keys;
  }

  /** The body of `_filenameToDict` after a match with groups `f`: the date
      reformatted, then every '_' turned into a space. */
  method MatchToDict(f: FileFields) returns (r: Result<map<string, string>, ParseError>)
    requires WellFormed(f)
    ensures r == Tags(f)
  {
    var date := "";
    if f.date != [] {
      var formatted := DateFormat(f.date);
      if formatted.Failure? {
        return Failure(formatted.error);
      }
      date := formatted.value;
    }
    var res := SpaceValues(RawTags(f, date), TagKeys);
    return Success(res);
  }

  /** `_filenameToDict`: {} when the name does not match, otherwise the
      dictionary of the match. */
  method FilenameToDict(path: string) returns (r: Result<map<string, string>, ParseError>)
    ensures r == FilenameToDictSpec(path)
  {
    var name := FileName(ComposeLetters(path));
    var m := ParseFileName(name);
    if m.None? {
      return Success(map[]);
    }
    ParsedFieldsWellFormed(name);
    r := MatchToDict(m.value);
  }

  /** The underscore pass keeps the keys, leaves no '_' in any value and
      leaves a value without '_' as it is. */
  lemma SpacedTagsSpec(m: map<string, string>)
    ensures SpacedTags(m).Keys == m.Keys
    ensures forall k | k in SpacedTags(m) :: '_' !in SpacedTags(m)[k]
    ensures forall k | k in m && '_' !in m[k] :: SpacedTags(m)[k] == m[k]
  {
    forall k | k in m ensures '_' !in Underscores(m[k]) {
      ReplaceCharRemoves(m[k], '_', ' ');
    }
    forall k | k in m && '_' !in m[k] ensures Underscores(m[k]) == m[k] {
      ReplaceCharAbsent(m[k], '_', ' ');
    }
  }

  /** The file type keeps its leading '.'. */
  lemma SpacedFiletype(ext: string)
    ensures Underscores("." + ext) == "." + Underscores(ext)
  {
    ReplaceCharAt("." + ext, '_', ' ');
    ReplaceCharAt(ext, '_', ' ');
  }

  /** A match's dictionary is never empty. */
  lemma TagsNonEmpty(f: FileFields)
    requires WellFormed(f)
    ensures Tags(f) != Success(map[])
  {
    if Tags(f).Success? {
      assert "subject" in Tags(f).value;
    }
  }

  /** No match gives the empty dictionary, and only no match does. */
  lemma NoMatchIsEmpty(name: string)
    ensures ParseFileName(name).None? <==> NameTags(name) == Success(map[])
  {
    match ParseFileName(name)
    case None =>
    case Some(f) =>
      ParsedFieldsWellFormed(name);
      TagsNonEmpty(f);
  }

  /** A match raises exactly when its date group is a date that does not exist. */
  lemma TagsFails(f: FileFields)
    requires WellFormed(f)
    ensures Tags(f).Failure? <==> f.date != [] && !ValidDate(f.date)
  {
  }

  /** A match's dictionary has exactly the eight keys and no value holds '_'. */
  lemma TagsKeys(f: FileFields)
    requires WellFormed(f) && Tags(f).Success?
    ensures Tags(f).value.Keys == set k | k in TagKeys
    ensures forall k | k in Tags(f).value :: '_' !in Tags(f).value[k]
  {
    SpacedTagsSpec(RawTags(f, FieldDate(f).value));
  }

  /** Subject and number are their groups with '_' turned into a space. */
  lemma TagsSubject(f: FileFields)
    requires WellFormed(f) && Tags(f).Success?
    ensures "subject" in Tags(f).value && Tags(f).value["subject"] == Underscores(f.subject)
    ensures "number" in Tags(f).value && Tags(f).value["number"] == Underscores(f.number)
  {
    assert Tags(f).value == SpacedTags(RawTags(f, FieldDate(f).value));
  }

  /** Teacher and doginfo are their groups with '_' turned into a space,
      "" for an absent doginfo group. */
  lemma TagsTeacher(f: FileFields)
    requires WellFormed(f) && Tags(f).Success?
    ensures "teacher" in Tags(f).value && Tags(f).value["teacher"] == Underscores(f.teacher)
    ensures "doginfo" in Tags(f).value
      && Tags(f).value["doginfo"] == (if f.doginfo.Some? then Underscores(f.doginfo.value) else "")
  {
    assert Tags(f).value == SpacedTags(RawTags(f, FieldDate(f).value));
  }

  /** Course and semester are digits and come through unchanged. */
  lemma TagsNumbers(f: FileFields)
    requires WellFormed(f) && Tags(f).Success?
    ensures "course" in Tags(f).value && Tags(f).value["course"] == f.course
    ensures "semester" in Tags(f).value && Tags(f).value["semester"] == f.semester
  {
    assert Tags(f).value == SpacedTags(RawTags(f, FieldDate(f).value));
    assert Underscores(f.course) == f.course by {
      assert forall i | 0 <= i < |f.course| :: f.course[i] != '_';
      ReplaceCharAbsent(f.course, '_', ' ');
    }
    assert Underscores(f.semester) == f.semester by {
      assert f.semester[0] != '_';
      ReplaceCharAbsent(f.semester, '_', ' ');
    }
  }

  /** The file type is "." before the extension, '_' turned into a space. */
  lemma TagsFiletype(f: FileFields)
    requires WellFormed(f) && Tags(f).Success?
    ensures "filetype" in Tags(f).value && Tags(f).value["filetype"] == "." + Underscores(f.ext)
  {
    assert Tags(f).value == SpacedTags(RawTags(f, FieldDate(f).value));
    SpacedFiletype(f.ext);
  }

  /** The date is "" for an empty date group and otherwise a "DD.MM.YYYY"
      that reads back as the group. */
  lemma TagsDate(f: FileFields)
    requires WellFormed(f) && Tags(f).Success?
    ensures "date" in Tags(f).value
    ensures f.date == [] ==> Tags(f).value["date"] == ""
    ensures f.date != [] ==>
      |Tags(f).value["date"]| == 10 && DateDigits(Tags(f).value["date"]) == f.date
  {
    var date := FieldDate(f).value;
    if f.date != [] {
      DateFormatRoundTrip(f.date);
      assert '_' !in date by {
        assert forall i | 0 <= i < 10 :: date[i] != '_';
      }
    } else {
      assert '_' !in date;
    }
    SpacedTagsSpec(RawTags(f, date));
  }

  // ---------------------------------------------------------------- words

  /** A word of `page.get_text("words")`: its box and its text. */
  datatype PdfWord = PdfWord(x0: int, y0: int, x1: int, y1: int, text: string)

  /** The stored form of a PDF word: the cleaned text and the box as the
      quadrilateral ((x0,y0), (x1,y0), (x1,y1), (x0,y1)). */
  function PdfToken(w: PdfWord): DataBase.Token {
    DataBase.Token(CleanText(w.text), DataBase.BoxPolygon(w.x0, w.y0, w.x1, w.y1))
  }

  /** A stored PDF word is clean, and for a box with x0 <= x1 and y0 <= y1 the
      reading order sorts it by its top-left corner (y0, x0). */
  lemma PdfTokenSpec(w: PdfWord)
    ensures IsClean(PdfToken(w).word) && CleanText(PdfToken(w).word) == PdfToken(w).word
    ensures |PdfToken(w).coords.points| == 4
    ensures w.x0 <= w.x1 && w.y0 <= w.y1 ==>
      DataBase.SortKey(PdfToken(w).coords) == Some(DataBase.Key(w.y0, w.x0))
  {
    CleanTextIsClean(w.text);
    CleanTextOfClean(PdfToken(w).word);
    if w.x0 <= w.x1 && w.y0 <= w.y1 {
      DataBase.BoxPolygonKey(w.x0, w.y0, w.x1, w.y1);
    }
  }

  /** The loop over `words_data` that fills `current_page_words`. */
  method PdfPageWords(words: seq<PdfWord>) returns (page: seq<DataBase.Token>)
    ensures |page| == |words|
    ensures forall i | 0 <= i < |words| :: page[i] == PdfToken(words[i])
  {
    page := [];
    for i := 0 to |words|
      invariant |page| == i
      invariant forall j | 0 <= j < i :: page[j] == PdfToken(words[j])
    {
      page := page + [PdfToken(words[i])];
    }
  }

  /** A word of the OCR engine: its text and its coordinates. */
  datatype OcrWord = OcrWord(text: string, coords: DataBase.Coords)

  /** The stored form of an OCR word: cleaned, with its coordinates as given. */
  function OcrToken(w: OcrWord): DataBase.Token {
    DataBase.Token(CleanText(w.text), w.coords)
  }

  /** A stored OCR word is clean and keeps the engine's coordinates. */
  lemma OcrTokenSpec(w: OcrWord)
    ensures IsClean(OcrToken(w).word) && CleanText(OcrToken(w).word) == OcrToken(w).word
    ensures OcrToken(w).coords == w.coords
  {
    CleanTextIsClean(w.text);
    CleanTextOfClean(OcrToken(w).word);
  }

  /** The loop of `ocrEngine` that fills `one_words_page`. */
  method OcrPageWords(ocr: seq<OcrWord>) returns (page: seq<DataBase.Token>)
    ensures |page| == |ocr|
    ensures forall i | 0 <= i < |ocr| :: page[i] == OcrToken(ocr[i])
  {
    page := [];
    for i := 0 to |ocr|
      invariant |page| == i
      invariant forall j | 0 <= j < i :: page[j] == OcrToken(ocr[j])
    {
      page := page + [OcrToken(ocr[i])];
    }
  }
}
