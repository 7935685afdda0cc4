/** The file-name grammar `FILE_REGEX` (file_manager/file_manager_configs.py),
    used with `re.match`:

      ^([^-.]+)-([\d._]*)-((?:\d{8})?)-(\d{1,2})-(\d)-([^@.]*)(?:@([^.]*))?\.(\w+)

    Every group is followed by a character its class excludes, so the
    backtracking matcher has at most one way to succeed. The model is that
    unique match, computed by a left-to-right field splitter; `ParseFileNameIff`
    proves it agrees with the grammar read as a generator (`Compose`). */
module FileNames {
  import opened Wrappers
  import opened PyStr

  // ---------------------------------------------------------------- classes

  /** `\w`: letters, digits and '_' (letters limited to Latin and Cyrillic). */
  predicate IsWordChar(c: char) {
    'a' <= c <= 'z' || 'A' <= c <= 'Z' || IsDigit(c) || c == '_'
    || 'А' <= c <= 'я' || c == 'Ё' || c == 'ё'
  }

  /** `[^-.]` */
  predicate SubjectChar(c: char) { c != '-' && c != '.' }

  /** `[\d._]` */
  predicate NumberChar(c: char) { IsDigit(c) || c == '.' || c == '_' }

  /** `[^@.]` */
  predicate TeacherChar(c: char) { c != '@' && c != '.' }

  /** `[^.]` */
  predicate DoginfoChar(c: char) { c != '.' }

  predicate AllOf(s: string, ok: char -> bool) {
    forall i :: 0 <= i < |s| ==> ok(s[i])
  }

  /** The length a greedy `[...]*` consumes at the start of `s`. */
  function Span(s: string, ok: char -> bool): (n: nat)
    ensures n <= |s| && forall i :: 0 <= i < n ==> ok(s[i])
    ensures n < |s| ==> !ok(s[n])
  {
    if s == [] || !ok(s[0]) then 0 else 1 + Span(s[1..], ok)
  }

  /** A run of `ok` characters stopped by a character outside the class. */
  lemma SpanStops(x: string, c: char, y: string, ok: char -> bool)
    requires AllOf(x, ok) && !ok(c)
    ensures Span(x + [c] + y, ok) == |x|
    ensures (x + [c] + y)[|x|] == c && (x + [c] + y)[|x| + 1..] == y
  {
  }

  /** A run of `ok` characters at the end of the input or before a non-`ok` one. */
  lemma SpanAll(x: string, rest: string, ok: char -> bool)
    requires AllOf(x, ok)
    requires rest == [] || !ok(rest[0])
    ensures Span(x + rest, ok) == |x|
  {
    var s := x + rest;
    assert forall i :: 0 <= i < |x| ==> s[i] == x[i];
    assert rest != [] ==> s[|x|] == rest[0];
  }

  // ---------------------------------------------------------------- fields

  /** The eight groups of a match; `doginfo` is None when the `@` group is absent. */
  datatype FileFields = FileFields(
    subject: string, number: string, date: string, course: string,
    semester: string, teacher: string, doginfo: Option<string>, ext: string)

  /** What each group's pattern admits. */
  predicate WellFormed(f: FileFields) {
    && |f.subject| >= 1 && AllOf(f.subject, SubjectChar)
    && AllOf(f.number, NumberChar)
    && (f.date == [] || (|f.date| == 8 && AllOf(f.date, IsDigit)))
    && 1 <= |f.course| <= 2 && AllOf(f.course, IsDigit)
    && |f.semester| == 1 && IsDigit(f.semester[0])
    && AllOf(f.teacher, TeacherChar)
    && (f.doginfo.Some? ==> AllOf(f.doginfo.value, DoginfoChar))
    && |f.ext| >= 1 && AllOf(f.ext, IsWordChar)
  }

  function DogPart(d: Option<string>): string {
    if d.Some? then "@" + d.value else ""
  }

  /** The text the pattern consumes for the groups `f`. */
  function Compose(f: FileFields): string {
    f.subject + "-" + f.number + "-" + f.date + "-" + f.course + "-"
    + f.semester + "-" + f.teacher + DogPart(f.doginfo) + "." + f.ext
  }

  /** `FILE_REGEX.match(s)` succeeds with groups `f`: `s` starts with
      `Compose(f)` and `\w+` cannot extend the extension. */
  predicate Matches(s: string, f: FileFields) {
    var n := |Compose(f)|;
    WellFormed(f) && n <= |s| && s[..n] == Compose(f) && (n == |s| || !IsWordChar(s[n]))
  }

  // ---------------------------------------------------------------- splitter

  lemma Cut(s: string, i: nat)
    requires i < |s|
    ensures s == s[..i] + [s[i]] + s[i + 1..]
  {
  }

  lemma PrefixAllOf(s: string, n: nat, ok: char -> bool)
    requires n <= |s| && forall i :: 0 <= i < n ==> ok(s[i])
    ensures AllOf(s[..n], ok)
  {
    assert forall i :: 0 <= i < n ==> s[..n][i] == s[i];
  }

  /** A group matched at the start of the text, and the text left after it
      (and after the '-' that closes it, for the dash-terminated groups). */
  datatype Piece = Piece(field: string, rest: string)

  /** `([...]*)-` with a greedy class `ok`: the run must be followed by '-'. */
  function RunThenDash(s: string, ok: char -> bool): (r: Option<Piece>)
    ensures r.Some? ==> s == r.value.field + ['-'] + r.value.rest && AllOf(r.value.field, ok)
  {
    var n := Span(s, ok);
    if n == |s| || s[n] != '-' then None
    else
      Cut(s, n);
      PrefixAllOf(s, n, ok);
      Some(Piece(s[..n], s[n + 1..]))
  }

  /** `((?:\d{8})?)-`: eight digits and '-', or else '-' alone. */
  function DateThenDash(s: string): (r: Option<Piece>)
    ensures r.Some? ==> s == r.value.field + ['-'] + r.value.rest
    ensures r.Some? ==> r.value.field == [] || (|r.value.field| == 8 && AllOf(r.value.field, IsDigit))
  {
    if |s| >= 9 && AllOf(s[..8], IsDigit) && s[8] == '-' then
      Cut(s, 8);
      Some(Piece(s[..8], s[9..]))
    else if s != [] && s[0] == '-' then Some(Piece([], s[1..]))
    else None
  }

  /** `(\d{1,2})-`: two digits and '-', or else one digit and '-'. */
  function CourseThenDash(s: string): (r: Option<Piece>)
    ensures r.Some? ==> s == r.value.field + ['-'] + r.value.rest
    ensures r.Some? ==> 1 <= |r.value.field| <= 2 && AllOf(r.value.field, IsDigit)
  {
    if |s| >= 3 && IsDigit(s[0]) && IsDigit(s[1]) && s[2] == '-' then
      Cut(s, 2);
      Some(Piece(s[..2], s[3..]))
    else if |s| >= 2 && IsDigit(s[0]) && s[1] == '-' then
      Cut(s, 1);
      Some(Piece(s[..1], s[2..]))
    else None
  }

  /** `(\d)-` */
  function SemesterThenDash(s: string): (r: Option<Piece>)
    ensures r.Some? ==> s == r.value.field + ['-'] + r.value.rest
    ensures r.Some? ==> |r.value.field| == 1 && IsDigit(r.value.field[0])
  {
    if |s| >= 2 && IsDigit(s[0]) && s[1] == '-' then
      Cut(s, 1);
      Some(Piece(s[..1], s[2..]))
    else None
  }

  /** `(\w+)` with nothing after it: the longest run of word characters,
      which must not be empty. */
  function Extension(s: string): (r: Option<Piece>)
    ensures r.Some? ==> s == r.value.field + r.value.rest
    ensures r.Some? ==> |r.value.field| >= 1 && AllOf(r.value.field, IsWordChar)
    ensures r.Some? ==> r.value.rest == [] || !IsWordChar(r.value.rest[0])
  {
    var e := Span(s, IsWordChar);
    if e == 0 then None
    else
      PrefixAllOf(s, e, IsWordChar);
      assert s == s[..e] + s[e..];
      Some(Piece(s[..e], s[e..]))
  }

  /** The last three groups of a match. */
  datatype Tail = Tail(teacher: string, doginfo: Option<string>, ext: string)

  /** The text `([^@.]*)(?:@([^.]*))?\.(\w+)` consumes for `tl`. */
  function TailText(tl: Tail): string {
    tl.teacher + DogPart(tl.doginfo) + "." + tl.ext
  }

  predicate TailWellFormed(tl: Tail) {
    && AllOf(tl.teacher, TeacherChar)
    && (tl.doginfo.Some? ==> AllOf(tl.doginfo.value, DoginfoChar))
    && |tl.ext| >= 1 && AllOf(tl.ext, IsWordChar)
  }

  lemma TailTextShape(tl: Tail, rest: string)
    ensures tl.doginfo.Some? ==>
      TailText(tl) + rest == tl.teacher + ['@'] + (tl.doginfo.value + ['.'] + (tl.ext + rest))
    ensures tl.doginfo.None? ==> TailText(tl) + rest == tl.teacher + ['.'] + (tl.ext + rest)
  {
  }

  /** The tail and the text after the extension. */
  datatype TailMatch = TailMatch(tail: Tail, after: string)

  /** `([^@.]*)(?:@([^.]*))?\.(\w+)`. The teacher run is greedy and stops at
      '@', '.' or the end; after '@' the doginfo run stops only at '.'. */
  function ParseTail(s: string): (r: Option<TailMatch>)
    ensures r.Some? ==> TailWellFormed(r.value.tail)
    ensures r.Some? ==> s == TailText(r.value.tail) + r.value.after
    ensures r.Some? ==> r.value.after == [] || !IsWordChar(r.value.after[0])
  {
    var t := Span(s, TeacherChar);
    if t == |s| then None
    else
      Cut(s, t);
      PrefixAllOf(s, t, TeacherChar);
      if s[t] == '@' then
        var s6 := s[t + 1..];
        var g := Span(s6, DoginfoChar);
        if g == |s6| then None
        else
          Cut(s6, g);
          PrefixAllOf(s6, g, DoginfoChar);
          var ext := Extension(s6[g + 1..]);
          if ext.None? then None
          else
            var tl := Tail(s[..t], Some(s6[..g]), ext.value.field);
            TailTextShape(tl, ext.value.rest);
            Some(TailMatch(tl, ext.value.rest))
      else
        var ext := Extension(s[t + 1..]);
        if ext.None? then None
        else
          var tl := Tail(s[..t], None, ext.value.field);
          TailTextShape(tl, ext.value.rest);
          Some(TailMatch(tl, ext.value.rest))
  }

  /** `FILE_REGEX.match(name)`, group by group. */
  function ParseFileName(name: string): (r: Option<FileFields>)
  {
    var subject := RunThenDash(name, SubjectChar);
    if subject.None? || subject.value.field == [] then None
    else
      var number := RunThenDash(subject.value.rest, NumberChar);
      if number.None? then None
      else
        var date := DateThenDash(number.value.rest);
        if date.None? then None
        else
          var course := CourseThenDash(date.value.rest);
          if course.None? then None
          else
            var semester := SemesterThenDash(course.value.rest);
            if semester.None? then None
            else
              var tail := ParseTail(semester.value.rest);
              if tail.None? then None
              else
                var tl := tail.value.tail;
                Some(FileFields(subject.value.field, number.value.field, date.value.field,
                                course.value.field, semester.value.field,
                                tl.teacher, tl.doginfo, tl.ext))
  }

  // ---------------------------------------------------------------- proofs

  lemma RunThenDashOf(x: string, y: string, ok: char -> bool)
    requires AllOf(x, ok) && !ok('-')
    ensures RunThenDash(x + ['-'] + y, ok) == Some(Piece(x, y))
  {
    SpanStops(x, '-', y, ok);
    assert (x + ['-'] + y)[..|x|] == x;
  }

  lemma DateThenDashOf(date: string, y: string)
    requires date == [] || (|date| == 8 && AllOf(date, IsDigit))
    ensures DateThenDash(date + ['-'] + y) == Some(Piece(date, y))
  {
    var s := date + ['-'] + y;
    if date == [] {
      assert |s| >= 9 ==> s[..8][0] == '-';
    } else {
      assert s[..8] == date && s[9..] == y;
    }
  }

  lemma CourseThenDashOf(course: string, y: string)
    requires 1 <= |course| <= 2 && AllOf(course, IsDigit)
    ensures CourseThenDash(course + ['-'] + y) == Some(Piece(course, y))
  {
    var s := course + ['-'] + y;
    if |course| == 2 {
      assert s[..2] == course && s[3..] == y;
    } else {
      assert s[..1] == course && s[2..] == y;
    }
  }

  lemma SemesterThenDashOf(semester: string, y: string)
    requires |semester| == 1 && IsDigit(semester[0])
    ensures SemesterThenDash(semester + ['-'] + y) == Some(Piece(semester, y))
  {
    var s := semester + ['-'] + y;
    assert s[..1] == semester && s[2..] == y;
  }

  lemma ExtensionOf(ext: string, rest: string)
    requires |ext| >= 1 && AllOf(ext, IsWordChar)
    requires rest == [] || !IsWordChar(rest[0])
    ensures Extension(ext + rest) == Some(Piece(ext, rest))
  {
    SpanAll(ext, rest, IsWordChar);
    assert (ext + rest)[..|ext|] == ext && (ext + rest)[|ext|..] == rest;
  }

  lemma ParseTailPlain(teacher: string, r: string, ext: Piece)
    requires AllOf(teacher, TeacherChar)
    requires Extension(r) == Some(ext)
    ensures ParseTail(teacher + ['.'] + r) == Some(TailMatch(Tail(teacher, None, ext.field), ext.rest))
  {
    var s := teacher + ['.'] + r;
    SpanStops(teacher, '.', r, TeacherChar);
    assert s[..|teacher|] == teacher;
  }

  lemma ParseTailAt(teacher: string, g: string, r: string, ext: Piece)
    requires AllOf(teacher, TeacherChar) && AllOf(g, DoginfoChar)
    requires Extension(r) == Some(ext)
    ensures ParseTail(teacher + ['@'] + (g + ['.'] + r))
      == Some(TailMatch(Tail(teacher, Some(g), ext.field), ext.rest))
  {
    var s6 := g + ['.'] + r;
    var s := teacher + ['@'] + s6;
    SpanStops(teacher, '@', s6, TeacherChar);
    assert s[..|teacher|] == teacher;
    SpanStops(g, '.', r, DoginfoChar);
    assert s6[..|g|] == g;
  }

  /** The tail splitter inverts `TailText`. */
  lemma ParseTailOf(tl: Tail, rest: string)
    requires TailWellFormed(tl)
    requires rest == [] || !IsWordChar(rest[0])
    ensures ParseTail(TailText(tl) + rest) == Some(TailMatch(tl, rest))
  {
    ExtensionOf(tl.ext, rest);
    TailTextShape(tl, rest);
    if tl.doginfo.Some? {
      ParseTailAt(tl.teacher, tl.doginfo.value, tl.ext + rest, Piece(tl.ext, rest));
    } else {
      ParseTailPlain(tl.teacher, tl.ext + rest, Piece(tl.ext, rest));
    }
  }

  function TailOf(f: FileFields): Tail {
    Tail(f.teacher, f.doginfo, f.ext)
  }

  lemma ComposeShape(f: FileFields, rest: string)
    ensures Compose(f) + rest
      == f.subject + ['-'] + (f.number + ['-'] + (f.date + ['-'] + (f.course + ['-']
         + (f.semester + ['-'] + (TailText(TailOf(f)) + rest)))))
  {
  }

  /** Completeness: text the grammar generates is split back into its groups. */
  lemma ParseComposed(f: FileFields, rest: string)
    requires WellFormed(f)
    requires rest == [] || !IsWordChar(rest[0])
    ensures ParseFileName(Compose(f) + rest) == Some(f)
  {
    var t := TailText(TailOf(f)) + rest;
    var s4 := f.semester + ['-'] + t;
    var s3 := f.course + ['-'] + s4;
    var s2 := f.date + ['-'] + s3;
    var s1 := f.number + ['-'] + s2;
    var s := f.subject + ['-'] + s1;
    assert Compose(f) + rest == s by { ComposeShape(f, rest); }
    assert RunThenDash(s, SubjectChar) == Some(Piece(f.subject, s1)) by {
      RunThenDashOf(f.subject, s1, SubjectChar);
    }
    assert RunThenDash(s1, NumberChar) == Some(Piece(f.number, s2)) by {
      RunThenDashOf(f.number, s2, NumberChar);
    }
    assert DateThenDash(s2) == Some(Piece(f.date, s3)) by { DateThenDashOf(f.date, s3); }
    assert CourseThenDash(s3) == Some(Piece(f.course, s4)) by { CourseThenDashOf(f.course, s4); }
    assert SemesterThenDash(s4) == Some(Piece(f.semester, t)) by {
      SemesterThenDashOf(f.semester, t);
    }
    assert ParseTail(t) == Some(TailMatch(TailOf(f), rest)) by { ParseTailOf(TailOf(f), rest); }
  }

  /** Soundness: a split is a match of the grammar. */
  lemma ParseSound(s: string)
    requires ParseFileName(s).Some?
    ensures Matches(s, ParseFileName(s).value)
  {
    var f := ParseFileName(s).value;
    var subject := RunThenDash(s, SubjectChar).value;
    var number := RunThenDash(subject.rest, NumberChar).value;
    var date := DateThenDash(number.rest).value;
    var course := CourseThenDash(date.rest).value;
    var semester := SemesterThenDash(course.rest).value;
    var tail := ParseTail(semester.rest).value;
    ComposeShape(f, tail.after);
    assert s == Compose(f) + tail.after;
    assert s[..|Compose(f)|] == Compose(f);
  }

  /** `FILE_REGEX.match` has at most one outcome, and the splitter finds it:
      the split is `f` exactly when `s` matches the grammar with groups `f`. */
  lemma ParseFileNameIff(s: string, f: FileFields)
    ensures ParseFileName(s) == Some(f) <==> Matches(s, f)
  {
    if ParseFileName(s) == Some(f) {
      ParseSound(s);
    }
    if Matches(s, f) {
      var n := |Compose(f)|;
      assert s == Compose(f) + s[n..];
      ParseComposed(f, s[n..]);
    }
  }

  /** Each group keeps to its character class (subject non-empty without '-'
      or '.', number from digits, '.' and '_', date empty or 8 digits, course
      1-2 digits, semester one digit, teacher without '@' or '.', doginfo
      without '.', extension one or more word characters). */
  lemma ParsedFieldsWellFormed(s: string)
    requires ParseFileName(s).Some?
    ensures WellFormed(ParseFileName(s).value)
  {
    ParseSound(s);
  }

  /** Only the start is anchored: whatever follows the extension is ignored. */
  lemma TrailingTextIgnored(f: FileFields, rest: string)
    requires WellFormed(f)
    requires rest != [] && !IsWordChar(rest[0])
    ensures ParseFileName(Compose(f) + rest) == ParseFileName(Compose(f))
  {
    ParseComposed(f, rest);
    ParseComposed(f, []);
    assert Compose(f) + [] == Compose(f);
  }

  /** "Менеджмент_в_ПД--20240203-3-2-.png": empty number, the date 20240203,
      course 3, semester 2, empty teacher, no doginfo, extension "png". */
  lemma ManagementExample()
    ensures ParseFileName("Менеджмент_в_ПД--20240203-3-2-.png")
      == Some(FileFields("Менеджмент_в_ПД", "", "20240203", "3", "2", "", None, "png"))
  {
    var f := FileFields("Менеджмент_в_ПД", "", "20240203", "3", "2", "", None, "png");
    assert WellFormed(f) by {
      assert AllOf(f.subject, SubjectChar);
      assert AllOf(f.date, IsDigit);
      assert AllOf(f.ext, IsWordChar);
    }
    assert Compose(f) + [] == "Менеджмент_в_ПД--20240203-3-2-.png";
    ParseComposed(f, []);
  }
}
