// The bot's inline keyboards: every button is its label and the callback
// data Telegram sends back when it is pressed. A keyboard is its rows.

module Markup {
  import opened Wrappers
  import opened PyStr
  import opened Dicts

  datatype Button = Button(text: string, data: string)

  type Keyboard = seq<seq<Button>>

  /** A message text with its keyboard. */
  datatype Menu = Menu(caption: string, keyboard: Keyboard)

  // ---------------------------------------------------------------- texts

  const PreviousLabel := "\U{2B05}\U{FE0F}"
  const NextLabel := "\U{27A1}\U{FE0F}"
  const NoopLabel := " "
  const DownloadLabel := "Скачать файл"
  const AddFiltersLabel := "\U{2699}\U{FE0F} Фильтры"
  const ClearFiltersLabel := "\U{1F9F9} Очистить"
  const DoneLabel := "\U{2705} Готово"
  const BackLabel := "\U{2B05}\U{FE0F} Назад"
  const CancelLabel := "\U{274C} Отмена"
  const EmptyFilters := "Пусто"
  /** The filters question up to its `{current}` placeholder. */
  const AskFilters := "Хотите добавить к запросу фильтры?\nДействующие:\n"

  /** The tag names shown to users, in the order they are offered. */
  const TagLabels: Dict := [
    ("subject", "Предмет"), ("course", "Курс"), ("semester", "Семестр"),
    ("number", "Номер лекции"), ("date", "Дата"), ("teacher", "Преподаватель"),
    ("doginfo", "Подпись")]

  // ---------------------------------------------------------------- report pages

  /** The callback of a page-turn button: "rep_{report_id}_{page_idx}". */
  function NavData(id: string, idx: int): string {
    "rep_" + id + "_" + IntToString(idx)
  }

  /** `report_keyboard`: back, "{page_idx+1}/{total}", forward; then download. */
  function ReportKeyboard(id: string, idx: int, total: int, docId: string): (kb: Keyboard)
    ensures |kb| == 2 && |kb[0]| == 3 && |kb[1]| == 1
  {
    var prev := if idx > 0 then Button(PreviousLabel, NavData(id, idx - 1)) else Button(NoopLabel, "noop");
    var index := Button(IntToString(idx + 1) + "/" + IntToString(total), "noop");
    var next := if idx < total - 1 then Button(NextLabel, NavData(id, idx + 1)) else Button(" ", "noop");
    [[prev, index, next], [Button(DownloadLabel, "download:" + docId)]]
  }

  /** The middle label reads back as the 1-based page and the total. */
  lemma IndexLabelReadsBack(id: string, idx: int, total: int, docId: string)
    ensures var parts := Split(ReportKeyboard(id, idx, total, docId)[0][1].text, '/');
      |parts| == 2 && ParseInt(parts[0]) == Some(idx + 1) && ParseInt(parts[1]) == Some(total)
  {
    var a, b := IntToString(idx + 1), IntToString(total);
    assert Join([a, b], '/') == a + "/" + b;
    SplitJoin([a, b], '/');
    ParseIntToString(idx + 1);
    ParseIntToString(total);
  }

  // ---------------------------------------------------------------- filters menu

  /** The caption lines " * {label} = {value}", or None for the `KeyError` of a
      key without a label. */
  function FilterLines(filters: Dict): (r: Option<seq<string>>)
    ensures r.None? <==> exists i | 0 <= i < |filters| :: Get(TagLabels, filters[i].0).None?
    ensures r.Some? ==>
      && |r.value| == |filters|
      && forall i | 0 <= i < |filters| ::
           r.value[i] == " * " + Get(TagLabels, filters[i].0).value + " = " + filters[i].1
  {
    if filters == [] then Some([])
    else
      var rest := FilterLines(filters[1..]);
      assert forall i | 1 <= i < |filters| :: filters[i] == filters[1..][i - 1];
      match Get(TagLabels, filters[0].0)
      case None => None
      case Some(name) =>
        if rest.None? then None
        else Some([" * " + name + " = " + filters[0].1] + rest.value)
  }

  /** `kb_initial`: the question with the current filters joined by ",\n"
      ("Пусто" when there are none), and the four filter-menu buttons. */
  function KbInitial(filters: Dict): Option<Menu> {
    match FilterLines(filters)
    case None => None
    case Some(lines) =>
      var joined := JoinWith(lines, ",\n");
      var current := if joined == "" then EmptyFilters else joined;
      Some(Menu(AskFilters + current,
                [[Button(AddFiltersLabel, "filters:start"), Button(ClearFiltersLabel, "filters:clear")],
                 [Button(DoneLabel, "filters:done"), Button(CancelLabel, "filters:cancel")]]))
  }

  lemma JoinLinesHead(lines: seq<string>)
    requires |lines| >= 1 && |lines[0]| >= 1
    ensures |JoinWith(lines, ",\n")| >= 1 && JoinWith(lines, ",\n")[0] == lines[0][0]
  {
  }

  /** The caption says "Пусто" exactly when there are no filters, and the menu
      exists exactly when every filter key has a label. */
  lemma KbInitialSpec(filters: Dict)
    ensures KbInitial(filters).None? <==> exists i | 0 <= i < |filters| :: Get(TagLabels, filters[i].0).None?
    ensures KbInitial(filters).Some? ==>
      (KbInitial(filters).value.caption == AskFilters + EmptyFilters <==> filters == [])
  {
    if KbInitial(filters).Some? && filters != [] {
      var lines := FilterLines(filters).value;
      JoinLinesHead(lines);
      var caption := KbInitial(filters).value.caption;
      assert caption[|AskFilters|] == ' ';
    }
  }

  // ---------------------------------------------------------------- tag and value choice

  /** One button per labelled tag except "date", in label order. */
  function ChooseTagRows(labels: Dict): (rows: Keyboard)
    ensures forall row | row in rows :: |row| == 1
  {
    if labels == [] then []
    else if labels[0].0 == "date" then ChooseTagRows(labels[1..])
    else [[Button(labels[0].1, "filters:tag:" + labels[0].0)]] + ChooseTagRows(labels[1..])
  }

  /** The rows follow the labels' order: the rows of a run of labels are
      those of its first part, then those of the rest. */
  lemma {:induction false} ChooseTagRowsAppend(a: Dict, b: Dict)
    ensures ChooseTagRows(a + b) == ChooseTagRows(a) + ChooseTagRows(b)
    decreases |a|
  {
    if a != [] {
      assert (a + b)[1..] == a[1..] + b;
      assert (a + b)[0] == a[0];
      ChooseTagRowsAppend(a[1..], b);
    } else {
      assert a + b == b;
    }
  }

  /** A single label gives one button for its tag, none for "date". */
  lemma ChooseTagRowsOne(key: string, name: string)
    ensures ChooseTagRows([(key, name)])
      == if key == "date" then [] else [[Button(name, "filters:tag:" + key)]]
  {
    assert [(key, name)][1..] == [];
  }

  /** `kb_choose_tag`. */
  function KbChooseTag(): Keyboard {
    ChooseTagRows(TagLabels) + [[Button(BackLabel, "filters:back")]]
  }

  /** The callback of the i-th value button: "filters:value:{tag}:{i}". */
  function ValueData(tag: string, i: nat): string {
    "filters:value:" + tag + ":" + NatToString(i)
  }

  /** `kb_values`: the i-th value labelled by itself, then a back button. */
  function KbValues(tag: string, values: seq<string>): Keyboard {
    seq(|values|, i requires 0 <= i < |values| => [Button(values[i], ValueData(tag, i))])
      + [[Button(BackLabel, "filters:back")]]
  }

  /** One single-button row per value, in order, then the back button alone. */
  lemma KbValuesShape(tag: string, values: seq<string>)
    ensures |KbValues(tag, values)| == |values| + 1
    ensures forall i | 0 <= i < |values| :: KbValues(tag, values)[i] == [Button(values[i], ValueData(tag, i))]
    ensures KbValues(tag, values)[|values|] == [Button(BackLabel, "filters:back")]
  {
  }
}
