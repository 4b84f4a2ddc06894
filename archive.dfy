/** The weekly report archive page: `ArchiveManager` keeps the list of
    reports, reads and writes it through the browser's storage area, seeds
    five sample reports on first use, lets a report of this week or last
    week be edited, and shows the list newest first.

    Dates of reports are day numbers (see module Calendar); `now` is an
    instant in milliseconds, passed in where the page reads the clock. */
module Archive {
  import opened Calendar
  import opened Weeks
  import opened Text

  datatype Option<T> = None | Some(value: T)

  /** Why the page turns an edit down. */
  datatype Refusal = NotFound | NotEditable | EmptyField

  /** What a guarded action does: goes ahead, or is refused with an alert. */
  datatype Outcome = Done | Refused(why: Refusal)

  datatype Result<T> = Ok(value: T) | Err(error: Refusal)

  /** The plain value of a report, as `JSON.stringify` writes it. */
  datatype ReportData = ReportData(id: int, date: int, title: string, author: string, content: string, tasks: string)

  /** A report object of the list; the page edits its fields in place. */
  class Report {
    var id: int
    var date: int
    var title: string
    var author: string
    var content: string
    var tasks: string

    constructor (v: ReportData)
      ensures Value() == v
    {
      id, date, title, author, content, tasks := v.id, v.date, v.title, v.author, v.content, v.tasks;
    }

    function Value(): ReportData
      reads this
    {
      ReportData(id, date, title, author, content, tasks)
    }
  }

  /** The values of a list of report objects, in list order. */
  function Snapshot(rs: seq<Report>): (s: seq<ReportData>)
    reads rs
    ensures |s| == |rs|
    ensures forall i :: 0 <= i < |rs| ==> s[i] == rs[i].Value()
  {
    if rs == [] then [] else Snapshot(rs[..|rs| - 1]) + [rs[|rs| - 1].Value()]
  }

  predicate Distinct(rs: seq<Report>) {
    forall i, j :: 0 <= i < j < |rs| ==> rs[i] != rs[j]
  }

  /** The `afet_reports` entry of the storage area: either absent, or the
      serialized report list, held here as the list of values it encodes. */
  class Storage {
    var item: Option<seq<ReportData>>

    constructor (item: Option<seq<ReportData>>)
      ensures this.item == item
    {
      this.item := item;
    }
  }

  // ---------------------------------------------------------------------
  // Looking a report up by id

  /** `reports.find(r => r.id === id)`, as a position: the first report
      carrying the id, or none when no report does. */
  function FindReport(s: seq<ReportData>, id: int): (k: Option<nat>)
    ensures k.Some? ==> k.value < |s| && s[k.value].id == id
    ensures k.Some? ==> forall j :: 0 <= j < k.value ==> s[j].id != id
    ensures k.None? <==> forall j :: 0 <= j < |s| ==> s[j].id != id
  {
    if s == [] then None
    else if s[0].id == id then Some(0)
    else match FindReport(s[1..], id)
      case None => None
      case Some(j) => Some(j + 1)
  }

  /** Lists whose ids agree position by position find every id at the
      same place. */
  lemma {:induction false} FindReportSameIds(s: seq<ReportData>, t: seq<ReportData>, id: int)
    requires |s| == |t| && forall i :: 0 <= i < |s| ==> s[i].id == t[i].id
    ensures FindReport(s, id) == FindReport(t, id)
    decreases |s|
  {
    if s != [] && s[0].id != id {
      FindReportSameIds(s[1..], t[1..], id);
    }
  }

  // ---------------------------------------------------------------------
  // The edit guard and the edit

  /** The guard `toggleEdit` and `saveReport` share: the report must exist
      and lie in the edit window. */
  function EditGuard(s: seq<ReportData>, id: int, now: int): (g: Outcome)
    ensures g == Refused(NotFound) <==> forall j :: 0 <= j < |s| ==> s[j].id != id
    ensures g == Done <==> exists k :: (0 <= k < |s| && s[k].id == id
      && (forall j :: 0 <= j < k ==> s[j].id != id) && IsEditable(s[k].date, now))
    ensures g != Done ==> g.why != EmptyField
  {
    match FindReport(s, id)
    case None => Refused(NotFound)
    case Some(k) => if IsEditable(s[k].date, now) then Done else Refused(NotEditable)
  }

  /** A report with the three edited fields set to the trimmed inputs. */
  function Edited(r: ReportData, title: string, content: string, tasks: string): ReportData {
    r.(title := Trim(title), content := Trim(content), tasks := Trim(tasks))
  }

  /** `saveReport` on the list of values: refused when the report is
      missing or out of the edit window, or when a trimmed field is empty;
      otherwise the first report with the id gets the trimmed title,
      content and tasks. */
  function EditReports(s: seq<ReportData>, id: int, title: string, content: string, tasks: string, now: int): (r: Result<seq<ReportData>>)
    ensures EditGuard(s, id, now) != Done ==> r == Err(EditGuard(s, id, now).why)
    ensures r.Ok? ==> EditGuard(s, id, now) == Done && |r.value| == |s|
  {
    match EditGuard(s, id, now)
    case Refused(why) => Err(why)
    case Done =>
      var k := FindReport(s, id).value;
      if Trim(title) == [] || Trim(content) == [] || Trim(tasks) == [] then Err(EmptyField)
      else Ok(s[k := Edited(s[k], title, content, tasks)])
  }

  /** Past the guard, an edit is refused exactly when one of the three
      inputs is nothing but whitespace. */
  lemma EditRefusedOnBlank(s: seq<ReportData>, id: int, title: string, content: string, tasks: string, now: int)
    requires EditGuard(s, id, now) == Done
    ensures EditReports(s, id, title, content, tasks, now).Err?
      <==> AllWhitespace(title) || AllWhitespace(content) || AllWhitespace(tasks)
    ensures EditReports(s, id, title, content, tasks, now).Err? ==>
      EditReports(s, id, title, content, tasks, now).error == EmptyField
  {
    TrimEmptyIff(title);
    TrimEmptyIff(content);
    TrimEmptyIff(tasks);
  }

  /** A successful edit changes only the report it found: that report gets
      the trimmed title, content and tasks and keeps its id, date and
      author, and every other report stays as it was. */
  lemma EditOnlyTarget(s: seq<ReportData>, id: int, title: string, content: string, tasks: string, now: int)
    requires EditReports(s, id, title, content, tasks, now).Ok?
    ensures FindReport(s, id).Some?
    ensures var v, k := EditReports(s, id, title, content, tasks, now).value, FindReport(s, id).value;
      && v[k].id == s[k].id && v[k].date == s[k].date && v[k].author == s[k].author
      && v[k].title == Trim(title) && v[k].content == Trim(content) && v[k].tasks == Trim(tasks)
      && (forall i :: 0 <= i < |s| && i != k ==> v[i] == s[i])
  {
  }

  /** Saving the same inputs a second time changes nothing more: the report
      is still found, still editable, and its fields are already trimmed. */
  lemma EditIdempotent(s: seq<ReportData>, id: int, title: string, content: string, tasks: string, now: int)
    requires EditReports(s, id, title, content, tasks, now).Ok?
    ensures var v := EditReports(s, id, title, content, tasks, now).value;
      EditReports(v, id, title, content, tasks, now) == Ok(v)
  {
    var v := EditReports(s, id, title, content, tasks, now).value;
    EditOnlyTarget(s, id, title, content, tasks, now);
    var k := FindReport(s, id).value;
    FindReportSameIds(s, v, id);
    assert EditGuard(v, id, now) == EditGuard(s, id, now);
    TrimIdempotent(title);
    TrimIdempotent(content);
    TrimIdempotent(tasks);
    assert Edited(v[k], title, content, tasks) == v[k];
    assert v[k := v[k]] == v;
  }

  // ---------------------------------------------------------------------
  // The sample reports

  /** The texts of a sample report. */
  datatype SampleText = SampleText(title: string, author: string, content: string, tasks: string)

  const CurrentWeekText := SampleText("Haftalık Proje Raporu", "Kullanıcı A",
    "Bu hafta React component geliştirmeleri ve API entegrasyonları üzerinde çalışıldı.",
    "Component tasarımı, API entegrasyonu, Unit testler")
  const LastWeekText := SampleText("Önceki Hafta Raporu", "Kullanıcı B",
    "Geçen hafta veritabanı optimizasyonları ve performans iyileştirmeleri yapıldı.",
    "Veritabanı optimizasyonu, Query iyileştirmeleri")
  const TwoWeeksAgoText := SampleText("2 Hafta Önceki Rapor", "Kullanıcı C",
    "Authentication sistemi geliştirildi ve test edildi.",
    "JWT implementasyonu, Güvenlik testleri")
  const ThreeWeeksAgoText := SampleText("3 Hafta Önceki Rapor", "Kullanıcı D",
    "Frontend tasarım sistemi oluşturuldu.",
    "Design system, Component library")
  const OneMonthAgoText := SampleText("1 Ay Önceki Rapor", "Kullanıcı E",
    "Proje başlangıç aşaması tamamlandı.",
    "Proje kurulumu, İlk sprint planlaması")

  function Sample(id: int, date: int, t: SampleText): ReportData {
    ReportData(id, date, t.title, t.author, t.content, t.tasks)
  }

  /** The five reports `generateSampleReports` makes for day `today`. */
  function SampleReports(today: int): (s: seq<ReportData>)
    ensures |s| == 5
    ensures s[0].id == 1 && s[1].id == 2 && s[2].id == 3 && s[3].id == 4 && s[4].id == 5
    ensures s[0].date == today && s[1].date == today - 7 && s[2].date == today - 14
    ensures s[3].date == today - 21 && s[4].date == today - 30
  {
    [ Sample(1, today, CurrentWeekText),
      Sample(2, today - 7, LastWeekText),
      Sample(3, today - 14, TwoWeeksAgoText),
      Sample(4, today - 21, ThreeWeeksAgoText),
      Sample(5, today - 30, OneMonthAgoText) ]
  }

  /** The report of today and the report of a week ago can be edited, at
      any instant of the day the samples are made. */
  lemma SamplesEditable(now: int)
    ensures IsEditable(SampleReports(DayOf(now))[0].date, now)
    ensures IsEditable(SampleReports(DayOf(now))[1].date, now)
  {
    EditableToday(now);
    EditableSevenDaysAgo(now);
  }

  /** The reports of three weeks and of a month ago can never be edited, at
      any instant of the day the samples are made; the report of two weeks
      ago can be, next to a 53-week ISO year (TwoWeeksAgoEditableAfterLongYear). */
  lemma SamplesNotEditable(now: int)
    ensures !IsEditable(SampleReports(DayOf(now))[3].date, now)
    ensures !IsEditable(SampleReports(DayOf(now))[4].date, now)
  {
    OldReportNotEditable(DayOf(now) - 21, now);
    OldReportNotEditable(DayOf(now) - 30, now);
  }

  /** Every sample report other than report 1 (today) lies in an earlier
      ISO week than the day the samples are made. */
  lemma SamplesInEarlierWeeks(today: int, i: int)
    requires 1 <= i < 5
    ensures ExactWeeksBetween(today, SampleReports(today)[i].date) >= 1
  {
    var d := SampleReports(today)[i].date;
    assert MondayOf(d) < MondayOf(today);
  }

  // ---------------------------------------------------------------------
  // The display order

  /** Newest date first. */
  predicate NewestFirst(s: seq<ReportData>) {
    forall i, j :: 0 <= i < j < |s| ==> s[i].date >= s[j].date
  }

  /** Puts x into a newest-first list, in front of every report of the same
      date or older. */
  function InsertByDate(x: ReportData, s: seq<ReportData>): (r: seq<ReportData>)
    requires NewestFirst(s)
    ensures NewestFirst(r)
    ensures |r| == |s| + 1 && (r[0] == x || (s != [] && r[0] == s[0]))
  {
    if s == [] || x.date >= s[0].date then
      [x] + s
    else
      var t := InsertByDate(x, s[1..]);
      PrependNewest(s[0], t);
      [s[0]] + t
  }

  /** Inserting adds x and keeps every report already there. */
  lemma {:induction false} InsertByDatePermutes(x: ReportData, s: seq<ReportData>)
    requires NewestFirst(s)
    ensures multiset(InsertByDate(x, s)) == multiset(s) + multiset{x}
    decreases |s|
  {
    if s != [] && x.date < s[0].date {
      InsertByDatePermutes(x, s[1..]);
      assert s == [s[0]] + s[1..];
    }
  }

  /** A report no older than the head of a newest-first list can go in
      front of it. */
  lemma PrependNewest(a: ReportData, t: seq<ReportData>)
    requires NewestFirst(t) && (t == [] || a.date >= t[0].date)
    ensures NewestFirst([a] + t)
  {
  }

  /** The `sort` in `renderReports`: the comparator `b.date - a.date` puts
      the newest report first, and the sort is stable, so reports of one
      date keep their list order. */
  function SortNewestFirst(s: seq<ReportData>): (r: seq<ReportData>)
    ensures |r| == |s| && NewestFirst(r)
  {
    if s == [] then [] else InsertByDate(s[0], SortNewestFirst(s[1..]))
  }

  /** Sorting reorders the reports and neither drops nor adds one. */
  lemma {:induction false} SortPermutes(s: seq<ReportData>)
    ensures multiset(SortNewestFirst(s)) == multiset(s)
    decreases |s|
  {
    if s != [] {
      SortPermutes(s[1..]);
      InsertByDatePermutes(s[0], SortNewestFirst(s[1..]));
      assert s == [s[0]] + s[1..];
    }
  }

  /** A list already newest first is shown in its own order. */
  lemma {:induction false} SortKeepsNewestFirst(s: seq<ReportData>)
    requires NewestFirst(s)
    ensures SortNewestFirst(s) == s
    decreases |s|
  {
    if s != [] {
      SortKeepsNewestFirst(s[1..]);
      assert s == [s[0]] + s[1..];
    }
  }

  /** The reports of s dated day d, in the order of s. */
  function OfDate(s: seq<ReportData>, d: int): (r: seq<ReportData>)
    ensures |r| <= |s|
    ensures forall i :: 0 <= i < |r| ==> r[i].date == d
  {
    if s == [] then [] else (if s[0].date == d then [s[0]] else []) + OfDate(s[1..], d)
  }

  /** The reports of date d in a list with a in front: a when it has that
      date, then those of the rest. */
  lemma OfDateCons(a: ReportData, t: seq<ReportData>, d: int)
    ensures OfDate([a] + t, d) == (if a.date == d then [a] else []) + OfDate(t, d)
  {
    assert ([a] + t)[1..] == t;
  }

  /** x goes in front of every report of its own date. */
  lemma {:induction false} InsertByDateStable(x: ReportData, s: seq<ReportData>, d: int)
    requires NewestFirst(s)
    ensures OfDate(InsertByDate(x, s), d) == (if x.date == d then [x] else []) + OfDate(s, d)
    decreases |s|
  {
    if s != [] && x.date < s[0].date {
      var t := InsertByDate(x, s[1..]);
      var head, mid := if s[0].date == d then [s[0]] else [], if x.date == d then [x] else [];
      calc {
        OfDate(InsertByDate(x, s), d);
        OfDate([s[0]] + t, d);
        { OfDateCons(s[0], t, d); }
        head + OfDate(t, d);
        { InsertByDateStable(x, s[1..], d); }
        head + (mid + OfDate(s[1..], d));
        { assert head == [] || mid == []; }
        mid + (head + OfDate(s[1..], d));
        { assert s == [s[0]] + s[1..]; OfDateCons(s[0], s[1..], d); }
        mid + OfDate(s, d);
      }
    } else {
      OfDateCons(x, s, d);
    }
  }

  /** The sort is stable: the reports of any one date come out in the order
      they have in the list. */
  lemma {:induction false} SortStable(s: seq<ReportData>, d: int)
    ensures OfDate(SortNewestFirst(s), d) == OfDate(s, d)
    decreases |s|
  {
    if s != [] {
      SortStable(s[1..], d);
      InsertByDateStable(s[0], SortNewestFirst(s[1..]), d);
    }
  }

  /** The sample reports are made newest first, so a freshly seeded page
      shows them in the order they were made. */
  lemma SamplesShownInOrder(today: int)
    ensures SortNewestFirst(SampleReports(today)) == SampleReports(today)
  {
    SortKeepsNewestFirst(SampleReports(today));
  }

  // ---------------------------------------------------------------------
  // Report cards

  /** The data a report card shows: the report, its ISO week, whether it is
      editable and its week label. */
  datatype Card = Card(report: ReportData, week: WeekInfo, editable: bool, weekLabel: WeekLabel)

  /** `createReportCard` without the markup. */
  function ReportCard(r: ReportData, now: int): (c: Card)
    ensures c.report == r && c.week == WeekOfDay(r.date)
    ensures c.editable == IsEditable(r.date, now)
    ensures c.weekLabel.cls in {Current, LastWeek} <==> c.editable
  {
    ReportWeekOfDay(r.date);
    LabelMatchesEditable(r.date, now);
    Card(r, GetWeekInfo(MidnightOf(r.date)), IsEditable(r.date, now), GetWeekLabel(r.date, now))
  }

  /** The cards of a list of reports, in list order. */
  function Cards(rs: seq<ReportData>, now: int): (cs: seq<Card>)
    ensures |cs| == |rs|
    ensures forall i :: 0 <= i < |rs| ==> cs[i] == ReportCard(rs[i], now)
  {
    if rs == [] then [] else Cards(rs[..|rs| - 1], now) + [ReportCard(rs[|rs| - 1], now)]
  }

  /** What a page load makes of the stored entry: the stored list, or the
      sample reports of the current day when nothing is stored. */
  function Loaded(item: Option<seq<ReportData>>, today: int): seq<ReportData> {
    match item
    case Some(s) => s
    case None => SampleReports(today)
  }

  // ---------------------------------------------------------------------
  // The page object

  class ArchiveManager {
    var reports: seq<Report>
    const storage: Storage

    /** The report objects of the list are distinct, so editing one leaves
        the others alone. */
    ghost predicate Valid()
      reads this
    {
      Distinct(reports)
    }

    /** The list as values, in list order. */
    function Contents(): seq<ReportData>
      reads this, reports
    {
      Snapshot(reports)
    }

    /** The constructor and `init`: load the list, then render it. */
    constructor (storage: Storage, now: int)
      modifies storage
      ensures this.storage == storage && Valid()
      ensures Contents() == Loaded(old(storage.item), DayOf(now))
      ensures storage.item == Some(Contents())
    {
      this.storage := storage;
      reports := [];
      new;
      LoadReports(now);
      ghost var loaded := Contents();
      var cards := RenderReports(now);
      assert Contents() == loaded;
    }

    /** `push` of a new report object holding v. */
    static method Push(rs: seq<Report>, v: ReportData) returns (rs': seq<Report>)
      ensures |rs'| == |rs| + 1 && rs' == rs + [rs'[|rs|]] && fresh(rs'[|rs|])
      ensures Snapshot(rs') == Snapshot(rs) + [v]
      ensures Distinct(rs) ==> Distinct(rs')
    {
      var r := new Report(v);
      rs' := rs + [r];
      assert rs'[..|rs|] == rs;
    }

    /** A fresh report object per value, pushed in order: how `JSON.parse`
        rebuilds the stored list and how the sample reports are made. */
    static method NewReports(data: seq<ReportData>) returns (rs: seq<Report>)
      ensures Snapshot(rs) == data && Distinct(rs)
      ensures forall r :: r in rs ==> fresh(r)
    {
      rs := [];
      var i := 0;
      while i < |data|
        invariant 0 <= i <= |data|
        invariant Snapshot(rs) == data[..i] && Distinct(rs)
        invariant forall r :: r in rs ==> fresh(r)
      {
        assert data[..i + 1] == data[..i] + [data[i]];
        rs := Push(rs, data[i]);
        i := i + 1;
      }
      assert data[..i] == data;
    }

    /** `generateSampleReports`: the five sample reports, pushed in turn,
        from the current week back to a month ago. */
    static method GenerateSampleReports(now: int) returns (rs: seq<Report>)
      ensures Snapshot(rs) == SampleReports(DayOf(now)) && Distinct(rs)
      ensures forall r :: r in rs ==> fresh(r)
    {
      rs := NewReports(SampleReports(DayOf(now)));
    }

    /** `saveReports`: the store is overwritten with the current list. */
    method SaveReports()
      modifies storage
      ensures storage.item == Some(Contents())
      ensures Contents() == old(Contents())
    {
      storage.item := Some(Contents());
    }

    /** `loadReports`: the stored list when there is one; otherwise the
        sample reports, which are then saved. Either way the store ends up
        holding exactly the list. */
    method LoadReports(now: int)
      modifies this, storage
      ensures Valid()
      ensures Contents() == Loaded(old(storage.item), DayOf(now))
      ensures storage.item == Some(Contents())
      ensures forall r :: r in reports ==> fresh(r)
    {
      match storage.item
      case Some(data) =>
        reports := NewReports(data);
      case None =>
        reports := GenerateSampleReports(now);
        SaveReports();
    }

    /** `toggleEdit`'s guard: the form opens only for a report of this week
        or last week; the form itself is markup. */
    method ToggleEdit(reportId: int, now: int) returns (outcome: Outcome)
      ensures outcome == EditGuard(Contents(), reportId, now)
    {
      var s := Contents();
      match FindReport(s, reportId)
      case None =>
        outcome := Refused(NotFound);
      case Some(k) =>
        var report := reports[k];
        assert report.Value() == s[k];
        if !IsEditable(report.date, now) {
          outcome := Refused(NotEditable);
        } else {
          outcome := Done;
        }
    }

    /** `saveReport` with the three form inputs as they were typed: refused
        with nothing changed, or the report object's title, content and
        tasks set in place to the trimmed inputs, the list saved and shown
        again. */
    method SaveReport(reportId: int, title: string, content: string, tasks: string, now: int) returns (outcome: Outcome)
      requires Valid()
      modifies reports, storage
      ensures reports == old(reports) && Valid()
      ensures match EditReports(old(Contents()), reportId, title, content, tasks, now)
        case Ok(v) => outcome == Done && Contents() == v && storage.item == Some(v)
        case Err(why) => outcome == Refused(why) && Contents() == old(Contents()) && storage.item == old(storage.item)
    {
      var s := Contents();
      var found := FindReport(s, reportId);
      if found.None? {
        assert EditReports(s, reportId, title, content, tasks, now) == Err(NotFound);
        return Refused(NotFound);
      }
      var k := found.value;
      var report := reports[k];
      assert report.Value() == s[k];
      if !IsEditable(report.date, now) {
        assert EditReports(s, reportId, title, content, tasks, now) == Err(NotEditable);
        return Refused(NotEditable);
      }
      var t, c, w := Trim(title), Trim(content), Trim(tasks);
      if t == [] || c == [] || w == [] {
        assert EditReports(s, reportId, title, content, tasks, now) == Err(EmptyField);
        return Refused(EmptyField);
      }
      assert EditReports(s, reportId, title, content, tasks, now) == Ok(s[k := s[k].(title := t, content := c, tasks := w)]);
      Commit(k, t, c, w, now);
      outcome := Done;
    }

    /** The accepted path of `saveReport`: the three fields of report k are
        set, the list is saved, and the page is shown again. */
    method Commit(k: nat, title: string, content: string, tasks: string, now: int)
      requires Valid() && k < |reports|
      modifies reports[k], storage
      ensures Contents() == old(Contents())[k := old(Contents())[k].(title := title, content := content, tasks := tasks)]
      ensures storage.item == Some(Contents())
    {
      SetTexts(k, title, content, tasks);
      ghost var v := Contents();
      SaveReports();
      var cards := RenderReports(now);
      assert Contents() == v;
    }

    /** The three assignments of `saveReport`: report k's object gets the
        new title, content and tasks; every other report is untouched. */
    method SetTexts(k: nat, title: string, content: string, tasks: string)
      requires Valid() && k < |reports|
      modifies reports[k]
      ensures Contents() == old(Contents())[k := old(Contents())[k].(title := title, content := content, tasks := tasks)]
    {
      ghost var v := Contents()[k := Contents()[k].(title := title, content := content, tasks := tasks)];
      var report := reports[k];
      report.title := title;
      report.content := content;
      report.tasks := tasks;
      forall i | 0 <= i < |reports|
        ensures reports[i].Value() == v[i]
      {
        if i != k {
          assert reports[i] != report;
        }
      }
    }

    /** `renderReports` without the markup: one card per report, newest
        first, from a sorted copy; the list itself keeps its order. */
    method RenderReports(now: int) returns (cards: seq<Card>)
      ensures cards == Cards(SortNewestFirst(Contents()), now)
    {
      var sorted := SortNewestFirst(Contents());
      cards := CardsInOrder(sorted, now);
    }

    /** The `forEach` of `renderReports`: a card per report, appended in
        the order of rs. */
    static method CardsInOrder(rs: seq<ReportData>, now: int) returns (cards: seq<Card>)
      ensures cards == Cards(rs, now)
    {
      cards := [];
      for i := 0 to |rs|
        invariant cards == Cards(rs[..i], now)
      {
        assert rs[..i + 1][..i] == rs[..i];
        cards := cards + [ReportCard(rs[i], now)];
      }
      assert rs[..|rs|] == rs;
    }
  }
}
