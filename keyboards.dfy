/**
 * The inline keyboards whose content depends on data: the specialization lists, the two
 * paginated course lists (registration and course change), the broadcast course browser
 * with search, selection marks and paging, and the project details keyboard. Each builder
 * is a function of the rows its queries would return.
 */
module Keyboards {
  import opened Wrappers
  import opened Strings
  import opened Records
  import Sorting

  /** An inline button: either a callback with its payload or a link. */
  datatype Button = Callback(text: string, data: string) | Link(text: string, url: string)

  type Row = seq<Button>

  function Min(a: int, b: int): int
  {
    if a <= b then a else b
  }

  // ------------------------------------------------------------ specializations

  const SpecializationPrefix: string := "spec_"
  const ChangeSpecializationPrefix: string := "change_spec_"

  /** One row per specialization, in table order, calling back `prefix` followed by its id. */
  function SpecializationRows(specs: seq<Specialization>, prefix: string): (rows: seq<Row>)
    ensures |rows| == |specs|
    ensures forall i :: 0 <= i < |specs| ==>
      |rows[i]| == 1 && rows[i][0].Callback? && rows[i][0].text == specs[i].name &&
      StartsWith(rows[i][0].data, prefix)
  {
    seq(|specs|, i requires 0 <= i < |specs| => [Callback(specs[i].name, prefix + NatToString(specs[i].id))])
  }

  /** What follows the prefix of each button reads back as its specialization's id. */
  lemma SpecializationRowsPayloads(specs: seq<Specialization>, prefix: string)
    ensures forall i :: 0 <= i < |specs| ==>
      var data := SpecializationRows(specs, prefix)[i][0].data;
      ParseNat(data[|prefix|..]) == Some(specs[i].id)
  {
    forall i | 0 <= i < |specs|
      ensures ParseNat(SpecializationRows(specs, prefix)[i][0].data[|prefix|..]) == Some(specs[i].id)
    {
      assert SpecializationRows(specs, prefix)[i][0].data[|prefix|..] == NatToString(specs[i].id);
      ParseNatToString(specs[i].id);
    }
  }

  /** `specialization_keyboard` (registration). */
  function SpecializationKeyboard(specs: seq<Specialization>): seq<Row>
  {
    SpecializationRows(specs, SpecializationPrefix)
  }

  /** `change_specialization_keyboard` (course change). */
  function ChangeSpecializationKeyboard(specs: seq<Specialization>): seq<Row>
  {
    SpecializationRows(specs, ChangeSpecializationPrefix)
  }

  // ------------------------------------------------------------ paginated course lists

  const CoursesPerPage: nat := 4

  /** `select(Course).where(Course.specialization_id == specId)`, in table order. */
  function CoursesOf(courses: seq<Course>, specId: nat): (r: seq<Course>)
    ensures |r| <= |courses|
    ensures forall c :: c in r <==> c in courses && c.specializationId == specId
  {
    if |courses| == 0 then []
    else
      assert courses == [courses[0]] + courses[1..];
      (if courses[0].specializationId == specId then [courses[0]] else []) + CoursesOf(courses[1..], specId)
  }

  /** `OFFSET start LIMIT n` on a query's rows. */
  function PageSlice<T>(all: seq<T>, start: nat, n: nat): (r: seq<T>)
    ensures |r| <= n
    ensures |r| == n || start + |r| >= |all|
    ensures n > 0 ==> (|r| == 0 <==> start >= |all|)
    ensures forall i :: 0 <= i < |r| ==> start + i < |all| && r[i] == all[start + i]
  {
    if start >= |all| then [] else all[start..Min(|all|, start + n)]
  }

  lemma PageSliceSorted<T>(all: seq<T>, le: (T, T) -> bool, start: nat, n: nat)
    requires Sorting.SortedBy(all, le)
    ensures Sorting.SortedBy(PageSlice(all, start, n), le)
  {
    if start < |all| {
      Sorting.SortedSlice(all, le, start, Min(|all|, start + n));
    }
  }

  /** The callback prefixes and button texts in which the two course pagers differ. */
  datatype Pager = Pager(coursePrefix: string, pagePrefix: string, backText: string, forwardText: string)

  /** `courses_keyboard`. */
  const StartPager := Pager("course_", "page_", "⬅️ Назад", "➡️ Вперед")

  /** `change_courses_keyboard`. */
  const ChangePager := Pager("change_course_", "changepage_", "Назад", "Вперед")

  /** `f"{prefix}{specialization_id}_{page}"` */
  function PageData(prefix: string, specId: nat, page: nat): string
  {
    prefix + NatToString(specId) + "_" + NatToString(page)
  }

  function CourseButton(p: Pager, c: Course): Button
  {
    Callback(c.name, p.coursePrefix + NatToString(c.id))
  }

  datatype CourseKeyboard = CourseKeyboard(courseRows: seq<Row>, nav: Row) {

    /** `inline_keyboard`: one row per course, then the navigation row only if it is non-empty. */
    function Rows(): (rows: seq<Row>)
      ensures |rows| == |courseRows| + (if |nav| > 0 then 1 else 0)
      ensures rows[..|courseRows|] == courseRows
      ensures |nav| > 0 ==> rows[|rows| - 1] == nav
    {
      if |nav| > 0 then courseRows + [nav] else courseRows
    }
  }

  /**
   * `courses_keyboard` / `change_courses_keyboard`: page `page` of the specialization's
   * courses (OFFSET page*4 LIMIT 4), a back button when `page > 0` and a forward button when
   * a course exists at index `(page+1)*4`; None only for an empty first page.
   */
  function CoursePage(p: Pager, courses: seq<Course>, specId: nat, page: nat): (r: Option<CourseKeyboard>)
    ensures var all := CoursesOf(courses, specId);
      && (r.None? <==> page == 0 && |all| == 0)
      && (r.Some? ==>
        && |r.value.courseRows| <= CoursesPerPage
        && (|r.value.courseRows| == CoursesPerPage || page * CoursesPerPage + |r.value.courseRows| >= |all|)
        && (forall i :: 0 <= i < |r.value.courseRows| ==>
              page * CoursesPerPage + i < |all| &&
              r.value.courseRows[i] == [CourseButton(p, all[page * CoursesPerPage + i])])
        && |r.value.nav| == (if page > 0 then 1 else 0) + (if (page + 1) * CoursesPerPage < |all| then 1 else 0)
        && (page > 0 ==> r.value.nav[0] == Callback(p.backText, PageData(p.pagePrefix, specId, page - 1)))
        && ((page + 1) * CoursesPerPage < |all| ==>
              r.value.nav[|r.value.nav| - 1] == Callback(p.forwardText, PageData(p.pagePrefix, specId, page + 1))))
  {
    var all := CoursesOf(courses, specId);
    var current := PageSlice(all, page * CoursesPerPage, CoursesPerPage);
    if |current| == 0 && page == 0 then None
    else
      var back := if page > 0 then [Callback(p.backText, PageData(p.pagePrefix, specId, page - 1))] else [];
      var forward :=
        if (page + 1) * CoursesPerPage < |all| then [Callback(p.forwardText, PageData(p.pagePrefix, specId, page + 1))]
        else [];
      Some(CourseKeyboard(seq(|current|, i requires 0 <= i < |current| => [CourseButton(p, current[i])]), back + forward))
  }

  /** Paging loses no course: the course at position j of the list is row j % 4 of page j / 4. */
  lemma CoursePageCovers(p: Pager, courses: seq<Course>, specId: nat, j: nat)
    requires j < |CoursesOf(courses, specId)|
    ensures CoursePage(p, courses, specId, j / CoursesPerPage).Some?
    ensures var k := CoursePage(p, courses, specId, j / CoursesPerPage).value;
      j % CoursesPerPage < |k.courseRows| &&
      k.courseRows[j % CoursesPerPage] == [CourseButton(p, CoursesOf(courses, specId)[j])]
  {
    var page := j / CoursesPerPage;
    assert page * CoursesPerPage + j % CoursesPerPage == j;
  }

  // ------------------------------------------------------------ broadcast course browser

  const BroadcastCoursesPerPage: nat := 8
  const SelectedMark: string := "✅ "
  const CourseDataPrefix: string := "bccourse_"
  const BrowserPagePrefix: string := "bcpage_"

  /** The last row, always present: search and finish. */
  const SearchFinishRow: Row :=
    [Callback("🔍 Поиск курсов", "courses_search"), Callback("✅ Завершить выбор", "finish_courses_selection")]

  /** `search_query or ''` */
  function QueryText(query: Option<string>): string
  {
    if Filters(query) then query.value else ""
  }

  /** `order_by(Course.name.asc())` and `sorted(..., key=lambda c: c.name)`. */
  function NameOrder(): (Course, Course) -> bool
  {
    (a: Course, b: Course) => StrLe(a.name, b.name)
  }

  lemma NameOrderTotal()
    ensures Sorting.TotalPreorder(NameOrder())
  {
    forall a: Course, b: Course ensures NameOrder()(a, b) || NameOrder()(b, a) {
      StrLeTotal(a.name, b.name);
    }
    forall a: Course, b: Course, c: Course | NameOrder()(a, b) && NameOrder()(b, c) ensures NameOrder()(a, c) {
      StrLeTransitive(a.name, b.name, c.name);
    }
  }

  /** The rows of the browser's query before OFFSET/LIMIT: matching courses ordered by name. */
  function BrowserCourses(courses: seq<Course>, query: Option<string>): seq<Course>
  {
    Sorting.SortBy(MatchingCourses(courses, query), NameOrder())
  }

  /** The browser lists exactly the matching courses, each as often as in the table, ordered by name. */
  lemma BrowserCoursesSpec(courses: seq<Course>, query: Option<string>)
    ensures Sorting.SortedBy(BrowserCourses(courses, query), NameOrder())
    ensures multiset(BrowserCourses(courses, query)) == multiset(MatchingCourses(courses, query))
    ensures forall c :: c in BrowserCourses(courses, query) <==>
      c in courses && (!Filters(query) || ContainsIgnoreCase(c.name, query.value))
  {
    NameOrderTotal();
    Sorting.SortBySorted(MatchingCourses(courses, query), NameOrder());
    assert forall c :: c in BrowserCourses(courses, query) <==> c in multiset(MatchingCourses(courses, query));
  }

  /** `f"{prefix}{course.name}"` with the mark for a selected course. */
  function CourseLabel(c: Course, selected: seq<nat>): string
  {
    if c.id in selected then SelectedMark + c.name else c.name
  }

  /** The label carries the mark exactly for the selected courses and always ends in the name. */
  lemma CourseLabelMarksSelection(c: Course, selected: seq<nat>)
    ensures StartsWith(CourseLabel(c, selected), SelectedMark + c.name) <==> c.id in selected
    ensures EndsWith(CourseLabel(c, selected), c.name)
  {
    var l := CourseLabel(c, selected);
    if c.id in selected {
      assert l[..|SelectedMark + c.name|] == l;
      assert l[|l| - |c.name|..] == c.name;
    } else {
      assert |l| < |SelectedMark + c.name|;
      assert l[|l| - |c.name|..] == c.name;
    }
  }

  function Flatten(rows: seq<Row>): seq<Button>
  {
    if |rows| == 0 then [] else rows[0] + Flatten(rows[1..])
  }

  /** `builder.adjust(2)`: the buttons, in order, two to a row (the last row may hold one). */
  function Pairs(bs: seq<Button>): (rows: seq<Row>)
    ensures Flatten(rows) == bs
    ensures forall i :: 0 <= i < |rows| ==> 1 <= |rows[i]| <= 2
    ensures forall i :: 0 <= i < |rows| - 1 ==> |rows[i]| == 2
    decreases |bs|
  {
    if |bs| <= 2 then (if |bs| == 0 then [] else [bs])
    else
      assert bs == bs[..2] + bs[2..];
      [bs[..2]] + Pairs(bs[2..])
  }

  datatype BrowserKeyboard = BrowserKeyboard(courseButtons: seq<Button>, nav: Row) {

    /** The course buttons two to a row, the navigation row if non-empty, then search/finish. */
    function Rows(): (rows: seq<Row>)
      ensures |rows| >= (if |nav| > 0 then 2 else 1)
      ensures |nav| > 0 ==> rows[|rows| - 2] == nav
      ensures rows[|rows| - 1] == SearchFinishRow
      ensures Flatten(rows[..|rows| - (if |nav| > 0 then 2 else 1)]) == courseButtons
    {
      var body := Pairs(courseButtons);
      var rows := body + (if |nav| > 0 then [nav] else []) + [SearchFinishRow];
      assert rows[..|rows| - (if |nav| > 0 then 2 else 1)] == body;
      rows
    }
  }

  /**
   * The fetched page sorted once more by name, as the handler does after the query; the page
   * is already in name order, so the second sort changes nothing.
   */
  function SortedPage(courses: seq<Course>, query: Option<string>, start: nat, n: nat): (r: seq<Course>)
    ensures r == PageSlice(BrowserCourses(courses, query), start, n)
  {
    var all := BrowserCourses(courses, query);
    var fetched := PageSlice(all, start, n);
    BrowserCoursesSpec(courses, query);
    PageSliceSorted(all, NameOrder(), start, n);
    Sorting.SortBySortedInput(fetched, NameOrder());
    Sorting.SortBy(fetched, NameOrder())
  }

  /**
   * `bc_courses_keyboard`: page `page` (OFFSET page*perPage LIMIT perPage) of the matching
   * courses in name order, each labelled with the selection mark and calling back
   * `bccourse_{id}`, then `bcpage_{page-1}_{query}` when `page > 0` and `bcpage_{page+1}_{query}`
   * when a course exists at index `(page+1)*perPage`.
   */
  function BroadcastCoursesKeyboard(courses: seq<Course>, query: Option<string>, page: nat, perPage: nat,
                                    selected: seq<nat>): (k: BrowserKeyboard)
    ensures var all := BrowserCourses(courses, query);
      && |k.courseButtons| <= perPage
      && (|k.courseButtons| == perPage || page * perPage + |k.courseButtons| >= |all|)
      && (forall i :: 0 <= i < |k.courseButtons| ==>
            page * perPage + i < |all| &&
            k.courseButtons[i] == Callback(CourseLabel(all[page * perPage + i], selected),
                                           CourseDataPrefix + NatToString(all[page * perPage + i].id)))
      && k.nav == BrowserNav(page, (page + 1) * perPage < |all|, query)
  {
    var shown := SortedPage(courses, query, page * perPage, perPage);
    BrowserKeyboard(
      seq(|shown|, i requires 0 <= i < |shown| =>
        Callback(CourseLabel(shown[i], selected), CourseDataPrefix + NatToString(shown[i].id))),
      BrowserNav(page, (page + 1) * perPage < |BrowserCourses(courses, query)|, query))
  }

  /** The browser's navigation row: `bcpage_{page-1}_{query}` back when `page > 0`, `bcpage_{page+1}_{query}` forward when more courses follow. */
  function BrowserNav(page: nat, more: bool, query: Option<string>): (nav: Row)
    ensures |nav| == (if page > 0 then 1 else 0) + (if more then 1 else 0)
    ensures page > 0 ==> nav[0] == Callback("Назад", BrowserPagePrefix + NatToString(page - 1) + "_" + QueryText(query))
    ensures more ==> nav[|nav| - 1] == Callback("Вперед", BrowserPagePrefix + NatToString(page + 1) + "_" + QueryText(query))
  {
    var back := if page > 0 then [Callback("Назад", BrowserPagePrefix + NatToString(page - 1) + "_" + QueryText(query))] else [];
    var forward := if more then [Callback("Вперед", BrowserPagePrefix + NatToString(page + 1) + "_" + QueryText(query))] else [];
    back + forward
  }

  // ------------------------------------------------------------ project details

  /** `get_project_details_keyboard`: raises "Project not found" for an unknown id. */
  datatype Lookup<T> = Found(value: T) | NotFound

  const AllEventsUrl: string := "https://view.genially.com/66b2271a6ff343f7e18bb52f"

  const AboutProjectPrefix: string := "about_project_"
  const BenefitsProjectPrefix: string := "benefits_project_"
  const ExamplesProjectPrefix: string := "examples_project_"
  const AvailableProjectPrefix: string := "available_to_me_project_"

  function ProjectDetailsKeyboard(projects: seq<Project>, projectId: nat): (r: Lookup<seq<Button>>)
    ensures r.NotFound? <==> forall p :: p in projects ==> p.id != projectId
    ensures r.Found? ==> |r.value| == 6
    ensures r.Found? ==>
      exists p :: p in projects && p.id == projectId && r.value[0] == Callback(p.title + " – это...", AboutProjectPrefix + NatToString(projectId))
    ensures r.Found? ==> r.value[1] == Callback("Бенефиты от участия", BenefitsProjectPrefix + NatToString(projectId))
    ensures r.Found? ==> r.value[2] == Callback("Примеры", ExamplesProjectPrefix + NatToString(projectId))
    ensures r.Found? ==> r.value[3] == Link("Перейти ко всем мероприятиям", AllEventsUrl)
    ensures r.Found? ==> r.value[4] == Callback("Доступные по моему курсу", AvailableProjectPrefix + NatToString(projectId))
    ensures r.Found? ==> r.value[5] == Callback("Назад", "back_to_projects_list")
    ensures r.Found? ==> forall i :: 0 <= i < 6 && i != 3 && i != 5 ==>
      r.value[i].Callback? && EndsWith(r.value[i].data, "_" + NatToString(projectId)) &&
      ParseNat(LastSegment(r.value[i].data, '_')) == Some(projectId)
  {
    match FindProject(projects, projectId)
    case None => NotFound
    case Some(p) =>
      Found([
        ProjectButton(p.title + " – это...", AboutProjectPrefix, p.id),
        ProjectButton("Бенефиты от участия", BenefitsProjectPrefix, p.id),
        ProjectButton("Примеры", ExamplesProjectPrefix, p.id),
        Link("Перейти ко всем мероприятиям", AllEventsUrl),
        ProjectButton("Доступные по моему курсу", AvailableProjectPrefix, p.id),
        Callback("Назад", "back_to_projects_list")])
  }

  /**
   * A project button calling back `prefix` followed by the project id; the payload ends in
   * `_{id}`, and its last `_`-separated field reads back as the id.
   */
  function ProjectButton(text: string, prefix: string, id: nat): (b: Button)
    requires |prefix| > 0 && prefix[|prefix| - 1] == '_'
    ensures b == Callback(text, prefix + NatToString(id))
    ensures EndsWith(b.data, "_" + NatToString(id))
    ensures ParseNat(LastSegment(b.data, '_')) == Some(id)
  {
    var digits := NatToString(id);
    var data := prefix + digits;
    assert data[|data| - |"_" + digits|..] == "_" + digits;
    assert '_' !in digits by {
      assert forall i :: 0 <= i < |digits| ==> IsDigitChar(digits[i]);
    }
    assert prefix[..|prefix| - 1] + ['_'] + digits == data;
    LastSegmentAfter(prefix[..|prefix| - 1], digits, '_');
    ParseNatToString(id);
    Callback(text, data)
  }

}
