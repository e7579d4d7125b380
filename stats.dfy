/**
 * The administrator's statistics screens (`app/handlers/admin_stats.py`): per-course user
 * counts with an optional course-name search and a choice of order, the course search
 * wizard, the broadcast summary and the rows of the user export.
 */
module Stats {
  import opened Wrappers
  import opened Strings
  import opened Records
  import Sorting

  // ---------------------------------------------------------------- per-course counts

  /** The `course_id` column of the user table, in table order. */
  function CourseColumn(users: seq<User>): seq<Option<nat>>
  {
    seq(|users|, i requires 0 <= i < |users| => users[i].courseId)
  }

  /** `count(User.id)` over the users whose `course_id` is `courseId`. */
  function UserCount(users: seq<User>, courseId: nat): (n: nat)
    ensures n <= |users|
    ensures n == multiset(CourseColumn(users))[Some(courseId)]
    ensures n == 0 <==> forall u :: u in users ==> u.courseId != Some(courseId)
  {
    if |users| == 0 then 0
    else
      assert users == [users[0]] + users[1..];
      assert CourseColumn(users) == [users[0].courseId] + CourseColumn(users[1..]);
      (if users[0].courseId == Some(courseId) then 1 else 0) + UserCount(users[1..], courseId)
  }

  /** One `(name, user_count)` row of `get_course_stats`. */
  datatype CourseStat = CourseStat(name: string, users: nat)

  /** The outer join grouped by course: one row per course, a course without users counting 0. */
  function CourseRows(courses: seq<Course>, users: seq<User>): (rows: seq<CourseStat>)
    ensures |rows| == |courses|
    ensures forall i :: 0 <= i < |courses| ==> rows[i] == CourseStat(courses[i].name, UserCount(users, courses[i].id))
  {
    seq(|courses|, i requires 0 <= i < |courses| => CourseStat(courses[i].name, UserCount(users, courses[i].id)))
  }

  /** `order_by(Course.name.asc())` */
  function ByName(): (CourseStat, CourseStat) -> bool
  {
    (a: CourseStat, b: CourseStat) => StrLe(a.name, b.name)
  }

  /** `order_by(func.count(User.id).desc())` */
  function ByUsersDesc(): (CourseStat, CourseStat) -> bool
  {
    (a: CourseStat, b: CourseStat) => a.users >= b.users
  }

  /** `sort_by == 'name'` picks the name order; every other value the count order. */
  function StatsOrder(sortBy: string): (CourseStat, CourseStat) -> bool
  {
    if sortBy == "name" then ByName() else ByUsersDesc()
  }

  lemma StatsOrderTotal(sortBy: string)
    ensures Sorting.TotalPreorder(StatsOrder(sortBy))
  {
    if sortBy == "name" {
      forall a: CourseStat, b: CourseStat ensures ByName()(a, b) || ByName()(b, a) {
        StrLeTotal(a.name, b.name);
      }
      forall a: CourseStat, b: CourseStat, c: CourseStat | ByName()(a, b) && ByName()(b, c)
        ensures ByName()(a, c)
      {
        StrLeTransitive(a.name, b.name, c.name);
      }
    }
  }

  /** `get_course_stats(session, sort_by, search_query)` */
  function CourseStats(courses: seq<Course>, users: seq<User>, sortBy: string, query: Option<string>): seq<CourseStat>
  {
    Sorting.SortBy(CourseRows(MatchingCourses(courses, query), users), StatsOrder(sortBy))
  }

  /** The listed rows are the matching courses' rows, reordered and sorted. */
  lemma CourseStatsPermutesRows(courses: seq<Course>, users: seq<User>, sortBy: string, query: Option<string>)
    ensures var stats := CourseStats(courses, users, sortBy, query);
      var rows := CourseRows(MatchingCourses(courses, query), users);
      && multiset(stats) == multiset(rows)
      && |stats| == |rows|
      && Sorting.SortedBy(stats, StatsOrder(sortBy))
  {
    var rows := CourseRows(MatchingCourses(courses, query), users);
    var stats := CourseStats(courses, users, sortBy, query);
    StatsOrderTotal(sortBy);
    Sorting.SortBySorted(rows, StatsOrder(sortBy));
    assert |multiset(stats)| == |multiset(rows)|;
  }

  /**
   * Every course the search keeps appears with its exact user count, zero included; nothing
   * else appears, and each course's row appears as often as the course does; the rows follow
   * the chosen order; without a search every course is listed.
   */
  lemma CourseStatsSpec(courses: seq<Course>, users: seq<User>, sortBy: string, query: Option<string>)
    ensures var stats := CourseStats(courses, users, sortBy, query);
      && multiset(stats) == multiset(CourseRows(MatchingCourses(courses, query), users))
      && |stats| == |MatchingCourses(courses, query)|
      && (forall c :: c in courses && (!Filters(query) || ContainsIgnoreCase(c.name, query.value)) ==>
            CourseStat(c.name, UserCount(users, c.id)) in stats)
      && (forall r :: r in stats ==>
            exists c :: c in courses && (!Filters(query) || ContainsIgnoreCase(c.name, query.value))
              && r == CourseStat(c.name, UserCount(users, c.id)))
      && Sorting.SortedBy(stats, StatsOrder(sortBy))
      && (!Filters(query) ==> |stats| == |courses|)
  {
    var matching := MatchingCourses(courses, query);
    var rows := CourseRows(matching, users);
    var stats := CourseStats(courses, users, sortBy, query);
    CourseStatsPermutesRows(courses, users, sortBy, query);
    forall c | c in courses && (!Filters(query) || ContainsIgnoreCase(c.name, query.value))
      ensures CourseStat(c.name, UserCount(users, c.id)) in stats
    {
      assert c in matching;
      var i :| 0 <= i < |matching| && matching[i] == c;
      assert rows[i] in multiset(stats);
    }
    forall r | r in stats
      ensures exists c ::
        c in courses && (!Filters(query) || ContainsIgnoreCase(c.name, query.value)) && r == CourseStat(c.name, UserCount(users, c.id))
    {
      assert r in multiset(rows);
      var i :| 0 <= i < |rows| && rows[i] == r;
      assert matching[i] in matching;
    }
    if !Filters(query) {
      MatchingEverything(courses, query);
    }
  }

  lemma {:induction false} MatchingEverything(courses: seq<Course>, query: Option<string>)
    requires !Filters(query)
    ensures MatchingCourses(courses, query) == courses
  {
    if |courses| > 0 {
      MatchingEverything(courses[1..], query);
      assert courses == [courses[0]] + courses[1..];
    }
  }

  // ---------------------------------------------------------------- course search

  /** `UserStatsState`, with `Idle` for a cleared context. */
  datatype StatsStep = Idle | ChoosingOrder | Search

  datatype SearchReply =
    | AskQuery
    /** "❌ Курсы не найдены…": asked again. */
    | NoCourses
    /** The query as shown (`None` for a message without text) and the rows listed. */
    | Results(query: Option<string>, stats: seq<CourseStat>)

  /** The FSM context of the course search. */
  class StatsSearch {
    var step: StatsStep

    constructor()
      ensures step == Idle
    {
      step := Idle;
    }

    /** `search_course`: asks for a course name, from any state. */
    method StartSearch() returns (reply: SearchReply)
      modifies this
      ensures step == Search && reply == AskQuery
    {
      step := Search;
      reply := AskQuery;
    }

    /**
     * `process_search`: counts per course, in user-count order, over the courses whose name
     * contains the message text; no such course keeps the search open, a result clears it.
     */
    method ProcessSearch(text: Option<string>, courses: seq<Course>, users: seq<User>) returns (reply: SearchReply)
      requires step == Search
      modifies this
      ensures var stats := CourseStats(courses, users, "users", text);
        && (|stats| == 0 ==> reply == NoCourses && step == Search)
        && (|stats| > 0 ==> reply == Results(text, stats) && step == Idle)
    {
      var stats := CourseStats(courses, users, "users", text);
      if |stats| == 0 {
        reply := NoCourses;
      } else {
        reply := Results(text, stats);
        step := Idle;
      }
    }
  }

  /** The search comes back empty exactly when no course name contains the query. */
  lemma SearchEmptyWhenNothingMatches(courses: seq<Course>, users: seq<User>, text: Option<string>)
    ensures |CourseStats(courses, users, "users", text)| == 0 <==>
      forall c :: c in courses ==> Filters(text) && !ContainsIgnoreCase(c.name, text.value)
  {
    CourseStatsSpec(courses, users, "users", text);
    var matching := MatchingCourses(courses, text);
    if |matching| > 0 {
      assert matching[0] in matching;
    }
  }

  // ---------------------------------------------------------------- broadcast summary

  const LatestCount: nat := 5
  const ShortTextLimit: nat := 125
  const NoCoursesText: string := "Нет курсов"

  /** `order_by(Broadcast.created.desc())` */
  function NewestFirst(): (Broadcast, Broadcast) -> bool
  {
    (a: Broadcast, b: Broadcast) => a.created >= b.created
  }

  /** `select(Broadcast).order_by(Broadcast.created.desc()).limit(5)` */
  function LatestMailings(broadcasts: seq<Broadcast>): seq<Broadcast>
  {
    Sorting.Take(Sorting.SortBy(broadcasts, NewestFirst()), LatestCount)
  }

  /**
   * At most five broadcasts are listed, all from the table, newest first, and no broadcast
   * left out is newer than one listed.
   */
  lemma LatestMailingsSpec(broadcasts: seq<Broadcast>)
    ensures var latest := LatestMailings(broadcasts);
      && |latest| == (if |broadcasts| < LatestCount then |broadcasts| else LatestCount)
      && (forall b :: b in latest ==> b in broadcasts)
      && Sorting.SortedBy(latest, NewestFirst())
      && (forall b, k :: b in broadcasts && b !in latest && 0 <= k < |latest| ==> b.created <= latest[k].created)
  {
    var sorted := Sorting.SortBy(broadcasts, NewestFirst());
    var latest := LatestMailings(broadcasts);
    Sorting.SortBySorted(broadcasts, NewestFirst());
    assert |sorted| == |broadcasts| by {
      assert |multiset(sorted)| == |multiset(broadcasts)|;
    }
    assert latest == sorted[..|latest|];
    Sorting.SortedSlice(sorted, NewestFirst(), 0, |latest|);
    forall b | b in latest ensures b in broadcasts {
      assert b in multiset(sorted);
    }
    forall b, k | b in broadcasts && b !in latest && 0 <= k < |latest|
      ensures b.created <= latest[k].created
    {
      assert b in multiset(sorted);
      var j :| 0 <= j < |sorted| && sorted[j] == b;
      assert NewestFirst()(sorted[k], sorted[j]);
    }
  }

  /** `mailing.text[:125] + "..."` when longer than 125 characters, else the text. */
  function ShortText(t: string): (r: string)
    ensures |t| <= ShortTextLimit ==> r == t
    ensures |t| > ShortTextLimit ==>
      |r| == ShortTextLimit + 3 && r[..ShortTextLimit] == t[..ShortTextLimit] && r[ShortTextLimit..] == "..."
  {
    Ellipsize(t, ShortTextLimit)
  }

  /** `f"{i + 1}) {name}"` for each name. */
  function Numbered(names: seq<string>): (lines: seq<string>)
    ensures |lines| == |names|
  {
    seq(|names|, i requires 0 <= i < |names| => NatToString(i + 1) + ") " + names[i])
  }

  /** The numbered course list joined by newlines, or "Нет курсов" for a broadcast without courses. */
  function FormatCourses(names: seq<string>): string
  {
    if |names| == 0 then NoCoursesText else Join(Numbered(names), "\n")
  }

  /**
   * For course names without a newline, the list splits back into one line per course, line
   * `i` being the number `i + 1`, ") " and the `i`-th name; no course list reads "Нет курсов".
   */
  lemma FormatCoursesLines(names: seq<string>)
    requires forall i :: 0 <= i < |names| ==> '\n' !in names[i]
    ensures |names| == 0 ==> FormatCourses(names) == NoCoursesText
    ensures |names| > 0 ==>
      && Split(FormatCourses(names), '\n') == Numbered(names)
      && forall i :: 0 <= i < |names| ==>
           var line := Split(FormatCourses(names), '\n')[i];
           StartsWith(line, NatToString(i + 1) + ") ") && EndsWith(line, names[i])
  {
    if |names| > 0 {
      var lines := Numbered(names);
      assert forall i :: 0 <= i < |lines| ==> '\n' !in lines[i];
      SplitJoin(lines, '\n');
    }
  }

  /** The names of the courses a broadcast is linked to: the association join, in link order. */
  function LinkedCourseNames(courses: seq<Course>, links: seq<CourseLink>, broadcastId: nat): (names: seq<string>)
    ensures forall n :: n in names <==>
      exists l, c :: l in links && c in courses && l.broadcastId == broadcastId && l.courseId == c.id && c.name == n
  {
    if |links| == 0 then []
    else
      assert links == [links[0]] + links[1..];
      (if links[0].broadcastId == broadcastId then NamesWithId(courses, links[0].courseId) else [])
        + LinkedCourseNames(courses, links[1..], broadcastId)
  }

  function NamesWithId(courses: seq<Course>, id: nat): (names: seq<string>)
    ensures forall n :: n in names <==> exists c :: c in courses && c.id == id && c.name == n
  {
    if |courses| == 0 then []
    else
      assert courses == [courses[0]] + courses[1..];
      (if courses[0].id == id then [courses[0].name] else []) + NamesWithId(courses[1..], id)
  }

  /**
   * `count(User.id)` over users joined to the broadcast's links by course: each link counts
   * the users of its course, and the total is zero exactly when no user is on a linked course.
   */
  function RecipientsCount(users: seq<User>, links: seq<CourseLink>, broadcastId: nat): (n: nat)
    ensures n == 0 <==>
      forall l, u :: l in links && u in users && l.broadcastId == broadcastId ==> u.courseId != Some(l.courseId)
  {
    if |links| == 0 then 0
    else
      assert links == [links[0]] + links[1..];
      (if links[0].broadcastId == broadcastId then UserCount(users, links[0].courseId) else 0)
        + RecipientsCount(users, links[1..], broadcastId)
  }

  /** The course ids the broadcast's links name, link by link. */
  function LinkedCourseIds(links: seq<CourseLink>, broadcastId: nat): (ids: seq<nat>)
    ensures forall c :: c in ids <==> exists l :: l in links && l.broadcastId == broadcastId && l.courseId == c
  {
    if |links| == 0 then []
    else
      assert links == [links[0]] + links[1..];
      (if links[0].broadcastId == broadcastId then [links[0].courseId] else []) + LinkedCourseIds(links[1..], broadcastId)
  }

  /** How many of `ids` are the course `c`. */
  function Occurrences(ids: seq<nat>, c: Option<nat>): nat
  {
    if |ids| == 0 then 0 else (if c == Some(ids[0]) then 1 else 0) + Occurrences(ids[1..], c)
  }

  /** The count per course, summed over `ids`. */
  function SumOfCounts(users: seq<User>, ids: seq<nat>): nat
  {
    if |ids| == 0 then 0 else UserCount(users, ids[0]) + SumOfCounts(users, ids[1..])
  }

  /** Every user, counted once for each of `ids` that is their course. */
  function CountPerUser(users: seq<User>, ids: seq<nat>): nat
  {
    if |users| == 0 then 0 else Occurrences(ids, users[0].courseId) + CountPerUser(users[1..], ids)
  }

  /** The number of users whose course is among `ids`. */
  function UsersOnCourses(users: seq<User>, ids: seq<nat>): (n: nat)
    ensures n <= |users|
  {
    if |users| == 0 then 0
    else
      (if users[0].courseId.Some? && users[0].courseId.value in ids then 1 else 0) + UsersOnCourses(users[1..], ids)
  }

  lemma {:induction false} RecipientsCountIsSum(users: seq<User>, links: seq<CourseLink>, broadcastId: nat)
    ensures RecipientsCount(users, links, broadcastId) == SumOfCounts(users, LinkedCourseIds(links, broadcastId))
    decreases |links|
  {
    if |links| > 0 {
      RecipientsCountIsSum(users, links[1..], broadcastId);
      var rest := LinkedCourseIds(links[1..], broadcastId);
      if links[0].broadcastId == broadcastId {
        assert LinkedCourseIds(links, broadcastId) == [links[0].courseId] + rest;
        assert ([links[0].courseId] + rest)[1..] == rest;
      } else {
        assert LinkedCourseIds(links, broadcastId) == [] + rest == rest;
      }
    }
  }

  lemma {:induction false} SumOfCountsEmpty(ids: seq<nat>)
    ensures SumOfCounts([], ids) == 0
    decreases |ids|
  {
    if |ids| > 0 {
      SumOfCountsEmpty(ids[1..]);
    }
  }

  lemma {:induction false} SumOfCountsPeel(users: seq<User>, ids: seq<nat>)
    requires |users| > 0
    ensures SumOfCounts(users, ids) == Occurrences(ids, users[0].courseId) + SumOfCounts(users[1..], ids)
    decreases |ids|
  {
    if |ids| > 0 {
      SumOfCountsPeel(users, ids[1..]);
    }
  }

  lemma {:induction false} SumOfCountsPerUser(users: seq<User>, ids: seq<nat>)
    ensures SumOfCounts(users, ids) == CountPerUser(users, ids)
    decreases |users|
  {
    if |users| == 0 {
      SumOfCountsEmpty(ids);
    } else {
      SumOfCountsPeel(users, ids);
      SumOfCountsPerUser(users[1..], ids);
    }
  }

  /**
   * The joined count, read user by user: every user is counted once for each link of the
   * broadcast that names their course.
   */
  lemma RecipientsCountPerUser(users: seq<User>, links: seq<CourseLink>, broadcastId: nat)
    ensures RecipientsCount(users, links, broadcastId) == CountPerUser(users, LinkedCourseIds(links, broadcastId))
  {
    RecipientsCountIsSum(users, links, broadcastId);
    SumOfCountsPerUser(users, LinkedCourseIds(links, broadcastId));
  }

  lemma {:induction false} OccurrencesDistinct(ids: seq<nat>, c: Option<nat>)
    requires forall i, j :: 0 <= i < j < |ids| ==> ids[i] != ids[j]
    ensures Occurrences(ids, c) == if c.Some? && c.value in ids then 1 else 0
    decreases |ids|
  {
    if |ids| > 0 {
      OccurrencesDistinct(ids[1..], c);
      if c == Some(ids[0]) {
        assert ids[0] !in ids[1..];
      } else {
        assert c.Some? && c.value in ids ==> c.value in ids[1..];
      }
    }
  }

  lemma {:induction false} CountPerUserDistinct(users: seq<User>, ids: seq<nat>)
    requires forall i, j :: 0 <= i < j < |ids| ==> ids[i] != ids[j]
    ensures CountPerUser(users, ids) == UsersOnCourses(users, ids)
    decreases |users|
  {
    if |users| > 0 {
      OccurrencesDistinct(ids, users[0].courseId);
      CountPerUserDistinct(users[1..], ids);
    }
  }

  /**
   * When the broadcast's links name distinct courses, the count is the number of users on
   * one of those courses.
   */
  lemma RecipientsCountDistinct(users: seq<User>, links: seq<CourseLink>, broadcastId: nat)
    requires var ids := LinkedCourseIds(links, broadcastId);
      forall i, j :: 0 <= i < j < |ids| ==> ids[i] != ids[j]
    ensures RecipientsCount(users, links, broadcastId) == UsersOnCourses(users, LinkedCourseIds(links, broadcastId))
  {
    RecipientsCountPerUser(users, links, broadcastId);
    CountPerUserDistinct(users, LinkedCourseIds(links, broadcastId));
  }

  /** One block of the summary; the date is the raw timestamp (its formatting is not modelled). */
  datatype MailingEntry = MailingEntry(id: nat, created: int, courses: string, recipients: nat, text: string)

  function EntryFor(b: Broadcast, courses: seq<Course>, links: seq<CourseLink>, users: seq<User>): MailingEntry
  {
    MailingEntry(b.id, b.created, FormatCourses(LinkedCourseNames(courses, links, b.id)),
                 RecipientsCount(users, links, b.id), ShortText(b.text))
  }

  /** `show_mailings_statistics`: the broadcast total and one block per recent broadcast, newest first. */
  method MailingsStatistics(broadcasts: seq<Broadcast>, courses: seq<Course>, links: seq<CourseLink>, users: seq<User>)
    returns (total: nat, entries: seq<MailingEntry>)
    ensures total == |broadcasts|
    ensures var latest := LatestMailings(broadcasts);
      && |entries| == |latest|
      && forall i :: 0 <= i < |latest| ==> entries[i] == EntryFor(latest[i], courses, links, users)
  {
    total := |broadcasts|;
    var latest := LatestMailings(broadcasts);
    entries := [];
    var i := 0;
    while i < |latest|
      invariant 0 <= i <= |latest|
      invariant |entries| == i
      invariant forall k :: 0 <= k < i ==> entries[k] == EntryFor(latest[k], courses, links, users)
    {
      var mailing := latest[i];
      var names := LinkedCourseNames(courses, links, mailing.id);
      var recipients := RecipientsCount(users, links, mailing.id);
      var formatted := FormatCourses(names);
      var entry := MailingEntry(mailing.id, mailing.created, formatted, recipients, ShortText(mailing.text));
      assert entry == EntryFor(latest[i], courses, links, users);
      entries := entries + [entry];
      i := i + 1;
    }
  }

  // ---------------------------------------------------------------- user export

  /** One row of the export: first name, last name, username and course name. */
  datatype ExportRow = ExportRow(firstName: string, lastName: string, username: string, course: string)

  /** `order_by(User.id)` */
  function ById(): (User, User) -> bool
  {
    (a: User, b: User) => a.id <= b.id
  }

  /** The outer join to `course`: the name of the user's course, or "" without one. */
  function CourseNameOf(u: User, courses: seq<Course>): (name: string)
    ensures u.courseId.None? ==> name == ""
    ensures u.courseId.Some? && FindCourse(courses, u.courseId.value).None? ==> name == ""
    ensures u.courseId.Some? && FindCourse(courses, u.courseId.value).Some? ==>
      exists c :: c in courses && c.id == u.courseId.value && name == c.name
  {
    if u.courseId.None? then ""
    else
      match FindCourse(courses, u.courseId.value)
      case None => ""
      case Some(c) => c.name
  }

  /** `(u.first_name or '', u.last_name or '', u.username or '', u.course_name or '')` */
  function RowOf(u: User, courses: seq<Course>): ExportRow
  {
    ExportRow(u.firstName.GetOr(""), u.lastName.GetOr(""), u.username.GetOr(""), CourseNameOf(u, courses))
  }

  /** The rows of `export_users_to_excel`, one per user in id order. */
  function ExportRows(users: seq<User>, courses: seq<Course>): seq<ExportRow>
  {
    var ordered := Sorting.SortBy(users, ById());
    seq(|ordered|, i requires 0 <= i < |ordered| => RowOf(ordered[i], courses))
  }

  /**
   * The export has one row per user, taken from the users in ascending id order; a missing
   * name or username becomes "", and so does the course of a user without one.
   */
  lemma ExportRowsSpec(users: seq<User>, courses: seq<Course>)
    ensures var ordered := Sorting.SortBy(users, ById());
      var rows := ExportRows(users, courses);
      && multiset(ordered) == multiset(users)
      && Sorting.SortedBy(ordered, ById())
      && |rows| == |users|
      && forall i :: 0 <= i < |rows| ==>
           && rows[i].firstName == (if ordered[i].firstName.Some? then ordered[i].firstName.value else "")
           && rows[i].lastName == (if ordered[i].lastName.Some? then ordered[i].lastName.value else "")
           && rows[i].username == (if ordered[i].username.Some? then ordered[i].username.value else "")
           && (ordered[i].courseId.None? ==> rows[i].course == "")
  {
    var ordered := Sorting.SortBy(users, ById());
    assert Sorting.TotalPreorder(ById());
    Sorting.SortBySorted(users, ById());
    assert |ordered| == |users| by {
      assert |multiset(ordered)| == |multiset(users)|;
    }
  }
}
