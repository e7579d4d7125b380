/**
 * The course-change flow of a user's profile: choosing a specialization, then a course,
 * writing both to the user's row together, restoring the captured ids on "Назад"; the
 * parsers of the flow's callback payloads; and the list of events available for a course.
 */
module Profile {
  import opened Wrappers
  import opened Strings
  import opened Records
  import opened Keyboards
  import Sorting

  // ------------------------------------------------------------ callback payloads

  const ChangeCoursePrefix: string := "change_course_"
  const ChangePagePrefix: string := "changepage_"
  const EventsPrefix: string := "view_course_events_"

  /** `data.replace("change_spec_", "").strip()` behind the `isdigit` guard. */
  function ParseChangeSpec(data: string): Option<nat>
  {
    ParseNat(Strip(RemoveAll(data, ChangeSpecializationPrefix)))
  }

  /** `data.replace("change_course_", "")` behind the `isdigit` guard (no strip here). */
  function ParseChangeCourse(data: string): Option<nat>
  {
    ParseNat(RemoveAll(data, ChangeCoursePrefix))
  }

  lemma DigitsFree(n: nat, c: char)
    requires !IsDigitChar(c)
    ensures forall i :: 0 <= i < |NatToString(n)| ==> NatToString(n)[i] != c
  {
  }

  /** Every button of the course-change specialization keyboard is read back as its specialization's id. */
  lemma ParseChangeSpecRoundTrip(id: nat)
    ensures ParseChangeSpec(ChangeSpecializationPrefix + NatToString(id)) == Some(id)
  {
    var d := NatToString(id);
    DigitsFree(id, 'c');
    RemoveAllPrefix(ChangeSpecializationPrefix, d);
    assert !IsSpace(d[0]) && !IsSpace(d[|d| - 1]);
    ParseNatToString(id);
  }

  /** Every course button of the course-change keyboard is read back as its course's id. */
  lemma ParseChangeCourseRoundTrip(id: nat)
    ensures ParseChangeCourse(ChangeCoursePrefix + NatToString(id)) == Some(id)
  {
    DigitsFree(id, 'c');
    RemoveAllPrefix(ChangeCoursePrefix, NatToString(id));
    ParseNatToString(id);
  }

  /**
   * A payload with a non-digit anywhere after the prefix is refused (a remainder free of
   * `c` cannot hide a second copy of the prefix for `replace` to remove).
   */
  lemma ParseChangeCourseRejects(junk: string)
    requires 'c' !in junk && exists k :: 0 <= k < |junk| && !IsDigitChar(junk[k])
    ensures ParseChangeCourse(ChangeCoursePrefix + junk).None?
  {
    RemoveAllPrefix(ChangeCoursePrefix, junk);
  }

  /** The three outcomes of `_, spec, page = data.split("_")` and the two `isdigit` checks. */
  datatype PageRequest = Malformed | NotNumbers | PageOf(spec: nat, page: nat)

  function ParsePageRequest(data: string): (r: PageRequest)
    ensures r.Malformed? <==> |Split(data, '_')| != 3
    ensures r.PageOf? ==> Some(r.spec) == ParseNat(Split(data, '_')[1]) && Some(r.page) == ParseNat(Split(data, '_')[2])
    ensures r.NotNumbers? ==> ParseNat(Split(data, '_')[1]).None? || ParseNat(Split(data, '_')[2]).None?
  {
    var parts := Split(data, '_');
    if |parts| != 3 then Malformed
    else
      match (ParseNat(parts[1]), ParseNat(parts[2]))
      case (Some(spec), Some(page)) => PageOf(spec, page)
      case _ => NotNumbers
  }

  /** The pager's parser inverts the encoder of the course-change keyboard's navigation buttons. */
  lemma ParsePageRequestRoundTrip(spec: nat, page: nat)
    ensures ParsePageRequest(PageData(ChangePager.pagePrefix, spec, page)) == PageOf(spec, page)
  {
    var a, b := NatToString(spec), NatToString(page);
    DigitsFree(spec, '_');
    DigitsFree(page, '_');
    var parts := ["changepage", a, b];
    assert parts[1..] == [a, b] && [a, b][1..] == [b];
    assert Join([a, b], "_") == a + "_" + b;
    assert Join(parts, "_") == "changepage" + "_" + (a + "_" + b);
    assert PageData(ChangePager.pagePrefix, spec, page) == Join(parts, "_");
    SplitJoin(parts, '_');
    ParseNatToString(spec);
    ParseNatToString(page);
  }

  /** The events button of the profile is read back as the user's course id. */
  lemma EventsIdRoundTrip(id: nat)
    ensures ParseNat(LastSegment(EventsPrefix + NatToString(id), '_')) == Some(id)
  {
    DigitsFree(id, '_');
    assert EventsPrefix + NatToString(id) == "view_course_events" + ['_'] + NatToString(id);
    LastSegmentAfter("view_course_events", NatToString(id), '_');
    ParseNatToString(id);
  }

  /** `paginate_courses`: any state; a payload of the wrong shape raises, bad numbers get an alert. */
  datatype PageReply = PageCrashed | BadRequest | NewMarkup(keyboard: Option<CourseKeyboard>)

  function PaginateCourses(data: string, courses: seq<Course>): (r: PageReply)
    ensures r.PageCrashed? <==> ParsePageRequest(data).Malformed?
    ensures r.NewMarkup? <==> ParsePageRequest(data).PageOf?
    ensures r.NewMarkup? ==>
      r.keyboard == CoursePage(ChangePager, courses, ParsePageRequest(data).spec, ParsePageRequest(data).page)
  {
    match ParsePageRequest(data)
    case Malformed => PageCrashed
    case NotNumbers => BadRequest
    case PageOf(spec, page) => NewMarkup(CoursePage(ChangePager, courses, spec, page))
  }

  /** Every navigation button of the course-change keyboard turns to the page it names. */
  lemma PaginateCoursesRoundTrip(spec: nat, page: nat, courses: seq<Course>)
    ensures PaginateCourses(PageData(ChangePager.pagePrefix, spec, page), courses) ==
      NewMarkup(CoursePage(ChangePager, courses, spec, page))
  {
    ParsePageRequestRoundTrip(spec, page);
  }

  // ------------------------------------------------------------ re-prompting a specialization

  /**
   * The keyboard `change_specialization` shows again when the chosen specialization has no
   * course, as written: `specialization_keyboard`, whose buttons call back `spec_{id}`.
   */
  function RepromptKeyboardAsWritten(specs: seq<Specialization>): (rows: seq<Row>)
    ensures |rows| == |specs|
  {
    SpecializationKeyboard(specs)
  }

  /**
   * None of those buttons reaches the handler that listens in `waiting_for_specialization`,
   * which only takes callbacks starting with `change_spec_`.
   */
  lemma RepromptAsWrittenUnanswered(specs: seq<Specialization>)
    ensures forall i :: 0 <= i < |specs| ==>
      RepromptKeyboardAsWritten(specs)[i][0].Callback? &&
      !StartsWith(RepromptKeyboardAsWritten(specs)[i][0].data, ChangeSpecializationPrefix)
  {
    forall i | 0 <= i < |specs|
      ensures !StartsWith(RepromptKeyboardAsWritten(specs)[i][0].data, ChangeSpecializationPrefix)
    {
      var d := RepromptKeyboardAsWritten(specs)[i][0].data;
      assert d[0] == 's';
    }
  }

  /** The re-prompt the flow needs: the course-change specialization keyboard. */
  function RepromptKeyboard(specs: seq<Specialization>): (rows: seq<Row>)
    ensures |rows| == |specs|
  {
    ChangeSpecializationKeyboard(specs)
  }

  /** Every one of its buttons reaches the handler and names its specialization. */
  lemma RepromptKeyboardAnswered(specs: seq<Specialization>)
    ensures forall i :: 0 <= i < |specs| ==>
      RepromptKeyboard(specs)[i][0].Callback? &&
      StartsWith(RepromptKeyboard(specs)[i][0].data, ChangeSpecializationPrefix) &&
      ParseChangeSpec(RepromptKeyboard(specs)[i][0].data) == Some(specs[i].id)
  {
    forall i | 0 <= i < |specs|
      ensures StartsWith(RepromptKeyboard(specs)[i][0].data, ChangeSpecializationPrefix)
      ensures ParseChangeSpec(RepromptKeyboard(specs)[i][0].data) == Some(specs[i].id)
    {
      var d := RepromptKeyboard(specs)[i][0].data;
      assert d[..|ChangeSpecializationPrefix|] == ChangeSpecializationPrefix;
      ParseChangeSpecRoundTrip(specs[i].id);
    }
  }

  // ------------------------------------------------------------ the user's choice

  /** `user.specialization_id = spec; user.course_id = course` */
  function WithChoice(u: User, spec: Option<nat>, course: Option<nat>): (v: User)
    ensures v.specializationId == spec && v.courseId == course
    ensures v.id == u.id && v.tgId == u.tgId && v.firstName == u.firstName && v.lastName == u.lastName
    ensures v.username == u.username
  {
    u.(specializationId := spec, courseId := course)
  }

  /** Writing back the captured ids undoes any choice. */
  lemma RestoreUndoesChoice(u: User, spec: Option<nat>, course: Option<nat>)
    ensures WithChoice(WithChoice(u, spec, course), u.specializationId, u.courseId) == u
  {
  }

  // ------------------------------------------------------------ the flow

  /** The states of `ChangeCourseState`, and no state at all. */
  datatype ChangeStep = Idle | WaitingForSpecialization | WaitingForCourse

  datatype Reply =
    | ChooseSpecialization(keyboard: seq<Row>)
    | InvalidSpecialization
    | SpecializationNotFound
    | NoCourses(keyboard: seq<Row>)
    | ChooseCourse(page: CourseKeyboard)
    | InvalidCourse
    | CourseChosen(name: string)
    | UserNotFound
    | Crashed
    | MainMenu

  /** The user table keyed by Telegram id, and one chat's FSM state and data. */
  class ProfileFlow {
    var users: map<nat, User>
    var step: ChangeStep
    var oldSpec: Option<nat>
    var oldCourse: Option<nat>
    var newSpec: Option<nat>

    /** Each row is filed under its own Telegram id. */
    predicate Valid()
      reads this
    {
      forall t :: t in users ==> users[t].tgId == t
    }

    constructor (users: map<nat, User>)
      requires forall t :: t in users ==> users[t].tgId == t
      ensures Valid() && this.users == users && step == Idle
      ensures oldSpec.None? && oldCourse.None? && newSpec.None?
    {
      this.users := users;
      step, oldSpec, oldCourse, newSpec := Idle, None, None, None;
    }

    /** `change_specialization_start` ("Изменить курс" or /course, any state): captures the current ids. */
    method StartChange(tg: nat, specs: seq<Specialization>) returns (reply: Reply)
      requires Valid()
      modifies this
      ensures Valid() && users == old(users) && step == WaitingForSpecialization && newSpec == old(newSpec)
      ensures tg in users ==> oldSpec == users[tg].specializationId && oldCourse == users[tg].courseId
      ensures tg !in users ==> oldSpec == old(oldSpec) && oldCourse == old(oldCourse)
      ensures reply == ChooseSpecialization(ChangeSpecializationKeyboard(specs))
    {
      if tg in users {
        oldSpec, oldCourse := users[tg].specializationId, users[tg].courseId;
      }
      step := WaitingForSpecialization;
      reply := ChooseSpecialization(ChangeSpecializationKeyboard(specs));
    }

    /**
     * `change_specialization`: a payload without an id is refused; a valid id is recorded
     * even when no specialization has it; a specialization without courses is asked
     * again with the registration keyboard, as written (see `RepromptAsWrittenUnanswered`);
     * otherwise its first course page is shown.
     */
    method ChangeSpecialization(data: string, specs: seq<Specialization>, courses: seq<Course>) returns (reply: Reply)
      requires Valid() && step == WaitingForSpecialization && StartsWith(data, ChangeSpecializationPrefix)
      modifies this
      ensures Valid() && users == old(users) && oldSpec == old(oldSpec) && oldCourse == old(oldCourse)
      ensures ParseChangeSpec(data).None? ==> reply == InvalidSpecialization && unchanged(this)
      ensures ParseChangeSpec(data).Some? ==>
        var id := ParseChangeSpec(data).value;
        && newSpec == Some(id)
        && (!HasSpecialization(specs, id) ==> reply == SpecializationNotFound && step == old(step))
        && (HasSpecialization(specs, id) && CoursePage(ChangePager, courses, id, 0).None? ==>
              reply == NoCourses(RepromptKeyboardAsWritten(specs)) && step == old(step))
        && (HasSpecialization(specs, id) && CoursePage(ChangePager, courses, id, 0).Some? ==>
              reply == ChooseCourse(CoursePage(ChangePager, courses, id, 0).value) && step == WaitingForCourse)
    {
      var parsed := ParseChangeSpec(data);
      if parsed.None? {
        return InvalidSpecialization;
      }
      var id := parsed.value;
      newSpec := Some(id);
      if !HasSpecialization(specs, id) {
        return SpecializationNotFound;
      }
      var keyboard := CoursePage(ChangePager, courses, id, 0);
      if keyboard.None? {
        reply := NoCourses(RepromptKeyboardAsWritten(specs));
      } else {
        reply := ChooseCourse(keyboard.value);
        step := WaitingForCourse;
      }
    }

    method Clear()
      modifies this
      ensures users == old(users) && step == Idle && oldSpec.None? && oldCourse.None? && newSpec.None?
    {
      step, oldSpec, oldCourse, newSpec := Idle, None, None, None;
    }

    /**
     * `change_course`: a payload without an id is refused; otherwise the user's
     * specialization and course are written together and the flow ends. A course id no row
     * has is still written, then reading its name raises before the flow is cleared.
     */
    method ChangeCourse(tg: nat, data: string, courses: seq<Course>) returns (reply: Reply)
      requires Valid() && step == WaitingForCourse && StartsWith(data, ChangeCoursePrefix)
      modifies this
      ensures Valid()
      ensures ParseChangeCourse(data).None? ==> reply == InvalidCourse && unchanged(this)
      ensures ParseChangeCourse(data).Some? && tg !in old(users) ==>
        reply == UserNotFound && users == old(users) && step == Idle
        && oldSpec.None? && oldCourse.None? && newSpec.None?
      ensures ParseChangeCourse(data).Some? && tg in old(users) ==>
        var id := ParseChangeCourse(data).value;
        && users == old(users)[tg := WithChoice(old(users)[tg], old(newSpec), Some(id))]
        && (FindCourse(courses, id).Some? ==>
              reply == CourseChosen(FindCourse(courses, id).value.name)
              && step == Idle && oldSpec.None? && oldCourse.None? && newSpec.None?)
        && (FindCourse(courses, id).None? ==>
              reply == Crashed && step == old(step) && newSpec == old(newSpec)
              && oldSpec == old(oldSpec) && oldCourse == old(oldCourse))
    {
      var parsed := ParseChangeCourse(data);
      if parsed.None? {
        return InvalidCourse;
      }
      var id := parsed.value;
      if tg in users {
        users := users[tg := WithChoice(users[tg], newSpec, Some(id))];
        var course := FindCourse(courses, id);
        if course.None? {
          return Crashed;
        }
        reply := CourseChosen(course.value.name);
      } else {
        reply := UserNotFound;
      }
      Clear();
    }

    /**
     * `back_to_main_menu` ("Назад", any state): while a course is being chosen, the user's
     * ids captured at the start are written back; the flow always ends.
     */
    method BackToMainMenu(tg: nat) returns (reply: Reply)
      requires Valid()
      modifies this
      ensures Valid() && step == Idle && oldSpec.None? && oldCourse.None? && newSpec.None? && reply == MainMenu
      ensures old(step) == WaitingForCourse && tg in old(users) ==>
        users == old(users)[tg := WithChoice(old(users)[tg], old(oldSpec), old(oldCourse))]
      ensures old(step) != WaitingForCourse || tg !in old(users) ==> users == old(users)
    {
      if step == WaitingForCourse && tg in users {
        users := users[tg := WithChoice(users[tg], oldSpec, oldCourse)];
      }
      Clear();
      reply := MainMenu;
    }
  }

  // ------------------------------------------------------------ events of a course

  /** A broadcast listed for a course: sent, active and associated with it. */
  predicate Listed(b: Broadcast, links: seq<CourseLink>, courseId: nat)
  {
    b.isSent && b.isActive && CourseLink(b.id, courseId) in links
  }

  /**
   * How many rows the join yields for `b`: one per association row linking it to the
   * course, none when it is not sent or not active.
   */
  function JoinedRows(b: Broadcast, links: seq<CourseLink>, courseId: nat): (n: nat)
    ensures n > 0 <==> Listed(b, links, courseId)
  {
    if b.isSent && b.isActive then multiset(links)[CourseLink(b.id, courseId)] else 0
  }

  /** `k` copies of `b`. */
  function Copies(b: Broadcast, k: nat): (r: seq<Broadcast>)
    ensures |r| == k && multiset(r)[b] == k
    ensures forall x :: x in r ==> x == b
  {
    if k == 0 then [] else [b] + Copies(b, k - 1)
  }

  /**
   * The rows of `select(Broadcast).join(Broadcast.course_associations).where(...)` before
   * ordering: each broadcast once per association row that links it to the course, since
   * the join does not remove duplicates.
   */
  function ListedOnly(broadcasts: seq<Broadcast>, links: seq<CourseLink>, courseId: nat): (r: seq<Broadcast>)
    ensures forall b :: b in r <==> b in broadcasts && Listed(b, links, courseId)
  {
    if |broadcasts| == 0 then []
    else
      assert broadcasts == [broadcasts[0]] + broadcasts[1..];
      var copies := Copies(broadcasts[0], JoinedRows(broadcasts[0], links, courseId));
      assert Listed(broadcasts[0], links, courseId) ==> copies[0] == broadcasts[0];
      copies + ListedOnly(broadcasts[1..], links, courseId)
  }

  /** Each broadcast appears once per joined row: its copies in the table times its association rows. */
  lemma {:induction false} ListedOnlyRows(broadcasts: seq<Broadcast>, links: seq<CourseLink>, courseId: nat, b: Broadcast)
    ensures multiset(ListedOnly(broadcasts, links, courseId))[b] == multiset(broadcasts)[b] * JoinedRows(b, links, courseId)
    decreases |broadcasts|
  {
    if |broadcasts| > 0 {
      var b0 := broadcasts[0];
      ListedOnlyRows(broadcasts[1..], links, courseId, b);
      assert broadcasts == [b0] + broadcasts[1..];
      var copies := Copies(b0, JoinedRows(b0, links, courseId));
      var rest := ListedOnly(broadcasts[1..], links, courseId);
      assert ListedOnly(broadcasts, links, courseId) == copies + rest;
      assert multiset(copies + rest)[b] == multiset(copies)[b] + multiset(rest)[b];
      var m := multiset(broadcasts[1..])[b];
      var j := JoinedRows(b, links, courseId);
      if b == b0 {
        assert multiset(broadcasts)[b] == 1 + m;
        MulSucc(m, j);
      } else {
        assert multiset(broadcasts)[b] == m;
        assert b !in copies;
      }
    }
  }

  /** `order_by(Broadcast.created.desc())` */
  function NewestFirst(): (Broadcast, Broadcast) -> bool
  {
    (a: Broadcast, b: Broadcast) => a.created >= b.created
  }

  /** The broadcasts `view_course_events` lists, newest first. */
  function CourseEvents(broadcasts: seq<Broadcast>, links: seq<CourseLink>, courseId: nat): seq<Broadcast>
  {
    Sorting.SortBy(ListedOnly(broadcasts, links, courseId), NewestFirst())
  }

  /** Exactly the sent, active broadcasts of the course are listed, none newer after an older one. */
  lemma CourseEventsSpec(broadcasts: seq<Broadcast>, links: seq<CourseLink>, courseId: nat)
    ensures forall b :: b in CourseEvents(broadcasts, links, courseId) <==> b in broadcasts && Listed(b, links, courseId)
    ensures var r := CourseEvents(broadcasts, links, courseId);
      forall i, j :: 0 <= i < j < |r| ==> r[i].created >= r[j].created
  {
    var l := ListedOnly(broadcasts, links, courseId);
    Sorting.SortBySorted(l, NewestFirst());
    assert forall b :: b in CourseEvents(broadcasts, links, courseId) <==> b in multiset(l);
  }

  /** Ordering keeps every joined row: each broadcast is listed as often as the join yields it. */
  lemma CourseEventsRows(broadcasts: seq<Broadcast>, links: seq<CourseLink>, courseId: nat, b: Broadcast)
    ensures multiset(CourseEvents(broadcasts, links, courseId))[b] == multiset(broadcasts)[b] * JoinedRows(b, links, courseId)
  {
    var l := ListedOnly(broadcasts, links, courseId);
    Sorting.SortBySorted(l, NewestFirst());
    ListedOnlyRows(broadcasts, links, courseId, b);
  }

  const EventLabelLimit: nat := 50

  /** The project title of a broadcast, if it has a project. */
  function ProjectTitle(b: Broadcast, projects: seq<Project>): Option<string>
  {
    if b.projectId.None? then None
    else match FindProject(projects, b.projectId.value)
      case Some(p) => Some(p.title)
      case None => None
  }

  /** `": ".join(filter(None, parts))` over the title, if any, and the date. */
  function EventText(title: Option<string>, date: string): (text: string)
    ensures title.Some? && title.value != "" && date != "" ==> text == title.value + ": " + date
    ensures title.Some? && title.value != "" && date == "" ==> text == title.value
    ensures title.None? || title.value == "" ==> text == date
  {
    var parts := (if title.Some? && title.value != "" then [title.value] else []) + (if date != "" then [date] else []);
    assert |parts| == 2 ==> parts == [title.value, date] && parts[1..] == [date] && Join(parts[1..], ": ") == date;
    Join(parts, ": ")
  }

  /** An event's button text: the title and the date, cut to 50 characters plus "..." when longer. */
  function EventLabel(title: Option<string>, date: string): (caption: string)
    ensures |caption| <= EventLabelLimit + 3
    ensures title.Some? && title.value != "" && date != "" && |title.value| + 2 + |date| <= EventLabelLimit ==>
      caption == title.value + ": " + date
    ensures (title.None? || title.value == "") && |date| <= EventLabelLimit ==> caption == date
    ensures title.Some? && |title.value| > EventLabelLimit ==>
      caption == title.value[..EventLabelLimit] + "..."
  {
    var text := EventText(title, date);
    assert title.Some? && |title.value| > EventLabelLimit ==> text[..EventLabelLimit] == title.value[..EventLabelLimit];
    Ellipsize(text, EventLabelLimit)
  }

  datatype EventsReply = BadCourseId | CourseNotFound | NoEvents | EventList(courseName: string, buttons: seq<Button>)

  const BackToProfile: Button := Callback("⬅️ Назад", "back_to_profile")

  function EventButton(b: Broadcast, projects: seq<Project>, dateOf: int -> string): Button
  {
    Callback(EventLabel(ProjectTitle(b, projects), dateOf(b.created)), "view_broadcast_" + NatToString(b.id))
  }

  /**
   * `view_course_events`: the course id is the last `_`-separated field of the payload; an
   * unknown course and a course without events get an alert; otherwise one button per
   * listed event, newest first, then the back button. `dateOf` formats a timestamp.
   */
  function ViewCourseEvents(data: string, courses: seq<Course>, broadcasts: seq<Broadcast>, links: seq<CourseLink>,
                            projects: seq<Project>, dateOf: int -> string): (r: EventsReply)
    ensures r.BadCourseId? <==> ParseNat(LastSegment(data, '_')).None?
    ensures r.CourseNotFound? <==> (ParseNat(LastSegment(data, '_')).Some? &&
      forall c :: c in courses ==> c.id != ParseNat(LastSegment(data, '_')).value)
    ensures r.NoEvents? ==> var id := ParseNat(LastSegment(data, '_')).value;
      forall b :: b in broadcasts ==> !Listed(b, links, id)
    ensures r.EventList? ==> var id := ParseNat(LastSegment(data, '_')).value;
      var events := CourseEvents(broadcasts, links, id);
      && |events| > 0
      && |r.buttons| == |events| + 1 && r.buttons[|events|] == BackToProfile
      && forall i :: 0 <= i < |events| ==> r.buttons[i] == EventButton(events[i], projects, dateOf)
  {
    match ParseNat(LastSegment(data, '_'))
    case None => BadCourseId
    case Some(id) =>
      match FindCourse(courses, id)
      case None => CourseNotFound
      case Some(course) =>
        var events := CourseEvents(broadcasts, links, id);
        CourseEventsSpec(broadcasts, links, id);
        if |events| == 0 then
          assert forall b :: b in broadcasts && Listed(b, links, id) ==> b in events;
          NoEvents
        else
          EventList(course.name,
            seq(|events|, i requires 0 <= i < |events| => EventButton(events[i], projects, dateOf)) + [BackToProfile])
  }
}
