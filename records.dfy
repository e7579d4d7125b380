/**
 * The rows the handlers read and write, with only the columns they use. A read-only query
 * takes its table as a sequence of rows in storage order; a table a handler writes is a
 * map keyed by the column the handler looks rows up by (see the Profile and
 * SpecializationAdmin modules).
 */
module Records {
  import opened Wrappers
  import opened Strings

  /** A `user` row: `tg_id` is the Telegram chat id, unique among users. */
  datatype User = User(
    id: nat,
    tgId: nat,
    firstName: Option<string>,
    lastName: Option<string>,
    username: Option<string>,
    specializationId: Option<nat>,
    courseId: Option<nat>)

  datatype Specialization = Specialization(id: nat, name: string)

  datatype Course = Course(id: nat, name: string, specializationId: nat)

  datatype Project = Project(id: nat, title: string)

  /** A `broadcasts` row; `created` is an opaque, totally ordered timestamp. */
  datatype Broadcast = Broadcast(
    id: nat,
    text: string,
    isSent: bool,
    isActive: bool,
    created: int,
    projectId: Option<nat>)

  /** A `broadcast_course_association` row. */
  datatype CourseLink = CourseLink(broadcastId: nat, courseId: nat)

  /** The first element satisfying `p`, if any: a query's first matching row in storage order. */
  function FindFirst<T>(s: seq<T>, p: T -> bool): (r: Option<T>)
    ensures r.Some? ==> r.value in s && p(r.value)
    ensures r.None? <==> forall x :: x in s ==> !p(x)
    ensures r.Some? ==> exists i :: 0 <= i < |s| && s[i] == r.value && forall j :: 0 <= j < i ==> !p(s[j])
  {
    if |s| == 0 then None
    else if p(s[0]) then Some(s[0])
    else
      assert s == [s[0]] + s[1..];
      var r := FindFirst(s[1..], p);
      assert r.Some? ==> exists i :: 0 <= i < |s| && s[i] == r.value && forall j :: 0 <= j < i ==> !p(s[j]) by {
        if r.Some? {
          var i :| 0 <= i < |s[1..]| && s[1..][i] == r.value && forall j :: 0 <= j < i ==> !p(s[1..][j]);
          assert s[i + 1] == r.value && forall j :: 0 <= j < i + 1 ==> !p(s[j]);
        }
      }
      r
  }

  /** `select(Course).where(Course.id == id)`: the first row with that id, if any. */
  function FindCourse(courses: seq<Course>, id: nat): (r: Option<Course>)
    ensures r.Some? ==> r.value in courses && r.value.id == id
    ensures r.None? <==> forall c :: c in courses ==> c.id != id
  {
    FindFirst(courses, (c: Course) => c.id == id)
  }

  /** `select(Course).where(Course.name == name)`: the first row with that exact name, if any. */
  function FindCourseByName(courses: seq<Course>, name: string): (r: Option<Course>)
    ensures r.Some? ==> r.value in courses && r.value.name == name
    ensures r.None? <==> forall c :: c in courses ==> c.name != name
  {
    FindFirst(courses, (c: Course) => c.name == name)
  }

  /** `session.get(Project, id)`. */
  function FindProject(projects: seq<Project>, id: nat): (r: Option<Project>)
    ensures r.Some? ==> r.value in projects && r.value.id == id
    ensures r.None? <==> forall p :: p in projects ==> p.id != id
  {
    FindFirst(projects, (p: Project) => p.id == id)
  }

  /** One more group of `k` rows: the step of every count that multiplies rows. */
  lemma MulSucc(n: nat, k: nat)
    ensures n * k + k == (n + 1) * k
  {
  }

  /** `select(Specialization).where(Specialization.id == id)` finds a row. */
  predicate HasSpecialization(specs: seq<Specialization>, id: nat)
  {
    exists i :: 0 <= i < |specs| && specs[i].id == id
  }

  /** `if search_query:` — a missing or empty query filters nothing. */
  predicate Filters(query: Option<string>)
  {
    query.Some? && query.value != ""
  }

  /** `Course.name.ilike(f"%{search_query}%")` when the query filters, in table order. */
  function MatchingCourses(courses: seq<Course>, query: Option<string>): (r: seq<Course>)
    ensures |r| <= |courses|
    ensures forall c :: c in r <==> c in courses && (!Filters(query) || ContainsIgnoreCase(c.name, query.value))
  {
    if |courses| == 0 then []
    else
      assert courses == [courses[0]] + courses[1..];
      (if !Filters(query) || ContainsIgnoreCase(courses[0].name, query.value) then [courses[0]] else [])
        + MatchingCourses(courses[1..], query)
  }
}
