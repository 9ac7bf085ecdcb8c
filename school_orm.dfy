/** The Course/Student/Teacher store of the SQLAlchemy form app
    (part-3/practice.py): guard chains with early returns in front of an
    insert, an in-place edit or a delete. */
module SchoolOrm {
  import opened Common
  import opened Tables

  /** A row of `course`; `description` is an optional TEXT column. */
  datatype Course = Course(name: string, description: string)

  /** A row of `student` or of `teacher`: the two tables have the same columns. */
  datatype Person = Person(name: string, email: string, courseId: int)

  /** The submitted `course_id`: absent or empty, the text of an id, or text
      that is no id at all (no course can have it). */
  datatype FormId = Blank | Id(n: int) | NotAnId

  /** A submitted student or teacher form; an absent name or email is "". */
  datatype PersonForm = PersonForm(name: string, email: string, courseId: FormId)

  /** A submitted course form; `None` is a key missing from the form. */
  datatype CourseForm = CourseForm(name: Option<string>, description: Option<string>)

  /** `not name or not email or not course_id` is false. */
  predicate Complete(f: PersonForm) {
    f.name != "" && f.email != "" && !f.courseId.Blank?
  }

  /** `Course.query.get(course_id)` finds a row. */
  predicate CourseExists(courses: map<int, Course>, c: FormId) {
    c.Id? && c.n in courses
  }

  /** `filter_by(email=email).first()` finds a row. */
  predicate EmailUsed(table: map<int, Person>, email: string) {
    exists k :: k in table && table[k].email == email
  }

  /** `filter(email == email, id != id).first()` finds a row. */
  predicate EmailUsedByOther(table: map<int, Person>, email: string, id: int) {
    exists k :: k in table && k != id && table[k].email == email
  }

  ghost predicate EmailsUnique(table: map<int, Person>) {
    forall i, j :: i in table && j in table && i != j ==> table[i].email != table[j].email
  }

  /** Every row points at a stored course. */
  ghost predicate CourseRefsValid(table: map<int, Person>, courses: map<int, Course>) {
    forall k :: k in table ==> table[k].courseId in courses
  }

  /** The guards of `add_student` and of `add_teacher`, in order: required
      fields, then the email against the table `emailsOf`, then the course. */
  function AddGuards(f: PersonForm, emailsOf: map<int, Person>, courses: map<int, Course>): seq<Guard> {
    [ Guard(Complete(f), MissingField),
      Guard(!EmailUsed(emailsOf, f.email), Duplicate),
      Guard(CourseExists(courses, f.courseId), BadReference) ]
  }

  function AddVerdict(f: PersonForm, emailsOf: map<int, Person>, courses: map<int, Course>): Outcome {
    FirstFailure(AddGuards(f, emailsOf, courses))
  }

  /** The guards of `edit_student` and of `edit_teacher`, in order: the record
      exists (`get_or_404`), required fields, the course, then the email
      against the other rows of the same table. */
  function EditGuards(id: int, f: PersonForm, table: map<int, Person>, courses: map<int, Course>): seq<Guard> {
    [ Guard(id in table, NotFound),
      Guard(Complete(f), MissingField),
      Guard(CourseExists(courses, f.courseId), BadReference),
      Guard(!EmailUsedByOther(table, f.email, id), Duplicate) ]
  }

  function EditVerdict(id: int, f: PersonForm, table: map<int, Person>, courses: map<int, Course>): Outcome {
    FirstFailure(EditGuards(id, f, table, courses))
  }

  /** The row a form becomes once its course id has been found. */
  function FormRow(f: PersonForm): Person
    requires f.courseId.Id?
  {
    Person(f.name, f.email, f.courseId.n)
  }

  /** An accepted add has every field and a stored course, and stores a row
      whose course exists. */
  lemma AddAccepted(f: PersonForm, emailsOf: map<int, Person>, courses: map<int, Course>)
    requires AddVerdict(f, emailsOf, courses) == Ok
    ensures Complete(f) && !EmailUsed(emailsOf, f.email) && CourseExists(courses, f.courseId)
  {
    var gs := AddGuards(f, emailsOf, courses);
    assert gs[0].pass && gs[1].pass && gs[2].pass;
  }

  /** `add_student` reports a taken email before it looks at the course. */
  lemma AddDuplicateBeforeCourse(f: PersonForm, emailsOf: map<int, Person>, courses: map<int, Course>)
    requires Complete(f) && EmailUsed(emailsOf, f.email)
    ensures AddVerdict(f, emailsOf, courses) == Duplicate
  {
    FirstFailureAt(AddGuards(f, emailsOf, courses), 1);
  }

  /** `edit_student` reports an unknown course before it looks at the email. */
  lemma EditCourseBeforeDuplicate(id: int, f: PersonForm, table: map<int, Person>, courses: map<int, Course>)
    requires id in table && Complete(f) && !CourseExists(courses, f.courseId)
    ensures EditVerdict(id, f, table, courses) == BadReference
  {
    FirstFailureAt(EditGuards(id, f, table, courses), 2);
  }

  /** `add_student` keeps student emails unique and every student's course stored. */
  lemma AddStudentKeepsInvariants(students: map<int, Person>, courses: map<int, Course>, id: int, f: PersonForm)
    requires EmailsUnique(students) && CourseRefsValid(students, courses) && id !in students
    requires AddVerdict(f, students, courses) == Ok
    ensures f.courseId.Id?
    ensures EmailsUnique(students[id := FormRow(f)]) && CourseRefsValid(students[id := FormRow(f)], courses)
  {
    AddAccepted(f, students, courses);
  }

  /** A successful edit keeps emails unique within the edited table and every
      row's course stored. */
  lemma EditKeepsInvariants(table: map<int, Person>, courses: map<int, Course>, id: int, f: PersonForm)
    requires EmailsUnique(table) && CourseRefsValid(table, courses)
    requires EditVerdict(id, f, table, courses) == Ok
    ensures f.courseId.Id?
    ensures EmailsUnique(table[id := FormRow(f)]) && CourseRefsValid(table[id := FormRow(f)], courses)
  {
    var gs := EditGuards(id, f, table, courses);
    assert gs[0].pass && gs[1].pass && gs[2].pass && gs[3].pass;
  }

  /** Re-submitting a record's own email passes the uniqueness check, because
      the record itself is excluded from it. */
  lemma EditOwnEmailAccepted(table: map<int, Person>, courses: map<int, Course>, id: int, f: PersonForm)
    requires EmailsUnique(table) && id in table && f.email == table[id].email
    requires Complete(f) && CourseExists(courses, f.courseId)
    ensures EditVerdict(id, f, table, courses) == Ok
  {
    var gs := EditGuards(id, f, table, courses);
    assert gs[3].pass;
  }

  /** `add_teacher` compares the email with the student table only: an email
      that another teacher already has is accepted, and the teacher table then
      holds it twice. */
  lemma AddTeacherAdmitsTeacherDuplicate(
    students: map<int, Person>, teachers: map<int, Person>, courses: map<int, Course>, id: int, f: PersonForm)
    requires Complete(f) && CourseExists(courses, f.courseId) && !EmailUsed(students, f.email)
    requires EmailUsed(teachers, f.email) && id !in teachers
    ensures AddVerdict(f, students, courses) == Ok
    ensures !EmailsUnique(teachers[id := FormRow(f)])
  {
    var k :| k in teachers && teachers[k].email == f.email;
    var after := teachers[id := FormRow(f)];
    assert k in after && id in after && k != id && after[k].email == after[id].email;
  }

  /** The own-email exemption does not help once a table already holds an
      email twice, as `add_teacher` allows: editing either teacher with that
      email is refused as a duplicate. */
  lemma EditTeacherAfterDuplicateRefused()
    ensures var courses := map[1 := Course("Python Basics", "")];
      var teachers := map[1 := Person("Ann", "a@x.org", 1), 2 := Person("Bob", "a@x.org", 1)];
      !EmailsUnique(teachers)
      && EditVerdict(1, PersonForm("Ann", "a@x.org", Id(1)), teachers, courses) == Duplicate
  {
    var courses := map[1 := Course("Python Basics", "")];
    var teachers := map[1 := Person("Ann", "a@x.org", 1), 2 := Person("Bob", "a@x.org", 1)];
    var f := PersonForm("Ann", "a@x.org", Id(1));
    assert teachers[2].email == f.email;
    FirstFailureAt(EditGuards(1, f, teachers, courses), 3);
  }

  /** The three tables of `school.db` with their next ids. */
  class School {
    var courses: map<int, Course>
    var students: map<int, Person>
    var teachers: map<int, Person>
    var nextCourse: int
    var nextStudent: int
    var nextTeacher: int

    ghost predicate Valid()
      reads this
    {
      && 1 <= nextCourse && IdsBelow(courses, nextCourse)
      && 1 <= nextStudent && IdsBelow(students, nextStudent)
      && 1 <= nextTeacher && IdsBelow(teachers, nextTeacher)
    }

    constructor ()
      ensures Valid()
      ensures courses == map[] && students == map[] && teachers == map[]
    {
      courses, students, teachers := map[], map[], map[];
      nextCourse, nextStudent, nextTeacher := 1, 1, 1;
    }

    /** `add_student` (POST /add). */
    method AddStudent(f: PersonForm) returns (outcome: Outcome)
      requires Valid()
      modifies this
      ensures Valid()
      ensures courses == old(courses) && teachers == old(teachers)
      ensures nextCourse == old(nextCourse) && nextTeacher == old(nextTeacher)
      ensures outcome == AddVerdict(f, old(students), courses)
      ensures outcome == Ok ==> f.courseId.Id? && students == old(students)[old(nextStudent) := FormRow(f)]
                                && nextStudent == old(nextStudent) + 1
      ensures outcome != Ok ==> students == old(students) && nextStudent == old(nextStudent)
    {
      ghost var gs := AddGuards(f, students, courses);
      if f.name == "" || f.email == "" || f.courseId.Blank? {
        return MissingField;
      }
      if EmailUsed(students, f.email) {
        FirstFailureAt(gs, 1);
        return Duplicate;
      }
      if !(f.courseId.Id? && f.courseId.n in courses) {
        FirstFailureAt(gs, 2);
        return BadReference;
      }
      students := students[nextStudent := Person(f.name, f.email, f.courseId.n)];
      nextStudent := nextStudent + 1;
      outcome := Ok;
    }

    /** `edit_student` (POST /edit/<id>): overwrites name, email and course of
        that one student. */
    method EditStudent(id: int, f: PersonForm) returns (outcome: Outcome)
      requires Valid()
      modifies this
      ensures Valid()
      ensures courses == old(courses) && teachers == old(teachers)
      ensures nextCourse == old(nextCourse) && nextStudent == old(nextStudent) && nextTeacher == old(nextTeacher)
      ensures outcome == EditVerdict(id, f, old(students), courses)
      ensures outcome == Ok ==> f.courseId.Id? && students == old(students)[id := FormRow(f)]
      ensures outcome != Ok ==> students == old(students)
    {
      ghost var gs := EditGuards(id, f, students, courses);
      if id !in students {
        return NotFound;
      }
      if f.name == "" || f.email == "" || f.courseId.Blank? {
        FirstFailureAt(gs, 1);
        return MissingField;
      }
      if !(f.courseId.Id? && f.courseId.n in courses) {
        FirstFailureAt(gs, 2);
        return BadReference;
      }
      if EmailUsedByOther(students, f.email, id) {
        FirstFailureAt(gs, 3);
        return Duplicate;
      }
      students := students[id := Person(f.name, f.email, f.courseId.n)];
      outcome := Ok;
    }

    /** `delete_student` (/delete/<id>). */
    method DeleteStudent(id: int) returns (outcome: Outcome)
      requires Valid()
      modifies this
      ensures Valid()
      ensures courses == old(courses) && teachers == old(teachers)
      ensures nextCourse == old(nextCourse) && nextStudent == old(nextStudent) && nextTeacher == old(nextTeacher)
      ensures outcome == (if id in old(students) then Ok else NotFound)
      ensures students == old(students) - {id}
    {
      if id !in students {
        return NotFound;
      }
      students := students - {id};
      outcome := Ok;
    }

    /** `add_course` (POST /add-course): no validation. A missing name breaks
        the NOT NULL constraint at commit; an empty one is stored. A missing
        description is stored as "". */
    method AddCourse(f: CourseForm) returns (outcome: Outcome)
      requires Valid()
      modifies this
      ensures Valid()
      ensures students == old(students) && teachers == old(teachers)
      ensures nextStudent == old(nextStudent) && nextTeacher == old(nextTeacher)
      ensures outcome == (if f.name.None? then StorageError else Ok)
      ensures outcome == Ok ==> courses == old(courses)[old(nextCourse) := Course(f.name.value, f.description.GetOr(""))]
                                && nextCourse == old(nextCourse) + 1
      ensures outcome != Ok ==> courses == old(courses) && nextCourse == old(nextCourse)
    {
      if f.name.None? {
        return StorageError;
      }
      courses := courses[nextCourse := Course(f.name.value, f.description.GetOr(""))];
      nextCourse := nextCourse + 1;
      outcome := Ok;
    }

    /** `add_teacher` (POST /add-teacher): the same chain as `add_student`, but
        the email is looked up in the student table. */
    method AddTeacher(f: PersonForm) returns (outcome: Outcome)
      requires Valid()
      modifies this
      ensures Valid()
      ensures courses == old(courses) && students == old(students)
      ensures nextCourse == old(nextCourse) && nextStudent == old(nextStudent)
      ensures outcome == AddVerdict(f, students, courses)
      ensures outcome == Ok ==> f.courseId.Id? && teachers == old(teachers)[old(nextTeacher) := FormRow(f)]
                                && nextTeacher == old(nextTeacher) + 1
      ensures outcome != Ok ==> teachers == old(teachers) && nextTeacher == old(nextTeacher)
    {
      ghost var gs := AddGuards(f, students, courses);
      if f.name == "" || f.email == "" || f.courseId.Blank? {
        return MissingField;
      }
      if EmailUsed(students, f.email) {
        FirstFailureAt(gs, 1);
        return Duplicate;
      }
      if !(f.courseId.Id? && f.courseId.n in courses) {
        FirstFailureAt(gs, 2);
        return BadReference;
      }
      teachers := teachers[nextTeacher := Person(f.name, f.email, f.courseId.n)];
      nextTeacher := nextTeacher + 1;
      outcome := Ok;
    }

    /** `edit_teacher` (POST /edit_teacher/<id>): the email must not belong to
        another teacher. */
    method EditTeacher(id: int, f: PersonForm) returns (outcome: Outcome)
      requires Valid()
      modifies this
      ensures Valid()
      ensures courses == old(courses) && students == old(students)
      ensures nextCourse == old(nextCourse) && nextStudent == old(nextStudent) && nextTeacher == old(nextTeacher)
      ensures outcome == EditVerdict(id, f, old(teachers), courses)
      ensures outcome == Ok ==> f.courseId.Id? && teachers == old(teachers)[id := FormRow(f)]
      ensures outcome != Ok ==> teachers == old(teachers)
    {
      ghost var gs := EditGuards(id, f, teachers, courses);
      if id !in teachers {
        return NotFound;
      }
      if f.name == "" || f.email == "" || f.courseId.Blank? {
        FirstFailureAt(gs, 1);
        return MissingField;
      }
      if !(f.courseId.Id? && f.courseId.n in courses) {
        FirstFailureAt(gs, 2);
        return BadReference;
      }
      if EmailUsedByOther(teachers, f.email, id) {
        FirstFailureAt(gs, 3);
        return Duplicate;
      }
      teachers := teachers[id := Person(f.name, f.email, f.courseId.n)];
      outcome := Ok;
    }

    /** `delete_teacher` (/delete_teacher/<id>). */
    method DeleteTeacher(id: int) returns (outcome: Outcome)
      requires Valid()
      modifies this
      ensures Valid()
      ensures courses == old(courses) && students == old(students)
      ensures nextCourse == old(nextCourse) && nextStudent == old(nextStudent) && nextTeacher == old(nextTeacher)
      ensures outcome == (if id in old(teachers) then Ok else NotFound)
      ensures teachers == old(teachers) - {id}
    {
      if id !in teachers {
        return NotFound;
      }
      teachers := teachers - {id};
      outcome := Ok;
    }
  }
}
