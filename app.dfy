/**
  The screen component: its four pieces of state (`students`, `newStudent`,
  `editStudent`, `modalVisible`) as the fields of one object, and its event
  handlers as methods. Each handler that talks to the server takes the server's
  answer as an `Outcome` argument instead of performing the request.
 */
module StudentApp {
  import opened Wrappers
  import opened Roster

  /** What the server answered: the payload of a successful request, or a failure of any kind. */
  datatype Outcome<+T> = Success(data: T) | Failure

  /** The request a save issues: a create with the draft as body, or an update addressed by id. */
  datatype SaveRequest = Post(body: Draft) | Put(id: int, body: Draft)

  /** The edit form as the user sees it. */
  datatype Session = Closed | Creating | Editing(target: Student)

  class App {
    var students: seq<Student>
    var newStudent: Draft
    var editStudent: Option<Student>
    var modalVisible: bool

    /**
      The form is open whenever a record is being edited, and while it is open the
      draft carries the id of the record being edited (no id while creating).
     */
    ghost predicate Valid()
      reads this
    {
      (editStudent.Some? ==> modalVisible) &&
      (modalVisible ==> newStudent.id == if editStudent.Some? then Some(editStudent.value.id) else None)
    }

    /** The state of the edit form, read off the fields. */
    ghost function Form(): (s: Session)
      reads this
      ensures s == Closed <==> !modalVisible
      ensures s.Editing? <==> modalVisible && editStudent.Some?
    {
      if !modalVisible then Closed
      else if editStudent.None? then Creating
      else Editing(editStudent.value)
    }

    /** The initial state: empty roster, empty draft, nothing being edited, form hidden. */
    constructor ()
      ensures Valid() && Form() == Closed
      ensures students == [] && newStudent == EmptyDraft && editStudent == None && !modalVisible
    {
      students := [];
      newStudent := EmptyDraft;
      editStudent := None;
      modalVisible := false;
    }

    /** Fetch the list: on success the roster is exactly what the server returned. */
    method GetStudents(response: Outcome<seq<Student>>)
      requires Valid()
      modifies this`students
      ensures Valid()
      ensures students == if response.Success? then response.data else old(students)
    {
      if response.Success? {
        students := response.data;
      }
    }

    /** Open the form to edit `student`, or to create a new record when `student` is `None`. */
    method OpenModal(student: Option<Student>)
      modifies this`editStudent, this`newStudent, this`modalVisible
      ensures Valid()
      ensures editStudent == student && modalVisible
      ensures newStudent == if student.Some? then DraftOf(student.value) else EmptyDraft
      ensures Form() == if student.Some? then Editing(student.value) else Creating
    {
      editStudent := student;
      if student.Some? {
        newStudent := DraftOf(student.value);
      } else {
        newStudent := EmptyDraft;
      }
      modalVisible := true;
    }

    /** Hide the form and forget the record being edited; the draft is left as it is. */
    method CloseModal()
      modifies this`modalVisible, this`editStudent
      ensures Valid() && Form() == Closed
      ensures !modalVisible && editStudent == None
    {
      modalVisible := false;
      editStudent := None;
    }

    /** Typing in the name field replaces the draft's name and nothing else. */
    method ChangeName(value: string)
      requires Valid()
      modifies this`newStudent
      ensures Valid() && Form() == old(Form())
      ensures newStudent.name == value
      ensures newStudent.id == old(newStudent.id) && newStudent.age == old(newStudent.age)
      ensures newStudent.grade == old(newStudent.grade)
    {
      newStudent := newStudent.(name := value);
    }

    /** Typing in the age field replaces the draft's age; the text is not checked to be a number. */
    method ChangeAge(value: string)
      requires Valid()
      modifies this`newStudent
      ensures Valid() && Form() == old(Form())
      ensures newStudent.age == value
      ensures newStudent.id == old(newStudent.id) && newStudent.name == old(newStudent.name)
      ensures newStudent.grade == old(newStudent.grade)
    {
      newStudent := newStudent.(age := value);
    }

    /** Typing in the grade field replaces the draft's grade and nothing else. */
    method ChangeGrade(value: string)
      requires Valid()
      modifies this`newStudent
      ensures Valid() && Form() == old(Form())
      ensures newStudent.grade == value
      ensures newStudent.id == old(newStudent.id) && newStudent.name == old(newStudent.name)
      ensures newStudent.age == old(newStudent.age)
    {
      newStudent := newStudent.(grade := value);
    }

    /**
      Create: posts the draft; on success the returned record is appended and the
      form closes; on failure nothing changes and the form stays open.
     */
    method AddStudent(response: Outcome<Student>) returns (sent: SaveRequest)
      requires Valid()
      modifies this`students, this`modalVisible, this`editStudent
      ensures Valid()
      ensures sent == Post(newStudent)
      ensures response.Success? ==>
                students == Append(old(students), response.data) && Form() == Closed && editStudent == None
      ensures response.Failure? ==>
                students == old(students) && modalVisible == old(modalVisible) && editStudent == old(editStudent)
    {
      sent := Post(newStudent);
      if response.Success? {
        students := Append(students, response.data);
        CloseModal();
      }
    }

    /**
      Update: puts the draft to the edited record's id; on success every record
      with that id becomes the returned record and the form closes; on failure
      nothing changes and the form stays open. With no record being edited the
      address cannot be built, the error is caught, and no request goes out.
     */
    method UpdateStudent(response: Outcome<Student>) returns (sent: Option<SaveRequest>)
      requires Valid()
      modifies this`students, this`modalVisible, this`editStudent
      ensures Valid()
      ensures sent == if old(editStudent).Some? then Some(Put(old(editStudent).value.id, newStudent)) else None
      ensures old(editStudent).Some? && response.Success? ==>
                students == Replace(old(students), old(editStudent).value.id, response.data) &&
                Form() == Closed && editStudent == None
      ensures old(editStudent).None? || response.Failure? ==>
                students == old(students) && modalVisible == old(modalVisible) && editStudent == old(editStudent)
    {
      if editStudent.None? {
        sent := None;
        return;
      }
      var target := editStudent.value.id;
      sent := Some(Put(target, newStudent));
      if response.Success? {
        students := Replace(students, target, response.data);
        CloseModal();
      }
    }

    /** Save: updates when a record is being edited and creates otherwise, whatever the draft holds. */
    method HandleSave(response: Outcome<Student>) returns (sent: SaveRequest)
      requires Valid()
      modifies this`students, this`modalVisible, this`editStudent
      ensures Valid()
      ensures sent == if old(editStudent).Some? then Put(old(editStudent).value.id, newStudent) else Post(newStudent)
      ensures sent.Put? ==> sent.body.id == Some(sent.id)
      ensures response.Success? ==> Form() == Closed && editStudent == None
      ensures students == match response
                          case Failure => old(students)
                          case Success(r) => if sent.Put? then Replace(old(students), sent.id, r)
                                             else Append(old(students), r)
      ensures response.Failure? ==> modalVisible == old(modalVisible) && editStudent == old(editStudent)
    {
      if editStudent.Some? {
        var request := UpdateStudent(response);
        sent := request.value;
      } else {
        sent := AddStudent(response);
      }
    }

    /** Delete: on success every record with `id` is dropped, in order; on failure nothing changes. */
    method DeleteStudent(id: int, response: Outcome<()>)
      requires Valid()
      modifies this`students
      ensures Valid()
      ensures students == if response.Success? then Remove(old(students), id) else old(students)
    {
      if response.Success? {
        students := Remove(students, id);
      }
    }
  }

  /** A client scenario: the initial fetch returns one record and deleting it empties the roster. */
  method FetchThenDelete() {
    var app := new App();
    var ana := Student(1, "Ana", "10", "5A");
    app.GetStudents(Success([ana]));
    assert app.students == [ana];
    app.DeleteStudent(1, Success(()));
    assert app.students == [];
  }

  /** A client scenario: creating a record appends exactly the returned record and closes the form. */
  method CreateThenClose(roster: seq<Student>) {
    var app := new App();
    app.GetStudents(Success(roster));
    app.OpenModal(None);
    app.ChangeName("Luis");
    app.ChangeAge("12");
    app.ChangeGrade("6B");
    var luis := Student(7, "Luis", "12", "6B");
    var sent := app.HandleSave(Success(luis));
    assert sent == Post(Draft(None, "Luis", "12", "6B"));
    assert app.students == roster + [luis];
    assert app.Form() == Closed;
  }

  /** A client scenario: editing one field of a record and saving it changes that record only. */
  method EditAge(other: Student)
    requires other.id != 3
  {
    var app := new App();
    var mia := Student(3, "Mia", "9", "4A");
    app.GetStudents(Success([other, mia]));
    app.OpenModal(Some(mia));
    app.ChangeAge("10");
    var updated := Student(3, "Mia", "10", "4A");
    var sent := app.HandleSave(Success(updated));
    assert sent == Put(3, Draft(Some(3), "Mia", "10", "4A"));
    assert app.students == [other, updated];
  }

  /** A client scenario: a failed save leaves the roster and the open form as they were. */
  method FailedSaveKeepsForm(roster: seq<Student>, target: Student) {
    var app := new App();
    app.GetStudents(Success(roster));
    app.OpenModal(Some(target));
    var sent := app.HandleSave(Failure);
    assert sent == Put(target.id, DraftOf(target));
    assert app.students == roster && app.Form() == Editing(target);
  }
}
