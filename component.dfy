/** The roster component itself: its four state variables as fields and its
    event handlers as methods that update them in place. Each method is
    proved to perform exactly the transition `Handlers.Handle` describes for
    its event, and to keep the component's invariant. */
module Component {
  import opened JsText
  import opened Roster
  import opened Handlers

  class App {
    var students: seq<Student>
    var newStudentName: string
    var showError: bool
    var confirmingPayment: Option<Id>

    /** The current values of the four state variables. */
    function Snapshot(): State
      reads this
    {
      State(students, newStudentName, showError, confirmingPayment)
    }

    ghost predicate Valid()
      reads this
    {
      Handlers.Valid(Snapshot())
    }

    /** First render: an empty roster, an empty input, no message and no
        pending payment confirmation. */
    constructor ()
      ensures Snapshot() == Initial && Valid()
    {
      students := [];
      newStudentName := "";
      showError := false;
      confirmingPayment := None;
    }

    /** Form submission; `freshId` is the identifier the UUID generator
        returns, which is not yet in the roster. */
    method AddStudent(freshId: Id)
      requires Valid() && !HasId(students, freshId)
      modifies this
      ensures Valid()
      ensures Snapshot() == Handle(old(Snapshot()), Submit(freshId))
    {
      HandleKeepsValid(Snapshot(), Submit(freshId));
      var name := Trim(newStudentName);
      if name == [] {
        showError := true;
        return;
      }
      students := students + [Student(freshId, name, 0, false)];
      newStudentName := "";
      showError := false;
    }

    method AddPoints(id: Id)
      requires Valid()
      modifies this
      ensures Valid()
      ensures Snapshot() == Handle(old(Snapshot()), PlusClick(id))
    {
      HandleKeepsValid(Snapshot(), PlusClick(id));
      students := AddPointsTo(students, id);
    }

    method RemovePoints(id: Id)
      requires Valid()
      modifies this
      ensures Valid()
      ensures Snapshot() == Handle(old(Snapshot()), MinusClick(id))
    {
      HandleKeepsValid(Snapshot(), MinusClick(id));
      students := RemovePointsFrom(students, id);
    }

    /** First click on a row arms the confirmation marker; the second
        click on the same row flips its paid flag and disarms it. */
    method TogglePaid(id: Id)
      requires Valid()
      modifies this
      ensures Valid()
      ensures Snapshot() == Handle(old(Snapshot()), PayClick(id))
    {
      HandleKeepsValid(Snapshot(), PayClick(id));
      if confirmingPayment == Some(id) {
        students := FlipPaid(students, id);
        confirmingPayment := None;
      } else {
        confirmingPayment := Some(id);
      }
    }

    method DeleteStudent(id: Id)
      requires Valid()
      modifies this
      ensures Valid()
      ensures Snapshot() == Handle(old(Snapshot()), DeleteClick(id))
    {
      HandleKeepsValid(Snapshot(), DeleteClick(id));
      students := Without(students, id);
    }

    /** The name input's change handler. */
    method ChangeName(text: string)
      requires Valid()
      modifies this
      ensures Valid()
      ensures Snapshot() == Handle(old(Snapshot()), NameInput(text))
    {
      HandleKeepsValid(Snapshot(), NameInput(text));
      newStudentName := text;
      if showError {
        showError := false;
      }
    }

    /** The overview figures shown on each render. */
    function Stats(): (r: Summary)
      reads this
      requires Valid()
      ensures r.paidStudents == PaidCount(students) && r.totalPoints == TotalPoints(students)
      ensures r.paidStudents + r.pendingStudents == r.totalStudents == |students|
      ensures r.totalPoints >= 0 && r.totalPoints % PointStep == 0
    {
      Summarize(students)
    }
  }
}
