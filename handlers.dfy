/** The component's state and what each event handler does to it, as a
    transition function on state values. The class in `Component` performs
    these transitions in place; the lemmas here are about the transitions. */
module Handlers {
  import opened JsText
  import opened Roster

  datatype Option<T> = None | Some(value: T)

  /** The four pieces of component state: the roster, the text in the name
      input, whether the "enter a name" message shows, and the id whose
      payment toggle awaits its confirming second click (if any). */
  datatype State = State(
    students: seq<Student>,
    newStudentName: string,
    showError: bool,
    confirmingPayment: Option<Id>)

  /** The state on first render. */
  const Initial: State := State([], "", false, None)

  /** One user interaction. `Submit` carries the identifier the browser's
      UUID generator returns for that submission. */
  datatype Event =
    | Submit(freshId: Id)
    | PlusClick(id: Id)
    | MinusClick(id: Id)
    | PayClick(id: Id)
    | DeleteClick(id: Id)
    | NameInput(text: string)

  /** Every stored name is non-empty and already trimmed (see
      `JsText.TrimFixedPoint`: trimming it again changes nothing). */
  predicate AllNamesTrimmed(ss: seq<Student>)
  {
    forall i :: 0 <= i < |ss| ==> ss[i].name != [] && IsTrimmed(ss[i].name)
  }

  /** What holds of every state the component can reach. */
  predicate Valid(st: State)
  {
    UniqueIds(st.students) && AllWellScored(st.students) && AllNamesTrimmed(st.students)
  }

  /** The generator is assumed to return an id not yet in the roster. */
  predicate Admissible(st: State, e: Event)
  {
    e.Submit? ==> !HasId(st.students, e.freshId)
  }

  /** Submitting the form. A blank name (after trimming) only raises the
      error flag. Otherwise exactly one record is appended after the
      unchanged old ones, holding the trimmed name, no points and unpaid,
      and the input and the error flag are cleared. */
  function AddStudent(st: State, freshId: Id): (r: State)
    ensures AllTrimmable(st.newStudentName) ==>
              r.students == st.students && r.newStudentName == st.newStudentName
              && r.showError && r.confirmingPayment == st.confirmingPayment
    ensures !AllTrimmable(st.newStudentName) ==>
              |r.students| == |st.students| + 1 && r.students[..|st.students|] == st.students
              && r.students[|st.students|] == Student(freshId, Trim(st.newStudentName), 0, false)
              && r.newStudentName == [] && !r.showError && r.confirmingPayment == st.confirmingPayment
  {
    var name := Trim(st.newStudentName);
    if name == [] then
      st.(showError := true)
    else
      st.(students := st.students + [Student(freshId, name, 0, false)], newStudentName := "", showError := false)
  }

  /** The payment button. A click on a row other than the one awaiting
      confirmation only arms the marker for this row (replacing any other),
      leaving the roster alone. A click on the row awaiting confirmation
      flips that record's paid flag and disarms the marker. */
  function TogglePaid(st: State, id: Id): (r: State)
    ensures st.confirmingPayment != Some(id) ==>
              r.confirmingPayment == Some(id) && r.(confirmingPayment := st.confirmingPayment) == st
    ensures st.confirmingPayment == Some(id) ==>
              r.confirmingPayment == None && r.students == FlipPaid(st.students, id)
              && r.newStudentName == st.newStudentName && r.showError == st.showError
  {
    if st.confirmingPayment == Some(id) then
      st.(students := FlipPaid(st.students, id), confirmingPayment := None)
    else
      st.(confirmingPayment := Some(id))
  }

  /** Typing in the name input: the text is stored and the error message
      goes away (it is cleared only when shown, which comes to the same). */
  function EditName(st: State, text: string): (r: State)
    ensures r.newStudentName == text && !r.showError
    ensures r.students == st.students && r.confirmingPayment == st.confirmingPayment
  {
    st.(newStudentName := text, showError := if st.showError then false else st.showError)
  }

  /** The handler each event runs, as one atomic transition. The three row
      buttons other than the payment one replace only the roster. */
  function Handle(st: State, e: Event): (r: State)
    ensures e.PlusClick? ==> r == st.(students := AddPointsTo(st.students, e.id))
    ensures e.MinusClick? ==> r == st.(students := RemovePointsFrom(st.students, e.id))
    ensures e.DeleteClick? ==> r == st.(students := Without(st.students, e.id))
    ensures e.PayClick? ==> r == TogglePaid(st, e.id)
    ensures e.Submit? ==> r == AddStudent(st, e.freshId)
    ensures e.NameInput? ==> r == EditName(st, e.text)
  {
    match e
    case Submit(freshId) => AddStudent(st, freshId)
    case PlusClick(id) => st.(students := AddPointsTo(st.students, id))
    case MinusClick(id) => st.(students := RemovePointsFrom(st.students, id))
    case PayClick(id) => TogglePaid(st, id)
    case DeleteClick(id) => st.(students := Without(st.students, id))
    case NameInput(text) => EditName(st, text)
  }

  /** The state after a sequence of events, handled one after another. */
  function Run(st: State, evs: seq<Event>): State
    decreases |evs|
  {
    if evs == [] then st else Run(Handle(st, evs[0]), evs[1..])
  }

  /** `n` copies of the same event. */
  function Repeat(e: Event, n: nat): seq<Event>
  {
    seq(n, _ => e)
  }

  predicate AdmissibleRun(st: State, evs: seq<Event>)
    decreases |evs|
  {
    evs == [] || (Admissible(st, evs[0]) && AdmissibleRun(Handle(st, evs[0]), evs[1..]))
  }

  // ---------------------------------------------------------------------
  // Lemmas
  // ---------------------------------------------------------------------

  /** Every handler keeps ids unique, points non-negative multiples of the
      step, and names trimmed and non-empty. */
  lemma HandleKeepsValid(st: State, e: Event)
    requires Valid(st) && Admissible(st, e)
    ensures Valid(Handle(st, e))
  {
    match e
    case Submit(freshId) => SubmitKeepsValid(st, freshId);
    case PlusClick(id) => MapKeepsValid(st.students, AddPointsTo(st.students, id));
    case MinusClick(id) => MapKeepsValid(st.students, RemovePointsFrom(st.students, id));
    case PayClick(id) => MapKeepsValid(st.students, TogglePaid(st, id).students);
    case DeleteClick(id) => DeleteKeepsValid(st.students, id);
    case NameInput(text) =>
  }

  lemma SubmitKeepsValid(st: State, freshId: Id)
    requires Valid(st) && !HasId(st.students, freshId)
    ensures Valid(AddStudent(st, freshId))
  {
    if !AllTrimmable(st.newStudentName) {
      var ss, r := st.students, AddStudent(st, freshId).students;
      var x := r[|ss|];
      assert r == ss + [x];
      AppendKeepsValid(ss, x);
    }
  }

  /** Appending a well-formed record under a new id keeps the invariant. */
  lemma AppendKeepsValid(ss: seq<Student>, x: Student)
    requires UniqueIds(ss) && AllWellScored(ss) && AllNamesTrimmed(ss) && !HasId(ss, x.id)
    requires WellScored(x) && x.name != [] && IsTrimmed(x.name)
    ensures var r := ss + [x]; UniqueIds(r) && AllWellScored(r) && AllNamesTrimmed(r)
  {
    forall i | 0 <= i < |ss| ensures ss[i].id != x.id {
    }
  }

  /** A roster that keeps every record's id and name and whose points are
      well formed stays valid. */
  lemma MapKeepsValid(ss: seq<Student>, r: seq<Student>)
    requires UniqueIds(ss) && AllNamesTrimmed(ss) && AllWellScored(r)
    requires |r| == |ss| && forall i :: 0 <= i < |ss| ==> r[i].id == ss[i].id && r[i].name == ss[i].name
    ensures UniqueIds(r) && AllNamesTrimmed(r)
  {
  }

  lemma DeleteKeepsValid(ss: seq<Student>, id: Id)
    requires UniqueIds(ss) && AllWellScored(ss) && AllNamesTrimmed(ss)
    ensures var r := Without(ss, id); UniqueIds(r) && AllWellScored(r) && AllNamesTrimmed(r)
  {
    var r := Without(ss, id);
    WithoutUnique(ss, id);
    forall i | 0 <= i < |r| ensures WellScored(r[i]) && r[i].name != [] && IsTrimmed(r[i].name) {
      assert r[i] in ss;
    }
  }

  /** Every state reached from a valid one through events whose generated
      ids are fresh is valid, in particular every state reached from the
      initial one. */
  lemma {:induction false} RunKeepsValid(st: State, evs: seq<Event>)
    requires Valid(st) && AdmissibleRun(st, evs)
    ensures Valid(Run(st, evs))
    decreases |evs|
  {
    if evs != [] {
      HandleKeepsValid(st, evs[0]);
      RunKeepsValid(Handle(st, evs[0]), evs[1..]);
    }
  }

  /** On every reachable state the overview panel shows a non-negative point
      total that is a multiple of the step. */
  lemma ReachableSummary(evs: seq<Event>)
    requires AdmissibleRun(Initial, evs)
    ensures var s := Summarize(Run(Initial, evs).students);
      s.totalPoints >= 0 && s.totalPoints % PointStep == 0
  {
    RunKeepsValid(Initial, evs);
  }

  /** Two clicks on the same payment button flip that record's paid flag
      exactly once, whichever row was awaiting confirmation before. */
  lemma ToggleTwiceFlipsOnce(st: State, id: Id)
    ensures var r := TogglePaid(TogglePaid(st, id), id);
      r.students == FlipPaid(st.students, id)
      && r.newStudentName == st.newStudentName && r.showError == st.showError
      && r.confirmingPayment == (if st.confirmingPayment == Some(id) then Some(id) else None)
  {
  }

  /** A plus click followed by a minus click on the same row restores the
      state exactly. */
  lemma PlusThenMinusRestores(st: State, id: Id)
    requires Valid(st)
    ensures Handle(Handle(st, PlusClick(id)), MinusClick(id)) == st
  {
    AddThenRemove(st.students, id);
  }

  /** Handling `a + b` is handling `a`, then `b`. */
  lemma {:induction false} RunConcat(st: State, a: seq<Event>, b: seq<Event>)
    ensures Run(st, a + b) == Run(Run(st, a), b)
    decreases |a|
  {
    if a == [] {
      assert a + b == b;
    } else {
      assert (a + b)[0] == a[0] && (a + b)[1..] == a[1..] + b;
      RunConcat(Handle(st, a[0]), a[1..], b);
    }
  }

  /** `n` plus clicks on a row replace only the roster, by `AddN`. */
  lemma {:induction false} RunPlusClicks(st: State, id: Id, n: nat)
    ensures Run(st, Repeat(PlusClick(id), n)) == st.(students := AddN(st.students, id, n))
    decreases n
  {
    if n > 0 {
      var evs := Repeat(PlusClick(id), n);
      assert evs[0] == PlusClick(id) && evs[1..] == Repeat(PlusClick(id), n - 1);
      RunPlusClicks(Handle(st, PlusClick(id)), id, n - 1);
    }
  }

  /** `n` minus clicks on a row replace only the roster, by `RemoveN`. */
  lemma {:induction false} RunMinusClicks(st: State, id: Id, n: nat)
    ensures Run(st, Repeat(MinusClick(id), n)) == st.(students := RemoveN(st.students, id, n))
    decreases n
  {
    if n > 0 {
      var evs := Repeat(MinusClick(id), n);
      assert evs[0] == MinusClick(id) && evs[1..] == Repeat(MinusClick(id), n - 1);
      RunMinusClicks(Handle(st, MinusClick(id)), id, n - 1);
    }
  }

  /** In a valid state, `n` plus clicks followed by `n` minus clicks on the
      same row restore the whole state. */
  lemma PlusNThenMinusNRestores(st: State, id: Id, n: nat)
    requires Valid(st)
    ensures Run(st, Repeat(PlusClick(id), n) + Repeat(MinusClick(id), n)) == st
  {
    RunConcat(st, Repeat(PlusClick(id), n), Repeat(MinusClick(id), n));
    RunPlusClicks(st, id, n);
    RunMinusClicks(st.(students := AddN(st.students, id, n)), id, n);
    PlusNMinusN(st.students, id, n);
  }

  /** With the ids of a valid state, deleting the id of record `k` shortens
      the roster by one and keeps the others in order, paid or not; deleting
      an absent id changes nothing. */
  lemma DeleteRemovesOne(st: State, id: Id)
    requires Valid(st)
    ensures forall k :: 0 <= k < |st.students| && st.students[k].id == id ==>
              Handle(st, DeleteClick(id)).students == st.students[..k] + st.students[k + 1..]
    ensures !HasId(st.students, id) ==> Handle(st, DeleteClick(id)) == st
  {
    forall k | 0 <= k < |st.students| && st.students[k].id == id
      ensures Without(st.students, id) == st.students[..k] + st.students[k + 1..]
    {
      DeleteUnique(st.students, id, k);
    }
    if !HasId(st.students, id) {
      WithoutAbsent(st.students, id);
    }
  }

  /** A successful submission adds one pending student and leaves the paid
      count and the point total as they were. */
  lemma SubmitKeepsTotals(st: State, freshId: Id)
    requires !AllTrimmable(st.newStudentName)
    ensures var r := AddStudent(st, freshId).students;
      |r| == |st.students| + 1 && PaidCount(r) == PaidCount(st.students)
      && TotalPoints(r) == TotalPoints(st.students)
  {
    var x := Student(freshId, Trim(st.newStudentName), 0, false);
    assert [x][..0] == [];
    TotalPointsConcat(st.students, [x]);
    PaidCountConcat(st.students, [x]);
  }
}
