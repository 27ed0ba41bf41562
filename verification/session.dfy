/**
 A session on the roster screen as a sequence of user actions, and the
 invariants every state reachable from the first render keeps: no class
 time above capacity, every booked name non-blank and at most 30
 characters, and an open modal always targeting a class time.
 */
module Session {
  import opened JsText
  import opened Schedule
  import opened App

  /** The controls the user can press. The four modal controls exist only
      while the modal is shown; the per-class-time controls are always there. */
  datatype Event =
    | OpenModal(slot: Slot)
    | TypeName(text: string)
    | PickPlan(plan: Plan)
    | Submit
    | Cancel
    | RemoveByName(slot: Slot, name: string)
    | ConfirmClear(slot: Slot)

  /** The control behind `e` is on screen and accepts the input. */
  predicate Enabled(s: State, e: Event) {
    match e
    case TypeName(text) => s.draft.visible && |text| <= MaxNameLength
    case PickPlan(_) => s.draft.visible
    case Submit => s.draft.visible
    case Cancel => s.draft.visible
    case _ => true
  }

  /** A booking the add workflow can have produced. */
  predicate ValidBooking(st: Student) {
    !Blank(st.name) && |st.name| <= MaxNameLength
  }

  /** What holds of every state reachable from the first render. */
  predicate Inv(s: State) {
    && WithinCapacity(s.students)
    && (forall slot, st :: st in s.students[slot] ==> ValidBooking(st))
    && |s.draft.name| <= MaxNameLength
    && (s.draft.visible ==> s.draft.field.Some?)
    && (!s.draft.visible ==> s.draft.name == [] && s.draft.option.None?)
  }

  /** A successful submit books a valid student into a class time with
      room left, so the invariant survives every submit. */
  lemma AddStudentKeepsInv(s: State)
    requires Inv(s) && s.draft.visible
    ensures Inv(AddStudent(s).state)
  {
  }

  /** Removing only drops bookings, so the invariant survives it. */
  lemma RemoveStudentKeepsInv(s: State, slot: Slot, name: string)
    requires Inv(s)
    ensures Inv(RemoveStudent(s, slot, name))
  {
  }

  /** One user action. An action whose control is not on screen cannot
      happen, so it leaves the state as it is. */
  function Apply(s: State, e: Event): (t: State)
    requires Inv(s)
    ensures Inv(t)
  {
    if !Enabled(s, e) then s
    else match e
      case OpenModal(slot) => ShowModal(s, slot)
      case TypeName(text) => SetName(s, text)
      case PickPlan(p) => SelectOption(s, p)
      case Submit => AddStudentKeepsInv(s); AddStudent(s).state
      case Cancel => CancelAddStudent(s)
      case RemoveByName(slot, name) => RemoveStudentKeepsInv(s, slot, name); RemoveStudent(s, slot, name)
      case ConfirmClear(slot) => ClearAllStudents(s, slot)
  }

  /** The state after the actions `es`, in order. */
  function Run(s: State, es: seq<Event>): (t: State)
    requires Inv(s)
    ensures Inv(t)
    decreases |es|
  {
    if es == [] then s else Run(Apply(s, es[0]), es[1..])
  }

  /** The first render satisfies the invariant, so every session does. */
  lemma InitialInv()
    ensures Inv(Initial())
  {
  }

  /** No class time ever holds more than 17 students, whatever the user does. */
  lemma NeverOverCapacity(es: seq<Event>)
    ensures forall slot :: |Run(Initial(), es).students[slot]| <= Capacity
  {
  }

  /** Running two sessions back to back is running their concatenation. */
  lemma {:induction false} RunAppend(s: State, a: seq<Event>, b: seq<Event>)
    requires Inv(s)
    ensures Run(s, a + b) == Run(Run(s, a), b)
    decreases |a|
  {
    if a == [] {
      assert a + b == b;
    } else {
      assert (a + b)[0] == a[0];
      assert (a + b)[1..] == a[1..] + b;
      RunAppend(Apply(s, a[0]), a[1..], b);
    }
  }

  /** The whole add workflow: open the modal on `slot`, type `name`, pick `plan`, submit. */
  function Round(slot: Slot, name: string, plan: Plan): seq<Event> {
    [OpenModal(slot), TypeName(name), PickPlan(plan), Submit]
  }

  /** The four steps of one round, spelled out. */
  lemma RoundSteps(s: State, slot: Slot, name: string, plan: Plan)
    requires Inv(s) && |name| <= MaxNameLength
    ensures
      var s1 := Apply(s, OpenModal(slot));
      var s2 := Apply(s1, TypeName(name));
      var s3 := Apply(s2, PickPlan(plan));
      && s3 == State(s.students, Draft(true, Some(slot), name, Some(plan)))
      && Run(s, Round(slot, name, plan)) == Apply(s3, Submit)
  {
    var s1 := Apply(s, OpenModal(slot));
    var s2 := Apply(s1, TypeName(name));
    var s3 := Apply(s2, PickPlan(plan));
    var es := Round(slot, name, plan);
    assert es[1..] == [TypeName(name), PickPlan(plan), Submit];
    assert es[1..][1..] == [PickPlan(plan), Submit];
    assert es[1..][1..][1..] == [Submit];
    calc {
      Run(s, es);
      Run(s1, es[1..]);
      Run(s2, es[1..][1..]);
      Run(s3, es[1..][1..][1..]);
      Run(Apply(s3, Submit), []);
    }
  }

  /** A round with a non-blank name on a class time with room left books
      exactly that student at the end of it and closes the modal. */
  lemma RoundAppends(s: State, slot: Slot, name: string, plan: Plan)
    requires Inv(s) && |name| <= MaxNameLength && !Blank(name)
    requires |s.students[slot]| < Capacity
    ensures var t := Run(s, Round(slot, name, plan));
      && t.students[slot] == s.students[slot] + [Student(name, plan)]
      && OthersUnchanged(s.students, t.students, slot)
      && DraftReset(t.draft)
  {
    RoundSteps(s, slot, name, plan);
  }

  /** A round on a full class time books no one and leaves the modal open
      with the typed name and the chosen plan still in it. */
  lemma RoundRejectsWhenFull(s: State, slot: Slot, name: string, plan: Plan)
    requires Inv(s) && |name| <= MaxNameLength && !Blank(name)
    requires |s.students[slot]| == Capacity
    ensures var t := Run(s, Round(slot, name, plan));
      && t.students == s.students
      && t.draft == Draft(true, Some(slot), name, Some(plan))
  {
    RoundSteps(s, slot, name, plan);
  }

  /** `n` rounds booking `name` on `plan` into `slot`. */
  function Fill(slot: Slot, name: string, plan: Plan, n: nat): seq<Event> {
    if n == 0 then [] else Fill(slot, name, plan, n - 1) + Round(slot, name, plan)
  }

  /** From the first render, `n` rounds with a valid name on one class time
      book `n` students there, as long as `n` stays within capacity. */
  lemma {:induction false} FillBooks(slot: Slot, name: string, plan: Plan, n: nat)
    requires |name| <= MaxNameLength && !Blank(name) && n <= Capacity
    ensures var t := Run(Initial(), Fill(slot, name, plan, n));
      && |t.students[slot]| == n
      && (forall o :: o != slot ==> t.students[o] == [])
      && DraftReset(t.draft)
  {
    InitialInv();
    if n == 0 {
      assert Run(Initial(), Fill(slot, name, plan, n)) == Initial();
    } else {
      var prefix := Fill(slot, name, plan, n - 1);
      FillBooks(slot, name, plan, n - 1);
      var t := Run(Initial(), prefix);
      RunAppend(Initial(), prefix, Round(slot, name, plan));
      RoundAppends(t, slot, name, plan);
      var t' := Run(t, Round(slot, name, plan));
      assert Run(Initial(), Fill(slot, name, plan, n)) == t';
      assert |t'.students[slot]| == |t.students[slot]| + 1;
      forall o | o != slot
        ensures t'.students[o] == []
      {
        assert t'.students[o] == t.students[o];
      }
    }
  }

  /** Seventeen bookings into the seven o'clock class fill it; an
      eighteenth, otherwise valid, is refused and the count stays at 17. */
  lemma EighteenthRefused()
    ensures var t := Run(Initial(), Fill(H7, "Aluno", Simples, Capacity));
      && |t.students[H7]| == Capacity
      && var u := Run(t, Round(H7, "Bia", Vip));
      && u.students == t.students
      && u.draft == Draft(true, Some(H7), "Bia", Some(Vip))
  {
    InitialInv();
    assert !Blank("Aluno") by { assert !IsWhite("Aluno"[0]); }
    assert !Blank("Bia") by { assert !IsWhite("Bia"[0]); }
    FillBooks(H7, "Aluno", Simples, Capacity);
    var t := Run(Initial(), Fill(H7, "Aluno", Simples, Capacity));
    RoundRejectsWhenFull(t, H7, "Bia", Vip);
  }

  /** Booking "Ana" on the Vip plan at six o'clock from the first render. */
  lemma AnaBooked()
    ensures var t := Run(Initial(), Round(H6, "Ana", Vip));
      && t.students[H6] == [Student("Ana", Vip)]
      && (forall o :: o != H6 ==> t.students[o] == [])
      && DraftReset(t.draft)
  {
  }

  /** A name of blanks is refused before the plan is even looked at, and
      nothing changes. */
  lemma BlankNameRefused(s: State)
    requires Inv(s) && s.draft.visible
    ensures var u := Apply(s, TypeName("  "));
      && AddStudent(u).outcome == EmptyName
      && AddStudent(u).state == u
  {
  }

  /** Opening the modal and cancelling it books no one and closes the modal. */
  lemma OpenThenCancel(s: State, slot: Slot)
    requires Inv(s)
    ensures var t := Run(s, [OpenModal(slot), Cancel]);
      && t.students == s.students
      && DraftReset(t.draft)
      && t.draft.field == Some(slot)
  {
    var es := [OpenModal(slot), Cancel];
    var s1 := Apply(s, OpenModal(slot));
    assert es[1..] == [Cancel];
    calc {
      Run(s, es);
      Run(s1, es[1..]);
      Run(Apply(s1, Cancel), []);
    }
  }

  /** `showModal` keeps the typed name, but in a reachable
      state a closed modal has none, so opening it from the main screen
      always starts from an empty name and no plan. */
  lemma OpenFromClosedStartsEmpty(s: State, slot: Slot)
    requires Inv(s) && !s.draft.visible
    ensures var t := Apply(s, OpenModal(slot));
      && t.students == s.students
      && t.draft == Draft(true, Some(slot), [], None)
  {
  }

  /** Reopening the modal forgets the class time targeted before. */
  lemma ReopenOverwrites(s: State, a: Slot, b: Slot)
    ensures ShowModal(ShowModal(s, a), b) == ShowModal(s, b)
  {
  }

  /** Removing a name leaves the whole screen as it was exactly when no one
      in that class time has the name. */
  lemma RemoveStudentNoMatch(s: State, slot: Slot, name: string)
    ensures RemoveStudent(s, slot, name) == s <==>
              forall i :: 0 <= i < |s.students[slot]| ==> s.students[slot][i].name != name
  {
    RemoveNamedNoMatch(s.students[slot], name);
    var t := RemoveStudent(s, slot, name);
    if RemoveNamed(s.students[slot], name) == s.students[slot] {
      assert t.students == s.students;
    } else {
      assert t.students[slot] != s.students[slot];
    }
  }

  /** Confirming a clear twice is confirming it once. */
  lemma ClearAllStudentsIdempotent(s: State, slot: Slot)
    ensures ClearAllStudents(ClearAllStudents(s, slot), slot) == ClearAllStudents(s, slot)
  {
  }

  /** Cancelling twice is cancelling once. */
  lemma CancelIdempotent(s: State)
    ensures CancelAddStudent(CancelAddStudent(s)) == CancelAddStudent(s)
  {
  }
}
