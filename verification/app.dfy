/**
 The state of the roster screen and its event handlers, each one atomic
 transition from the old state to the new one: open the add-student modal
 on a class time, type a name, pick a plan, submit, cancel, remove a
 student by name, and clear a class time once the user has confirmed.
 */
module App {
  import opened JsText
  import opened Schedule

  datatype Option<T> = None | Some(value: T)

  /** Longest name the name field lets the user type (`maxLength={30}`). */
  const MaxNameLength: nat := 30

  /** The add-student modal: whether it is shown (`modalVisible`), the class
      time it targets (`currentField`, unset until the modal is first
      opened), the text typed so far (`newStudent`) and the chosen plan
      (`selectedOption`, unset while it is the empty string). */
  datatype Draft = Draft(visible: bool, field: Option<Slot>, name: string, option: Option<Plan>)

  datatype State = State(students: Roster, draft: Draft)

  /** What a submit reports: success, or the warning dialog it raises. */
  datatype Outcome = Ok | EmptyName | NoPlan | Full

  datatype Submitted = Submitted(state: State, outcome: Outcome)

  /** The modal is closed with an empty name and no plan. */
  predicate DraftReset(d: Draft) {
    !d.visible && d.name == [] && d.option.None?
  }

  /** The screen as it first renders: six empty class times, modal hidden. */
  function Initial(): (s: State)
    ensures forall slot :: s.students[slot] == []
    ensures DraftReset(s.draft) && s.draft.field.None?
  {
    State(EmptyRoster(), Draft(false, None, "", None))
  }

  /** `showModal(field)`: targets `field`, shows the modal and forgets the
      plan; the typed name survives, and any earlier draft is overwritten. */
  function ShowModal(s: State, field: Slot): (t: State)
    ensures t.students == s.students
    ensures t.draft.visible && t.draft.field == Some(field)
    ensures t.draft.option.None? && t.draft.name == s.draft.name
  {
    s.(draft := s.draft.(visible := true, field := Some(field), option := None))
  }

  /** The name field's `onChangeText`: replaces the typed text. */
  function SetName(s: State, text: string): (t: State)
    requires |text| <= MaxNameLength
    ensures t.students == s.students && t.draft.name == text
    ensures t.draft.visible == s.draft.visible && t.draft.field == s.draft.field
    ensures t.draft.option == s.draft.option
  {
    s.(draft := s.draft.(name := text))
  }

  /** A plan button's `onPress`: records that plan. */
  function SelectOption(s: State, p: Plan): (t: State)
    ensures t.students == s.students && t.draft.option == Some(p)
    ensures t.draft.visible == s.draft.visible && t.draft.field == s.draft.field
    ensures t.draft.name == s.draft.name
  {
    s.(draft := s.draft.(option := Some(p)))
  }

  /** A draft that gets past the name and plan checks reaches the lookup
      `students[currentField]`, which `addStudent` could not survive without
      a targeted class time. */
  predicate PassesChecks(d: Draft) {
    !Blank(d.name) && d.option.Some?
  }

  /** `addStudent`: checks the name, then the plan, then the room left in
      the targeted class time. On success the student is appended exactly as
      typed and the modal closes with its fields reset; on any failure
      nothing at all changes and the modal stays open. */
  function AddStudent(s: State): (r: Submitted)
    requires PassesChecks(s.draft) ==> s.draft.field.Some?
    ensures r.outcome == EmptyName <==> Blank(s.draft.name)
    ensures r.outcome == NoPlan <==> !Blank(s.draft.name) && s.draft.option.None?
    ensures r.outcome == Full <==>
              PassesChecks(s.draft) && |s.students[s.draft.field.value]| >= Capacity
    ensures r.outcome == Ok <==>
              PassesChecks(s.draft) && |s.students[s.draft.field.value]| < Capacity
    ensures r.outcome != Ok ==> r.state == s
    ensures r.outcome == Ok ==>
              && PassesChecks(s.draft)
              && var slot := s.draft.field.value;
              && r.state.students[slot] == s.students[slot] + [Student(s.draft.name, s.draft.option.value)]
              && OthersUnchanged(s.students, r.state.students, slot)
              && DraftReset(r.state.draft)
              && r.state.draft.field == s.draft.field
  {
    TrimEmptyIffBlank(s.draft.name);
    var d := s.draft;
    if Trim(d.name) == [] then Submitted(s, EmptyName)
    else if d.option.None? then Submitted(s, NoPlan)
    else if |s.students[d.field.value]| < Capacity then
      var students := Append(s.students, d.field.value, Student(d.name, d.option.value));
      Submitted(State(students, d.(visible := false, name := "", option := None)), Ok)
    else Submitted(s, Full)
  }

  /** `removeStudent(field, name)`: drops every booking under `name` from
      `field`, keeping the others in order; the modal is not touched. */
  function RemoveStudent(s: State, field: Slot, name: string): (t: State)
    ensures t.draft == s.draft
    ensures t.students[field] == RemoveNamed(s.students[field], name)
    ensures forall x :: x in t.students[field] <==> x in s.students[field] && x.name != name
    ensures |t.students[field]| + Occurrences(s.students[field], name) == |s.students[field]|
    ensures OthersUnchanged(s.students, t.students, field)
  {
    s.(students := Remove(s.students, field, name))
  }

  /** `clearAllStudents(field)` once the user answers "Sim": empties
      `field`; the modal is not touched. */
  function ClearAllStudents(s: State, field: Slot): (t: State)
    ensures t.draft == s.draft
    ensures t.students[field] == []
    ensures OthersUnchanged(s.students, t.students, field)
  {
    s.(students := Clear(s.students, field))
  }

  /** `cancelAddStudent`: closes the modal and resets name and plan; the
      roster and the targeted class time stay as they were. */
  function CancelAddStudent(s: State): (t: State)
    ensures t.students == s.students
    ensures DraftReset(t.draft) && t.draft.field == s.draft.field
  {
    s.(draft := s.draft.(visible := false, name := "", option := None))
  }
}
