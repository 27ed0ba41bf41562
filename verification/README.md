# Studio roster screen — a Dafny model

This project models the logic of a single-screen React Native app for a
fitness studio. The app keeps a roster of six fixed class times: 6h, 7h, 8h,
18h, 19h and 20h. Each class time holds an ordered list of bookings, and each
booking is a student name plus one of four membership plans (WellHub,
TotalPass, Simples, Vip). Staff open an "add student" modal on a class time,
type a name, pick a plan and submit. They can also remove a student by name
or, after confirming, clear a whole class time. A class time holds at most 17
students.

Every event handler is modelled as one atomic, pure transition from the old
screen state to the new one:

- `js_text.dfy`, module `JsText`: ECMAScript's `String.prototype.trim` and
  the `Blank` predicate it is checked against.
- `schedule.dfy`, module `Schedule`: class times, plans, bookings, and the
  roster as a map from class time to `seq<Student>`. It holds the three list
  operations: append, remove every booking with a name, and clear.
- `app.dfy`, module `App`: the screen state, which is the roster plus the
  modal draft (`modalVisible`, `currentField`, `newStudent`,
  `selectedOption`). It holds one function per handler. `AddStudent` returns
  the new state and an `Outcome` (`Ok`, `EmptyName`, `NoPlan` or `Full`). The
  three failures stand for the three warning dialogs.
- `session.dfy`, module `Session`: a session as a sequence of user actions.
  It holds the invariant that every reachable state keeps and proves the
  end-to-end scenarios.

Behaviour of the code worth noting:

- Opening the modal (`showModal`) does not clear the typed name; it only
  resets the plan. `Session.OpenFromClosedStartsEmpty` shows why this is not
  visible in use: in every reachable state a closed modal already has an
  empty name and no plan.
- The capacity test is `length < 17`, so a submit fails with `Full` whenever
  the class time holds 17 or more. By `Session.NeverOverCapacity`, 17 is the
  only such count that can occur.
- The stored name is the text exactly as typed. Only the emptiness test
  trims it, so surrounding blanks are kept.
- The handler reads `students[currentField]`, which would throw if no class
  time were targeted yet. `App.AddStudent` therefore requires a target
  whenever the name and plan checks pass. The requirement is stated only on
  that path, and `Session.Inv` proves it holds in every reachable state.

## Model

| member | source | states |
|---|---|---|
| `JsText.TrimStart` | App.js:31 | the result is the suffix of the input after its leading white space; it is empty or starts with a non-white character |
| `JsText.TrimEnd` | App.js:31 | the result is the prefix of the input before its trailing white space; it is empty or ends with a non-white character |
| `JsText.Trim` | App.js:31 | the result sits inside the input with only white space around it, and it neither starts nor ends with white space |
| `JsText.TrimEmptyIffBlank` | App.js:31 | `!name.trim()` holds exactly when every character of the name is white space (both directions) |
| `Schedule.EmptyRoster` | App.js:7-14 | all six class times start with no bookings |
| `Schedule.Append` | App.js:44-50 | the list grows by one, the earlier bookings keep their places, the new booking is last, and no other class time changes |
| `Schedule.RemoveNamed` | App.js:64 | a booking survives exactly when it was there and has a different name; the survivors plus the removed bookings account for the whole list |
| `Schedule.RemoveNamedMultiplicity` | App.js:64 | every booking under another name survives exactly as many times as it was booked, and none under the name survives |
| `Schedule.RemoveNamedAppend` | App.js:64 | filtering a concatenation filters each part, so the survivors keep their relative order |
| `Schedule.RemoveNamedNoMatch` | App.js:61-66 | removing a name changes nothing exactly when nobody in the list has that name |
| `Schedule.RemoveNamedIdempotent` | App.js:64 | removing the same name twice is the same as removing it once |
| `Schedule.Remove` | App.js:61-66 | only the given class time changes, and its new list is the filtered list `RemoveNamed` (order and multiplicity kept, by `RemoveNamedAppend` and `RemoveNamedMultiplicity`) |
| `Schedule.Clear` | App.js:81-84 | the given class time becomes empty and the others are unchanged |
| `Schedule.ClearIdempotent` | App.js:81-84 | clearing twice is clearing once |
| `App.Initial` | App.js:7-20 | empty roster, modal hidden, no target, empty name, no plan |
| `App.ShowModal` | App.js:23-27 | shows the modal on the given class time and forgets the plan; the roster and the typed name are kept |
| `App.SetName` | App.js:166-171 | the name field takes the typed text (at most 30 characters) and nothing else changes |
| `App.SelectOption` | App.js:177-184 | the draft records the chosen plan and nothing else changes |
| `App.AddStudent` | App.js:30-58 | checks name, then plan, then capacity; `EmptyName` exactly when the name is blank, `NoPlan` exactly when the name is not blank and no plan is chosen, `Full` exactly when both pass and the class time has no room, `Ok` exactly when the name is not blank, a plan is chosen and the class time has room; on `Ok` the typed booking is appended last, other class times are unchanged and the draft resets; on any failure the whole state is unchanged |
| `App.RemoveStudent` | App.js:61-66 | the draft is untouched; the class time's list becomes the filtered list `RemoveNamed` (same order and multiplicity for every other name); other class times are unchanged |
| `App.ClearAllStudents` | App.js:79-85 | after confirmation the class time is empty, the others and the draft are unchanged |
| `App.CancelAddStudent` | App.js:92-96 | the modal closes with name and plan reset, and the roster is unchanged |
| `Session.AddStudentKeepsInv` | App.js:43-57 | a submit keeps every class time within 17 and every booked name non-blank and at most 30 characters |
| `Session.RemoveStudentKeepsInv` | App.js:61-66 | a removal keeps the invariant, since it only drops bookings |
| `Session.Apply` | App.js:23-96 | every handler, applied to a reachable state, yields a state that satisfies the invariant |
| `Session.Run` | App.js:23-96 | every sequence of user actions keeps the invariant |
| `Session.InitialInv` | App.js:7-20 | the first render satisfies the invariant |
| `Session.NeverOverCapacity` | App.js:43 | no class time ever holds more than 17 students, whatever the user does |
| `Session.RoundAppends` | App.js:23-53 | open, type a non-blank name, pick a plan and submit on a class time with room: exactly that booking is appended, other class times are unchanged, the modal closes reset |
| `Session.RoundRejectsWhenFull` | App.js:43-57 | the same round on a full class time books no one and leaves the modal open with the name and plan kept |
| `Session.FillBooks` | App.js:43-53 | starting from the first render, n rounds on one class time (n ≤ 17) book n students there and nowhere else |
| `Session.EighteenthRefused` | App.js:43-57 | after 17 bookings at 7h an eighteenth valid round is refused, the roster is unchanged and the draft stays open |
| `Session.AnaBooked` | App.js:43-50 | booking "Ana" on Vip at 6h from the first render yields exactly `[("Ana", Vip)]` there, all else empty, modal closed |
| `Session.BlankNameRefused` | App.js:31-35 | a whitespace-only name is refused with `EmptyName`, before the plan is looked at, and nothing changes |
| `Session.OpenThenCancel` | App.js:92-96 | opening the modal and cancelling books no one and closes the modal reset |
| `Session.OpenFromClosedStartsEmpty` | App.js:23-27 | opening the modal from the main screen in a reachable state gives an empty name and no plan |
| `Session.ReopenOverwrites` | App.js:23-27 | opening the modal again silently overwrites the earlier target |
| `Session.RemoveStudentNoMatch` | App.js:61-66 | removing a name leaves the whole state unchanged exactly when no booking in that class time has the name |
| `Session.ClearAllStudentsIdempotent` | App.js:80-84 | confirming a clear twice is confirming it once |
| `Session.CancelIdempotent` | App.js:92-96 | cancelling twice is cancelling once |

## Left out

- Rendering, styles and icons (`App.js:98-374`) are left out. They only
  present the state and forward presses to the handlers.
- The warning dialogs of `addStudent` (`Alert.alert`) are modelled as the
  returned `Outcome`. The dialog itself is presentation.
- The confirmation dialog of `clearAllStudents` is left out. Only its "Sim"
  branch is modelled, as `ClearAllStudents`. "Cancelar" changes nothing.
- React's `useState` batching, re-rendering and the handlers' captured
  copies of `students` are left out. Each handler is one atomic transition
  on the current state.
- The hour label formatting (`App.js:105`) and the `count / 17` text
  (`App.js:106-112`) are left out. Both are display only; the count is the
  length of a class time's list.
- `App.SetName`: the 30-character limit is a precondition because the text
  widget enforces it. Characters are counted as code points, not UTF-16
  code units, so names outside the Basic Multilingual Plane are not
  modelled exactly.
- The React Native modal blocks touches on the screen beneath it. The
  session model does not use this: the per-class-time controls may fire
  while the modal is open. The invariants hold without that restriction.
