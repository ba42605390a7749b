# Student roster manager — a verified model

This project models the state logic of the student points manager's single
React component, `App` in `src/App.tsx`. The component holds four pieces of
state:

- `students`, an ordered list of records `{id, name, points, paid}`;
- `newStudentName`, the text in the name input;
- `showError`, which shows the "enter the student's name" message;
- `confirmingPayment`, the id of the row whose payment button waits for a
  confirming second click, or nothing.

The handlers are `addStudent`, `addPoints`, `removePoints`, `togglePaid`,
`deleteStudent` and the name input's change handler. The component also
derives four overview figures from the roster on every render.

The model has four modules:

- `JsText` (`js_text.dfy`) models `String.prototype.trim` over ECMAScript's
  WhiteSpace and LineTerminator code points.
- `Roster` (`roster.dfy`) has the student record and the new roster values
  the click handlers compute: three element-wise maps and a filter. It
  also has the overview figures and the lemmas about all of these.
- `Handlers` (`handlers.dfy`) has the component state as a value and one
  transition function per user event (`Handle`), with runs of events. Its
  lemmas cover the invariant that every reachable state keeps, the two-click
  payment toggle, and the plus/minus round trip for any number of clicks.
- `Component` (`component.dfy`) has the component as a class `App`. Its
  fields are the four state variables and its methods are the handlers,
  which update the fields in place. Each method is proved to perform exactly
  the transition `Handlers.Handle` gives for its event, and to keep the
  invariant.

A few facts about the code shape the model:

- The point total is recomputed from the roster on every render
  (`src/App.tsx:67`). No separate counter is stored, and there is no reset.
- Deleting a student is unconditional (`src/App.tsx:59-61`). It does not
  look at the paid flag.
- Nothing is persisted, and no notification is raised.

## Model

| member | source | states |
|---|---|---|
| `JsText.Trim` | src/App.tsx:13-20 | the trimmed name is the infix of the input left after stripping whitespace and line terminators at both ends; it is empty exactly when the input is blank, and otherwise neither end is strippable |
| `JsText.TrimFixedPoint` | src/App.tsx:20 | trimming leaves a string unchanged exactly when neither end is strippable, so a stored name trimmed again stays the same |
| `Roster.AddPointsTo` | src/App.tsx:30-36 | each record with the id gains exactly 25 points and nothing else about it changes; other records and the length are unchanged; an unknown id leaves the roster identical; non-negative multiples of 25 stay so |
| `Roster.RemovePointsFrom` | src/App.tsx:38-44 | a record with the id loses 25 points only when it holds at least 25, otherwise it is unchanged; non-negative points never become negative; other records, the length and an unknown id are unchanged; the multiple-of-25 invariant is kept |
| `Roster.FlipPaid` | src/App.tsx:48-52 | each record with the id has its paid flag negated and nothing else changes; other records and the length are unchanged |
| `Roster.Without` | src/App.tsx:59-61 | the result holds exactly the records whose id differs, whatever their paid flag; it is shorter by the number of records with that id, so it shrinks exactly when the id is present |
| `Roster.PaidCount` | src/App.tsx:65 | the number of paid records is at most the roster length; it is zero exactly when nobody has paid and equals the length exactly when everybody has |
| `Roster.TotalPoints` | src/App.tsx:67 | the left-fold sum of points is a non-negative multiple of 25 on a roster whose points all are |
| `Roster.Summarize` | src/App.tsx:64-67 | total students is the roster length; paid students is the paid count and the point total is the sum of all points, both of the current roster; paid + pending = total; 0 <= paid <= total; pending equals the number of unpaid records; the point total is a non-negative multiple of 25 on a well-scored roster |
| `Roster.PendingIsUnpaid` | src/App.tsx:65-66 | every record is counted either as paid or as pending |
| `Roster.WithoutConcat` | src/App.tsx:60 | the filter distributes over concatenation, so the kept records stay in their relative order |
| `Roster.WithoutAbsent` | src/App.tsx:60 | deleting an id that no record has leaves the roster identical |
| `Roster.DeleteUnique` | src/App.tsx:59-61 | with unique ids, deleting the id of record k yields the roster with exactly record k removed, so the length drops by one |
| `Roster.WithoutUnique` | src/App.tsx:60 | deleting keeps ids unique |
| `Roster.AddThenRemove` | src/App.tsx:30-44 | adding and then removing points for the same id restores the roster if and only if every record with that id holds non-negative points |
| `Roster.AddNEffect` | src/App.tsx:30-36 | after n plus clicks each record with the id holds exactly 25·n more points and is otherwise unchanged; other records and the length are unchanged |
| `Roster.RemoveNEffect` | src/App.tsx:38-44 | after n minus clicks each record with the id has lost 25 points for every click that found at least 25 left (none if it started negative), and is otherwise unchanged; other records and the length are unchanged |
| `Roster.PlusNMinusN` | src/App.tsx:30-44 | n plus clicks followed by n minus clicks on the same id restore the roster if and only if n is 0 or every record with that id holds non-negative points |
| `Roster.FlipPaidTwice` | src/App.tsx:48-52 | flipping the paid flag of the same id twice restores the roster |
| `Roster.AddPointsKeepsTotalsInSync` | src/App.tsx:30-36 | with unique ids, a plus click on a present row raises the derived point total by exactly 25 and leaves the paid count unchanged |
| `Roster.RemovePointsKeepsTotalsInSync` | src/App.tsx:38-44 | with unique ids, a minus click lowers the derived point total by 25 exactly when the row held at least 25, and by nothing otherwise |
| `Roster.FlipPaidKeepsTotalsInSync` | src/App.tsx:46-57 | with unique ids, a confirmed toggle moves the row between paid and pending (paid count ±1) and leaves the point total unchanged |
| `Roster.DeleteKeepsTotalsInSync` | src/App.tsx:59-61 | with unique ids, deleting a row takes exactly its points out of the total and its paid flag out of the paid count |
| `Handlers.Handle` | src/App.tsx:30-61 | each event runs its handler as one transition; the plus, minus and delete buttons replace only the roster (by the map or filter of their handler) and leave the input, the error flag and the confirmation marker alone |
| `Handlers.AddStudent` | src/App.tsx:11-28 | a blank trimmed name only sets the error flag and leaves the roster and the input unchanged; otherwise exactly one record is appended after the unchanged old ones, with the fresh id, the trimmed name, 0 points and unpaid, and the input and error flag are cleared |
| `Handlers.TogglePaid` | src/App.tsx:46-57 | a click on a row that is not awaiting confirmation only sets the marker to that id, overwriting any other; a click on the awaiting row flips its paid flag and clears the marker |
| `Handlers.EditName` | src/App.tsx:103-106 | editing the input stores the text and clears the error message, leaving the roster and the marker alone |
| `Handlers.HandleKeepsValid` | src/App.tsx:11-61 | every handler keeps ids unique, points non-negative multiples of 25, and names non-empty and trimmed, given a fresh generated id |
| `Handlers.SubmitKeepsValid` | src/App.tsx:18-25 | appending a record with a fresh id, 0 points and a non-blank trimmed name keeps the invariant |
| `Handlers.DeleteKeepsValid` | src/App.tsx:59-61 | the filtered roster keeps the invariant |
| `Handlers.RunKeepsValid` | src/App.tsx:6-61 | any sequence of events with fresh generated ids, starting from a valid state, ends in a valid state |
| `Handlers.ReachableSummary` | src/App.tsx:67 | on every state reachable from the first render, the displayed point total is a non-negative multiple of 25 |
| `Handlers.ToggleTwiceFlipsOnce` | src/App.tsx:46-57 | two consecutive payment clicks on the same row flip its paid flag exactly once, whatever was pending before |
| `Handlers.PlusThenMinusRestores` | src/App.tsx:30-44 | in a valid state, a plus click followed by a minus click on the same row restores the whole state |
| `Handlers.RunPlusClicks` | src/App.tsx:30-36 | a run of n plus clicks on a row replaces only the roster, by the n-fold plus click |
| `Handlers.RunMinusClicks` | src/App.tsx:38-44 | a run of n minus clicks on a row replaces only the roster, by the n-fold minus click |
| `Handlers.PlusNThenMinusNRestores` | src/App.tsx:30-44 | in a valid state, n plus clicks followed by n minus clicks on the same row restore the whole state, for every n |
| `Handlers.DeleteRemovesOne` | src/App.tsx:59-61 | in a valid state, deleting the id of row k yields the roster with exactly row k removed and the others in order, paid or not; deleting an absent id changes nothing |
| `Handlers.SubmitKeepsTotals` | src/App.tsx:18-27 | a successful submission adds one student and leaves the paid count and the point total unchanged |
| `Component.App.constructor` | src/App.tsx:6-9 | the initial state is an empty roster, an empty input, no error and no pending confirmation, and it is valid |
| `Component.App.AddStudent` | src/App.tsx:11-28 | performs the submit transition in place and keeps the invariant |
| `Component.App.AddPoints` | src/App.tsx:30-36 | performs the plus-click transition in place and keeps the invariant |
| `Component.App.RemovePoints` | src/App.tsx:38-44 | performs the minus-click transition in place and keeps the invariant |
| `Component.App.TogglePaid` | src/App.tsx:46-57 | performs the two-step payment transition in place and keeps the invariant |
| `Component.App.DeleteStudent` | src/App.tsx:59-61 | performs the delete transition in place and keeps the invariant |
| `Component.App.ChangeName` | src/App.tsx:103-106 | performs the input-change transition in place and keeps the invariant |
| `Component.App.Stats` | src/App.tsx:64-67 | the overview figures are those of the current roster: the paid count and the sum of points of `students`, paid + pending = total = roster length, and the point total is a non-negative multiple of 25 |

## Left out

- Rendering (the JSX, CSS class choices and button labels) is not modelled. It only displays state and calls the handlers.
- `crypto.randomUUID()` is a foreign call. It is a `freshId` parameter that must not already be in the roster.
- `e.preventDefault()` is DOM plumbing and is not modelled.
- React's `useState` scheduling (batched setters, re-rendering) is not modelled. Each handler is one atomic transition on the current state.
- The `Student` type from `./types` is not part of this model. Its shape is taken from the object built in `addStudent`.
- `points` is an unbounded integer. A TypeScript `number` is a double, but here it only ever holds multiples of 25 far below the exact-integer range.
- JsText.Trim: works on Unicode scalar values. JavaScript strings are UTF-16 code units, so lone surrogates are not represented; none of them is whitespace, so the result is unaffected.
- Roster.AddPointsKeepsTotalsInSync: stated for rosters with unique ids only; for an unknown id, `Roster.AddPointsTo` already states that the roster is identical. The same holds for the other `KeepsTotalsInSync` lemmas and for `Roster.DeleteUnique`.
