# Student roster screen: a verified model

The application is one mobile screen that lists, creates, edits and deletes student
records (`{id, name, age, grade}`) held by a remote REST service. This project models
the screen's two pieces of sequential logic.

- **Roster reconciliation** (`roster.dfy`, module `Roster`). This is how the in-memory
  list of records changes after each server answer:
  - a list fetch replaces it;
  - a create appends the returned record (`Append`);
  - an update replaces every record whose id is the edited record's id (`Replace`, the
    source's `map`);
  - a delete keeps the records with a different id, in order (`Remove`, the source's
    `filter`);
  - a failure changes nothing.

  Lemmas relate these transforms to the id-uniqueness invariant and to counts of ids.
  They also characterise the delete as an order-preserving selection of positions.
- **Edit session** (`app.dfy`, module `StudentApp`). Class `App` holds the component's
  four state variables: `students`, `newStudent` (the draft), `editStudent` (the record
  being edited, or none) and `modalVisible`. Its methods are the event handlers. `Valid()`
  is the invariant: a record is only being edited while the form is open, and while the
  form is open the draft carries the edited record's id (none while creating). `Form()`
  reads the session off the fields: `Closed`, `Creating` or `Editing(record)`.

The server is not modelled. Each handler that talks to it takes the answer as an
argument: `Outcome<T> = Success(data) | Failure`. Each save handler returns the request
it issues (`Post(draft)` or `Put(id, draft)`), so the contracts can say which call a save
makes and with what body. `wrappers.dfy` holds `Option`, which stands for a value that
may be `null`.

At the end of `app.dfy`, four client methods drive the class only through its contracts:
- fetch one record, then delete it;
- create a record;
- edit one field of a record and save;
- a save that fails.

Behaviour of the code that the model keeps:
- A create or update that fails does not close the form. `closeModal()` sits after the
  request inside the `try` (App.js:52, App.js:65). So on failure the form stays open and
  the edited record is kept.
- An update replaces every record with a matching id, not only the first. It is a `map`
  over the whole roster (App.js:61-63).
- Closing the form does not reset the draft (App.js:35-38). `openModal` resets or
  overwrites it the next time the form opens (App.js:27-31).
- When no record is being edited, `updateStudent` fails while building the request
  address (`editStudent.id` of `null`, App.js:60). That error is thrown inside the `try`
  and caught, so nothing is sent and nothing changes. `HandleSave` never calls it in that
  state (App.js:41-45).

## Model

| member | source | states |
|---|---|---|
| `Roster.DraftRoundTrip` | App.js:27-28 | copying a record into the draft loses no field: reading the record back from the copy gives the record, and the drafts that carry an id are exactly the copies of records, one per record |
| `Roster.Append` | App.js:51 | a create's roster is one longer, keeps every old record at its position, and ends with the returned record |
| `Roster.AppendCount` | App.js:51 | a create adds one to the count of the returned record's id and changes no other id's count (no de-duplication) |
| `Roster.AppendUniqueIff` | App.js:51 | after a create, ids are unique if and only if they were unique before and the returned id was not already present |
| `Roster.AppendTwice` | App.js:48-52 | when ids are unique and the server gives fresh, distinct ids, two creates append both records in call order and ids stay unique |
| `Roster.Replace` | App.js:61-63 | an update keeps length and order; position i holds the returned record if the old record there had the target id, and the old record otherwise |
| `Roster.ReplaceAbsent` | App.js:61-63 | an update whose target id is absent leaves the roster equal to the old one |
| `Roster.ReplaceCount` | App.js:60-64 | after an update, the target id's count is unchanged if the response echoes that id and zero if it does not; matching uses the edited record's id, not the response's |
| `Roster.UpdatePresent` | App.js:58-65 | an update of a present id in a roster with unique ids, answered with the same id, keeps ids unique and leaves exactly one record with that id, which is the returned record |
| `Roster.Remove` | App.js:74 | a delete's roster is shorter by the number of records with that id, holds no record with that id, and holds exactly the old records with other ids |
| `Roster.RemoveSelectsInOrder` | App.js:74 | a delete's result is the old roster read at the strictly increasing positions whose ids differ: the relative order is kept |
| `Roster.RemoveAbsent` | App.js:71-75 | deleting an id that is absent leaves the roster equal to the old one |
| `Roster.RemoveUnique` | App.js:74 | a delete keeps ids unique; if ids were unique and the id was present, the roster is exactly one shorter |
| `StudentApp.App.constructor` | App.js:7-14 | the initial state has an empty roster, the empty draft, no edited record and the form hidden; the invariant holds |
| `StudentApp.App.GetStudents` | App.js:16-23 | a successful fetch makes the roster exactly the returned list, discarding the old one; a failure leaves it unchanged; nothing else changes |
| `StudentApp.App.OpenModal` | App.js:25-33 | opening records the edited record (or none) and shows the form; the draft becomes a copy of that record, or the empty draft when creating |
| `StudentApp.App.CloseModal` | App.js:35-38 | closing hides the form and forgets the edited record; the draft and the roster are untouched |
| `StudentApp.App.ChangeName` | App.js:128 | the draft's name becomes the typed text; its id, age and grade and everything else are kept |
| `StudentApp.App.ChangeAge` | App.js:134 | the draft's age becomes the typed text, which is not checked; its id, name and grade are kept |
| `StudentApp.App.ChangeGrade` | App.js:141 | the draft's grade becomes the typed text; its id, name and age are kept |
| `StudentApp.App.AddStudent` | App.js:48-56 | posts the draft; on success it appends the returned record and closes the form; on failure the roster, the form and the edited record are unchanged |
| `StudentApp.App.UpdateStudent` | App.js:58-69 | puts the draft at the edited record's id; on success it replaces the records with that id and closes the form; on failure, or with no edited record, nothing changes |
| `StudentApp.App.HandleSave` | App.js:40-46 | updates exactly when a record is being edited and creates otherwise; an update's body carries the id it is addressed to; the new roster follows from the outcome |
| `StudentApp.App.DeleteStudent` | App.js:71-79 | a successful delete makes the roster the old one without the records with that id; a failure leaves it unchanged; nothing else changes |

## Left out

- HTTP calls (axios), the server's address, status codes and response decoding. This is
  foreign I/O. It appears only as the `Outcome` argument and the returned `SaveRequest`.
  The model assumes a success's payload has the record shape.
- Asynchrony: `await` suspension, interleaving of handlers and stale copies of `students`
  captured by a pending handler. Each handler is modelled as running to completion on
  the current state.
- The mount effect, which only calls `getStudents` once. It is the constructor followed
  by one `GetStudents` call.
- React's `useState` machinery. The four state variables are plain fields assigned in
  order, so there are no batched or deferred updates.
- Rendering, the list widget, the modal animation, `keyExtractor`, keyboard types and the
  whole stylesheet. These are presentation.
- `console.error` logging on failure. It is a diagnostic side effect with no state.
- Ids are modelled as integers. The source only compares them with `===`, so
  JavaScript's typing of ids (number or string) is not modelled.
