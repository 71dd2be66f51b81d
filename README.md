# Kanban board: a Dafny model of the task store behind `script.js`

The page script of this Kanban board keeps all of its state in the DOM. There is
a list of `.kanban-column` elements. The first is `coluna1`, where new cards go.
Each column holds task cards in order, and each card carries six fields: `id`,
`title`, `description`, `priority`, `dueDate` and `responsible`. Every edit ends
by saving the whole board under the `kanbanTasks` key of `localStorage`. On page
load, that stored object is appended into the matching columns. Next to the board
sit the global `editingTask`, which decides whether the task form creates or
updates a task, and a small credential list with a session marker.

This project models that state without the page.

- `wrappers.dfy`: `Option`.
- `tasks.dfy` (module `Tasks`): the task record and the board as a sequence of
  columns, each a sequence of cards. It has the id lookup that stands for
  `document.getElementById`: the first card with that id, in column order and
  then card order. It also specifies each edit (`Created`, `Updated`, `Removed`,
  `Moved`) and proves the lemmas about these edits. Each edit keeps or changes
  the multiset of cards and ids exactly as stated. Ids therefore stay unique.
  With unique ids, every task sits in exactly one column at exactly one place.
- `snapshots.dfy` (module `Snapshots`): the stored object as an abstract
  snapshot. It is a sequence of entries, each a key with its task records, in
  key order. It gives what a save produces and what a load does to a board, and
  proves the save-then-load round trip.
- `board.dfy` (module `Board`): class `KanbanBoard`. Its fields are the column
  ids, the columns, `editingTask` and the stored snapshot. Each method models one
  function of the script, except `BuildSnapshot`, which is the loop body of
  `saveTasksToLocalStorage` (`script.js:170-185`). Save and load keep the script's nested loops. The
  other edits assign the board through the edit functions of `Tasks`.
- `users.dfy` (module `Users`): class `Registry` with the `users` list and the
  `loggedInUser` marker.

Some behaviours of the code that a reader might expect to be otherwise:
- A stored value that fails to parse makes `JSON.parse` throw (`script.js:192`);
  the code does not fall back to an empty board.
- An update or delete of a missing id only logs an error and changes nothing.
- There is no move into an unknown column: a drag can only hover over a column
  that exists.
- A task carries no column field: its column is where its card sits, and the
  `data-status` attribute set on drop is never saved.
- Priority is a free string.
- Card order inside a column does survive a save and a load, and `RoundTrip`
  proves it.

## Model

| member | source | states |
|---|---|---|
| `Tasks.IndexFrom` | script.js:197 | the first index holding a key, or none exactly when no index holds it, as `getElementById` finds a column |
| `Tasks.LocateFrom` | script.js:65 | the first card with the id in document order: it holds the id, no earlier column and no earlier card in its column does, and there is none exactly when no column holds the id |
| `Tasks.LocateBag` | script.js:65-71 | the id lookup fails exactly when no card on the board carries the id |
| `Tasks.ExactlyOnePlace` | script.js:161 | on a board with unique ids, two places holding the same id are the same column and the same position: each task is in exactly one column |
| `Tasks.CreatedSpec` | script.js:55-58 | the new card ends column `c`, all other columns are unchanged, the cards and the ids each grow by exactly the new one, and a fresh id keeps ids unique |
| `Tasks.UpdatedSpec` | script.js:64-78 | a missing id leaves the board unchanged; otherwise every column keeps its length and its ids in order, so ids and uniqueness are kept |
| `Tasks.UpdatedAt` | script.js:73-78 | the found card gets exactly the five new fields and keeps its id and position; every other card is untouched |
| `Tasks.RemovedAt` | script.js:104-110 | the found card leaves its column, the other cards of that column keep their order, other columns are unchanged, exactly that card and its id are gone, and with unique ids no card with that id remains |
| `Tasks.RemovedMissing` | script.js:111-113 | deleting a missing id leaves the board unchanged |
| `Tasks.MovedShape` | script.js:160-161 | the dragged card ends the target column, it leaves its source column (also when source and target are the same) and every other column is unchanged |
| `Tasks.MovedCounts` | script.js:161 | a move keeps the multiset of cards and of ids, so the total count and the uniqueness of ids are kept |
| `Snapshots.GatherSaved` | script.js:173-185 | in a saved snapshot the records under a column id are exactly that column's cards, and an id naming no column has none |
| `Snapshots.RoundTrip` | script.js:169-205 | loading a saved snapshot into the same columns, empty, gives back the board, every card in its column and in its order |
| `Snapshots.UnknownKeySkipped` | script.js:196-199 | an entry whose key names no column changes nothing, wherever it stands in the snapshot |
| `Snapshots.LoadEmpty` | script.js:192 | with nothing stored, a load leaves the board as it was |
| `Snapshots.LoadedStep` | script.js:196-203 | one more entry appends its records, in order, to the one column it names and to no other |
| `Board.SaveUntouchedForm` | script.js:9-15 | editing a card and saving the untouched form keeps the card, except that an empty priority becomes `Média` |
| `Board.KanbanBoard.constructor` | script.js:1-2 | the page starts with empty columns, no task being edited and the previously stored value |
| `Board.KanbanBoard.BuildSnapshot` | script.js:170-185 | the object built by the save loops is one entry per column, in board order, holding that column's cards in order |
| `Board.KanbanBoard.SaveTasksToLocalStorage` | script.js:169-188 | the store then holds the snapshot of the current board |
| `Board.KanbanBoard.CreateNewTask` | script.js:55-61 | the card `task-<stamp>` with the given fields is appended to `coluna1`, the ids grow by exactly it, uniqueness is kept, and the store then holds the new board |
| `Board.KanbanBoard.UpdateTask` | script.js:64-88 | the board becomes `Updated`; a missing id leaves the board and the store untouched, otherwise the new board is saved; uniqueness is kept |
| `Board.KanbanBoard.DeleteTask` | script.js:104-114 | the board becomes `Removed`; a missing id leaves the board and the store untouched; with unique ids no card with that id remains |
| `Board.KanbanBoard.DragOver` | script.js:157-164 | the board becomes `Moved`, the multiset of cards is kept, uniqueness is kept both ways, and the store holds the new board |
| `Board.KanbanBoard.LoadTasksFromLocalStorage` | script.js:191-210 | every column gets appended the records stored under its id, an absent store counting as empty, and nothing else changes |
| `Board.KanbanBoard.ShowTaskForm` | script.js:5-25 | no task clears `editingTask` and resets the form; a task becomes `editingTask` and the form shows its fields, with an empty priority shown as `Média` |
| `Board.KanbanBoard.EditTask` | script.js:90-101 | the card with the id, read back with all six fields, becomes `editingTask` and fills the form |
| `Board.KanbanBoard.SaveTask` | script.js:35-52 | with a task being edited the submitted fields update it by its id; with none they create a new task in `coluna1`; the store holds the new board unless the edited task was missing; uniqueness is kept |
| `Users.Find` | script.js:273 | the search finds an entry exactly when the pair of name and password was registered, and that entry is the pair |
| `Users.Registry.constructor` | script.js:259 | the registry starts from the stored list and session |
| `Users.Registry.RegisterUser` | script.js:258-268 | a taken name leaves the list unchanged; otherwise exactly the new pair is appended, so names stay unique |
| `Users.Registry.SubmitRegisterForm` | script.js:224-237 | registration is attempted only when both fields are non-empty; the outcome says which case happened |
| `Users.Registry.LoginUser` | script.js:271-281 | login succeeds exactly when the pair is stored; it then sets the session to that pair, and a failed login leaves the session unchanged |
| `Users.Registry.Logout` | script.js:284-290 | the session marker is removed |

## Left out

- Rendering: `createTaskElement`'s templating, the modal's `d-none`/`show` classes and `closeTaskForm`. A card is modelled only as its task record.
- HTML parsing of `innerHTML` (`script.js:125-132`): a title holding markup would not read back as it was written. Titles and descriptions are plain strings here.
- Listener wiring: `enableDragAndDrop`, which re-adds listeners on every call, the `dragging` class toggles on dragstart/dragend, and the `draggable` attribute.
- The button rebinding in `updateTask` (`script.js:80-84`): it is handler wiring. It binds to `updatedTaskData.id`, which `saveTask` never sets.
- `Date.now()`: the time stamp is the `stamp` parameter, and a fresh id is a precondition. Two tasks created in the same millisecond would collide in the source.
- `localStorage`, `JSON.stringify`/`JSON.parse`, alerts, console messages and redirects: stored values are abstract fields. A malformed stored value makes `JSON.parse` throw, and the source has no recovery path.
- The `data-status` attribute set on drop: it is never saved and changes nothing on the board.
- A `dragover` with no dragged card (`appendChild(null)` throws): the dragged card is a precondition of `DragOver`, given by its column and position.
- Column ids: the page's column ids are assumed distinct. With two columns sharing an id, a save (`script.js:174`) would drop the first column's cards and a load (`script.js:197`) would fill only the first of them.
- Element ids other than cards: a task id equal to some other element's id would make `getElementById` find that element. The model assumes task ids name only cards.
- Integer-like stored keys: JavaScript lists them first in `Object.keys`. Keys go to distinct columns, so key order does not change what a load produces.
- `Board.KanbanBoard.ShowTaskForm`: a form reset restores the markup's default values, which are not part of this model, so a reset is shown as `None`.
- `Board.KanbanBoard.EditTask`: fields absent from a card would read back as `undefined`. Every card has all six fields, so the record always has all six and `x || ''` is the identity on them.
- `Board.KanbanBoard.LoadTasksFromLocalStorage`: it does not establish unique ids, because stored records may repeat an id or one already on the board. `RoundTrip` covers a board that was saved with unique ids.
- `Snapshots.UnknownKeySkipped`: a stored key naming a card or another non-column element makes `script.js:202` throw and stops the load; the model assumes every key names a column or no element.
- `Board.KanbanBoard.LoadTasksFromLocalStorage`: likewise, a stored key naming a card or another non-column element makes `script.js:202` throw and stops the load, so no later key is loaded; the model assumes every key names a column or no element.
