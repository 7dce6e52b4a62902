# KanbanTasker board engine, modelled in Dafny

KanbanTasker is a kanban board application. Its `BoardViewModel` holds the
board's list of tasks, the task open in the edit pane (`CurrentTask`) and a
copy of that task from the moment it was opened (`OriginalTask`, called the
snapshot below). It also holds the board's five columns.

This project models the board engine of that view-model as pure Dafny
functions. Each command of the view-model becomes a function from a
`BoardState` to an `Outcome`, which carries:

- the new board;
- the calls the command makes into the repository and the toast service,
  recorded in order as `Effect`s instead of being performed;
- the exception the command lets escape, if any, as a `Fault`.

The commands modelled are opening a board, NewTask, EditTask, the edit-pane
bindings, SaveTask, DeleteTask, CancelEdit, RemoveScheduledNotfication,
EditColumn, AddTag, DeleteTag, CheckIfPastDue and ConfigureBoardColumns.
The reminder arithmetic of PrepareAndScheduleToastNotification is modelled
too.

Modules, in dependency order:

- `Wrappers`: `Option`, `Result`, and the escaping exceptions (`Fault`).
- `Clock`: the part of .NET's `DateTimeOffset` the reminders use. It holds
  tick arithmetic, the calendar range, and the combination of a due date
  with a time due.
- `Tasks`: the task record, and the `Card` that carries one on the board.
- `Columns`: column records, the five header slots, ConfigureBoardColumns,
  and the column-record half of EditColumn.
- `Effects`: the repository and toast-service calls.
- `Reminders`: the reminder labels, their lead times, the due and scheduled
  instants, the toast decision, the save-time guard and the past-due check.
- `Ordering`: `Where` (as `Filter`), `OrderBy(ColumnIndex)` (as a stable
  insertion sort), and column contiguity.
- `ColumnIndex`: the column-index bookkeeping of save, delete and rename.
- `Board`: the board state and the commands.

**Object identity.** The view-model shares `PresentationTask` objects:
after EditTask, `CurrentTask` is the same object as one entry of
`Board.Tasks`, and edits made in the pane show on the board at once. The
model gives every card an identity `ref`.

- `Card(ref, task)` is one object.
- A write through `CurrentTask` updates every list entry with that `ref`.
- A fresh copy (CancelEdit's `new PresentationTask(...)`) gets a fresh
  `ref`.
- `Valid` is the aliasing discipline: no object is listed twice, every
  identity was handed out, and the current object agrees with its list
  entries. For every command, its contract or a lemma about it states that
  the command keeps `Valid`. SaveTask keeps it only when an unsaved current
  task is not already listed (`Board.SaveKeepsValid`).

**Parameters.** These inputs come from outside the view-model:

- the repository's answers: the id it assigns on save, whether a delete
  succeeded, the columns it stores;
- the clock reading `now`;
- the text-to-date parser `ToNullableDateTimeOffset`.

## Model

| member | source | states |
|---|---|---|
| Board.Open | KanbanTasker/ViewModels/BoardViewModel.cs:67-108 | A new board lists the loaded tasks in order as distinct objects and is valid. CurrentTask is a fresh empty task that is not on the board. There is no snapshot. The columns are whatever ConfigureBoardColumns yields, and the board fails to open exactly when that throws. |
| Columns.DefaultSlots | KanbanTasker/ViewModels/BoardViewModel.cs:925-937 | The five default columns each have task limit 10. |
| Columns.DefaultNamesDistinct | KanbanTasker/ViewModels/BoardViewModel.cs:927-931 | The five default column names are pairwise distinct. |
| Columns.AtPosition | KanbanTasker/ViewModels/BoardViewModel.cs:905-922 | `Find` returns a stored column at the position, and finds nothing exactly when no stored column has that position. |
| Columns.FirstMatch | KanbanTasker/ViewModels/BoardViewModel.cs:555 | `Find`'s search yields the first list position whose column satisfies the predicate (no earlier column does), or nothing exactly when no column satisfies it. Both searches of the core use it: by slot position (`AtSlot`) and by name (`Named`). |
| Columns.AtPositionFirst | KanbanTasker/ViewModels/BoardViewModel.cs:905-922 | The column `Find` returns is the first in list order at that position: it is the entry at `FirstMatch(columns, AtSlot(position))`, before which no column has the position. |
| Columns.FilledSlots | KanbanTasker/ViewModels/BoardViewModel.cs:903-924 | Slot p shows the name and limit of the first stored column at position p. Filling succeeds exactly when every position from here to 4 is stored, and otherwise fails with a null dereference. |
| Columns.Configure | KanbanTasker/ViewModels/BoardViewModel.cs:891-938 | A new board (id 0) keeps no column list and gets the defaults. A stored board keeps the fetched columns, and gets the defaults when none are stored. Otherwise slot p is the stored column at position p, and it throws exactly when some position 0..4 is missing. |
| Columns.Rename | KanbanTasker/ViewModels/BoardViewModel.cs:555-559 | The first column with the old name takes the new name and limit in place, and that updated record is the one saved. It throws a null dereference exactly when no column has the old name. |
| Board.FirstWithId | KanbanTasker/ViewModels/BoardViewModel.cs:389 | `First(x => x.ID == id)` finds the first listed task with the id, and finds nothing exactly when no task has it. |
| Board.IndexOf | KanbanTasker/ViewModels/BoardViewModel.cs:518 | `IndexOf(CurrentTask)` is the first entry that is the current object. It is -1 exactly when CurrentTask is null or not listed. |
| Board.WriteCurrent | KanbanTasker/ViewModels/BoardViewModel.cs:223-227 | A write through CurrentTask makes the current object hold the new data, changes exactly that object's list entries, leaves the snapshot and the columns alone, and keeps the object-identity discipline. |
| Board.Refresh | KanbanTasker/ViewModels/BoardViewModel.cs:572 | After the list is rebuilt from the same objects, CurrentTask is still the same object. It reads as its listed entry when listed, and is unchanged otherwise. |
| Ordering.SortByIndex | KanbanTasker/ViewModels/BoardViewModel.cs:521-522 | `OrderBy(ColumnIndex)` returns a permutation of its input. |
| Ordering.SortKeepsDistinct | KanbanTasker/ViewModels/BoardViewModel.cs:521-522 | Sorting a list of distinct objects gives a list of distinct objects. |
| Ordering.SortContents | KanbanTasker/ViewModels/BoardViewModel.cs:521-522 | Two lists with the same task data in the same order still have the same data in the same order after sorting. |
| ColumnIndex.RemoveAt | KanbanTasker/ViewModels/BoardViewModel.cs:459 | `Remove(task)` at the task's position keeps the entries before it and shifts the ones after it down by one. |
| Board.NewTask | KanbanTasker/ViewModels/BoardViewModel.cs:361-378 | The list is unchanged and the snapshot is cleared. CurrentTask is a fresh unsaved task (id 0) in the given column, with priority "Low", reminder "None", the board's id, no tags and no due date or time due, so the save-time reminder guard fails for it. It is not on the board. The board's id and columns are unchanged. |
| Board.EditTask | KanbanTasker/ViewModels/BoardViewModel.cs:384-397 | It throws NotFound exactly when no task has the id, and then nothing changes. Otherwise CurrentTask is the first listed task with that id. If combining that task's due date and time due leaves the calendar, the range fault escapes before the snapshot is taken, so the old snapshot stays. Otherwise the snapshot equals the task's data. The list, the columns and the identity counter never change. |
| Board.EditThenWrite | KanbanTasker/ViewModels/BoardViewModel.cs:384-397 | After a successful open, a write through the pane changes only the opened task's own entry. The snapshot is the task's data from before, and the task is still found at its position. |
| Board.EditCurrent | KanbanTasker/ViewModels/BoardViewModel.cs:194-228 | A pane edit replaces the current object's data, and every list entry that is that object, and changes nothing else: the snapshot, the columns and the identity counter are kept. A null CurrentTask throws. |
| Tasks.SetTask | KanbanTasker/ViewModels/BoardViewModel.cs:203-227 | A write through one object keeps the list's length and every entry's object. A write to an object that is not listed changes nothing. On a list of distinct objects, it replaces exactly the one entry that is that object. |
| Board.SaveTask | KanbanTasker/ViewModels/BoardViewModel.cs:402-436 | A null CurrentTask saves nothing. A stored task is saved as it is, and the board is unchanged. An unsaved task is saved with its column's card count as its index and `now` as its creation date, then takes the assigned id and is appended. A toast is prepared exactly when the reminder information is complete. The snapshot, the columns and the identity counter are kept. |
| Board.SaveNewAppends | KanbanTasker/ViewModels/BoardViewModel.cs:415-427 | Saving an unsaved task appends it with index equal to the column's card count. No card of the column held that index. A contiguous column (indices 0..n-1) stays contiguous, and every other column is as it was. |
| Ordering.FilterMembers | KanbanTasker/ViewModels/BoardViewModel.cs:466-467 | `Where` keeps exactly the cards that satisfy the predicate. |
| Ordering.CountInPositions | KanbanTasker/ViewModels/BoardViewModel.cs:418 | `Where(same category).Count()` is the number of list positions holding a card of that column. |
| ColumnIndex.CountIsFresh | KanbanTasker/ViewModels/BoardViewModel.cs:418 | On a contiguous column, no card holds the index equal to the column's card count. |
| ColumnIndex.AppendKeepsContiguous | KanbanTasker/ViewModels/BoardViewModel.cs:418-427 | Appending a card whose index is its column's count keeps that column contiguous and leaves every other column unchanged. |
| Board.SaveKeepsValid | KanbanTasker/ViewModels/BoardViewModel.cs:423-428 | A save keeps the object-identity discipline. |
| Reminders.GuardExcludesCancel | KanbanTasker/ViewModels/BoardViewModel.cs:438-444 | A task the save-time guard (`HasReminderInformation`) lets through never gets the cancel decision. Its label is a reminder other than "None", or a label the combo box does not list. For such a task, no toast call is made exactly when the due date or the time due cannot be read. |
| Reminders.EmptyLabelSchedulesAtDue | KanbanTasker/ViewModels/BoardViewModel.cs:640-683 | The empty label is not "None". Away from the calendar's ends, a task carrying it with readable dates gets a toast scheduled at the due instant itself. |
| Board.SaveNeverCancels | KanbanTasker/ViewModels/BoardViewModel.cs:430-444 | A save sends no toast removal, and sends at most the row save plus one toast call. |
| Board.DeleteTask | KanbanTasker/ViewModels/BoardViewModel.cs:450-481 | It throws exactly when no task has the id, and then nothing is sent. A failed delete sends the row delete and leaves the board as it was. A successful one removes one task and sends the row delete, then the toast removal keyed by the id. CurrentTask becomes the last listed task, or null. The snapshot, the columns and the identity counter are kept. |
| ColumnIndex.Repack | KanbanTasker/ViewModels/BoardViewModel.cs:463-474 | The loop keeps the list's length and sends one index update per card of the re-pack order, the k-th giving the deleted index plus k. On distinct objects, a card outside the re-pack order is untouched, and a card in it is found in the order and gets the deleted index plus its rank there. |
| ColumnIndex.TrailingMembers | KanbanTasker/ViewModels/BoardViewModel.cs:466-468 | The re-pack order holds exactly the cards of the deleted card's column with a higher index, in ascending index order. |
| ColumnIndex.RepackUpdatesMoveDown | KanbanTasker/ViewModels/BoardViewModel.cs:463-474 | After a card is removed from a contiguous column, the re-pack sends one index update per card above the gap, in ascending order of old index. Each update moves its card down exactly one place. |
| ColumnIndex.DeleteRepacksColumn | KanbanTasker/ViewModels/BoardViewModel.cs:459-474 | With distinct objects and a contiguous column: every card above the removed one drops by exactly one and nothing else changes. The updates move each such card down one place, and the column is contiguous again. Every other column is as it was before the removal. |
| Board.DeleteSucceeds | KanbanTasker/ViewModels/BoardViewModel.cs:457-474 | A successful delete on a valid board with a contiguous column removes the task and lowers exactly the tasks above it in its column by one. The column stays contiguous and every other column is unchanged. |
| Board.DeleteSendsUpdates | KanbanTasker/ViewModels/BoardViewModel.cs:455-474 | A successful delete sends, in order: the row delete, the toast removal, and one index update per task above the deleted one in its column. The updates go in ascending order of old index, and each moves its task down one place. |
| Board.DeleteKeepsValid | KanbanTasker/ViewModels/BoardViewModel.cs:457-460 | Every delete keeps the object-identity discipline. |
| Board.CancelEdit | KanbanTasker/ViewModels/BoardViewModel.cs:504-530 | Without a snapshot nothing changes. When CurrentTask is not listed, the -1 index throws. Otherwise its entry becomes a fresh copy of the snapshot and the list is re-sorted by index. The toast is prepared again from CurrentTask only when the snapshot's reminder is not "None". CurrentTask, the snapshot and the columns are kept. |
| Board.CancelKeepsValid | KanbanTasker/ViewModels/BoardViewModel.cs:516-522 | A cancel keeps the discipline. After a restore, the edited object is no longer on the board. |
| Board.EditThenCancelRestores | KanbanTasker/ViewModels/BoardViewModel.cs:514-522 | Opening a task, editing it in the pane and cancelling gives back the board's task data as before the edit, sorted by index. A second cancel then throws. |
| Board.CancelTwiceThrows | KanbanTasker/ViewModels/BoardViewModel.cs:518-520 | After a restoring cancel, the next cancel cannot find CurrentTask and throws. |
| Board.RemoveReminder | KanbanTasker/ViewModels/BoardViewModel.cs:537-541 | It removes the toast keyed by the current task's id and sets the current task's reminder to "None". The change is written through to the current object's list entries, and every other entry is unchanged. The snapshot, the columns and the identity counter are kept, and `Valid` is preserved. A null CurrentTask throws. |
| Board.CancelAfterRemovingReminder | KanbanTasker/ViewModels/BoardViewModel.cs:524-526 | The code as written: after opening a task that has a reminder and removing it, a cancel sends a second toast removal instead of scheduling the restored reminder. |
| Board.CancelEditRestoringToast | KanbanTasker/ViewModels/BoardViewModel.cs:504-530 | The corrected cancel: the same board as CancelEdit, but the toast is prepared from the restored snapshot. |
| Board.RestoringCancelSchedulesSnapshot | KanbanTasker/ViewModels/BoardViewModel.cs:524-526 | A corrected cancel that restores a reminder never removes the toast. It schedules exactly the toast the restored task asks for. |
| Board.EditColumn | KanbanTasker/ViewModels/BoardViewModel.cs:549-573 | The column records are fetched when none are kept. It throws exactly when no record has the old name. Otherwise it sends the saved record, then the rename loop's updates, and the list becomes the relabelled list sorted by index. |
| ColumnIndex.Relabel | KanbanTasker/ViewModels/BoardViewModel.cs:564-571 | The rename loop keeps the same objects at the same positions and sends at most one update per card. |
| ColumnIndex.RelabelFromCards | KanbanTasker/ViewModels/BoardViewModel.cs:564-571 | On distinct objects, the loop from position i leaves the cards before i alone and relabels each later card of the old column. |
| ColumnIndex.RelabelFromUpdates | KanbanTasker/ViewModels/BoardViewModel.cs:564-571 | On distinct objects, the loop from position i sends one category update per card of the old column from i on, in list order. |
| ColumnIndex.RelabelRenamesColumn | KanbanTasker/ViewModels/BoardViewModel.cs:564-571 | With distinct objects, the loop relabels exactly the old column's cards and changes nothing else. It sends one category update per relabelled card, in list order. |
| ColumnIndex.RelabelOtherColumns | KanbanTasker/ViewModels/BoardViewModel.cs:564-571 | A rename leaves every column other than the two names untouched. |
| ColumnIndex.RelabelEmptiesOldColumn | KanbanTasker/ViewModels/BoardViewModel.cs:564-571 | After a rename to a different name, no card is left under the old name. |
| ColumnIndex.RelabelMovesColumn | KanbanTasker/ViewModels/BoardViewModel.cs:564-571 | When no card had the new name, the new column is the old column relabelled, in the same order. |
| ColumnIndex.RenameKeepsContiguous | KanbanTasker/ViewModels/BoardViewModel.cs:564-571 | A contiguous column renamed to an unused name is contiguous under the new name. |
| Board.EditColumnRenames | KanbanTasker/ViewModels/BoardViewModel.cs:564-572 | The new list is a permutation of the relabelled list, sorted by index. Tasks with equal indices keep their relative order. The category updates are one per task of the old column, in list order. Every other column is its old self sorted by index. A contiguous column renamed to an unused name stays contiguous. |
| Board.EditColumnKeepsValid | KanbanTasker/ViewModels/BoardViewModel.cs:563-572 | A rename keeps the discipline, and CurrentTask is re-read from the new list. |
| Ordering.SortIsSorted | KanbanTasker/ViewModels/BoardViewModel.cs:572 | `OrderBy(ColumnIndex)` yields a list in non-decreasing index order. |
| Ordering.SortIsStable | KanbanTasker/ViewModels/BoardViewModel.cs:572 | `OrderBy` is stable: the cards holding any one index keep their relative order. |
| Ordering.SortCommutesWithFilter | KanbanTasker/ViewModels/BoardViewModel.cs:572 | Filtering the sorted list equals sorting the filtered list. |
| Board.AddTag | KanbanTasker/ViewModels/BoardViewModel.cs:580-603 | It answers true exactly when there is a current task and it lacks the tag. The tag is then appended to the current task and written through to its list entries; every other entry is unchanged. Otherwise nothing changes. `Valid` is preserved. |
| Board.DeleteTag | KanbanTasker/ViewModels/BoardViewModel.cs:487-499 | The current task's tags lose the first occurrence of the tag, and nothing else of the task changes. The change is written through to the current object's list entries; every other entry is unchanged. A null CurrentTask changes nothing. `Valid` is preserved. |
| Board.RemoveFirst | KanbanTasker/ViewModels/BoardViewModel.cs:496 | `List.Remove` cuts out exactly the first occurrence when the item is there, so one copy leaves the multiset. Otherwise it changes nothing. |
| Board.AddThenDeleteTag | KanbanTasker/ViewModels/BoardViewModel.cs:580-603 | Deleting a tag that was just added gives back exactly the board before the add. |
| Reminders.ChoiceOf | KanbanTasker/ViewModels/BoardViewModel.cs:92-103 | A text names a combo-box entry exactly when it is that entry's label. |
| Reminders.LabelsRoundTrip | KanbanTasker/ViewModels/BoardViewModel.cs:92-103 | The nine reminder labels are distinct: every entry is recovered from its label. |
| Reminders.LeadTicks | KanbanTasker/ViewModels/BoardViewModel.cs:656-681 | A listed label subtracts its lead time: 0 or 5, 10 or 15 minutes, 1 or 2 hours, or 1 or 2 days. An unlisted label subtracts nothing. |
| Clock.Combine | KanbanTasker/ViewModels/BoardViewModel.cs:649-653 | The due instant has the calendar day of the due date, the time of day of the time due in whole seconds, and the offset of the time due. It throws only at the ends of the calendar. |
| Clock.Shift | KanbanTasker/ViewModels/BoardViewModel.cs:661-680 | `AddMinutes`, `AddHours` and `AddDays` move the UTC instant by exactly the shift and keep the offset. They throw exactly when the result leaves the calendar. |
| Reminders.Resolve | KanbanTasker/ViewModels/BoardViewModel.cs:649-681 | The scheduled instant is the due instant minus the label's lead time, at the same offset, so it is never after the due instant. Away from the calendar's ends it always succeeds. |
| Reminders.OneDayBeforeExample | KanbanTasker/ViewModels/BoardViewModel.cs:649-677 | A due date of 2024-03-10, a time due of 09:00 at UTC+1 and "1 Day Before" schedule the toast at 2024-03-09 09:00 UTC+1. |
| Reminders.Decide | KanbanTasker/ViewModels/BoardViewModel.cs:633-685 | "None" cancels the toast keyed by the task id, whatever the dates say. Otherwise nothing happens exactly when the due date or the time due is missing or unreadable. Otherwise the toast is scheduled at the resolved instants, or the arithmetic throws. |
| Board.Toast | KanbanTasker/ViewModels/BoardViewModel.cs:633-685 | The calls this sends to the toast service: one removal exactly for "None", one schedule with the task's data and the resolved instants, nothing, or an escaping range fault. |
| Reminders.PastDue | KanbanTasker/ViewModels/BoardViewModel.cs:834-850 | The result is false whenever the due date or the time due is missing or unreadable. When both are read, it is whether the combined due instant is before `now`, or the range fault when combining leaves the calendar. |
| Reminders.PastDueAgreesWithToast | KanbanTasker/ViewModels/BoardViewModel.cs:834-850 | Whenever a toast is scheduled, the past-due check compares `now` with that toast's due instant. |

## Left out

- Code behaviours the model keeps as written, although the view-model's comments suggest otherwise:
  - SaveTask does not clear `OriginalTask`. Its comment (BoardViewModel.cs:240-243) calls it the copy used to revert a cancelled edit, so a cancel after a save still restores the state from before the edit.
  - CancelEdit re-sorts the whole list, not only the task's column.
  - CancelEdit resets neither CurrentTask nor `OriginalTask`.
  - SaveTask never reaches the "None" branch of PrepareAndScheduleToastNotification, because its guard excludes "None".
  - An empty reminder label "" is not treated as "no reminder". SaveTask's guard excludes it, but CancelEdit's guard tests only "None" (BoardViewModel.cs:524-525), so a cancel of a task with the empty label schedules its toast at the due instant (`Reminders.EmptyLabelSchedulesAtDue`) instead of removing it.
- `PresentationTask` is not part of this model. Two assumptions about it are built into the object-identity model:
  - `Equals` is reference equality, so `IndexOf(CurrentTask)` and `Remove(task)` find the very object, never an equal copy.
  - `To_TaskDTO` copies every modelled field, `Tags` included, so the snapshot does not share a tag list with the task being edited.
- Null category, title, reminder label, tag list and column name: the model uses plain strings and lists. A null `Tags` list, a null category reaching `Equals`, or a stored column record with a null `ColumnName` met before the match in EditColumn's `Find(x => x.ColumnName.Equals(...))` (BoardViewModel.cs:555), which throws a null dereference, is not modelled.
- The tag vocabulary (`Board.TagsCollection`) and the suggested-tags list (InitializeSuggestedTags, and the suggestion updates in AddTag): they are display state shared between views. AddTag is modelled on the current task's tags and its answer.
- The date-check timer, `DaysWorkedOn` and `DaysSinceCreation`, and all display strings: these depend on the wall clock and on formatting.
- `ToNullableDateTimeOffset` is not part of this model. It is a parameter, and `now` is passed in as text for the saved creation date.
- In-app notifications (`ShowInAppNotification`, `DisplayNotificationAsync`) and the UI flags (pane title, pane open, editing, progress ring): they are user-interface output only.
- UpdateCardColumn and UpdateCardIndex only forward their arguments to the repository. The index update appears as an `Effect`.
- The `Set*` date helpers, `IsPassedDue`, and the observable-property setters other than the two edit-pane bindings modelled by `Board.EditCurrent`.
- Columns.Configure: the slots assigned before a missing position throws are not kept. The model yields the fault without them.
- Board.SaveKeepsValid: requires that an unsaved current task (id 0) is not already listed. Saving such a task twice would list one object twice, which the source allows.
- Board.DeleteSucceeds: states the exact one-place drop only for a column that was contiguous before the delete.
- Board.DeleteSendsUpdates: states that each update moves its task down one place only for a contiguous column. On any other column, the k-th update gives the deleted index plus k, as the function itself computes.
- Repository failures other than a failed delete, and concurrency: the repository is modelled as answering synchronously.

## Findings

| source | as written | input that shows it | evidently intended | confidence | as-written member | corrected member |
|---|---|---|---|---|---|---|
| KanbanTasker/ViewModels/BoardViewModel.cs:524-526 | When the snapshot has a reminder, CancelEdit prepares the toast from `CurrentTask`, which is the edited object that was just taken off the board. | Open a task whose reminder is "1 Hour Before", remove its reminder (which sets it to "None" and removes the toast), then cancel. The restored task has "1 Hour Before" again, but the cancel sends a second toast removal and schedules nothing. | Prepare the toast from the restored snapshot, so the restored reminder is scheduled again. | not executed | Board.CancelAfterRemovingReminder | Board.RestoringCancelSchedulesSnapshot |
