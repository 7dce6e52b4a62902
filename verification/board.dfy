/**
 * The board view-model: the task list of one board, the task the edit pane
 * works on, the snapshot a cancel restores, and the commands that change them.
 *
 * Every command is a function from the board to an `Outcome`: the new board,
 * the repository and toast-service calls it made (in order), and the
 * exception it let escape, if any. State changed before an exception is kept,
 * as it is in the view-model. Repository answers (the id a save assigns,
 * whether a delete succeeded, the columns a lookup returns), the current time
 * and the date parser are parameters.
 */
module Board {
  import opened Wrappers
  import opened Clock
  import opened Tasks
  import opened Ordering
  import opened Columns
  import opened Effects
  import opened Reminders
  import opened ColumnIndex

  datatype BoardState = BoardState(
    boardId: int,
    tasks: seq<Card>,           // Board.Tasks
    current: Option<Card>,     // CurrentTask; None stands for null
    original: Option<Task>,    // OriginalTask, the snapshot a cancel restores
    columnNames: seq<Column>,  // the column records kept for renames
    slots: seq<Slot>,          // the five column headers and their limits
    nextRef: nat)              // the identity the next new PresentationTask gets

  datatype Outcome = Outcome(board: BoardState, effects: seq<Effect>, fault: Option<Fault>)

  /**
   * The aliasing discipline: no object is listed twice, every identity in use
   * was handed out already, and the current task, when it is listed, is the
   * listed object itself (so it holds the same data).
   */
  predicate Valid(b: BoardState) {
    && DistinctRefs(b.tasks)
    && (forall i :: 0 <= i < |b.tasks| ==> b.tasks[i].ref < b.nextRef)
    && (b.current.Some? ==> b.current.value.ref < b.nextRef && Coherent(b.tasks, b.current.value))
  }

  /** Every list entry that is object `c.ref` is `c`. */
  predicate Coherent(cards: seq<Card>, c: Card) {
    forall i :: 0 <= i < |cards| && cards[i].ref == c.ref ==> cards[i] == c
  }

  /**
   * The board's identity and its column configuration are the same: every
   * command other than opening a board and EditColumn leaves them alone.
   */
  predicate SameColumns(a: BoardState, b: BoardState) {
    a.boardId == b.boardId && a.columnNames == b.columnNames && a.slots == b.slots
  }

  // ---------------------------------------------------------------------------
  // Lookups

  /** `Board.Tasks.First(x => x.ID == id)`, as a position. */
  function FirstWithId(cards: seq<Card>, id: int): (r: Option<nat>)
    ensures r.Some? ==> r.value < |cards| && cards[r.value].task.id == id
                        && forall j :: 0 <= j < r.value ==> cards[j].task.id != id
    ensures r.None? <==> forall j :: 0 <= j < |cards| ==> cards[j].task.id != id
  {
    if |cards| == 0 then None
    else if cards[0].task.id == id then Some(0)
    else match FirstWithId(cards[1..], id)
         case None => None
         case Some(k) => Some(k + 1)
  }

  /** `Board.Tasks.IndexOf(x)`: the first entry that is object `x`, or -1; null is never listed. */
  function IndexOf(cards: seq<Card>, x: Option<Card>): (r: int)
    ensures -1 <= r < |cards|
    ensures r == -1 <==> x.None? || !HasRef(cards, x.value.ref)
    ensures r >= 0 ==> cards[r].ref == x.value.ref && forall j :: 0 <= j < r ==> cards[j].ref != x.value.ref
  {
    if x.None? || |cards| == 0 then -1
    else if cards[0].ref == x.value.ref then 0
    else
      var k := IndexOf(cards[1..], x);
      assert k >= 0 ==> cards[k + 1] == cards[1..][k];
      assert k == -1 ==> forall j :: 0 <= j < |cards| ==> cards[j].ref != x.value.ref by {
        if k == -1 {
          forall j | 0 < j < |cards| ensures cards[j].ref != x.value.ref {
            assert cards[j] == cards[1..][j - 1];
          }
        }
      }
      if k == -1 then -1 else k + 1
  }

  /** The current object as it stands in `cards`, when it is listed there. */
  function Refresh(current: Option<Card>, cards: seq<Card>): (r: Option<Card>)
    ensures current.None? ==> r.None?
    ensures current.Some? ==> r.Some? && r.value.ref == current.value.ref
    ensures current.Some? && HasRef(cards, current.value.ref) ==> r.value in cards
    ensures current.Some? && !HasRef(cards, current.value.ref) ==> r == current
  {
    var k := IndexOf(cards, current);
    if k == -1 then current else Some(cards[k])
  }

  /**
   * `after` is the list `before` once object `ref` holds `t`: the same objects
   * in the same order, every entry that is object `ref` carrying `t`, and
   * every other entry as it was.
   */
  predicate WrittenThrough(before: seq<Card>, after: seq<Card>, ref: nat, t: Task) {
    && |after| == |before|
    && forall i :: 0 <= i < |before| ==>
         && after[i].ref == before[i].ref
         && (before[i].ref != ref ==> after[i] == before[i])
         && (before[i].ref == ref ==> after[i].task == t)
  }

  /** A write through CurrentTask: the current object, wherever it is listed, now holds `t`. */
  function WriteCurrent(b: BoardState, t: Task): (r: BoardState)
    requires b.current.Some?
    ensures r.current == Some(Card(b.current.value.ref, t))
    ensures WrittenThrough(b.tasks, r.tasks, b.current.value.ref, t)
    ensures r.original == b.original && r.nextRef == b.nextRef
    ensures r.boardId == b.boardId && r.columnNames == b.columnNames && r.slots == b.slots
    ensures Valid(b) ==> Valid(r)
  {
    b.(current := Some(Card(b.current.value.ref, t)), tasks := SetTask(b.tasks, b.current.value.ref, t))
  }

  // ---------------------------------------------------------------------------
  // Opening a board

  /**
   * The constructor: the board's tasks become distinct objects, CurrentTask
   * is a fresh empty task that is not on the board, and the columns are
   * configured from what the repository stores for the board.
   */
  function Open(boardId: int, loaded: seq<Task>, stored: seq<Column>): (r: Result<BoardState, Fault>)
    ensures r.Ok? ==> Valid(r.value)
    ensures r.Ok? ==> Contents(r.value.tasks) == loaded
    ensures r.Ok? ==> r.value.current.Some? && r.value.current.value.task == EmptyTask()
                      && !HasRef(r.value.tasks, r.value.current.value.ref)
    ensures r.Ok? ==> r.value.original.None?
    ensures r.Ok? ==> Configure(boardId, stored) == Configured(r.value.columnNames, Ok(r.value.slots))
    ensures r.Err? <==> Configure(boardId, stored).slots.Err?
  {
    var n := |loaded|;
    var cards := Numbered(loaded);
    var configured := Configure(boardId, stored);
    match configured.slots
    case Err(e) => Err(e)
    case Ok(slots) => Ok(BoardState(boardId, cards, Some(Card(n, EmptyTask())), None, configured.columnNames, slots, n + 1))
  }

  /** One fresh object per loaded task, numbered in load order. */
  function Numbered(loaded: seq<Task>): (cards: seq<Card>)
    ensures |cards| == |loaded| && Contents(cards) == loaded && DistinctRefs(cards)
    ensures forall i :: 0 <= i < |cards| ==> cards[i].ref == i
  {
    seq(|loaded|, i requires 0 <= i < |loaded| => Card(i, loaded[i]))
  }

  // ---------------------------------------------------------------------------
  // The edit pane

  /** The task NewTask prepares: the category of the column, the default priority and no reminder. */
  function NewTaskData(boardId: int, category: string): Task {
    Task(0, boardId, "", category, 0, DefaultColorKey, [], None, None, NoReminderLabel, None)
  }

  /**
   * NewTask: CurrentTask becomes a fresh object for a task not yet stored,
   * in the given column, with the default priority and no reminder; the
   * snapshot is cleared and the board's list is not touched.
   */
  function NewTask(b: BoardState, category: string): (r: BoardState)
    ensures r.tasks == b.tasks
    ensures r.original.None?
    ensures r.current.Some? && r.current.value.task.id == 0 && r.current.value.task.category == category
    ensures r.current.value.task.colorKey == DefaultColorKey && r.current.value.task.reminderTime == NoReminderLabel
    ensures r.current.value.task.boardId == b.boardId && r.current.value.task.tags == []
    ensures r.current.value.task.dueDate.None? && r.current.value.task.timeDue.None?
    ensures !HasReminderInformation(r.current.value.task)
    ensures SameColumns(b, r)
    ensures Valid(b) ==> Valid(r) && !HasRef(r.tasks, r.current.value.ref)
  {
    b.(current := Some(Card(b.nextRef, NewTaskData(b.boardId, category))), original := None, nextRef := b.nextRef + 1)
  }

  /**
   * EditTask: CurrentTask becomes the first listed task with the id; then
   * the date information is brought up to date, which combines the task's
   * due date and time due into one instant (CheckIfPastDue) and throws when
   * that instant is out of range; only after that is the snapshot taken, a
   * copy of the task's data. No such task: First throws and nothing the model
   * keeps has changed. The due-date verdict itself (IsPassedDue) is not kept.
   */
  function EditTask(b: BoardState, parse: string -> Option<ValidDateTimeOffset>, now: DateTimeOffset, id: int): (r: Outcome)
    ensures r.effects == [] && r.board.tasks == b.tasks
    ensures SameColumns(b, r.board) && r.board.nextRef == b.nextRef
    ensures r.fault == Some(NotFound) <==> forall j :: 0 <= j < |b.tasks| ==> b.tasks[j].task.id != id
    ensures r.fault == Some(NotFound) ==> r.board == b
    ensures r.fault.Some? ==> r.fault == Some(NotFound) || r.fault == Some(DateOutOfRange)
    ensures FirstWithId(b.tasks, id).Some? ==>
              var p := FirstWithId(b.tasks, id).value;
              && r.board.current == Some(b.tasks[p])
              && (r.fault == Some(DateOutOfRange) <==> PastDue(parse, b.tasks[p].task, now).Err?)
              && (r.fault == Some(DateOutOfRange) ==> r.board.original == b.original)
              && (r.fault.None? ==> r.board.original == Some(b.tasks[p].task))
    ensures Valid(b) ==> Valid(r.board)
  {
    match FirstWithId(b.tasks, id)
    case None => Outcome(b, [], Some(NotFound))
    case Some(p) =>
      var shown := b.(current := Some(b.tasks[p]));
      if PastDue(parse, b.tasks[p].task, now).Err? then Outcome(shown, [], Some(DateOutOfRange))
      else Outcome(shown.(original := Some(b.tasks[p].task)), [], None)
  }

  /**
   * The edit pane's two-way bindings (SelectedColorKey, SelectedReminderTime,
   * and the fields bound directly): the new data is written to the current
   * object, and so to the board wherever that object is listed. A null
   * CurrentTask is dereferenced.
   */
  function EditCurrent(b: BoardState, t: Task): (r: Outcome)
    ensures r.effects == []
    ensures b.current.None? <==> r.fault == Some(NullReference)
    ensures b.current.None? ==> r.board == b
    ensures b.current.Some? ==> r.board.current == Some(Card(b.current.value.ref, t))
    ensures b.current.Some? ==> WrittenThrough(b.tasks, r.board.tasks, b.current.value.ref, t)
    ensures r.board.original == b.original
    ensures SameColumns(b, r.board) && r.board.nextRef == b.nextRef
    ensures Valid(b) ==> Valid(r.board)
  {
    match b.current
    case None => Outcome(b, [], Some(NullReference))
    case Some(c) => Outcome(WriteCurrent(b, t), [], None)
  }

  // ---------------------------------------------------------------------------
  // Toasts

  /** The toast-service calls PrepareAndScheduleToastNotification makes for task `t`. */
  datatype Sent = Sent(effects: seq<Effect>, fault: Option<Fault>)

  function Toast(parse: string -> Option<ValidDateTimeOffset>, t: Task): (r: Sent)
    ensures t.reminderTime == NoReminderLabel <==> r == Sent([RemoveScheduledToast(t.id)], None)
    ensures r.fault.Some? <==> Decide(parse, t).Threw?
    ensures r.fault.Some? ==> r.fault.value == DateOutOfRange && r.effects == []
    ensures (r.effects == [] && r.fault.None?) <==> Decide(parse, t).NoToast?
    ensures Decide(parse, t).Schedule? ==>
              r == Sent([Effect.ScheduleToast(t, Decide(parse, t).times.scheduled, Decide(parse, t).times.due)], None)
  {
    match Decide(parse, t)
    case CancelToast(key) => Sent([RemoveScheduledToast(key)], None)
    case NoToast => Sent([], None)
    case Schedule(times) => Sent([Effect.ScheduleToast(t, times.scheduled, times.due)], None)
    case Threw(e) => Sent([], Some(e))
  }

  // ---------------------------------------------------------------------------
  // Commands

  /**
   * SaveTask. A null CurrentTask saves nothing. Otherwise the current task's
   * record is saved; a task not yet stored (id 0) is saved with the column's
   * card count as its index and `now` as its creation date, and then takes
   * the id the repository assigned and that index and is appended to the
   * board. A toast is prepared only when the task has a due date, a time due
   * and a reminder other than "None". The snapshot is kept.
   */
  function SaveTask(b: BoardState, parse: string -> Option<ValidDateTimeOffset>, now: string, assignedId: int): (r: Outcome)
    ensures r.board.original == b.original
    ensures SameColumns(b, r.board) && r.board.nextRef == b.nextRef
    ensures b.current.None? ==> r == Outcome(b, [], None)
    ensures b.current.Some? && b.current.value.task.id != 0 ==>
              r.board == b && |r.effects| >= 1 && r.effects[0] == SaveTaskRow(b.current.value.task)
    ensures b.current.Some? && b.current.value.task.id == 0 ==>
              var c := b.current.value;
              var index := CountIn(b.tasks, c.task.category);
              var saved := c.task.(id := assignedId, columnIndex := index);
              && |r.effects| >= 1
              && r.effects[0] == SaveTaskRow(c.task.(columnIndex := index, dateCreated := Some(now)))
              && r.board.current == Some(Card(c.ref, saved))
              && (!HasRef(b.tasks, c.ref) ==> r.board.tasks == b.tasks + [Card(c.ref, saved)])
    ensures b.current.Some? ==>
              var t := r.board.current.value.task;
              (HasReminderInformation(t) ==> r.effects[1..] == Toast(parse, t).effects && r.fault == Toast(parse, t).fault)
              && (!HasReminderInformation(t) ==> |r.effects| == 1 && r.fault.None?)
  {
    match b.current
    case None => Outcome(b, [], None)
    case Some(c) =>
      var isNew := c.task.id == 0;
      var index := CountIn(b.tasks, c.task.category);
      var record := if isNew then c.task.(columnIndex := index, dateCreated := Some(now)) else c.task;
      var b' := if isNew then
                  var saved := c.task.(id := assignedId, columnIndex := index);
                  b.(tasks := SetTask(b.tasks, c.ref, saved) + [Card(c.ref, saved)], current := Some(Card(c.ref, saved)))
                else b;
      var t := b'.current.value.task;
      if HasReminderInformation(t) then
        var toast := Toast(parse, t);
        Outcome(b', [SaveTaskRow(record)] + toast.effects, toast.fault)
      else
        Outcome(b', [SaveTaskRow(record)], None)
  }

  /**
   * DeleteTask. The first task with the id is looked up (First throws when
   * there is none) and its row deleted. When the repository reports success
   * the task leaves the list, CurrentTask becomes the last listed task (or
   * null), the task's toast is removed and the column is re-packed; on
   * failure the board is left as it was.
   */
  function DeleteTask(b: BoardState, id: int, succeeded: bool): (r: Outcome)
    ensures r.fault.Some? <==> forall j :: 0 <= j < |b.tasks| ==> b.tasks[j].task.id != id
    ensures r.fault.Some? ==> r.fault.value == NotFound && r == Outcome(b, [], r.fault)
    ensures r.fault.None? && !succeeded ==> r == Outcome(b, [DeleteTaskRow(id)], None)
    ensures r.fault.None? && succeeded ==>
              && |r.board.tasks| == |b.tasks| - 1
              && |r.effects| >= 2 && r.effects[0] == DeleteTaskRow(id) && r.effects[1] == RemoveScheduledToast(id)
              && (r.board.tasks == [] <==> r.board.current.None?)
              && (r.board.tasks != [] ==> r.board.current == Some(r.board.tasks[|r.board.tasks| - 1]))
    ensures r.board.original == b.original
    ensures SameColumns(b, r.board) && r.board.nextRef == b.nextRef
  {
    match FirstWithId(b.tasks, id)
    case None => Outcome(b, [], Some(NotFound))
    case Some(p) =>
      if !succeeded then Outcome(b, [DeleteTaskRow(id)], None)
      else
        var gone := b.tasks[p];
        var rest := RemoveAt(b.tasks, p);
        var packed := Repack(rest, gone.task.category, gone.task.columnIndex);
        var last := if |rest| == 0 then None else Some(packed.cards[|rest| - 1]);
        Outcome(b.(tasks := packed.cards, current := last),
                [DeleteTaskRow(id), RemoveScheduledToast(id)] + packed.updates, None)
  }

  /**
   * CancelEdit as written. Without a snapshot nothing happens. Otherwise the
   * entry that is the current object is replaced by a fresh copy of the
   * snapshot (IndexOf's -1 makes the indexer throw when the current object
   * is not listed), the list is re-sorted by index, and, when the snapshot
   * had a reminder, the toast is prepared again from CurrentTask, which is
   * still the edited object. Neither the snapshot nor CurrentTask is reset.
   */
  function CancelEdit(b: BoardState, parse: string -> Option<ValidDateTimeOffset>): (r: Outcome)
    ensures r.board.original == b.original && r.board.current == b.current
    ensures SameColumns(b, r.board)
    ensures b.original.None? ==> r == Outcome(b, [], None)
    ensures b.original.Some? && IndexOf(b.tasks, b.current) == -1 ==> r == Outcome(b, [], Some(IndexOutOfRange))
    ensures b.original.Some? && IndexOf(b.tasks, b.current) >= 0 ==>
              r.board.tasks == SortByIndex(b.tasks[IndexOf(b.tasks, b.current) := Card(b.nextRef, b.original.value)])
    ensures b.original.Some? && IndexOf(b.tasks, b.current) >= 0 ==>
              if b.original.value.reminderTime == NoReminderLabel then r.effects == [] && r.fault.None?
              else r.effects == Toast(parse, b.current.value.task).effects && r.fault == Toast(parse, b.current.value.task).fault
  {
    match b.original
    case None => Outcome(b, [], None)
    case Some(snapshot) =>
      var index := IndexOf(b.tasks, b.current);
      if index == -1 then Outcome(b, [], Some(IndexOutOfRange))
      else
        var b' := b.(tasks := SortByIndex(b.tasks[index := Card(b.nextRef, snapshot)]), nextRef := b.nextRef + 1);
        if snapshot.reminderTime != NoReminderLabel then
          var toast := Toast(parse, b.current.value.task);
          Outcome(b', toast.effects, toast.fault)
        else
          Outcome(b', [], None)
  }

  /**
   * CancelEdit as evidently intended: the same restore, but the toast is
   * prepared again from the restored snapshot, so the reminder the cancel
   * brings back is the one that gets scheduled.
   */
  function CancelEditRestoringToast(b: BoardState, parse: string -> Option<ValidDateTimeOffset>): (r: Outcome)
    ensures r.board == CancelEdit(b, parse).board
    ensures b.original.Some? && IndexOf(b.tasks, b.current) >= 0 ==>
              if b.original.value.reminderTime == NoReminderLabel then r.effects == [] && r.fault.None?
              else r.effects == Toast(parse, b.original.value).effects && r.fault == Toast(parse, b.original.value).fault
    ensures !(b.original.Some? && IndexOf(b.tasks, b.current) >= 0) ==> r == CancelEdit(b, parse)
  {
    match b.original
    case None => Outcome(b, [], None)
    case Some(snapshot) =>
      var index := IndexOf(b.tasks, b.current);
      if index == -1 then Outcome(b, [], Some(IndexOutOfRange))
      else
        var b' := b.(tasks := SortByIndex(b.tasks[index := Card(b.nextRef, snapshot)]), nextRef := b.nextRef + 1);
        if snapshot.reminderTime != NoReminderLabel then
          var toast := Toast(parse, snapshot);
          Outcome(b', toast.effects, toast.fault)
        else
          Outcome(b', [], None)
  }

  /**
   * RemoveScheduledNotfication: the toast keyed by the current task's id is
   * removed and the current task's reminder becomes "None" (written through).
   * A null CurrentTask is dereferenced.
   */
  function RemoveReminder(b: BoardState): (r: Outcome)
    ensures b.current.None? <==> r.fault == Some(NullReference)
    ensures b.current.None? ==> r == Outcome(b, [], Some(NullReference))
    ensures b.current.Some? ==>
              && r.effects == [RemoveScheduledToast(b.current.value.task.id)]
              && r.board.current == Some(Card(b.current.value.ref, b.current.value.task.(reminderTime := NoReminderLabel)))
              && WrittenThrough(b.tasks, r.board.tasks, b.current.value.ref, r.board.current.value.task)
              && r.board.original == b.original
    ensures SameColumns(b, r.board) && r.board.nextRef == b.nextRef
    ensures Valid(b) ==> Valid(r.board)
  {
    match b.current
    case None => Outcome(b, [], Some(NullReference))
    case Some(c) => Outcome(WriteCurrent(b, c.task.(reminderTime := NoReminderLabel)), [RemoveScheduledToast(c.task.id)], None)
  }

  /**
   * EditColumn. The column records are fetched when none are kept; the first
   * record named `oldName` is renamed and saved (a missing one is
   * dereferenced as null); every listed task of that column is relabelled,
   * each relabel sent to the repository; and the list is re-sorted by index.
   */
  function EditColumn(b: BoardState, oldName: string, newName: string, newMax: int, fetched: seq<Column>): (r: Outcome)
    ensures var columns := if b.columnNames == [] then fetched else b.columnNames;
            (r.fault.Some? <==> forall j :: 0 <= j < |columns| ==> columns[j].name != oldName)
            && (r.fault.Some? ==> r == Outcome(b.(columnNames := columns), [], Some(NullReference)))
            && (r.fault.None? ==>
                  |r.effects| >= 1 && r.effects[0].SaveColumn?
                  && Rename(columns, oldName, newName, newMax) == Ok((r.board.columnNames, r.effects[0].column)))
    ensures r.fault.None? ==>
              && |r.effects| >= 1 && r.effects[0].SaveColumn?
              && r.effects[1..] == Relabel(b.tasks, oldName, newName).updates
              && r.board.tasks == SortByIndex(Relabel(b.tasks, oldName, newName).cards)
              && r.board.current == Refresh(b.current, r.board.tasks)
    ensures r.board.original == b.original && r.board.slots == b.slots && r.board.boardId == b.boardId
    ensures r.board.nextRef == b.nextRef
  {
    var columns := if b.columnNames == [] then fetched else b.columnNames;
    match Rename(columns, oldName, newName, newMax)
    case Err(e) => Outcome(b.(columnNames := columns), [], Some(e))
    case Ok((renamed, saved)) =>
      var relabel := Relabel(b.tasks, oldName, newName);
      var sorted := SortByIndex(relabel.cards);
      Outcome(b.(columnNames := renamed, tasks := sorted, current := Refresh(b.current, sorted)),
              [SaveColumn(saved)] + relabel.updates, None)
  }

  /** Where `x` first occurs in `s`. */
  function FirstIndex(s: seq<string>, x: string): (k: nat)
    requires x in s
    ensures k < |s| && s[k] == x && x !in s[..k]
  {
    if s[0] == x then 0
    else
      assert x in s[1..];
      var j := FirstIndex(s[1..], x);
      assert s[..j + 1] == [s[0]] + s[1..][..j];
      j + 1
  }

  /** `List.Remove`: the first occurrence of `x` leaves the list, if there is one. */
  function RemoveFirst(s: seq<string>, x: string): (r: seq<string>)
    ensures x !in s ==> r == s
    ensures x in s ==> r == s[..FirstIndex(s, x)] + s[FirstIndex(s, x) + 1..]
    ensures x in s ==> |r| == |s| - 1 && multiset(r) == multiset(s) - multiset{x}
  {
    if |s| == 0 then []
    else if s[0] == x then
      assert s[..0] + s[1..] == s[1..];
      DropAt(s, 0);
      s[1..]
    else
      var rest := RemoveFirst(s[1..], x);
      RemoveFirstCons(s, x, rest);
      [s[0]] + rest
  }

  /** The step of RemoveFirst past a head that is not `x`. */
  lemma RemoveFirstCons(s: seq<string>, x: string, rest: seq<string>)
    requires |s| > 0 && s[0] != x
    requires x !in s[1..] ==> rest == s[1..]
    requires x in s[1..] ==> rest == s[1..][..FirstIndex(s[1..], x)] + s[1..][FirstIndex(s[1..], x) + 1..]
    ensures x !in s ==> [s[0]] + rest == s
    ensures x in s ==> [s[0]] + rest == s[..FirstIndex(s, x)] + s[FirstIndex(s, x) + 1..]
    ensures x in s ==> |[s[0]] + rest| == |s| - 1 && multiset([s[0]] + rest) == multiset(s) - multiset{x}
  {
    if x in s {
      FirstIndexCons(s, x);
      var j := FirstIndex(s[1..], x);
      assert [s[0]] + rest == s[..j + 1] + s[j + 2..];
      DropAt(s, j + 1);
    } else {
      assert [s[0]] + s[1..] == s;
    }
  }

  /** Dropping entry `k` takes one copy of it out of the multiset. */
  lemma DropAt(s: seq<string>, k: nat)
    requires k < |s|
    ensures multiset(s[..k] + s[k + 1..]) == multiset(s) - multiset{s[k]}
  {
    assert s == s[..k] + [s[k]] + s[k + 1..];
  }

  /** When the head is not `x`, the first `x` of `s` is one past the first `x` of its tail. */
  lemma FirstIndexCons(s: seq<string>, x: string)
    requires |s| > 0 && s[0] != x && x in s
    ensures x in s[1..] && FirstIndex(s, x) == FirstIndex(s[1..], x) + 1
    ensures var j := FirstIndex(s[1..], x);
            [s[0]] + (s[1..][..j] + s[1..][j + 1..]) == s[..j + 1] + s[j + 2..]
  {
    assert x in s[1..];
    var j := FirstIndex(s[1..], x);
    assert s[..j + 1] == [s[0]] + s[1..][..j];
    assert s[j + 2..] == s[1..][j + 1..];
  }

  /**
   * AddTag: a tag the current task does not carry yet is appended to its
   * tags (written through) and the answer is true; with a null CurrentTask
   * or a tag already there nothing changes and the answer is false.
   */
  function AddTag(b: BoardState, tag: string): (r: (BoardState, bool))
    ensures r.1 <==> b.current.Some? && tag !in b.current.value.task.tags
    ensures !r.1 ==> r.0 == b
    ensures r.1 ==> r.0.current.Some? && r.0.current.value.ref == b.current.value.ref
                    && r.0.current.value.task == b.current.value.task.(tags := b.current.value.task.tags + [tag])
                    && WrittenThrough(b.tasks, r.0.tasks, b.current.value.ref, r.0.current.value.task)
    ensures r.0.original == b.original && SameColumns(b, r.0) && r.0.nextRef == b.nextRef
    ensures Valid(b) ==> Valid(r.0)
  {
    match b.current
    case None => (b, false)
    case Some(c) =>
      if tag in c.task.tags then (b, false)
      else (WriteCurrent(b, c.task.(tags := c.task.tags + [tag])), true)
  }

  /** DeleteTag: the first occurrence of the tag leaves the current task's tags; a null CurrentTask changes nothing. */
  function DeleteTag(b: BoardState, tag: string): (r: BoardState)
    ensures b.current.None? ==> r == b
    ensures b.current.Some? ==> r.current.Some? && r.current.value.ref == b.current.value.ref
                                && r.current.value.task == b.current.value.task.(tags := r.current.value.task.tags)
                                && r.current.value.task.tags == RemoveFirst(b.current.value.task.tags, tag)
                                && multiset(r.current.value.task.tags) == multiset(b.current.value.task.tags) - multiset{tag}
                                && WrittenThrough(b.tasks, r.tasks, b.current.value.ref, r.current.value.task)
    ensures r.original == b.original && SameColumns(b, r) && r.nextRef == b.nextRef
    ensures Valid(b) ==> Valid(r)
  {
    match b.current
    case None => b
    case Some(c) => WriteCurrent(b, c.task.(tags := RemoveFirst(c.task.tags, tag)))
  }

  // ---------------------------------------------------------------------------
  // Saving

  /**
   * Saving a task not yet stored appends it to its column with the column's
   * card count as index: that index was free, a contiguous column stays
   * contiguous, and every other column is as it was.
   */
  lemma SaveNewAppends(b: BoardState, parse: string -> Option<ValidDateTimeOffset>, now: string, assignedId: int)
    requires b.current.Some? && b.current.value.task.id == 0 && !HasRef(b.tasks, b.current.value.ref)
    requires Contiguous(b.tasks, b.current.value.task.category)
    ensures var r := SaveTask(b, parse, now, assignedId);
            var category := b.current.value.task.category;
            && r.board.tasks == b.tasks + [r.board.current.value]
            && r.board.current.value.task.id == assignedId
            && r.board.current.value.task.columnIndex == CountIn(b.tasks, category)
            && (forall i :: 0 <= i < |b.tasks| && b.tasks[i].task.category == category ==>
                  b.tasks[i].task.columnIndex != r.board.current.value.task.columnIndex)
            && Contiguous(r.board.tasks, category)
            && (forall other :: other != category ==> InCategory(r.board.tasks, other) == InCategory(b.tasks, other))
  {
    var r := SaveTask(b, parse, now, assignedId);
    AppendKeepsContiguous(b.tasks, r.board.current.value);
  }

  /**
   * A save keeps the aliasing discipline, provided a task not yet stored is
   * not already listed (saving a listed task whose id is still 0 would list
   * it twice).
   */
  lemma SaveKeepsValid(b: BoardState, parse: string -> Option<ValidDateTimeOffset>, now: string, assignedId: int)
    requires Valid(b)
    requires b.current.Some? && b.current.value.task.id == 0 ==> !HasRef(b.tasks, b.current.value.ref)
    ensures Valid(SaveTask(b, parse, now, assignedId).board)
  {
    var r := SaveTask(b, parse, now, assignedId);
    if b.current.Some? && b.current.value.task.id == 0 {
      var c := r.board.current.value;
      assert r.board.tasks == b.tasks + [c];
      assert forall i :: 0 <= i < |b.tasks| ==> b.tasks[i].ref != c.ref;
    }
  }

  /** Saving never removes a toast: the guard lets no task with the "None" reminder through. */
  lemma SaveNeverCancels(b: BoardState, parse: string -> Option<ValidDateTimeOffset>, now: string, assignedId: int)
    ensures var r := SaveTask(b, parse, now, assignedId);
            forall k :: 0 <= k < |r.effects| ==> !r.effects[k].RemoveScheduledToast?
    ensures var r := SaveTask(b, parse, now, assignedId);
            b.current.Some? ==> |r.effects| <= 2 && r.effects[0].SaveTaskRow?
  {
    var r := SaveTask(b, parse, now, assignedId);
    if b.current.Some? {
      var t := r.board.current.value.task;
      if HasReminderInformation(t) {
        GuardExcludesCancel(parse, t);
      }
    }
  }

  // ---------------------------------------------------------------------------
  // Deleting

  /** The successful delete of the task at `p`: what it leaves and what it sends, in terms of the re-pack. */
  lemma DeleteUnfolds(b: BoardState, id: int)
    requires FirstWithId(b.tasks, id).Some?
    ensures var p := FirstWithId(b.tasks, id).value;
            var packed := Repack(RemoveAt(b.tasks, p), b.tasks[p].task.category, b.tasks[p].task.columnIndex);
            var r := DeleteTask(b, id, true);
            r.fault.None? && r.board.tasks == packed.cards
            && r.effects == [DeleteTaskRow(id), RemoveScheduledToast(id)] + packed.updates
  {
  }

  /**
   * A successful delete of a task on a board that keeps the discipline and
   * whose column is contiguous: the task is gone, every task above it in its
   * column moves up one place and nothing else changes, the column is
   * contiguous again and every other column is as it was.
   */
  lemma DeleteSucceeds(b: BoardState, id: int)
    requires Valid(b) && FirstWithId(b.tasks, id).Some?
    requires Contiguous(b.tasks, b.tasks[FirstWithId(b.tasks, id).value].task.category)
    ensures DeleteTask(b, id, true).fault.None?
    ensures var p := FirstWithId(b.tasks, id).value;
            DeleteTask(b, id, true).board.tasks == LowerAll(RemoveAt(b.tasks, p), b.tasks[p].task.category, b.tasks[p].task.columnIndex)
    ensures var p := FirstWithId(b.tasks, id).value;
            Contiguous(DeleteTask(b, id, true).board.tasks, b.tasks[p].task.category)
    ensures var p := FirstWithId(b.tasks, id).value;
            forall other :: other != b.tasks[p].task.category ==>
              InCategory(DeleteTask(b, id, true).board.tasks, other) == InCategory(b.tasks, other)
  {
    var p := FirstWithId(b.tasks, id).value;
    DeleteUnfolds(b, id);
    DeleteRepacksColumn(b.tasks, p);
  }

  /**
   * What a successful delete sends: the row delete, the removal of the
   * task's toast, and one index update per task above it in its column, in
   * ascending order of old index, each moving the task up one place.
   */
  lemma DeleteSendsUpdates(b: BoardState, id: int)
    requires FirstWithId(b.tasks, id).Some?
    requires Contiguous(b.tasks, b.tasks[FirstWithId(b.tasks, id).value].task.category)
    ensures var p := FirstWithId(b.tasks, id).value;
            DeleteTask(b, id, true).effects
            == [DeleteTaskRow(id), RemoveScheduledToast(id)]
               + MovedDown(Trailing(RemoveAt(b.tasks, p), b.tasks[p].task.category, b.tasks[p].task.columnIndex))
  {
    DeleteUnfolds(b, id);
    RepackUpdatesMoveDown(b.tasks, FirstWithId(b.tasks, id).value);
  }

  /** Every delete keeps the aliasing discipline. */
  lemma DeleteKeepsValid(b: BoardState, id: int, succeeded: bool)
    requires Valid(b)
    ensures Valid(DeleteTask(b, id, succeeded).board)
  {
    if succeeded && FirstWithId(b.tasks, id).Some? {
      SuccessfulDeleteKeepsValid(b, id);
    }
  }

  lemma SuccessfulDeleteKeepsValid(b: BoardState, id: int)
    requires Valid(b) && FirstWithId(b.tasks, id).Some?
    ensures Valid(DeleteTask(b, id, true).board)
  {
    var p := FirstWithId(b.tasks, id).value;
    var packed := Repack(RemoveAt(b.tasks, p), b.tasks[p].task.category, b.tasks[p].task.columnIndex).cards;
    DeleteUnfolds(b, id);
    RepackKeepsDiscipline(b.tasks, p, b.nextRef);
    if |packed| > 0 {
      LastIsCoherent(packed);
    }
  }

  /** Under distinct objects, the last listed card is the only entry of its object. */
  lemma LastIsCoherent(cards: seq<Card>)
    requires |cards| > 0 && DistinctRefs(cards)
    ensures Coherent(cards, cards[|cards| - 1])
  {
  }

  /** Removing a card and re-packing keeps the objects distinct and their identities below `bound`. */
  lemma RepackKeepsDiscipline(cards: seq<Card>, p: nat, bound: nat)
    requires p < |cards| && DistinctRefs(cards)
    requires forall i :: 0 <= i < |cards| ==> cards[i].ref < bound
    ensures var packed := Repack(RemoveAt(cards, p), cards[p].task.category, cards[p].task.columnIndex).cards;
            DistinctRefs(packed) && forall i :: 0 <= i < |packed| ==> packed[i].ref < bound
  {
    var rest := RemoveAt(cards, p);
    RemoveKeepsDistinct(cards, p);
    RepackKeepsRefs(rest, cards[p].task.category, cards[p].task.columnIndex);
    var packed := Repack(rest, cards[p].task.category, cards[p].task.columnIndex).cards;
    assert DistinctRefs(packed) by {
      forall i, j | 0 <= i < j < |packed| ensures packed[i].ref != packed[j].ref {
        assert packed[i].ref == rest[i].ref && packed[j].ref == rest[j].ref;
      }
    }
    forall i | 0 <= i < |packed| ensures packed[i].ref < bound {
      assert packed[i].ref == rest[i].ref;
      assert rest[i] in cards;
    }
  }

  // ---------------------------------------------------------------------------
  // Renaming a column

  /**
   * A column rename on a board that keeps the discipline: the board becomes
   * a stable sort by index of the board with the old column's tasks
   * relabelled, so it is a permutation of that board, in index order, and
   * tasks with equal indices keep their relative order; one category update
   * per relabelled task is sent, in list order; a column other than the two
   * names is the old column stably sorted; and a contiguous column renamed
   * to a fresh name is contiguous under its new name.
   */
  lemma EditColumnRenames(b: BoardState, oldName: string, newName: string, newMax: int, fetched: seq<Column>)
    requires Valid(b)
    requires FirstMatch(if b.columnNames == [] then fetched else b.columnNames, Named(oldName)).Some?
    ensures var r := EditColumn(b, oldName, newName, newMax, fetched);
            var relabelled := RelabelAll(b.tasks, oldName, newName);
            && multiset(r.board.tasks) == multiset(relabelled)
            && SortedByIndex(r.board.tasks)
            && (forall k :: Ties(r.board.tasks, k) == Ties(relabelled, k))
            && r.effects[1..] == NameUpdates(InCategory(b.tasks, oldName), newName)
            && (forall other :: other != oldName && other != newName ==>
                  InCategory(r.board.tasks, other) == SortByIndex(InCategory(b.tasks, other)))
            && (Contiguous(b.tasks, oldName) && CountIn(b.tasks, newName) == 0 ==> Contiguous(r.board.tasks, newName))
  {
    var r := EditColumn(b, oldName, newName, newMax, fetched);
    var relabelled := RelabelAll(b.tasks, oldName, newName);
    RelabelRenamesColumn(b.tasks, oldName, newName);
    assert r.board.tasks == SortByIndex(relabelled);
    SortIsSorted(relabelled);
    forall k ensures Ties(r.board.tasks, k) == Ties(relabelled, k) {
      SortIsStable(relabelled, k);
    }
    forall other | other != oldName && other != newName
      ensures InCategory(r.board.tasks, other) == SortByIndex(InCategory(b.tasks, other))
    {
      SortCommutesWithFilter(relabelled, (c: Card) => c.task.category == other);
      RelabelOtherColumns(b.tasks, oldName, newName, other);
    }
    if Contiguous(b.tasks, oldName) && CountIn(b.tasks, newName) == 0 {
      RenameKeepsContiguous(b.tasks, oldName, newName);
      SortKeepsContiguous(relabelled, newName);
    }
  }

  /** The cards holding index `k`, in list order. */
  function Ties(cards: seq<Card>, k: int): seq<Card> {
    Filter(cards, (c: Card) => c.task.columnIndex == k)
  }

  /** A column rename keeps the aliasing discipline. */
  lemma EditColumnKeepsValid(b: BoardState, oldName: string, newName: string, newMax: int, fetched: seq<Column>)
    requires Valid(b)
    ensures Valid(EditColumn(b, oldName, newName, newMax, fetched).board)
  {
    var r := EditColumn(b, oldName, newName, newMax, fetched);
    if r.fault.None? {
      SortedRelabelKeepsRefs(b.tasks, oldName, newName, b.nextRef);
      RefreshKeepsValid(b, r.board.tasks);
      assert r.board == b.(columnNames := r.board.columnNames).(tasks := r.board.tasks, current := Refresh(b.current, r.board.tasks));
    }
  }

  /** The sorted, relabelled list holds the same objects, still distinct and still below `bound`. */
  lemma SortedRelabelKeepsRefs(cards: seq<Card>, oldName: string, newName: string, bound: nat)
    requires DistinctRefs(cards) && forall i :: 0 <= i < |cards| ==> cards[i].ref < bound
    ensures var sorted := SortByIndex(Relabel(cards, oldName, newName).cards);
            && DistinctRefs(sorted)
            && forall i :: 0 <= i < |sorted| ==> sorted[i].ref < bound
  {
    var relabelled := Relabel(cards, oldName, newName).cards;
    var sorted := SortByIndex(relabelled);
    assert DistinctRefs(relabelled) by {
      forall i, j | 0 <= i < j < |relabelled| ensures relabelled[i].ref != relabelled[j].ref {
        assert relabelled[i].ref == cards[i].ref && relabelled[j].ref == cards[j].ref;
      }
    }
    SortKeepsDistinct(relabelled);
    forall i | 0 <= i < |sorted| ensures sorted[i].ref < bound {
      assert sorted[i] in multiset(relabelled);
      var j :| 0 <= j < |relabelled| && relabelled[j] == sorted[i];
      assert relabelled[j].ref == cards[j].ref;
    }
  }

  /** Replacing the list by one that keeps the discipline, and re-reading CurrentTask from it, keeps the board valid. */
  lemma RefreshKeepsValid(b: BoardState, cards: seq<Card>)
    requires Valid(b) && DistinctRefs(cards) && forall i :: 0 <= i < |cards| ==> cards[i].ref < b.nextRef
    ensures Valid(b.(tasks := cards, current := Refresh(b.current, cards)))
  {
    if b.current.Some? && HasRef(cards, b.current.value.ref) {
      var k := IndexOf(cards, b.current);
      assert Refresh(b.current, cards) == Some(cards[k]);
    }
  }

  // ---------------------------------------------------------------------------
  // Tags

  lemma {:induction false} RemoveFirstAppended(s: seq<string>, x: string)
    requires x !in s
    ensures RemoveFirst(s + [x], x) == s
  {
    if |s| > 0 {
      assert (s + [x])[1..] == s[1..] + [x];
      RemoveFirstAppended(s[1..], x);
    }
  }

  /** Deleting a tag that was just added gives back the board as it was before the add. */
  lemma AddThenDeleteTag(b: BoardState, tag: string)
    requires Valid(b) && AddTag(b, tag).1
    ensures DeleteTag(AddTag(b, tag).0, tag) == b
  {
    var c := b.current.value;
    RemoveFirstAppended(c.task.tags, tag);
    var a := AddTag(b, tag).0;
    var d := DeleteTag(a, tag);
    assert d.current == b.current;
    assert d.tasks == b.tasks by {
      forall i | 0 <= i < |b.tasks| ensures d.tasks[i] == b.tasks[i] {
        if b.tasks[i].ref == c.ref {
          assert b.tasks[i] == c;
        }
      }
    }
  }

  // ---------------------------------------------------------------------------
  // Cancelling

  /** A cancel keeps the aliasing discipline; the edited object is no longer listed. */
  lemma CancelKeepsValid(b: BoardState, parse: string -> Option<ValidDateTimeOffset>)
    requires Valid(b)
    ensures Valid(CancelEdit(b, parse).board)
    ensures var r := CancelEdit(b, parse);
            b.original.Some? && r.fault != Some(IndexOutOfRange) ==> !HasRef(r.board.tasks, b.current.value.ref)
  {
    var r := CancelEdit(b, parse);
    if b.original.Some? && IndexOf(b.tasks, b.current) >= 0 {
      var index := IndexOf(b.tasks, b.current);
      var ref := b.current.value.ref;
      var restored := b.tasks[index := Card(b.nextRef, b.original.value)];
      assert forall i :: 0 <= i < |restored| ==> restored[i].ref < b.nextRef + 1 && restored[i].ref != ref;
      assert DistinctRefs(restored);
      SortKeepsDistinct(restored);
      var sorted := r.board.tasks;
      forall i | 0 <= i < |sorted| ensures sorted[i].ref < b.nextRef + 1 && sorted[i].ref != ref {
        assert sorted[i] in multiset(restored);
        var j :| 0 <= j < |restored| && restored[j] == sorted[i];
      }
    }
  }

  /**
   * Opening a task for editing, changing it in the pane and cancelling gives
   * back the board's data as it was before the edit, re-sorted by index; the
   * edited object is no longer listed, so a second cancel throws.
   */
  lemma EditThenCancelRestores(b: BoardState, parse: string -> Option<ValidDateTimeOffset>, now: DateTimeOffset, id: int, t: Task)
    requires Valid(b) && EditTask(b, parse, now, id).fault.None?
    ensures var u := EditCurrent(EditTask(b, parse, now, id).board, t).board;
            var c := CancelEdit(u, parse);
            && c.fault != Some(IndexOutOfRange)
            && Contents(c.board.tasks) == Contents(SortByIndex(b.tasks))
            && CancelEdit(c.board, parse).fault == Some(IndexOutOfRange)
  {
    var p := FirstWithId(b.tasks, id).value;
    var e := EditTask(b, parse, now, id).board;
    var u := EditCurrent(e, t).board;
    assert u == WriteCurrent(e, t);
    EditThenWrite(b, parse, now, id, t);
    var restored := b.tasks[p := Card(b.nextRef, b.tasks[p].task)];
    assert u.tasks[p := Card(u.nextRef, b.tasks[p].task)] == restored;
    assert Contents(restored) == Contents(b.tasks);
    SortContents(restored, b.tasks);
    CancelTwiceThrows(u, parse);
    assert u.original.Some? && IndexOf(u.tasks, u.current) == p;
    assert u.current.value.task == t;
    var c := CancelEdit(u, parse);
    assert c.board.tasks == SortByIndex(restored);
    assert c.fault.None? || c.fault == Toast(parse, t).fault;
    assert Toast(parse, t).fault != Some(IndexOutOfRange);
  }

  /** After a cancel the edited object is no longer listed, so cancelling again throws. */
  lemma CancelTwiceThrows(b: BoardState, parse: string -> Option<ValidDateTimeOffset>)
    requires Valid(b) && b.original.Some? && IndexOf(b.tasks, b.current) >= 0
    ensures CancelEdit(CancelEdit(b, parse).board, parse).fault == Some(IndexOutOfRange)
  {
    var c := CancelEdit(b, parse).board;
    CancelKeepsValid(b, parse);
    assert c.original == b.original && c.current == b.current;
    assert IndexOf(c.tasks, c.current) == -1;
  }

  /** On a list of distinct objects a write through object `cards[p]` changes entry `p` only. */
  lemma WriteAt(cards: seq<Card>, p: nat, t: Task)
    requires p < |cards| && DistinctRefs(cards)
    ensures SetTask(cards, cards[p].ref, t) == cards[p := Card(cards[p].ref, t)]
    ensures DistinctRefs(cards[p := Card(cards[p].ref, t)])
    ensures IndexOf(cards[p := Card(cards[p].ref, t)], Some(Card(cards[p].ref, t))) == p
  {
    var w := cards[p := Card(cards[p].ref, t)];
    assert forall i :: 0 <= i < |cards| ==> w[i].ref == cards[i].ref;
    assert HasRef(w, cards[p].ref);
  }

  /** An opened task written through the pane: only its own entry changes, and it is still found. */
  lemma EditThenWrite(b: BoardState, parse: string -> Option<ValidDateTimeOffset>, now: DateTimeOffset, id: int, t: Task)
    requires Valid(b) && EditTask(b, parse, now, id).fault.None?
    ensures var p := FirstWithId(b.tasks, id).value;
            var u := WriteCurrent(EditTask(b, parse, now, id).board, t);
            && Valid(u) && u.nextRef == b.nextRef
            && u.original == Some(b.tasks[p].task)
            && u.current == Some(Card(b.tasks[p].ref, t))
            && u.tasks == b.tasks[p := Card(b.tasks[p].ref, t)]
            && IndexOf(u.tasks, u.current) == p
  {
    var p := FirstWithId(b.tasks, id).value;
    var ref := b.tasks[p].ref;
    var e := EditTask(b, parse, now, id).board;
    assert e == b.(current := Some(b.tasks[p]), original := Some(b.tasks[p].task));
    var u := WriteCurrent(e, t);
    assert u.tasks == SetTask(b.tasks, ref, t);
    WriteAt(b.tasks, p, t);
    assert Coherent(u.tasks, u.current.value) by {
      forall i | 0 <= i < |u.tasks| && u.tasks[i].ref == ref ensures i == p {
      }
    }
  }

  // ---------------------------------------------------------------------------
  // The cancel that re-cancels (see the README's findings)

  /**
   * As written: after the reminder of an opened task is removed, cancelling
   * restores the task with its reminder but sends a second toast removal
   * instead of scheduling the reminder again.
   */
  lemma CancelAfterRemovingReminder(b: BoardState, parse: string -> Option<ValidDateTimeOffset>, now: DateTimeOffset, id: int)
    requires Valid(b) && EditTask(b, parse, now, id).fault.None?
    requires b.tasks[FirstWithId(b.tasks, id).value].task.reminderTime != NoReminderLabel
    ensures var removed := RemoveReminder(EditTask(b, parse, now, id).board);
            var u := removed.board;
            var c := CancelEdit(u, parse);
            && removed.effects == [RemoveScheduledToast(id)]
            && c.board.original.value.reminderTime != NoReminderLabel
            && c.effects == [RemoveScheduledToast(id)]
  {
    var p := FirstWithId(b.tasks, id).value;
    var e := EditTask(b, parse, now, id).board;
    var t := b.tasks[p].task.(reminderTime := NoReminderLabel);
    assert RemoveReminder(e).board == WriteCurrent(e, t);
    EditThenWrite(b, parse, now, id, t);
  }

  /**
   * As intended: a cancel that brings back a reminder never removes the
   * toast, and schedules exactly the toast the restored task asks for.
   */
  lemma RestoringCancelSchedulesSnapshot(b: BoardState, parse: string -> Option<ValidDateTimeOffset>)
    requires b.original.Some? && b.original.value.reminderTime != NoReminderLabel
    requires IndexOf(b.tasks, b.current) >= 0
    ensures var r := CancelEditRestoringToast(b, parse);
            && (forall k :: 0 <= k < |r.effects| ==> !r.effects[k].RemoveScheduledToast?)
            && (Decide(parse, b.original.value).Schedule? ==>
                  var times := Decide(parse, b.original.value).times;
                  r.effects == [Effect.ScheduleToast(b.original.value, times.scheduled, times.due)])
  {
  }
}
