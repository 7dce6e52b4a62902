/**
 * The task record a board holds, and the card that carries it on the board.
 *
 * `Task` mirrors the persisted fields of a task that the board engine reads or
 * writes. `Card` is one PresentationTask object: the view-model shares these
 * objects between the board's task list and its "current task" slot, so a card
 * carries an object identity `ref` besides its data. Two list entries with the
 * same `ref` are the same object; a fresh copy of a task gets a fresh `ref`.
 */
module Tasks {
  import opened Wrappers

  /** DEFAULT_COLOR_KEY: the priority a new task starts with. */
  const DefaultColorKey: string := "Low"

  /** DEFAULT_REMINDER_TIME: the reminder label meaning "no reminder". */
  const NoReminderLabel: string := "None"

  datatype Task = Task(
    id: int,                    // 0 until the repository has stored the task
    boardId: int,
    title: string,
    category: string,           // the name of the column the task sits in
    columnIndex: int,           // the task's position within its column
    colorKey: string,
    tags: seq<string>,
    dueDate: Option<string>,    // text of the due date; None stands for null
    timeDue: Option<string>,    // text of the time due; None stands for null
    reminderTime: string,       // one of the reminder labels, "" for an unset one
    dateCreated: Option<string>
  )

  datatype Card = Card(ref: nat, task: Task)

  /**
   * `new TaskDTO()`: every reference-typed field is null (an unset text is
   * written "" where the model keeps a plain string) and the id is 0.
   */
  function EmptyTask(): Task {
    Task(0, 0, "", "", 0, "", [], None, None, "", None)
  }

  /** The task data of every card, in list order: what the board shows. */
  function Contents(cards: seq<Card>): (ts: seq<Task>)
    ensures |ts| == |cards|
    ensures forall i :: 0 <= i < |cards| ==> ts[i] == cards[i].task
  {
    seq(|cards|, i requires 0 <= i < |cards| => cards[i].task)
  }

  /** No object appears twice in the list. */
  predicate DistinctRefs(cards: seq<Card>) {
    forall i, j :: 0 <= i < j < |cards| ==> cards[i].ref != cards[j].ref
  }

  predicate HasRef(cards: seq<Card>, ref: nat) {
    exists i :: 0 <= i < |cards| && cards[i].ref == ref
  }

  /**
   * A write through one PresentationTask object: every entry of the list that
   * is object `ref` now holds `t`, and no other entry changes.
   */
  function SetTask(cards: seq<Card>, ref: nat, t: Task): (r: seq<Card>)
    ensures |r| == |cards|
    ensures forall i :: 0 <= i < |cards| ==> r[i] == if cards[i].ref == ref then Card(ref, t) else cards[i]
    ensures forall i :: 0 <= i < |cards| ==> r[i].ref == cards[i].ref
    ensures !HasRef(cards, ref) ==> r == cards
    ensures forall p {:trigger cards[p := Card(ref, t)]} ::
              DistinctRefs(cards) && 0 <= p < |cards| && cards[p].ref == ref ==> r == cards[p := Card(ref, t)]
  {
    var r := seq(|cards|, i requires 0 <= i < |cards| => if cards[i].ref == ref then Card(ref, t) else cards[i]);
    assert !HasRef(cards, ref) ==> r == cards;
    r
  }
}
