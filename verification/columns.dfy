/**
 * The five columns of a board and how the view-model configures them.
 *
 * A stored column is a ColumnDTO row; a `Slot` is what one of the five
 * column headers shows: its name and its task limit.
 */
module Columns {
  import opened Wrappers

  datatype Column = Column(id: int, boardId: int, name: string, position: int, maxTaskLimit: int)

  datatype Slot = Slot(name: string, maxTaskLimit: int)

  /** The number of columns a board shows. */
  const SlotCount: nat := 5

  /** The limit every default column starts with. */
  const DefaultMaxTaskLimit: int := 10

  /** The columns of a board that has none stored yet, in position order. */
  function DefaultSlots(): (slots: seq<Slot>)
    ensures |slots| == SlotCount
    ensures forall i :: 0 <= i < |slots| ==> slots[i].maxTaskLimit == DefaultMaxTaskLimit
  {
    [ Slot("Backlog", DefaultMaxTaskLimit),
      Slot("To Do", DefaultMaxTaskLimit),
      Slot("In Progress", DefaultMaxTaskLimit),
      Slot("Review", DefaultMaxTaskLimit),
      Slot("Completed", DefaultMaxTaskLimit) ]
  }

  /** The default column names are pairwise distinct. */
  lemma DefaultNamesDistinct()
    ensures forall i, j :: 0 <= i < j < SlotCount ==> DefaultSlots()[i].name != DefaultSlots()[j].name
  {
  }

  /** The search of `List.Find`: where the first column satisfying `matches` sits. */
  function FirstMatch(columns: seq<Column>, matches: Column -> bool): (r: Option<nat>)
    ensures r.Some? ==> r.value < |columns| && matches(columns[r.value])
                        && forall j :: 0 <= j < r.value ==> !matches(columns[j])
    ensures r.None? <==> forall j :: 0 <= j < |columns| ==> !matches(columns[j])
  {
    if |columns| == 0 then None
    else if matches(columns[0]) then Some(0)
    else match FirstMatch(columns[1..], matches)
         case None => None
         case Some(k) => Some(k + 1)
  }

  /** The `Find` predicate `x => x.Position == position`. */
  function AtSlot(position: int): Column -> bool {
    (c: Column) => c.position == position
  }

  /** The `Find` predicate `x => x.ColumnName.Equals(name)`. */
  function Named(name: string): Column -> bool {
    (c: Column) => c.name == name
  }

  /** `List.Find(x => x.Position == position)`: the first stored column at that position. */
  function AtPosition(columns: seq<Column>, position: int): (r: Option<Column>)
    ensures r.Some? ==> r.value in columns && r.value.position == position
    ensures r.None? <==> forall c :: c in columns ==> c.position != position
  {
    if |columns| == 0 then None
    else if columns[0].position == position then Some(columns[0])
    else AtPosition(columns[1..], position)
  }

  /** `Find` answers with the first column at the position, not merely some column there. */
  lemma {:induction false} AtPositionFirst(columns: seq<Column>, position: int)
    ensures AtPosition(columns, position).Some? <==> FirstMatch(columns, AtSlot(position)).Some?
    ensures AtPosition(columns, position).Some? ==>
              AtPosition(columns, position).value == columns[FirstMatch(columns, AtSlot(position)).value]
  {
    if |columns| > 0 && columns[0].position != position {
      AtPositionFirst(columns[1..], position);
    }
  }

  /** What ConfigureBoardColumns leaves behind: the column list it keeps and the five slots. */
  datatype Configured = Configured(columnNames: seq<Column>, slots: Result<seq<Slot>, Fault>)

  /**
   * ConfigureBoardColumns. A new board (id 0) keeps an empty column list and
   * a board with an id keeps what the repository returned (`stored`). The
   * five slots are the defaults when the board is new or nothing is stored;
   * otherwise slot `p` shows the first stored column at position `p`, and a
   * missing position dereferences null.
   */
  function Configure(boardId: int, stored: seq<Column>): (r: Configured)
    ensures boardId == 0 ==> r.columnNames == []
    ensures boardId != 0 ==> r.columnNames == stored
    ensures boardId == 0 || stored == [] ==> r.slots == Ok(DefaultSlots())
    ensures r.slots.Ok? ==> |r.slots.value| == SlotCount
    ensures boardId != 0 && stored != [] && r.slots.Ok? ==>
              forall p :: 0 <= p < SlotCount ==>
                AtPosition(stored, p).Some? && r.slots.value[p] == Slot(AtPosition(stored, p).value.name, AtPosition(stored, p).value.maxTaskLimit)
    ensures r.slots.Err? ==> boardId != 0 && stored != [] && r.slots.error == NullReference
    ensures boardId != 0 && stored != [] ==> (r.slots.Ok? <==> StoredFrom(stored, 0))
  {
    var columnNames := if boardId == 0 then [] else stored;
    if boardId != 0 && |stored| != 0 then
      var slots := FilledSlots(stored, 0);
      Configured(columnNames, slots)
    else
      Configured(columnNames, Ok(DefaultSlots()))
  }

  /** Every position from `from` up to the last slot has a stored column. */
  predicate StoredFrom(stored: seq<Column>, from: nat) {
    forall p :: from <= p < SlotCount ==> AtPosition(stored, p).Some?
  }

  /** Positions `from` .. 4 are all stored exactly when `from` is and so are the ones after it. */
  lemma StoredFromStep(stored: seq<Column>, from: nat)
    requires from < SlotCount
    ensures StoredFrom(stored, from) <==> AtPosition(stored, from).Some? && StoredFrom(stored, from + 1)
  {
  }

  /** Slots `from` .. 4 filled from stored columns, stopping at the first missing position. */
  function FilledSlots(stored: seq<Column>, from: nat): (r: Result<seq<Slot>, Fault>)
    requires from <= SlotCount
    ensures r.Ok? ==> |r.value| == SlotCount - from
    ensures r.Ok? ==> forall p :: from <= p < SlotCount ==>
                        AtPosition(stored, p).Some?
                        && r.value[p - from] == Slot(AtPosition(stored, p).value.name, AtPosition(stored, p).value.maxTaskLimit)
    ensures r.Ok? <==> StoredFrom(stored, from)
    ensures r.Err? ==> r.error == NullReference
    decreases SlotCount - from
  {
    if from == SlotCount then Ok([])
    else if AtPosition(stored, from).None? then
      StoredFromStep(stored, from);
      Err(NullReference)
    else
      var c := AtPosition(stored, from).value;
      match FilledSlots(stored, from + 1)
      case Err(e) =>
        StoredFromStep(stored, from);
        Err(e)
      case Ok(rest) =>
        FilledCons(stored, from, rest);
        Ok([Slot(c.name, c.maxTaskLimit)] + rest)
  }

  /** Putting the slot of position `from` in front of slots `from + 1` .. 4 gives slots `from` .. 4. */
  lemma FilledCons(stored: seq<Column>, from: nat, rest: seq<Slot>)
    requires from < SlotCount && AtPosition(stored, from).Some? && |rest| == SlotCount - (from + 1)
    requires forall p :: from + 1 <= p < SlotCount ==>
               AtPosition(stored, p).Some?
               && rest[p - (from + 1)] == Slot(AtPosition(stored, p).value.name, AtPosition(stored, p).value.maxTaskLimit)
    ensures var filled := [Slot(AtPosition(stored, from).value.name, AtPosition(stored, from).value.maxTaskLimit)] + rest;
            forall p :: from <= p < SlotCount ==>
              AtPosition(stored, p).Some?
              && filled[p - from] == Slot(AtPosition(stored, p).value.name, AtPosition(stored, p).value.maxTaskLimit)
    ensures StoredFrom(stored, from)
  {
    var filled := [Slot(AtPosition(stored, from).value.name, AtPosition(stored, from).value.maxTaskLimit)] + rest;
    forall p | from < p < SlotCount
      ensures filled[p - from] == Slot(AtPosition(stored, p).value.name, AtPosition(stored, p).value.maxTaskLimit)
    {
      ShiftedSlot(filled[0], rest, p - (from + 1));
    }
  }

  /** Slot `q + 1` of a list with one slot put in front is slot `q` of the rest. */
  lemma ShiftedSlot(first: Slot, rest: seq<Slot>, q: nat)
    requires q < |rest|
    ensures ([first] + rest)[q + 1] == rest[q]
  {
  }

  /**
   * The column-record half of EditColumn: the first column named `oldName`
   * takes the new name and limit in place, or the lookup yields null and the
   * rename dereferences it.
   */
  function Rename(columns: seq<Column>, oldName: string, newName: string, newMax: int): (r: Result<(seq<Column>, Column), Fault>)
    ensures r.Err? <==> forall j :: 0 <= j < |columns| ==> columns[j].name != oldName
    ensures r.Err? ==> r.error == NullReference
    ensures r.Ok? ==> |r.value.0| == |columns|
    ensures r.Ok? ==> exists k :: 0 <= k < |columns| && columns[k].name == oldName
                       && (forall j :: 0 <= j < k ==> columns[j].name != oldName)
                       && r.value.1 == columns[k].(name := newName, maxTaskLimit := newMax)
                       && r.value.0 == columns[k := r.value.1]
  {
    match FirstMatch(columns, Named(oldName))
    case None => Err(NullReference)
    case Some(k) =>
      var saved := columns[k].(name := newName, maxTaskLimit := newMax);
      Ok((columns[k := saved], saved))
  }
}
