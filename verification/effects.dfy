/**
 * The calls the board makes into the repository and the toast service,
 * recorded in the order they are made instead of being performed.
 */
module Effects {
  import opened Clock
  import opened Tasks
  import opened Columns

  datatype Effect =
    | SaveTaskRow(task: Task)                        // TaskServices.SaveTask
    | DeleteTaskRow(id: int)                         // TaskServices.DeleteTask
    | UpdateCardIndex(id: int, index: int)           // TaskServices.UpdateCardIndex
    | UpdateColumnName(id: int, category: string)    // TaskServices.UpdateColumnName
    | SaveColumn(column: Column)                     // BoardServices.SaveColumn
    | RemoveScheduledToast(key: int)                 // IToastService.RemoveScheduledToast, keyed by task id
    | ScheduleToast(task: Task, at: ValidDateTimeOffset, due: ValidDateTimeOffset)  // IToastService.ScheduleToast
}
