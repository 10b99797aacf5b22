/** The declarations of src/type.ts, and the Option type for an optional argument. */
module Types {
  import opened JsDate

  datatype Option<+T> = None | Some(value: T)

  /** STATUS: the severity of a task. */
  datatype Status = Emergency | Normal

  /** MODE: the display mode of the widget (never read by the core). */
  datatype Mode = MonthMode | DayMode

  /** Task: a `Y-MM-DD` date string, the to-do entries and the severity. */
  datatype Task = Task(date: string, todo: seq<string>, status: Status)

  /** DateItem: a grid cell's date (an ISO string in the source, here the date it denotes). */
  type DateItem = Date
}
