/**
 * The stored records the diary screens pass around: an attribute (a reusable
 * tag) and a diary entry. Times are kept as the `HH:MM:SS` text the storage
 * layer holds; the operations that need numbers parse them.
 */
module Diary {

  datatype Attribute = Attribute(Id: int, Name: string, Color: string)

  /** `Color` is optional in the stored row; `None` stands for `undefined`. */
  datatype DiaryEntry = DiaryEntry(
    Id: int,
    Date: string,
    StartTime: string,
    EndTime: string,
    Name: string,
    Notes: string,
    DurationSeconds: int,
    Color: Option<string>)

  datatype Option<+T> = None | Some(value: T)
}
