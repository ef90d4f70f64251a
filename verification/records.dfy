/**
  The plain records of the inventory: indexed files, duplicate groups and
  the duplicate finder's run status. They carry no behaviour of their own.
 */
module Records {
  import opened Wrappers

  /** Kind of an indexed file; `Normal` is the `#[default]` variant. */
  datatype FileType = Normal | Archive

  /**
    One indexed file. Lengths and timestamps are `u64` in the source and
    unbounded here; `hash` is absent until the content digest is known.
   */
  datatype File = File(
    path: string,
    fileType: FileType,
    fileLen: nat,
    timeCreated: nat,
    timeModified: nat,
    hash: Option<string>)

  datatype DuplicateType = ExactMatch

  /** A duplicate group: the copy that may be deleted, and the copies that stay. */
  datatype Duplicate = Duplicate(
    deletableFile: Option<File>,
    otherFiles: seq<File>,
    duplicateType: DuplicateType)

  /** Run status of the duplicate finder: `Idle` is the source's default `None` variant. */
  datatype StatusType = Idle | Processing(message: string) | Processed

  /** What the duplicate finder shares with observers: its results and its status. */
  datatype FindDuplicatesState = FindDuplicatesState(duplicates: seq<Duplicate>, state: StatusType)
}
