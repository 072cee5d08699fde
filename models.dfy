/**
 * The records the file picker works on. File-system calls are not made here:
 * what `File` would report about a child is handed in as a `RawFile`.
 */
module Models {
  import opened Wrappers

  /** One listed entry (the `DirectoryModel` record). */
  datatype DirectoryModel = DirectoryModel(
    isDirectory: bool,
    path: string,
    name: string,
    lastModified: int,
    numFiles: nat)

  /**
   * What the file system reports about one child of a listed directory:
   * `children` is the length of its own `listFiles()`, or None when that is null.
   */
  datatype RawFile = RawFile(
    isDirectory: bool,
    isHidden: bool,
    name: string,
    path: string,
    lastModified: int,
    children: Option<nat>)

  /**
   * The session configuration (`Config`), read-only while browsing.
   * `filters` is None when no extension filter list was configured.
   */
  datatype Config = Config(
    showHidden: bool,
    showOnlyDirectory: bool,
    selectMultiple: bool,
    filters: Option<seq<string>>)

  /** The three EXIF date tags of an image; None stands for a null attribute. */
  datatype ExifTags = ExifTags(
    dateTimeOriginal: Option<string>,
    dateTimeDigitized: Option<string>,
    dateTime: Option<string>)
}
