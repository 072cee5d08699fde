# UnicornFilePicker core, modelled in Dafny

UnicornFilePicker is an Android screen for browsing a directory tree and picking
files or a directory. Most of `FilePickerActivity` is view wiring. Four pieces of
logic in it are modelled here, apart from Android:

- **Entry ordering** (`CustomFileComparator.compare`). Directories come before files.
  Directories are ordered by lower-cased name. Files are ordered by modification date,
  by EXIF date, or by natural name order, and the `descending` preference reverses that.
- **The listing filter** in `fetchDirectory`. It applies the show-hidden rule,
  directory-only mode and the extension filters, then sorts.
- **The breadcrumb stack.** It is pushed by a successful fetch, cut back by a
  breadcrumb tap, and popped by Back.
- **The selection list.** It is toggled in multi-select, replaced in single-select,
  cleared by every fetch, and set to the current directory by a directory-only commit.

Modules, one file each:

- `wrappers.dfy`: `Option`.
- `java_strings.dfy`: the `String` methods the code relies on (`toLowerCase`,
  `compareTo`, `contains`, `lastIndexOf`, `substring`).
- `models.dfy`: the records. `DirectoryModel` is a listed entry. `RawFile` is what the
  file system reports about a child. `Config` is the session configuration.
  `ExifTags` holds an image's three date tags.
- `sorting.dfy`: the Java comparator contract as a predicate, and the sort.
- `comparator.dfy`: the comparator and its properties.
- `listing.dfy`: the listing rules as functions.
- `picker.dfy`: class `FilePicker`, whose fields `stack`, `files` and `selected`
  stand for `arr_dir_stack`, `arr_files` and `selected_files`. Its methods are the
  user actions.

Outside calls become inputs.

- A directory listing (`listFiles()`) is an `Option<seq<RawFile>>`. None stands for null.
- The two sort preferences are a `SortSettings` value.
- `NaturalOrderComparator.s_compare`, the EXIF reader and the EXIF date parser are
  fields of an `Env` value. They are not given any behaviour.

`FetchDirectory` promises two things about the sorted listing. It is a permutation of
the filtered children. It is in order whenever the comparator keeps the Java
`Comparator` contract (`Sorting.IsTotalPreorder`). `CompareIsTotalPreorder` says
when the comparator keeps that contract:

- in date mode, always;
- in name mode, when the natural order keeps it;
- in EXIF mode, when in addition every EXIF read succeeds and every date attribute that a file carries parses.

`ExifReadFailureBreaksTransitivity` shows that the EXIF condition is needed. Take two
dated files and one file whose EXIF read throws. They can compare in a cycle, even
with a well-behaved natural order. `Collections.sort` may then throw or return an
unsorted list, so only the permutation is promised in that case.

In three places the code does something a reader might not expect, and the model follows the code:

- The extension filters are matched as given. Only the file's extension is
  lower-cased (line 212), so the filter `".JPG"` never matches anything.
- An empty filter matches every file that has a `.` in its name.
- If the parent cannot be listed, Back drops two breadcrumbs and pushes none. The
  stack can then become empty. A directory-only commit on an empty stack throws in
  `get(-1)`, and `Commit` returns `Crashed` in that case.

## Model

| member | source | states |
|---|---|---|
| `JavaStrings.LowerChar` | UnicornFilePicker/src/main/java/abhishekti7/unicorn/filepicker/ui/FilePickerActivity.java:256 | an upper-case ASCII letter becomes its lower-case letter (code plus 32); every other character is unchanged |
| `JavaStrings.Lower` | UnicornFilePicker/src/main/java/abhishekti7/unicorn/filepicker/ui/FilePickerActivity.java:256 | lower-casing keeps the length, turns each upper-case ASCII letter into its lower-case letter and leaves every other character as it was |
| `JavaStrings.CompareToAntisymmetric` | UnicornFilePicker/src/main/java/abhishekti7/unicorn/filepicker/ui/FilePickerActivity.java:256 | `compareTo(a, b) == -compareTo(b, a)` |
| `JavaStrings.CompareToZero` | UnicornFilePicker/src/main/java/abhishekti7/unicorn/filepicker/ui/FilePickerActivity.java:256 | `compareTo` is 0 exactly on equal strings |
| `JavaStrings.CompareToTransitive` | UnicornFilePicker/src/main/java/abhishekti7/unicorn/filepicker/ui/FilePickerActivity.java:256 | `compareTo(a, b) <= 0` is transitive |
| `JavaStrings.ContainsIffOccurs` | UnicornFilePicker/src/main/java/abhishekti7/unicorn/filepicker/ui/FilePickerActivity.java:212 | `contains` holds exactly when the filter occurs at some index of the string |
| `JavaStrings.LastIndexOf` | UnicornFilePicker/src/main/java/abhishekti7/unicorn/filepicker/ui/FilePickerActivity.java:210 | the result is the last index holding the character, or -1 exactly when the character is absent |
| `JavaStrings.Substring` | UnicornFilePicker/src/main/java/abhishekti7/unicorn/filepicker/ui/FilePickerActivity.java:210 | `substring(begin)` fails exactly when `begin` is outside [0, length]; otherwise the string is the prefix followed by the result |
| `Sorting.Insert` | UnicornFilePicker/src/main/java/abhishekti7/unicorn/filepicker/ui/FilePickerActivity.java:227 | inserting adds exactly the one element to the multiset |
| `Sorting.SortBy` | UnicornFilePicker/src/main/java/abhishekti7/unicorn/filepicker/ui/FilePickerActivity.java:227 | the sort result is a permutation of its input |
| `Sorting.InsertSorted` | UnicornFilePicker/src/main/java/abhishekti7/unicorn/filepicker/ui/FilePickerActivity.java:227 | under a comparator that keeps the Java contract, inserting into a sorted list keeps it sorted |
| `Sorting.SortBySorted` | UnicornFilePicker/src/main/java/abhishekti7/unicorn/filepicker/ui/FilePickerActivity.java:227 | under a comparator that keeps the Java contract, the result is sorted pairwise |
| `FileComparator.LongCompare` | UnicornFilePicker/src/main/java/abhishekti7/unicorn/filepicker/ui/FilePickerActivity.java:269 | `Long.compare` is -1, 0 or 1 exactly when the first value is smaller, equal or larger |
| `FileComparator.ExifDateAttr` | UnicornFilePicker/src/main/java/abhishekti7/unicorn/filepicker/ui/FilePickerActivity.java:280-295 | the date attribute is DateTimeOriginal if non-empty, else DateTimeDigitized if non-empty, else DateTime; it is absent exactly when all three are empty |
| `FileComparator.DirectoriesFirst` | UnicornFilePicker/src/main/java/abhishekti7/unicorn/filepicker/ui/FilePickerActivity.java:255-260 | a directory against a file compares -1, and a file against a directory compares 1, in every mode and direction |
| `FileComparator.DirectoriesIgnoreDescending` | UnicornFilePicker/src/main/java/abhishekti7/unicorn/filepicker/ui/FilePickerActivity.java:255-256 | two directories compare by the lower-cased names' `compareTo`, with the same result whether or not descending is set; swapping them negates it; it is 0 exactly when the lower-cased names agree |
| `FileComparator.DescendingSwapsFiles` | UnicornFilePicker/src/main/java/abhishekti7/unicorn/filepicker/ui/FilePickerActivity.java:263-321 | for two files, in every mode, the descending result equals the ascending result with the arguments swapped |
| `FileComparator.DateModeAntisymmetric` | UnicornFilePicker/src/main/java/abhishekti7/unicorn/filepicker/ui/FilePickerActivity.java:265-270 | in date mode, swapping two files negates the result; a file ranks first exactly when it is older (ascending) or newer (descending) |
| `FileComparator.ExifDatedFirst` | UnicornFilePicker/src/main/java/abhishekti7/unicorn/filepicker/ui/FilePickerActivity.java:304-311 | in EXIF mode, if only one of two readable files has a date, it compares -1 when ascending and 1 when descending |
| `FileComparator.ExifBothDated` | UnicornFilePicker/src/main/java/abhishekti7/unicorn/filepicker/ui/FilePickerActivity.java:298-303 | in EXIF mode, two files whose dates parse are ordered by those dates in the configured direction, and compare 0 exactly on equal dates |
| `FileComparator.ExifFallsBackToNames` | UnicornFilePicker/src/main/java/abhishekti7/unicorn/filepicker/ui/FilePickerActivity.java:276-321 | in EXIF mode, a failed read, a failed parse, or two undated files give the natural name order (swapped when descending) |
| `FileComparator.ExifOrderByDate` | UnicornFilePicker/src/main/java/abhishekti7/unicorn/filepicker/ui/FilePickerActivity.java:276-311 | when every EXIF read succeeds and every file's date attribute parses, ascending EXIF order puts dated files first, ordered by date, and leaves two undated files to the name order |
| `FileComparator.FileOrderPreorder` | UnicornFilePicker/src/main/java/abhishekti7/unicorn/filepicker/ui/FilePickerActivity.java:263-321 | the file-against-file order keeps the Java comparator contract, in both directions, under each mode's condition |
| `FileComparator.CompareIsTotalPreorder` | UnicornFilePicker/src/main/java/abhishekti7/unicorn/filepicker/ui/FilePickerActivity.java:254-322 | the whole comparator keeps the Java comparator contract: in date mode always, in name mode when the natural order does, in EXIF mode when in addition every EXIF read succeeds and every date attribute a file carries parses |
| `FileComparator.CompareToIsTotalPreorder` | UnicornFilePicker/src/main/java/abhishekti7/unicorn/filepicker/ui/FilePickerActivity.java:256 | `compareTo` keeps the Java comparator contract |
| `FileComparator.OneUnreadableCycle` | UnicornFilePicker/src/main/java/abhishekti7/unicorn/filepicker/ui/FilePickerActivity.java:271-321 | two files dated 1 and 2 and one file whose EXIF read throws compare in a cycle |
| `FileComparator.ExifReadFailureBreaksTransitivity` | UnicornFilePicker/src/main/java/abhishekti7/unicorn/filepicker/ui/FilePickerActivity.java:271-321 | some inputs whose natural order keeps the contract still make EXIF mode break it |
| `Listing.Extension` | UnicornFilePicker/src/main/java/abhishekti7/unicorn/filepicker/ui/FilePickerActivity.java:209-210 | there is no extension exactly when the name has no '.'; otherwise the extension is a suffix of the name that starts with '.' and holds no other '.' |
| `Listing.MatchCountCountsMatchingFilters` | UnicornFilePicker/src/main/java/abhishekti7/unicorn/filepicker/ui/FilePickerActivity.java:211-215 | the number of appends equals the number of filter positions whose filter occurs in the lower-cased extension |
| `Listing.CopiesAddedRules` | UnicornFilePicker/src/main/java/abhishekti7/unicorn/filepicker/ui/FilePickerActivity.java:198-221 | a hidden child is dropped unless showHidden is set; a visible directory is appended once; a file is dropped in directory-only mode; with no filters a visible file is appended once; with filters it is appended once per filter found in its lower-cased extension, and not at all without a '.' |
| `Listing.Repeat` | UnicornFilePicker/src/main/java/abhishekti7/unicorn/filepicker/ui/FilePickerActivity.java:211-215 | n appends of one record give n copies of it |
| `Listing.ExpandMembership` | UnicornFilePicker/src/main/java/abhishekti7/unicorn/filepicker/ui/FilePickerActivity.java:191-226 | a record is in the expansion exactly when some child it is built from gets at least one copy |
| `Listing.FilteredMembership` | UnicornFilePicker/src/main/java/abhishekti7/unicorn/filepicker/ui/FilePickerActivity.java:191-226 | a record is in the unsorted listing exactly when some child it is built from is appended at least once |
| `Listing.FilteredListsOnlyVisible` | UnicornFilePicker/src/main/java/abhishekti7/unicorn/filepicker/ui/FilePickerActivity.java:198-204 | in directory-only mode the listing holds only directories; without showHidden, each listed record comes from a non-hidden child |
| `Listing.JpgFilterKeepsUpperCaseJpg` | UnicornFilePicker/src/main/java/abhishekti7/unicorn/filepicker/ui/FilePickerActivity.java:206-215 | with filter [".jpg"], "photo.JPG" is appended once |
| `Listing.JpgFilterDropsOthers` | UnicornFilePicker/src/main/java/abhishekti7/unicorn/filepicker/ui/FilePickerActivity.java:206-218 | with filter [".jpg"], "readme" and "archive.zip" are not appended |
| `Picker.IndexOf` | UnicornFilePicker/src/main/java/abhishekti7/unicorn/filepicker/ui/FilePickerActivity.java:171 | `indexOf` gives the first index holding the element |
| `Picker.ToggleMembership` | UnicornFilePicker/src/main/java/abhishekti7/unicorn/filepicker/ui/FilePickerActivity.java:147-152 | on a selection without repeats, a toggle flips the membership of the path, keeps every other path as it was, and leaves no repeats |
| `Picker.ToggleTwice` | UnicornFilePicker/src/main/java/abhishekti7/unicorn/filepicker/ui/FilePickerActivity.java:147-152 | toggling twice restores every path's membership; from an absent path it restores the same list |
| `Picker.SortedIsListed` | UnicornFilePicker/src/main/java/abhishekti7/unicorn/filepicker/ui/FilePickerActivity.java:227 | sorting the filtered records gives a permutation of them, sorted whenever the comparator keeps its contract |
| `Picker.FilePicker.constructor` | UnicornFilePicker/src/main/java/abhishekti7/unicorn/filepicker/ui/FilePickerActivity.java:93-95 | the stack, the listing and the selection start empty |
| `Picker.FilePicker.FetchDirectory` | UnicornFilePicker/src/main/java/abhishekti7/unicorn/filepicker/ui/FilePickerActivity.java:183-232 | the selection is always emptied. With a null listing, the file list is empty and the stack is unchanged. Otherwise the stack grows by exactly the fetched directory, and the file list is a permutation of the filtered children, sorted whenever the comparator keeps its contract |
| `Picker.FilePicker.AppendChild` | UnicornFilePicker/src/main/java/abhishekti7/unicorn/filepicker/ui/FilePickerActivity.java:192-224 | one pass of the listing loop appends the child's record exactly CopiesAdded times |
| `Picker.FilePicker.AppendMatches` | UnicornFilePicker/src/main/java/abhishekti7/unicorn/filepicker/ui/FilePickerActivity.java:211-215 | the nested loop over the filters appends the record once per filter found in the lower-cased extension, MatchCount times in all |
| `Picker.FilePicker.OnFileSelected` | UnicornFilePicker/src/main/java/abhishekti7/unicorn/filepicker/ui/FilePickerActivity.java:146-157 | multi-select toggles the path; single-select leaves exactly [path]; the selection stays free of repeats, with at most one path in single-select |
| `Picker.FilePicker.OnBreadcrumb` | UnicornFilePicker/src/main/java/abhishekti7/unicorn/filepicker/ui/FilePickerActivity.java:169-174 | a tap on a listable breadcrumb at index i leaves the stack equal to the old prefix [0..i]; an unlistable one leaves [0..i-1]; the selection is emptied |
| `Picker.FilePicker.OnBack` | UnicornFilePicker/src/main/java/abhishekti7/unicorn/filepicker/ui/FilePickerActivity.java:462-475 | with one or no breadcrumb, Back cancels and changes nothing. With more, and a listable parent, the stack loses its last element and the parent is listed; with an unlistable parent the stack loses two |
| `Picker.FilePicker.Commit` | UnicornFilePicker/src/main/java/abhishekti7/unicorn/filepicker/ui/FilePickerActivity.java:113-123 | commits the selection unchanged, or in directory-only mode exactly [path of the top of the stack]; on an empty stack in that mode it throws, leaving the selection empty |

## Left out

- Android view plumbing is not modelled: bindings, adapters, item decoration, toolbar
  title, progress and empty-state views, FAB tinting.
- The menu and the sort dialog are not modelled, including their preference writes.
  The preferences are the `SortSettings` input.
- The background re-sort after the sort dialog is not modelled. It is a thread handoff,
  and it sorts a list (`visible_files`) that the screen does not declare.
- `selectAll` and `resetSelection` belong to `DirectoryAdapter`, which is not part of this model.
- Permission checks, `finish`, `setResult` and the result `Intent` are not modelled.
  Only the `Outcome` of an action is kept (stayed, cancelled, committed, crashed).
- Opening the screen is not modelled as its own operation. It builds the root record
  and calls `fetchDirectory` on it, which is `FetchDirectory` with an empty stack.
- Tapping a directory in the listing is not modelled as its own operation either. It
  is `FetchDirectory` of that directory.
- `NaturalOrderComparator`, `ExifInterface` and `Utils.getDateFromExifAttribute` are
  not part of this model. They are opaque `Env` fields.
- A breadcrumb tap on an entry that is not in the stack is not modelled. `indexOf`
  gives -1 and `remove(-1)` throws. `OnBreadcrumb` requires the entry to be in the stack.
- `DirectoryModel.equals` is not part of this model. `indexOf` in the breadcrumb tap
  compares records as values.
- `FileComparator.FileOrder`: date mode compares the `lastModified` stored in the
  record. The source re-reads it from disk during the sort. The two agree unless the
  file changes between listing and sorting.
- `JavaStrings.Lower`: lower-cases ASCII letters only. Java's locale-dependent
  Unicode case mapping is not modelled.
- `JavaStrings.CompareTo`: compares Unicode scalar values. Java compares UTF-16 code
  units, which differ only for characters outside the Basic Multilingual Plane.
- `Picker.FilePicker.FetchDirectory`: promises a permutation, and sortedness under the
  comparator contract. It does not promise stability or the exact order
  `Collections.sort` produces. It does not model the exception `Collections.sort` may
  throw for a comparator that breaks the contract.
- `Picker.FilePicker.FetchDirectory`: a child's child count comes in with the listing.
  The model does not re-list each subdirectory.
- `Picker.FilePicker.OnBack`: does not model the home button in the action bar, which
  calls the same handler.
