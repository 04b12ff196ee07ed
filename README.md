# CoTag metadata engine in Dafny

CoTag is a desktop editor for the `ComicInfo.xml` descriptor stored inside
CBZ/zip comic archives. This project models the engine inside its main
window and proves properties of the model. The Qt window itself is not
modelled. The engine covers:

- the list of file entries (`FileItem`: path, descriptor, saved descriptor,
  whether the archive had a descriptor, and the unsaved-changes flag);
- loading paths into the list, with duplicates skipped, followed by a sort
  in natural file-name order (`1, 2, …, 10`);
- the descriptor codec between an XML element and the editor's
  string-to-string dictionary. The ten tags SeriesGroup … Inker are read,
  and Author is folded from Penciller or Inker. On writing, Author is
  expanded back to both;
- the merged form view of a selection. A key shows its common value, or
  the mixed-value marker `<개별값>` when the selected entries disagree;
- editing the form over a selection and recomputing the dirty flag;
- saving the selected entries, or all of them, with the archive writer's
  success given as an oracle;
- the archive as a listing of `(name, bytes)` entries: descriptor lookup,
  first-image lookup, and the rebuild that replaces the descriptor;
- the in-memory side of renaming a file.

Files and modules:

| file | module | contents |
|---|---|---|
| `wrappers.dfy` | `Wrappers` | `Option` |
| `ascii.dfy` | `Ascii` | `lower`, `endswith`, `isdigit` on ASCII text |
| `naturalsort.dfy` | `NaturalSort` | `re.split(r"(\d+)")`, `natural_key`, Python's tuple order, the key sort |
| `comicinfo.dfy` | `ComicInfo` | element model, `_meta_from_xml`, `_build_xml_from_meta`, round trip |
| `archive.dfy` | `Archive` | zip listing, descriptor and image lookup, rebuild, write outcome |
| `editing.dfy` | `Editing` | merged view, edits and dirty flag, save step, all on values |
| `library.dfy` | `Library` | the `FileItem` and `FileList` classes that perform these steps in place |

The imperative parts of the source become methods over classes.
`FileItem` keeps its fields, which the edit and save steps update in place.
`FileList` holds `files`, which the load and sort steps reassign. Each
method is proved against a function on values in `Editing`, `ComicInfo`
or `Archive`, through `Snap`, the value view of an entry. The properties
are lemmas about those functions.

Where the code and its description differ, the model follows the code:

- Dirty flag. `on_field_changed` compares only the keys it writes, so an
  edit made while the form shows the marker can leave an unsaved value
  behind a clean flag. `Editing.CleanFlagCanHideAnEdit` shows such a
  record. `Editing.DirtyIffDescriptorChanges` states when the flag is
  exact.
- Duplicate entry names. `z.read(name)` returns the bytes of the last
  entry listed under that name. The rebuild therefore keeps each original
  entry's bytes only when same-named entries agree; `Archive.RebuildKeepsOthers`
  states both parts.
- The middle case of `_common_meta`. All values being `""` implies they
  are all equal, so that branch is never taken
  (`Editing.UnifiedViewValues`).

## Model

| member | source | states |
|---|---|---|
| Library.FileItem.constructor | src/main.py:21-26 | a new entry has the given path, empty descriptors, no descriptor flag and a clean flag |
| Library.FileItem.ApplyForm | src/main.py:441-451 | every non-marker edit is written into `meta`, no other key moves, and the flag becomes true exactly when some written edit differs from the saved value; `flipped` says whether the flag changed |
| Library.FileItem.Save | src/main.py:465-471 | a clean entry is skipped; a dirty one is serialised and handed to the writer, on success the saved descriptor becomes the written values and the flag clears, on failure the entry is unchanged |
| Library.FileList.constructor | src/main.py:159 | the list starts empty |
| Library.FileList.Clear | src/main.py:348-349 | `clear_list` leaves the list empty |
| Library.FileList.CommonMeta | src/main.py:392-408 | the result is the merged view of the entries' descriptors over the nine form keys |
| Library.FileList.CommonValue | src/main.py:396-407 | one key's value: the common value when all entries agree (absent read as `""`), `""` when all are empty, otherwise the marker |
| Library.FileList.Selected | src/main.py:363-364 | the entries of the selected rows, in row order |
| Library.FileList.OnSelectionChanged | src/main.py:362-382 | an empty selection clears every field; otherwise each field shows the merged view's value |
| Library.FileList.OnFieldChanged | src/main.py:433-453 | every selected entry becomes its edited record, every other entry is unchanged, and the two flags report whether some selected entry is dirty afterwards and whether some flag changed |
| Library.FileList.EditRow | src/main.py:441-453 | the edit step on one row changes that entry only |
| Library.FileList.SaveRows | src/main.py:464-485 | each listed entry becomes the save of its own old record, whatever happens to the other rows, and every unlisted entry is unchanged; the log lists exactly the dirty listed rows in order, and `anySaved` says whether some write succeeded |
| Library.FileList.SaveRow | src/main.py:465-471 | the save step on one row changes that entry only |
| Library.FileList.SaveCurrent | src/main.py:459-473 | the selected entries are saved and the others left alone; the dirty selected rows are written in row order |
| Library.FileList.SaveAll | src/main.py:475-490 | every entry is saved, the dirty ones are written in list order, and the result says whether at least one write succeeded |
| Library.FileList.RetargetPath | src/main.py:586-590 | the first entry whose path equals the old path takes the new path, and nothing else changes |
| Library.FileList.SetPath | src/main.py:589 | one entry takes the new path and no other entry changes |
| Library.FileList.OnRenameCommitted | src/main.py:566-590 | an unchanged name, an existing target and a failed rename each leave the list alone; only a completed rename retargets the first matching entry |
| Library.FileList.SortFiles | src/main.py:305 | the list is rearranged, not changed, into natural file-name order; entries whose names have the same key keep their relative order; distinct paths stay distinct |
| Library.FileList.LoadPaths | src/main.py:281-305 | the new entries are exactly the records read for the paths not yet listed, in order; the list is the old entries plus these, sorted by natural name, with entries whose names have the same key in the order of the old list followed by the new entries; distinct paths stay distinct |
| Library.FileList.NewEntries | src/main.py:282-292 | the entries created for the paths not yet listed are fresh, distinct, distinct from the listed ones, and keep the paths distinct |
| Library.FileList.AddEntries | src/main.py:292-305 | after appending and sorting, the list holds the old and the new entries, is in natural name order, and keeps the appended order among entries whose names have the same key |
| Library.Snaps | src/main.py:19-26 | the value view of a list of entries, position by position |
| Library.Paths | src/main.py:284 | the paths of a list of entries, position by position |
| Library.Metas | src/main.py:397-399 | the descriptors of a list of entries, position by position |
| Library.PathKeysAt | src/main.py:305 | the key list holds the sort key of each path, position by position |
| Library.BaseNameSuffix | src/main.py:305 | `path.name`: the longest suffix of the path without a '/', preceded by a '/' when shorter than the path |
| Library.NameKeysOf | src/main.py:305 | the loop computes, in list order, the natural key of each entry's file name (`natural_key(p.name)`), exactly `PathKeys(Paths(fs))` |
| Library.SortedByName | src/main.py:305 | a rearrangement of the entries whose name keys are in order, stable among entries with the same key; distinct entries and distinct paths stay distinct |
| Library.SortedEntries | src/main.py:305 | the sorted entries carry the sorted keys |
| Library.SortedPaths | src/main.py:305 | rearranging entries keeps distinct paths distinct |
| Library.NewPathsStep | src/main.py:283-285 | one more offered path is added exactly when it is in neither the list nor the paths added so far |
| Library.NewPathsFresh | src/main.py:283-292 | the added paths are distinct and were not listed; every offered path ends up listed; a list with distinct paths keeps them distinct |
| Library.NewPathsDistinct | src/main.py:283-292 | the added paths are distinct, also from the listed ones |
| Library.NewPathsOf | src/main.py:282-285 | the duplicate test of the first loop computes exactly the paths that are added |
| Library.Extended | src/main.py:292 | after the first loop the new entries are distinct and all paths stay distinct |
| Library.DistinctByPath | src/main.py:284 | entries with distinct paths are distinct entries |
| Library.LoadedAll | src/main.py:286-292 | one record per path added |
| Library.LoadedAllIndex | src/main.py:286-291 | each new record is what its archive gives: the parsed descriptor when one is read, empty descriptors otherwise, and clean |
| Library.LoadedAllPaths | src/main.py:286 | the new records hold the added paths, in order |
| Library.LoadItems | src/main.py:286-292 | one fresh entry per path, in order, each the record its archive gives |
| Library.LoadItem | src/main.py:286-291 | a fresh entry for the path, filled from the archive's descriptor when there is one |
| Library.SnapsPaths | src/main.py:286 | entries whose records hold given paths hold those paths |
| Library.IndexOf | src/main.py:587-590 | the first position holding the path, or none when no entry holds it |
| Editing.UnifiedView | src/main.py:392-408 | the merged view has exactly the nine form keys |
| Editing.ViewValueFrom | src/main.py:396-407 | the value computed from the collected list of values is the merged view's value |
| Editing.UnifiedViewUnique | src/main.py:392-408 | any map with the nine keys and the merged values is the merged view |
| Editing.UnifiedViewValues | src/main.py:400-407 | a key shows the common value when all entries agree, `""` included, and the marker otherwise; the all-empty branch is never reached |
| Editing.UnifiedViewNotMixed | src/main.py:392-408 | a shown value other than the marker is every selected entry's value |
| Editing.UnifiedViewOfOne | src/main.py:376-382 | a single selected entry is shown as it is |
| Editing.FormFor | src/main.py:366-382 | the form always has the nine keys, all empty when nothing is selected |
| Editing.ApplyEdits | src/main.py:443-447 | every non-marker edit is set, even to `""`; every other key keeps its presence and value |
| Editing.ApplyEditsUnique | src/main.py:443-447 | only one descriptor meets that description |
| Editing.ApplyEditsIdempotent | src/main.py:443-447 | applying the same edits twice gives the same descriptor |
| Editing.EditsKeepHiddenKeys | src/main.py:443-447 | keys the form does not show, such as Penciller and Inker, keep their values and no key is dropped |
| Editing.Loaded | src/main.py:286-291 | a loaded record is clean with equal descriptors, marked as having a descriptor exactly when one was read, and empty otherwise |
| Editing.Edited | src/main.py:441-451 | an edit keeps the path, the saved descriptor and the descriptor flag |
| Editing.EditedIdempotent | src/main.py:441-451 | applying the same form twice gives the same descriptor and flag |
| Editing.PersistedIsWritten | src/main.py:470 | the saved descriptor reads as the stored values and serialises to the same element as the descriptor that was written |
| Editing.Saved | src/main.py:465-471 | a clean record or a failed write leaves the record as it was; a successful write of a dirty record clears the flag |
| Editing.SavedThenSameEditsClean | src/main.py:441-452 | after a successful save, typing the same values again leaves the record clean and unchanged |
| Editing.StoredAgreesAt | src/main.py:446-448 | for a key whose edit is not the marker, the stored values agree exactly when the edit equals the saved value |
| Editing.DirtyIffDescriptorChanges | src/main.py:441-451 | when neither the form nor the saved descriptor holds the marker, the flag is set exactly when the serialised descriptor would differ from the saved one |
| Editing.CleanFlagCanHideAnEdit | src/main.py:441-451 | a concrete record whose flag is cleared although its descriptor still differs from the saved one, and which saving then skips |
| Editing.SaveThenReload | src/main.py:469-471 | reopening a file after a successful save shows the saved descriptor's value in every form field |
| Editing.DirtyAmongOrder | src/main.py:464-485 | the rows written are exactly the dirty selected rows, each once, in increasing order |
| Editing.SomeLeftDirtyMeans | src/main.py:450-453 | the two loop flags mean that some selected record is dirty afterwards and that some flag changed |
| Editing.SomeSavedMeans | src/main.py:476-485 | `any_saved` means that some record was written successfully |
| Editing.Upto | src/main.py:477 | the rows of the whole list in order |
| Editing.SaveIsolated | src/main.py:467-471 | a failed write leaves the record as it was; a successful write of a dirty record saves it and clears its flag (that each entry's outcome depends on its own record only is stated by the first two ensures of Library.FileList.SaveRows) |
| ComicInfo.Find | src/main.py:425 | `root.find(tag)`: the first direct child with the tag, or none when no child has it |
| ComicInfo.MetaFromXml | src/main.py:410-431 | the loop over the tag mapping, then the Author fold, computes the parsed descriptor |
| ComicInfo.ParseTagKey | src/main.py:424-427 | a tag's key is set exactly when its first child's text is non-empty, to that text |
| ComicInfo.ParseTakesFirstMatch | src/main.py:424-431 | only the first child with each tag counts; a missing tag leaves its key absent; only the ten tags and Author are set, never to `""` |
| ComicInfo.ParseFoldsAuthor | src/main.py:428-430 | Author is Penciller when that is non-empty, else Inker, and absent when both are empty |
| ComicInfo.ParseMetaAt | src/main.py:410-431 | the parsed value of every key, Author included, and the key is present exactly when that value is non-empty |
| ComicInfo.RankOfTags | src/main.py:498-509 | the fixed write order of the ten tags |
| ComicInfo.SourceKeys | src/main.py:498-509 | the eight plain tags carry their own key, Penciller and Inker carry Author |
| ComicInfo.KeysAndTags | src/main.py:412-423 | the form keys other than Author are tags, and every tag is a form key or Penciller or Inker |
| ComicInfo.EmitPlain | src/main.py:498-505 | the first eight steps of the write order are the eight plain `add` calls |
| ComicInfo.EmitAuthor | src/main.py:506-509 | the last two steps add Penciller and Inker, both with Author |
| ComicInfo.BuildXmlIsEmit | src/main.py:492-510 | the serialised element is a ComicInfo root whose children are the ten steps of the write order |
| ComicInfo.EmitUpToStep | src/main.py:494-497 | a step appends its tag's child exactly when the value is neither empty nor the marker |
| ComicInfo.Picked | src/main.py:495 | the positions that get a child lie inside the range |
| ComicInfo.PickedFacts | src/main.py:495 | the positions that get a child increase, hold writable values, and include every writable position |
| ComicInfo.EmitPicked | src/main.py:494-497 | child `a` carries the tag and value of the `a`-th position that gets a child |
| ComicInfo.EmitUpToIsEmit | src/main.py:492-510 | the write order is an instance of the generic emitter |
| ComicInfo.EmitUpToContent | src/main.py:494-509 | the children follow the write order, each tag once, each with its key's writable value |
| ComicInfo.EmitUpToCovers | src/main.py:494-509 | every tag whose value is writable gets a child |
| ComicInfo.BuildXmlShape | src/main.py:492-510 | fixed order, each tag at most once, a tag written exactly when its value is neither empty nor the marker, with that value; Penciller and Inker carry Author |
| ComicInfo.FirstTextOfBuild | src/main.py:424-427 | parsing a serialised descriptor finds, for each tag, its key's stored value |
| ComicInfo.RoundTrip | src/main.py:410-431 | parsing the serialised descriptor gives back every form field whose value is neither empty nor the marker, Author included, drops the others, and sets Penciller and Inker to Author and nothing else |
| ComicInfo.EmitUpToStored | src/main.py:494-509 | the children depend only on the stored values of the keys |
| ComicInfo.BuildXmlDeterminedByStored | src/main.py:492-510 | two descriptors serialise alike exactly when they agree on the stored value of every form key |
| Archive.DescriptorNameIsDescriptor | src/main.py:65 | the name the descriptor is written under is found by the reader's lookup |
| Archive.ImageIsNotDescriptor | src/main.py:79 | no image name looks like a descriptor |
| Archive.FirstMatching | src/main.py:35-38 | the first listed entry whose name matches, or none when none matches |
| Archive.LastWithName | src/main.py:41 | the last entry listed under exactly that name, the one the archive's name table keeps |
| Archive.ReadComicInfoFromZip | src/main.py:29-45 | the loop stops at the first descriptor name and returns the parse of what reading that name gives, or none |
| Archive.GetFirstImageFromZip | src/main.py:73-83 | the bytes of the first listed image name, or none when there is no image or the archive cannot be opened |
| Archive.Others | src/main.py:56 | exactly the entries whose lower-cased name does not end in `comicinfo.xml` |
| Archive.WriteComicInfoToZip | src/main.py:48-70 | the archive is rewritten exactly when it can be read and the write completes; an unreadable archive is untouched; a rewritten archive is the non-descriptor entries in order followed by the new descriptor |
| Archive.WrittenReadsBack | src/main.py:48-70 | after a completed write the descriptor reads back as the bytes written and the thumbnail is unchanged |
| Archive.LatestOfListed | src/main.py:56 | in an archive whose same-named entries agree, reading a listed name gives that entry's bytes |
| Archive.OthersAppend | src/main.py:56 | the filter distributes over concatenation |
| Archive.OthersOfClean | src/main.py:56 | a listing without descriptors passes the filter unchanged |
| Archive.KeptOfConsistent | src/main.py:56 | when same-named entries agree, the kept entries are the original non-descriptor entries with their bytes |
| Archive.RebuildKeepsOthers | src/main.py:56-65 | the rebuild keeps every non-descriptor name in order with the bytes reading it gives, then the descriptor; when same-named entries agree these are the original entries |
| Archive.DistinctIsConsistent | src/main.py:56 | an archive without repeated names agrees on same-named entries |
| Archive.RebuildHasOneDescriptor | src/main.py:60-65 | the rebuilt archive has exactly one descriptor, the last entry, named `ComicInfo.xml` with the new bytes |
| Archive.RebuildConsistent | src/main.py:56-65 | the rebuilt archive agrees on same-named entries |
| Archive.RebuildReadsBack | src/main.py:56-65 | reading the rebuilt archive parses exactly the descriptor written |
| Archive.RebuildTwice | src/main.py:56-65 | rewriting the descriptor twice equals rewriting it once with the second bytes |
| Archive.FirstMatchingCons | src/main.py:35-38 | one unfolding of the first-match lookup |
| Archive.FirstImageOfOthers | src/main.py:77-80 | the first image among the non-descriptor entries is the first image |
| Archive.FirstImageSkipsDescriptor | src/main.py:77-80 | a descriptor in front of the listing is no image and is filtered out, so both lookups still agree |
| Archive.FirstImageKeepsOther | src/main.py:77-80 | a non-descriptor entry in front is kept by the filter, so both lookups still agree |
| Archive.FirstMatchingUnique | src/main.py:35-38 | the first-match position is the only index with the first-match property |
| Archive.ReadListed | src/main.py:41 | a listed name can be read |
| Archive.RebuildFirstImageIndex | src/main.py:77-80 | the image lookup on the rebuilt archive stops where it stops among the kept entries |
| Archive.FirstMatchingSameNames | src/main.py:35-38 | the lookup depends only on the names |
| Archive.RebuildKeepsFirstImage | src/main.py:56-65 | rewriting the descriptor does not change the thumbnail's bytes |
| NaturalSort.RunLen | src/main.py:296 | the longest run of digits, or of non-digits, at the front of a string |
| NaturalSort.AlternatingCons | src/main.py:296 | putting a text run and a digit run in front of a split keeps its shape |
| NaturalSort.SplitDigitsStep | src/main.py:296 | one unfolding of the split on a name that holds a digit |
| NaturalSort.SplitDigitsRuns | src/main.py:296 | that unfolding cuts a non-digit run, a non-empty digit run and a remainder not starting with a digit |
| NaturalSort.SplitDigitsShape | src/main.py:296 | `re.split(r"(\d+)")` gives back the name when joined, in an odd number of pieces: digit-free text at even positions, only the first and last of which may be empty, and whole digit runs at odd positions |
| NaturalSort.KeyPartsAt | src/main.py:297-303 | the key holds, position by position, the key part of each piece |
| NaturalSort.NaturalKeyAlternates | src/main.py:295-303 | the key alternates lower-cased text (even positions) and the integer values of digit runs (odd positions) |
| NaturalSort.NaturalKeyOf | src/main.py:297-303 | the loop of `natural_key` computes the key |
| NaturalSort.StrLessIrreflexive | src/main.py:305 | string order is irreflexive |
| NaturalSort.StrLessTransitive | src/main.py:305 | string order is transitive |
| NaturalSort.StrLessTotal | src/main.py:305 | string order is total |
| NaturalSort.StrLessAsymmetric | src/main.py:305 | string order is asymmetric |
| NaturalSort.PartLessStrict | src/main.py:305 | the order on key parts is a strict total order |
| NaturalSort.KeyLessIrreflexive | src/main.py:305 | tuple order is irreflexive |
| NaturalSort.KeyLessTransitive | src/main.py:305 | tuple order is transitive |
| NaturalSort.KeyLessTotal | src/main.py:305 | tuple order is total |
| NaturalSort.KeyLessAsymmetric | src/main.py:305 | tuple order is asymmetric |
| NaturalSort.KeyNotGreaterTransitive | src/main.py:305 | "not greater" is transitive |
| NaturalSort.SwapKeeps | src/main.py:305 | an exchange keeps the same items and keeps distinct items distinct |
| NaturalSort.PermutedDistinct | src/main.py:305 | items picked by distinct positions stay distinct |
| NaturalSort.TracksSwap | src/main.py:305 | an exchange keeps items and keys moving together |
| NaturalSort.SortByKey | src/main.py:305 | `list.sort(key=...)` returns a rearrangement of the items, with keys moving along, in key order, and is stable: for every key, the items with that key keep their order |
| NaturalSort.InsertLast | src/main.py:305 | one insertion step extends the sorted prefix by one item and keeps, for every key, the order of the items with that key |
| NaturalSort.WithKeyAppend | src/main.py:305 | picking the items with one key distributes over concatenation |
| NaturalSort.WithKeyPair | src/main.py:305 | two items with different keys can be exchanged without changing the items picked for any key |
| NaturalSort.WithKeySwapAt | src/main.py:305 | exchanging neighbours with different keys keeps the items with a given key in order |
| NaturalSort.WithKeySwap | src/main.py:305 | the same for every key at once |
| NaturalSort.PassingSwap | src/main.py:305 | moving the item one place left past a strictly greater key keeps the rest of the prefix in order |
| NaturalSort.PassingStops | src/main.py:305 | when the moving item meets a key that is not greater, the prefix is in order |
| Ascii.LowerMeans | src/main.py:36 | `str.lower()` on ASCII: no upper-case letter left, other characters kept in place, each upper-case letter moved to its lower-case form |
| Ascii.LowerIdempotent | src/main.py:36 | lower-casing an already lower-cased name changes nothing |

## Left out

- The Qt window is not modelled: table drawing, status bar, button
  enabling, dialogs, drag and drop, thumbnails and the image viewer have
  no engine logic. The button state computed from `anyDirty` and the
  redraw decided by `changedAny` are returned as results.
- lxml's parsing and serialisation of XML text are not modelled. An element
  is a root tag with a list of `(tag, text)` children, where an empty text
  stands for a missing one. The parser is a parameter
  `Bytes -> Option<Element>` and may fail. The bytes a serialised
  descriptor becomes are a parameter of the archive functions.
- zipfile, the compression choice and the file system are not modelled. An
  archive is given as a listing, or `None` when it cannot be opened, by
  a `disk` parameter. The writer's outcome is an oracle
  `(path, Element) -> bool`. `path.write_bytes` overwrites the file in
  place, so after a failed write the model says only `Unknown` and claims
  no atomicity.
- Exceptions other than an unreadable archive or a failed parse are not
  modelled separately. Every failure of `read_comicinfo_from_zip` is `None`,
  and every failure of `write_comicinfo_to_zip` is `False`.
- The size column in MB (floats and `stat`) is not modelled.
- The filesystem side of rename is not modelled. The existence test and
  `old_path.replace` are inputs to `OnRenameCommitted`. The new path is
  also an input, because `with_name` and `suffix` are not modelled.
- Paths are strings compared by equality. `Path.name` is taken as the text
  after the last `/`.
- `str.lower()` and `str.isdigit()` are modelled on ASCII only; no Unicode
  case mapping and no non-ASCII digits.
- Python dictionaries are modelled as maps. The insertion order of `meta`
  has no effect on any result, because every output is built key by key
  in a fixed order.
- Library.FileList.SaveRows: lxml refuses an element text holding NUL or
  another control character and raises at `el.text = str(value)`
  (src/main.py:497). The save loops do not catch it, so the rows after
  that entry are not attempted and neither the table refresh nor the
  message box follows. `ComicInfo.BuildXml` is total, so the model
  attempts every row.
- Library.FileList.Clear: only the emptying of the list is modelled; the
  rest of `clear_list` resets the form, the table, the buttons, the status
  line and the thumbnail, which are UI.
- Library.FileList.LoadPaths: the first loop of `load_paths` reads each
  archive right after deciding that its path is new. The model decides the
  new paths first (`NewPathsOf`) and then reads them (`LoadItems`), since
  reading never affects the decision. It appends the new entries in one
  assignment and returns them as `added`.
- Library.FileList.OnFieldChanged: `on_field_changed` visits the form's
  keys in dictionary order, while `FileItem.ApplyForm` visits them in an
  arbitrary order. The result is the same, because each key is written
  independently.

