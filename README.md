# Material management panel: upload paths, classification, ingestion and paging

This project models, in Dafny, the core of the material management panel
(`MaterialManagement`) of a desktop material library. The panel lets a user
upload files into a per-category store and browse the stored materials page
by page. The model covers:

- **Suffix lists and classification** (`setSuffixList`, `setFileType`). The
  six suffix lists of the `[FileType]` configuration group are each a
  `/`-separated string, split with empty parts skipped. A suffix is classified
  by the first list that holds it, tested in the order Audio, Video, Image,
  Document, Other, Program. A suffix that no list holds gives `VoidType`.
- **Upload path bookkeeping** (the upload handler's loop over the selected
  files):
  - Each selected file is classified by its suffix. A `VoidType` file is
    skipped.
  - It first goes to `<root>/Source/<Category>/<fileName>`.
  - While that path exists, it is renamed to
    `<completeBaseName>(j).<suffix>` in the same directory, for j = 1 to 9999.
    The loop checks existence only for the candidates 0 to 9998, so the last
    name it builds is never checked.
  - The source path is recorded in a map with its destination.
- **Batch ingestion** (`copyFiles`). The handler walks the map in ascending
  key order and copies each entry. When the copy succeeds, it inserts a
  material record named after the destination file, typed by the
  destination's suffix and sized by the copied file.
- **Paging** (`layoutAreaSetFiles` and the list state kept by the search,
  reload and page-click handlers). A list that fits on one page is shown
  whole. Otherwise page p shows the items from (p-1)·n up to (p-1)·n + n,
  cut at the total.

The panel's `QFileInfo` operations (`fileName`, `path`, `suffix`,
`completeBaseName`) and `QString::number`, `QString::split(…, SkipEmptyParts)`
and `QString`'s `operator<` are modelled as string functions in `QtPaths`.
`QString`'s `operator<` compares UTF-16 code units, not code points. The
filesystem is a set of existing paths. During `copyFiles` that set grows by
each copied file. Whether a copy onto a free destination succeeds, and each
file size, are function parameters. The database is the sequence of inserted
records, and query results are parameters.

Modules: `Wrappers` (Option), `QtPaths`, `Classifier`, `Upload`, `Ingest` and
`Paging`. `Paging.MaterialPanel` is a class holding the panel's list, total
and current page. Its handlers are methods that update those fields.

Behaviour worth knowing:
- Existence is checked only against the filesystem, never against the map
  being built. So two selected files with the same name, from different
  folders, get the same destination (`Upload.SameNameSameDestination`).
  Files with different names can collide too. Take a.jpg and a(1).jpg,
  selected together next to a stored a.jpg: a.jpg is renamed to a(1).jpg,
  which is also a(1).jpg's own destination (`Upload.DistinctNamesCollide`).
- `QFile::copy` refuses a destination that is already on disk. Of two entries
  with one destination, when the copy of the one visited first succeeds, that
  one is stored and recorded, and the other is not stored at all
  (`Ingest.SharedDestinationLosesSecond`).
- A reload keeps the current page. If the new list needs more than one page
  and no longer reaches the current page, that page shows nothing
  (`Paging.ReloadPastLastPageEmpty`).
- The search handler as written stores the result of a search that finds
  nothing before it returns, so the total and page go stale.
  `Paging.AfterSearchAsWritten` models the handler as written.
  `Paging.MaterialPanel.Search` models the intended handler, which leaves the
  list unchanged. See "## Findings".

## Model

| member | source | states |
|---|---|---|
| QtPaths.SplitSkipEmpty | gui/MaterialManagement/MaterialManagement.cpp:318-323 | `QString::split` with empty parts skipped; SplitPartsClean, SplitWord and SplitConcat characterise it on every input |
| QtPaths.SplitPartsClean | gui/MaterialManagement/MaterialManagement.cpp:318-323 | each part of a split with empty parts skipped is non-empty and holds no separator |
| QtPaths.SplitWord | gui/MaterialManagement/MaterialManagement.cpp:318-323 | a non-empty run without separators splits into itself alone |
| QtPaths.SplitConcat | gui/MaterialManagement/MaterialManagement.cpp:318-323 | splitting at a separator splits each side on its own, so leading, trailing and doubled separators give no part; with SplitWord and the empty string (no parts) this fixes the split of every input |
| QtPaths.SplitConcatWord | gui/MaterialManagement/MaterialManagement.cpp:318-323 | the step of SplitConcat for a string that starts with a word |
| QtPaths.SplitJoin | gui/MaterialManagement/MaterialManagement.cpp:318-323 | splitting the join of non-empty, separator-free parts gives back exactly those parts, in order |
| QtPaths.Word | gui/MaterialManagement/MaterialManagement.cpp:318-323 | the first part is the longest separator-free prefix, and is followed by a separator or the end |
| Classifier.LoadSuffixLists | gui/MaterialManagement/MaterialManagement.cpp:318-323 | every configured suffix is non-empty and holds no '/' |
| Classifier.Classify | gui/MaterialManagement/MaterialManagement.cpp:327-344 | a non-Void answer's list holds the suffix, and no list tested earlier (Audio, Video, Image, Document, Other, Program) holds it |
| Classifier.ClassifyIsFirstMatch | gui/MaterialManagement/MaterialManagement.cpp:327-344 | any category whose list holds the suffix, with no earlier list holding it, is the answer: the first match is unique |
| Classifier.UniqueListClassifies | gui/MaterialManagement/MaterialManagement.cpp:327-344 | a suffix held by exactly one list is classified as that list's category |
| Classifier.VoidIffUnlisted | gui/MaterialManagement/MaterialManagement.cpp:341-343 | the answer is VoidType if and only if no list holds the suffix |
| Classifier.EmptySuffixUnclassified | gui/MaterialManagement/MaterialManagement.cpp:318-343 | with lists read from the configuration, a file without a suffix is VoidType |
| Classifier.Folder | gui/MaterialManagement/MaterialManagement.cpp:188-206 | every category's folder name is non-empty and holds no '/' |
| Classifier.FolderInjective | gui/MaterialManagement/MaterialManagement.cpp:188-206 | distinct categories are stored in distinct folders |
| QtPaths.LastIndex | gui/MaterialManagement/MaterialManagement.cpp:181-182 | the index is -1 or lies in the string and holds the character |
| QtPaths.LastIndexIsLast | gui/MaterialManagement/MaterialManagement.cpp:181-182 | no occurrence of the character follows the index found |
| QtPaths.FileName | gui/MaterialManagement/MaterialManagement.cpp:213 | `QFileInfo::fileName`, the part after the last '/'; FileNameHasNoSlash and JoinedPath characterise it |
| QtPaths.Suffix | gui/MaterialManagement/MaterialManagement.cpp:182 | `QFileInfo::suffix`, the part of the file name after its last '.'; PathPartsClean, NameSplitsAtLastDot and TaggedPath characterise it |
| QtPaths.CompleteBaseName | gui/MaterialManagement/MaterialManagement.cpp:216 | `QFileInfo::completeBaseName`, the file name up to its last '.'; NameSplitsAtLastDot and TaggedName characterise it |
| QtPaths.FileNameHasNoSlash | gui/MaterialManagement/MaterialManagement.cpp:213 | a file name holds no separator |
| QtPaths.PathOf | gui/MaterialManagement/MaterialManagement.cpp:228 | a directory is never empty |
| QtPaths.NamePartsClean | gui/MaterialManagement/MaterialManagement.cpp:182 | a suffix holds no dot, and the parts of a separator-free name hold no separator |
| QtPaths.PathPartsClean | gui/MaterialManagement/MaterialManagement.cpp:216 | the suffix and the complete base name of a path hold no separator, and the suffix no dot |
| QtPaths.NameSplitsAtLastDot | gui/MaterialManagement/MaterialManagement.cpp:216 | a dotted name is its complete base name, a dot and its suffix; an undotted one is its base name with an empty suffix |
| QtPaths.JoinedPath | gui/MaterialManagement/MaterialManagement.cpp:213-214 | taking dir + "/" + name apart gives back the directory and the name |
| QtPaths.TaggedName | gui/MaterialManagement/MaterialManagement.cpp:228 | a renamed name keeps the suffix and has the tagged base as its complete base name |
| QtPaths.TaggedPath | gui/MaterialManagement/MaterialManagement.cpp:228-229 | a renamed path keeps its directory and suffix, and its file name is the tagged name |
| QtPaths.TaggedNameLonger | gui/MaterialManagement/MaterialManagement.cpp:228 | renaming makes a name strictly longer, so it never gives the same name back |
| QtPaths.TaggedNameInjective | gui/MaterialManagement/MaterialManagement.cpp:228 | two renamed names with the same base and suffix are equal only when their counters' texts are equal |
| QtPaths.DottedName | gui/MaterialManagement/MaterialManagement.cpp:216 | b.s with a dot-free s splits into base b and suffix s |
| QtPaths.NumStr | gui/MaterialManagement/MaterialManagement.cpp:228 | the decimal text of a counter is never empty |
| QtPaths.NumStrDigits | gui/MaterialManagement/MaterialManagement.cpp:228 | the decimal text of a counter holds only digits |
| QtPaths.NumStrValue | gui/MaterialManagement/MaterialManagement.cpp:228 | reading the decimal text back gives the counter, so distinct counters give distinct texts |
| QtPaths.DigitsHaveNoSlash | gui/MaterialManagement/MaterialManagement.cpp:228 | a counter's text adds no separator to a renamed name |
| Upload.Renamed | gui/MaterialManagement/MaterialManagement.cpp:228 | the name built in a rename round; TaggedPath, TaggedNameLonger and TaggedNameInjective characterise it |
| Upload.Candidate | gui/MaterialManagement/MaterialManagement.cpp:220-230 | the path tested in round k; CandidateShape, CandidateFileName, CandidatesDistinct and RenameStep characterise it |
| Upload.CandidateShape | gui/MaterialManagement/MaterialManagement.cpp:220-230 | every name the rename loop tries stays in the original directory and keeps the original suffix |
| Upload.CandidateFileName | gui/MaterialManagement/MaterialManagement.cpp:228 | the k-th renamed file name is the original complete base name, "(k)." and the suffix |
| Upload.CandidatesDistinct | gui/MaterialManagement/MaterialManagement.cpp:220-230 | the loop never tries the same path twice |
| Upload.NextCandidate | gui/MaterialManagement/MaterialManagement.cpp:228 | a round built from a name in the original directory with the original suffix gives the next candidate |
| Upload.RenameStep | gui/MaterialManagement/MaterialManagement.cpp:228-229 | the name built in round j, from the name of round j-1, is candidate j |
| Upload.FirstFreeIndex | gui/MaterialManagement/MaterialManagement.cpp:220-231 | a counter found lies in the tested range and its candidate does not exist |
| Upload.FirstFreeIndexSkips | gui/MaterialManagement/MaterialManagement.cpp:220-231 | every candidate before the one found exists, and when none is found every tested candidate exists |
| Upload.FirstFreeIndexIs | gui/MaterialManagement/MaterialManagement.cpp:220-231 | a free candidate preceded only by existing ones is the one found |
| Upload.ResolveCollision | gui/MaterialManagement/MaterialManagement.cpp:220-231 | the loop settles on the first non-existing candidate among 0..9998, or on none; what it settles on does not exist, and a free original is kept |
| Upload.Resolve | gui/MaterialManagement/MaterialManagement.cpp:220-231 | the path the rename loop settles on; ResolveCollision, ResolveAt and SearchExhausted characterise it |
| Upload.ResolveAt | gui/MaterialManagement/MaterialManagement.cpp:220-231 | a free candidate preceded only by existing ones is the destination |
| Upload.SearchExhausted | gui/MaterialManagement/MaterialManagement.cpp:220-231 | when all candidates 0..9998 exist, no destination is recorded |
| Upload.FirstRename | gui/MaterialManagement/MaterialManagement.cpp:219-230 | with only the path present, the first renamed variant is chosen |
| Upload.SecondRename | gui/MaterialManagement/MaterialManagement.cpp:219-230 | with the path and its first variant present, the second variant is chosen |
| Upload.InitialDestination | gui/MaterialManagement/MaterialManagement.cpp:186-214 | the first path a file is sent to; InitialDestinationParts characterises it |
| Upload.Destination | gui/MaterialManagement/MaterialManagement.cpp:180-231 | the path one selected file is recorded with, or none; DestinationShape, FreeDestinationKept and ExhaustedSkipped characterise it |
| Upload.InitialDestinationParts | gui/MaterialManagement/MaterialManagement.cpp:186-214 | the first destination lies in root/Source/<Category> and has the selected file's name |
| Upload.DestinationShape | gui/MaterialManagement/MaterialManagement.cpp:180-231 | a recorded destination is classifiable, did not exist, lies in its category's folder, keeps the source's suffix and classification, and is a candidate for the first destination |
| Upload.FreeDestinationKept | gui/MaterialManagement/MaterialManagement.cpp:220-225 | a file whose first destination is free is stored there under its own name |
| Upload.ExhaustedSkipped | gui/MaterialManagement/MaterialManagement.cpp:220-231 | a file whose name and every variant up to (9998) exist gets no map entry |
| Upload.ImageUpload | gui/MaterialManagement/MaterialManagement.cpp:185-213 | a selected a.jpg classified as an image starts from root/Source/Image/a.jpg |
| Upload.RenameScenarioFirst | gui/MaterialManagement/MaterialManagement.cpp:219-230 | uploading a.jpg next to an existing a.jpg stores it as a(1).jpg |
| Upload.RenameScenarioSecond | gui/MaterialManagement/MaterialManagement.cpp:219-230 | with a.jpg and a(1).jpg present, the next a.jpg is stored as a(2).jpg |
| Upload.DistinctNamesCollide | gui/MaterialManagement/MaterialManagement.cpp:216-228 | a.jpg and a(1).jpg selected next to a stored a.jpg are both sent to a(1).jpg |
| Upload.TaggedImageUpload | gui/MaterialManagement/MaterialManagement.cpp:185-213 | a selected a(1).jpg classified as an image starts from root/Source/Image/a(1).jpg |
| Upload.UploadMap | gui/MaterialManagement/MaterialManagement.cpp:180-232 | the map the loop over the selection builds; UploadMapEntries, UploadMapAvoidsExisting and SameNameSameDestination characterise it |
| Upload.UploadMapEntries | gui/MaterialManagement/MaterialManagement.cpp:180-232 | the map holds exactly the selected files that got a destination, each with that destination |
| Upload.UploadMapAvoidsExisting | gui/MaterialManagement/MaterialManagement.cpp:180-232 | no destination in the map existed when the handler looked |
| Upload.SameNameSameDestination | gui/MaterialManagement/MaterialManagement.cpp:180-232 | two selected files with the same name are both mapped, and to the same destination |
| Upload.BuildUploadMap | gui/MaterialManagement/MaterialManagement.cpp:180-232 | the loop over the selection builds the upload map, whose keys are selected files and whose destinations did not exist |
| Ingest.Record | gui/MaterialManagement/MaterialManagement.cpp:416-420 | the record inserted for a copied destination: its file name, its suffix's category and its size; UploadRecordsTyped characterises it |
| Ingest.CopySucceeds | gui/MaterialManagement/MaterialManagement.cpp:413 | whether `QFile::copy` succeeds: never onto a file on disk; SharedDestinationLosesSecond and OneFilePerRecord characterise it |
| Ingest.OnDisk | gui/MaterialManagement/MaterialManagement.cpp:410-427 | the disk after visiting a prefix of the keys; OneFilePerRecord and NewFilesRecorded characterise it |
| Ingest.Ingested | gui/MaterialManagement/MaterialManagement.cpp:410-427 | the records inserted while visiting a prefix of the keys; CopyFiles, VisitStep, IngestedExactly and FailedCopySkipped characterise it |
| Ingest.CopyFiles | gui/MaterialManagement/MaterialManagement.cpp:406-428 | the records inserted are, in key order, one per entry whose copy succeeded, and never more than the entries; the disk afterwards is the disk before plus each copied file |
| Ingest.VisitStep | gui/MaterialManagement/MaterialManagement.cpp:411-426 | visiting an entry adds its record and its file exactly when its copy succeeds on the disk the earlier entries left |
| Ingest.OneFilePerRecord | gui/MaterialManagement/MaterialManagement.cpp:413-424 | no file on disk is overwritten and none is written twice: the disk grows by exactly one new file per record |
| Ingest.FailedCopySkipped | gui/MaterialManagement/MaterialManagement.cpp:413-426 | a failed copy is skipped without stopping the batch: the records and the disk are those of the batch without that entry |
| Ingest.IngestedSingle | gui/MaterialManagement/MaterialManagement.cpp:413-425 | one entry inserts its record and its file exactly when its copy succeeds |
| Ingest.NewFilesRecorded | gui/MaterialManagement/MaterialManagement.cpp:410-427 | every record is that of a new file some entry could copy, every new file has its record, and every entry's destination ends up on disk if its copy could succeed |
| Ingest.IngestedExactly | gui/MaterialManagement/MaterialManagement.cpp:410-427 | every record belongs to an entry whose copy could succeed onto a free destination, and every such entry's destination is recorded |
| Ingest.SecondOfThreeFails | gui/MaterialManagement/MaterialManagement.cpp:410-427 | of three entries with distinct free destinations whose second copy fails, the first and third are recorded, in order |
| Ingest.SharedDestinationLosesSecond | gui/MaterialManagement/MaterialManagement.cpp:413 | of two entries with one destination, only the first is copied and recorded; the second file is not stored |
| Ingest.UploadBatchRecorded | gui/MaterialManagement/MaterialManagement.cpp:224-235 | ingesting the upload map records the destination of every entry whose copy can succeed, because no destination was on disk before |
| Ingest.UploadRecordsTyped | gui/MaterialManagement/MaterialManagement.cpp:416-419 | a record of an uploaded file has its source's category, never VoidType |
| QtPaths.Utf16Units | gui/MaterialManagement/MaterialManagement.cpp:410-411 | the code units QString stores for a character: one unit inside the Basic Multilingual Plane, a surrogate pair above it, each below 0x10000 |
| QtPaths.Utf16 | gui/MaterialManagement/MaterialManagement.cpp:410-411 | the UTF-16 form of a string; Utf16Injective characterises it |
| QtPaths.UnitsBelow | gui/MaterialManagement/MaterialManagement.cpp:410-411 | lexicographic code-unit order; UnitsBelowIrreflexive, UnitsBelowTransitive and UnitsBelowTotal characterise it |
| QtPaths.QStringLess | gui/MaterialManagement/MaterialManagement.cpp:410-411 | `QString`'s operator<, which orders the map's keys; QStringLessStrict, QStringLessTotal and SupplementaryBeforeHighBmp characterise it |
| QtPaths.UnitsBelowIrreflexive | gui/MaterialManagement/MaterialManagement.cpp:410-411 | no code-unit sequence is below itself |
| QtPaths.UnitsBelowTransitive | gui/MaterialManagement/MaterialManagement.cpp:410-411 | code-unit order is transitive |
| QtPaths.UnitsBelowTotal | gui/MaterialManagement/MaterialManagement.cpp:410-411 | of two different code-unit sequences one is below the other |
| QtPaths.Utf16UnitsDecode | gui/MaterialManagement/MaterialManagement.cpp:410-411 | the first unit tells whether a character takes one unit or a surrogate pair, and the units give back the character |
| QtPaths.Utf16UnitsInjective | gui/MaterialManagement/MaterialManagement.cpp:410-411 | different characters have different code units |
| QtPaths.Utf16Injective | gui/MaterialManagement/MaterialManagement.cpp:410-411 | different strings have different UTF-16 forms |
| QtPaths.QStringLessStrict | gui/MaterialManagement/MaterialManagement.cpp:410-411 | QString's code-unit order used for the map's key order is a strict order |
| QtPaths.QStringLessTotal | gui/MaterialManagement/MaterialManagement.cpp:410-411 | any two different strings are ordered one way or the other, so the order is a strict total order |
| QtPaths.LeastExists | gui/MaterialManagement/MaterialManagement.cpp:410-411 | every non-empty set of strings has a least element under QString's operator< |
| QtPaths.AscendingOrder | gui/MaterialManagement/MaterialManagement.cpp:410-411 | a set of strings listed in strictly ascending order, each element once and nothing else |
| QtPaths.LeastThenRest | gui/MaterialManagement/MaterialManagement.cpp:410-411 | the least element followed by the others in ascending order lists the whole set in ascending order |
| QtPaths.AscendingHeadTail | gui/MaterialManagement/MaterialManagement.cpp:410-411 | in an ascending sequence the first element is below every other, and the tail holds exactly the others |
| QtPaths.AscendingUnique | gui/MaterialManagement/MaterialManagement.cpp:410-411 | two ascending sequences with the same elements are equal |
| Ingest.QMapOrder | gui/MaterialManagement/MaterialManagement.cpp:410-411 | every map has exactly one ascending key order, the one a QMap iterator visits |
| QtPaths.SupplementaryBeforeHighBmp | gui/MaterialManagement/MaterialManagement.cpp:410-411 | a character above the Basic Multilingual Plane sorts before U+FF01, because it is compared by its surrogate code units |
| Paging.Visible | gui/MaterialManagement/MaterialManagement.cpp:380-404 | the items `layoutAreaSetFiles` hands to the thumbnail area; VisibleIsPageSlice and AllPagesReassemble characterise it |
| Paging.VisibleIsPageSlice | gui/MaterialManagement/MaterialManagement.cpp:383-403 | a short list is shown whole; otherwise page p shows items (p-1)n onward, n of them or up to the end, and nothing past the end |
| Paging.ThirdPageOfTwentyFive | gui/MaterialManagement/MaterialManagement.cpp:390-403 | 25 items on pages of 10: page 3 shows items 20 to 24 |
| Paging.PageStartNonNegative | gui/MaterialManagement/MaterialManagement.cpp:392 | a page from 1 on never starts before the list |
| Paging.PagesUpToPrefix | gui/MaterialManagement/MaterialManagement.cpp:390-403 | pages 1 to k, shown in turn, are the list up to where page k+1 starts |
| Paging.LastPageBounds | gui/MaterialManagement/MaterialManagement.cpp:392-396 | the last page starts inside the list, and the page after it starts at or past the end |
| Paging.AllPagesReassemble | gui/MaterialManagement/MaterialManagement.cpp:383-403 | showing every page in turn shows the whole list, each item once, in order |
| Paging.ConsistentShowable | gui/MaterialManagement/MaterialManagement.cpp:386-400 | when the total matches the list and the page is 1-based, slicing never reads outside the list |
| Paging.AfterReload | gui/MaterialManagement/MaterialManagement.cpp:364-366 | the list state after a reload: new list and total, page kept; TransitionsKeepConsistent and ReloadPastLastPageEmpty characterise it |
| Paging.AfterSearchAsWritten | gui/MaterialManagement/MaterialManagement.cpp:126-130 | the list state after a search as written; EmptySearchAsWrittenBreaksPaging characterises it |
| Paging.AfterSearch | gui/MaterialManagement/MaterialManagement.cpp:126-135 | the list state after the intended search; TransitionsKeepConsistent characterises it |
| Paging.AfterPageClick | gui/MaterialManagement/MaterialManagement.cpp:107-108 | the list state after a page click; TransitionsKeepConsistent characterises it |
| Paging.TransitionsKeepConsistent | gui/MaterialManagement/MaterialManagement.cpp:107-366 | (page click at 107-108, search at 121-135, reload at 364-366) reload keeps the page and takes the new size; a non-empty search resets to page 1; an empty (corrected) search changes nothing; a page click sets the page; each keeps the state consistent |
| Paging.ReloadPastLastPageEmpty | gui/MaterialManagement/MaterialManagement.cpp:364-370 | a reload whose new list needs more than one page and no longer reaches the current page shows an empty page |
| Paging.EmptySearchAsWrittenBreaksPaging | gui/MaterialManagement/MaterialManagement.cpp:126-130 | as written, an empty search leaves a total larger than the list, and clicking page 2 then reads outside the list |
| Paging.MaterialPanel.constructor | gui/MaterialManagement/MaterialManagement.cpp:25-30 | the panel starts on page 1 with the first loaded list and its size |
| Paging.MaterialPanel.LayoutAreaSetFiles | gui/MaterialManagement/MaterialManagement.cpp:380-404 | the items handed to the thumbnail area are the current page's slice, item k being list item (page-1)n + k |
| Paging.MaterialPanel.Reload | gui/MaterialManagement/MaterialManagement.cpp:346-372 | the list and total are replaced, the page is kept, the state stays consistent, and the current page is shown |
| Paging.MaterialPanel.Search | gui/MaterialManagement/MaterialManagement.cpp:121-138 | an empty result is reported and changes nothing; otherwise the result becomes the list, the page is 1, and page 1 is shown |
| Paging.MaterialPanel.PageClick | gui/MaterialManagement/MaterialManagement.cpp:107-109 | the clicked page becomes current, the list is untouched, and that page is shown |

## Left out

- The widgets, dialogs, message boxes and debug output are not modelled. Only the state they read or write is.
- Reading the INI file through QSettings is not modelled, nor is the missing-file early return. `LoadSuffixLists` takes the six configured strings as parameters.
- The filesystem is a set of paths. `QFileInfo::size` is a function parameter. For `QFile::copy`, the model checks whether the destination exists; every other cause of failure (an unreadable source, a full disk) is a function parameter. Files are not created during the upload loop, which matches the source.
- The database is not modelled. `ApprovalDao::findBy` results are parameters of the handlers, and `MaterialDao::insert` is the sequence of records returned by `CopyFiles`. The database trigger that adds approval rows is not part of this model.
- The worker thread (QtConcurrent and the future watcher) is not modelled. `CopyFiles` runs sequentially, and the reload after it finishes is `MaterialPanel.Reload`.
- `QMap` itself is not modelled. `CopyFiles` takes the key order as a parameter, required to be strictly ascending under `QString`'s `operator<`, which compares UTF-16 code units (`QtPaths.QStringLess`). `Ingest.QMapOrder` proves that every map has exactly one such order.
- Paths are compared as exact strings. On a case-insensitive filesystem, `QFileInfo::exists` (MaterialManagement.cpp:221) and `QFile::copy` (MaterialManagement.cpp:413) treat A.jpg and a.jpg as one file; the model treats them as two.
- Path normalisation (`..`, repeated or trailing separators, Windows separators) and the `QFileInfo` cache are not modelled. Paths are plain strings split at the last '/' and the last '.'.
- Paging.PageStart: the source computes (page-1)·n in a 32-bit int. The model uses unbounded integers and does not model overflow for page numbers beyond 2^31/n.
- Paging.MaterialPanel.PageClick requires a page of at least 1. The model assumes the page-button widget never emits a smaller page; its code is not part of this model. When the list needs more than one page and the page size is positive, a page below 1 would make the source read before the start of the list.
- Paging.PageCount is the number of pages a list needs. The page-button widget computes its own count, which is not part of this model.
- `m_nDataTotal` is uninitialised until the first load. The constructor performs that load, so the model starts from a loaded state.
- Deleting materials, the approval and sort controls, and the category side bar are not modelled, beyond the reload they trigger.

## Findings

| source | as written | input that shows it | evidently intended | confidence | as-written member | corrected member |
|---|---|---|---|---|---|---|
| gui/MaterialManagement/MaterialManagement.cpp:126-130 | an empty search result is assigned to the list before the handler returns, so the total and page still describe the old list | a list of 25 items on pages of 10, a search that finds nothing, then a click on page 2: the total is still 25, so items 10 to 19 of the now empty list are read | an empty search reports and leaves the list, total and page as they were | medium, not executed | Paging.EmptySearchAsWrittenBreaksPaging | Paging.MaterialPanel.Search |
