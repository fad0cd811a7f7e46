# cbz_reader in Dafny

This is a model of the two halves of cbz_reader that turn a CBZ comic archive (a zip
container of page images) into pages.

- **The browser reader** is the `ShowCbz` component in `app/page.tsx`. When a file is
  selected, it handles the file as follows:
  - It enumerates the archive's entries and keeps the non-directory entries whose names
    match `/\.(jpe?g|png|gif|webp)$/i`.
  - It reads each kept entry, gives it an object URL and pushes a record onto a working list.
  - It sorts that list by name and makes it the displayed list. The effect cleanup then
    revokes every URL of the list that was replaced. Each page is captioned
    "Page i of N". A button toggles a fullscreen flag.
- **The batch script** `scripts/extractManga.ts` walks the entries of an archive on disk.
  - It writes every non-directory entry whose name matches `/\.(png|jpg|jpeg|gif)$/` to
    `path.join(outputDir, name)`.
  - It first creates the parent directory when nothing exists at that path.
  - It then closes the archive. At top level, it first creates the output directory if it
    is missing.

The modules follow the program:

| file | module | contents |
|---|---|---|
| `archive.dfy` | `Archive` | entries of an opened container (name, directory flag, bytes or a read failure) |
| `extensions.dfy` | `Extensions` | both regular expressions as values of a small pattern language, their JavaScript matching semantics (anchored at the end, ASCII case folding for `/i`), the proof that each test is a suffix check against a fixed list of extensions, and how the two tests differ |
| `object_urls.dfy` | `ObjectUrls` | the browser's object-URL store as a class that hands out fresh URLs and logs revocations |
| `extraction.dfy` | `CbzExtraction` | the filter, the specification `Collect` of the push loop, and the in-place insertion sort by name on an array |
| `reader.dfy` | `CbzReader` | class `ShowCbz` with the component's state, the file-change handler, the effect cleanup, the fullscreen toggle and the page captions |
| `filesystem.dfy` | `NodeFs` | the part of Node's `fs` the script uses, as a class over a set of directories and a map from paths to bytes |
| `batch.dfy` | `BatchExtraction` | the specification `RunSpec` of the script's entry loop, lemmas about what a run writes and creates, and the `extractCbz` loop and the script's top level as methods |

Choices behind the model:

- **Failed reads.** A read that fails is an entry whose content is `None`. In the browser,
  the rejected `await` throws out of the loop. The error is set and the displayed list is
  kept. The URLs already created for the earlier pages of that attempt are in no list, so
  no cleanup ever revokes them.
  - `HandleArchive` states this: on failure, the live URLs are the old ones plus the
    attempt's.
  - In the script, the throw comes after the parent directory was made, and `zip.close()`
    is not reached.
- **Leaks and case.** The model states what the code does, including two behaviours a reader
  might not expect.
  - URLs created before a failing read are never revoked: no list holds them, so no cleanup
    reaches them.
  - The script's regular expression has no `i` flag, so "a.PNG" is skipped while the browser
    keeps it.
- **Name comparison.** `a.name.localeCompare(b.name)` is a parameter `leq` that is only
  assumed to be a total preorder.
- **React state updates.** A state update in React takes effect at the next render, when
  the cleanup of the effect on `extractedFiles` runs for the old list.
  - The model folds that cleanup into the replacement of the list (`ShowFiles`).
  - It also folds it into unmounting (`Unmount`).

## Model

| member | source | states |
|---|---|---|
| Extensions.MatchesIsFoldedWord | app/page.tsx:39 | a name matches a pattern as a whole exactly when, after ASCII case folding, it equals one of the words the pattern denotes |
| Extensions.TestIsSuffixCheck | app/page.tsx:39 | a test anchored only at the end holds exactly when the folded name ends with a folded word of the pattern |
| Extensions.JpegWords | app/page.tsx:39 | `jpe?g` denotes exactly "jpg" and "jpeg" |
| Extensions.BrowserWords | app/page.tsx:39 | the browser pattern denotes exactly ".jpg", ".jpeg", ".png", ".gif", ".webp" |
| Extensions.BatchWords | scripts/extractManga.ts:12 | the script's pattern denotes exactly ".png", ".jpg", ".jpeg", ".gif" |
| Extensions.BrowserImageNameBySuffix | app/page.tsx:39 | the browser keeps a name exactly when, ignoring ASCII case, it ends in one of its five extensions |
| Extensions.BatchImageNameBySuffix | scripts/extractManga.ts:12 | the script keeps a name exactly when it ends, with the same case, in one of its four extensions |
| Extensions.BatchNameIsBrowserName | scripts/extractManga.ts:12 | every name the script keeps, the browser keeps too |
| Extensions.NotBrowserImageName | app/page.tsx:39 | a name whose last character does not fold to G, F or P is never kept by the browser |
| Extensions.BrowserImageNameBySpelling | app/page.tsx:39 | a name ending in any case spelling of a browser extension is kept |
| Extensions.UpperCaseExtensionDiverges | scripts/extractManga.ts:12 | "a.PNG" is kept by the browser and skipped by the script |
| Extensions.WebpDiverges | scripts/extractManga.ts:12 | "b.webp" is kept by the browser and skipped by the script |
| Extensions.ExtensionTestsDiverge | scripts/extractManga.ts:12 | the two tests differ, on case and on webp |
| Extensions.BrowserTestExamples | app/page.tsx:39 | "cover.PNG" and "x.JPEG" are kept; "notes.txt.png.bak" and "readme.txt" are not |
| Extensions.BatchTestExamples | scripts/extractManga.ts:12 | "a.png" and "c.jpg" pass the script's test |
| ObjectUrls.UrlRegistry.CreateObjectUrl | app/page.tsx:43 | returns a URL never handed out before, registered with the blob; nothing else changes |
| ObjectUrls.UrlRegistry.RevokeObjectUrl | app/page.tsx:65 | the URL stops resolving and the call is logged; nothing else changes |
| CbzExtraction.ImageEntriesAreTheKeptEntries | app/page.tsx:37-46 | the filtered entries are exactly the non-directory entries with an image name, each with its multiplicity in the archive |
| CbzExtraction.CollectSkipStep | app/page.tsx:37-39 | an entry the test rejects leaves the working list as it is |
| CbzExtraction.CollectPushStep | app/page.tsx:39-44 | reading a kept entry pushes its record, with the next fresh URL, at the end of the working list |
| CbzExtraction.CollectFailStep | app/page.tsx:41 | a kept entry that cannot be read ends the loop with the list built so far, incomplete |
| CbzExtraction.NamedLikeAppend | app/page.tsx:49 | the records named like a given name in a concatenation are those of the first part followed by those of the second |
| CbzExtraction.PairNamedLike | app/page.tsx:49 | swapping two adjacent records whose names are out of order does not reorder the records named like any given name |
| CbzExtraction.SwapKeepsOrderOfEqualNames | app/page.tsx:49 | one swap of the insertion sort keeps, for every name, the order of the records with equal names, and keeps a permutation |
| CbzExtraction.CollectRecordsFollowImageEntries | app/page.tsx:37-46 | the k-th record has the k-th kept entry's name and bytes and the k-th fresh URL; no more records than kept entries |
| CbzExtraction.CollectCompletesIffReadable | app/page.tsx:37-46 | the loop completes exactly when every kept entry can be read, then with one record per kept entry; otherwise it stops at the first kept entry that cannot be read |
| CbzExtraction.CollectUrlsAreFresh | app/page.tsx:41-44 | the records' URLs are pairwise distinct and all newly handed out |
| CbzExtraction.CollectKeepsOnlyImages | app/page.tsx:39 | every record comes from a non-directory entry with an image name and carries that entry's bytes |
| CbzExtraction.RegisteredPush | app/page.tsx:43-44 | creating the URL of a pushed record extends the registrations of the list by that record |
| CbzExtraction.RegisteredKeys | app/page.tsx:43-44 | the URLs registered by the loop are exactly the records' URLs |
| CbzExtraction.RegisteredShowsEachRecord | app/page.tsx:43-44 | with distinct URLs, each record's URL resolves to that record's own bytes |
| CbzExtraction.SortByName | app/page.tsx:49 | the array ends ordered by name under the comparison, is a permutation of its old contents, and records with equal names keep their old relative order (a stable sort) |
| CbzExtraction.InsertIntoPrefix | app/page.tsx:49 | one insertion pass extends the ordered prefix by one record, leaves the records after it in place, keeps a permutation, and keeps records with equal names in their old relative order |
| CbzExtraction.SortedCopy | app/page.tsx:49 | the sorted working list is ordered by name, a permutation of the pushed records, and records with equal names stay in push order |
| CbzReader.DistinctCountsOnce | app/page.tsx:65 | in a log without repetitions, a logged URL occurs once |
| CbzReader.FreshRegistrationKeepsLookups | app/page.tsx:43 | registering new URLs above every live one leaves each live URL resolving to the same bytes |
| CbzReader.AppendRevokesEachOnce | app/page.tsx:63-67 | revoking a list of distinct, not yet revoked URLs keeps the log free of repetitions, and each of them is then revoked exactly once |
| CbzReader.PermutationKeepsUrlsDistinct | app/page.tsx:49 | sorting cannot make two records share a URL |
| CbzReader.PageNumbersAreOneToN | app/page.tsx:110-124 | one block per record, with that record's URL as source, its name as alt text and the list length as total; the captions number the pages exactly 1 to N, strictly increasing |
| CbzReader.ShowCbz.constructor | app/page.tsx:15-17 | the component starts with no pages, no error and the fullscreen flag off |
| CbzReader.ShowCbz.HandleFileChange | app/page.tsx:20-60 | no file: error "No file selected", list and URLs untouched; unreadable file or container: error "Failed to extract CBZ file", list and URLs untouched; an archive: as `HandleArchive`, so a complete load shows the records ordered by name, with equal names in entry order |
| CbzReader.ShowCbz.HandleArchive | app/page.tsx:28-57 | success: error cleared, the list is a name-ordered permutation of the records, one per kept entry, with equal names in entry order, and the old list's URLs are each revoked exactly once while every other live URL keeps its bytes and the new ones resolve to their records' bytes; failed read: error "Failed to extract CBZ file", list and revocations untouched, every live URL keeps its bytes and the attempt's URLs stay live with theirs |
| CbzReader.ShowCbz.ReadImages | app/page.tsx:35-46 | the loop's records and outcome are `Collect` of the entries from the store's next URL; exactly their URLs are registered, with their bytes |
| CbzReader.ShowCbz.ShowFiles | app/page.tsx:49-53 | the new list is the records ordered by name, a permutation of them with equal names in push order, the error is cleared, and the replaced list's URLs are revoked exactly once while the new ones stay live |
| CbzReader.ShowCbz.RevokeUrls | app/page.tsx:65 | every URL of the list is revoked, in list order |
| CbzReader.ShowCbz.Unmount | app/page.tsx:63-67 | unmounting revokes each URL of the current list exactly once and changes nothing else |
| CbzReader.ShowCbz.ToggleFullscreen | app/page.tsx:70-80 | not fullscreen: request it and set the flag; fullscreen with an exit API: exit and clear the flag; otherwise nothing changes |
| NodeFs.FileSystem.ExistsSync | scripts/extractManga.ts:17 | true exactly when a directory or a file is at the path |
| NodeFs.FileSystem.MkdirSync | scripts/extractManga.ts:18 | the path becomes a directory unless a file is there, which fails; files unchanged |
| NodeFs.FileSystem.WriteFile | scripts/extractManga.ts:22-24 | the file at the path holds exactly the data; nothing else changes |
| BatchExtraction.EnsureDirSpec | scripts/extractManga.ts:35-37 | afterwards something exists at the path; files and existing directories are kept; the only directory added is the path, and only when nothing was there |
| BatchExtraction.EnsureDirIdempotent | scripts/extractManga.ts:35-37 | setting up the output directory twice is setting it up once, and is a no-op when it exists |
| BatchExtraction.StepSpec | scripts/extractManga.ts:11-25 | an unselected entry changes nothing; a selected one leaves its parent existing and, when readable, writes exactly its bytes at its target and nothing else |
| BatchExtraction.RunGrows | scripts/extractManga.ts:10-26 | a run only adds directories and files |
| BatchExtraction.RunSkipsUnselected | scripts/extractManga.ts:10-26 | directories and names the regex rejects make no difference: running over the archive is running over its selected entries |
| BatchExtraction.RunOkIffReadable | scripts/extractManga.ts:10-28 | the loop gets to `zip.close()` exactly when every selected entry can be read |
| BatchExtraction.RunStopsAtFirstFailure | scripts/extractManga.ts:10-26 | a run over two parts is the run over the first, then, unless it threw, the run over the second |
| BatchExtraction.RunWritesExactlyTheTargets | scripts/extractManga.ts:12-24 | with every selected entry readable, the files afterwards are the old ones plus one at each selected entry's joined path, and every other file keeps its bytes |
| BatchExtraction.RunWritesEachEntrysBytes | scripts/extractManga.ts:22-24 | the file at a selected entry's path holds that entry's bytes unless a later entry is written at the same path |
| BatchExtraction.RunLeavesEveryParent | scripts/extractManga.ts:14-19 | once a selected entry has been reached, something exists at its parent path: its directory, or a file in the way, which is what the `existsSync` guard tests |
| BatchExtraction.RunCreatesOnlyMissingParents | scripts/extractManga.ts:14-19 | existing directories are kept, and a new directory was missing before and is the parent of a selected entry |
| BatchExtraction.ThreeEntrySelection | scripts/extractManga.ts:12 | of "a.png", "b.webp", "c.jpg" the script selects the first and the last |
| BatchExtraction.ThreeEntryTargets | scripts/extractManga.ts:13 | their output paths are the output directory joined with "a.png" and "c.jpg" |
| BatchExtraction.ThreeEntryExample | scripts/extractManga.ts:10-28 | the run over those three entries completes and adds files exactly at those two paths |
| BatchExtraction.StreamZip.Close | scripts/extractManga.ts:28 | closing counts one more close |
| BatchExtraction.EnsureDir | scripts/extractManga.ts:17-19 | the file system afterwards is `EnsureDirSpec` of the one before |
| BatchExtraction.ExtractCbz | scripts/extractManga.ts:6-29 | an unreadable archive changes nothing and is not closed; otherwise the file system afterwards and the outcome are `RunSpec` of the entries, and the archive is closed once exactly when no entry failed |
| BatchExtraction.RunScript | scripts/extractManga.ts:35-39 | the output directory is set up first, then the extraction runs on the resulting file system |

## Left out

- Zip parsing and decompression (JSZip `loadAsync` and `async("blob")`, node-stream-zip `entries` and `stream`) are foreign libraries. An archive is the sequence of entries they enumerate, and a failure is a `None` content or the `LoadFailure` and unreadable-archive cases.
- The enumeration order of `Object.entries` and `Object.values` is taken as given. This includes JavaScript putting integer-like keys first. Duplicate names collapse in those objects; the model takes the resulting sequence.
- `localeCompare` and its locale rules are not modelled. The comparison is an abstract total preorder, so nothing is claimed about numeric-aware order.
- Browser and DOM APIs are stand-ins:
  - `File.arrayBuffer` is folded into `LoadFailure`.
  - Blobs are byte sequences.
  - Object URLs are fresh numbers.
  - The fullscreen API is two booleans. The flag is not resynchronised when the user leaves fullscreen by other means, as in the code.
- Rendering is left out: the JSX layout, the `Image` component, the styles, the error banner text and the button label. Only the page blocks and their captions are modelled.
- React's scheduling is left out: deferred state updates and when effects run. The cleanup of the previous list is folded into the replacement and into `Unmount`, and an unmounted component runs no handler.
- Asynchrony and overlap are left out:
  - A second selection while an extraction is in flight is not modelled.
  - In the script, the unawaited `data.pipe(writeStream)` and its race with `zip.close()` are not modelled. Each write completes atomically within its loop iteration.
- Stream errors after a write has started are not modelled. Neither is the uncaught error event they raise. Examples are a target that is a directory, and a file sitting at the parent path: `existsSync` is then true, no directory is made, and the real `createWriteStream` fails with ENOTDIR. RunWritesExactlyTheTargets still counts such a target as written.
- `path.join` and `path.dirname` are abstract functions. There is no normalisation of `..` or separators.
- EnsureDirSpec, RunCreatesOnlyMissingParents: `mkdirSync` with `recursive` adds only the requested directory to the model; the missing ancestors the real call also creates are not tracked, so these contracts describe the model's directory set, not every directory the program creates.
- The hard-coded `process.cwd()` paths and the console messages of the script are I/O plumbing. So is `console.error` in the browser handler.
