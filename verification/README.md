# UpdateManager update engine, modelled in Dafny

This project models the core of UpdateManager, a self-update client for desktop
applications. The client reads a settings record with the installed version and fetches a
manifest of update descriptors (`Version`, `MinimumVersion`, `UpdateFileAddress`, `MD5`).
It selects the applicable updates and downloads each one to the install directory, with
progress events. It checks the download against its MD5 and, when the check passes,
records and persists the new version.

Modules, one per component:

- `wrappers.dfy`: `Option` (C# null) and `Result` (an exception escaping a call).
- `domain.dfy`: bytes, `UpdateInfo`, `Settings`, and the exceptions that can escape.
- `file_store.dfy`: the files the engine touches, as a class over a map from path to
  contents. The settings file holds the settings record itself.
- `progress.dfy`: the specification of the download's copy loop, as functions of the
  sequence of stream reads: what is written, and which events are raised. Lemmas state
  the event count, the running byte counts, the final total, and the percentages.
- `transport.dfy`: the response value, and the Content-Disposition file name with its
  quotes stripped (`StripQuotes`, `FileNameForDownload`), as functions of the module. Class
  `HttpClientWithProgress` holds the 8192-byte copy loop over an array buffer and the
  status check before the file is opened.
- `resolver.dfy`: the manifest selection, a stable sort by `MinimumVersion` followed by
  the filter `MinimumVersion >= CurrentVersion`.
- `updater.dfy`: class `Updater` with its settings, manifest lists, file store and MD5
  function. `Download` is the pure description of one `DownloadUpdate` call, and the
  lemmas about it sit beside it.

Where the code and the intended design differ, the model follows the code:

- The filter keeps entries with `MinimumVersion >= CurrentVersion`, the literal direction.
- The hash comparison is ordinal and case-sensitive, with no case normalisation
  (`HashComparisonIsCaseSensitive`).
- There is no fallback file name. A response without a Content-Disposition header makes
  `Path.Combine` throw (`DownloadPath`).
- There is no monotonicity check when the version is recorded, so the recorded version
  can go down (`VersionCanDecrease`). An applied update drops out of the next selection
  exactly when its `Version` exceeds its `MinimumVersion` (`AppliedUpdateIsNotReselected`,
  `AppliedUpdateIsReselected`).
- Stopping the update queue at the first failure is not something the update engine
  does; the launcher's loop over the queue is not part of this model.

## Model

| member | source | states |
|---|---|---|
| `Transport.StripQuotes` | UpdateManager/HttpClientWithProgress.cs:43-44 | the result contains no `"` and keeps every other character exactly as often as the header name has it |
| `Transport.StripQuotesAppend` | UpdateManager/HttpClientWithProgress.cs:43-44 | quote removal distributes over concatenation, so the kept characters stay in order |
| `Transport.StripQuotesKeepsQuoteFree` | UpdateManager/HttpClientWithProgress.cs:43-44 | a name without quotes is returned unchanged |
| `Transport.StripQuotesIdempotent` | UpdateManager/HttpClientWithProgress.cs:43-44 | stripping twice equals stripping once |
| `Transport.IsSuccessStatusCode` | UpdateManager/HttpClientWithProgress.cs:62 | a status counts as success exactly when it is in the 2xx class |
| `Transport.FileNameForDownload` | UpdateManager/HttpClientWithProgress.cs:37-47 | null exactly when there is no Content-Disposition header; an exception exactly when the header has no file name; otherwise the quote-free name |
| `Transport.ReadAsync` | UpdateManager/HttpClientWithProgress.cs:80 | one read copies the next read result into the buffer and returns its length; past the end of the stream it returns 0 |
| `Transport.HttpClientWithProgress.constructor` | UpdateManager/HttpClientWithProgress.cs:28-34 | a new client has no progress subscriber |
| `Transport.HttpClientWithProgress.AddProgressHandler` | UpdateManager/HttpClientWithProgress.cs:28 | subscribing makes the event non-null |
| `Transport.HttpClientWithProgress.TriggerProgressChanged` | UpdateManager/HttpClientWithProgress.cs:100-114 | no event without a subscriber, otherwise one event carrying the running total; without a length, total 0 and percentage 0 |
| `Transport.HttpClientWithProgress.ProcessContentStream` | UpdateManager/HttpClientWithProgress.cs:68-98 | the destination is replaced by the concatenation of the reads before the first empty read, and the events returned are exactly `ExpectedEvents` (none without a subscriber) |
| `Transport.HttpClientWithProgress.StartDownload` | UpdateManager/HttpClientWithProgress.cs:48-76 | a non-success status fails with the file store unchanged; a success status on a destination that is a directory fails when the file is opened, again with nothing changed; otherwise the body is written and the loop's events returned |
| `Progress.FirstEmptyRead` | UpdateManager/HttpClientWithProgress.cs:80-85 | every read before the returned index carries data, and the read at it (if any) is empty |
| `Progress.RoundedPercent` | UpdateManager/HttpClientWithProgress.cs:107 | `Math.Round` of read * 100 / total: the integer nearest to the exact quotient, the even one on a tie; never negative and at most 100 when no more than the total was read |
| `Progress.Percentage` | UpdateManager/HttpClientWithProgress.cs:105-107 | 0 without a Content-Length (and for a declared length of 0); otherwise exactly `RoundedPercent` of the bytes read and the declared length, between 0 and 100 while no more than that length was read |
| `Progress.EventFor` | UpdateManager/HttpClientWithProgress.cs:105-113 | the event carries the bytes read so far and the declared length (0 without one, with percentage 0); its percentage is `Percentage` of the bytes read and the length, so `RoundedPercent` whenever a positive length is declared |
| `Progress.PrefixStep` | UpdateManager/HttpClientWithProgress.cs:87-90 | one more read appends its bytes to the file and its length to the running total |
| `Progress.CheckpointsStep` | UpdateManager/HttpClientWithProgress.cs:90-93 | one more read adds an event exactly when the read count becomes a multiple of 10 |
| `Progress.ByteCountPrefixMonotone` | UpdateManager/HttpClientWithProgress.cs:89 | the running byte total never decreases |
| `Progress.ConcatLength` | UpdateManager/HttpClientWithProgress.cs:87-89 | the written file is as long as the running total says |
| `Progress.ByteCountBound` | UpdateManager/HttpClientWithProgress.cs:72-80 | n reads deliver at most 8192 * n bytes |
| `Progress.ExpectedEventCount` | UpdateManager/HttpClientWithProgress.cs:90-97 | with a subscriber, n non-empty reads give exactly n / 10 + 1 events |
| `Progress.EventsReportBytesSoFar` | UpdateManager/HttpClientWithProgress.cs:89-97 | the j-th event reports the bytes of the first 10(j+1) reads; the last reports all bytes, which is the file's length |
| `Progress.EventBytesNonDecreasing` | UpdateManager/HttpClientWithProgress.cs:89-97 | event byte counts never decrease |
| `Progress.EventTotals` | UpdateManager/HttpClientWithProgress.cs:105-113 | every event carries the declared length, or 0 and percentage 0 when there is none |
| `Progress.RoundedPercentMonotone` | UpdateManager/HttpClientWithProgress.cs:107 | the rounded percentage is monotone in the bytes read |
| `Progress.CompleteDownloadIsHundredPercent` | UpdateManager/HttpClientWithProgress.cs:107 | reading exactly the declared length reports 100 |
| `Progress.PercentagesNonDecreasing` | UpdateManager/HttpClientWithProgress.cs:89-113 | the percentages of successive events never decrease |
| `Resolver.Insert` | UpdateManager/Updater.cs:109 | inserting adds exactly one copy of the entry and nothing else |
| `Resolver.SortByMinimumVersion` | UpdateManager/Updater.cs:109 | the sorted list is ordered by MinimumVersion and a permutation of the manifest |
| `Resolver.InsertKeepsOrderWithin` | UpdateManager/Updater.cs:109 | an inserted entry comes first among the entries with its key |
| `Resolver.SortKeepsOrderWithin` | UpdateManager/Updater.cs:109 | sorting keeps manifest order among entries with equal MinimumVersion (stability) |
| `Resolver.SortOfSortedIsIdentity` | UpdateManager/Updater.cs:109 | sorting an already sorted list leaves it unchanged |
| `Resolver.SortIdempotent` | UpdateManager/Updater.cs:109 | re-sorting the stored sorted list changes nothing |
| `Resolver.AtOrAbove` | UpdateManager/Updater.cs:111 | the filter keeps an entry exactly when it is in the list and its MinimumVersion is at least the installed version, and never lengthens the list |
| `Resolver.AtOrAboveSorted` | UpdateManager/Updater.cs:110-113 | filtering a sorted list keeps it sorted and keeps only entries at or above the installed version |
| `Resolver.AtOrAboveCount` | UpdateManager/Updater.cs:111 | the filter keeps each qualifying entry as often as the input has it and drops the others |
| `Resolver.AvailableUpdates` | UpdateManager/Updater.cs:105-114 | the selection is sorted by MinimumVersion and every selected entry has MinimumVersion >= CurrentVersion |
| `Resolver.AvailableUpdatesSelectsExactly` | UpdateManager/Updater.cs:109-113 | the selection has the same multiset as the filtered manifest: an entry is selected exactly when it is in the manifest and qualifies |
| `Resolver.AvailableUpdatesIsStable` | UpdateManager/Updater.cs:109-113 | for each MinimumVersion, the selected entries are the manifest's, in manifest order (none below CurrentVersion) |
| `Resolver.NoneAvailable` | UpdateManager/Updater.cs:105-114 | nothing is selected exactly when every entry's MinimumVersion is below CurrentVersion |
| `Resolver.SortedWithSameKeyOrderIsEqual` | UpdateManager/Updater.cs:109 | sortedness plus per-key order determine the sequence, so the two properties above specify the selection completely |
| `Updates.CombinePath` | UpdateManager/Updater.cs:68 | the path ends with the file name; a rooted name replaces the install directory; otherwise the path starts with it |
| `Domain.IsNullOrEmpty` | UpdateManager/Updater.cs:131 | `string.IsNullOrEmpty`: true exactly for null and the empty string |
| `Updates.CombinedPathIsNotSettingsFile` | UpdateManager/Updater.cs:68 | a path combined from a non-empty install directory that is not the directory itself is never the bare `settings.json` (Updater.cs:33), so a download cannot overwrite the settings file |
| `Updates.VerifyFileHash` | UpdateManager/Updater.cs:127-142 | accepts when MD5 is null or empty; otherwise accepts exactly when MD5 equals the computed hash |
| `Updates.MissingHashAlwaysAccepts` | UpdateManager/Updater.cs:129-134 | without an MD5 every file content is accepted |
| `Updates.HashComparisonIsCaseSensitive` | UpdateManager/Updater.cs:136-141 | an upper-case MD5 rejects a file whose hash is the same digest in lower case |
| `Updates.DownloadPath` | UpdateManager/Updater.cs:67-68 | a missing Content-Disposition header fails with ArgumentNull: there is no fallback name |
| `Updates.Download` | UpdateManager/Updater.cs:58-85 | an empty install path throws before anything else; the outcome is not an exception exactly when the install path is non-empty, the name resolves, the status is a success and the destination is not the install directory itself; it is then the `VerifyFileHash` verdict on the received bytes, with exactly the loop's `ExpectedEvents` (none without a subscriber) and a destination other than the settings file; a true verdict records `Version` and persists exactly the new record; otherwise the settings are unchanged; an exception leaves the files unchanged and raises no events |
| `Updates.VerifiedDownloadRecordsVersion` | UpdateManager/Updater.cs:75-78 | a verified download changes only CurrentVersion, persisted settings equal the in-memory ones, the download (never the settings file) keeps the received bytes, and no file other than the download and the settings file changes |
| `Updates.RejectedDownloadIsDeleted` | UpdateManager/Updater.cs:79-82 | a rejected download leaves settings unchanged, removes the downloaded file and changes no other file, the persisted settings file included |
| `Updates.EmptyFileNameChangesNothing` | UpdateManager/Updater.cs:67-68 | a file name that is empty once its quotes are stripped names the install directory, which cannot be opened as a file: with a success status the download throws and nothing changes |
| `Updates.FailedStatusChangesNothing` | UpdateManager/HttpClientWithProgress.cs:60-66 | a non-success status changes neither the settings nor any file and raises no event |
| `Updates.AppliedUpdateIsNotReselected` | UpdateManager/Updater.cs:111-118 | after a verified download of an update with Version > MinimumVersion, that update is not selected again |
| `Updates.AppliedUpdateIsReselected` | UpdateManager/Updater.cs:111-118 | after a verified download of a manifest entry with Version <= MinimumVersion, that entry is selected again |
| `Updates.VersionCanDecrease` | UpdateManager/Updater.cs:116-118 | an entry with Version 3 and MinimumVersion 7 is selected at version 5 and, when applied, lowers the recorded version to 3 |
| `Updates.TwoStepManifest` | UpdateManager/Updater.cs:105-114 | at version 5, [6 from 5, 7 from 6] is selected in that order; at version 6 only 7 remains |
| `Updates.EmptyManifestOffersNothing` | UpdateManager/Updater.cs:105-114 | an empty manifest selects nothing |
| `Updates.LaunchTarget` | UpdateManager/Updater.cs:87-96 | nothing is launched exactly when MainExePath is empty; otherwise MainExePath is |
| `Updates.Updater.constructor` | UpdateManager/Updater.cs:35-39 | a new updater holds the given settings, a fresh client without subscriber, and empty lists |
| `Updates.Updater.GetUpdatesAsync` | UpdateManager/Updater.cs:46-56 | the stored list becomes the sorted manifest and the available updates its selection |
| `Updates.Updater.GetAvailableUpdates` | UpdateManager/Updater.cs:105-114 | the stored list is replaced by its sorted copy, and the result is `AvailableUpdates` of the old list |
| `Updates.Updater.UpdateVersion` | UpdateManager/Updater.cs:116-125 | CurrentVersion becomes the update's Version, nothing else in the record changes, and the settings file is rewritten with the whole record |
| `Updates.Updater.DownloadUpdate` | UpdateManager/Updater.cs:58-85 | the result, new settings, new files and events are exactly those `Download` describes |
| `Updates.Updater.StartMainApp` | UpdateManager/Updater.cs:87-96 | returns nothing when MainExePath is empty, otherwise the program to start |
| `FileStore.FileSystem.Create` | UpdateManager/HttpClientWithProgress.cs:75-76 | `FileMode.Create` creates or truncates the destination |
| `FileStore.FileSystem.Append` | UpdateManager/HttpClientWithProgress.cs:87 | a write appends the buffer's bytes to the file |
| `FileStore.FileSystem.Delete` | UpdateManager/Updater.cs:81 | the file is removed, and a missing file is not an error |
| `FileStore.FileSystem.WriteSettings` | UpdateManager/Updater.cs:123-124 | the settings file is rewritten in full |

## Left out

- HTTP itself is not modelled: GetAsync, GetStringAsync, the User-Agent header, network failures and
  cancellation. A response is an input value: status, optional length, optional
  Content-Disposition, and the results of the successive body reads.
- `GetFileNameForDownload` and `StartDownload` issue two separate requests. One response value
  stands for both.
- JSON (de)serialization of the manifest and the settings is not modelled. The manifest and the
  settings arrive already parsed, and the settings file holds the record itself. Reading
  settings.json in the constructor (`GetSettings`) is therefore a constructor parameter.
- `Utils.GetMd5` is not part of this model. The MD5 of a byte sequence is the function
  `md5` given to the `Updater` constructor.
- Percentage: `Math.Round` on doubles is modelled as exact rational round-half-to-even. Double
  rounding error is not modelled, and neither is the overflow of the `(int)` cast when more bytes
  arrive than declared. A declared length of 0 gives a NaN or infinite double in C#, whose
  `(int)` cast is unspecified; the model reports 0.
- 64-bit overflow of `totalBytesRead` and `readCount` is not modelled; both are unbounded naturals.
- The file store is a map from path to contents. Directories are not part of it: the only
  directory the model knows is the install directory, whose creation succeeds for any
  non-empty path and throws for an empty one, and which cannot be opened as a file. Other
  I/O exceptions (disk full, locked files, invalid path characters) and the file stream's own
  8192-byte write buffer are not modelled.
- Paths are compared as strings: no case folding and no normalisation of `.`, relative or
  absolute forms. Two spellings of one file (`.\settings.json` and `settings.json`, or
  `Settings.JSON`) are two entries of the file store, so "no other file changes" and
  "the settings file is unchanged" hold only up to string equality of paths.
- `Path.Combine` is modelled with the Windows rules only: separators, drive-rooted names, and a
  `\` inserted between the parts.
- Async/await, the finalizer-based `Dispose`, the cancellation overload of `StartDownload`, and
  `Process.Start` in `StartMainApp` are not modelled. `StartMainApp` returns the program it
  would start.
- The WPF launcher (Launcher/MainWindow.xaml.cs) is not part of this model. That includes its
  loop over the available updates, which does not stop after a failed update.
- A settings field that is null in the JSON is not modelled: every settings string is a
  non-null `string`.
