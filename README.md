# ribasis-receiver in Dafny

A verified model of the core of two Python scripts.

`rib-receiver.py` consumes messages from a queue. Each delivery is stored
as one file in the bucket directory of its arrival day,
`<data>/<YYYYMMDD>/<micros>_<sequence>_<id>.json`, holding the raw body.
Only after the write is the delivery acknowledged; then a log line with
`meta.created` is printed. pathlib splits the name at any `/` that the
sequence or id contains, so such a message is only stored when the directory
below the bucket exists. The receiver never creates that directory.

`archive.py` packs the sorted `*.json` files of one day bucket (`data_path / day`: pathlib splits the day text at `/`, and a day starting with `/` replaces the data directory) into
`<archive>/<day>.zip` and/or `<archive>/<day>.tar.zst`. It creates the
archive directory first, and the day defaults to yesterday.

The model works over an abstract filesystem:
- a map from paths (sequences of name components) to blobs, plus a set of directories;
- archives are blobs holding ordered `(name, content)` entries, with compression left opaque;
- effect traces (`MadeDirs`, `Wrote`, `Acked`) record the order of external effects.

Files:
- `wrappers.dfy`: `Option` and `Result`.
- `decimal.dfy`: decimal text of integers (`str(int)`) and zero-padded fields (`%Y%m%d`), with round trips.
- `dates.dfy`: Gregorian dates, previous and next day, the eight-digit day format and its parser.
- `order.dfy`: code-point string order, least element, `sorted()` of a set of names.
- `filesystem.dfy`:
  - paths and blobs;
  - the components pathlib makes of a name joined to a path (split at `/`, empty and `.` parts dropped);
  - `Path.mkdir(parents=True, exist_ok=…)` as pathlib's recursion, with its closed form;
  - the errors of `open(…, "wb")`;
  - the `*.json` glob.
- `receiver.dfy`: `on_message`.
  - The class `MessageReceiver` updates the files, directories and acknowledgements in place.
  - `OnMessage` is proved equal to the pure function `Deliver`.
  - The properties are lemmas about `Deliver`.
- `archive.dfy`: `zip_day`, `tarzst_day`, `archive_day`, the default day and `main`.
  - The class `DayArchiver` streams entries into the open artifact in a loop.
  - Its methods are proved equal to the pure functions `WriteDay`, `ArchiveDaySpec` and `RunSpec`.
  - The properties are lemmas about those functions.

The code differs from what one might expect of such a tool in several ways, and the model follows the code:
- Files are written in place, with no temporary file and rename.
- Nothing is skipped or forced, and no day is excluded as "today": an existing artifact is overwritten.
- A malformed message is not routed to a dead-letter path.
- No notification is sent.
- `archive_day` handles one given day; it does not enumerate the buckets.
- Zip entries keep the directory part of the path passed to `zf.write`; only tar entries use the base name.
  The model's paths are component lists read from the root `[]`. A relative `--data-dir` is read with `[]` as the working directory, which is why its zip names come out relative. An absolute one yields the same names, because `zipfile` strips the leading `/`.

## Model

| member | source | states |
|---|---|---|
| Receiver.BucketPath | rib-receiver.py:26-27 | The bucket is the data directory plus one component: eight digits that parse back to the arrival day. |
| Decimal.Padded | rib-receiver.py:27 | A `%Y`/`%m`/`%d` field has exactly the field width, all digits. |
| Decimal.PaddedRoundTrip | rib-receiver.py:27 | Reading a zero-padded field back gives the number. |
| Decimal.NatToString | rib-receiver.py:35 | `str(n)` of a natural number is a non-empty string of digits with no leading zero: it starts with `0` exactly when `n` is 0. |
| Decimal.IntToString | rib-receiver.py:35 | `str(i)`: a `-` before the digits of a negative number. Its lemmas are `SignOfText`, `IntToStringHasNoSeparator` and `IntToStringInjective`. |
| Decimal.NatToStringRoundTrip | rib-receiver.py:35 | Reading `str(n)` back gives `n`. |
| Decimal.IntToStringHasNoSeparator | rib-receiver.py:34-37 | The microsecond part of a stored name never contains the `_` separator, a `/` or a `.`. |
| Decimal.SignOfText | rib-receiver.py:35 | The text is non-empty and starts with `-` exactly for a negative number. |
| Decimal.IntToStringInjective | rib-receiver.py:35 | Distinct integers have distinct `str` texts. |
| Receiver.Str | rib-receiver.py:34-36 | `"{}".format(v)` of a JSON value: strings as they are, numbers as Python prints them, `True`/`False`, `None`, and the `str` of a dict or list. |
| Receiver.Formattable | rib-receiver.py:43 | The values a width spec such as `{:13}` accepts: strings, numbers and booleans, but not `None`, a dict or a list. |
| Receiver.FileName | rib-receiver.py:34-36 | `"{}_{}_{}.json"` of the microseconds, sequence and id. Its lemmas are `FileNameIsJson`, `FileNameInjective` and `FileNameComponents`. |
| Receiver.FileNameIsJson | rib-receiver.py:34-36 | Every stored name ends in `.json`, so the archiver's glob picks it up. |
| Receiver.FileNameInjective | rib-receiver.py:34-36 | Equal names mean the same microsecond. They also mean the same sequence and id whenever neither sequence text contains `_`. |
| Receiver.StoredPath | rib-receiver.py:37 | `data_path / file_name`: the bucket followed by the components of the name. Its lemmas are `FileNameComponents` and `DeliverAcksIffStored`. |
| Receiver.FileNameComponents | rib-receiver.py:34-37 | A name built from texts without `/` is one component below the bucket. A `/` in the sequence or the id gives at least two components, so the file goes into a directory below the bucket. |
| Receiver.EnsureBucket | rib-receiver.py:28-29 | Creates the bucket unless something exists at its path. Its behaviour is stated by `EnsureBucketSpec`. |
| Receiver.EnsureBucketSpec | rib-receiver.py:28-29 | Creating the bucket fails only when a file lies along its path, and it changes no file or ack. When no file lies along the path, the bucket and its ancestors exist afterwards. When one does and it still succeeds, a file sits at the bucket path and nothing changed. |
| Receiver.WriteThenAck | rib-receiver.py:37-41 | `open("wb")` and write, then `basic_ack`. `WriteThenAckKeepsConsistent` and `DeliverAcksIffStored` state its behaviour. |
| Receiver.Deliver | rib-receiver.py:25-43 | One call of `on_message`. The lemmas `DeliverEffects`, `DeliverKeepsConsistent`, `DeliverAcksIffStored`, `SlashInNameIsNotStored`, `DeliverReusesBucket`, `DeliverFailurePoints`, `DeliverAfterAck` and `StoredMessageIsListed` state what it does. |
| Receiver.DeliverEffects | rib-receiver.py:25-43 | A delivery adds, in order, at most the bucket's creation, then the write of this message's own stored path followed immediately by the ack of its own tag. Earlier effects stay. |
| Receiver.EnsureBucketKeepsConsistent | rib-receiver.py:28-29 | Creating the bucket keeps the tree consistent and adds no acknowledgement. |
| Receiver.WriteThenAckKeepsConsistent | rib-receiver.py:38-41 | Write-then-ack keeps the tree consistent, and its one new ack directly follows a write. |
| Receiver.DeliverKeepsConsistent | rib-receiver.py:25-43 | Across a delivery the tree stays consistent, the acks equal the acked tags of the trace, and each ack follows a write. |
| Receiver.StoredPathBelowBucket | rib-receiver.py:37 | For a message with `sequence` and `id`, the stored path lies strictly below the bucket and is not one of its ancestors, and the path's directory is the bucket or lies below it. |
| Receiver.WriteThenAckSpec | rib-receiver.py:38-41 | Write-then-ack succeeds exactly when the path is not a directory and its directory exists. Then the file holds the body, the directories stay, and the tag is appended to the acks. |
| Receiver.DeliverSteps | rib-receiver.py:28-41 | When the bucket step fails, nothing changes and the result is its `OSError`. When the message has no usable name, the delivery fails in the bucket step's state. Otherwise it ends in write-then-ack's state, or in the bucket step's state with the `open` error when the write fails. |
| Receiver.DeliverAcksIffStored | rib-receiver.py:28-41 | The delivery is acked exactly when these all hold: `sequence` and `id` are present; the name holds no NUL; no file lies along the bucket path; the stored path's directory exists (or is the bucket or one of its ancestors); and the stored path is not a directory. Then the file holds the raw body (replacing a same-named file), the bucket and its ancestors exist, and nothing else changes. Otherwise no file changes, no ack is sent, and at most the bucket is created. |
| Receiver.SlashInNameIsNotStored | rib-receiver.py:37-38 | When no directory exists below the bucket, a message whose sequence or id contains `/` fails, and nothing is written or acked. |
| Receiver.DeliverReusesBucket | rib-receiver.py:28-29 | An existing bucket is not created again, and every other path keeps its contents. |
| Receiver.DeliverFailurePoints | rib-receiver.py:28-38 | An undecodable body, a missing `sequence` or `id`, or a NUL in the name fails before any write or ack, with that error or the bucket's `OSError`, and no file changes. |
| Receiver.DeliverAfterAck | rib-receiver.py:38-43 | Once the delivery is acked, it raises exactly when `created` is missing (`KeyError`) or one of the three values takes no width spec (`TypeError`); otherwise it returns the three values' `str` texts (not the printed fields: a width spec writes a `bool` as `1` or `0`). A success or either late error implies the ack. |
| Receiver.StoredMessageIsListed | rib-receiver.py:37-39 | An acked message's stored path holds the body. Without `/` in its sequence and id, the message adds exactly its name to the bucket's `*.json` listing. With one, the listing is unchanged. |
| Receiver.MessageReceiver.constructor | rib-receiver.py:22 | Starts from a consistent tree with no acknowledgements; the data directory is fixed configuration. |
| Receiver.MessageReceiver.OnMessage | rib-receiver.py:25-43 | Performs the steps of `on_message` in place. The new state and the result are those of `Deliver`, and the consistency invariant is kept. |
| FileSystem.Exists | rib-receiver.py:28 | `data_path.exists()`: a file or a directory is at the path. `EnsureBucketSpec` and `DeliverReusesBucket` state its use. |
| FileSystem.MakeDirs | rib-receiver.py:28-29 | pathlib's `mkdir(parents=True, exist_ok=…)` recursion. `MakeDirsSpec` and `MakeDirsIdempotent` state its closed form. |
| FileSystem.OpenForWriting | rib-receiver.py:38 | The errors `open(p, "wb")` raises: `IsADirectoryError`, `FileNotFoundError` for a missing directory, `NotADirectoryError` for a file along the path. `DeliverAcksIffStored`, `WriteDayShape` and `PreparedArchiveDir` state its use. |
| FileSystem.Segments | rib-receiver.py:37 | The pieces of a text between its slashes. `SegmentsJoin` states the round trip. |
| FileSystem.SegmentsJoin | rib-receiver.py:37 | Joining the pieces with `/` gives the text back. |
| FileSystem.SegmentsHaveNoSlash | rib-receiver.py:37 | No piece contains `/`. |
| FileSystem.SegmentsAtSlash | rib-receiver.py:37 | Splitting a text at one slash splits its pieces there. |
| FileSystem.Components | rib-receiver.py:37 | The components `dir / t` appends: the pieces of `t` without the empty and `.` ones. |
| FileSystem.ComponentsOfName | rib-receiver.py:37 | A non-empty text other than `.` without `/` is exactly one component. |
| FileSystem.ComponentsOfDot | archive.py:32 | The empty text and `.` add no component, so joining either leaves the path as it was. |
| FileSystem.ComponentsAcrossSlash | rib-receiver.py:37 | A slash between a first and a last character that are neither `/` nor `.` leaves at least two components. |
| FileSystem.LastComponent | rib-receiver.py:37 | A text ending in a character other than `/` and `.` has a last component, and it ends in that character. |
| FileSystem.MakeDirsSpec | rib-receiver.py:28-29 | `mkdir(parents=True)` succeeds exactly when no component of the path is a file and (`exist_ok` or the target is not a directory). Then it adds exactly the path's ancestors and keeps the tree consistent. |
| FileSystem.MakeDirsIdempotent | archive.py:75 | `mkdir(parents=True, exist_ok=True)` on a tree it already created changes nothing. |
| FileSystem.IsJsonName | archive.py:16 | The pattern `*.json`: at least five characters ending in `.json`. pathlib's `*` also matches a leading dot, so `.json` itself matches. `ArtifactIsNotJson` and `FileNameIsJson` apply it. |
| FileSystem.JsonNames | archive.py:16 | `dir.glob("*.json")` over regular files, as names. `JsonNamesMember` states its members. |
| FileSystem.JsonNamesMember | archive.py:16 | The glob yields exactly the regular files of the directory whose name ends in `.json`. |
| FileSystem.JsonNamesAdd | archive.py:16 | Writing a `*.json` file directly into a directory adds exactly its name to the glob. |
| FileSystem.JsonNamesBelow | archive.py:16 | Writing a file further down than a directory's own entries leaves its glob unchanged. |
| Order.Less | archive.py:16 | Python's `<` on `str`: code point by code point, a proper prefix first. Its order properties are the lemmas below, and `SiblingsOrderByName` ties it to the order of paths. |
| Order.SiblingsOrderByName | archive.py:16 | `sorted` compares the `Path`s the glob yields part by part; two paths of one directory compare exactly as their names do. |
| Order.LessIrreflexive | archive.py:16 | No name sorts before itself. |
| Order.LessTransitive | archive.py:16 | The name order is transitive. |
| Order.LessTotal | archive.py:16 | Of two distinct names, one sorts first. |
| Order.LeastExists | archive.py:16 | Every non-empty set of names has a least element. |
| Order.LeastUnique | archive.py:16 | The least element is unique. |
| Order.Least | archive.py:16 | Returns the least element of a non-empty set. |
| Order.SortedNamesSpec | archive.py:16 | `sorted` lists each name of the set once, strictly ascending, and nothing else. |
| Order.SortedNames | archive.py:16 | `sorted()` of a set of names, by repeatedly taking the least one. `SortedNamesSpec` and `SortedUnique` state its result. |
| Order.SortedUnique | archive.py:16 | Any two strictly ascending listings of the same names are equal, so `sorted` is the only one. |
| Archive.ArtifactPath | archive.py:34-37 | `archive_path / "{}.zip".format(day)` and `"{}.tar.zst"`. `ArtifactIsNotJson` and `ArtifactsDiffer` state its properties. |
| Archive.ArtifactIsNotJson | archive.py:34-37 | An artifact sits in the archive directory, is named `<day>.zip` or `<day>.tar.zst`, and never matches `*.json`. |
| Archive.ArtifactsDiffer | archive.py:34-37 | The zip and tar.zst paths differ, and the zip path is not the tar.zst's parent. |
| Archive.Listing | archive.py:16 | `sorted(in_path.glob("*.json"))` as names. `ListingInFiles`, `TarEntriesAreBucketFiles` and `ListingUnchanged` state what it holds. |
| FileSystem.JoinPath | archive.py:17 | `str(p)` of the path passed to `zf.write`, without the leading `/`. `SegmentsJoin` and `ZipNameKeepsDirectory` state its shape. |
| Archive.EntryName | archive.py:17-27 | The zip keeps the joined path and the tar uses the base name. `ZipMatchesTar` and `ZipNameKeepsDirectory` state this. |
| Archive.DayEntries | archive.py:16-28 | The entries one writer run emits for a bucket. `TarEntriesAreBucketFiles`, `ZipMatchesTar` and `DayEntriesUnchanged` state them. |
| Archive.ListingInFiles | archive.py:16 | Every listed name is a file of the bucket. |
| Archive.EntriesOf | archive.py:16-17 | One entry per listed name. |
| Archive.EntriesOfAt | archive.py:16-17 | Entry `i` carries the `i`-th listed file's content, with the format's entry name. |
| Archive.TarEntriesAreBucketFiles | archive.py:25-28 | The tar.zst holds one entry per `*.json` file of the bucket, in ascending order, each named by its base name with that file's contents; no other file is included. |
| Archive.ZipMatchesTar | archive.py:16-17 | The zip holds the same contents in the same order, each named by the full joined path. |
| Archive.ZipNameKeepsDirectory | archive.py:17 | A zip entry's name is the bucket path, then `/`, then the file name. |
| Archive.ListingUnchanged | archive.py:32-38 | Writing an artifact leaves the bucket's listing as it was. |
| Archive.DayEntriesUnchanged | archive.py:32-38 | Writing the zip does not change what the tar.zst will pack. |
| Archive.OpenedListing | archive.py:15-16 | The listing taken after the output is opened is the one from before, and it never includes the output. |
| Archive.WriteDay | archive.py:14-28 | `zip_day`/`tarzst_day` on values: open the output, then pack the bucket. `WriteDayShape`, `WriteDayStore` and `WriteDayKeepsBucket` state its behaviour. |
| Archive.WriteDayStore | archive.py:14-28 | A run that opens its output stores the bucket's entries there and keeps the tree consistent. |
| Archive.WriteDayShape | archive.py:14-28 | A writer reports the `open` error if there is one (and then changes nothing); otherwise it reports success and records one write. |
| Archive.WriteDayKeepsBucket | archive.py:14-28 | A writer changes only its output, keeps the directories and the bucket's entries, and on success the output holds those entries. |
| Archive.DayPath | archive.py:32 | `data_path / day`: the data directory plus pathlib's components of the day text, or those components alone when the day starts with `/`. `DayPathCases` and `DefaultDayPath` state it. |
| Archive.DayPathCases | archive.py:32 | A plain day name without `/` is one component below the data directory; `.` and the empty text select the data directory itself; `/` followed by a plain name selects that name below the root, whatever the data directory. |
| Archive.AbsoluteDayPath | archive.py:32 | `/` followed by a plain name has that name as its only component. |
| Archive.DefaultDayPath | archive.py:32 | The default day selects the bucket one component below the data directory. |
| Archive.ArchiveDaySpec | archive.py:31-38 | `archive_day` on values. `ArchiveDayEffects`, `ArchiveDayFiles`, `ArchiveDayLeavesArtifacts`, `ArchiveDayOverArtifacts` and `ArchiveDayRepeatable` state its behaviour. |
| Archive.ArchiveDayEffects | archive.py:31-38 | The zip is attempted first when requested, and its failure stops the run; the tar.zst is attempted when requested. The result and effects follow from that, no directory is created, and with both flags off nothing happens. |
| Archive.ArchiveDayFiles | archive.py:31-38 | The resulting files map: each artifact is written iff requested and reached and its path can be opened. Both are packed from the bucket as it was before the call, and every other path is unchanged. |
| Archive.ArchiveDayLeavesArtifacts | archive.py:31-38 | After a successful run, each requested artifact can be opened again and already holds its bucket's entries. |
| Archive.WriteDayOverArtifact | archive.py:14-28 | A writer over an output that already holds its entries succeeds, changes no file and records the write. |
| Archive.ArchiveDayOverArtifacts | archive.py:31-38 | Over artifacts that already match the bucket, `archive_day` succeeds and changes no file, yet still records a write of each requested artifact. |
| Archive.ArchiveDayRepeatable | archive.py:31-38 | There is no skip: running again on the result succeeds with the same files, and it writes each requested artifact again (the zip, then the tar.zst). |
| Dates.Valid | archive.py:56 | The dates `datetime` can hold: years 1 to 9999, months 1 to 12, and days within the month. `Predecessor`, `Successor` and `Parse` keep to it. |
| Dates.DaysInMonth | archive.py:56 | Month lengths are 28 to 31 days, and February has 29 exactly in leap years. |
| Dates.Predecessor | archive.py:56 | `- timedelta(days=1)` has no result exactly at 0001-01-01; otherwise it returns a valid date strictly before. |
| Dates.Successor | archive.py:56 | The next day, the inverse of the previous day: no result exactly at 9999-12-31, otherwise a valid later date. |
| Dates.PredecessorIsImmediate | archive.py:56 | No valid date lies strictly between the previous day and the day. |
| Dates.SuccessorOfPredecessor | archive.py:56 | The day after the previous day is the day itself. |
| Dates.PredecessorOfSuccessor | archive.py:56 | The day before the next day is the day itself. |
| Dates.Format | archive.py:56 | `%Y%m%d` gives exactly eight digits. |
| Dates.Parse | archive.py:56 | Parsing eight digits yields only valid dates. |
| Dates.FormatRoundTrip | archive.py:56 | Parsing the formatted day gives the day back. |
| Dates.FormatInjective | archive.py:56 | Distinct days have distinct bucket names. |
| Archive.DefaultDay | archive.py:56 | The default `--day`: yesterday formatted as `%Y%m%d`. `DefaultDayIsYesterday` states it. |
| Archive.DefaultDayIsYesterday | archive.py:56 | The default day has eight digits, parses to the day before now and lies before now. It is absent exactly where Python overflows. |
| Archive.RunSpec | archive.py:42-76 | `main` on values: `click`'s checks, then `mkdir`, then `archive_day`. `RunSteps` states its behaviour. |
| Archive.RunSteps | archive.py:72-76 | `main` refuses a missing data directory and a file at the archive path, changing nothing. It fails without change when a file lies on the archive path. Otherwise it runs `archive_day` with the archive directory and its ancestors present. |
| Archive.PreparedArchiveDir | archive.py:75 | After `mkdir`, the archive directory exists, a second `mkdir` changes nothing, and an artifact can be opened unless a directory is at its path. |
| Archive.DayArchiver.constructor | archive.py:72-74 | Starts from a consistent tree with an empty effect trace. |
| Archive.DayArchiver.AddEntries | archive.py:16-17 | The loop over the listed files: the open artifact ends up holding one entry per listed file, in order, and no other file changes. |
| Archive.DayArchiver.WriteArtifact | archive.py:14-28 | Opens the output (or reports the `open` error) and streams the bucket into it. The new state and result are those of `WriteDay`, and the tree stays consistent. |
| Archive.DayArchiver.ZipDay | archive.py:14-17 | `zip_day` in place: the new state and result are those of `WriteDay` for the zip format. |
| Archive.DayArchiver.TarZstDay | archive.py:20-28 | `tarzst_day` in place: the new state and result are those of `WriteDay` for the tar.zst format. |
| Archive.DayArchiver.ArchiveDay | archive.py:31-38 | `archive_day` in place: the new state and result are those of `ArchiveDaySpec`. |
| Archive.DayArchiver.Run | archive.py:72-76 | `main` in place: the new state and result are those of `RunSpec`. |

## Left out

- The broker connection, TLS, credentials, `basic_consume`/`start_consuming` and shutdown (`main` of `rib-receiver.py`): network I/O and a library event loop.
- `dotenv` and `os.getenv`: the data directory is a constructor parameter, and the other settings are not used by the core.
- `datetime.now()` and `int(now.timestamp() * 1000000)`: clock and floating point. The arrival day and the integer microseconds are independent inputs of `OnMessage`, so the model does not tie the two to one instant.
- `bytes.decode` and `json.loads`: an oracle input `Option<Meta>`. `None` stands for a bad encoding, invalid JSON or a missing `meta` object. Each present key carries its JSON value, with the `str()` text of a number, dict or list given rather than computed. Decoding never affects what is written, since the raw bytes are stored.
- The exceptions raised by `on_message` end the consumer process. The model returns them as `Failure` results carrying a `HandlerError`; the process crash and redelivery on restart are not modelled.
- Deflate, zstd level 14 and the zip/tar byte formats: an artifact is an ordered entry list inside an opaque blob.
- `tqdm`, the padding and printing of the log line (only its `TypeError` is modelled; a `bool` is printed as an integer, which the model's `str` texts do not show), and `click` parsing. Only `click`'s checks on `--data-dir` and `--archive-dir` (exists as a directory, not a file) are modelled.
- `click`'s readable/writable permission checks, permissions in general, and `--data-dir` or `--archive-dir` left unset (`Path(None)` raises `TypeError`): the filesystem model has no permissions, and both directories are given paths.
- Write errors after a successful `open` (disk full, I/O error), and a read error while packing: every write succeeds once the file is open.
- Directories whose names match `*.json`: the glob is modelled over regular files only.
- Archive.ArtifactPath: a `--day` containing `/` stays inside one artifact name, where pathlib would split `"{}.zip".format(day)` at the slash too.
- Archive.DayPath: a `..` in `--day` is kept as a literal component, where the operating system steps up one directory.
- Archive.EntryName: configured paths are component lists whose `.` and `..` components are kept literally, so a zip entry name does not go through the `os.path.normpath` that `zipfile` applies.
- Dates.Format: years below 1000 are written with four zero-padded digits, while the platform's `strftime("%Y")` may write fewer.
- Receiver.DeliverAcksIffStored: the model has no length limits. A name component over the filesystem's limit (255 bytes on common Linux filesystems) or an over-long path makes `open` raise `ENAMETOOLONG` in the program, while the model stores and acks such a message.
- Receiver.DeliverAcksIffStored: a `..` component of a sequence or id is kept as a literal name, where the operating system would step up one directory.
- Texts are sequences of Unicode scalar values, so a lone surrogate cannot be expressed. Python makes one from a JSON escape such as `\ud800` in `sequence` or `id`, where `open` then raises `UnicodeEncodeError` before the write and the ack, and from a bucket file name that is not valid UTF-8. Such texts and names are not modelled.
- Concurrent runs of the receiver and the archiver: each operation is one atomic step on the shared state.
