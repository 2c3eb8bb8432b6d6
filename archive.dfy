/**
 * `archive.py`: pack the `*.json` files of one day bucket, in sorted
 * order, into `<archive>/<day>.zip` and/or `<archive>/<day>.tar.zst`.
 */
module Archive {
  import opened Wrappers
  import opened FileSystem
  import opened Order
  import Dates
  import Decimal

  datatype ArchiveFormat = Zip | TarZst

  function Extension(f: ArchiveFormat): string {
    match f
    case Zip => ".zip"
    case TarZst => ".tar.zst"
  }

  /** `archive_path / "{}.zip".format(day)` or `... / "{}.tar.zst".format(day)`. */
  function ArtifactPath(archive: Path, day: string, f: ArchiveFormat): Path {
    archive + [day + Extension(f)]
  }

  /** An artifact is never one of the `*.json` files it packs. */
  lemma ArtifactIsNotJson(archive: Path, day: string, f: ArchiveFormat)
    ensures var p := ArtifactPath(archive, day, f);
            p != [] && Parent(p) == archive && BaseName(p) == day + Extension(f) && !IsJsonName(BaseName(p))
  {
    var n := day + Extension(f);
    assert n[|n| - 1] == (if f == Zip then 'p' else 't');
    assert Parent(ArtifactPath(archive, day, f)) == archive;
  }

  /**
   * The entry name of file `n` of `dir`: zip keeps the whole path passed to
   * `zf.write` (without the leading `/`, which `zipfile` strips), tar uses
   * `arcname=p.name`.
   */
  function EntryName(f: ArchiveFormat, dir: Path, n: Name): string {
    match f
    case Zip => JoinPath(dir + [n])
    case TarZst => n
  }

  /** `sorted(in_path.glob("*.json"))`, as names within `dir`. */
  function Listing(files: Files, dir: Path): seq<Name> {
    SortedNames(JsonNames(files, dir))
  }

  /** Every listed name is a file of `dir`. */
  lemma ListingInFiles(files: Files, dir: Path)
    ensures forall i :: 0 <= i < |Listing(files, dir)| ==> dir + [Listing(files, dir)[i]] in files
  {
    var names := Listing(files, dir);
    SortedNamesSpec(JsonNames(files, dir));
    forall i | 0 <= i < |names| ensures dir + [names[i]] in files {
      JsonNamesMember(files, dir, names[i]);
    }
  }

  /** The entries written for `names`, in order. */
  function EntriesOf(f: ArchiveFormat, files: Files, dir: Path, names: seq<Name>): (es: seq<Entry>)
    requires forall i :: 0 <= i < |names| ==> dir + [names[i]] in files
    ensures |es| == |names|
  {
    if names == [] then []
    else
      var n := names[|names| - 1];
      EntriesOf(f, files, dir, names[..|names| - 1]) + [Entry(EntryName(f, dir, n), files[dir + [n]])]
  }

  /** The entries of one writer run over bucket `dir`. */
  function DayEntries(f: ArchiveFormat, files: Files, dir: Path): seq<Entry> {
    ListingInFiles(files, dir);
    EntriesOf(f, files, dir, Listing(files, dir))
  }

  function Artifact(f: ArchiveFormat, entries: seq<Entry>): Blob {
    match f
    case Zip => ZipArchive(entries)
    case TarZst => TarZstArchive(entries)
  }

  datatype Store = Store(files: Files, dirs: set<Path>, effects: seq<Effect>)

  datatype Outcome = Outcome(store: Store, result: Result<(), OsError>)

  /** The writer never reads its own output: it is not a `*.json` file of the bucket. */
  predicate OutsideInput(inPath: Path, outPath: Path) {
    outPath != [] && (Parent(outPath) != inPath || !IsJsonName(BaseName(outPath)))
  }

  /**
   * `zip_day` / `tarzst_day`: open the output (creating or truncating it),
   * then pack the sorted `*.json` files of `inPath` into it.
   */
  function WriteDay(s: Store, f: ArchiveFormat, inPath: Path, outPath: Path): Outcome {
    match OpenForWriting(s.files, s.dirs, outPath)
    case Some(e) => Outcome(s, Failure(e))
    case None =>
      Outcome(Store(s.files[outPath := Artifact(f, DayEntries(f, s.files, inPath))], s.dirs, s.effects + [Wrote(outPath)]),
              Success(()))
  }

  /**
   * `data_path / day`: pathlib splits the day text at `/` and drops empty
   * and `.` parts, so `--day .` names the data directory itself; a day
   * starting with `/` is absolute and replaces the data directory.
   */
  function DayPath(dataPath: Path, day: string): Path {
    DayBase(dataPath, day) + Components(day)
  }

  /** What `day` is joined to: the root for an absolute day, else the data directory. */
  function DayBase(dataPath: Path, day: string): Path {
    if day != [] && day[0] == '/' then [] else dataPath
  }

  /** `archive_day`: the zip first when requested, then the tar.zst when requested. */
  function ArchiveDaySpec(s: Store, dataPath: Path, archivePath: Path, day: string, makeZip: bool, makeTarZst: bool): Outcome {
    var inPath := DayPath(dataPath, day);
    var afterZip := if makeZip then WriteDay(s, Zip, inPath, ArtifactPath(archivePath, day, Zip))
                    else Outcome(s, Success(()));
    if afterZip.result.Failure? || !makeTarZst then afterZip
    else WriteDay(afterZip.store, TarZst, inPath, ArtifactPath(archivePath, day, TarZst))
  }

  lemma {:induction false} EntriesOfAt(f: ArchiveFormat, files: Files, dir: Path, names: seq<Name>, i: nat)
    requires forall k :: 0 <= k < |names| ==> dir + [names[k]] in files
    requires i < |names|
    ensures EntriesOf(f, files, dir, names)[i] == Entry(EntryName(f, dir, names[i]), files[dir + [names[i]]])
    decreases |names|
  {
    if i < |names| - 1 {
      EntriesOfAt(f, files, dir, names[..|names| - 1], i);
    }
  }

  /**
   * Each writer emits one entry per `*.json` file of the bucket and no
   * other, in ascending name order, with that file's contents; tar names
   * the entry by the file's base name.
   */
  lemma TarEntriesAreBucketFiles(files: Files, dir: Path)
    ensures var es := DayEntries(TarZst, files, dir);
            var names := Listing(files, dir);
            && |es| == |JsonNames(files, dir)|
            && StrictlySorted(names)
            && (forall n :: n in names <==> dir + [n] in files && IsJsonName(n))
            && (forall i :: 0 <= i < |es| ==> es[i] == Entry(names[i], files[dir + [names[i]]]))
  {
    var names := Listing(files, dir);
    SortedNamesSpec(JsonNames(files, dir));
    ListingInFiles(files, dir);
    forall n ensures n in names <==> dir + [n] in files && IsJsonName(n) {
      JsonNamesMember(files, dir, n);
    }
    forall i | 0 <= i < |names| ensures DayEntries(TarZst, files, dir)[i] == Entry(names[i], files[dir + [names[i]]]) {
      EntriesOfAt(TarZst, files, dir, names, i);
    }
  }

  /** The zip holds the same files in the same order, named by their full path. */
  lemma ZipMatchesTar(files: Files, dir: Path)
    ensures var z := DayEntries(Zip, files, dir);
            var t := DayEntries(TarZst, files, dir);
            && |z| == |t|
            && (forall i :: 0 <= i < |z| ==> z[i].content == t[i].content && z[i].name == JoinPath(dir + [t[i].name]))
  {
    var names := Listing(files, dir);
    ListingInFiles(files, dir);
    forall i | 0 <= i < |names|
      ensures DayEntries(Zip, files, dir)[i].content == DayEntries(TarZst, files, dir)[i].content
      ensures DayEntries(Zip, files, dir)[i].name == JoinPath(dir + [DayEntries(TarZst, files, dir)[i].name])
    {
      EntriesOfAt(Zip, files, dir, names, i);
      EntriesOfAt(TarZst, files, dir, names, i);
    }
  }

  lemma EntriesOfSnoc(f: ArchiveFormat, files: Files, dir: Path, names: seq<Name>, i: nat)
    requires forall k :: 0 <= k < |names| ==> dir + [names[k]] in files
    requires i < |names|
    ensures EntriesOf(f, files, dir, names[..i + 1])
            == EntriesOf(f, files, dir, names[..i]) + [Entry(EntryName(f, dir, names[i]), files[dir + [names[i]]])]
  {
    assert names[..i + 1][..i] == names[..i];
  }

  /** The `i`-th listed file is not the artifact being written. */
  lemma ListedIsNotArtifact(files: Files, dir: Path, out: Path, i: nat)
    requires OutsideInput(dir, out) && i < |Listing(files, dir)|
    ensures dir + [Listing(files, dir)[i]] != out
  {
    var n := Listing(files, dir)[i];
    SortedNamesSpec(JsonNames(files, dir));
    assert n in JsonNames(files, dir);
    JsonNamesMember(files, dir, n);
  }

  /** Every listed name is a file of `dir` other than the artifact `out`. */
  predicate Packable(files: Files, dir: Path, out: Path, names: seq<Name>) {
    forall k :: 0 <= k < |names| ==> dir + [names[k]] in files && dir + [names[k]] != out
  }

  /**
   * Creating the output leaves the listing a writer iterates over as it
   * was, and none of the listed files is the output.
   */
  lemma OpenedListing(files: Files, f: ArchiveFormat, inPath: Path, outPath: Path)
    requires OutsideInput(inPath, outPath)
    ensures Listing(files[outPath := Artifact(f, [])], inPath) == Listing(files, inPath)
    ensures Packable(files, inPath, outPath, Listing(files, inPath))
  {
    ListingUnchanged(files, inPath, outPath, Artifact(f, []));
    ListingInFiles(files, inPath);
    var names := Listing(files, inPath);
    forall k | 0 <= k < |names| ensures inPath + [names[k]] != outPath {
      ListedIsNotArtifact(files, inPath, outPath, k);
    }
  }

  /** A writer run that opens its output stores the bucket's entries there and keeps the tree consistent. */
  lemma WriteDayStore(s: Store, f: ArchiveFormat, inPath: Path, outPath: Path)
    requires WellFormed(s.files, s.dirs) && OpenForWriting(s.files, s.dirs, outPath).None?
    ensures var written := s.files[outPath := Artifact(f, DayEntries(f, s.files, inPath))];
            && WriteDay(s, f, inPath, outPath).store == Store(written, s.dirs, s.effects + [Wrote(outPath)])
            && WellFormed(written, s.dirs)
  {
    WriteWellFormed(s.files, s.dirs, outPath, Artifact(f, DayEntries(f, s.files, inPath)));
  }

  /** A zip entry name ends with the file's own name, below its directory. */
  lemma ZipNameKeepsDirectory(dir: Path, n: Name)
    requires dir != []
    ensures EntryName(Zip, dir, n) == JoinPath(dir) + "/" + n
  {
    assert (dir + [n])[..|dir|] == dir;
  }

  /** Writing a file that is not one of the bucket's `*.json` files leaves the listing as it was. */
  lemma ListingUnchanged(files: Files, dir: Path, out: Path, b: Blob)
    requires OutsideInput(dir, out)
    ensures Listing(files[out := b], dir) == Listing(files, dir)
  {
    var files' := files[out := b];
    forall n ensures n in JsonNames(files', dir) <==> n in JsonNames(files, dir) {
      JsonNamesMember(files, dir, n);
      JsonNamesMember(files', dir, n);
    }
    assert JsonNames(files', dir) == JsonNames(files, dir);
  }

  /** ... and so leaves the writers' entries for the bucket as they were. */
  lemma DayEntriesUnchanged(f: ArchiveFormat, files: Files, dir: Path, out: Path, b: Blob)
    requires OutsideInput(dir, out)
    ensures DayEntries(f, files[out := b], dir) == DayEntries(f, files, dir)
  {
    ListingUnchanged(files, dir, out, b);
    SortedNamesSpec(JsonNames(files, dir));
    ListingInFiles(files, dir);
    var names := Listing(files, dir);
    forall i | 0 <= i < |names| ensures dir + [names[i]] != out {
      assert names[i] in JsonNames(files, dir);
      JsonNamesMember(files, dir, names[i]);
    }
    EntriesUnchanged(f, files, dir, out, b, names);
  }

  lemma {:induction false} EntriesUnchanged(f: ArchiveFormat, files: Files, dir: Path, out: Path, b: Blob, names: seq<Name>)
    requires forall i :: 0 <= i < |names| ==> dir + [names[i]] in files && dir + [names[i]] != out
    ensures EntriesOf(f, files[out := b], dir, names) == EntriesOf(f, files, dir, names)
    decreases |names|
  {
    if names != [] {
      EntriesUnchanged(f, files, dir, out, b, names[..|names| - 1]);
    }
  }

  /**
   * What `archive_day` reports and which effects it has, in order: the zip
   * is attempted first when requested and a failure there stops it; the
   * tar.zst is attempted next when requested. No directory is created.
   * With both flags off nothing happens.
   */
  lemma ArchiveDayEffects(s: Store, dataPath: Path, archivePath: Path, day: string, makeZip: bool, makeTarZst: bool)
    ensures var o := ArchiveDaySpec(s, dataPath, archivePath, day, makeZip, makeTarZst);
            var zipPath := ArtifactPath(archivePath, day, Zip);
            var tarPath := ArtifactPath(archivePath, day, TarZst);
            var zipErr := if makeZip then OpenForWriting(s.files, s.dirs, zipPath) else None;
            var tarErr := if makeTarZst then OpenForWriting(s.files, s.dirs, tarPath) else None;
            var zipDone := makeZip && zipErr.None?;
            var tarDone := makeTarZst && zipErr.None? && tarErr.None?;
            && o.result == (if zipErr.Some? then Failure(zipErr.value) else if tarErr.Some? then Failure(tarErr.value) else Success(()))
            && o.store.dirs == s.dirs
            && o.store.effects == s.effects + (if zipDone then [Wrote(zipPath)] else []) + (if tarDone then [Wrote(tarPath)] else [])
            && (!makeZip && !makeTarZst ==> o == Outcome(s, Success(())))
  {
    var inPath := DayPath(dataPath, day);
    var zipPath := ArtifactPath(archivePath, day, Zip);
    var tarPath := ArtifactPath(archivePath, day, TarZst);
    WriteDayShape(s, Zip, inPath, zipPath);
    var afterZip := if makeZip then WriteDay(s, Zip, inPath, zipPath) else Outcome(s, Success(()));
    if makeZip && OpenForWriting(s.files, s.dirs, zipPath).None? {
      var b := Artifact(Zip, DayEntries(Zip, s.files, inPath));
      assert afterZip.store.files == s.files[zipPath := b];
      OpenAfterWrite(s.files, s.dirs, tarPath, zipPath, b);
    }
    WriteDayShape(afterZip.store, TarZst, inPath, tarPath);
  }

  /** What a writer run reports and which effect it has, apart from the artifact's contents. */
  lemma WriteDayShape(s: Store, f: ArchiveFormat, inPath: Path, outPath: Path)
    ensures var o := WriteDay(s, f, inPath, outPath);
            var e := OpenForWriting(s.files, s.dirs, outPath);
            && o.result == (if e.Some? then Failure(e.value) else Success(()))
            && o.store.dirs == s.dirs
            && o.store.effects == s.effects + (if e.None? then [Wrote(outPath)] else [])
            && (e.Some? ==> o.store == s)
  {
  }

  lemma ArtifactsDiffer(archive: Path, day: string)
    ensures ArtifactPath(archive, day, Zip) != ArtifactPath(archive, day, TarZst)
    ensures Parent(ArtifactPath(archive, day, TarZst)) != ArtifactPath(archive, day, Zip)
  {
    var z, t := ArtifactPath(archive, day, Zip), ArtifactPath(archive, day, TarZst);
    assert BaseName(z)[|day| + 1] == 'z' && BaseName(t)[|day| + 1] == 't';
    assert Parent(t) == archive;
  }

  /**
   * The files after `archive_day`: the zip, then the tar.zst, each written
   * (replacing whatever was there) exactly when requested and reached and
   * its path can be opened, and both packed from the same bucket contents
   * as they were before the call; every other path keeps its contents.
   */
  lemma ArchiveDayFiles(s: Store, dataPath: Path, archivePath: Path, day: string, makeZip: bool, makeTarZst: bool)
    ensures var o := ArchiveDaySpec(s, dataPath, archivePath, day, makeZip, makeTarZst);
            var inPath := DayPath(dataPath, day);
            var zipPath := ArtifactPath(archivePath, day, Zip);
            var tarPath := ArtifactPath(archivePath, day, TarZst);
            var zipErr := if makeZip then OpenForWriting(s.files, s.dirs, zipPath) else None;
            var tarErr := if makeTarZst then OpenForWriting(s.files, s.dirs, tarPath) else None;
            var afterZip := if makeZip && zipErr.None?
                            then s.files[zipPath := ZipArchive(DayEntries(Zip, s.files, inPath))] else s.files;
            o.store.files == if makeTarZst && zipErr.None? && tarErr.None?
                             then afterZip[tarPath := TarZstArchive(DayEntries(TarZst, s.files, inPath))] else afterZip
  {
    var inPath := DayPath(dataPath, day);
    var zipPath := ArtifactPath(archivePath, day, Zip);
    var tarPath := ArtifactPath(archivePath, day, TarZst);
    ArtifactIsNotJson(archivePath, day, Zip);
    ArtifactsDiffer(archivePath, day);
    if makeZip && makeTarZst && OpenForWriting(s.files, s.dirs, zipPath).None? {
      var z := WriteDay(s, Zip, inPath, zipPath).store;
      DayEntriesUnchanged(TarZst, s.files, inPath, zipPath, z.files[zipPath]);
      OpenAfterWrite(s.files, s.dirs, tarPath, zipPath, z.files[zipPath]);
    }
  }

  /**
   * There is no skip: running `archive_day` again on its own result
   * writes each requested artifact again, with the same contents.
   */
  lemma ArchiveDayRepeatable(s: Store, dataPath: Path, archivePath: Path, day: string, makeZip: bool, makeTarZst: bool)
    ensures var once := ArchiveDaySpec(s, dataPath, archivePath, day, makeZip, makeTarZst);
            var twice := ArchiveDaySpec(once.store, dataPath, archivePath, day, makeZip, makeTarZst);
            once.result.Success? ==>
              && twice.result.Success? && twice.store.files == once.store.files
              && twice.store.effects == once.store.effects
                                        + (if makeZip then [Wrote(ArtifactPath(archivePath, day, Zip))] else [])
                                        + (if makeTarZst then [Wrote(ArtifactPath(archivePath, day, TarZst))] else [])
  {
    var once := ArchiveDaySpec(s, dataPath, archivePath, day, makeZip, makeTarZst);
    if once.result.Success? {
      ArchiveDayLeavesArtifacts(s, dataPath, archivePath, day, makeZip, makeTarZst);
      ArchiveDayOverArtifacts(once.store, dataPath, archivePath, day, makeZip, makeTarZst);
    }
  }

  /** `outPath` can be opened and already holds the entries a writer would put there. */
  predicate HoldsArtifact(files: Files, dirs: set<Path>, f: ArchiveFormat, inPath: Path, outPath: Path) {
    && OpenForWriting(files, dirs, outPath).None?
    && outPath in files
    && files[outPath] == Artifact(f, DayEntries(f, files, inPath))
  }

  /** A writer run over an output that already holds its entries only records the write. */
  lemma WriteDayOverArtifact(t: Store, f: ArchiveFormat, inPath: Path, outPath: Path)
    requires HoldsArtifact(t.files, t.dirs, f, inPath, outPath)
    ensures WriteDay(t, f, inPath, outPath) == Outcome(Store(t.files, t.dirs, t.effects + [Wrote(outPath)]), Success(()))
  {
    assert t.files[outPath := t.files[outPath]] == t.files;
  }

  /** A successful `archive_day` leaves each requested artifact matching the bucket. */
  lemma ArchiveDayLeavesArtifacts(s: Store, dataPath: Path, archivePath: Path, day: string, makeZip: bool, makeTarZst: bool)
    requires ArchiveDaySpec(s, dataPath, archivePath, day, makeZip, makeTarZst).result.Success?
    ensures var t := ArchiveDaySpec(s, dataPath, archivePath, day, makeZip, makeTarZst).store;
            var inPath := DayPath(dataPath, day);
            && (makeZip ==> HoldsArtifact(t.files, t.dirs, Zip, inPath, ArtifactPath(archivePath, day, Zip)))
            && (makeTarZst ==> HoldsArtifact(t.files, t.dirs, TarZst, inPath, ArtifactPath(archivePath, day, TarZst)))
  {
    var inPath := DayPath(dataPath, day);
    var zipPath := ArtifactPath(archivePath, day, Zip);
    var tarPath := ArtifactPath(archivePath, day, TarZst);
    ArtifactIsNotJson(archivePath, day, Zip);
    ArtifactIsNotJson(archivePath, day, TarZst);
    ArtifactsDiffer(archivePath, day);
    var z1 := if makeZip then WriteDay(s, Zip, inPath, zipPath) else Outcome(s, Success(()));
    if makeZip {
      WriteDayKeepsBucket(s, Zip, inPath, zipPath);
    }
    if makeTarZst {
      WriteDayKeepsBucket(z1.store, TarZst, inPath, tarPath);
    }
  }

  /**
   * Over artifacts that already match the bucket, `archive_day` succeeds,
   * changes no file, and still writes each requested artifact.
   */
  lemma ArchiveDayOverArtifacts(t: Store, dataPath: Path, archivePath: Path, day: string, makeZip: bool, makeTarZst: bool)
    requires makeZip ==> HoldsArtifact(t.files, t.dirs, Zip, DayPath(dataPath, day), ArtifactPath(archivePath, day, Zip))
    requires makeTarZst ==> HoldsArtifact(t.files, t.dirs, TarZst, DayPath(dataPath, day), ArtifactPath(archivePath, day, TarZst))
    ensures ArchiveDaySpec(t, dataPath, archivePath, day, makeZip, makeTarZst).result.Success?
    ensures ArchiveDaySpec(t, dataPath, archivePath, day, makeZip, makeTarZst).store.files == t.files
    ensures ArchiveDaySpec(t, dataPath, archivePath, day, makeZip, makeTarZst).store.effects
            == t.effects + (if makeZip then [Wrote(ArtifactPath(archivePath, day, Zip))] else [])
                         + (if makeTarZst then [Wrote(ArtifactPath(archivePath, day, TarZst))] else [])
  {
    var inPath := DayPath(dataPath, day);
    var zipPath := ArtifactPath(archivePath, day, Zip);
    var tarPath := ArtifactPath(archivePath, day, TarZst);
    var z := if makeZip then WriteDay(t, Zip, inPath, zipPath) else Outcome(t, Success(()));
    if makeZip {
      WriteDayOverArtifact(t, Zip, inPath, zipPath);
    }
    if makeTarZst {
      WriteDayOverArtifact(z.store, TarZst, inPath, tarPath);
    }
  }

  /**
   * A writer run leaves the directories and the bucket's entries as they
   * were, changes no file but its output, and on success leaves the
   * bucket's entries in the output.
   */
  lemma WriteDayKeepsBucket(s: Store, f: ArchiveFormat, inPath: Path, outPath: Path)
    requires OutsideInput(inPath, outPath)
    ensures var o := WriteDay(s, f, inPath, outPath);
            && o.store.dirs == s.dirs
            && (forall g: ArchiveFormat :: DayEntries(g, o.store.files, inPath) == DayEntries(g, s.files, inPath))
            && (forall p :: p != outPath && p in s.files ==> p in o.store.files && o.store.files[p] == s.files[p])
            && (o.result.Success? ==> outPath in o.store.files && o.store.files[outPath] == Artifact(f, DayEntries(f, s.files, inPath)))
  {
    if OpenForWriting(s.files, s.dirs, outPath).None? {
      var b := Artifact(f, DayEntries(f, s.files, inPath));
      forall g: ArchiveFormat ensures DayEntries(g, s.files[outPath := b], inPath) == DayEntries(g, s.files, inPath) {
        DayEntriesUnchanged(g, s.files, inPath, outPath, b);
      }
    }
  }

  /** `(datetime.now() - timedelta(days=1)).strftime("%Y%m%d")`; `None` where Python overflows. */
  function DefaultDay(now: Dates.Date): Option<string>
    requires Dates.Valid(now)
  {
    match Dates.Predecessor(now)
    case None => None
    case Some(yesterday) => Some(Dates.Format(yesterday))
  }

  /** The default day is yesterday's bucket name: eight digits naming the day before `now`. */
  lemma DefaultDayIsYesterday(now: Dates.Date)
    requires Dates.Valid(now)
    ensures DefaultDay(now).None? <==> now == Dates.First
    ensures DefaultDay(now).Some? ==>
              && |DefaultDay(now).value| == 8
              && Dates.Parse(DefaultDay(now).value) == Dates.Predecessor(now)
              && Dates.Before(Dates.Parse(DefaultDay(now).value).value, now)
  {
    if now != Dates.First {
      Dates.FormatRoundTrip(Dates.Predecessor(now).value);
    }
  }

  /**
   * The directory `--day` selects: a plain name is one component below the
   * data directory, `.` and the empty text select the data directory
   * itself, and `/` followed by a plain name selects that name below the
   * root, whatever the data directory.
   */
  lemma DayPathCases(dataPath: Path, day: string)
    ensures day != "" && day != "." && '/' !in day ==> DayPath(dataPath, day) == dataPath + [day]
    ensures day == "" || day == "." ==> DayPath(dataPath, day) == dataPath
    ensures |day| >= 2 && day[0] == '/' && day[1..] != "." && '/' !in day[1..] ==> DayPath(dataPath, day) == [day[1..]]
  {
    if |day| >= 2 && day[0] == '/' && day[1..] != "." && '/' !in day[1..] {
      AbsoluteDayPath(day);
    }
    if day != "" && day != "." && '/' !in day {
      ComponentsOfName(day);
    } else if day == "" || day == "." {
      ComponentsOfDot();
    }
  }

  /** The components of `/` followed by a plain name are that name alone. */
  lemma AbsoluteDayPath(day: string)
    requires |day| >= 2 && day[0] == '/' && day[1..] != "." && '/' !in day[1..]
    ensures Components(day) == [day[1..]]
  {
    var n := day[1..];
    assert day == "" + "/" + n by {
      assert day == [day[0]] + n;
    }
    SegmentsAtSlash("", n);
    SegmentsOfName(n);
    var parts := Segments(day);
    assert parts == ["", n];
    assert parts[..1] == [""];
    assert Kept([""]) == [] by {
      assert [""][..0] == [];
    }
  }

  /** The default day selects the bucket one component below the data directory. */
  lemma DefaultDayPath(now: Dates.Date, dataPath: Path)
    requires Dates.Valid(now) && DefaultDay(now).Some?
    ensures DayPath(dataPath, DefaultDay(now).value) == dataPath + [DefaultDay(now).value]
  {
    var day := DefaultDay(now).value;
    assert '/' !in day && day != "." && day[0] != '/' by {
      assert Decimal.AllDigits(day) && |day| == 8;
    }
    DayPathCases(dataPath, day);
  }

  /** Why `main` stops before archiving. */
  datatype RunError = BadParameter(option: string) | Os(error: OsError)

  /** What `main` reports: its own refusals, or the failure of an `OSError` it did not catch. */
  datatype RunOutcome = RunOutcome(store: Store, result: Result<(), RunError>)

  /**
   * `main`: `click` refuses an absent `--data-dir` and an `--archive-dir`
   * that is a file; then the archive directory is created with its parents
   * (no error if it exists) and `archive_day` runs.
   */
  function RunSpec(s: Store, dataDir: Path, archiveDir: Path, day: string, makeZip: bool, makeTarZst: bool): RunOutcome {
    if dataDir !in s.dirs then RunOutcome(s, Failure(BadParameter("--data-dir")))
    else if archiveDir in s.files then RunOutcome(s, Failure(BadParameter("--archive-dir")))
    else match MakeDirs(s.files, s.dirs, archiveDir, true)
      case Failure(e) => RunOutcome(s, Failure(Os(e)))
      case Success(made) =>
        var prepared := Store(s.files, made, s.effects + if archiveDir in s.dirs then [] else [MadeDirs(archiveDir)]);
        var o := ArchiveDaySpec(prepared, dataDir, archiveDir, day, makeZip, makeTarZst);
        RunOutcome(o.store, if o.result.Failure? then Failure(Os(o.result.error)) else Success(()))
  }

  /**
   * `main` refuses bad options without touching anything. Otherwise it
   * fails, again without change, exactly when a file sits along the
   * archive path; else `archive_day` runs with the archive directory and
   * all its ancestors present as directories.
   */
  lemma RunSteps(s: Store, dataDir: Path, archiveDir: Path, day: string, makeZip: bool, makeTarZst: bool)
    requires WellFormed(s.files, s.dirs)
    ensures var o := RunSpec(s, dataDir, archiveDir, day, makeZip, makeTarZst);
            && (dataDir !in s.dirs ==> o == RunOutcome(s, Failure(BadParameter("--data-dir"))))
            && (dataDir in s.dirs && archiveDir in s.files ==> o == RunOutcome(s, Failure(BadParameter("--archive-dir"))))
            && (dataDir in s.dirs && !NoFileOnPath(s.files, archiveDir) ==> o.store == s && o.result.Failure?)
            && (dataDir in s.dirs && NoFileOnPath(s.files, archiveDir) ==>
                  var prepared := Store(s.files, s.dirs + Ancestors(archiveDir),
                                        s.effects + if archiveDir in s.dirs then [] else [MadeDirs(archiveDir)]);
                  var a := ArchiveDaySpec(prepared, dataDir, archiveDir, day, makeZip, makeTarZst);
                  && WellFormed(prepared.files, prepared.dirs)
                  && archiveDir in prepared.dirs
                  && o.store == a.store
                  && (o.result.Success? <==> a.result.Success?))
  {
    MakeDirsSpec(s.files, s.dirs, archiveDir, true);
    assert archiveDir == archiveDir[..|archiveDir|];
  }

  /**
   * The filesystem as `archive.py` sees it. The writers stream entries
   * into the open artifact one file at a time.
   */
  class DayArchiver {
    var files: Files
    var dirs: set<Path>
    ghost var effects: seq<Effect>

    ghost function Snapshot(): Store
      reads this
    {
      Store(files, dirs, effects)
    }

    ghost predicate Valid()
      reads this
    {
      WellFormed(files, dirs)
    }

    constructor (files: Files, dirs: set<Path>)
      requires WellFormed(files, dirs)
      ensures Valid() && this.files == files && this.dirs == dirs && effects == []
    {
      this.files := files;
      this.dirs := dirs;
      effects := [];
    }

    /**
     * The loop shared by both writers: stream each listed `*.json` file of
     * `inPath` into the artifact open at `outPath`, one entry at a time.
     */
    method AddEntries(f: ArchiveFormat, inPath: Path, outPath: Path, names: seq<Name>, ghost files0: Files)
      requires Packable(files0, inPath, outPath, names)
      requires files == files0[outPath := Artifact(f, [])]
      modifies this`files
      ensures files == files0[outPath := Artifact(f, EntriesOf(f, files0, inPath, names))]
    {
      var entries: seq<Entry> := [];
      for i := 0 to |names|
        invariant files == files0[outPath := Artifact(f, entries)]
        invariant entries == EntriesOf(f, files0, inPath, names[..i])
      {
        var p := inPath + [names[i]];
        assert p in files0 && p != outPath;
        assert files[p] == files0[p];
        EntriesOfSnoc(f, files0, inPath, names, i);
        entries := entries + [Entry(EntryName(f, inPath, names[i]), files[p])];
        UpdateTwice(files0, outPath, files[outPath], Artifact(f, entries));
        files := files[outPath := Artifact(f, entries)];
      }
      assert names[..|names|] == names;
    }

    /**
     * The body shared by both writers: open the output (creating or
     * truncating it), then stream the sorted `*.json` files of `inPath`
     * into it.
     */
    method WriteArtifact(f: ArchiveFormat, inPath: Path, outPath: Path) returns (r: Result<(), OsError>)
      requires Valid() && OutsideInput(inPath, outPath)
      modifies this
      ensures Valid()
      ensures Snapshot() == WriteDay(old(Snapshot()), f, inPath, outPath).store
      ensures r == WriteDay(old(Snapshot()), f, inPath, outPath).result
    {
      var err := OpenForWriting(files, dirs, outPath);
      if err.Some? {
        return Failure(err.value);
      }
      ghost var s0 := Snapshot();
      OpenedListing(files, f, inPath, outPath);
      files := files[outPath := Artifact(f, [])];
      effects := effects + [Wrote(outPath)];
      var names := Listing(files, inPath);
      AddEntries(f, inPath, outPath, names, s0.files);
      WriteDayStore(s0, f, inPath, outPath);
      return Success(());
    }

    /** `zip_day(in_path, out_path)`. */
    method ZipDay(inPath: Path, outPath: Path) returns (r: Result<(), OsError>)
      requires Valid() && OutsideInput(inPath, outPath)
      modifies this
      ensures Valid()
      ensures Snapshot() == WriteDay(old(Snapshot()), Zip, inPath, outPath).store
      ensures r == WriteDay(old(Snapshot()), Zip, inPath, outPath).result
    {
      r := WriteArtifact(Zip, inPath, outPath);
    }

    /** `tarzst_day(in_path, out_path)`. */
    method TarZstDay(inPath: Path, outPath: Path) returns (r: Result<(), OsError>)
      requires Valid() && OutsideInput(inPath, outPath)
      modifies this
      ensures Valid()
      ensures Snapshot() == WriteDay(old(Snapshot()), TarZst, inPath, outPath).store
      ensures r == WriteDay(old(Snapshot()), TarZst, inPath, outPath).result
    {
      r := WriteArtifact(TarZst, inPath, outPath);
    }

    /** `archive_day(data_path, archive_path, day, make_zip, make_tar_zst)`. */
    method ArchiveDay(dataPath: Path, archivePath: Path, day: string, makeZip: bool, makeTarZst: bool)
      returns (r: Result<(), OsError>)
      requires Valid()
      modifies this
      ensures Valid()
      ensures Snapshot() == ArchiveDaySpec(old(Snapshot()), dataPath, archivePath, day, makeZip, makeTarZst).store
      ensures r == ArchiveDaySpec(old(Snapshot()), dataPath, archivePath, day, makeZip, makeTarZst).result
    {
      var inPath := DayPath(dataPath, day);
      ArtifactIsNotJson(archivePath, day, Zip);
      ArtifactIsNotJson(archivePath, day, TarZst);
      r := Success(());
      if makeZip {
        r := ZipDay(inPath, ArtifactPath(archivePath, day, Zip));
        if r.Failure? {
          return;
        }
      }
      if makeTarZst {
        r := TarZstDay(inPath, ArtifactPath(archivePath, day, TarZst));
      }
    }

    /**
     * `main`: the option checks `click` makes, then
     * `archive_path.mkdir(parents=True, exist_ok=True)`, then `archive_day`.
     */
    method Run(dataDir: Path, archiveDir: Path, day: string, makeZip: bool, makeTarZst: bool)
      returns (r: Result<(), RunError>)
      requires Valid()
      modifies this
      ensures Valid()
      ensures Snapshot() == RunSpec(old(Snapshot()), dataDir, archiveDir, day, makeZip, makeTarZst).store
      ensures r == RunSpec(old(Snapshot()), dataDir, archiveDir, day, makeZip, makeTarZst).result
    {
      if dataDir !in dirs {
        return Failure(BadParameter("--data-dir"));
      }
      if archiveDir in files {
        return Failure(BadParameter("--archive-dir"));
      }
      var made := MakeDirs(files, dirs, archiveDir, true);
      if made.Failure? {
        return Failure(Os(made.error));
      }
      MakeDirsSpec(files, dirs, archiveDir, true);
      ghost var s0 := Snapshot();
      if archiveDir !in dirs {
        effects := effects + [MadeDirs(archiveDir)];
      }
      dirs := made.value;
      ghost var prepared := Snapshot();
      assert prepared == Store(s0.files, made.value, s0.effects + if archiveDir in s0.dirs then [] else [MadeDirs(archiveDir)]);
      var a := ArchiveDay(dataDir, archiveDir, day, makeZip, makeTarZst);
      assert a == ArchiveDaySpec(prepared, dataDir, archiveDir, day, makeZip, makeTarZst).result;
      if a.Failure? {
        return Failure(Os(a.error));
      }
      return Success(());
    }
  }

  /**
   * Once `main` has created the archive directory, the artifacts can
   * always be opened unless a directory sits at their path; creating the
   * archive directory again changes nothing.
   */
  lemma PreparedArchiveDir(files: Files, dirs: set<Path>, archiveDir: Path, day: string, f: ArchiveFormat)
    requires WellFormed(files, dirs) && MakeDirs(files, dirs, archiveDir, true).Success?
    ensures var made := MakeDirs(files, dirs, archiveDir, true).value;
            && archiveDir in made
            && MakeDirs(files, made, archiveDir, true) == Success(made)
            && (OpenForWriting(files, made, ArtifactPath(archiveDir, day, f)).None? <==> ArtifactPath(archiveDir, day, f) !in made)
  {
    MakeDirsSpec(files, dirs, archiveDir, true);
    MakeDirsIdempotent(files, dirs, archiveDir);
    assert archiveDir == archiveDir[..|archiveDir|];
    assert Parent(ArtifactPath(archiveDir, day, f)) == archiveDir;
  }
}
