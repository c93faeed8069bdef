/** The stored uploads: the rows, the files on the volume, and exactly when writing and
    deleting keep the two in step. */
module UploadStore {
  import opened Prelude
  import opened Validity
  import opened Text
  import opened MediaRoot

  /** One stored file and the place its name leads to. */
  datatype FileRow = FileRow(upload: nat, file: Place)

  datatype StoredFile = StoredFile(name: string, content: Bytes)

  /** What a caller asks to be stored. */
  datatype Request = Request(
    dropzone: nat, uploadedBy: Option<nat>, validFrom: Option<int>, validUntil: Option<int>, sha256: string)

  function DirectoryOf(root: Place, u: Upload): Place {
    Target(root, u.directory)
  }

  ghost predicate PathsDistinct(files: seq<FileRow>) {
    Pairwise(files, (f: FileRow, g: FileRow) => f.file != g.file)
  }

  ghost function Paths(files: seq<FileRow>): set<Place> {
    set f | f in files :: f.file
  }

  /** Rows and files correspond one to one. */
  ghost predicate OneToOne(files: seq<FileRow>, volume: Volume) {
    PathsDistinct(files) && volume.Keys == Paths(files)
  }

  /** The files on the volume that have no row. */
  ghost function Stray(files: seq<FileRow>, volume: Volume): set<Place> {
    volume.Keys - Paths(files)
  }

  /** The rows' files that are no longer there. */
  ghost function Lost(files: seq<FileRow>, volume: Volume): set<Place> {
    Paths(files) - volume.Keys
  }

  /** Rows of increasing primary key, each with a directory of its own below the root. */
  ghost predicate RowsOrdered(root: Place, uploads: seq<Upload>) {
    && Pairwise(uploads, (u: Upload, v: Upload) => u.pk < v.pk && Apart(DirectoryOf(root, u), DirectoryOf(root, v)))
    && forall u | u in uploads :: Removable(root, u.directory)
  }

  /** Every file row belongs to an upload row and lies in its directory. */
  ghost predicate FilesOwned(root: Place, files: seq<FileRow>, uploads: seq<Upload>) {
    forall f | f in files :: exists u :: u in uploads && u.pk == f.upload && DirectoryOf(root, u) < f.file
  }

  /** Files without a row lie outside the directories of the uploads. */
  ghost predicate StraysOutside(root: Place, files: seq<FileRow>, uploads: seq<Upload>, volume: Volume) {
    forall p, u | p in Stray(files, volume) && u in uploads :: !(DirectoryOf(root, u) < p)
  }

  /** Every upload and every file is in a directory handed out before. */
  ghost predicate InUsed(root: Place, uploads: seq<Upload>, volume: Volume, used: set<string>) {
    && (forall u | u in uploads :: u.directory in used)
    && (forall p | p in volume :: exists d :: d in used && Target(root, d) < p)
  }

  ghost predicate NamesDistinct(paths: seq<StoredFile>) {
    forall i, j | 0 <= i < j < |paths| :: paths[i].name != paths[j].name
  }

  function RowsFor(pk: nat, directory: Place, paths: seq<StoredFile>): seq<FileRow> {
    seq(|paths|, i requires 0 <= i < |paths| => FileRow(pk, directory + [paths[i].name]))
  }

  /** The files of an upload added to the volume. */
  function WithFiles(volume: Volume, directory: Place, paths: seq<StoredFile>): Volume {
    if paths == [] then volume
    else
      var last := paths[|paths| - 1];
      WithFiles(volume, directory, paths[..|paths| - 1])[directory + [last.name] := last.content]
  }

  /** A directory to store under: inside the root, apart from those in use, and empty. */
  ghost predicate DirectoryUnused(root: Place, volume: Volume, uploads: seq<Upload>, directory: string) {
    && Removable(root, directory)
    && (forall p | p in volume :: !(Target(root, directory) < p))
    && (forall u | u in uploads :: Apart(DirectoryOf(root, u), Target(root, directory)))
  }

  /** Two volumes agree on everything outside one directory. */
  ghost predicate SameOutside(a: Volume, b: Volume, directory: Place) {
    && (forall p | p in a && !(directory < p) :: p in b && b[p] == a[p])
    && (forall p | p in b && !(directory < p) :: p in a)
  }

  /** Removing the directory undoes whatever was written to it. */
  lemma RemovalUndoes(root: Place, before: Volume, after: Volume, directory: string)
    requires Removable(root, directory) && SameOutside(before, after, Target(root, directory))
    requires forall p | p in before :: !(Target(root, directory) < p)
    ensures WithoutDirectory(root, after, directory) == before
  {
    hide Target;
  }

  lemma {:induction false} WithFilesOutside(volume: Volume, directory: Place, paths: seq<StoredFile>)
    ensures SameOutside(volume, WithFiles(volume, directory, paths), directory)
  {
    if paths != [] { WithFilesOutside(volume, directory, paths[..|paths| - 1]); }
  }

  /** The volume gains exactly the files of the upload. */
  lemma {:induction false} WithFilesKeys(volume: Volume, pk: nat, directory: Place, paths: seq<StoredFile>)
    ensures WithFiles(volume, directory, paths).Keys == volume.Keys + Paths(RowsFor(pk, directory, paths))
  {
    var rows := RowsFor(pk, directory, paths);
    if paths != [] {
      var before := paths[..|paths| - 1];
      WithFilesKeys(volume, pk, directory, before);
      var last := FileRow(pk, directory + [paths[|paths| - 1].name]);
      assert rows == RowsFor(pk, directory, before) + [last];
      assert Paths(rows) == Paths(RowsFor(pk, directory, before)) + {last.file};
    }
  }

  lemma NamesApart(directory: Place, a: string, b: string)
    ensures directory + [a] == directory + [b] <==> a == b
    ensures directory < directory + [a]
  {
    assert (directory + [a])[|directory|] == a && (directory + [b])[|directory|] == b;
  }

  /** Each stored file holds its own content. */
  lemma {:induction false} WithFilesContent(volume: Volume, directory: Place, paths: seq<StoredFile>, i: nat)
    requires NamesDistinct(paths) && i < |paths|
    ensures directory + [paths[i].name] in WithFiles(volume, directory, paths)
    ensures WithFiles(volume, directory, paths)[directory + [paths[i].name]] == paths[i].content
  {
    var before := paths[..|paths| - 1];
    if i < |before| {
      WithFilesContent(volume, directory, before, i);
      NamesApart(directory, paths[i].name, paths[|paths| - 1].name);
    }
  }

  lemma RowsForDistinct(pk: nat, directory: Place, paths: seq<StoredFile>)
    requires NamesDistinct(paths)
    ensures PathsDistinct(RowsFor(pk, directory, paths))
    ensures forall f | f in RowsFor(pk, directory, paths) :: f.upload == pk && directory < f.file
  {
    var rows := RowsFor(pk, directory, paths);
    forall i, j | 0 <= i < j < |rows| ensures rows[i].file != rows[j].file {
      NamesApart(directory, paths[i].name, paths[j].name);
    }
  }

  /** Storing an upload loses and recovers no file and leaves none without its row. */
  lemma WithFilesInStep(root: Place, files: seq<FileRow>, uploads: seq<Upload>, volume: Volume, pk: nat,
                        directory: string, paths: seq<StoredFile>)
    requires PathsDistinct(files) && FilesOwned(root, files, uploads) && NamesDistinct(paths)
    requires DirectoryUnused(root, volume, uploads, directory)
    ensures var rows := RowsFor(pk, Target(root, directory), paths);
      var after := WithFiles(volume, Target(root, directory), paths);
      && PathsDistinct(files + rows) && Lost(files + rows, after) == Lost(files, volume)
      && Stray(files + rows, after) == Stray(files, volume)
  {
    hide Target, WithFiles, RowsFor;
    var target := Target(root, directory);
    var rows, after := RowsFor(pk, target, paths), WithFiles(volume, target, paths);
    WithFilesKeys(volume, pk, target, paths);
    RowsForDistinct(pk, target, paths);
    assert Paths(files + rows) == Paths(files) + Paths(rows);
    OutsideUnused(root, files, uploads, volume, directory);
    forall i, j | 0 <= i < j < |files + rows| ensures (files + rows)[i].file != (files + rows)[j].file {
      if i < |files| <= j { assert files[i] in files && rows[j - |files|] in rows; }
    }
  }

  /** No row names a file of an unused directory. */
  lemma OutsideUnused(root: Place, files: seq<FileRow>, uploads: seq<Upload>, volume: Volume, directory: string)
    requires FilesOwned(root, files, uploads) && DirectoryUnused(root, volume, uploads, directory)
    ensures forall f | f in files :: !(Target(root, directory) < f.file)
  {
    hide Target;
    forall f | f in files ensures !(Target(root, directory) < f.file) {
      var u :| u in uploads && u.pk == f.upload && DirectoryOf(root, u) < f.file;
      InOneOnly(DirectoryOf(root, u), Target(root, directory), f.file);
    }
  }

  lemma InStepIff(files: seq<FileRow>, volume: Volume)
    ensures OneToOne(files, volume) <==> PathsDistinct(files) && Stray(files, volume) == {} && Lost(files, volume) == {}
  {
    if Stray(files, volume) == {} && Lost(files, volume) == {} {
      forall p ensures p in volume.Keys <==> p in Paths(files) {
        assert p !in Stray(files, volume) && p !in Lost(files, volume);
      }
    }
  }

  // ----- an upload that fails -----

  // The transaction creates the row (step 0), writes each file to the volume and inserts its
  // row (two steps a file), clips, and commits. `fault` is the step at which an exception is
  // raised, if any; a write that breaks off may leave some `partial` content. A rollback
  // restores the rows. Whether anything restores the volume depends on the exception being
  // `caught`, that is, being one the cleanup is written for.

  predicate UploadCommits(files: nat, fault: Option<nat>) {
    fault.None? || fault.value > 2 * files + 2
  }

  /** What has been written to the volume by then. */
  function Written(paths: seq<StoredFile>, fault: Option<nat>, partial: Option<Bytes>): (written: seq<StoredFile>)
    ensures written == [] <==> paths == [] || fault == Some(0) || (fault == Some(1) && partial.None?)
    ensures NamesDistinct(paths) ==> NamesDistinct(written)
  {
    if fault.None? || fault.value > 2 * |paths| then paths
    else
      var i := fault.value / 2;
      if fault.value % 2 == 0 then paths[..i] else paths[..i] + Broken(paths[i].name, partial)
  }

  /** What a broken write leaves. */
  function Broken(name: string, partial: Option<Bytes>): seq<StoredFile> {
    if partial.Some? then [StoredFile(name, partial.value)] else []
  }

  function AfterUpload(root: Place, volume: Volume, directory: string, paths: seq<StoredFile>,
                       fault: Option<nat>, partial: Option<Bytes>, caught: bool): Volume {
    var after := WithFiles(volume, Target(root, directory), Written(paths, fault, partial));
    if UploadCommits(|paths|, fault) || !caught then after else WithoutDirectory(root, after, directory)
  }

  lemma WrittenBy(paths: seq<StoredFile>, fault: Option<nat>, partial: Option<Bytes>)
    ensures fault == Some(0) ==> Written(paths, fault, partial) == paths[..0]
    ensures fault.None? || fault.value > 2 * |paths| ==> Written(paths, fault, partial) == paths
    ensures forall i | 0 <= i < |paths| && fault == Some(2 * i + 1) ::
      Written(paths, fault, partial) == paths[..i] + Broken(paths[i].name, partial)
    ensures forall i | 0 <= i < |paths| && fault == Some(2 * i + 2) :: Written(paths, fault, partial) == paths[..i + 1]
  {
  }

  lemma NothingWritten(volume: Volume, pk: nat, directory: Place, paths: seq<StoredFile>)
    ensures WithFiles(volume, directory, paths[..0]) == volume && RowsFor(pk, directory, paths[..0]) == []
  {
  }

  /** One file further. */
  lemma WriteNext(volume: Volume, pk: nat, directory: Place, paths: seq<StoredFile>, i: nat, partial: Option<Bytes>)
    requires i < |paths|
    ensures var path, before := directory + [paths[i].name], WithFiles(volume, directory, paths[..i]);
      && WithFiles(volume, directory, paths[..i + 1]) == before[path := paths[i].content]
      && WithFiles(volume, directory, paths[..i] + Broken(paths[i].name, partial))
         == (if partial.Some? then before[path := partial.value] else before)
      && RowsFor(pk, directory, paths[..i + 1]) == RowsFor(pk, directory, paths[..i]) + [FileRow(pk, path)]
  {
    assert paths[..i + 1][..i] == paths[..i];
    var broken := paths[..i] + Broken(paths[i].name, partial);
    if partial.Some? { assert broken[..i] == paths[..i]; } else { assert broken == paths[..i]; }
  }

  /** The places the files take. */
  ghost function Places(directory: Place, paths: seq<StoredFile>): set<Place> {
    set f | f in paths :: directory + [f.name]
  }

  lemma PlacesOfRows(pk: nat, directory: Place, paths: seq<StoredFile>)
    ensures Paths(RowsFor(pk, directory, paths)) == Places(directory, paths)
  {
    var rows := RowsFor(pk, directory, paths);
    forall f | f in paths ensures directory + [f.name] in Paths(rows) {
      var i :| 0 <= i < |paths| && paths[i] == f;
      assert rows[i] in rows;
    }
    forall r | r in rows ensures r.file in Places(directory, paths) {
      var i :| 0 <= i < |rows| && rows[i] == r;
      assert paths[i] in paths;
    }
  }

  /** A failed upload leaves the volume as it was if and only if the exception was caught or
      nothing had been written; otherwise exactly the written files stay, without rows. */
  lemma FailedUpload(root: Place, files: seq<FileRow>, uploads: seq<Upload>, volume: Volume, directory: string,
                     paths: seq<StoredFile>, fault: Option<nat>, partial: Option<Bytes>, caught: bool)
    requires FilesOwned(root, files, uploads) && NamesDistinct(paths)
    requires DirectoryUnused(root, volume, uploads, directory) && !UploadCommits(|paths|, fault)
    ensures var after := AfterUpload(root, volume, directory, paths, fault, partial, caught);
      var left := if caught then [] else Written(paths, fault, partial);
      && (after == volume <==> caught || Written(paths, fault, partial) == [])
      && Stray(files, after) == Stray(files, volume) + Places(Target(root, directory), left)
      && Lost(files, after) == Lost(files, volume)
  {
    hide Target, Written, FilesOwned, NamesDistinct;
    var target, written := Target(root, directory), Written(paths, fault, partial);
    var after := WithFiles(volume, target, written);
    WithFilesKeys(volume, 0, target, written);
    PlacesOfRows(0, target, written);
    WithFilesOutside(volume, target, written);
    RemovalUndoes(root, volume, after, directory);
    OutsideUnused(root, files, uploads, volume, directory);
    PlacesBelow(target, written);
  }

  lemma PlacesBelow(directory: Place, paths: seq<StoredFile>)
    ensures forall p | p in Places(directory, paths) :: directory < p
    ensures Places(directory, paths) == {} <==> paths == []
  {
    if paths != [] { assert directory + [paths[0].name] in Places(directory, paths); }
  }

  /** A directory printed for another key or with another stamp. */
  ghost predicate PrintedElsewhere(directory: string, dropzone: nat, stamp: string) {
    exists other: nat, otherStamp: string ::
      directory == Printed(other, otherStamp) && Plain(otherStamp) && (other != dropzone || otherStamp != stamp)
  }

  lemma ElsewhereIsApart(root: Place, directory: string, dropzone: nat, stamp: string)
    requires PrintedElsewhere(directory, dropzone, stamp) && Plain(stamp)
    ensures Apart(Target(root, directory), Target(root, Printed(dropzone, stamp)))
  {
    hide Target, Printed, Plain;
    var other: nat, otherStamp: string :| directory == Printed(other, otherStamp) && Plain(otherStamp)
      && (other != dropzone || otherStamp != stamp);
    PrintedApart(root, other, otherStamp, dropzone, stamp);
  }

  /** The directory printed from a stamp never used for the dropzone is unused, whatever
      failed uploads left on the volume. */
  lemma FreshStampIsUnused(root: Place, uploads: seq<Upload>, volume: Volume, used: set<string>,
                           dropzone: nat, stamp: string)
    requires InUsed(root, uploads, volume, used) && Plain(stamp)
    requires forall d | d in used :: PrintedElsewhere(d, dropzone, stamp)
    ensures DirectoryUnused(root, volume, uploads, Printed(dropzone, stamp))
  {
    hide Target, Printed, Plain, Removable, PrintedElsewhere, Apart;
    var target := Target(root, Printed(dropzone, stamp));
    PrintedTarget(root, dropzone, stamp);
    forall d | d in used ensures Apart(Target(root, d), target) { ElsewhereIsApart(root, d, dropzone, stamp); }
    forall p | p in volume ensures !(target < p) {
      var d :| d in used && Target(root, d) < p;
      InOneOnly(Target(root, d), target, p);
    }
  }

  /** Storing one more upload keeps the surviving rows in closed form. */
  lemma StoringSurvives(history: seq<Upload>, uploads: seq<Upload>, new_: Upload)
    requires Chronological(history + [new_]) && Surviving(history, uploads)
    ensures Surviving(history + [new_], ClipAll(uploads, new_) + [new_])
  {
    var longer, after := history + [new_], ClipAll(uploads, new_) + [new_];
    assert forall i | 0 <= i < |history| :: longer[i] == history[i];
    assert longer[|history|] == new_;
    forall u | u in after ensures exists i: nat :: i < |longer| && ClosedForm(longer, i, u) {
      var k :| 0 <= k < |after| && after[k] == u;
      if k < |uploads| {
        assert uploads[k] in uploads;
        var i: nat :| i < |history| && ClosedForm(history, i, uploads[k]);
        ClipKeepsClosedForm(history, i, uploads[k], new_);
      } else {
        NewestInClosedForm(history, new_);
      }
    }
    OneRowPerKey(longer, after);
  }

  lemma StoringKeepsOrder(root: Place, uploads: seq<Upload>, new_: Upload)
    requires RowsOrdered(root, uploads) && Removable(root, new_.directory)
    requires forall u | u in uploads :: u.pk < new_.pk && Apart(DirectoryOf(root, u), DirectoryOf(root, new_))
    ensures RowsOrdered(root, ClipAll(uploads, new_) + [new_])
  {
    hide Target, Apart, Removable;
    var after := ClipAll(uploads, new_) + [new_];
    forall i | 0 <= i < |uploads|
      ensures after[i].pk == uploads[i].pk && after[i].directory == uploads[i].directory && uploads[i] in uploads
    {
    }
    forall i, j | 0 <= i < j < |after|
      ensures after[i].pk < after[j].pk && Apart(DirectoryOf(root, after[i]), DirectoryOf(root, after[j]))
    {
      if j < |uploads| { assert DirectoryOf(root, after[j]) == DirectoryOf(root, uploads[j]); }
      assert DirectoryOf(root, after[i]) == DirectoryOf(root, uploads[i]);
    }
  }

  lemma StoredFilesOwned(root: Place, files: seq<FileRow>, uploads: seq<Upload>, upload: Upload, paths: seq<StoredFile>)
    requires FilesOwned(root, files, uploads) && NamesDistinct(paths)
    ensures var rows := RowsFor(upload.pk, DirectoryOf(root, upload), paths);
      FilesOwned(root, files + rows, ClipAll(uploads, upload) + [upload])
  {
    hide Target, RowsFor;
    var rows, after := RowsFor(upload.pk, DirectoryOf(root, upload), paths), ClipAll(uploads, upload) + [upload];
    RowsForDistinct(upload.pk, DirectoryOf(root, upload), paths);
    forall f | f in files + rows
      ensures exists u :: u in after && u.pk == f.upload && DirectoryOf(root, u) < f.file
    {
      if f in files {
        var u :| u in uploads && u.pk == f.upload && DirectoryOf(root, u) < f.file;
        var i :| 0 <= i < |uploads| && uploads[i] == u;
        assert after[i] in after && after[i].directory == u.directory;
      } else {
        assert upload in after;
      }
    }
  }

  // ----- deleting -----

  // A deletion runs, in one transaction: the statement that deletes the file rows (step 0),
  // the receiver of each file row, the statement that deletes the upload rows, the receiver
  // of each upload row, and the commit. `fault` is the step at which an exception is
  // raised, if any. A rollback restores the rows, and nothing restores the files.

  /** How many file receivers finish. */
  function FilesRemoved(files: nat, fault: Option<nat>): (n: nat)
    ensures n <= files
  {
    if fault.None? || fault.value > files then files else if fault.value == 0 then 0 else fault.value - 1
  }

  /** How many directory receivers finish. */
  function DirectoriesRemoved(files: nat, uploads: nat, fault: Option<nat>): (n: nat)
    ensures n <= uploads
  {
    if fault.None? || fault.value > files + 1 + uploads then uploads
    else if fault.value <= files + 1 then 0
    else fault.value - files - 2
  }

  predicate DeletionCommits(files: nat, uploads: nat, fault: Option<nat>) {
    fault.None? || fault.value > files + uploads + 2
  }

  function WithoutDirectories(root: Place, volume: Volume, uploads: seq<Upload>): Volume {
    if uploads == [] then volume
    else
      var n := |uploads| - 1;
      WithoutDirectory(root, WithoutDirectories(root, volume, uploads[..n]), uploads[n].directory)
  }

  /** What is to be deleted: uploads, with all their files, and single file rows. */
  datatype Choice = Choice(uploads: set<nat>, files: set<Place>)

  predicate Picked(f: FileRow, choice: Choice) {
    f.upload in choice.uploads || f.file in choice.files
  }

  /** Rows are deleted, and their receivers called, by descending key. */
  function Chosen(uploads: seq<Upload>, choice: Choice): seq<Upload> {
    Reversed(Filter(uploads, (u: Upload) => u.pk in choice.uploads))
  }

  function ChosenFiles(files: seq<FileRow>, choice: Choice): seq<FileRow> {
    Reversed(Filter(files, (f: FileRow) => Picked(f, choice)))
  }

  function KeptUploads(uploads: seq<Upload>, choice: Choice): seq<Upload> {
    Filter(uploads, (u: Upload) => u.pk !in choice.uploads)
  }

  function KeptFiles(files: seq<FileRow>, choice: Choice): seq<FileRow> {
    Filter(files, (f: FileRow) => !Picked(f, choice))
  }

  /** Exactly the uploads not chosen are kept, and exactly the file rows neither chosen nor of
      a chosen upload; what goes, goes by descending key. */
  lemma ChosenInFields(root: Place, uploads: seq<Upload>, files: seq<FileRow>, choice: Choice)
    requires RowsOrdered(root, uploads)
    ensures forall u :: u in KeptUploads(uploads, choice) <==> u in uploads && u.pk !in choice.uploads
    ensures forall u :: u in Chosen(uploads, choice) <==> u in uploads && u.pk in choice.uploads
    ensures forall f :: f in KeptFiles(files, choice) <==>
      f in files && f.upload !in choice.uploads && f.file !in choice.files
    ensures forall f :: f in ChosenFiles(files, choice) <==>
      f in files && (f.upload in choice.uploads || f.file in choice.files)
    ensures forall i, j | 0 <= i < j < |Chosen(uploads, choice)| ::
      Chosen(uploads, choice)[j].pk < Chosen(uploads, choice)[i].pk
    ensures forall i, j | 0 <= i < j < |KeptUploads(uploads, choice)| ::
      KeptUploads(uploads, choice)[i].pk < KeptUploads(uploads, choice)[j].pk
  {
    hide Target;
    var later := (u: Upload, v: Upload) => u.pk < v.pk;
    FilterPairwise(uploads, (u: Upload) => u.pk in choice.uploads, later);
    FilterPairwise(uploads, (u: Upload) => u.pk !in choice.uploads, later);
    var rows := Filter(uploads, (u: Upload) => u.pk in choice.uploads);
    assert forall i, j | 0 <= i < j < |rows| :: later(rows[i], rows[j]);
    var kept := KeptUploads(uploads, choice);
    assert forall i, j | 0 <= i < j < |kept| :: later(kept[i], kept[j]);
  }

  /** The volume after a deletion of these rows, as far as it got. */
  ghost function AfterDeletion(root: Place, volume: Volume, mine: seq<FileRow>, gone: seq<Upload>,
                               fault: Option<nat>): Volume {
    WithoutDirectories(root, volume - Paths(mine[..FilesRemoved(|mine|, fault)]),
                       gone[..DirectoriesRemoved(|mine|, |gone|, fault)])
  }

  lemma OnlyOneRow(root: Place, uploads: seq<Upload>, u: Upload, v: Upload)
    requires RowsOrdered(root, uploads) && u in uploads && v in uploads && u != v
    ensures u.pk != v.pk && Apart(DirectoryOf(root, u), DirectoryOf(root, v))
  {
    hide Target;
    var i :| 0 <= i < |uploads| && uploads[i] == u;
    var j :| 0 <= j < |uploads| && uploads[j] == v;
    if i < j {
      assert Apart(DirectoryOf(root, uploads[i]), DirectoryOf(root, uploads[j]));
    } else {
      assert Apart(DirectoryOf(root, uploads[j]), DirectoryOf(root, uploads[i]));
    }
  }

  /** A file row lies in the directory of its own upload only. */
  lemma OwnDirectoryOnly(root: Place, files: seq<FileRow>, uploads: seq<Upload>, f: FileRow, u: Upload)
    requires RowsOrdered(root, uploads) && FilesOwned(root, files, uploads) && f in files && u in uploads
    ensures f.upload == u.pk <==> DirectoryOf(root, u) < f.file
  {
    hide Target, Apart, RowsOrdered;
    var v :| v in uploads && v.pk == f.upload && DirectoryOf(root, v) < f.file;
    if u != v {
      OnlyOneRow(root, uploads, v, u);
      InOneOnly(DirectoryOf(root, v), DirectoryOf(root, u), f.file);
    }
  }

  /** Directories that hold none of the files are removed without effect. */
  lemma {:induction false} EmptyDirectories(root: Place, volume: Volume, uploads: seq<Upload>)
    requires forall p, u | p in volume && u in uploads :: !(DirectoryOf(root, u) < p)
    ensures WithoutDirectories(root, volume, uploads) == volume
  {
    hide Target;
    if uploads != [] {
      var n := |uploads| - 1;
      EmptyDirectories(root, volume, uploads[..n]);
      assert uploads[n] in uploads;
    }
  }

  /** When the directories go, no file is left in any of them: a deletion removes exactly the
      files whose receivers finished, wherever it stops. */
  lemma DirectoriesAreEmptyByThen(root: Place, files: seq<FileRow>, uploads: seq<Upload>, volume: Volume,
                                  choice: Choice, fault: Option<nat>)
    requires StraysOutside(root, files, uploads, volume)
    requires RowsOrdered(root, uploads) && FilesOwned(root, files, uploads)
    ensures var mine, gone := ChosenFiles(files, choice), Chosen(uploads, choice);
      AfterDeletion(root, volume, mine, gone, fault) == volume - Paths(mine[..FilesRemoved(|mine|, fault)])
  {
    hide Target, RowsOrdered, FilesOwned;
    var mine, gone := ChosenFiles(files, choice), Chosen(uploads, choice);
    var left := volume - Paths(mine[..FilesRemoved(|mine|, fault)]);
    var removed := gone[..DirectoriesRemoved(|mine|, |gone|, fault)];
    if removed != [] {
      assert mine[..FilesRemoved(|mine|, fault)] == mine;
      forall p, u | p in left && u in removed ensures !(DirectoryOf(root, u) < p) {
        assert u in gone && u in uploads;
        if p in Paths(files) {
          var f :| f in files && f.file == p;
          assert f !in mine;
          OwnDirectoryOnly(root, files, uploads, f, u);
        } else {
          assert p in Stray(files, volume);
        }
      }
      EmptyDirectories(root, left, removed);
    }
  }

  lemma ChosenOrKept(files: seq<FileRow>, choice: Choice)
    ensures Paths(files) == Paths(ChosenFiles(files, choice)) + Paths(KeptFiles(files, choice))
    ensures PathsDistinct(files) ==> PathsDistinct(KeptFiles(files, choice))
    ensures PathsDistinct(files) ==> Paths(ChosenFiles(files, choice)) !! Paths(KeptFiles(files, choice))
  {
    var mine, kept := ChosenFiles(files, choice), KeptFiles(files, choice);
    forall p | p in Paths(files) ensures p in Paths(mine) + Paths(kept) {
      var f :| f in files && f.file == p;
      assert f in mine || f in kept;
    }
    if PathsDistinct(files) {
      FilterPairwise(files, (f: FileRow) => !Picked(f, choice), (f: FileRow, g: FileRow) => f.file != g.file);
      forall f, g | f in mine && g in kept ensures f.file != g.file {
        var i :| 0 <= i < |files| && files[i] == f;
        var j :| 0 <= j < |files| && files[j] == g;
      }
    }
  }

  /** Choosing a single file row chooses that file alone, and no upload. */
  lemma SingleFileRow(files: seq<FileRow>, uploads: seq<Upload>, f: FileRow)
    requires f in files
    ensures var choice := Choice({}, {f.file});
      && Paths(ChosenFiles(files, choice)) == {f.file}
      && Chosen(uploads, choice) == [] && KeptUploads(uploads, choice) == uploads
  {
    var choice := Choice({}, {f.file});
    assert f in ChosenFiles(files, choice);
    FilterAll(uploads, (u: Upload) => u.pk !in choice.uploads);
    FilterNone(uploads, (u: Upload) => u.pk in choice.uploads);
  }

  lemma {:induction false} FilterNone<T(!new)>(s: seq<T>, keep: T -> bool)
    requires forall x | x in s :: !keep(x)
    ensures Filter(s, keep) == []
  {
    if s != [] { FilterNone(s[1..], keep); }
  }

  lemma {:induction false} FilterAll<T(!new)>(s: seq<T>, keep: T -> bool)
    requires forall x | x in s :: keep(x)
    ensures Filter(s, keep) == s
  {
    if s != [] { FilterAll(s[1..], keep); }
  }

  /** A deletion that commits takes its rows and their files together: no file loses its row,
      and only what the other rows had lost before is still lost. */
  lemma CommittedDeletion(root: Place, files: seq<FileRow>, uploads: seq<Upload>, volume: Volume,
                          choice: Choice, fault: Option<nat>)
    requires PathsDistinct(files) && StraysOutside(root, files, uploads, volume)
    requires RowsOrdered(root, uploads) && FilesOwned(root, files, uploads)
    requires DeletionCommits(|ChosenFiles(files, choice)|, |Chosen(uploads, choice)|, fault)
    ensures var mine, kept := ChosenFiles(files, choice), KeptFiles(files, choice);
      var after := AfterDeletion(root, volume, mine, Chosen(uploads, choice), fault);
      && PathsDistinct(kept) && Stray(kept, after) == Stray(files, volume)
      && Lost(kept, after) == Lost(files, volume) - Paths(mine)
  {
    hide RowsOrdered, FilesOwned, AfterDeletion, PathsDistinct, StraysOutside;
    var mine := ChosenFiles(files, choice);
    DirectoriesAreEmptyByThen(root, files, uploads, volume, choice, fault);
    ChosenOrKept(files, choice);
    assert mine[..FilesRemoved(|mine|, fault)] == mine;
  }

  /** A deletion that fails leaves its rows and loses the files removed by then: rows and
      files stay in step if and only if it failed before any file was removed. */
  lemma FailedDeletion(root: Place, files: seq<FileRow>, uploads: seq<Upload>, volume: Volume,
                       choice: Choice, step: nat)
    requires StraysOutside(root, files, uploads, volume)
    requires RowsOrdered(root, uploads) && FilesOwned(root, files, uploads)
    requires !DeletionCommits(|ChosenFiles(files, choice)|, |Chosen(uploads, choice)|, Some(step))
    ensures var mine := ChosenFiles(files, choice);
      var after := AfterDeletion(root, volume, mine, Chosen(uploads, choice), Some(step));
      && Stray(files, after) == Stray(files, volume)
      && Lost(files, after) == Lost(files, volume) + Paths(mine[..FilesRemoved(|mine|, Some(step))])
      && (OneToOne(files, volume) ==> (OneToOne(files, after) <==> step <= 1 || mine == []))
  {
    hide RowsOrdered, FilesOwned, AfterDeletion, PathsDistinct, StraysOutside;
    var mine := ChosenFiles(files, choice);
    DirectoriesAreEmptyByThen(root, files, uploads, volume, choice, Some(step));
    var removed := mine[..FilesRemoved(|mine|, Some(step))];
    forall f | f in removed ensures f.file in Paths(files) { assert f in mine && f in files; }
    if removed != [] { assert removed[0] in removed && removed[0].file in Paths(removed); }
  }

  lemma FailedStaysOutside(root: Place, files: seq<FileRow>, uploads: seq<Upload>, volume: Volume, after: Volume)
    requires StraysOutside(root, files, uploads, volume) && after.Keys <= volume.Keys
    ensures StraysOutside(root, files, uploads, after)
  {
    hide Target;
    forall p | p in Stray(files, after) ensures p in Stray(files, volume) { assert p in after.Keys; }
  }

  /** Repeating a failed deletion until it commits ends where an undisturbed one would. */
  lemma RetryCompletes(root: Place, files: seq<FileRow>, uploads: seq<Upload>, volume: Volume,
                       choice: Choice, fault: Option<nat>)
    requires StraysOutside(root, files, uploads, volume)
    requires RowsOrdered(root, uploads) && FilesOwned(root, files, uploads)
    ensures var mine, gone := ChosenFiles(files, choice), Chosen(uploads, choice);
      AfterDeletion(root, AfterDeletion(root, volume, mine, gone, fault), mine, gone, None)
      == AfterDeletion(root, volume, mine, gone, None)
  {
    hide RowsOrdered, FilesOwned, AfterDeletion;
    var mine, gone := ChosenFiles(files, choice), Chosen(uploads, choice);
    DirectoriesAreEmptyByThen(root, files, uploads, volume, choice, fault);
    DirectoriesAreEmptyByThen(root, files, uploads, volume, choice, None);
    var after := AfterDeletion(root, volume, mine, gone, fault);
    FailedStaysOutside(root, files, uploads, volume, after);
    DirectoriesAreEmptyByThen(root, files, uploads, after, choice, None);
    var removed := mine[..FilesRemoved(|mine|, fault)];
    assert mine[..FilesRemoved(|mine|, None)] == mine;
    forall f | f in removed ensures f in mine { }
    assert (volume - Paths(removed)) - Paths(mine) == volume - Paths(mine);
  }

  lemma DeletingKeepsRows(root: Place, history: seq<Upload>, files: seq<FileRow>, uploads: seq<Upload>, choice: Choice)
    requires Surviving(history, uploads) && RowsOrdered(root, uploads) && FilesOwned(root, files, uploads)
    ensures var rest := KeptUploads(uploads, choice);
      Surviving(history, rest) && RowsOrdered(root, rest) && FilesOwned(root, KeptFiles(files, choice), rest)
    ensures forall u | u in KeptUploads(uploads, choice) :: u in uploads
  {
    hide Target, Apart, Removable, ClosedForm;
    FilterPairwise(uploads, (u: Upload) => u.pk !in choice.uploads,
                   (u: Upload, v: Upload) => u.pk < v.pk && Apart(DirectoryOf(root, u), DirectoryOf(root, v)));
    var rest := KeptUploads(uploads, choice);
    forall f | f in KeptFiles(files, choice)
      ensures exists u :: u in rest && u.pk == f.upload && DirectoryOf(root, u) < f.file
    {
      var u :| u in uploads && u.pk == f.upload && DirectoryOf(root, u) < f.file;
      assert u in rest;
    }
  }

  /** The surviving rows are the closed form of the whole history of successful uploads, every
      file row lies in the directory of its upload, and no file in the directory of an upload
      is without its row. */
  ghost predicate InOrder(root: Place, history: seq<Upload>, uploads: seq<Upload>, nextPk: nat,
                          files: seq<FileRow>, volume: Volume, used: set<string>) {
    && Chronological(history) && (forall u | u in history :: u.pk < nextPk)
    && Surviving(history, uploads) && RowsOrdered(root, uploads)
    && PathsDistinct(files) && FilesOwned(root, files, uploads)
    && StraysOutside(root, files, uploads, volume) && InUsed(root, uploads, volume, used)
  }

  lemma WritesStayInUsed(root: Place, uploads: seq<Upload>, volume: Volume, used: set<string>,
                         rows: seq<Upload>, after: Volume, directory: string)
    requires InUsed(root, uploads, volume, used)
    requires forall u | u in rows :: u.directory == directory || exists v :: v in uploads && v.directory == u.directory
    requires forall p | p in after :: p in volume || Target(root, directory) < p
    ensures InUsed(root, rows, after, used + {directory})
  {
    hide Target;
    forall p | p in after ensures exists d :: d in used + {directory} && Target(root, d) < p {
      if p in volume {
        var d :| d in used && Target(root, d) < p;
        assert d in used + {directory};
      } else {
        assert directory in used + {directory};
      }
    }
  }

  /** A committed upload leaves the store in order. */
  lemma CommittedUpload(root: Place, history: seq<Upload>, uploads: seq<Upload>, nextPk: nat, files: seq<FileRow>,
                        volume: Volume, used: set<string>, upload: Upload, paths: seq<StoredFile>)
    requires InOrder(root, history, uploads, nextPk, files, volume, used) && NamesDistinct(paths)
    requires DirectoryUnused(root, volume, uploads, upload.directory) && upload.pk == nextPk
    requires forall u | u in history :: u.uploadedAt < upload.uploadedAt
    ensures InOrder(root, history + [upload], ClipAll(uploads, upload) + [upload], nextPk + 1,
                    files + RowsFor(upload.pk, DirectoryOf(root, upload), paths),
                    WithFiles(volume, DirectoryOf(root, upload), paths), used + {upload.directory})
  {
    hide Surviving, RowsOrdered, FilesOwned, NamesDistinct, WithFiles, PathsDistinct, Target, Removable, RowsFor;
    var rows, more := ClipAll(uploads, upload) + [upload], RowsFor(upload.pk, DirectoryOf(root, upload), paths);
    var after := WithFiles(volume, DirectoryOf(root, upload), paths);
    KeysBelow(history, uploads, nextPk);
    StoringSurvives(history, uploads, upload);
    StoringKeepsOrder(root, uploads, upload);
    WithFilesInStep(root, files, uploads, volume, upload.pk, upload.directory, paths);
    StoredFilesOwned(root, files, uploads, upload, paths);
    WithFilesOutside(volume, DirectoryOf(root, upload), paths);
    forall u | u in rows
      ensures u.directory == upload.directory || exists v :: v in uploads && v.directory == u.directory
    {
      if u != upload {
        var i :| 0 <= i < |uploads| && Clip(uploads[i], upload) == u;
        assert uploads[i] in uploads;
      }
    }
    WritesStayInUsed(root, uploads, volume, used, rows, after, upload.directory);
    assert StraysOutside(root, files + more, rows, after);
  }

  /** So does a failed one, caught or not: what it leaves lies in no upload's directory. */
  lemma FailedUploadInOrder(root: Place, history: seq<Upload>, uploads: seq<Upload>, nextPk: nat, files: seq<FileRow>,
                            volume: Volume, used: set<string>, directory: string, paths: seq<StoredFile>,
                            fault: Option<nat>, partial: Option<Bytes>, caught: bool, key: nat)
    requires InOrder(root, history, uploads, nextPk, files, volume, used) && NamesDistinct(paths) && nextPk <= key
    requires DirectoryUnused(root, volume, uploads, directory) && !UploadCommits(|paths|, fault)
    ensures InOrder(root, history, uploads, key, files,
                    AfterUpload(root, volume, directory, paths, fault, partial, caught), used + {directory})
  {
    hide Surviving, RowsOrdered, FilesOwned, NamesDistinct, WithFiles, PathsDistinct, Target, Removable, Written;
    var target := Target(root, directory);
    var after := AfterUpload(root, volume, directory, paths, fault, partial, caught);
    FailedUpload(root, files, uploads, volume, directory, paths, fault, partial, caught);
    WithFilesOutside(volume, target, Written(paths, fault, partial));
    PlacesBelow(target, Written(paths, fault, partial));
    WritesStayInUsed(root, uploads, volume, used, uploads, after, directory);
    forall p, u | p in Stray(files, after) && u in uploads ensures !(DirectoryOf(root, u) < p) {
      if target < p { InOneOnly(target, DirectoryOf(root, u), p); }
    }
  }

  class Store {
    const root: Place
    var uploads: seq<Upload>
    var files: seq<FileRow>
    var volume: Volume
    var nextPk: nat
    ghost var history: seq<Upload>
    ghost var used: set<string>

    /** Over every run, whatever fails. */
    ghost predicate Sound()
      reads this
    {
      InOrder(root, history, uploads, nextPk, files, volume, used)
    }

    /** Besides, rows and files correspond one to one: over every run whose failed uploads are
        caught or wrote nothing, and whose failed deletions removed nothing. */
    ghost predicate Valid()
      reads this
    {
      Sound() && OneToOne(files, volume)
    }

    constructor (root: Place)
      ensures Valid() && this.root == root && uploads == [] && files == [] && volume == map[]
      ensures history == [] && used == {}
    {
      this.root := root;
      uploads, files, volume, nextPk, history, used := [], [], map[], 0, [], {};
    }

    /** Ends the open dated uploads of the dropzone that start before the new one. */
    method ClipReplaced(upload: Upload)
      modifies this`uploads
      ensures uploads == ClipAll(old(uploads), upload)
    {
      if upload.validFrom.None? {
        assert ClipAll(uploads, upload) == uploads;
        return;
      }
      uploads := ClipAll(uploads, upload);
    }

    method RemoveUploadDirectory(directory: string)
      modifies this`volume
      ensures volume == WithoutDirectory(root, old(volume), directory)
    {
      if directory == "" { return; }
      var target := Target(root, directory);
      if target != root && root <= target {
        volume := map p | p in volume && !(target < p) :: volume[p];
      }
    }

    /** The body of the transaction. */
    method Attempt(upload: Upload, paths: seq<StoredFile>, fault: Option<nat>, partial: Option<Bytes>)
      returns (committed: bool)
      modifies this`uploads, this`files, this`volume
      ensures committed <==> UploadCommits(|paths|, fault)
      ensures committed ==>
        && uploads == ClipAll(old(uploads), upload) + [upload]
        && files == old(files) + RowsFor(upload.pk, DirectoryOf(root, upload), paths)
      ensures volume == WithFiles(old(volume), DirectoryOf(root, upload), Written(paths, fault, partial))
    {
      hide Target, Written, WithFiles, RowsFor;
      committed := false;
      WrittenBy(paths, fault, partial);
      NothingWritten(volume, upload.pk, DirectoryOf(root, upload), paths);
      if fault == Some(0) { return; }
      uploads := uploads + [upload];
      var directory := DirectoryOf(root, upload);
      var i := 0;
      while i < |paths|
        invariant 0 <= i <= |paths|
        invariant uploads == old(uploads) + [upload]
        invariant files == old(files) + RowsFor(upload.pk, directory, paths[..i])
        invariant volume == WithFiles(old(volume), directory, paths[..i])
        invariant fault.Some? ==> fault.value > 2 * i
      {
        var path := directory + [paths[i].name];
        WriteNext(old(volume), upload.pk, directory, paths, i, partial);
        if fault == Some(2 * i + 1) {
          if partial.Some? { volume := volume[path := partial.value]; }
          return;
        }
        volume := volume[path := paths[i].content];
        if fault == Some(2 * i + 2) { return; }
        files := files + [FileRow(upload.pk, path)];
        i := i + 1;
      }
      assert paths[..i] == paths;
      if fault == Some(2 * |paths| + 1) { return; }
      ClipReplaced(upload);
      assert ClipAll(old(uploads) + [upload], upload) == ClipAll(old(uploads), upload) + [upload];
      committed := fault != Some(2 * |paths| + 2);
    }

    /** Writes the row, its files and the clipping. Whatever step fails, the rows are rolled
        back; the directory is removed only if the exception is `caught`. A failed upload may
        use up a key. */
    method StoreUpload(request: Request, paths: seq<StoredFile>, directory: string, now: int,
                       fault: Option<nat>, partial: Option<Bytes>, caught: bool) returns (result: Result<Upload, ()>)
      requires Sound() && NamesDistinct(paths)
      requires DirectoryUnused(root, volume, uploads, directory)
      requires forall u | u in history :: u.uploadedAt < now
      modifies this
      ensures Sound() && used == old(used) + {directory}
      ensures result.Ok? <==> fault == None || fault.value > 2 * |paths| + 2
      ensures nextPk == old(nextPk) + if fault == Some(0) then 0 else 1
      ensures result.Err? ==> uploads == old(uploads) && files == old(files) && history == old(history)
      ensures volume == AfterUpload(root, old(volume), directory, paths, fault, partial, caught)
      ensures result.Err? ==> (volume == old(volume) <==> caught || Written(paths, fault, partial) == [])
      ensures Lost(files, volume) == old(Lost(files, volume))
      ensures Stray(files, volume) == old(Stray(files, volume)) + if result.Ok? || caught then {}
        else Places(Target(root, directory), Written(paths, fault, partial))
      ensures old(Valid()) ==> (Valid() <==> result.Ok? || caught || Written(paths, fault, partial) == [])
      ensures result.Ok? ==>
        var upload := Upload(old(nextPk), request.dropzone, now, request.uploadedBy, request.validFrom,
                             request.validUntil, directory, request.sha256);
        && result.value == upload
        && history == old(history) + [upload]
        && uploads == ClipAll(old(uploads), upload) + [upload]
        && files == old(files) + RowsFor(upload.pk, Target(root, directory), paths)
        && volume == WithFiles(old(volume), Target(root, directory), paths)
      ensures old(uploads) == Run(old(history)) ==> uploads == Run(history)
    {
      hide InOrder, NamesDistinct, Run, WithFiles, Written, Target, OneToOne, Lost, Stray, DirectoryUnused, RowsFor;
      hide WithoutDirectory, Places, PathsDistinct;
      var upload := Upload(nextPk, request.dropzone, now, request.uploadedBy, request.validFrom,
                           request.validUntil, directory, request.sha256);
      var savedUploads, savedFiles := uploads, files;
      InOrderParts(root, history, uploads, nextPk, files, volume, used);
      InStepIff(files, volume);
      var committed := Attempt(upload, paths, fault, partial);
      nextPk := nextPk + if fault == Some(0) then 0 else 1;
      used := used + {directory};
      if committed {
        history := history + [upload];
        RunGrows(old(history), upload);
        CommittedUpload(root, old(history), savedUploads, old(nextPk), savedFiles, old(volume), old(used),
                        upload, paths);
        WithFilesInStep(root, savedFiles, savedUploads, old(volume), upload.pk, directory, paths);
        WrittenWhole(paths, fault, partial);
        result := Ok(upload);
      } else {
        FailedUpload(root, savedFiles, savedUploads, old(volume), directory, paths, fault, partial, caught);
        FailedUploadInOrder(root, history, savedUploads, old(nextPk), savedFiles, old(volume), old(used), directory,
                            paths, fault, partial, caught, nextPk);
        PlacesBelow(Target(root, directory), Written(paths, fault, partial));
        uploads, files := savedUploads, savedFiles;
        if caught { RemoveUploadDirectory(directory); }
        result := Err(());
      }
      InStepIff(files, volume);
    }

    /** The receiver of every deleted file row in turn, steps 1 to `|rows|`. */
    method DeleteFiles(rows: seq<FileRow>, fault: Option<nat>) returns (whole: bool)
      requires fault != Some(0)
      modifies this`volume
      ensures whole <==> fault.None? || fault.value > |rows|
      ensures volume == old(volume) - Paths(rows[..FilesRemoved(|rows|, fault)])
    {
      var i := 0;
      assert volume == old(volume) - Paths(rows[..0]);
      while i < |rows|
        invariant 0 <= i <= |rows|
        invariant volume == old(volume) - Paths(rows[..i])
        invariant fault.Some? ==> fault.value > i
      {
        if fault == Some(i + 1) { return false; }
        assert rows[..i + 1] == rows[..i] + [rows[i]];
        assert Paths(rows[..i + 1]) == Paths(rows[..i]) + {rows[i].file};
        volume := volume - {rows[i].file};
        i := i + 1;
      }
      whole := true;
    }

    /** The receiver of every deleted upload row in turn, after that of the last file. */
    method DeleteDirectories(rows: seq<Upload>, files: nat, fault: Option<nat>) returns (whole: bool)
      requires fault.Some? ==> fault.value > files + 1
      modifies this`volume
      ensures whole <==> fault.None? || fault.value > files + 1 + |rows|
      ensures volume == WithoutDirectories(root, old(volume), rows[..DirectoriesRemoved(files, |rows|, fault)])
    {
      var i := 0;
      while i < |rows|
        invariant 0 <= i <= |rows|
        invariant volume == WithoutDirectories(root, old(volume), rows[..i])
        invariant fault.Some? ==> fault.value > files + 1 + i
      {
        if fault == Some(files + 2 + i) { return false; }
        assert rows[..i + 1][..i] == rows[..i];
        RemoveUploadDirectory(rows[i].directory);
        i := i + 1;
      }
      whole := true;
    }

    /** Deletes uploads with their file rows, or single file rows, in one transaction. A
        failure rolls the rows back and leaves the files gone that were removed by then. The
        periods the uploads ended stay as they are. */
    method Delete(choice: Choice, fault: Option<nat>) returns (committed: bool)
      requires Sound()
      modifies this
      ensures Sound() && history == old(history) && nextPk == old(nextPk) && used == old(used)
      ensures var mine, gone := ChosenFiles(old(files), choice), Chosen(old(uploads), choice);
        && (committed <==> fault == None || fault.value > |mine| + |gone| + 2)
        && volume == old(volume) - Paths(mine[..FilesRemoved(|mine|, fault)])
        && Lost(files, volume) == (if committed then old(Lost(files, volume)) - Paths(mine)
                                   else old(Lost(files, volume)) + Paths(mine[..FilesRemoved(|mine|, fault)]))
      ensures Stray(files, volume) == old(Stray(files, volume))
      ensures uploads == if committed then KeptUploads(old(uploads), choice) else old(uploads)
      ensures files == if committed then KeptFiles(old(files), choice) else old(files)
      ensures forall u :: u in uploads <==> u in old(uploads) && !(committed && u.pk in choice.uploads)
      ensures forall f :: f in files <==>
        f in old(files) && !(committed && (f.upload in choice.uploads || f.file in choice.files))
      ensures old(Valid()) ==>
        (Valid() <==> committed || (fault.Some? && fault.value <= 1) || ChosenFiles(old(files), choice) == [])
    {
      hide Surviving, FilesOwned, RowsOrdered, Chronological, Target, Lost, Stray, OneToOne, WithoutDirectories;
      hide Chosen, ChosenFiles, KeptUploads, KeptFiles, WithoutDirectory, Removable, PathsDistinct;
      hide StraysOutside, InUsed, Picked;
      ghost var mine, gone := ChosenFiles(files, choice), Chosen(uploads, choice);
      DirectoriesAreEmptyByThen(root, files, uploads, volume, choice, fault);
      DeletingKeepsRows(root, history, files, uploads, choice);
      InOrderParts(root, history, uploads, nextPk, files, volume, used);
      ChosenInFields(root, uploads, files, choice);
      InStepIff(files, volume);
      if DeletionCommits(|mine|, |gone|, fault) {
        CommittedDeletion(root, files, uploads, volume, choice, fault);
      } else {
        FailedDeletion(root, files, uploads, volume, choice, fault.value);
      }
      var savedUploads, savedFiles := uploads, files;
      committed := RunDeletion(choice, fault);
      if !committed { uploads, files := savedUploads, savedFiles; }
      FewerStayOutside(root, savedFiles, savedUploads, old(volume), files, uploads, volume, used);
      InStepIff(files, volume);
    }

    /** The body of the transaction. */
    method RunDeletion(choice: Choice, fault: Option<nat>) returns (committed: bool)
      modifies this`uploads, this`files, this`volume
      ensures var mine, gone := ChosenFiles(old(files), choice), Chosen(old(uploads), choice);
        && (committed <==> DeletionCommits(|mine|, |gone|, fault))
        && volume == AfterDeletion(root, old(volume), mine, gone, fault)
      ensures committed ==> uploads == KeptUploads(old(uploads), choice) && files == KeptFiles(old(files), choice)
    {
      hide Chosen, ChosenFiles, KeptUploads, KeptFiles, WithoutDirectory;
      var gone, mine := Chosen(uploads, choice), ChosenFiles(files, choice);
      assert Paths(mine[..0]) == {} && volume - {} == volume;
      if fault == Some(0) { return false; }
      files := KeptFiles(files, choice);
      var whole := DeleteFiles(mine, fault);
      if !whole || fault == Some(|mine| + 1) { return false; }
      uploads := KeptUploads(uploads, choice);
      whole := DeleteDirectories(gone, |mine|, fault);
      committed := whole && fault != Some(|mine| + |gone| + 2);
    }
  }

  lemma InOrderParts(root: Place, history: seq<Upload>, uploads: seq<Upload>, nextPk: nat,
                     files: seq<FileRow>, volume: Volume, used: set<string>)
    requires InOrder(root, history, uploads, nextPk, files, volume, used)
    ensures PathsDistinct(files) && FilesOwned(root, files, uploads) && RowsOrdered(root, uploads)
    ensures StraysOutside(root, files, uploads, volume)
  {
  }

  lemma WrittenWhole(paths: seq<StoredFile>, fault: Option<nat>, partial: Option<Bytes>)
    requires UploadCommits(|paths|, fault)
    ensures Written(paths, fault, partial) == paths
  {
  }

  lemma FewerStayOutside(root: Place, files: seq<FileRow>, uploads: seq<Upload>, volume: Volume,
                         keptFiles: seq<FileRow>, kept: seq<Upload>, after: Volume, used: set<string>)
    requires StraysOutside(root, files, uploads, volume) && InUsed(root, uploads, volume, used)
    requires (forall u | u in kept :: u in uploads) && Stray(keptFiles, after) == Stray(files, volume)
    requires after.Keys <= volume.Keys
    ensures StraysOutside(root, keptFiles, kept, after) && InUsed(root, kept, after, used)
  {
    hide Target;
  }

  // ----- runs that fail -----

  const ROW: Upload := Upload(0, 1, 0, None, None, None, "dropzones/1/a/", "")

  lemma RowIsInside(root: Place)
    ensures Removable(root, ROW.directory) && DirectoryOf(root, ROW) < DirectoryOf(root, ROW) + ["t.csv"]
  {
    assert Decimal(1) == "1";
    assert ROW.directory == Printed(1, "a");
    PrintedTarget(root, 1, "a");
    NamesApart(DirectoryOf(root, ROW), "t.csv", "t.csv");
  }

  /** An upload of one file that ends, after the file was written, with an exception the
      cleanup is not written for: no row, and the file stays. */
  lemma UncaughtLeavesFile(root: Place, content: Bytes)
    ensures var at, paths := DirectoryOf(root, ROW) + ["t.csv"], [StoredFile("t.csv", content)];
      && DirectoryUnused(root, map[], [], ROW.directory) && !UploadCommits(|paths|, Some(2))
      && AfterUpload(root, map[], ROW.directory, paths, Some(2), None, false) == map[at := content]
      && Stray([], map[at := content]) == {at}
  {
    hide Target, Removable;
    RowIsInside(root);
    var paths := [StoredFile("t.csv", content)];
    assert Written(paths, Some(2), None) == paths;
    assert paths[..0] == [] && paths[0] == StoredFile("t.csv", content);
    assert WithFiles(map[], DirectoryOf(root, ROW), paths[..0]) == map[];
  }

  /** One upload of one file whose deletion fails at the commit: the rows are back, the file
      is not. */
  lemma FailedCommitLosesFile(root: Place, content: Bytes)
    ensures var at := DirectoryOf(root, ROW) + ["t.csv"];
      var files, choice := [FileRow(0, at)], Choice({0}, {});
      && OneToOne(files, map[at := content]) && RowsOrdered(root, [ROW]) && FilesOwned(root, files, [ROW])
      && !DeletionCommits(|ChosenFiles(files, choice)|, |Chosen([ROW], choice)|, Some(4))
      && AfterDeletion(root, map[at := content], ChosenFiles(files, choice), Chosen([ROW], choice), Some(4)) == map[]
  {
    hide Target, Removable, AfterDeletion;
    var at := DirectoryOf(root, ROW) + ["t.csv"];
    var files, choice := [FileRow(0, at)], Choice({0}, {});
    RowIsInside(root);
    assert files[0] in files && ROW in [ROW];
    assert ChosenFiles(files, choice) == files && Chosen([ROW], choice) == [ROW];
    assert Paths(files) == {at};
    DirectoriesAreEmptyByThen(root, files, [ROW], map[at := content], choice, Some(4));
    assert files[..1] == files;
  }

  lemma RunGrows(history: seq<Upload>, upload: Upload)
    ensures Run(history + [upload]) == ClipAll(Run(history), upload) + [upload]
  {
    assert (history + [upload])[..|history|] == history;
  }

  lemma KeysBelow(history: seq<Upload>, uploads: seq<Upload>, bound: nat)
    requires Surviving(history, uploads) && forall u | u in history :: u.pk < bound
    ensures forall u | u in uploads :: u.pk < bound
  {
    forall u | u in uploads ensures u.pk < bound {
      var i: nat :| i < |history| && ClosedForm(history, i, u);
      assert history[i].pk == u.pk && history[i] in history;
    }
  }
}
