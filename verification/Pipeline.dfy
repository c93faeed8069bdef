/** `process_upload`: spool, hash, check, convert, store. Checkers and converters are
    functions of the spooled files that may fail. */
module Pipeline {
  import opened Prelude
  import opened Sorting
  import opened Validity
  import opened MediaRoot
  import opened Spool
  import opened Digest
  import opened UploadStore

  datatype UploadError =
    | NoFiles
    | UnknownFunction(name: string)
    | Rejected(message: string)
    | ConversionFailed(message: string)
    | ConversionProducedNothing
    | StorageFailed

  /** A checker reports the message it raised, if any. */
  type Checker = seq<StoredFile> -> Option<string>

  /** A converter reports its message or the files it left in the output directory. */
  type Converter = seq<StoredFile> -> Result<seq<StoredFile>, string>

  datatype Dropzone = Dropzone(pk: nat, checker: Option<string>, converter: Option<string>)

  datatype Registry = Registry(checkers: map<string, Checker>, converters: map<string, Converter>)

  function MessageOr(message: string, default: string): string {
    if message == "" then default else message
  }

  /** The rejection of the dropzone's checker, if it has one and it objects. */
  function CheckerVerdict(registry: Registry, dropzone: Dropzone, files: seq<StoredFile>): Option<UploadError> {
    match dropzone.checker
    case None => None
    case Some(name) =>
      if name !in registry.checkers then Some(UnknownFunction(name))
      else match registry.checkers[name](files)
        case None => None
        case Some(message) => Some(Rejected(MessageOr(message, "The files were rejected.")))
  }

  predicate NameLeq(a: StoredFile, b: StoredFile) {
    StringLeq(a.name, b.name)
  }

  /** The files to store: the spooled ones, or the converter's output by name. */
  function Converted(registry: Registry, dropzone: Dropzone, files: seq<StoredFile>)
    : Result<seq<StoredFile>, UploadError>
  {
    match dropzone.converter
    case None => Ok(files)
    case Some(name) =>
      if name !in registry.converters then Err(UnknownFunction(name))
      else match registry.converters[name](files)
        case Err(message) => Err(ConversionFailed(MessageOr(message, "The files could not be converted.")))
        case Ok(produced) => if produced == [] then Err(ConversionProducedNothing) else Ok(Sort(produced, NameLeq))
  }

  /** A directory listing names no file twice. */
  ghost predicate ListsDirectories(registry: Registry) {
    forall name, files: seq<StoredFile> | name in registry.converters ::
      var produced := registry.converters[name](files);
      produced.Ok? ==> NamesDistinct(produced.value)
  }

  function Contents(files: seq<Incoming>): seq<Bytes> {
    seq(|files|, i requires 0 <= i < |files| => Content(files[i]))
  }

  lemma {:induction false} InsertKeepsNames(f: StoredFile, s: seq<StoredFile>)
    requires NamesDistinct(s) && forall g | g in s :: g.name != f.name
    ensures NamesDistinct(Insert(f, s, NameLeq))
    ensures forall g :: g in Insert(f, s, NameLeq) <==> g == f || g in s
  {
    if s != [] && !NameLeq(f, s[0]) {
      InsertKeepsNames(f, s[1..]);
      var rest := Insert(f, s[1..], NameLeq);
      forall g | g in rest ensures g.name != s[0].name {
        if g != f {
          var i :| 0 <= i < |s[1..]| && s[1..][i] == g;
          assert s[i + 1] == g;
        } else {
          assert s[0] in s;
        }
      }
    }
  }

  lemma {:induction false} SortKeepsNames(s: seq<StoredFile>)
    requires NamesDistinct(s)
    ensures NamesDistinct(Sort(s, NameLeq))
    ensures forall g :: g in Sort(s, NameLeq) <==> g in s
  {
    if s != [] {
      SortKeepsNames(s[1..]);
      forall g | g in s[1..] ensures g.name != s[0].name {
        var i :| 0 <= i < |s[1..]| && s[1..][i] == g;
        assert s[i + 1] == g;
      }
      InsertKeepsNames(s[0], Sort(s[1..], NameLeq));
    }
  }

  function Names(stored: seq<StoredFile>): seq<string> {
    seq(|stored|, i requires 0 <= i < |stored| => stored[i].name)
  }

  /** The uploaded contents in upload order, each under the name its client gave it or the
      first numbered variant free by then. */
  ghost predicate StoresAsUploaded(files: seq<Incoming>, stored: seq<StoredFile>) {
    && |stored| == |files| && NamesDistinct(stored)
    && (forall i | 0 <= i < |files| :: stored[i].content == Content(files[i]))
    && NamedInTurn(files, Names(stored))
  }

  /** The checker is asked first, then the converter, both about the spooled files. */
  function Processed(registry: Registry, dropzone: Dropzone, spooled: seq<StoredFile>)
    : (r: Result<seq<StoredFile>, UploadError>)
    ensures r.Err? ==> !r.error.StorageFailed?
  {
    var verdict := CheckerVerdict(registry, dropzone, spooled);
    if verdict.Some? then Err(verdict.value) else Converted(registry, dropzone, spooled)
  }

  ghost predicate IsOutcome(registry: Registry, dropzone: Dropzone, files: seq<Incoming>,
                            prepared: Result<seq<StoredFile>, UploadError>) {
    exists spooled :: StoresAsUploaded(files, spooled) && prepared == Processed(registry, dropzone, spooled)
  }

  /** The checker and the converter stage in plain terms. A dropzone's checker is asked, and
      what it objects to is rejected under its own message or the default one; only then is
      the converter asked. Its output is stored by name, its failure and its silence are
      errors, and so is a name the registry does not know. */
  lemma StagesInTurn(registry: Registry, dropzone: Dropzone, spooled: seq<StoredFile>)
    ensures var r := Processed(registry, dropzone, spooled);
      match dropzone.checker
      case Some(name) =>
        if name !in registry.checkers then r == Err(UnknownFunction(name))
        else if registry.checkers[name](spooled) == Some("") then r == Err(Rejected("The files were rejected."))
        else if registry.checkers[name](spooled).Some? then r == Err(Rejected(registry.checkers[name](spooled).value))
        else Accepted(registry, dropzone, spooled, r)
      case None => Accepted(registry, dropzone, spooled, r)
  {
    if dropzone.converter.Some? && dropzone.converter.value in registry.converters {
      var made := registry.converters[dropzone.converter.value](spooled);
      if made.Ok? && made.value != [] { SortedByName(made.value); }
    }
  }

  /** What comes of files the checker lets pass. */
  ghost predicate Accepted(registry: Registry, dropzone: Dropzone, spooled: seq<StoredFile>,
                           r: Result<seq<StoredFile>, UploadError>) {
    match dropzone.converter
    case None => r == Ok(spooled)
    case Some(name) =>
      if name !in registry.converters then r == Err(UnknownFunction(name))
      else match registry.converters[name](spooled)
        case Err(message) =>
          r == Err(ConversionFailed(if message == "" then "The files could not be converted." else message))
        case Ok(made) =>
          if made == [] then r == Err(ConversionProducedNothing)
          else r.Ok? && multiset(r.value) == multiset(made)
               && forall i, j | 0 <= i < j < |r.value| :: StringLeq(r.value[i].name, r.value[j].name)
  }

  lemma SortedByName(made: seq<StoredFile>)
    ensures multiset(Sort(made, NameLeq)) == multiset(made)
    ensures forall i, j | 0 <= i < j < |Sort(made, NameLeq)| ::
      StringLeq(Sort(made, NameLeq)[i].name, Sort(made, NameLeq)[j].name)
  {
    StringOrder();
    SortCorrect(made, NameLeq);
    var out := Sort(made, NameLeq);
    forall i, j | 0 <= i < j < |out| ensures StringLeq(out[i].name, out[j].name) { assert NameLeq(out[i], out[j]); }
  }

  /** Everything up to the store: the files to write and the digest of the upload. */
  method Prepare(registry: Registry, hash: Bytes -> string, dropzone: Dropzone, files: seq<Incoming>)
    returns (prepared: Result<seq<StoredFile>, UploadError>, digest: string)
    requires ListsDirectories(registry)
    ensures prepared.Ok? ==> files != [] && NamesDistinct(prepared.value)
    ensures prepared.Ok? ==> digest == CombinedDigest(hash, Contents(files))
    ensures if files == [] then prepared == Err(NoFiles) else IsOutcome(registry, dropzone, files, prepared)
    ensures prepared.Err? ==> !prepared.error.StorageFailed?
  {
    hide CombinedDigest, Processed, ListsDirectories, NamedInTurn;
    digest := "";
    if files == [] { return Err(NoFiles), digest; }
    var in_ := new Directory();
    var names := SpoolFiles(files, in_);
    var entries := in_.entries;
    var spooled := seq(|names|, i requires 0 <= i < |names| && names[i] in entries =>
                                  StoredFile(names[i], entries[names[i]]));
    assert Names(spooled) == names;
    assert StoresAsUploaded(files, spooled);
    var contents := seq(|spooled|, i requires 0 <= i < |spooled| => spooled[i].content);
    assert contents == Contents(files);
    digest := CombinedHash(hash, contents);
    ProcessedNamesDistinct(registry, dropzone, spooled);
    prepared := Processed(registry, dropzone, spooled);
  }

  /** One file row per stored file, in order, of this upload and in its directory. */
  ghost predicate RowsAdded(before: seq<FileRow>, after: seq<FileRow>, pk: nat, directory: Place,
                            stored: seq<StoredFile>) {
    && |after| == |before| + |stored| && after[..|before|] == before
    && forall i | 0 <= i < |stored| :: after[|before| + i] == FileRow(pk, directory + [stored[i].name])
  }

  lemma RowsInFields(files: seq<FileRow>, pk: nat, directory: Place, stored: seq<StoredFile>)
    ensures RowsAdded(files, files + RowsFor(pk, directory, stored), pk, directory, stored)
  {
  }

  /** Queries find the upload in its dropzone exactly within its period; those for other
      dropzones answer as before. */
  ghost predicate QueriesShow(before: seq<Upload>, after: seq<Upload>, upload: Upload) {
    && (forall t :: upload in ValidAt(after, upload.dropzone, t) <==>
          (upload.validFrom == None || upload.validFrom.value <= t)
          && (upload.validUntil == None || t < upload.validUntil.value))
    && (forall other, t | other != upload.dropzone :: ValidAt(after, other, t) == ValidAt(before, other, t))
  }

  lemma ShownInQueries(before: seq<Upload>, upload: Upload)
    ensures QueriesShow(before, ClipAll(before, upload) + [upload], upload)
  {
    hide ValidAt;
    var after := ClipAll(before, upload) + [upload];
    forall t ensures upload in ValidAt(after, upload.dropzone, t) <==>
      (upload.validFrom == None || upload.validFrom.value <= t)
      && (upload.validUntil == None || t < upload.validUntil.value)
    {
      StoredIsValid(before, upload, t);
    }
    forall other, t | other != upload.dropzone ensures ValidAt(after, other, t) == ValidAt(before, other, t) {
      OthersUndisturbed(before, upload, other, t);
    }
  }

  /** The pipeline stores nothing unless every stage succeeds, except for the files an
      exception leaves behind that the store does not catch. A stored upload carries the
      fingerprint of the files as uploaded, in any order, and without a converter the volume
      holds each uploaded file's content under a name of its own. */
  method ProcessUpload(store: Store, registry: Registry, hash: Bytes -> string, dropzone: Dropzone,
                       files: seq<Incoming>, validFrom: Option<int>, validUntil: Option<int>, user: Option<nat>,
                       directory: string, now: int, fault: Option<nat>, partial: Option<Bytes>, caught: bool)
    returns (result: Result<Upload, UploadError>, stored: seq<StoredFile>)
    requires store.Sound() && ListsDirectories(registry)
    requires DirectoryUnused(store.root, store.volume, store.uploads, directory)
    requires forall u | u in store.history :: u.uploadedAt < now
    modifies store
    ensures store.Sound()
    ensures result.Err? ==>
      && store.uploads == old(store.uploads) && store.files == old(store.files) && store.history == old(store.history)
    ensures result.Err? && result.error != StorageFailed ==> store.volume == old(store.volume)
    ensures result == Err(StorageFailed) ==>
      && !UploadCommits(|stored|, fault)
      && store.volume == AfterUpload(store.root, old(store.volume), directory, stored, fault, partial, caught)
      && (store.volume == old(store.volume) <==> caught || Written(stored, fault, partial) == [])
    ensures old(store.Valid()) ==> (store.Valid() <==> store.volume == old(store.volume) || result.Ok?)
    ensures result.Ok? ==>
      && files != [] && store.history == old(store.history) + [result.value]
      && result.value == Upload(old(store.nextPk), dropzone.pk, now, user, validFrom, validUntil, directory,
                                CombinedDigest(hash, Contents(files)))
      && RowsAdded(old(store.files), store.files, result.value.pk, Target(store.root, directory), stored)
      && QueriesShow(old(store.uploads), store.uploads, result.value)
      && store.uploads == ClipAll(old(store.uploads), result.value) + [result.value]
      && store.volume == WithFiles(old(store.volume), Target(store.root, directory), stored)
    ensures result.Ok? || result == Err(StorageFailed) ==>
      files != [] && IsOutcome(registry, dropzone, files, Ok(stored))
    ensures result.Err? && result.error != StorageFailed ==>
      || (files == [] && result.error == NoFiles)
      || (files != [] && IsOutcome(registry, dropzone, files, Err(result.error)))
  {
    hide ListsDirectories, CombinedDigest, IsOutcome, NamesDistinct, Target, AfterUpload, Written, InOrder, OneToOne;
    hide ValidAt, ClipAll, WithFiles, Lost, Stray, Places, Run, RowsAdded, QueriesShow;
    stored := [];
    var prepared, digest := Prepare(registry, hash, dropzone, files);
    if prepared.Err? { return Err(prepared.error), stored; }
    stored := prepared.value;
    var request := Request(dropzone.pk, user, validFrom, validUntil, digest);
    var written := store.StoreUpload(request, stored, directory, now, fault, partial, caught);
    result := if written.Err? then Err(StorageFailed) else Ok(written.value);
    if written.Ok? {
      ShownInQueries(old(store.uploads), written.value);
      RowsInFields(old(store.files), written.value.pk, Target(store.root, directory), stored);
    }
  }

  lemma NoConverterStoresUploads(registry: Registry, dropzone: Dropzone, files: seq<Incoming>, stored: seq<StoredFile>)
    requires dropzone.converter.None? && IsOutcome(registry, dropzone, files, Ok(stored))
    ensures StoresAsUploaded(files, stored)
  {
  }

  /** Without a converter every uploaded file can be read back from the volume. */
  lemma UploadedContentReadsBack(registry: Registry, dropzone: Dropzone, files: seq<Incoming>, stored: seq<StoredFile>,
                                 before: Volume, directory: Place, i: nat)
    requires dropzone.converter.None? && IsOutcome(registry, dropzone, files, Ok(stored)) && i < |files|
    ensures i < |stored|
    ensures var path := directory + [stored[i].name];
      path in WithFiles(before, directory, stored) && WithFiles(before, directory, stored)[path] == Content(files[i])
  {
    NoConverterStoresUploads(registry, dropzone, files, stored);
    WithFilesContent(before, directory, stored, i);
  }

  lemma ProcessedNamesDistinct(registry: Registry, dropzone: Dropzone, files: seq<StoredFile>)
    requires ListsDirectories(registry) && NamesDistinct(files)
    ensures Processed(registry, dropzone, files).Ok? ==> NamesDistinct(Processed(registry, dropzone, files).value)
  {
    if Processed(registry, dropzone, files).Ok? && dropzone.converter.Some? {
      SortKeepsNames(registry.converters[dropzone.converter.value](files).value);
    }
  }
}
