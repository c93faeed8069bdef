/** Writing the incoming files of one upload to a temporary directory. */
module Spool {
  import opened Prelude
  import opened Text

  /** A file as the client sends it: a name it chose, and its content in chunks. */
  datatype Incoming = Incoming(name: Option<string>, chunks: seq<Bytes>)

  function ClientName(file: Incoming): string {
    PathName(if file.name.None? || file.name.value == "" then "upload" else file.name.value)
  }

  function Content(file: Incoming): Bytes {
    Flatten(file.chunks)
  }

  /** The `counter`-th name tried for a file. */
  function Candidate(name: string, counter: nat): string {
    if counter == 0 then name else Stem(name) + "_" + Decimal(counter) + Suffix(name)
  }

  lemma UploadIsPlain()
    ensures PathName("upload") == "upload"
  {
    assert '/' !in "upload";
    PathNameDropsDirectories("", "upload");
  }

  /** The names tried: the client's own without its directory parts, or "upload" if it gave
      none, and then with a counter before the extension. */
  lemma NamesTried(directories: string, stem: string, extension: string, counter: nat)
    requires stem != "" && extension != "" && '/' !in stem && '/' !in extension && '.' !in extension
    ensures ClientName(Incoming(Some(directories + "/" + (stem + "." + extension)), [])) == stem + "." + extension
    ensures ClientName(Incoming(None, [])) == "upload" && ClientName(Incoming(Some(""), [])) == "upload"
    ensures Candidate(stem + "." + extension, 0) == stem + "." + extension
    ensures counter > 0 ==>
      Candidate(stem + "." + extension, counter) == stem + "_" + Decimal(counter) + "." + extension
  {
    hide PathName, Stem, Suffix, Decimal;
    var name := stem + "." + extension;
    assert |name| > 1 && '/' !in name && |directories + "/" + name| > 0;
    UploadIsPlain();
    PathNameDropsDirectories(directories, name);
    NameSplitsAtLastDot(stem, extension);
    assert stem + "_" + Decimal(counter) + ("." + extension) == stem + "_" + Decimal(counter) + "." + extension;
  }

  /** The names a directory always resolves, itself and its parent. */
  predicate Reserved(name: string) {
    name == "" || name == ".."
  }

  predicate Taken(present: set<string>, name: string) {
    name in present || Reserved(name)
  }

  /** `counter` is the first free candidate. */
  ghost predicate FirstFree(present: set<string>, name: string, counter: nat) {
    && !Taken(present, Candidate(name, counter))
    && forall j: nat | j < counter :: Taken(present, Candidate(name, j))
  }

  lemma CandidatesDistinct(name: string, j: nat, k: nat)
    requires j < k
    ensures Candidate(name, j) != Candidate(name, k)
  {
    var a, b := Candidate(name, j), Candidate(name, k);
    var stem, suffix := Stem(name), Suffix(name);
    assert name == stem + suffix;
    if j == 0 {
      assert |a| < |b|;
    } else if a == b {
      assert Decimal(j) == a[|stem| + 1..|a| - |suffix|];
      assert Decimal(k) == b[|stem| + 1..|b| - |suffix|];
      DecimalInjective(j, k);
    }
  }

  /** Only the first candidate can be a reserved name. */
  lemma NumberedNotReserved(name: string, k: nat)
    requires k > 0
    ensures !Reserved(Candidate(name, k))
  {
    var c := Candidate(name, k);
    assert c[|Stem(name)|] == '_';
  }

  /** Distinct candidates fill a set of taken names only up to its size. */
  lemma {:induction false} CandidatesFit(name: string, taken: set<string>, n: nat)
    requires forall j: nat | j < n :: Candidate(name, j) in taken
    ensures n <= |taken|
  {
    if n > 0 {
      var last := Candidate(name, n - 1);
      forall j: nat | j < n - 1 ensures Candidate(name, j) in taken - {last} { CandidatesDistinct(name, j, n - 1); }
      CandidatesFit(name, taken - {last}, n - 1);
    }
  }

  lemma SearchBounded(present: set<string>, name: string, n: nat)
    requires forall j: nat | j < n :: Taken(present, Candidate(name, j))
    ensures n <= |present| + if Reserved(name) then 1 else 0
  {
    var taken := present + if Reserved(name) then {name} else {};
    forall j: nat | j < n ensures Candidate(name, j) in taken {
      if j > 0 { NumberedNotReserved(name, j); }
    }
    CandidatesFit(name, taken, n);
  }

  /** A directory on disk, its files by name. */
  class Directory {
    var entries: map<string, Bytes>

    constructor ()
      ensures entries == map[]
    {
      entries := map[];
    }

    /** `target.exists()`. */
    predicate Exists(name: string)
      reads this
    {
      Taken(entries.Keys, name)
    }

    /** The first free name for a file; the search ends within a bound set by the files
        already there. */
    method FreeName(name: string) returns (target: string, counter: nat)
      ensures target == Candidate(name, counter) && FirstFree(entries.Keys, name, counter)
      ensures counter <= |entries.Keys| + if Reserved(name) then 1 else 0
    {
      target, counter := name, 0;
      while Exists(target)
        invariant target == Candidate(name, counter)
        invariant forall j: nat | j < counter :: Taken(entries.Keys, Candidate(name, j))
        invariant counter <= |entries.Keys| + if Reserved(name) then 1 else 0
        decreases |entries.Keys| + 1 - counter
      {
        SearchBounded(entries.Keys, name, counter + 1);
        counter := counter + 1;
        target := Stem(name) + "_" + Decimal(counter) + Suffix(name);
      }
    }

    /** Opens a file for writing and appends its chunks one by one. */
    method Write(name: string, chunks: seq<Bytes>)
      modifies this
      ensures entries == old(entries)[name := Flatten(chunks)]
    {
      entries := entries[name := []];
      var i := 0;
      while i < |chunks|
        invariant 0 <= i <= |chunks|
        invariant entries == old(entries)[name := Flatten(chunks[..i])]
      {
        assert chunks[..i + 1] == chunks[..i] + [chunks[i]];
        FlattenSnoc(chunks[..i], chunks[i]);
        entries := entries[name := entries[name] + chunks[i]];
        i := i + 1;
      }
      assert chunks[..i] == chunks;
    }
  }

  /** The directory after writing `paths` for the first files of an upload. */
  ghost predicate Spooled(files: seq<Incoming>, paths: seq<string>, entries: map<string, Bytes>) {
    && |paths| <= |files|
    && Distinct(paths)
    && (forall i | 0 <= i < |paths| :: paths[i] in entries && entries[paths[i]] == Content(files[i]))
    && (forall name | name in entries :: name in paths)
  }

  ghost function NamesOf(paths: seq<string>): set<string> {
    set p | p in paths
  }

  /** Each name is the file's own, or the first numbered variant free when it was written. */
  ghost predicate NamedInTurn(files: seq<Incoming>, paths: seq<string>)
    requires |paths| <= |files|
  {
    forall i | 0 <= i < |paths| :: NamedNext(NamesOf(paths[..i]), ClientName(files[i]), paths[i])
  }

  ghost predicate NamedNext(present: set<string>, name: string, path: string) {
    exists counter: nat :: path == Candidate(name, counter) && FirstFree(present, name, counter)
  }

  /** Whatever names the clients choose, each file is written directly inside the directory. */
  lemma NamesStayInside(files: seq<Incoming>, paths: seq<string>, i: nat)
    requires |paths| <= |files| && NamedInTurn(files, paths) && i < |paths|
    ensures paths[i] !in {"", ".", ".."} && '/' !in paths[i]
  {
    hide PathName, Stem, Suffix, Decimal;
    var name := ClientName(files[i]);
    var counter: nat :| paths[i] == Candidate(name, counter) && FirstFree(NamesOf(paths[..i]), name, counter);
    var given := if files[i].name.None? || files[i].name.value == "" then "upload" else files[i].name.value;
    PathNameHasNoSlash(given);
    PathNameIsNoDot(given);
    DecimalHasDigits(counter);
    StemAndSuffix(name);
    if counter > 0 {
      NumberedNotReserved(name, counter);
      assert paths[i][|Stem(name)|] == '_';
    }
  }

  lemma StemAndSuffix(name: string)
    ensures name == Stem(name) + Suffix(name)
  {
  }

  /** Spooling loses nothing: one path per file in upload order, no two alike, each holding
      its own file's content at the end, and nothing else in the directory. */
  method SpoolFiles(files: seq<Incoming>, dir: Directory) returns (paths: seq<string>)
    requires dir.entries == map[]
    modifies dir
    ensures |paths| == |files| && Spooled(files, paths, dir.entries)
    ensures NamedInTurn(files, paths)
  {
    paths := [];
    while |paths| < |files|
      invariant Spooled(files, paths, dir.entries)
      invariant NamedInTurn(files, paths)
      decreases |files| - |paths|
    {
      var file := files[|paths|];
      var target, counter := dir.FreeName(ClientName(file));
      NameNext(files, paths, dir.entries, target, counter);
      dir.Write(target, file.chunks);
      paths := paths + [target];
    }
  }

  lemma NameNext(files: seq<Incoming>, paths: seq<string>, before: map<string, Bytes>, target: string, counter: nat)
    requires |paths| < |files| && Spooled(files, paths, before) && NamedInTurn(files, paths)
    requires target == Candidate(ClientName(files[|paths|]), counter)
    requires FirstFree(before.Keys, ClientName(files[|paths|]), counter)
    ensures Spooled(files, paths + [target], before[target := Content(files[|paths|])])
    ensures NamedInTurn(files, paths + [target])
  {
    hide Candidate, ClientName, Content;
    assert target !in paths;
    SpooledNext(files, paths, before, target);
    assert NamesOf(paths) == before.Keys;
    assert NamedNext(NamesOf(paths), ClientName(files[|paths|]), target);
    NamedInTurnNext(files, paths, target);
  }

  lemma SpooledNext(files: seq<Incoming>, paths: seq<string>, before: map<string, Bytes>, target: string)
    requires |paths| < |files| && Spooled(files, paths, before) && target !in paths
    ensures Spooled(files, paths + [target], before[target := Content(files[|paths|])])
  {
    hide Content;
    assert forall i | 0 <= i < |paths| :: paths[i] in paths;
  }

  lemma NamedInTurnNext(files: seq<Incoming>, paths: seq<string>, target: string)
    requires |paths| < |files| && NamedInTurn(files, paths)
    requires NamedNext(NamesOf(paths), ClientName(files[|paths|]), target)
    ensures NamedInTurn(files, paths + [target])
  {
    hide NamedNext, ClientName;
    var longer := paths + [target];
    forall i | 0 <= i < |longer| ensures NamedNext(NamesOf(longer[..i]), ClientName(files[i]), longer[i]) {
      assert longer[..i] == paths[..i];
      if i == |paths| { assert paths[..i] == paths; }
    }
  }
}
