/** The uploads volume: where a directory's name leads, and what the guard around removing a
    directory lets through. */
module MediaRoot {
  import opened Prelude
  import opened Text

  /** A resolved absolute path by its components. */
  type Place = seq<string>

  type Volume = map<Place, Bytes>

  /** The texts between the slashes. */
  function Parts(path: string): (parts: seq<string>)
    ensures parts != []
  {
    if path == "" then [""]
    else
      var rest := Parts(path[1..]);
      if path[0] == '/' then [""] + rest else [[path[0]] + rest[0]] + rest[1..]
  }

  /** One component further: empty and "." stay, ".." goes up, never above the top. */
  function Enter(at: Place, part: string): Place {
    if part == "" || part == "." then at
    else if part == ".." then (if at == [] then [] else at[..|at| - 1])
    else at + [part]
  }

  function Resolve(at: Place, parts: seq<string>): Place
    decreases |parts|
  {
    if parts == [] then at else Resolve(Enter(at, parts[0]), parts[1..])
  }

  /** `(root / directory).resolve()`: an absolute directory replaces the root. */
  function Target(root: Place, directory: string): Place {
    Resolve(if directory != "" && directory[0] == '/' then [] else root, Parts(directory))
  }

  /** The guard of `remove_upload_directory`. */
  predicate Removable(root: Place, directory: string) {
    directory != "" && Target(root, directory) != root && root <= Target(root, directory)
  }

  /** The volume after `remove_upload_directory`: files strictly below the directory are gone. */
  function WithoutDirectory(root: Place, volume: Volume, directory: string): Volume {
    if !Removable(root, directory) then volume
    else map p | p in volume && !(Target(root, directory) < p) :: volume[p]
  }

  /** However malformed the name, only files inside a real subdirectory of the root are ever
      removed, and those are if and only if they lie in the directory named. */
  lemma RemovalStaysInside(root: Place, volume: Volume, directory: string, p: Place)
    requires p in volume
    ensures p !in WithoutDirectory(root, volume, directory)
      <==> directory != "" && root < Target(root, directory) < p
    ensures p !in WithoutDirectory(root, volume, directory) ==> root < p && |p| >= |root| + 2
    ensures p in WithoutDirectory(root, volume, directory) ==> WithoutDirectory(root, volume, directory)[p] == volume[p]
  {
    var target := Target(root, directory);
    if root <= target && |root| == |target| { assert target[..|root|] == root; }
  }

  // ----- the directories the program prints -----

  lemma {:induction false} PartsOfJoined(a: string, b: string)
    requires '/' !in a
    ensures Parts(a + "/" + b) == [a] + Parts(b)
  {
    if a == "" {
      assert a + "/" + b == "/" + b && ("/" + b)[1..] == b;
    } else {
      PartsOfJoined(a[1..], b);
      assert (a + "/" + b)[1..] == a[1..] + "/" + b;
      assert [a[0]] + a[1..] == a;
    }
  }

  /** A component that names itself. */
  predicate Plain(part: string) {
    part !in {"", ".", ".."} && '/' !in part
  }

  lemma DecimalIsPlain(n: nat)
    ensures Plain(Decimal(n))
  {
    DecimalHasDigits(n);
    assert Decimal(n)[0] in Decimal(n);
  }

  /** `"dropzones/{}/{}_{}/"` of the dropzone's key and the time with its random suffix. */
  function Printed(dropzone: nat, stamp: string): string {
    "dropzones" + "/" + (Decimal(dropzone) + "/" + (stamp + "/" + ""))
  }

  lemma ResolvePlain(at: Place, part: string, more: seq<string>)
    requires Plain(part)
    ensures Resolve(at, [part] + more) == Resolve(at + [part], more)
  {
    assert ([part] + more)[1..] == more;
  }

  lemma PartsOfPrinted(dropzone: nat, stamp: string)
    requires Plain(stamp)
    ensures Parts(Printed(dropzone, stamp)) == ["dropzones"] + ([Decimal(dropzone)] + ([stamp] + [""]))
    ensures Printed(dropzone, stamp) != "" && Printed(dropzone, stamp)[0] == 'd'
  {
    DecimalIsPlain(dropzone);
    hide Decimal;
    PartsOfJoined("dropzones", Decimal(dropzone) + "/" + (stamp + "/" + ""));
    PartsOfJoined(Decimal(dropzone), stamp + "/" + "");
    PartsOfJoined(stamp, "");
  }

  lemma PrintedTarget(root: Place, dropzone: nat, stamp: string)
    requires Plain(stamp)
    ensures Target(root, Printed(dropzone, stamp)) == root + ["dropzones", Decimal(dropzone), stamp]
    ensures Removable(root, Printed(dropzone, stamp))
  {
    PartsOfPrinted(dropzone, stamp);
    DecimalIsPlain(dropzone);
    hide Decimal, Parts, Printed, Resolve;
    var number := Decimal(dropzone);
    ResolvePlain(root, "dropzones", [number] + ([stamp] + [""]));
    ResolvePlain(root + ["dropzones"], number, [stamp] + [""]);
    ResolvePlain(root + ["dropzones"] + [number], stamp, [""]);
    ResolveEmpty(root + ["dropzones"] + [number] + [stamp]);
    assert root + ["dropzones"] + [number] + [stamp] == root + ["dropzones", number, stamp];
  }

  lemma ResolveEmpty(at: Place)
    ensures Resolve(at, [""]) == at
  {
  }

  lemma {:induction false} ResolveAppend(at: Place, a: seq<string>, b: seq<string>)
    ensures Resolve(at, a + b) == Resolve(Resolve(at, a), b)
    decreases |a|
  {
    if a == [] {
      assert a + b == b;
    } else {
      assert (a + b)[1..] == a[1..] + b;
      ResolveAppend(Enter(at, a[0]), a[1..], b);
    }
  }

  /** How names are read: a plain one leads one down, "." and repeated slashes nowhere, ".."
      one up, and a leading slash starts over at the top. So none of the last four is ever
      removed, nor anything next to the root. */
  lemma NamesAreRead(root: Place, name: string)
    requires Plain(name) && root != []
    ensures Target(root, name) == root + [name] && Target(root, "./" + (name + "/" + "")) == root + [name]
    ensures Target(root, ".") == root && !Removable(root, ".") && !Removable(root, "")
    ensures Target(root, "..") == root[..|root| - 1] && !Removable(root, "..")
    ensures Target(root, name + "/" + "..") == root && !Removable(root, name + "/" + "..")
    ensures Target(root, "/" + name) == [name]
    ensures Target(root, ".." + "/" + name) == root[..|root| - 1] + [name] && !Removable(root, ".." + "/" + name)
  {
    WholeIsOnePart(name);
    WholeIsOnePart(".");
    WholeIsOnePart("..");
    PartsOfJoined(".", name + "/" + "");
    PartsOfJoined(name, "");
    PartsOfJoined(name, "..");
    PartsOfJoined("", name);
    PartsOfJoined("..", name);
    assert "./" + (name + "/" + "") == "." + "/" + (name + "/" + "");
    assert "/" + name == "" + "/" + name;
    hide Parts;
    ResolveOne(root, name);
    ResolveOne(root, ".");
    ResolveOne(root, "..");
    ResolveTwo(root, name, "..");
    ResolveTwo([], "", name);
    ResolveTwo(root, "..", name);
    ResolveTwo(root, ".", name);
    ResolveAppend(root, ["."] + [name], [""]);
    ResolveEmpty(root + [name]);
    assert ["."] + ([name] + [""]) == ["."] + [name] + [""];
    assert (root + [name])[..|root + [name]| - 1] == root;
    assert root <= root[..|root| - 1] + [name] ==> root == root[..|root| - 1] + [name];
  }

  lemma {:induction false} WholeIsOnePart(part: string)
    requires '/' !in part
    ensures Parts(part) == [part]
  {
    if part != "" {
      WholeIsOnePart(part[1..]);
      assert [part[0]] + part[1..] == part;
    }
  }

  lemma ResolveOne(at: Place, part: string)
    ensures Resolve(at, [part]) == Enter(at, part)
  {
    assert [part][1..] == [];
  }

  lemma ResolveTwo(at: Place, a: string, b: string)
    ensures Resolve(at, [a] + [b]) == Enter(Enter(at, a), b)
  {
    assert ([a] + [b])[1..] == [b];
    ResolveOne(Enter(at, a), b);
  }

  /** Neither place lies in the other. */
  predicate Apart(a: Place, b: Place) {
    !(a <= b) && !(b <= a)
  }

  /** Different printed names never lead into one another. */
  lemma PrintedApart(root: Place, dropzone: nat, stamp: string, other: nat, otherStamp: string)
    requires Plain(stamp) && Plain(otherStamp) && (dropzone != other || stamp != otherStamp)
    ensures Apart(Target(root, Printed(dropzone, stamp)), Target(root, Printed(other, otherStamp)))
  {
    PrintedTarget(root, dropzone, stamp);
    PrintedTarget(root, other, otherStamp);
    hide Target, Decimal;
    var a, b := root + ["dropzones", Decimal(dropzone), stamp], root + ["dropzones", Decimal(other), otherStamp];
    if a == b {
      assert a[|root| + 1] == Decimal(dropzone) && b[|root| + 1] == Decimal(other);
      assert a[|root| + 2] == stamp && b[|root| + 2] == otherStamp;
      DecimalInjective(dropzone, other);
    }
  }

  /** A file lies in at most one of two places that are apart. */
  lemma InOneOnly(a: Place, b: Place, p: Place)
    requires Apart(a, b) && a < p
    ensures !(b < p)
  {
  }
}
