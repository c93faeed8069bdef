/** Characters, numbers and file names as text. */
module Text {

  predicate IsSpace(c: char) {
    c == ' ' || 9 <= c as int <= 13
  }

  function Digit(d: nat): char
    requires d < 10
  {
    ('0' as int + d) as char
  }

  function Decimal(n: nat): (s: string)
    ensures |s| >= 1
  {
    if n < 10 then [Digit(n)] else Decimal(n / 10) + [Digit(n % 10)]
  }

  function Value(s: string): int {
    if s == "" then 0 else 10 * Value(s[..|s| - 1]) + (s[|s| - 1] as int - '0' as int)
  }

  lemma {:induction false} DecimalReadsBack(n: nat)
    ensures Value(Decimal(n)) == n
  {
    var s := Decimal(n);
    if n < 10 {
      assert s[..0] == "";
    } else {
      assert s[..|s| - 1] == Decimal(n / 10);
      DecimalReadsBack(n / 10);
    }
  }

  lemma DecimalInjective(m: nat, n: nat)
    requires Decimal(m) == Decimal(n)
    ensures m == n
  {
    DecimalReadsBack(m);
    DecimalReadsBack(n);
  }

  /** The index of the last `c` in `s`, or -1. */
  function LastIndexOf(s: string, c: char): (i: int)
    ensures -1 <= i < |s|
    ensures i >= 0 ==> s[i] == c
    ensures forall j | i < j < |s| :: s[j] != c
  {
    if s == "" then -1
    else if s[|s| - 1] == c then |s| - 1
    else LastIndexOf(s[..|s| - 1], c)
  }

  /** The last component of a path, as pathlib reads it: empty and "." components count
      for nothing, and a path without any other component has the empty name. */
  function PathName(path: string): string {
    var i := LastIndexOf(path, '/');
    var last := path[i + 1..];
    if last != "" && last != "." then last
    else if i < 0 then ""
    else PathName(path[..i])
  }

  lemma {:induction false} LastIndexAfter(before: string, c: char, after: string)
    requires c !in after
    ensures LastIndexOf(before + [c] + after, c) == |before|
  {
    var s, n := before + [c] + after, |after|;
    if n == 0 {
      assert s[|s| - 1] == c;
    } else {
      assert s[|s| - 1] == after[n - 1] && after[n - 1] in after;
      assert s[..|s| - 1] == before + [c] + after[..n - 1];
      LastIndexAfter(before, c, after[..n - 1]);
    }
  }

  /** Directory parts are dropped: a plain name is its own, whatever stands before it. */
  lemma PathNameDropsDirectories(directories: string, name: string)
    requires name != "" && name != "." && '/' !in name
    ensures PathName(name) == name && PathName(directories + "/" + name) == name
  {
    LastIndexAfter(directories, '/', name);
    assert directories + "/" + name == directories + ['/'] + name;
    assert (directories + "/" + name)[|directories| + 1..] == name;
    assert LastIndexOf(name, '/') == -1;
  }

  lemma PathNameAfterSlash(path: string, last: string)
    requires '/' !in last
    ensures PathName(path + "/" + last) == if last == "" || last == "." then PathName(path) else last
  {
    hide LastIndexOf;
    LastIndexAfter(path, '/', last);
    var whole := path + "/" + last;
    assert whole == path + ['/'] + last && whole[|path| + 1..] == last && whole[..|path|] == path;
  }

  /** Trailing slashes and dots count for nothing. */
  lemma TrailingIsIgnored(path: string)
    ensures PathName(path + "/") == PathName(path) && PathName(path + "/.") == PathName(path)
  {
    hide PathName;
    PathNameAfterSlash(path, "");
    PathNameAfterSlash(path, ".");
    assert path + "/" + "" == path + "/" && path + "/" + "." == path + "/.";
  }

  lemma PathNameUnfolds(path: string)
    ensures var i := LastIndexOf(path, '/');
      var last := path[i + 1..];
      PathName(path) == if last != "" && last != "." then last else if i < 0 then "" else PathName(path[..i])
  {
    hide LastIndexOf;
  }

  /** No path's name holds a slash. */
  lemma {:induction false} PathNameHasNoSlash(path: string)
    ensures '/' !in PathName(path)
  {
    hide PathName, LastIndexOf;
    PathNameUnfolds(path);
    var i := LastIndexOf(path, '/');
    if i >= 0 && (path[i + 1..] == "" || path[i + 1..] == ".") { PathNameHasNoSlash(path[..i]); }
  }

  /** Nor is it a dot. */
  lemma {:induction false} PathNameIsNoDot(path: string)
    ensures PathName(path) != "."
  {
    hide PathName, LastIndexOf;
    PathNameUnfolds(path);
    var i := LastIndexOf(path, '/');
    if i >= 0 && (path[i + 1..] == "" || path[i + 1..] == ".") { PathNameIsNoDot(path[..i]); }
  }

  lemma {:induction false} DecimalHasDigits(n: nat)
    ensures forall c | c in Decimal(n) :: '0' <= c <= '9'
  {
    if n >= 10 { DecimalHasDigits(n / 10); }
  }

  /** A name splits at its last dot, unless that comes first or last. */
  lemma NameSplitsAtLastDot(stem: string, extension: string)
    requires '.' !in extension
    ensures stem != "" && extension != "" ==>
      Stem(stem + "." + extension) == stem && Suffix(stem + "." + extension) == "." + extension
    ensures Stem(extension) == extension && Suffix(extension) == ""
    ensures Stem("." + extension) == "." + extension && Suffix("." + extension) == ""
  {
    LastIndexAfter(stem, '.', extension);
    assert stem + "." + extension == stem + ['.'] + extension;
    assert (stem + "." + extension)[..|stem|] == stem && (stem + "." + extension)[|stem|..] == "." + extension;
    LastIndexAfter("", '.', extension);
    assert "." + extension == "" + ['.'] + extension;
  }

  function Suffix(name: string): string {
    var i := LastIndexOf(name, '.');
    if 0 < i < |name| - 1 then name[i..] else ""
  }

  function Stem(name: string): string {
    var i := LastIndexOf(name, '.');
    if 0 < i < |name| - 1 then name[..i] else name
  }
}
