/** The combined hash of an upload: the hash of the sorted per-file digests. The hash
    itself is a parameter, a function from bytes to a hexadecimal digest. */
module Digest {
  import opened Prelude
  import opened Sorting

  const BLOCK: nat := 0x10_0000
  const WIDTH: nat := 64

  /** `text.encode()` of ASCII text. */
  function Encode(text: string): Bytes {
    seq(|text|, i requires 0 <= i < |text| => (text[i] as int % 256) as byte)
  }

  function Digests(hash: Bytes -> string, contents: seq<Bytes>): seq<string> {
    Map(hash, contents)
  }

  function Joined(hash: Bytes -> string, contents: seq<Bytes>): Bytes {
    Encode(Flatten(Sort(Digests(hash, contents), StringLeq)))
  }

  function CombinedDigest(hash: Bytes -> string, contents: seq<Bytes>): string {
    hash(Joined(hash, contents))
  }

  /** Hashes the files block by block, in whatever order they come. */
  method CombinedHash(hash: Bytes -> string, contents: seq<Bytes>) returns (digest: string)
    ensures digest == CombinedDigest(hash, contents)
  {
    var digests := [];
    for i := 0 to |contents|
      invariant digests == Digests(hash, contents[..i])
    {
      var hashed, rest := [], contents[i];
      while rest != []
        invariant hashed + rest == contents[i]
        decreases |rest|
      {
        var size := if |rest| < BLOCK then |rest| else BLOCK;
        assert rest == rest[..size] + rest[size..];
        hashed, rest := hashed + rest[..size], rest[size..];
      }
      assert hashed == contents[i];
      digests := digests + [hash(hashed)];
    }
    assert contents[..|contents|] == contents;
    digest := hash(Encode(Flatten(Sort(digests, StringLeq))));
  }

  // ----- order does not matter -----

  lemma {:induction false} DigestsCount(hash: Bytes -> string, contents: seq<Bytes>, x: Bytes)
    requires forall y | y in contents && hash(y) == hash(x) :: y == x
    ensures multiset(Digests(hash, contents))[hash(x)] == multiset(contents)[x]
  {
    if contents != [] {
      assert contents == [contents[0]] + contents[1..];
      assert Digests(hash, contents) == [hash(contents[0])] + Digests(hash, contents[1..]);
      DigestsCount(hash, contents[1..], x);
    }
  }

  /** The combined digest is the same for every order of the files. */
  lemma OrderDoesNotMatter(hash: Bytes -> string, p: seq<Bytes>, q: seq<Bytes>)
    requires multiset(p) == multiset(q)
    ensures CombinedDigest(hash, p) == CombinedDigest(hash, q)
  {
    MapOfPermutation(hash, p, q);
    StringOrder();
    SortCorrect(Digests(hash, p), StringLeq);
    SortCorrect(Digests(hash, q), StringLeq);
    OrderedUnique(Sort(Digests(hash, p), StringLeq), Sort(Digests(hash, q), StringLeq), StringLeq);
  }

  /** The digest of an upload is the hash of its files' digests, put in ascending order and
      joined without a separator. */
  lemma DigestOfSortedDigests(hash: Bytes -> string, contents: seq<Bytes>, ascending: seq<string>)
    requires multiset(ascending) == multiset(seq(|contents|, i requires 0 <= i < |contents| => hash(contents[i])))
    requires forall i, j | 0 <= i < j < |ascending| :: StringLeq(ascending[i], ascending[j])
    ensures CombinedDigest(hash, contents) == hash(Encode(Flatten(ascending)))
  {
    assert Digests(hash, contents) == seq(|contents|, i requires 0 <= i < |contents| => hash(contents[i]));
    StringOrder();
    SortCorrect(Digests(hash, contents), StringLeq);
    OrderedUnique(Sort(Digests(hash, contents), StringLeq), ascending, StringLeq);
  }

  // ----- equal digests mean equal contents -----

  ghost predicate FixedWidth(hash: Bytes -> string) {
    forall x: Bytes :: |hash(x)| == WIDTH && forall i | 0 <= i < |hash(x)| :: (hash(x)[i] as int) < 128
  }

  /** No two of these inputs share a digest. */
  ghost predicate CollisionFree(hash: Bytes -> string, inputs: set<Bytes>) {
    forall x, y | x in inputs && y in inputs && hash(x) == hash(y) :: x == y
  }

  /** Everything two uploads ever feed to the hash. */
  ghost function Hashed(hash: Bytes -> string, p: seq<Bytes>, q: seq<Bytes>): set<Bytes> {
    (set x | x in p) + (set x | x in q) + {Joined(hash, p), Joined(hash, q)}
  }

  ghost predicate AllWide(digests: seq<string>) {
    forall d | d in digests :: |d| == WIDTH && forall i | 0 <= i < |d| :: (d[i] as int) < 128
  }

  lemma {:induction false} JoinedLength(a: seq<string>)
    requires AllWide(a)
    ensures |Flatten(a)| == WIDTH * |a|
  {
    if a != [] { JoinedLength(a[1..]); }
  }

  /** Digests of one width can be told apart in the joined text. */
  lemma {:induction false} JoinedDecodes(a: seq<string>, b: seq<string>)
    requires AllWide(a) && AllWide(b) && Flatten(a) == Flatten(b)
    ensures a == b
  {
    JoinedLength(a);
    JoinedLength(b);
    if a != [] {
      assert a[0] == Flatten(a)[..WIDTH] && b[0] == Flatten(b)[..WIDTH];
      assert Flatten(a[1..]) == Flatten(a)[WIDTH..] && Flatten(b[1..]) == Flatten(b)[WIDTH..];
      JoinedDecodes(a[1..], b[1..]);
      assert a == [a[0]] + a[1..] && b == [b[0]] + b[1..];
    }
  }

  lemma {:induction false} JoinedIsAscii(a: seq<string>)
    requires AllWide(a)
    ensures forall i | 0 <= i < |Flatten(a)| :: (Flatten(a)[i] as int) < 128
  {
    if a != [] { JoinedIsAscii(a[1..]); }
  }

  lemma EncodeInjective(a: string, b: string)
    requires Encode(a) == Encode(b)
    requires forall i | 0 <= i < |a| :: (a[i] as int) < 128
    requires forall i | 0 <= i < |b| :: (b[i] as int) < 128
    ensures a == b
  {
    assert |Encode(a)| == |a| && |Encode(b)| == |b|;
    forall i | 0 <= i < |a| ensures a[i] == b[i] {
      assert Encode(a)[i] == Encode(b)[i];
    }
  }

  /** The digest is a fingerprint of the multiset of contents: as long as the hash does not
      collide on the inputs at hand, two uploads get equal digests exactly when they hold
      the same contents equally often. */
  lemma DigestIsFingerprint(hash: Bytes -> string, p: seq<Bytes>, q: seq<Bytes>)
    requires FixedWidth(hash) && CollisionFree(hash, Hashed(hash, p, q))
    ensures CombinedDigest(hash, p) == CombinedDigest(hash, q) <==> multiset(p) == multiset(q)
  {
    if multiset(p) == multiset(q) {
      OrderDoesNotMatter(hash, p, q);
    } else if CombinedDigest(hash, p) == CombinedDigest(hash, q) {
      SameJoinedSameContents(hash, p, q);
    }
  }

  lemma SameJoinedSameContents(hash: Bytes -> string, p: seq<Bytes>, q: seq<Bytes>)
    requires FixedWidth(hash) && CollisionFree(hash, Hashed(hash, p, q))
    requires Joined(hash, p) == Joined(hash, q)
    ensures multiset(p) == multiset(q)
  {
    StringOrder();
    hide Sort, StringLeq, Ordered, TotalPreorder;
    var a, b := Sort(Digests(hash, p), StringLeq), Sort(Digests(hash, q), StringLeq);
    SortCorrect(Digests(hash, p), StringLeq);
    SortCorrect(Digests(hash, q), StringLeq);
    JoinedIsAscii(a);
    JoinedIsAscii(b);
    EncodeInjective(Flatten(a), Flatten(b));
    JoinedDecodes(a, b);
    forall x ensures multiset(p)[x] == multiset(q)[x] {
      if x in p || x in q {
        DigestsCount(hash, p, x);
        DigestsCount(hash, q, x);
      }
    }
  }
}
