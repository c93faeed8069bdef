/** `reorder_fullchain`, second half: serving the blocks leaf first. What openssl prints
    about a block is a parameter. */
module CertificateChain {
  import opened Prelude
  import opened Sorting
  import opened CertificateFile

  // ----- leaf first -----

  /** What openssl prints about a block: the digest of its public key, and the texts of its
      issuer and of its subject. */
  datatype Openssl = Openssl(pubkey: Block -> string, issuer: Block -> string, subject: Block -> string)

  /** The first block the texts single out, or the length of the list. */
  function FirstWith(blocks: seq<Block>, text: Block -> string, wanted: string): (i: nat)
    ensures i <= |blocks|
    ensures i < |blocks| ==> text(blocks[i]) == wanted
    ensures forall j | 0 <= j < i :: text(blocks[j]) != wanted
  {
    if blocks == [] || text(blocks[0]) == wanted then 0 else 1 + FirstWith(blocks[1..], text, wanted)
  }

  predicate SelfSigned(tool: Openssl, b: Block) {
    tool.issuer(b) == tool.subject(b)
  }

  /** From `current` up, each next block being the first whose subject text is the current
      one's issuer text; whatever is left over follows unchanged. */
  function Walk(tool: Openssl, current: Block, rest: seq<Block>): seq<Block>
    decreases |rest|
  {
    if rest == [] || SelfSigned(tool, current) then rest
    else
      var i := FirstWith(rest, tool.subject, tool.issuer(current));
      if i == |rest| then rest else [rest[i]] + Walk(tool, rest[i], Without(rest, i))
  }

  /** The served order of a list of blocks, if one of them carries the key. */
  function Served(tool: Openssl, key: string, blocks: seq<Block>): Option<seq<Block>> {
    var i := FirstWith(blocks, tool.pubkey, key);
    if i == |blocks| then None else Some([blocks[i]] + Walk(tool, blocks[i], Without(blocks, i)))
  }

  /** The content of the file of a number. */
  function BlockOf(blocks: seq<Block>, file: nat): Block {
    if 1 <= file <= |blocks| then blocks[file - 1] else []
  }

  /** The contents of the listed files. */
  function Read(blocks: seq<Block>, files: seq<nat>): seq<Block> {
    Map((file: nat) => BlockOf(blocks, file), files)
  }

  /** The blocks in the order their files list. */
  function Listed(blocks: seq<Block>): seq<Block> {
    Read(blocks, Glob(|blocks|))
  }

  function Reordered(tool: Openssl, key: string, lines: seq<Line>): seq<Line> {
    var served := Served(tool, key, Listed(Blocks(lines)));
    if served.None? then lines else Flatten(served.value)
  }

  // ----- what the walk guarantees -----

  lemma {:induction false} WalkPermutes(tool: Openssl, current: Block, rest: seq<Block>)
    ensures multiset(Walk(tool, current, rest)) == multiset(rest)
    decreases |rest|
  {
    if rest != [] && !SelfSigned(tool, current) {
      var i := FirstWith(rest, tool.subject, tool.issuer(current));
      if i < |rest| {
        WalkPermutes(tool, rest[i], Without(rest, i));
        WithoutCounts(rest, i);
        assert multiset([rest[i]] + Walk(tool, rest[i], Without(rest, i)))
          == multiset{rest[i]} + multiset(Walk(tool, rest[i], Without(rest, i)));
      }
    }
  }

  /** How far the walk follows issuers before it leaves the rest as it is. */
  function Followed(tool: Openssl, current: Block, rest: seq<Block>): (n: nat)
    ensures n <= |rest|
    decreases |rest|
  {
    if rest == [] || SelfSigned(tool, current) then 0
    else
      var i := FirstWith(rest, tool.subject, tool.issuer(current));
      if i == |rest| then 0 else 1 + Followed(tool, rest[i], Without(rest, i))
  }

  /** `s` is what remains of `rest`, in its order. */
  ghost predicate InOrderOf<T(!new)>(s: seq<T>, rest: seq<T>)
    decreases |rest|
  {
    s == rest || exists i :: 0 <= i < |rest| && InOrderOf(s, Without(rest, i))
  }

  /** Up to position `n` every block is certified by the next one. */
  ghost predicate FollowsIssuers(tool: Openssl, walk: seq<Block>, n: nat) {
    && n < |walk|
    && forall i | 0 <= i < n :: tool.subject(walk[i + 1]) == tool.issuer(walk[i]) && !SelfSigned(tool, walk[i])
  }

  /** At position `n` the chain cannot be continued. */
  ghost predicate CannotContinue(tool: Openssl, walk: seq<Block>, n: nat)
    requires n < |walk|
  {
    SelfSigned(tool, walk[n]) || forall b | b in walk[n + 1..] :: tool.subject(b) != tool.issuer(walk[n])
  }

  /** The walk is a chain of issuers, as long as it can be continued, and then the blocks
      left over in their original order. */
  lemma {:induction false} WalkIsChainThenRest(tool: Openssl, current: Block, rest: seq<Block>)
    ensures var walk, n := [current] + Walk(tool, current, rest), Followed(tool, current, rest);
      FollowsIssuers(tool, walk, n) && CannotContinue(tool, walk, n) && InOrderOf(walk[n + 1..], rest)
    decreases |rest|
  {
    hide InOrderOf, SelfSigned;
    var walk, n := [current] + Walk(tool, current, rest), Followed(tool, current, rest);
    var i := FirstWith(rest, tool.subject, tool.issuer(current));
    if rest == [] || SelfSigned(tool, current) || i == |rest| {
      assert walk[1..] == rest;
      AllInOrder(rest);
    } else {
      WalkIsChainThenRest(tool, rest[i], Without(rest, i));
      var inner := [rest[i]] + Walk(tool, rest[i], Without(rest, i));
      assert walk == [current] + inner;
      ChainGrows(tool, current, inner, n - 1);
      OrderFromWithout(inner[n..], rest, i);
    }
  }

  lemma AllInOrder(rest: seq<Block>)
    ensures InOrderOf(rest, rest)
  {
  }

  lemma OrderFromWithout(s: seq<Block>, rest: seq<Block>, i: nat)
    requires i < |rest| && InOrderOf(s, Without(rest, i))
    ensures InOrderOf(s, rest)
  {
  }

  lemma ChainGrows(tool: Openssl, current: Block, inner: seq<Block>, n: nat)
    requires FollowsIssuers(tool, inner, n) && CannotContinue(tool, inner, n)
    requires tool.subject(inner[0]) == tool.issuer(current) && !SelfSigned(tool, current)
    ensures var walk := [current] + inner;
      FollowsIssuers(tool, walk, n + 1) && CannotContinue(tool, walk, n + 1) && walk[n + 2..] == inner[n + 1..]
  {
    var walk := [current] + inner;
    assert walk[n + 2..] == inner[n + 1..];
    forall j | 0 <= j < n + 1 ensures tool.subject(walk[j + 1]) == tool.issuer(walk[j]) && !SelfSigned(tool, walk[j]) {
      if j > 0 { assert walk[j] == inner[j - 1] && walk[j + 1] == inner[j]; }
    }
  }

  /** Reordering correctness: if some block carries the key, the output is a permutation of
      the blocks with the first such block in front. */
  lemma ServedIsLeafFirst(tool: Openssl, key: string, blocks: seq<Block>)
    ensures Served(tool, key, blocks).None? <==> forall b | b in blocks :: tool.pubkey(b) != key
    ensures Served(tool, key, blocks).Some? ==>
      var out, i := Served(tool, key, blocks).value, FirstWith(blocks, tool.pubkey, key);
      && multiset(out) == multiset(blocks)
      && i < |blocks| && out == [blocks[i]] + Walk(tool, blocks[i], Without(blocks, i))
      && tool.pubkey(out[0]) == key && (forall j | 0 <= j < i :: tool.pubkey(blocks[j]) != key)
  {
    var i := FirstWith(blocks, tool.pubkey, key);
    if i < |blocks| {
      WalkPermutes(tool, blocks[i], Without(blocks, i));
      WithoutCounts(blocks, i);
      assert multiset([blocks[i]] + Walk(tool, blocks[i], Without(blocks, i)))
        == multiset{blocks[i]} + multiset(Walk(tool, blocks[i], Without(blocks, i)));
    }
  }

  /** The listing loses and repeats no block. */
  lemma ListedPermutes(blocks: seq<Block>)
    ensures multiset(Listed(blocks)) == multiset(blocks)
  {
    var n := |blocks|;
    NameOrder();
    SortCorrect(Numbers(n), NameLeq);
    MapOfPermutation((file: nat) => BlockOf(blocks, file), Glob(n), Numbers(n));
    assert Read(blocks, Numbers(n)) == blocks;
  }

  /** The file as a whole: without a matching block it passes through unchanged, otherwise
      it holds exactly the same blocks in the served order and nothing between them. */
  lemma ReorderedFile(tool: Openssl, key: string, lines: seq<Line>)
    ensures (forall b | b in Blocks(lines) :: tool.pubkey(b) != key) ==> Reordered(tool, key, lines) == lines
    ensures (exists b :: b in Blocks(lines) && tool.pubkey(b) == key) ==>
      var served, out := Served(tool, key, Listed(Blocks(lines))), Reordered(tool, key, lines);
      && served == Some(Blocks(out)) && Flatten(Blocks(out)) == out
      && multiset(Blocks(out)) == multiset(Blocks(lines))
  {
    var blocks := Blocks(lines);
    ListedPermutes(blocks);
    ServedIsLeafFirst(tool, key, Listed(blocks));
    forall b ensures b in Listed(blocks) <==> b in blocks {
      assert b in multiset(Listed(blocks)) <==> b in multiset(blocks);
    }
    var served := Served(tool, key, Listed(blocks));
    if served.Some? {
      SplitYieldsBlocks(lines);
      forall b | b in served.value ensures IsBlock(b) { assert b in multiset(Listed(blocks)); }
      ConcatenationSplitsBack(served.value);
    }
  }

  // ----- the chain a CA handed out -----

  /** Leaf first, each block directly certified by the next, no two of one subject. */
  ghost predicate IsChain(tool: Openssl, chain: seq<Block>) {
    && (forall i | 0 <= i < |chain| - 1 :: tool.subject(chain[i + 1]) == tool.issuer(chain[i]))
    && (forall i, j | 0 <= i < j < |chain| :: tool.subject(chain[i]) != tool.subject(chain[j]))
  }

  /** The block that certifies the first of a chain is found wherever it stands. */
  lemma NextIsFound(tool: Openssl, chain: seq<Block>, rest: seq<Block>)
    requires |chain| > 1 && IsChain(tool, chain) && multiset(rest) == multiset(chain[1..])
    ensures !SelfSigned(tool, chain[0]) && rest != []
    ensures var i := FirstWith(rest, tool.subject, tool.issuer(chain[0])); i < |rest| && rest[i] == chain[1]
  {
    var i := FirstWith(rest, tool.subject, tool.issuer(chain[0]));
    assert chain[1..][0] == chain[1];
    assert chain[1] in multiset(rest);
    var k :| 0 <= k < |rest| && rest[k] == chain[1];
    assert i <= k;
    assert rest[i] in multiset(chain[1..]);
    var j :| 0 <= j < |chain[1..]| && chain[1..][j] == rest[i];
    assert chain[j + 1] == rest[i];
  }

  lemma ChainTail(tool: Openssl, chain: seq<Block>)
    requires chain != [] && IsChain(tool, chain)
    ensures IsChain(tool, chain[1..])
  {
  }

  lemma {:induction false} WalkRestoresChain(tool: Openssl, chain: seq<Block>, rest: seq<Block>)
    requires chain != [] && IsChain(tool, chain) && multiset(rest) == multiset(chain[1..])
    ensures Walk(tool, chain[0], rest) == chain[1..]
    decreases |chain|
  {
    hide IsChain, FirstWith, Without, SelfSigned;
    assert |multiset(rest)| == |rest| && |multiset(chain[1..])| == |chain[1..]|;
    if |chain| > 1 {
      NextIsFound(tool, chain, rest);
      var i, tail := FirstWith(rest, tool.subject, tool.issuer(chain[0])), chain[1..];
      ChainTail(tool, chain);
      WithoutCounts(rest, i);
      assert tail == [chain[1]] + tail[1..];
      assert multiset(tail[1..]) == multiset(tail) - multiset{chain[1]};
      assert multiset(Without(rest, i)) == multiset(rest) - multiset{chain[1]};
      WalkRestoresChain(tool, tail, Without(rest, i));
    }
  }

  /** Whatever order a file lists a chain in, it is served in the order of the chain. */
  lemma ChainIsRestored(tool: Openssl, key: string, chain: seq<Block>, listed: seq<Block>)
    requires chain != [] && IsChain(tool, chain) && multiset(listed) == multiset(chain)
    requires forall b | b in chain :: tool.pubkey(b) == key <==> b == chain[0]
    ensures Served(tool, key, listed) == Some(chain)
  {
    var i := FirstWith(listed, tool.pubkey, key);
    assert chain[0] in multiset(listed);
    var k :| 0 <= k < |listed| && listed[k] == chain[0];
    assert listed[i] in multiset(chain);
    assert listed[i] == chain[0];
    WithoutCounts(listed, i);
    assert chain == [chain[0]] + chain[1..];
    assert multiset(chain) == multiset{chain[0]} + multiset(chain[1..]);
    assert multiset(chain[1..]) == multiset(chain) - multiset{chain[0]};
    assert multiset(Without(listed, i)) == multiset(listed) - multiset{chain[0]};
    WalkRestoresChain(tool, chain, Without(listed, i));
  }

  // ----- running it again -----

  lemma {:induction false} WalkIsIdempotent(tool: Openssl, current: Block, rest: seq<Block>)
    ensures Walk(tool, current, Walk(tool, current, rest)) == Walk(tool, current, rest)
    decreases |rest|
  {
    if rest != [] && !SelfSigned(tool, current) {
      var i := FirstWith(rest, tool.subject, tool.issuer(current));
      if i < |rest| {
        WalkIsIdempotent(tool, rest[i], Without(rest, i));
        var walk := Walk(tool, current, rest);
        assert FirstWith(walk, tool.subject, tool.issuer(current)) == 0;
        assert Without(walk, 0) == walk[1..] == Walk(tool, rest[i], Without(rest, i));
      }
    }
  }

  lemma ListedInFileOrder(blocks: seq<Block>)
    requires |blocks| <= 9999
    ensures Listed(blocks) == blocks
  {
    GlobIsFileOrder(|blocks|);
  }

  /** Running the script on its own output reproduces that output. */
  lemma ReorderingIsIdempotent(tool: Openssl, key: string, lines: seq<Line>)
    requires |Blocks(lines)| <= 9999
    ensures Reordered(tool, key, Reordered(tool, key, lines)) == Reordered(tool, key, lines)
  {
    var blocks := Blocks(lines);
    ListedInFileOrder(blocks);
    var served := Served(tool, key, blocks);
    if served.Some? {
      var out := served.value;
      ServedIsLeafFirst(tool, key, blocks);
      SplitYieldsBlocks(lines);
      forall b | b in out ensures IsBlock(b) { assert b in multiset(blocks); }
      ConcatenationSplitsBack(out);
      assert |multiset(out)| == |out| && |multiset(blocks)| == |blocks|;
      ListedInFileOrder(out);
      var i := FirstWith(blocks, tool.pubkey, key);
      WalkIsIdempotent(tool, blocks[i], Without(blocks, i));
      assert FirstWith(out, tool.pubkey, key) == 0 && Without(out, 0) == out[1..];
    }
  }

  // ----- the labels openssl prints -----

  /** The tool as the script calls it: issuer and subject come with their labels. */
  function AsPrinted(pubkey: Block -> string, issuer: Block -> string, subject: Block -> string): Openssl {
    Openssl(pubkey, (b: Block) => "issuer=" + issuer(b), (b: Block) => "subject=" + subject(b))
  }

  /** The printed texts never agree, whatever the names: the walk stops at the leaf and
      everything else keeps its order. */
  lemma LabelsStopTheWalk(pubkey: Block -> string, issuer: Block -> string, subject: Block -> string,
                          current: Block, rest: seq<Block>)
    ensures Walk(AsPrinted(pubkey, issuer, subject), current, rest) == rest
  {
    var tool := AsPrinted(pubkey, issuer, subject);
    forall b ensures tool.subject(b) != tool.issuer(current) {
      assert tool.subject(b)[0] == 's' && tool.issuer(current)[0] == 'i';
    }
  }

  /** Numbering the blocks anew, the listing moves none of them iff it is in file order. */
  lemma ListingMovesNothingIff(blocks: seq<Block>)
    requires Distinct(blocks)
    ensures Listed(blocks) == blocks <==> |blocks| <= 9999
  {
    var n := |blocks|;
    GlobIsFileOrder(n);
    NameOrder();
    SortCorrect(Numbers(n), NameLeq);
    if Listed(blocks) == blocks {
      forall k | 0 <= k < n ensures Glob(n)[k] == Numbers(n)[k] {
        assert Glob(n)[k] in Glob(n);
        assert Listed(blocks)[k] == blocks[Glob(n)[k] - 1] == blocks[k];
      }
      assert Glob(n) == Numbers(n);
    }
  }

  /** The script as it stands, on a file of distinct certificates one of which carries the
      key, reproduces its own output if and only if there are at most 9999 of them. */
  lemma RerunReproducesIff(pubkey: Block -> string, issuer: Block -> string, subject: Block -> string,
                           key: string, lines: seq<Line>)
    requires Distinct(Blocks(lines)) && exists b :: b in Blocks(lines) && pubkey(b) == key
    ensures var tool := AsPrinted(pubkey, issuer, subject);
      Reordered(tool, key, Reordered(tool, key, lines)) == Reordered(tool, key, lines) <==> |Blocks(lines)| <= 9999
  {
    var tool, n := AsPrinted(pubkey, issuer, subject), |Blocks(lines)|;
    var listed, out := Listed(Blocks(lines)), Reordered(tool, key, lines);
    ReorderedFile(tool, key, lines);
    var served := Blocks(out);
    assert |multiset(served)| == |served| && |multiset(Blocks(lines))| == n;
    DistinctCounts(served);
    DistinctCounts(Blocks(lines));
    ServedIsLeafFirst(tool, key, listed);
    FirstListsFirst(n);
    assert Listed(served)[0] == served[0];
    ServedOfLeafFirst(pubkey, issuer, subject, key, Listed(served));
    ListingMovesNothingIff(served);
    ReorderedFile(tool, key, out);
    assert served[0] in served;
    if Reordered(tool, key, out) == out { assert Some(served) == Served(tool, key, Listed(served)); }
  }

  /** A list whose first block carries the key is served as it is. */
  lemma ServedOfLeafFirst(pubkey: Block -> string, issuer: Block -> string, subject: Block -> string,
                          key: string, blocks: seq<Block>)
    requires blocks != [] && pubkey(blocks[0]) == key
    ensures Served(AsPrinted(pubkey, issuer, subject), key, blocks) == Some(blocks)
  {
    LabelsStopTheWalk(pubkey, issuer, subject, blocks[0], Without(blocks, 0));
    assert [blocks[0]] + Without(blocks, 0) == blocks;
  }

  /** What the script promises of an order: issuers followed from the first block as far as
      the chain can be continued, the blocks left over after it. */
  ghost predicate ChainThenRest(tool: Openssl, walk: seq<Block>) {
    exists n: nat :: FollowsIssuers(tool, walk, n) && CannotContinue(tool, walk, n)
  }

  lemma {:induction false} ChainStays(tool: Openssl, current: Block, rest: seq<Block>, n: nat)
    requires FollowsIssuers(tool, [current] + rest, n) && CannotContinue(tool, [current] + rest, n)
    ensures Walk(tool, current, rest) == rest
    decreases |rest|
  {
    var walk := [current] + rest;
    assert walk[1..] == rest;
    if n > 0 {
      assert walk[1] == rest[0] && tool.subject(walk[1]) == tool.issuer(walk[0]) && !SelfSigned(tool, walk[0]);
      ChainShrinks(tool, current, rest, n);
      ChainStays(tool, rest[0], rest[1..], n - 1);
      assert FirstWith(rest, tool.subject, tool.issuer(current)) == 0 && Without(rest, 0) == rest[1..];
    }
  }

  lemma ChainShrinks(tool: Openssl, current: Block, rest: seq<Block>, n: nat)
    requires 0 < n && FollowsIssuers(tool, [current] + rest, n) && CannotContinue(tool, [current] + rest, n)
    ensures rest != [] && FollowsIssuers(tool, [rest[0]] + rest[1..], n - 1)
    ensures CannotContinue(tool, [rest[0]] + rest[1..], n - 1)
  {
    var walk := [current] + rest;
    assert [rest[0]] + rest[1..] == rest;
    forall i | 0 <= i < n - 1
      ensures tool.subject(rest[i + 1]) == tool.issuer(rest[i]) && !SelfSigned(tool, rest[i])
    {
      assert walk[i + 1] == rest[i] && walk[i + 2] == rest[i + 1];
    }
    assert walk[n] == rest[n - 1] && walk[n + 1..] == rest[n..];
  }

  /** A walk moves nothing exactly when the order is already as promised. */
  lemma WalkMovesNothingIff(tool: Openssl, current: Block, rest: seq<Block>)
    ensures Walk(tool, current, rest) == rest <==> ChainThenRest(tool, [current] + rest)
  {
    WalkIsChainThenRest(tool, current, rest);
    if n: nat :| FollowsIssuers(tool, [current] + rest, n) && CannotContinue(tool, [current] + rest, n) {
      ChainStays(tool, current, rest, n);
    }
  }

  /** The exact condition of the script's promise: as printed, a file is served as comparing
      the names would serve it if and only if, once the leaf is taken to the front, its
      blocks already stand as promised, or no block carries the key. */
  lemma PrintedKeepsPromiseIff(pubkey: Block -> string, issuer: Block -> string, subject: Block -> string,
                               key: string, blocks: seq<Block>)
    ensures var names, i := Openssl(pubkey, issuer, subject), FirstWith(blocks, pubkey, key);
      Served(AsPrinted(pubkey, issuer, subject), key, blocks) == Served(names, key, blocks)
      <==> i == |blocks| || ChainThenRest(names, [blocks[i]] + Without(blocks, i))
  {
    var i := FirstWith(blocks, pubkey, key);
    if i < |blocks| {
      var leaf, rest := blocks[i], Without(blocks, i);
      LabelsStopTheWalk(pubkey, issuer, subject, leaf, rest);
      WalkMovesNothingIff(Openssl(pubkey, issuer, subject), leaf, rest);
      SameTails(leaf, rest, Walk(Openssl(pubkey, issuer, subject), leaf, rest));
    }
  }

  lemma SameTails(leaf: Block, a: seq<Block>, b: seq<Block>)
    ensures [leaf] + a == [leaf] + b <==> a == b
  {
    assert a == ([leaf] + a)[1..] && b == ([leaf] + b)[1..];
  }

  /** Section 4.4.2 of RFC 8446: each block directly certifies the one before it. */
  ghost predicate CertifiesPrevious(issuer: Block -> string, subject: Block -> string, blocks: seq<Block>) {
    forall i | 0 <= i < |blocks| - 1 :: subject(blocks[i + 1]) == issuer(blocks[i])
  }

  /** As printed, the output is in that order if and only if the file was, once its leaf is
      taken to the front. */
  lemma PrintedOrderIff(pubkey: Block -> string, issuer: Block -> string, subject: Block -> string,
                        key: string, blocks: seq<Block>)
    ensures var served, i := Served(AsPrinted(pubkey, issuer, subject), key, blocks), FirstWith(blocks, pubkey, key);
      served.Some? ==> i < |blocks| && (CertifiesPrevious(issuer, subject, served.value)
                                        <==> CertifiesPrevious(issuer, subject, [blocks[i]] + Without(blocks, i)))
  {
    var i := FirstWith(blocks, pubkey, key);
    if i < |blocks| { LabelsStopTheWalk(pubkey, issuer, subject, blocks[i], Without(blocks, i)); }
  }

  // Blocks of two lines, the subject and the issuer, for an example.
  const ROOT: Block := ["r", "r"]
  const INTERMEDIATE: Block := ["i", "r"]
  const LEAF: Block := ["l", "i"]

  function SubjectLine(b: Block): string {
    if |b| == 2 then b[0] else ""
  }

  function IssuerLine(b: Block): string {
    if |b| == 2 then b[1] else ""
  }

  /** A root-first file of three certificates: by names the chain is restored. */
  lemma RootFirstByNames()
    ensures Served(Openssl(SubjectLine, IssuerLine, SubjectLine), "l", [ROOT, INTERMEDIATE, LEAF])
         == Some([LEAF, INTERMEDIATE, ROOT])
  {
    hide Walk, FirstWith;
    var names := Openssl(SubjectLine, IssuerLine, SubjectLine);
    ChainIsRestored(names, "l", [LEAF, INTERMEDIATE, ROOT], [ROOT, INTERMEDIATE, LEAF]);
  }

  /** As printed, the same file is served with the root before the intermediate certificate. */
  lemma RootFirstAsPrinted()
    ensures Served(AsPrinted(SubjectLine, IssuerLine, SubjectLine), "l", [ROOT, INTERMEDIATE, LEAF])
         == Some([LEAF, ROOT, INTERMEDIATE])
    ensures !CertifiesPrevious(IssuerLine, SubjectLine, [LEAF, ROOT, INTERMEDIATE])
  {
    var blocks := [ROOT, INTERMEDIATE, LEAF];
    assert FirstWith(blocks, SubjectLine, "l") == 2 by {
      assert blocks[1..] == [INTERMEDIATE, LEAF] && blocks[1..][1..] == [LEAF];
      assert SubjectLine(ROOT)[0] == 'r' && SubjectLine(INTERMEDIATE)[0] == 'i' && SubjectLine(LEAF) == "l";
      assert FirstWith([LEAF], SubjectLine, "l") == 0 && FirstWith([INTERMEDIATE, LEAF], SubjectLine, "l") == 1;
    }
    hide Walk, FirstWith;
    assert Without(blocks, 2) == [ROOT, INTERMEDIATE];
    LabelsStopTheWalk(SubjectLine, IssuerLine, SubjectLine, LEAF, [ROOT, INTERMEDIATE]);
    assert [LEAF] + [ROOT, INTERMEDIATE] == [LEAF, ROOT, INTERMEDIATE];
    assert SubjectLine([LEAF, ROOT, INTERMEDIATE][1]) != IssuerLine([LEAF, ROOT, INTERMEDIATE][0]);
  }

  // ----- the script -----

  lemma {:induction false} ReadAppend(blocks: seq<Block>, a: seq<nat>, b: seq<nat>)
    ensures Read(blocks, a + b) == Read(blocks, a) + Read(blocks, b)
  {
    assert |Read(blocks, a + b)| == |Read(blocks, a) + Read(blocks, b)|;
  }

  lemma ReadWithout(blocks: seq<Block>, files: seq<nat>, i: nat)
    requires i < |files|
    ensures Read(blocks, Without(files, i)) == Without(Read(blocks, files), i)
  {
  }

  /** `grep -vxF name`: every argument but the one named. */
  function Except(files: seq<nat>, name: nat): seq<nat> {
    if files == [] then [] else (if files[0] == name then [] else [files[0]]) + Except(files[1..], name)
  }

  lemma {:induction false} ExceptIsWithout(files: seq<nat>, i: nat)
    requires i < |files| && Distinct(files)
    ensures Except(files, files[i]) == Without(files, i)
    ensures Distinct(Without(files, i))
  {
    var tail := files[1..];
    assert Distinct(tail) by { assert forall k | 0 <= k < |tail| :: tail[k] == files[k + 1]; }
    if i == 0 {
      assert forall k | 0 <= k < |tail| :: tail[k] == files[k + 1] && tail[k] != files[0];
      ExceptNone(tail, files[0]);
    } else {
      assert tail[i - 1] == files[i];
      ExceptIsWithout(tail, i - 1);
      assert Without(files, i) == [files[0]] + Without(tail, i - 1);
    }
  }

  lemma {:induction false} ExceptNone(files: seq<nat>, name: nat)
    requires name !in files
    ensures Except(files, name) == files
  {
    if files != [] { ExceptNone(files[1..], name); }
  }

  /** The search loops: the first file whose block prints the wanted text. */
  method FindFirst(blocks: seq<Block>, files: seq<nat>, text: Block -> string, wanted: string)
    returns (found: Option<nat>, ghost at: nat)
    ensures at == FirstWith(Read(blocks, files), text, wanted)
    ensures found == if at < |files| then Some(files[at]) else None
  {
    found, at := None, |files|;
    var k := 0;
    while k < |files|
      invariant 0 <= k <= |files|
      invariant found.None? ==> at == |files|
      invariant found.Some? ==> at < k && found.value == files[at] && text(Read(blocks, files)[at]) == wanted
      invariant forall j | 0 <= j < at && j < k :: text(Read(blocks, files)[j]) != wanted
    {
      if found.None? && text(BlockOf(blocks, files[k])) == wanted { found, at := Some(files[k]), k; }
      k := k + 1;
    }
    var i := FirstWith(Read(blocks, files), text, wanted);
  }

  lemma GlobListsEach(n: nat)
    ensures Distinct(Glob(n)) && |Glob(n)| == n
  {
    NameOrder();
    SortCorrect(Numbers(n), NameLeq);
    DistinctCounts(Numbers(n));
    DistinctCounts(Glob(n));
  }

  /** Two lists differ at a position both have. */
  ghost predicate Differ(a: seq<Block>, b: seq<Block>) {
    exists p :: 0 <= p < |a| && p < |b| && a[p] != b[p]
  }

  /** Taking a file other than the next one puts another block in its place. */
  lemma TakingOutOfTurn(blocks: seq<Block>, ordered: seq<nat>, rest: seq<nat>, at: nat,
                        text: Block -> string, wanted: string)
    requires at < |rest| && at == FirstWith(Read(blocks, rest), text, wanted)
    ensures at == 0 ==> ordered + [rest[at]] + Without(rest, at) == ordered + rest
    ensures at > 0 ==> Differ(Read(blocks, ordered + [rest[at]]), Read(blocks, ordered + rest))
  {
    hide BlockOf, FirstWith;
    var p := |ordered|;
    var a, b := Read(blocks, ordered + [rest[at]]), Read(blocks, ordered + rest);
    assert a[p] == Read(blocks, rest)[at] && b[p] == Read(blocks, rest)[0];
    if at == 0 { assert [rest[0]] + rest[1..] == rest; }
  }

  lemma StillDiffer(a: seq<Block>, more: seq<Block>, b: seq<Block>)
    requires Differ(a, b)
    ensures Differ(a + more, b)
  {
    var p :| 0 <= p < |a| && p < |b| && a[p] != b[p];
    assert (a + more)[p] == a[p];
  }

  /** The files taken so far are in listing order, or some block already stands elsewhere. */
  ghost predicate InTurnOrMoved(blocks: seq<Block>, ordered: seq<nat>, rest: seq<nat>, original: seq<nat>) {
    ordered + rest == original || Differ(Read(blocks, ordered), Read(blocks, original))
  }

  lemma TakeNext(blocks: seq<Block>, ordered: seq<nat>, rest: seq<nat>, original: seq<nat>, at: nat,
                 text: Block -> string, wanted: string)
    requires at < |rest| && at == FirstWith(Read(blocks, rest), text, wanted) && Distinct(rest)
    requires InTurnOrMoved(blocks, ordered, rest, original)
    ensures InTurnOrMoved(blocks, ordered + [rest[at]], Except(rest, rest[at]), original)
    ensures Distinct(Except(rest, rest[at]))
    ensures Read(blocks, Except(rest, rest[at])) == Without(Read(blocks, rest), at)
  {
    ExceptIsWithout(rest, at);
    ReadWithout(blocks, rest, at);
    TakingOutOfTurn(blocks, ordered, rest, at, text, wanted);
    if ordered + rest != original {
      ReadAppend(blocks, ordered, [rest[at]]);
      StillDiffer(Read(blocks, ordered), Read(blocks, [rest[at]]), Read(blocks, original));
    }
  }

  /** The issuer walk over the remaining files, and whatever is left over. */
  method WalkFiles(tool: Openssl, blocks: seq<Block>, leaf: nat, remaining: seq<nat>, ghost original: seq<nat>)
    returns (ordered: seq<nat>)
    requires Distinct(remaining) && InTurnOrMoved(blocks, [leaf], remaining, original)
    ensures Read(blocks, ordered)
         == [BlockOf(blocks, leaf)] + Walk(tool, BlockOf(blocks, leaf), Read(blocks, remaining))
    ensures InTurnOrMoved(blocks, ordered, [], original)
  {
    hide FirstWith, Except, InTurnOrMoved, BlockOf, Walk;
    ordered := [leaf];
    var files, current := remaining, leaf;
    while files != []
      invariant Distinct(files)
      invariant [BlockOf(blocks, leaf)] + Walk(tool, BlockOf(blocks, leaf), Read(blocks, remaining))
             == Read(blocks, ordered) + Walk(tool, BlockOf(blocks, current), Read(blocks, files))
      invariant InTurnOrMoved(blocks, ordered, files, original)
      decreases |files|
    {
      StopsOrGoesOn(tool, BlockOf(blocks, current), Read(blocks, files));
      var issuer := tool.issuer(BlockOf(blocks, current));
      if issuer == tool.subject(BlockOf(blocks, current)) { break; }
      var next, position := FindFirst(blocks, files, tool.subject, issuer);
      if next.None? { break; }
      TakeNext(blocks, ordered, files, original, position, tool.subject, issuer);
      ReadAppend(blocks, ordered, [next.value]);
      WalkTakes(tool, BlockOf(blocks, current), Read(blocks, files), position, Read(blocks, ordered));
      files := Except(files, next.value);
      ordered := ordered + [next.value];
      current := next.value;
    }
    StopsOrGoesOn(tool, BlockOf(blocks, current), Read(blocks, files));
    ReadAppend(blocks, ordered, files);
    LeaveRest(blocks, ordered, files, original);
    ordered := ordered + files;
  }

  lemma StopsOrGoesOn(tool: Openssl, current: Block, rest: seq<Block>)
    ensures rest == [] || SelfSigned(tool, current) || FirstWith(rest, tool.subject, tool.issuer(current)) == |rest|
      ==> Walk(tool, current, rest) == rest
  {
  }

  /** One turn of the walk. */
  lemma WalkTakes(tool: Openssl, current: Block, rest: seq<Block>, i: nat, before: seq<Block>)
    requires i < |rest| && i == FirstWith(rest, tool.subject, tool.issuer(current)) && !SelfSigned(tool, current)
    ensures before + Walk(tool, current, rest) == before + [rest[i]] + Walk(tool, rest[i], Without(rest, i))
  {
  }

  lemma LeaveRest(blocks: seq<Block>, ordered: seq<nat>, rest: seq<nat>, original: seq<nat>)
    requires InTurnOrMoved(blocks, ordered, rest, original)
    ensures InTurnOrMoved(blocks, ordered + rest, [], original)
  {
    assert ordered + rest + [] == ordered + rest;
    ReadAppend(blocks, ordered, rest);
    if ordered + rest != original { StillDiffer(Read(blocks, ordered), Read(blocks, rest), Read(blocks, original)); }
  }

  /** The files end in another order than listed iff their contents do. */
  lemma MovedIff(blocks: seq<Block>, ordered: seq<nat>, original: seq<nat>)
    requires InTurnOrMoved(blocks, ordered, [], original)
    ensures ordered != original <==> Read(blocks, ordered) != Read(blocks, original)
  {
    assert ordered + [] == ordered;
  }

  /** Before the leaf is taken every file is in its place. */
  lemma TakeLeaf(blocks: seq<Block>, files: seq<nat>, at: nat, text: Block -> string, wanted: string)
    requires at < |files| && at == FirstWith(Read(blocks, files), text, wanted) && Distinct(files)
    ensures InTurnOrMoved(blocks, [files[at]], Except(files, files[at]), files)
    ensures Distinct(Except(files, files[at]))
    ensures Read(blocks, Except(files, files[at])) == Without(Read(blocks, files), at)
  {
    assert [] + files == files && [] + [files[at]] == [files[at]];
    TakeNext(blocks, [], files, files, at, text, wanted);
  }

  /** Reorders a certificate file for nginx; `reordered` says whether the operator is told,
      which is when the served order is not the one the blocks had. */
  method ReorderFullchain(tool: Openssl, key: string, lines: seq<Line>) returns (out: seq<Line>, reordered: bool)
    ensures out == Reordered(tool, key, lines)
    ensures reordered <==> Served(tool, key, Listed(Blocks(lines))) !in {None, Some(Listed(Blocks(lines)))}
  {
    hide Glob, Blocks, Flatten, FirstWith, Except, Walk, BlockOf, InTurnOrMoved, Distinct, Without;
    var blocks := Split(lines);
    var files := Glob(|blocks|);
    GlobListsEach(|blocks|);
    var leaf, at := FindFirst(blocks, files, tool.pubkey, key);
    if leaf.None? { return lines, false; }
    TakeLeaf(blocks, files, at, tool.pubkey, key);
    var ordered := WalkFiles(tool, blocks, leaf.value, Except(files, leaf.value), files);
    MovedIff(blocks, ordered, files);
    out := Flatten(Read(blocks, ordered));
    reordered := ordered != files;
  }
}
