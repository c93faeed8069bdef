/** `reorder_fullchain`, first half: a certificate file split into one file per block, and
    the order the shell lists these files in. */
module CertificateFile {
  import opened Prelude
  import opened Sorting
  import opened Text

  type Line = string

  type Block = seq<Line>

  // ----- the splitter -----

  predicate Contains(s: string, pattern: string) {
    |pattern| <= |s| && (s[..|pattern|] == pattern || Contains(s[1..], pattern))
  }

  predicate Begins(line: Line) {
    Contains(line, "-----BEGIN CERTIFICATE-----")
  }

  predicate Ends(line: Line) {
    Contains(line, "-----END CERTIFICATE-----")
  }

  lemma {:induction false} ContainsWithin(before: string, pattern: string, after: string)
    ensures Contains(before + pattern + after, pattern)
  {
    var s := before + pattern + after;
    if before == "" {
      assert s[..|pattern|] == pattern;
    } else {
      assert s[1..] == before[1..] + pattern + after;
      ContainsWithin(before[1..], pattern, after);
    }
  }

  lemma {:induction false} FoundWithin(s: string, pattern: string) returns (before: string, after: string)
    requires Contains(s, pattern)
    ensures s == before + pattern + after
  {
    if s[..|pattern|] == pattern {
      before, after := "", s[|pattern|..];
    } else {
      before, after := FoundWithin(s[1..], pattern);
      before := [s[0]] + before;
    }
  }

  lemma ContainsIff(s: string, pattern: string)
    ensures Contains(s, pattern) <==> exists before, after :: s == before + pattern + after
  {
    hide Contains;
    if Contains(s, pattern) { var before, after := FoundWithin(s, pattern); }
    if before, after :| s == before + pattern + after { ContainsWithin(before, pattern, after); }
  }

  /** The two patterns of the program, wherever they stand in a line. */
  lemma MarkersOfLines(line: Line)
    ensures Begins(line) <==> exists before, after :: line == before + "-----BEGIN CERTIFICATE-----" + after
    ensures Ends(line) <==> exists before, after :: line == before + "-----END CERTIFICATE-----" + after
  {
    hide Contains;
    ContainsIff(line, "-----BEGIN CERTIFICATE-----");
    ContainsIff(line, "-----END CERTIFICATE-----");
  }

  /** The rest of a block: up to and including its END line, or up to the next BEGIN line. */
  function Body(lines: seq<Line>): (b: seq<Line>)
    ensures b <= lines
  {
    if lines == [] || Begins(lines[0]) then []
    else if Ends(lines[0]) then [lines[0]]
    else [lines[0]] + Body(lines[1..])
  }

  function BlockAt(lines: seq<Line>): (b: Block)
    requires lines != []
    ensures b != [] && b <= lines
  {
    if Ends(lines[0]) then [lines[0]] else [lines[0]] + Body(lines[1..])
  }

  /** The certificate blocks of a text; whatever stands between them is dropped. */
  function Blocks(lines: seq<Line>): seq<Block> {
    if lines == [] then []
    else if !Begins(lines[0]) then Blocks(lines[1..])
    else [BlockAt(lines)] + Blocks(lines[|BlockAt(lines)|..])
  }

  /** What the blocks come to when the splitter has written `done`, the last of them still
      open or not, and `rest` is to follow. */
  ghost function Continued(done: seq<Block>, open: bool, rest: seq<Line>): seq<Block>
    requires open ==> done != []
  {
    if open then
      done[..|done| - 1] + [done[|done| - 1] + Body(rest)] + Blocks(rest[|Body(rest)|..])
    else done + Blocks(rest)
  }

  /** What the program has written after one more line. */
  ghost function Written(done: seq<Block>, open: bool, line: Line): seq<Block>
    requires open ==> done != []
  {
    if Begins(line) then done + [[line]]
    else if open then done[..|done| - 1] + [done[|done| - 1] + [line]]
    else done
  }

  /** One line of the awk program. */
  lemma SplitStep(done: seq<Block>, open: bool, line: Line, rest: seq<Line>)
    requires open ==> done != []
    ensures Continued(done, open, [line] + rest)
         == Continued(Written(done, open, line), (open || Begins(line)) && !Ends(line), rest)
  {
    hide Contains, Begins, Ends;
    var lines := [line] + rest;
    assert lines[1..] == rest;
    if Begins(line) {
      BeginStep(done, open, line, rest);
    } else if open {
      if Ends(line) {
        assert Body(lines) == [line];
      } else {
        assert lines[|Body(lines)|..] == rest[|Body(rest)|..];
        assert done[|done| - 1] + Body(lines) == done[|done| - 1] + [line] + Body(rest);
      }
    }
  }

  lemma BeginStep(done: seq<Block>, open: bool, line: Line, rest: seq<Line>)
    requires (open ==> done != []) && Begins(line)
    ensures Continued(done, open, [line] + rest) == Continued(done + [[line]], !Ends(line), rest)
  {
    hide Contains, Begins, Ends;
    var lines := [line] + rest;
    assert Body(lines) == [] && lines[|Body(lines)|..] == lines;
    if open { LastUnchanged(done); }
    BlockHeadSplits(line, rest);
    if Ends(line) {
      assert done + ([[line]] + Blocks(rest)) == done + [[line]] + Blocks(rest);
    } else {
      assert (done + [[line]])[..|done|] == done;
      assert done + ([[line] + Body(rest)] + Blocks(rest[|Body(rest)|..]))
        == done + [[line] + Body(rest)] + Blocks(rest[|Body(rest)|..]);
    }
  }

  lemma LastUnchanged(done: seq<Block>)
    requires done != []
    ensures done[..|done| - 1] + [done[|done| - 1] + []] == done
  {
    assert done[|done| - 1] + [] == done[|done| - 1];
  }

  lemma BlockHeadSplits(line: Line, rest: seq<Line>)
    requires Begins(line)
    ensures Blocks([line] + rest) == if Ends(line) then [[line]] + Blocks(rest)
                                     else [[line] + Body(rest)] + Blocks(rest[|Body(rest)|..])
  {
    var lines := [line] + rest;
    assert lines[1..] == rest;
    if !Ends(line) { assert lines[1 + |Body(rest)|..] == rest[|Body(rest)|..]; }
  }

  lemma NothingFollows(done: seq<Block>, open: bool)
    requires open ==> done != []
    ensures Continued(done, open, []) == done
  {
    assert Body([]) == [] && Blocks([]) == [];
    if open { LastUnchanged(done); }
  }

  /** The awk program: the files written so far, the last of them open or not. */
  method Split(lines: seq<Line>) returns (blocks: seq<Block>)
    ensures blocks == Blocks(lines)
  {
    hide Begins, Ends, Blocks, Continued;
    blocks := [];
    var open := false;
    var i := 0;
    assert Continued(blocks, open, lines) == Blocks(lines) by { StartSplit(lines); }
    assert lines[0..] == lines;
    while i < |lines|
      invariant 0 <= i <= |lines|
      invariant open ==> blocks != []
      invariant Continued(blocks, open, lines[i..]) == Blocks(lines)
    {
      assert lines[i..] == [lines[i]] + lines[i + 1..];
      SplitStep(blocks, open, lines[i], lines[i + 1..]);
      ghost var before, wasOpen := blocks, open;
      if Begins(lines[i]) {
        blocks := blocks + [[]];
        open := true;
      }
      if open {
        blocks := blocks[..|blocks| - 1] + [blocks[|blocks| - 1] + [lines[i]]];
      }
      assert [] + [lines[i]] == [lines[i]];
      assert blocks == Written(before, wasOpen, lines[i]);
      if Ends(lines[i]) { open := false; }
      i := i + 1;
    }
    assert lines[i..] == [];
    NothingFollows(blocks, open);
  }

  lemma StartSplit(lines: seq<Line>)
    ensures Continued([], false, lines) == Blocks(lines)
  {
    assert [] + Blocks(lines) == Blocks(lines);
  }

  /** A block starts at its only BEGIN line and holds an END line only at its end. */
  predicate IsBlock(b: Block) {
    && b != [] && Begins(b[0])
    && (forall i | 0 < i < |b| :: !Begins(b[i]))
    && (forall i | 0 <= i < |b| - 1 :: !Ends(b[i]))
  }

  lemma {:induction false} BodyShape(lines: seq<Line>)
    ensures forall i | 0 <= i < |Body(lines)| :: !Begins(Body(lines)[i])
    ensures forall i | 0 <= i < |Body(lines)| - 1 :: !Ends(Body(lines)[i])
  {
    if lines != [] && !Begins(lines[0]) && !Ends(lines[0]) { BodyShape(lines[1..]); }
  }

  lemma {:induction false} SplitYieldsBlocks(lines: seq<Line>)
    ensures forall b | b in Blocks(lines) :: IsBlock(b)
    decreases |lines|
  {
    if lines != [] {
      if !Begins(lines[0]) {
        SplitYieldsBlocks(lines[1..]);
      } else {
        BodyShape(lines[1..]);
        SplitYieldsBlocks(lines[|BlockAt(lines)|..]);
      }
    }
  }

  lemma {:induction false} BodyOfBlock(b: seq<Line>, rest: seq<Line>)
    requires forall i | 0 <= i < |b| :: !Begins(b[i])
    requires forall i | 0 <= i < |b| - 1 :: !Ends(b[i])
    requires rest == [] || Begins(rest[0])
    ensures Body(b + rest) == b
  {
    if b == [] {
      assert b + rest == rest;
    } else {
      assert (b + rest)[1..] == b[1..] + rest;
      if Ends(b[0]) {
        assert b == [b[0]];
      } else {
        BodyOfBlock(b[1..], rest);
      }
    }
  }

  /** Blocks written one after the other, in whatever order, split into the same blocks. */
  lemma {:induction false} ConcatenationSplitsBack(blocks: seq<Block>)
    requires forall b | b in blocks :: IsBlock(b)
    ensures Blocks(Flatten(blocks)) == blocks
  {
    if blocks != [] {
      var rest := Flatten(blocks[1..]);
      assert blocks[0] in blocks;
      assert forall c | c in blocks[1..] :: c in blocks;
      ConcatenationSplitsBack(blocks[1..]);
      if blocks[1..] != [] { assert blocks[1] in blocks && rest[0] == blocks[1][0]; }
      BlockSplitsOff(blocks[0], rest);
    }
  }

  lemma BlockSplitsOff(b: Block, rest: seq<Line>)
    requires IsBlock(b) && (rest == [] || Begins(rest[0]))
    ensures Blocks(b + rest) == [b] + Blocks(rest)
  {
    hide Contains, Begins, Ends;
    var text := b + rest;
    assert text[1..] == b[1..] + rest;
    BodyOfBlock(b[1..], rest);
    assert text[|b|..] == rest;
    assert BlockAt(text) == b;
  }

  lemma {:induction false} NoiseIsDropped(noise: seq<Line>, rest: seq<Line>)
    requires forall l | l in noise :: !Begins(l)
    ensures Blocks(noise + rest) == Blocks(rest)
  {
    hide Begins;
    if noise == [] {
      assert noise + rest == rest;
    } else {
      assert (noise + rest)[0] == noise[0] && noise[0] in noise && (noise + rest)[1..] == noise[1..] + rest;
      NoiseIsDropped(noise[1..], rest);
    }
  }

  lemma {:induction false} BodyToEnd(b: seq<Line>, rest: seq<Line>)
    requires b != [] && Ends(b[|b| - 1]) && (forall i | 0 <= i < |b| :: !Begins(b[i]))
    requires forall i | 0 <= i < |b| - 1 :: !Ends(b[i])
    ensures Body(b + rest) == b
  {
    hide Begins, Ends;
    assert (b + rest)[1..] == b[1..] + rest;
    if |b| > 1 { BodyToEnd(b[1..], rest); } else { assert b == [b[0]]; }
  }

  /** A complete block is found whatever stands around it, and the lines around it count for
      nothing. */
  lemma BlockInNoise(noise: seq<Line>, b: Block, rest: seq<Line>)
    requires (forall l | l in noise :: !Begins(l)) && IsBlock(b) && Ends(b[|b| - 1])
    ensures Blocks(noise + b + rest) == [b] + Blocks(rest)
  {
    hide Begins, Ends;
    assert noise + b + rest == noise + (b + rest);
    NoiseIsDropped(noise, b + rest);
    var text := b + rest;
    assert text[1..] == b[1..] + rest && text[|b|..] == rest;
    if |b| > 1 { BodyToEnd(b[1..], rest); } else { assert b == [b[0]]; }
    assert BlockAt(text) == b;
  }

  // ----- the file names -----

  /** `sprintf("%04d.pem", n)`. */
  function FileName(n: nat): string {
    (if n < 10000 then [Digit(n / 1000), Digit(n / 100 % 10), Digit(n / 10 % 10), Digit(n % 10)] else Decimal(n))
    + ".pem"
  }

  predicate NameLeq(m: nat, n: nat) {
    StringLeq(FileName(m), FileName(n))
  }

  function Numbers(n: nat): seq<nat> {
    seq(n, i => i + 1)
  }

  /** `*.pem` lists the files by name. */
  function Glob(n: nat): seq<nat> {
    Sort(Numbers(n), NameLeq)
  }

  /** Four digits at least, and as many as it takes. */
  lemma FileNamesByExample()
    ensures FileName(1) == "0001.pem" && FileName(9999) == "9999.pem" && FileName(10000) == "10000.pem"
  {
    assert Decimal(1) == "1" && Decimal(10) == "10" && Decimal(100) == "100" && Decimal(1000) == "1000";
    assert Decimal(10000) == "10000";
  }

  lemma LeqCons(x: char, a: string, y: char, b: string)
    ensures StringLeq([x] + a, [y] + b) <==> x < y || (x == y && StringLeq(a, b))
  {
    assert ([x] + a)[1..] == a && ([y] + b)[1..] == b;
  }

  /** Four digits compare one by one the way the number compares. */
  lemma DigitsOrder(m: nat, n: nat)
    requires m < n < 10000
    ensures m / 1000 < n / 1000 || (m / 1000 == n / 1000
      && (m / 100 % 10 < n / 100 % 10 || (m / 100 % 10 == n / 100 % 10
      && (m / 10 % 10 < n / 10 % 10 || (m / 10 % 10 == n / 10 % 10 && m % 10 < n % 10)))))
  {
    LastDigit(m, n);
    if m / 10 < n / 10 {
      LastDigit(m / 10, n / 10);
      if m / 100 < n / 100 { LastDigit(m / 100, n / 100); }
    }
  }

  lemma LastDigit(m: nat, n: nat)
    requires m < n
    ensures m / 10 < n / 10 || (m / 10 == n / 10 && m % 10 < n % 10)
    ensures m / 10 / 10 == m / 100 && n / 10 / 10 == n / 100
  {
  }

  lemma DigitOrder(a: nat, b: nat)
    requires a < 10 && b < 10
    ensures (a < b <==> Digit(a) < Digit(b)) && (a == b <==> Digit(a) == Digit(b))
  {
  }

  /** Under four digits the files list in the order of their numbers. */
  lemma PaddedOrder(m: nat, n: nat)
    requires m < n < 10000
    ensures NameLeq(m, n) && !NameLeq(n, m)
  {
    hide StringLeq, Digit;
    var t := ".pem";
    var m3, m2, m1, m0 := Digit(m / 1000), Digit(m / 100 % 10), Digit(m / 10 % 10), Digit(m % 10);
    var n3, n2, n1, n0 := Digit(n / 1000), Digit(n / 100 % 10), Digit(n / 10 % 10), Digit(n % 10);
    assert FileName(m) == [m3] + ([m2] + ([m1] + ([m0] + t)));
    assert FileName(n) == [n3] + ([n2] + ([n1] + ([n0] + t)));
    LeqCons(m3, [m2] + ([m1] + ([m0] + t)), n3, [n2] + ([n1] + ([n0] + t)));
    LeqCons(m2, [m1] + ([m0] + t), n2, [n1] + ([n0] + t));
    LeqCons(m1, [m0] + t, n1, [n0] + t);
    LeqCons(m0, t, n0, t);
    LeqCons(n3, [n2] + ([n1] + ([n0] + t)), m3, [m2] + ([m1] + ([m0] + t)));
    LeqCons(n2, [n1] + ([n0] + t), m2, [m1] + ([m0] + t));
    LeqCons(n1, [n0] + t, m1, [m0] + t);
    LeqCons(n0, t, m0, t);
    DigitsOrder(m, n);
    DigitOrder(m / 1000, n / 1000);
    DigitOrder(m / 100 % 10, n / 100 % 10);
    DigitOrder(m / 10 % 10, n / 10 % 10);
    DigitOrder(m % 10, n % 10);
  }

  lemma NameOrder()
    ensures TotalPreorder(NameLeq)
  {
    StringOrder();
  }

  /** The listing is in file order up to 9999 blocks and no further: 10000.pem lists
      before 9999.pem. */
  lemma GlobIsFileOrder(n: nat)
    ensures Glob(n) == Numbers(n) <==> n <= 9999
  {
    NameOrder();
    SortCorrect(Numbers(n), NameLeq);
    if n <= 9999 {
      forall i, j | 0 <= i < j < |Numbers(n)| ensures NameLeq(Numbers(n)[i], Numbers(n)[j]) {
        PaddedOrder(Numbers(n)[i], Numbers(n)[j]);
      }
      SortOfOrderedNames(Numbers(n));
    } else {
      TenThousandFirst();
      assert Numbers(n)[9998] == 9999 && Numbers(n)[9999] == 10000;
    }
  }

  lemma {:induction false} LeadingDigit(n: nat)
    requires n > 0
    ensures Decimal(n)[0] > '0'
  {
    if n >= 10 { LeadingDigit(n / 10); }
  }

  lemma NoneBeforeFirst(n: nat)
    requires n > 1
    ensures !NameLeq(n, 1)
  {
    if n < 10000 {
      PaddedOrder(1, n);
    } else {
      LeadingDigit(n);
      assert FileName(n)[0] > FileName(1)[0];
    }
  }

  /** The first file always lists first. */
  lemma FirstListsFirst(n: nat)
    requires n > 0
    ensures |Glob(n)| == n && Glob(n)[0] == 1
  {
    NameOrder();
    SortCorrect(Numbers(n), NameLeq);
    assert Numbers(n)[0] == 1;
    var h := Glob(n)[0];
    assert h in Glob(n);
    if h > 1 { NoneBeforeFirst(h); }
    var i :| 0 <= i < n && Glob(n)[i] == 1;
    assert i > 0 ==> NameLeq(h, 1);
  }

  lemma TenThousandFirst()
    ensures !NameLeq(9999, 10000)
  {
    assert Decimal(10000) == Decimal(1000) + "0" && Decimal(1000) == Decimal(100) + "0";
    assert Decimal(100) == Decimal(10) + "0";
    assert Decimal(10) == Decimal(1) + "0" && Decimal(1) == "1";
    assert FileName(10000)[0] == '1' && FileName(9999)[0] == '9';
  }

  /** Sorting leaves numbers alone that already list in order. */
  lemma {:induction false} SortOfOrderedNames(s: seq<nat>)
    requires forall i, j | 0 <= i < j < |s| :: NameLeq(s[i], s[j])
    ensures Sort(s, NameLeq) == s
  {
    if s != [] {
      SortOfOrderedNames(s[1..]);
      if s[1..] != [] { assert NameLeq(s[0], s[1]); }
    }
  }
}
