// The loops of the IndexedDISI writer and reader, proved to write and read the
// format of module Disi; and what its jump and rank tables mean.
module DisiCode {
  import opened Bits
  import opened Wire
  import opened BinaryGcd
  import opened Bitmap
  import opened Disi
  import Direct

  // ----- block boundaries ---------------------------------------------------------

  // `a` ends before the block `b` starts in.
  ghost predicate Apart(a: seq<nat>, b: seq<nat>) {
    a != [] && b != [] ==> BlockOf(a[|a| - 1]) < BlockOf(b[0])
  }

  lemma {:induction false} RunLengthApart(a: seq<nat>, b: seq<nat>, block: nat)
    requires Apart(a, b) && Ascending(a) && a != [] && block <= BlockOf(a[0])
    ensures RunLength(a + b, block) == RunLength(a, block)
  {
    assert (a + b)[0] == a[0];
    if BlockOf(a[0]) == block {
      assert (a + b)[1..] == a[1..] + b;
      if |a| > 1 {
        assert a[0] < a[1];
        RunLengthApart(a[1..], b, block);
      } else {
        assert a[1..] + b == b;
      }
    }
  }

  // Blocks of doc lists that share no block are written one after the other.
  lemma BlocksUnfold(docs: seq<nat>, power: int)
    requires docs != []
    ensures var n := RunLength(docs, BlockOf(docs[0]));
            && 0 < n <= |docs|
            && Blocks(docs, power) ==
               (Header(BlockOf(docs[0]), n) + BlockPayload(BlockWords(docs[..n]), n, power)) + Blocks(docs[n..], power)
  {
    hide Header, BlockPayload, BlockWords;
  }

  lemma NothingEncoded(power: int)
    ensures Blocks([], power) == []
  {
  }

  lemma {:induction false} BlocksAppend(a: seq<nat>, b: seq<nat>, power: int)
    requires Apart(a, b) && Ascending(a)
    ensures Blocks(a + b, power) == Blocks(a, power) + Blocks(b, power)
    decreases |a|
  {
    hide Header, BlockPayload, BlockWords, Blocks, RunLength, BlockOf;
    if a == [] {
      assert a + b == b;
      NothingEncoded(power);
    } else {
      var n := RunLength(a, BlockOf(a[0]));
      BlocksUnfold(a, power);
      BlocksUnfold(a + b, power);
      RunLengthApart(a, b, BlockOf(a[0]));
      assert (a + b)[..n] == a[..n] && (a + b)[n..] == a[n..] + b;
      BlocksAppend(a[n..], b, power);
      Assoc(Header(BlockOf(a[0]), n) + BlockPayload(BlockWords(a[..n]), n, power),
            Blocks(a[n..], power), Blocks(b, power));
    }
  }

  // ----- the jump table --------------------------------------------------------------

  lemma {:induction false} CountBeforeIs(docs: seq<nat>, b: nat)
    requires Ascending(docs)
    ensures var n := CountBefore(docs, b);
            && (forall i :: 0 <= i < n ==> BlockOf(docs[i]) < b)
            && (forall i :: n <= i < |docs| ==> BlockOf(docs[i]) >= b)
  {
    if docs != [] {
      if BlockOf(docs[0]) < b {
        CountBeforeIs(docs[1..], b);
        assert forall i :: 1 <= i < |docs| ==> docs[i] == docs[1..][i - 1];
      } else {
        assert forall i :: 0 < i < |docs| ==> docs[0] < docs[i];
      }
    }
  }

  // Jump entry b: exactly the docs before block b are counted, and reading from
  // its offset reads the blocks of all the other docs.
  lemma JumpEntryMeaning(docs: seq<nat>, power: int, b: nat)
    requires Ascending(docs)
    ensures var (n, offset) := JumpEntry(docs, power, b);
            && n <= |docs|
            && (forall i :: 0 <= i < |docs| ==> (BlockOf(docs[i]) < b <==> i < n))
            && offset <= |Encoded(docs, power)|
            && Encoded(docs, power)[offset..] ==
               Blocks(docs[n..], power) + (Sentinel() + JumpBytes(docs, power, JumpCount(docs)))
  {
    hide Blocks, JumpBytes, JumpCount, Sentinel;
    var n := CountBefore(docs, b);
    CountBeforeIs(docs, b);
    assert docs == docs[..n] + docs[n..];
    BlocksAppend(docs[..n], docs[n..], power);
    var tail := Sentinel() + JumpBytes(docs, power, JumpCount(docs));
    Assoc(Blocks(docs[..n], power), Blocks(docs[n..], power), tail);
  }

  lemma {:induction false} JumpEntryStored(docs: seq<nat>, power: int, count: nat, b: nat)
    requires b < count
    ensures JumpBytes(docs, power, count)[8 * b..8 * b + 8] ==
            LeBytes(JumpEntry(docs, power, b).0, 4) + LeBytes(JumpEntry(docs, power, b).1, 4)
    decreases count
  {
    hide JumpEntry, LeBytes;
    if b < count - 1 {
      JumpEntryStored(docs, power, count - 1, b);
    }
  }

  // Between two boundaries every jump entry is the same.
  lemma SameJump(docs: seq<nat>, power: int, i: nat, b: nat)
    requires Ascending(docs) && i <= |docs|
    requires i == 0 || BlockOf(docs[i - 1]) < b
    requires i == |docs| || b <= BlockOf(docs[i])
    ensures JumpEntry(docs, power, b) == (i, |Blocks(docs[..i], power)|)
  {
    hide Blocks;
    CountBeforeIs(docs, b);
  }

  method AddJumps(jumps: seq<(nat, nat)>, offset: nat, index: nat, startBlock: nat, endBlock: nat)
    returns (j: seq<(nat, nat)>)
    requires startBlock <= endBlock && |jumps| <= endBlock
    ensures |j| == endBlock
    ensures forall b :: startBlock <= b < endBlock ==> j[b] == (index, offset)
    ensures forall b :: 0 <= b < startBlock && b < |jumps| ==> j[b] == jumps[b]
  {
    j := jumps + seq(endBlock - |jumps|, i => (0, 0));
    for b := startBlock to endBlock
      invariant |j| == endBlock
      invariant forall k :: startBlock <= k < b ==> j[k] == (index, offset)
      invariant forall k :: 0 <= k < startBlock && k < |jumps| ==> j[k] == jumps[k]
    {
      j := j[b := (index, offset)];
    }
  }

  // ----- one block ---------------------------------------------------------------------

  // Sets the bits of the docs that share the block of docs[i].
  method FillBlock(docs: seq<nat>, i: nat, buffer: array<nat>) returns (j: nat)
    requires i < |docs| && buffer.Length == DENSE_LONGS && buffer[..] == ZeroWords(DENSE_LONGS)
    modifies buffer
    ensures j == i + RunLength(docs[i..], BlockOf(docs[i])) && j <= |docs|
    ensures buffer[..] == BlockWords(docs[i..j])
  {
    hide ZeroWords, SetBits, RunLength, Within, Or, Pow2;
    var block := BlockOf(docs[i]);
    ghost var zeros := ZeroWords(DENSE_LONGS);
    j := i;
    assert docs[i..i] == [];
    NothingWithin(zeros);
    while j < |docs| && BlockOf(docs[j]) == block
      invariant i <= j <= |docs|
      invariant j - i + RunLength(docs[j..], block) == RunLength(docs[i..], block)
      invariant buffer[..] == SetBits(zeros, Within(docs[i..j]))
    {
      var within := docs[j] % BLOCK_SIZE;
      FillStep(zeros, docs, i, j, buffer[..], block);
      buffer[within / 64] := Or(buffer[within / 64], Pow2(within % 64));
      j := j + 1;
    }
    RunOver(docs, j, block);
  }

  lemma NothingWithin(words: seq<nat>)
    ensures SetBits(words, Within([])) == words
  {
  }

  lemma RunOver(docs: seq<nat>, j: nat, block: nat)
    requires j <= |docs| && (j < |docs| ==> BlockOf(docs[j]) != block)
    ensures RunLength(docs[j..], block) == 0
  {
  }

  // The words of the block at docs[i], and where the next block starts.
  method CollectBlock(docs: seq<nat>, i: nat) returns (block: nat, j: nat, words: seq<nat>)
    requires i < |docs|
    ensures block == BlockOf(docs[i]) && j == i + RunLength(docs[i..], block) && j <= |docs|
    ensures words == BlockWords(docs[i..j]) && |words| == DENSE_LONGS
  {
    block := BlockOf(docs[i]);
    var buffer := new nat[DENSE_LONGS](_ => 0);
    assert buffer[..] == ZeroWords(DENSE_LONGS);
    j := FillBlock(docs, i, buffer);
    words := buffer[..];
  }

  lemma FillStep(zeros: seq<nat>, docs: seq<nat>, i: nat, j: nat, words: seq<nat>, block: nat)
    requires i <= j < |docs| && BlockOf(docs[j]) == block && |words| == DENSE_LONGS
    requires words == SetBits(zeros, Within(docs[i..j]))
    ensures var within := docs[j] % BLOCK_SIZE;
            && within / 64 < DENSE_LONGS
            && words[within / 64 := Or(words[within / 64], Pow2(within % 64))] == SetBits(zeros, Within(docs[i..j + 1]))
    ensures RunLength(docs[j..], block) == 1 + RunLength(docs[j + 1..], block)
  {
    var within := docs[j] % BLOCK_SIZE;
    assert docs[j..][1..] == docs[j + 1..];
    assert Within(docs[i..j + 1]) == Within(docs[i..j]) + [within];
    SetBitsSnoc(zeros, Within(docs[i..j]), within);
  }

  method Cardinality(words: seq<nat>) returns (n: nat)
    ensures n == CountOnesOf(words)
  {
    n := 0;
    for i := 0 to |words|
      invariant n + CountOnesOf(words[i..]) == CountOnesOf(words)
    {
      assert words[i..][1..] == words[i + 1..];
      n := n + CountOnes(words[i]);
    }
  }

  lemma BlockCardinality(run: seq<nat>, block: nat)
    requires InBlock(run, block) && Ascending(run)
    ensures CountOnesOf(BlockWords(run)) == |run|
  {
    BlockWordsOnes(run, block);
    OnesOfCount(BlockWords(run), 0);
  }

  lemma {:induction false} CountOnesSnoc(words: seq<nat>, k: nat)
    requires k < |words|
    ensures CountOnesOf(words[..k + 1]) == CountOnesOf(words[..k]) + CountOnes(words[k])
  {
    if k > 0 {
      assert words[..k + 1][1..] == words[1..][..k] && words[..k][1..] == words[1..][..k - 1];
      CountOnesSnoc(words[1..], k - 1);
    } else {
      assert words[..1][1..] == [];
    }
  }

  // The rank table, filled while counting the bits once.
  method CreateRank(words: seq<nat>, power: int) returns (rank: seq<byte>)
    requires 7 <= power <= 15 && |words| == DENSE_LONGS
    ensures rank == RankTable(words, power)
  {
    hide CountOnesOf, CountOnes, RankedTo, RankTable, RankLength, Shr, Low;
    var rankIndexShift := power - 7;
    rank := Zeros(Shr(DENSE_LONGS, rankIndexShift));
    var bitCount := 0;
    assert words[..0] == [];
    NoEntryYet(words, power, rank);
    for word := 0 to |words|
      invariant bitCount == CountOnesOf(words[..word])
      invariant |rank| == RankLength(power) && RankedTo(words, power, rank, word)
    {
      if Low(word, power - 6) == 0 {
        RankSlot(word, power);
        RankStep(words, power, rank, word, bitCount);
        rank := rank[Shr(word, rankIndexShift) := bitCount / 256 % 256];
        rank := rank[Shr(word, rankIndexShift) + 1 := bitCount % 256];
      } else {
        RankSkip(words, power, rank, word);
      }
      CountOnesSnoc(words, word);
      bitCount := bitCount + CountOnes(words[word]);
    }
    RankDone(words, power, rank);
  }

  // The entries that count words before `word` are in place.
  ghost predicate RankedTo(words: seq<nat>, power: int, rank: seq<byte>, word: nat) {
    |rank| == RankLength(power) && power >= 7
    && forall i :: 0 <= i < |rank| && Shl(i / 2, power - 6) < word ==> rank[i] == RankByte(words, power, i)
  }

  lemma NoEntryYet(words: seq<nat>, power: int, rank: seq<byte>)
    requires power >= 7 && |rank| == Shr(DENSE_LONGS, power - 7)
    ensures |rank| == RankLength(power) && RankedTo(words, power, rank, 0) && CountOnesOf([]) == 0
  {
    hide Shr, Shl;
  }

  lemma ShlGrows(x: nat, s: nat)
    ensures Shl(x, s) >= x
  {
    if s > 0 {
      ShlGrows(x, s - 1);
    }
  }

  lemma RankLengths(power: int)
    requires 7 <= power <= 15
    ensures RankLength(power) == 2 * Shr(DENSE_LONGS, power - 6)
    ensures Shl(Shr(DENSE_LONGS, power - 6), power - 6) == DENSE_LONGS
  {
    assert Shr(1024, 0) == 1024 && Shr(1024, 1) == 512 && Shr(1024, 2) == 256 && Shr(1024, 3) == 128;
    assert Shr(1024, 4) == 64 && Shr(1024, 5) == 32 && Shr(1024, 6) == 16;
    assert Shr(1024, 7) == 8 && Shr(1024, 8) == 4 && Shr(1024, 9) == 2;
    assert Shl(512, 1) == 1024 && Shl(256, 2) == 1024 && Shl(128, 3) == 1024 && Shl(64, 4) == 1024;
    assert Shl(32, 5) == 1024 && Shl(16, 6) == 1024 && Shl(8, 7) == 1024;
    assert Shl(4, 8) == 1024 && Shl(2, 9) == 1024;
  }

  lemma RankSlot(word: nat, power: int)
    requires 7 <= power <= 15 && word < DENSE_LONGS && Low(word, power - 6) == 0
    ensures Shr(word, power - 7) == 2 * Shr(word, power - 6)
    ensures Shr(word, power - 7) + 1 < RankLength(power)
    ensures Shl(Shr(word, power - 6), power - 6) == word
  {
    hide Shl, Shr, Low, RankLength;
    var s := power - 7;
    LowShr(word, s + 1);
    LowAdd(word, s, 1);
    ShlGrows(Low(Shr(word, s), 1), s);
    ShrShr(word, s, 1);
    OneBit(Shr(word, s));
    RankLengths(power);
    if Shr(word, s + 1) >= Shr(DENSE_LONGS, s + 1) {
      ShlMonotone(Shr(DENSE_LONGS, s + 1), Shr(word, s + 1), s + 1);
    }
  }

  lemma OneBit(x: nat)
    ensures Low(x, 1) == x % 2 && Shr(x, 1) == x / 2
  {
    assert Low(x / 2, 0) == 0 && Shr(x / 2, 0) == x / 2;
  }

  lemma {:induction false} ShlInjective(x: nat, y: nat, s: nat)
    requires Shl(x, s) == Shl(y, s)
    ensures x == y
    decreases s
  {
    if s > 0 {
      ShlInjective(x, y, s - 1);
    }
  }

  lemma RankStep(words: seq<nat>, power: int, rank: seq<byte>, word: nat, bitCount: nat)
    requires 7 <= power <= 15 && word < |words| == DENSE_LONGS && Low(word, power - 6) == 0
    requires RankedTo(words, power, rank, word) && bitCount == CountOnesOf(words[..word])
    requires Shr(word, power - 7) + 1 < |rank|
    ensures var k := Shr(word, power - 7);
            RankedTo(words, power, rank[k := bitCount / 256 % 256][k + 1 := bitCount % 256], word + 1)
  {
    hide Shl, Shr, Low, RankLength, CountOnesOf, RankByte;
    RankSlot(word, power);
    var k := Shr(word, power - 7);
    RankBytes(words, power, word, bitCount);
    var rank' := rank[k := bitCount / 256 % 256][k + 1 := bitCount % 256];
    forall i | 0 <= i < |rank'| && Shl(i / 2, power - 6) < word + 1
      ensures rank'[i] == RankByte(words, power, i)
    {
      if Shl(i / 2, power - 6) == word {
        ShlInjective(i / 2, Shr(word, power - 6), power - 6);
      }
    }
  }

  // The two bytes of the entry at a word.
  lemma RankBytes(words: seq<nat>, power: int, word: nat, bitCount: nat)
    requires 7 <= power <= 15 && word < |words| == DENSE_LONGS && Low(word, power - 6) == 0
    requires bitCount == CountOnesOf(words[..word])
    ensures var k := Shr(word, power - 7);
            RankByte(words, power, k) == bitCount / 256 % 256 && RankByte(words, power, k + 1) == bitCount % 256
  {
    hide Shl, Shr, Low, RankLength, CountOnesOf;
    RankSlot(word, power);
  }

  lemma RankSkip(words: seq<nat>, power: int, rank: seq<byte>, word: nat)
    requires 7 <= power <= 15 && Low(word, power - 6) != 0
    requires RankedTo(words, power, rank, word)
    ensures RankedTo(words, power, rank, word + 1)
  {
    hide RankLength, CountOnesOf, RankByte;
    forall i | 0 <= i < |rank| && Shl(i / 2, power - 6) < word + 1
      ensures rank[i] == RankByte(words, power, i)
    {
      if Shl(i / 2, power - 6) == word {
        assert 0 < Pow2(power - 6);
        JoinSplit(0, i / 2, power - 6);
      }
    }
  }

  lemma RankDone(words: seq<nat>, power: int, rank: seq<byte>)
    requires 7 <= power <= 15 && RankedTo(words, power, rank, DENSE_LONGS)
    ensures rank == RankTable(words, power)
  {
    hide RankByte, CountOnesOf, RankLength, Shl, Shr;
    RankLengths(power);
    forall i | 0 <= i < |rank| ensures rank[i] == RankByte(words, power, i) {
      assert i / 2 < Shr(DENSE_LONGS, power - 6);
      ShlAdd(i / 2, 1, power - 6);
      ShlMonotone(i / 2 + 1, Shr(DENSE_LONGS, power - 6), power - 6);
      ShlGrows(1, power - 6);
    }
  }

  function BigEnd(high: nat, low: nat): nat { 256 * high + low }

  // What a dense block's rank table says: entry pair k, big end first, counts
  // the set bits before word k * 2^(power - 6).
  lemma RankMeaning(words: seq<nat>, power: int, k: nat)
    requires 7 <= power <= 15 && |words| == DENSE_LONGS && Words(words)
    requires 2 * k < RankLength(power)
    ensures 2 * k + 1 < RankLength(power) && Shl(k, power - 6) < DENSE_LONGS
    ensures var rank := RankTable(words, power);
            BigEnd(rank[2 * k], rank[2 * k + 1]) == |OnesOf(words[..Shl(k, power - 6)], 0)|
  {
    hide Shl, Shr, CountOnesOf, OnesOf, RankLength, RankByte, BigEnd;
    RankLengths(power);
    ShlAdd(k, 1, power - 6);
    ShlGrows(1, power - 6);
    ShlMonotone(k + 1, Shr(DENSE_LONGS, power - 6), power - 6);
    var before := words[..Shl(k, power - 6)];
    OnesOfCount(before, 0);
    CountBelow(before);
    RankPair(words, power, k);
    BigEndIs(CountOnesOf(before));
  }

  lemma RankPair(words: seq<nat>, power: int, k: nat)
    requires power >= 6 && Shl(k, power - 6) <= |words|
    ensures var c := CountOnesOf(words[..Shl(k, power - 6)]);
            RankByte(words, power, 2 * k) == c / 256 % 256 && RankByte(words, power, 2 * k + 1) == c % 256
  {
    hide Shl, CountOnesOf;
    assert (2 * k + 1) / 2 == k && 2 * k / 2 == k;
  }

  lemma BigEndIs(c: nat)
    requires c < 0x1_0000
    ensures BigEnd(c / 256 % 256, c % 256) == c
  {
  }

  // Fewer than 65536 bits precede any entry.
  lemma CountBelow(words: seq<nat>)
    requires |words| < DENSE_LONGS && Words(words)
    ensures CountOnesOf(words) < BLOCK_SIZE
  {
    OnesOfRange(words, 0);
    OnesOfCount(words, 0);
    OnesOfAscending(words, 0);
    var ones := OnesOf(words, 0);
    if ones != [] {
      AscendingFromFirst(ones, |ones| - 1);
    }
  }

  lemma {:induction false} OnesAscending(n: nat, base: nat)
    ensures Ascending(Ones(n, base))
    decreases n
  {
    if n > 0 {
      OnesAscending(n / 2, base + 1);
      OnesFrom(n / 2, base + 1);
    }
  }

  lemma OnesFrom(n: nat, base: nat)
    ensures AllFrom(Ones(n, base), base)
  {
    if n > 0 {
      OnesNonEmpty(n, base);
    }
  }

  lemma {:induction false} OnesOfAscending(words: seq<nat>, base: nat)
    requires Words(words)
    ensures Ascending(OnesOf(words, base))
  {
    if words != [] {
      OnesAscending(words[0], base);
      OnesRange(words[0], base, 64);
      OnesOfAscending(words[1..], base + 64);
      OnesOfRange(words[1..], base + 64);
    }
  }

  // ----- flushing a block -----------------------------------------------------------------

  lemma {:induction false} ShortBytesAppend(a: seq<nat>, b: seq<nat>)
    ensures ShortBytes(a + b) == ShortBytes(a) + ShortBytes(b)
  {
    if a == [] {
      assert a + b == b;
    } else {
      assert (a + b)[1..] == a[1..] + b;
      ShortBytesAppend(a[1..], b);
    }
  }

  lemma NextShort(bits: nat, base: nat)
    requires bits > 0
    ensures ShortBytes(Ones(bits, base)) ==
            LeBytes(base + TrailingZeros(bits), 2) + ShortBytes(Ones(And(bits, bits - 1), base))
    ensures And(bits, bits - 1) < bits
  {
    hide Ones;
    LowestBit(bits, base);
    var rest := Ones(And(bits, bits - 1), base);
    assert ([base + TrailingZeros(bits)] + rest)[1..] == rest;
  }

  lemma NextWord(words: seq<nat>, w: nat)
    requires w < |words|
    ensures ShortBytes(OnesOf(words[w..], 64 * w)) ==
            ShortBytes(Ones(words[w], 64 * w)) + ShortBytes(OnesOf(words[w + 1..], 64 * (w + 1)))
  {
    hide Ones, ShortBytes;
    assert words[w..][1..] == words[w + 1..];
    ShortBytesAppend(Ones(words[w], 64 * w), OnesOf(words[w + 1..], 64 * w + 64));
  }

  // The low 16 bits of each set bit of one word.
  method WriteShorts(word: nat, base: nat, out: seq<byte>) returns (out': seq<byte>)
    ensures out' == out + ShortBytes(Ones(word, base))
  {
    out' := out;
    var bits := word;
    hide Ones, And, LeBytes;
    while bits != 0
      invariant out' + ShortBytes(Ones(bits, base)) == out + ShortBytes(Ones(word, base))
      decreases bits
    {
      NextShort(bits, base);
      Assoc(out', LeBytes(base + TrailingZeros(bits), 2), ShortBytes(Ones(And(bits, bits - 1), base)));
      out' := out' + LeBytes(base + TrailingZeros(bits), 2);
      bits := And(bits, bits - 1);
    }
    NoShorts(base);
  }

  lemma NoShorts(base: nat)
    ensures ShortBytes(Ones(0, base)) == [] && ShortBytes(OnesOf([], base)) == []
  {
  }

  method WriteSparse(words: seq<nat>, out: seq<byte>) returns (out': seq<byte>)
    ensures out' == out + ShortBytes(OnesOf(words, 0))
  {
    out' := out;
    hide Ones, OnesOf, ShortBytes;
    assert words[0..] == words;
    for w := 0 to |words|
      invariant out' + ShortBytes(OnesOf(words[w..], 64 * w)) == out + ShortBytes(OnesOf(words, 0))
    {
      NextWord(words, w);
      Assoc(out', ShortBytes(Ones(words[w], 64 * w)), ShortBytes(OnesOf(words[w + 1..], 64 * (w + 1))));
      out' := WriteShorts(words[w], 64 * w, out');
    }
    NoShorts(64 * |words|);
    assert words[|words|..] == [];
  }

  method WriteDense(words: seq<nat>, out: seq<byte>) returns (out': seq<byte>)
    ensures out' == out + WordBytes(words)
  {
    out' := out;
    hide LeBytes;
    assert words[0..] == words;
    for w := 0 to |words|
      invariant out' + WordBytes(words[w..]) == out + WordBytes(words)
    {
      assert words[w..][1..] == words[w + 1..];
      Assoc(out', LeBytes(words[w], 8), WordBytes(words[w + 1..]));
      out' := out' + LeBytes(words[w], 8);
    }
  }

  method FlushBlock(block: nat, words: seq<nat>, cardinality: nat, power: int, out: seq<byte>)
    returns (out': seq<byte>)
    requires LegalRankPower(power) && |words| == DENSE_LONGS && cardinality > 0
    ensures out' == out + (Header(block, cardinality) + BlockPayload(words, cardinality, power))
  {
    out' := out + LeBytes(block, 2) + LeBytes((cardinality - 1) % TWO_16, 2);
    hide ShortBytes, OnesOf, LeBytes, WordBytes;
    HeaderIs(block, cardinality, out);
    ghost var out0 := out';
    if cardinality > MAX_ARRAY_LENGTH {
      if cardinality != BLOCK_SIZE {
        if power != -1 {
          var rank := CreateRank(words, power);
          out' := out' + rank;
        }
        assert out' == out0 + RankTable(words, power);
        out' := WriteDense(words, out');
        Assoc(out0, RankTable(words, power), WordBytes(words));
      }
    } else {
      out' := WriteSparse(words, out');
    }
    Assoc(out, Header(block, cardinality), BlockPayload(words, cardinality, power));
  }

  lemma HeaderIs(block: nat, cardinality: nat, out: seq<byte>)
    requires cardinality > 0
    ensures out + LeBytes(block, 2) + LeBytes((cardinality - 1) % TWO_16, 2) == out + Header(block, cardinality)
  {
    assert (cardinality + 0xFFFF) % TWO_16 == (cardinality - 1) % TWO_16;
  }

  // ----- the whole set ----------------------------------------------------------------------

  // After writing the docs before i, a block boundary.
  ghost predicate Written(docs: seq<nat>, power: int, i: nat, lastBlock: nat, jumps: seq<(nat, nat)>) {
    && i <= |docs|
    && (0 < i < |docs| ==> BlockOf(docs[i - 1]) < BlockOf(docs[i]))
    && lastBlock == (if i == 0 then 0 else BlockOf(docs[i - 1]) + 1)
    && |jumps| == lastBlock && JumpsTo(docs, power, lastBlock, jumps)
  }

  ghost predicate JumpsTo(docs: seq<nat>, power: int, count: nat, jumps: seq<(nat, nat)>) {
    |jumps| == count && forall b :: 0 <= b < count ==> jumps[b] == JumpEntry(docs, power, b)
  }

  // The entries up to `end` all point at the boundary i.
  lemma JumpsStep(docs: seq<nat>, power: int, i: nat, lastBlock: nat, jumps: seq<(nat, nat)>, end: nat,
                  jumps': seq<(nat, nat)>)
    requires Ascending(docs) && Written(docs, power, i, lastBlock, jumps) && lastBlock <= end
    requires i == |docs| || end <= BlockOf(docs[i]) + 1
    requires |jumps'| == end
    requires forall b :: lastBlock <= b < end ==> jumps'[b] == (i, |Blocks(docs[..i], power)|)
    requires forall b :: 0 <= b < lastBlock ==> jumps'[b] == jumps[b]
    ensures JumpsTo(docs, power, end, jumps')
  {
    hide JumpEntry;
    forall b | 0 <= b < end ensures jumps'[b] == JumpEntry(docs, power, b) {
      if b >= lastBlock {
        SameJump(docs, power, i, b);
      }
    }
  }

  lemma RunStep(docs: seq<nat>, i: nat, j: nat)
    requires Ascending(docs) && i < |docs| && j == i + RunLength(docs[i..], BlockOf(docs[i]))
    ensures i < j <= |docs|
    ensures InBlock(docs[i..j], BlockOf(docs[i])) && Ascending(docs[i..j])
    ensures BlockOf(docs[j - 1]) == BlockOf(docs[i])
    ensures j < |docs| ==> BlockOf(docs[j - 1]) < BlockOf(docs[j])
    ensures j - i <= BLOCK_SIZE
  {
    NextBlock(docs[i..]);
    assert docs[i..][..j - i] == docs[i..j];
    assert docs[i..j][j - i - 1] == docs[j - 1];
    if j < |docs| {
      assert docs[i..][j - i..][0] == docs[j];
    }
  }

  lemma BlocksSnoc(docs: seq<nat>, power: int, i: nat, j: nat)
    requires Ascending(docs) && i < j <= |docs| && j == i + RunLength(docs[i..], BlockOf(docs[i]))
    requires i > 0 ==> BlockOf(docs[i - 1]) < BlockOf(docs[i])
    ensures Blocks(docs[..j], power) ==
            Blocks(docs[..i], power) +
            (Header(BlockOf(docs[i]), j - i) + BlockPayload(BlockWords(docs[i..j]), j - i, power))
  {
    hide Header, BlockPayload, BlockWords, Blocks, BlockOf, RunLength;
    var run := docs[i..j];
    assert docs[..j] == docs[..i] + run;
    BlocksAppend(docs[..i], run, power);
    RunIsWhole(docs, i, j);
    OneBlock(run, power);
  }

  lemma RunIsWhole(docs: seq<nat>, i: nat, j: nat)
    requires Ascending(docs) && i < j <= |docs| && j == i + RunLength(docs[i..], BlockOf(docs[i]))
    ensures RunLength(docs[i..j], BlockOf(docs[i])) == j - i
  {
    hide BlockOf, RunLength;
    assert docs[i..] == docs[i..j] + docs[j..];
    RunStep(docs, i, j);
    RunLengthApart(docs[i..j], docs[j..], BlockOf(docs[i]));
  }

  lemma OneBlock(run: seq<nat>, power: int)
    requires run != [] && RunLength(run, BlockOf(run[0])) == |run|
    ensures Blocks(run, power) == Header(BlockOf(run[0]), |run|) + BlockPayload(BlockWords(run), |run|, power)
  {
    assert run[..|run|] == run && run[|run|..] == [];
    assert Blocks([], power) == [];
  }

  lemma CountIs(docs: seq<nat>, lastBlock: nat)
    requires lastBlock == if docs == [] then 0 else BlockOf(docs[|docs| - 1]) + 1
    ensures JumpCount(docs) == if lastBlock + 1 == 2 then 0 else lastBlock + 1
  {
  }

  lemma SentinelBlock(power: int, words: seq<nat>)
    requires words == SetBit(ZeroWords(DENSE_LONGS), 65535)
    ensures Header(SENTINEL_BLOCK, 1) + BlockPayload(words, 1, power) == Sentinel()
  {
    var zeros := ZeroWords(DENSE_LONGS);
    OnesOfZeros(zeros, 0);
    hide SetBit, OnesOf, Header, LeBytes, ZeroWords;
    SetBitAppends(zeros, 65535);
    assert [] + [65535] == [65535];
    assert [65535][1..] == [];
    assert ShortBytes([65535]) == LeBytes(65535, 2) + [];
  }

  method WriteJumps(ghost docs: seq<nat>, ghost power: int, jumps: seq<(nat, nat)>, count: nat, out: seq<byte>)
    returns (out': seq<byte>)
    requires JumpsTo(docs, power, |jumps|, jumps) && count <= |jumps|
    ensures out' == out + JumpBytes(docs, power, count)
  {
    out' := out;
    hide JumpEntry, LeBytes;
    for b := 0 to count
      invariant out' == out + JumpBytes(docs, power, b)
    {
      var entry := LeBytes(jumps[b].0, 4) + LeBytes(jumps[b].1, 4);
      Assoc(out, JumpBytes(docs, power, b), entry);
      out' := out' + entry;
    }
  }

  method WriteNextBlock(docs: seq<nat>, power: int, i: nat, lastBlock: nat, jumps: seq<(nat, nat)>,
                        totalCardinality: nat, out: seq<byte>, ghost out0: seq<byte>, origo: nat)
    returns (j: nat, lastBlock': nat, jumps': seq<(nat, nat)>, totalCardinality': nat, out': seq<byte>)
    requires LegalRankPower(power) && Ascending(docs) && i < |docs|
    requires Written(docs, power, i, lastBlock, jumps) && totalCardinality == i
    requires origo == |out0| && out == out0 + Blocks(docs[..i], power)
    ensures i < j && Written(docs, power, j, lastBlock', jumps') && totalCardinality' == j
    ensures out' == out0 + Blocks(docs[..j], power)
  {
    hide *;
    var block, words;
    block, j, words := CollectBlock(docs, i);
    var cardinality := Cardinality(words);
    var offset := |out| - origo;
    BlockFits(docs, power, i, j, lastBlock, jumps);
    jumps' := AddJumps(jumps, offset, totalCardinality, lastBlock, block + 1);
    NextBlockStep(docs, power, i, j, lastBlock, jumps, jumps', out0);
    lastBlock' := block + 1;
    out' := FlushBlock(block, words, cardinality, power, out);
    totalCardinality' := totalCardinality + cardinality;
  }

  lemma BlockFits(docs: seq<nat>, power: int, i: nat, j: nat, lastBlock: nat, jumps: seq<(nat, nat)>)
    requires Ascending(docs) && i < |docs| && Written(docs, power, i, lastBlock, jumps)
    requires j == i + RunLength(docs[i..], BlockOf(docs[i])) && j <= |docs|
    ensures |jumps| == lastBlock <= BlockOf(docs[i])
    ensures CountOnesOf(BlockWords(docs[i..j])) == j - i > 0
  {
    hide CountOnesOf, BlockWords, JumpsTo;
    RunStep(docs, i, j);
    BlockCardinality(docs[i..j], BlockOf(docs[i]));
  }

  // Writing the run docs[i..j] after the runs before it.
  lemma NextBlockStep(docs: seq<nat>, power: int, i: nat, j: nat, lastBlock: nat,
                      jumps: seq<(nat, nat)>, jumps': seq<(nat, nat)>, out0: seq<byte>)
    requires Ascending(docs) && i < |docs| && Written(docs, power, i, lastBlock, jumps)
    requires j == i + RunLength(docs[i..], BlockOf(docs[i])) && j <= |docs|
    requires |jumps'| == BlockOf(docs[i]) + 1
    requires forall b :: lastBlock <= b <= BlockOf(docs[i]) ==> jumps'[b] == (i, |Blocks(docs[..i], power)|)
    requires forall b :: 0 <= b < lastBlock ==> jumps'[b] == jumps[b]
    ensures i < j && Written(docs, power, j, BlockOf(docs[i]) + 1, jumps')
    ensures (out0 + Blocks(docs[..i], power)) +
            (Header(BlockOf(docs[i]), j - i) + BlockPayload(BlockWords(docs[i..j]), j - i, power))
            == out0 + Blocks(docs[..j], power)
  {
    hide Blocks, JumpsTo, JumpEntry, RunLength, Header, BlockPayload, BlockWords, BlockOf;
    RunStep(docs, i, j);
    JumpsStep(docs, power, i, lastBlock, jumps, BlockOf(docs[i]) + 1, jumps');
    BlocksSnoc(docs, power, i, j);
    Assoc(out0, Blocks(docs[..i], power),
          Header(BlockOf(docs[i]), j - i) + BlockPayload(BlockWords(docs[i..j]), j - i, power));
  }

  method WriteBitSet(docs: seq<nat>, power: int, out: seq<byte>) returns (r: Result<(seq<byte>, i16)>)
    requires Ascending(docs) && AllBelow(docs, TWO_31)
    ensures LegalRankPower(power) <==> r.Ok?
    ensures r.Ok? ==> r.value.0 == out + Encoded(docs, power) && r.value.1 == AsI16(JumpCount(docs))
    ensures r.Err? ==> r.error == Invalid
  {
    hide Blocks, JumpsTo, BlockOf, Ascending, AllBelow, Header, BlockPayload, JumpEntry, SetBit, Sentinel, JumpCount, JumpBytes;
    if !(7 <= power <= 15) && power != -1 {
      return Err(Invalid);
    }
    var out', jumps, lastBlock, total, i: nat := out, [], 0, 0, 0;
    NoBlocks(docs, power, out);
    NoJumps(docs, power);
    while i < |docs|
      invariant Written(docs, power, i, lastBlock, jumps) && total == i
      invariant out' == out + Blocks(docs[..i], power)
    {
      i, lastBlock, jumps, total, out' := WriteNextBlock(docs, power, i, lastBlock, jumps, total, out', out, |out|);
    }
    assert docs[..|docs|] == docs;
    var offset := |out'| - |out|;
    ghost var before := jumps;
    jumps := AddJumps(jumps, offset, total, lastBlock, lastBlock + 1);
    JumpsStep(docs, power, i, lastBlock, before, lastBlock + 1, jumps);
    var sentinel := SetBit(ZeroWords(DENSE_LONGS), 65535);
    SentinelBlock(power, sentinel);
    out' := FlushBlock(SENTINEL_BLOCK, sentinel, 1, power, out');
    var count := lastBlock + 1;
    if count == 2 {
      count := 0;
    }
    CountIs(docs, lastBlock);
    out' := WriteJumps(docs, power, jumps, count, out');
    Assoc(out, Blocks(docs, power), Sentinel());
    Assoc(out, Blocks(docs, power) + Sentinel(), JumpBytes(docs, power, count));
    Assoc(Blocks(docs, power), Sentinel(), JumpBytes(docs, power, count));
    return Ok((out', AsI16(count)));
  }

  lemma NoBlocks(docs: seq<nat>, power: int, out: seq<byte>)
    ensures out == out + Blocks(docs[..0], power)
  {
    assert docs[..0] == [];
    assert out + [] == out;
  }

  lemma NoJumps(docs: seq<nat>, power: int)
    ensures JumpsTo(docs, power, 0, [])
  {
  }

  // ----- decoding -------------------------------------------------------------------------------

  // A reading loop left the cursor and the bitmap where the reading function does.
  ghost predicate Decoded(spec: Parsed<seq<nat>>, r: Result<()>, rest: seq<byte>, bitmap: seq<nat>) {
    match spec
    case Ok(p) => r.Ok? && rest == p.1 && bitmap == p.0
    case Err(e) => r == Err(e)
  }

  method DecodeShorts(c: Cursor, n: nat, base: nat, maxDoc: nat, bitmap: array<nat>) returns (r: Result<()>)
    requires maxDoc <= 64 * bitmap.Length && c.pos <= |c.bytes|
    modifies c, bitmap
    ensures Decoded(ReadShorts(old(c.Rest()), n, base, maxDoc, old(bitmap[..])), r, c.Rest(), bitmap[..])
    ensures c.pos <= |c.bytes|
  {
    hide LeNum, ReadShorts, Or, Pow2, SetBit;
    ghost var goal := ReadShorts(c.Rest(), n, base, maxDoc, bitmap[..]);
    var k := n;
    ReadNoShorts(c.Rest(), base, maxDoc, bitmap[..]);
    while k > 0
      invariant c.pos <= |c.bytes|
      invariant ReadShorts(c.Rest(), k, base, maxDoc, bitmap[..]) == goal
    {
      ReadShortStep(c.Rest(), k, base, maxDoc, bitmap[..]);
      var t :- c.Take(2);
      var doc := base + LeNum(t);
      if doc >= maxDoc {
        return Err(Corrupt);
      }
      AssignBit(bitmap, doc);
      k := k - 1;
    }
    ReadNoShorts(c.Rest(), base, maxDoc, bitmap[..]);
    return Ok(());
  }

  lemma ReadShortStep(rest: seq<byte>, k: nat, base: nat, maxDoc: nat, bitmap: seq<nat>)
    requires k > 0
    ensures if |rest| < 2 || base + LeNum(rest[..2]) >= maxDoc
            then ReadShorts(rest, k, base, maxDoc, bitmap) == Err(Corrupt)
            else ReadShorts(rest, k, base, maxDoc, bitmap) ==
                 ReadShorts(rest[2..], k - 1, base, maxDoc, SetBit(bitmap, base + LeNum(rest[..2])))
  {
  }

  lemma ReadNoShorts(rest: seq<byte>, base: nat, maxDoc: nat, bitmap: seq<nat>)
    ensures ReadShorts(rest, 0, base, maxDoc, bitmap) == Ok((bitmap, rest))
  {
  }

  // `bitmap[d / 64] |= 1 << (d % 64)`
  method AssignBit(bitmap: array<nat>, d: nat)
    requires d / 64 < bitmap.Length
    modifies bitmap
    ensures bitmap[..] == SetBit(old(bitmap[..]), d)
  {
    bitmap[d / 64] := Or(bitmap[d / 64], Pow2(d % 64));
  }

  lemma WordsNext(rest: seq<byte>, n: nat, at: nat, bitmap: seq<nat>)
    requires n > 0
    ensures if |rest| < 8 then ReadWords(rest, n, at, bitmap) == Err(Corrupt)
            else if at < |bitmap| then
              ReadWords(rest, n, at, bitmap) == ReadWords(rest[8..], n - 1, at + 1, bitmap[at := LeNum(rest[..8])])
            else if LeNum(rest[..8]) != 0 then ReadWords(rest, n, at, bitmap) == Err(Corrupt)
            else ReadWords(rest, n, at, bitmap) == ReadWords(rest[8..], n - 1, at + 1, bitmap)
  {
    hide LeNum;
  }

  lemma WordsDone(rest: seq<byte>, at: nat, bitmap: seq<nat>)
    ensures ReadWords(rest, 0, at, bitmap) == Ok((bitmap, rest))
  {
  }

  method DecodeWords(c: Cursor, base: nat, bitmap: array<nat>) returns (r: Result<()>)
    requires c.pos <= |c.bytes|
    modifies c, bitmap
    ensures c.pos <= |c.bytes|
    ensures Decoded(ReadWords(old(c.Rest()), DENSE_LONGS, base / 64, old(bitmap[..])), r, c.Rest(), bitmap[..])
  {
    hide LeNum, ReadWords;
    var wordBase := base / 64;
    ghost var goal := ReadWords(c.Rest(), DENSE_LONGS, wordBase, bitmap[..]);
    var w := 0;
    while w < DENSE_LONGS
      invariant w <= DENSE_LONGS && c.pos <= |c.bytes|
      invariant ReadWords(c.Rest(), DENSE_LONGS - w, wordBase + w, bitmap[..]) == goal
    {
      ghost var before := bitmap[..];
      WordsNext(c.Rest(), DENSE_LONGS - w, wordBase + w, bitmap[..]);
      var t :- c.Take(8);
      var word := LeNum(t);
      if wordBase + w < bitmap.Length {
        bitmap[wordBase + w] := word;
        assert bitmap[..] == before[wordBase + w := word];
      } else if word != 0 {
        return Err(Corrupt);
      }
      w := w + 1;
    }
    WordsDone(c.Rest(), wordBase + w, bitmap[..]);
    return Ok(());
  }

  lemma NoBitsSet(bitmap: seq<nat>, base: nat)
    ensures SetBits(bitmap, Range(base, 0)) == bitmap
  {
  }

  method DecodeAll(base: nat, bitmap: array<nat>) returns (r: Result<()>)
    modifies bitmap
    ensures base + BLOCK_SIZE <= 64 * bitmap.Length <==> r.Ok?
    ensures r.Ok? ==> bitmap[..] == SetBits(old(bitmap[..]), Range(base, BLOCK_SIZE))
    ensures r.Err? ==> r.error == Panic
  {
    hide SetBit, SetBits;
    ghost var was := bitmap[..];
    var d: nat := 0;
    NoBitsSet(was, base);
    while d < BLOCK_SIZE
      invariant d <= BLOCK_SIZE && (d > 0 ==> base + d <= 64 * bitmap.Length)
      invariant bitmap[..] == SetBits(was, Range(base, d))
    {
      var doc := base + d;
      if doc / 64 >= bitmap.Length {
        return Err(Panic);
      }
      SetBitsSnoc(was, Range(base, d), doc);
      assert Range(base, d + 1) == Range(base, d) + [doc];
      AssignBit(bitmap, doc);
      d := d + 1;
    }
    return Ok(());
  }

  method DecodePayload(c: Cursor, base: nat, cardinality: nat, maxDoc: nat, rankBytes: nat, bitmap: array<nat>)
    returns (r: Result<()>)
    requires maxDoc <= 64 * bitmap.Length && c.pos <= |c.bytes|
    modifies c, bitmap
    ensures Decoded(ReadPayload(old(c.Rest()), base, cardinality, maxDoc, rankBytes, old(bitmap[..])),
                    r, c.Rest(), bitmap[..])
    ensures c.pos <= |c.bytes|
  {
    if cardinality == BLOCK_SIZE {
      r := DecodeAll(base, bitmap);
    } else if cardinality > MAX_ARRAY_LENGTH {
      var _ :- c.Skip(rankBytes);
      r := DecodeWords(c, base, bitmap);
    } else {
      r := DecodeShorts(c, cardinality, base, maxDoc, bitmap);
    }
  }

  ghost predicate BlockDecoded(spec: Parsed<(seq<nat>, nat)>, r: Result<nat>, rest: seq<byte>, bitmap: seq<nat>) {
    match spec
    case Ok(p) => r == Ok(p.0.1) && rest == p.1 && bitmap == p.0.0
    case Err(e) => r == Err(e)
  }

  method DecodeBlock(c: Cursor, maxDoc: nat, rankBytes: nat, bitmap: array<nat>) returns (r: Result<nat>)
    requires maxDoc <= 64 * bitmap.Length && c.pos <= |c.bytes|
    modifies c, bitmap
    ensures BlockDecoded(ReadBlock(old(c.Rest()), maxDoc, rankBytes, old(bitmap[..])), r, c.Rest(), bitmap[..])
    ensures c.pos <= |c.bytes|
  {
    hide LeNum, ReadPayload;
    var block :- c.Take(2);
    var less1 :- c.Take(2);
    var base := Base(LeNum(block));
    if base >= maxDoc {
      return Err(Corrupt);
    }
    var _ :- DecodePayload(c, base, LeNum(less1) + 1, maxDoc, rankBytes, bitmap);
    return Ok(LeNum(less1));
  }

  // A reading loop that gives up the cursor left the bitmap where the function does.
  ghost predicate BitmapDecoded(spec: Result<seq<nat>>, r: Result<()>, bitmap: seq<nat>) {
    match spec
    case Ok(b) => r.Ok? && bitmap == b
    case Err(e) => r == Err(e)
  }

  lemma BlocksLeft(rest: seq<byte>, seen: nat, numValues: nat, maxDoc: nat, rankBytes: nat, bitmap: seq<nat>,
                   r: Result<nat>, rest': seq<byte>, bitmap': seq<nat>)
    requires seen < numValues && BlockDecoded(ReadBlock(rest, maxDoc, rankBytes, bitmap), r, rest', bitmap')
    ensures ReadBlocks(rest, seen, numValues, maxDoc, rankBytes, bitmap) ==
            if r.Ok? then ReadBlocks(rest', seen + r.value + 1, numValues, maxDoc, rankBytes, bitmap')
            else Err(r.error)
  {
    hide ReadBlock;
  }

  lemma NoBlocksLeft(rest: seq<byte>, seen: nat, numValues: nat, maxDoc: nat, rankBytes: nat, bitmap: seq<nat>)
    requires seen >= numValues
    ensures BitmapDecoded(ReadBlocks(rest, seen, numValues, maxDoc, rankBytes, bitmap),
                          if seen == numValues then Ok(()) else Err(Corrupt), bitmap)
  {
  }

  lemma BlocksFail(spec: Result<seq<nat>>, e: Error, bitmap: seq<nat>)
    requires spec == Err(e)
    ensures BitmapDecoded(spec, Err(e), bitmap)
  {
  }

  method DecodeBlocks(c: Cursor, numValues: nat, maxDoc: nat, rankBytes: nat, bitmap: array<nat>) returns (r: Result<()>)
    requires maxDoc <= 64 * bitmap.Length && c.pos <= |c.bytes|
    modifies c, bitmap
    ensures BitmapDecoded(ReadBlocks(old(c.Rest()), 0, numValues, maxDoc, rankBytes, old(bitmap[..])), r, bitmap[..])
  {
    hide ReadBlock, ReadBlocks, BlockDecoded, BitmapDecoded;
    ghost var goal := ReadBlocks(c.Rest(), 0, numValues, maxDoc, rankBytes, bitmap[..]);
    var seen := 0;
    while seen < numValues
      invariant c.pos <= |c.bytes|
      invariant ReadBlocks(c.Rest(), seen, numValues, maxDoc, rankBytes, bitmap[..]) == goal
    {
      ghost var rest, before := c.Rest(), bitmap[..];
      var less1 := DecodeBlock(c, maxDoc, rankBytes, bitmap);
      BlocksLeft(rest, seen, numValues, maxDoc, rankBytes, before, less1, c.Rest(), bitmap[..]);
      if less1.Err? {
        BlocksFail(goal, less1.error, bitmap[..]);
        return Err(less1.error);
      }
      seen := seen + less1.value + 1;
    }
    NoBlocksLeft(c.Rest(), seen, numValues, maxDoc, rankBytes, bitmap[..]);
    return if seen == numValues then Ok(()) else Err(Corrupt);
  }

  method Decode(bytes: seq<byte>, numValues: nat, maxDoc: nat, power: byte) returns (r: Result<seq<nat>>)
    ensures r == DecodeRegion(bytes, numValues, maxDoc, DenseRankBytes(power))
  {
    var bitmap := new nat[Direct.CeilDiv(maxDoc, 64)](_ => 0);
    assert bitmap[..] == ZeroWords(Direct.CeilDiv(maxDoc, 64));
    var c := new Cursor(bytes, 0);
    var rankBytes := DenseRankBytes(power);
    assert c.Rest() == bytes;
    hide ReadBlocks, ZeroWords, DenseRankBytes;
    var _ :- DecodeBlocks(c, numValues, maxDoc, rankBytes, bitmap);
    return Ok(bitmap[..]);
  }
}
