// IndexedDISI: a set of doc ids in blocks of 65536, each ALL (header only),
// DENSE (rank table and bitmap) or SPARSE (16-bit ids), then a sentinel block
// and a jump table; and the bulk decoder back to a validity bitmap.
module Disi {
  import opened Bits
  import opened Wire
  import opened Bitmap
  import Direct

  const BLOCK_SIZE: nat := 65536
  const DENSE_LONGS: nat := 1024
  const MAX_ARRAY_LENGTH: nat := 4095
  const DEFAULT_RANK_POWER: int := 9

  // ----- what is written ----------------------------------------------------------

  function BlockOf(doc: nat): nat { doc / BLOCK_SIZE }

  // The first doc of a block.
  function Base(block: nat): nat { block * BLOCK_SIZE }

  // How many leading docs lie in `block`.
  function RunLength(docs: seq<nat>, block: nat): (n: nat)
    ensures n <= |docs|
  {
    if docs != [] && BlockOf(docs[0]) == block then 1 + RunLength(docs[1..], block) else 0
  }

  function Within(docs: seq<nat>): (w: seq<nat>)
    ensures |w| == |docs| && AllBelow(w, BLOCK_SIZE)
  {
    seq(|docs|, i requires 0 <= i < |docs| => docs[i] % BLOCK_SIZE)
  }

  function ZeroWords(n: nat): (w: seq<nat>)
    ensures |w| == n
  {
    seq(n, i => 0)
  }

  function BlockWords(docs: seq<nat>): (w: seq<nat>)
    ensures |w| == DENSE_LONGS
  {
    SetBits(ZeroWords(DENSE_LONGS), Within(docs))
  }

  function WordBytes(words: seq<nat>): seq<byte> {
    if words == [] then [] else LeBytes(words[0], 8) + WordBytes(words[1..])
  }

  function ShortBytes(s: seq<nat>): seq<byte> {
    if s == [] then [] else LeBytes(s[0], 2) + ShortBytes(s[1..])
  }

  predicate LegalRankPower(power: int) { power == -1 || 7 <= power <= 15 }

  function RankLength(power: int): nat {
    if power < 7 then 0 else Shr(DENSE_LONGS, power - 7)
  }

  // Bytes of rank table the reader skips: its shift count goes around at 8 bits, and
  // the shift takes it modulo 64.
  function DenseRankBytes(power: byte): nat {
    if power == 0xFF then 0 else Shr(DENSE_LONGS, (power + 256 - 7) % 64)
  }

  function PowerByte(power: int): byte
    requires LegalRankPower(power)
  {
    if power == -1 then 0xFF else power
  }

  // For the powers the writer takes, that is the table it wrote.
  lemma RankBytesWritten(power: int)
    requires LegalRankPower(power)
    ensures DenseRankBytes(PowerByte(power)) == RankLength(power)
  {
    hide Shr;
    if power != -1 {
      assert (power + 256 - 7) % 64 == power - 7;
    }
  }

  // Entry k of the rank table: the set bits before word k * 2^(power - 6), big
  // end first.
  function RankTable(words: seq<nat>, power: int): (r: seq<byte>)
    ensures |r| == RankLength(power)
  {
    seq(RankLength(power), i requires 0 <= i < RankLength(power) => RankByte(words, power, i))
  }

  function RankByte(words: seq<nat>, power: int, i: nat): byte {
    var at := if power < 6 then 0 else Shl(i / 2, power - 6);
    var count := if at <= |words| then CountOnesOf(words[..at]) else 0;
    if i % 2 == 0 then count / 256 % 256 else count % 256
  }

  // Block number and cardinality - 1, as 16-bit values.
  function Header(block: nat, cardinality: nat): seq<byte> {
    LeBytes(block, 2) + LeBytes((cardinality + 0xFFFF) % TWO_16, 2)
  }

  function BlockPayload(words: seq<nat>, cardinality: nat, power: int): seq<byte> {
    if cardinality <= MAX_ARRAY_LENGTH then ShortBytes(OnesOf(words, 0))
    else if cardinality == BLOCK_SIZE then []
    else RankTable(words, power) + WordBytes(words)
  }

  // The blocks of a doc list, in order; a block without docs is not written.
  function Blocks(docs: seq<nat>, power: int): seq<byte>
    decreases |docs|
  {
    if docs == [] then []
    else
      var n := RunLength(docs, BlockOf(docs[0]));
      (Header(BlockOf(docs[0]), n) + BlockPayload(BlockWords(docs[..n]), n, power)) + Blocks(docs[n..], power)
  }

  const SENTINEL_BLOCK: nat := 32767 // NO_MORE_DOCS >> 16

  function Sentinel(): seq<byte> {
    Header(SENTINEL_BLOCK, 1) + LeBytes(65535, 2)
  }

  // How many leading docs lie in blocks before b.
  function CountBefore(docs: seq<nat>, b: nat): (n: nat)
    ensures n <= |docs|
  {
    if docs != [] && BlockOf(docs[0]) < b then 1 + CountBefore(docs[1..], b) else 0
  }

  // Jump entry b: the docs before block b, and where the first present block at
  // or after b starts.
  function JumpEntry(docs: seq<nat>, power: int, b: nat): (nat, nat)
  {
    var n := CountBefore(docs, b);
    (n, |Blocks(docs[..n], power)|)
  }

  function JumpBytes(docs: seq<nat>, power: int, count: nat): (b: seq<byte>)
    ensures |b| == 8 * count
  {
    if count == 0 then []
    else
      var e := JumpEntry(docs, power, count - 1);
      JumpBytes(docs, power, count - 1) + (LeBytes(e.0, 4) + LeBytes(e.1, 4))
  }

  // One entry per block up to the sentinel's; a lone block 0 needs no table.
  function JumpCount(docs: seq<nat>): nat {
    if docs == [] then 1
    else if BlockOf(docs[|docs| - 1]) == 0 then 0
    else BlockOf(docs[|docs| - 1]) + 2
  }

  function Encoded(docs: seq<nat>, power: int): seq<byte>
  {
    Blocks(docs, power) + (Sentinel() + JumpBytes(docs, power, JumpCount(docs)))
  }

  // ----- what is read ---------------------------------------------------------------

  function ReadShorts(rest: seq<byte>, n: nat, base: nat, maxDoc: nat, bitmap: seq<nat>): Parsed<seq<nat>>
    decreases n
  {
    if n == 0 then Ok((bitmap, rest))
    else
      var (within, rest') :- ReadLe(rest, 2);
      if base + within >= maxDoc then Err(Corrupt)
      else ReadShorts(rest', n - 1, base, maxDoc, SetBit(bitmap, base + within))
  }

  function ReadWords(rest: seq<byte>, n: nat, at: nat, bitmap: seq<nat>): Parsed<seq<nat>>
    decreases n
  {
    if n == 0 then Ok((bitmap, rest))
    else
      var (word, rest') :- ReadLe(rest, 8);
      if at < |bitmap| then ReadWords(rest', n - 1, at + 1, bitmap[at := word])
      else if word != 0 then Err(Corrupt)
      else ReadWords(rest', n - 1, at + 1, bitmap)
  }

  function Range(base: nat, n: nat): (r: seq<nat>)
    ensures |r| == n && Ascending(r) && AllBelow(r, base + n)
  {
    seq(n, i => base + i)
  }

  function ReadPayload(rest: seq<byte>, base: nat, cardinality: nat, maxDoc: nat, rankBytes: nat,
                       bitmap: seq<nat>): Parsed<seq<nat>>
  {
    if cardinality == BLOCK_SIZE then
      if base + BLOCK_SIZE <= 64 * |bitmap| then Ok((SetBits(bitmap, Range(base, BLOCK_SIZE)), rest))
      else Err(Panic)
    else if cardinality > MAX_ARRAY_LENGTH then
      var (_, rest') :- TakeBytes(rest, rankBytes);
      ReadWords(rest', DENSE_LONGS, base / 64, bitmap)
    else ReadShorts(rest, cardinality, base, maxDoc, bitmap)
  }

  // One block: the bitmap after it and its cardinality less 1.
  function ReadBlock(rest: seq<byte>, maxDoc: nat, rankBytes: nat, bitmap: seq<nat>): Parsed<(seq<nat>, nat)> {
    var (block, rest1) :- ReadLe(rest, 2);
    var (less1, rest2) :- ReadLe(rest1, 2);
    if Base(block) >= maxDoc then Err(Corrupt)
    else
      var (bitmap', rest3) :- ReadPayload(rest2, Base(block), less1 + 1, maxDoc, rankBytes, bitmap);
      Ok(((bitmap', less1), rest3))
  }

  function ReadBlocks(rest: seq<byte>, seen: nat, numValues: nat, maxDoc: nat, rankBytes: nat,
                      bitmap: seq<nat>): Result<seq<nat>>
    decreases numValues - seen
  {
    if seen >= numValues then if seen == numValues then Ok(bitmap) else Err(Corrupt)
    else
      var ((bitmap', less1), rest') :- ReadBlock(rest, maxDoc, rankBytes, bitmap);
      ReadBlocks(rest', seen + less1 + 1, numValues, maxDoc, rankBytes, bitmap')
  }

  function DecodeRegion(bytes: seq<byte>, numValues: nat, maxDoc: nat, rankBytes: nat): Result<seq<nat>> {
    ReadBlocks(bytes, 0, numValues, maxDoc, rankBytes, ZeroWords(Direct.CeilDiv(maxDoc, 64)))
  }

  // ----- the round trip ---------------------------------------------------------------

  // The validity bitmap of a doc list.
  ghost predicate IsBitmap(bitmap: seq<nat>, docs: seq<nat>, maxDoc: nat) {
    && |bitmap| == Direct.CeilDiv(maxDoc, 64)
    && Words(bitmap)
    && OnesOf(bitmap, 0) == docs
  }

  ghost predicate DecodesTo(r: Result<seq<nat>>, docs: seq<nat>, maxDoc: nat) {
    match r case Ok(bitmap) => IsBitmap(bitmap, docs, maxDoc) case Err(_) => false
  }

  ghost predicate InBlock(docs: seq<nat>, block: nat) {
    forall i :: 0 <= i < |docs| ==> BlockOf(docs[i]) == block
  }

  lemma ReadU16(x: nat, rest: seq<byte>)
    requires x < TWO_16
    ensures ReadLe(LeBytes(x, 2) + rest, 2) == Ok((x, rest))
  {
    Pow2Values();
    LeNumOfBytes(x, 2);
    assert (LeBytes(x, 2) + rest)[..2] == LeBytes(x, 2);
  }

  lemma ReadU64(x: nat, rest: seq<byte>)
    requires x < Pow2(64)
    ensures ReadLe(LeBytes(x, 8) + rest, 8) == Ok((x, rest))
  {
    LeNumOfBytes(x, 8);
    assert (LeBytes(x, 8) + rest)[..8] == LeBytes(x, 8);
  }

  lemma {:induction false} ReadShortsOf(s: seq<nat>, rest: seq<byte>, base: nat, maxDoc: nat, bitmap: seq<nat>)
    requires AllBelow(s, TWO_16) && AllBelow(Plus(s, base), maxDoc)
    ensures ReadShorts(ShortBytes(s) + rest, |s|, base, maxDoc, bitmap)
         == Ok((SetBits(bitmap, Plus(s, base)), rest))
  {
    if s == [] {
      assert ShortBytes(s) + rest == rest;
    } else {
      var tail := ShortBytes(s[1..]) + rest;
      assert ShortBytes(s) + rest == LeBytes(s[0], 2) + tail;
      ReadU16(s[0], tail);
      var docs := Plus(s, base);
      assert docs[0] == base + s[0];
      assert docs[1..] == Plus(s[1..], base);
      ReadShortsOf(s[1..], rest, base, maxDoc, SetBit(bitmap, docs[0]));
    }
  }

  // Assigning `words` to the bitmap from word `at`; what falls past the end is
  // dropped.
  function Overwrite(bitmap: seq<nat>, at: nat, words: seq<nat>): (w: seq<nat>)
    ensures |w| == |bitmap|
    decreases |words|
  {
    if words == [] then bitmap
    else Overwrite(if at < |bitmap| then bitmap[at := words[0]] else bitmap, at + 1, words[1..])
  }

  // How many of a dense block's words fit in the bitmap.
  function Fitting(at: nat, words: seq<nat>, len: nat): (k: nat)
    requires at <= len
    ensures k <= |words| && at + k <= len
  {
    if at + |words| <= len then |words| else len - at
  }

  lemma {:induction false} OverwriteIs(bitmap: seq<nat>, at: nat, words: seq<nat>)
    requires at <= |bitmap|
    ensures var k := Fitting(at, words, |bitmap|);
            Overwrite(bitmap, at, words) == bitmap[..at] + words[..k] + bitmap[at + k..]
    decreases |words|
  {
    if words != [] {
      if at < |bitmap| {
        OverwriteIs(bitmap[at := words[0]], at + 1, words[1..]);
      } else {
        OverwriteNothing(bitmap, at, words);
      }
    }
  }

  lemma {:induction false} OverwriteNothing(bitmap: seq<nat>, at: nat, words: seq<nat>)
    requires at >= |bitmap|
    ensures Overwrite(bitmap, at, words) == bitmap
    decreases |words|
  {
    if words != [] {
      OverwriteNothing(bitmap, at + 1, words[1..]);
    }
  }

  lemma ReadWordStep(words: seq<nat>, rest: seq<byte>, at: nat, bitmap: seq<nat>)
    requires words != [] && words[0] < Pow2(64) && (at >= |bitmap| ==> words[0] == 0)
    ensures ReadWords(WordBytes(words) + rest, |words|, at, bitmap) ==
            ReadWords(WordBytes(words[1..]) + rest, |words| - 1, at + 1,
                      if at < |bitmap| then bitmap[at := words[0]] else bitmap)
  {
    hide Pow2, LeBytes, LeNum, ReadLe;
    var tail := WordBytes(words[1..]) + rest;
    assert WordBytes(words) + rest == LeBytes(words[0], 8) + tail;
    ReadU64(words[0], tail);
  }

  // The words that fall past the end of the bitmap are zero.
  ghost predicate ZeroPast(words: seq<nat>, at: nat, len: nat) {
    forall i :: 0 <= i < |words| ==> at + i < len || words[i] == 0
  }

  lemma TailWords(words: seq<nat>, at: nat, len: nat)
    requires words != [] && Words(words) && ZeroPast(words, at, len)
    ensures Words(words[1..]) && ZeroPast(words[1..], at + 1, len)
    ensures words[0] < Pow2(64) && (at >= len ==> words[0] == 0)
  {
  }

  lemma ReadNoWords(words: seq<nat>, rest: seq<byte>, at: nat, bitmap: seq<nat>)
    requires words == []
    ensures ReadWords(WordBytes(words) + rest, |words|, at, bitmap) == Ok((Overwrite(bitmap, at, words), rest))
  {
    assert WordBytes(words) + rest == rest;
  }

  lemma {:induction false} ReadWordsOf(words: seq<nat>, rest: seq<byte>, at: nat, bitmap: seq<nat>)
    requires Words(words) && ZeroPast(words, at, |bitmap|)
    ensures ReadWords(WordBytes(words) + rest, |words|, at, bitmap) == Ok((Overwrite(bitmap, at, words), rest))
    decreases |words|
  {
    hide ReadWords, WordBytes, Words, ZeroPast, Pow2;
    if words == [] {
      ReadNoWords(words, rest, at, bitmap);
    } else {
      TailWords(words, at, |bitmap|);
      ReadWordStep(words, rest, at, bitmap);
      ReadWordsOf(words[1..], rest, at + 1, if at < |bitmap| then bitmap[at := words[0]] else bitmap);
    }
  }

  // Docs of one block are its base plus their low 16 bits.
  lemma BlockDocs(docs: seq<nat>, block: nat)
    requires InBlock(docs, block) && Ascending(docs)
    ensures docs == Plus(Within(docs), Base(block))
    ensures Ascending(Within(docs))
  {
    assert forall i :: 0 <= i < |docs| ==> docs[i] == Base(block) + docs[i] % BLOCK_SIZE;
  }

  lemma BlockWordsOnes(docs: seq<nat>, block: nat)
    requires InBlock(docs, block) && Ascending(docs)
    ensures OnesOf(BlockWords(docs), 0) == Within(docs)
    ensures Words(BlockWords(docs))
    ensures |BlockWords(docs)| == DENSE_LONGS
  {
    BlockDocs(docs, block);
    var zeros := ZeroWords(DENSE_LONGS);
    OnesOfZeros(zeros, 0);
    SetBitsAppends(zeros, Within(docs));
    assert [] + Within(docs) == Within(docs);
  }

  // What decoding one more block's payload must do to the bitmap.
  ghost predicate Extends(r: Parsed<seq<nat>>, done: seq<nat>, docs: seq<nat>, maxDoc: nat, rest: seq<byte>) {
    r.Ok? && r.value.1 == rest && IsBitmap(r.value.0, done + docs, maxDoc)
  }

  lemma SparseBlock(bitmap: seq<nat>, done: seq<nat>, docs: seq<nat>, block: nat, maxDoc: nat, rest: seq<byte>)
    requires IsBitmap(bitmap, done, maxDoc) && AllBelow(done, Base(block))
    requires InBlock(docs, block) && Ascending(docs) && AllBelow(docs, maxDoc)
    ensures Extends(ReadShorts(ShortBytes(Within(docs)) + rest, |docs|, Base(block), maxDoc, bitmap),
                    done, docs, maxDoc, rest)
  {
    BlockDocs(docs, block);
    ReadShortsOf(Within(docs), rest, Base(block), maxDoc, bitmap);
    assert AllBelow(docs, 64 * |bitmap|);
    SetBitsAppends(bitmap, docs);
  }

  lemma AllBlock(bitmap: seq<nat>, done: seq<nat>, docs: seq<nat>, block: nat, maxDoc: nat)
    requires IsBitmap(bitmap, done, maxDoc) && AllBelow(done, Base(block))
    requires InBlock(docs, block) && Ascending(docs) && AllBelow(docs, maxDoc) && |docs| == BLOCK_SIZE
    ensures Base(block) + BLOCK_SIZE <= 64 * |bitmap|
    ensures IsBitmap(SetBits(bitmap, Range(Base(block), BLOCK_SIZE)), done + docs, maxDoc)
  {
    FullBlock(docs, block);
    assert docs[BLOCK_SIZE - 1] < maxDoc;
    SetBitsAppends(bitmap, docs);
  }

  // 65536 ascending docs in one block are all of them.
  lemma FullBlock(docs: seq<nat>, block: nat)
    requires InBlock(docs, block) && Ascending(docs) && |docs| == BLOCK_SIZE
    ensures docs == Range(Base(block), BLOCK_SIZE)
  {
    forall i | 0 <= i < |docs| ensures docs[i] == Base(block) + i {
      AscendingFromFirst(docs, i);
      AscendingToLast(docs, i);
    }
  }

  lemma {:induction false} AscendingFromFirst(docs: seq<nat>, i: nat)
    requires Ascending(docs) && i < |docs|
    ensures docs[i] >= docs[0] + i
  {
    if i > 0 {
      AscendingFromFirst(docs, i - 1);
    }
  }

  lemma {:induction false} AscendingToLast(docs: seq<nat>, i: nat)
    requires Ascending(docs) && i < |docs|
    ensures docs[i] + (|docs| - 1 - i) <= docs[|docs| - 1]
    decreases |docs| - i
  {
    if i < |docs| - 1 {
      AscendingToLast(docs, i + 1);
    }
  }

  lemma DenseBlock(bitmap: seq<nat>, done: seq<nat>, docs: seq<nat>, block: nat, maxDoc: nat,
                   words: seq<nat>, rest: seq<byte>)
    requires IsBitmap(bitmap, done, maxDoc) && AllBelow(done, Base(block))
    requires InBlock(docs, block) && Ascending(docs) && AllBelow(docs, maxDoc) && Base(block) < maxDoc
    requires |words| == DENSE_LONGS && Words(words) && OnesOf(words, 0) == Within(docs)
    ensures Extends(ReadWords(WordBytes(words) + rest, DENSE_LONGS, Base(block) / 64, bitmap),
                    done, docs, maxDoc, rest)
  {
    hide OnesOf, Overwrite, ReadWords, WordBytes, Words, AllBelow, Within, InBlock, Ascending;
    var at := Base(block) / 64;
    var k := Fitting(at, words, |bitmap|);
    DenseWords(docs, block, maxDoc, words, k, |bitmap|);
    ReadWordsOf(words, rest, at, bitmap);
    OverwriteOnes(bitmap, at, words, k);
    NothingAbove(bitmap, at, 0);
    TailZero(bitmap, at, k);
    assert (done + docs) + [] == done + docs;
  }

  // The words that fit hold all the block's docs; the others are zero.
  lemma DenseWords(docs: seq<nat>, block: nat, maxDoc: nat, words: seq<nat>, k: nat, len: nat)
    requires InBlock(docs, block) && Ascending(docs) && AllBelow(docs, maxDoc)
    requires |words| == DENSE_LONGS && Words(words) && OnesOf(words, 0) == Within(docs)
    requires len == Direct.CeilDiv(maxDoc, 64) && block * DENSE_LONGS <= len
    requires k == Fitting(block * DENSE_LONGS, words, len)
    ensures OnesOf(words[..k], Base(block)) == docs
    ensures ZeroPast(words, block * DENSE_LONGS, len)
  {
    hide OnesOf;
    var base := Base(block);
    BlockDocs(docs, block);
    OnesOfShift(words, 0, base);
    assert AllBelow(docs, base + 64 * k);
    NothingAbove(words, k, base);
    OnesOfZeros(words[k..], base + 64 * k);
    assert forall i :: k <= i < |words| ==> words[i] == words[k..][i - k];
  }

  lemma TailZero(bitmap: seq<nat>, at: nat, k: nat)
    requires at + k <= |bitmap| && Words(bitmap)
    requires OnesOf(bitmap[at..], 64 * at) == []
    ensures OnesOf(bitmap[at + k..], 64 * (at + k)) == []
  {
    OnesOfZeros(bitmap[at..], 64 * at);
    var mid, tail := bitmap[at..], bitmap[at + k..];
    assert forall i :: 0 <= i < |tail| ==> tail[i] == mid[k + i];
    OnesOfZeros(bitmap[at + k..], 64 * (at + k));
  }

  lemma OverwriteOnes(bitmap: seq<nat>, at: nat, words: seq<nat>, k: nat)
    requires at <= |bitmap| && Words(bitmap) && Words(words)
    requires k == Fitting(at, words, |bitmap|)
    ensures OnesOf(Overwrite(bitmap, at, words), 0) ==
            OnesOf(bitmap[..at], 0) + OnesOf(words[..k], 64 * at) + OnesOf(bitmap[at + k..], 64 * (at + k))
    ensures Words(Overwrite(bitmap, at, words))
  {
    hide OnesOf, Overwrite;
    OverwriteIs(bitmap, at, words);
    OnesOfAppend(bitmap[..at], words[..k], 0);
    OnesOfAppend(bitmap[..at] + words[..k], bitmap[at + k..], 0);
  }

  // ----- all three kinds of block, then all blocks -------------------------------------

  lemma PayloadRead(bitmap: seq<nat>, done: seq<nat>, docs: seq<nat>, block: nat, maxDoc: nat,
                    power: int, rest: seq<byte>)
    requires IsBitmap(bitmap, done, maxDoc) && AllBelow(done, Base(block))
    requires InBlock(docs, block) && Ascending(docs) && AllBelow(docs, maxDoc) && docs != []
    ensures var r := ReadPayload(BlockPayload(BlockWords(docs), |docs|, power) + rest, Base(block), |docs|,
                                 maxDoc, RankLength(power), bitmap);
            r.Ok? && r.value.1 == rest && IsBitmap(r.value.0, done + docs, maxDoc)
  {
    var words := BlockWords(docs);
    BlockWordsOnes(docs, block);
    assert Base(block) <= docs[0] < maxDoc;
    hide BlockWords, Within, InBlock, Ascending, AllBelow, IsBitmap, ShortBytes, WordBytes, RankTable, Words, OnesOf;
    if |docs| == BLOCK_SIZE {
      AllBlock(bitmap, done, docs, block, maxDoc);
      assert [] + rest == rest;
    } else if |docs| > MAX_ARRAY_LENGTH {
      var rank, packed := RankTable(words, power), WordBytes(words);
      assert (rank + packed) + rest == rank + (packed + rest);
      assert (rank + (packed + rest))[|rank|..] == packed + rest;
      DenseBlock(bitmap, done, docs, block, maxDoc, words, rest);
    } else {
      SparseBlock(bitmap, done, docs, block, maxDoc, rest);
    }
  }

  // The first run of a doc list is its first block; what follows lies later.
  lemma {:induction false} FirstRun(docs: seq<nat>, block: nat)
    requires Ascending(docs)
    ensures var n := RunLength(docs, block);
            && InBlock(docs[..n], block)
            && (n < |docs| && (n > 0 || BlockOf(docs[0]) > block) ==> BlockOf(docs[n]) > block)
  {
    var n := RunLength(docs, block);
    if n > 0 {
      FirstRun(docs[1..], block);
      assert docs[..n] == [docs[0]] + docs[1..][..n - 1];
      if n < |docs| {
        assert docs[n] == docs[1..][n - 1];
        assert docs[0] < docs[n];
        if n == 1 {
          assert BlockOf(docs[1]) >= BlockOf(docs[0]);
        }
      }
    }
  }

  lemma NextBlock(docs: seq<nat>)
    requires Ascending(docs) && docs != []
    ensures var n := RunLength(docs, BlockOf(docs[0]));
            && 0 < n <= BLOCK_SIZE
            && InBlock(docs[..n], BlockOf(docs[0])) && Ascending(docs[..n]) && Ascending(docs[n..])
            && AllBelow(docs[..n], Base(BlockOf(docs[0]) + 1))
            && (docs[n..] != [] ==> BlockOf(docs[n]) > BlockOf(docs[0]))
  {
    var n := RunLength(docs, BlockOf(docs[0]));
    FirstRun(docs, BlockOf(docs[0]));
    var run := docs[..n];
    AscendingFromFirst(run, n - 1);
    assert run[0] == docs[0];
    assert BlockOf(run[n - 1]) == BlockOf(docs[0]);
    forall i | 0 <= i < n ensures run[i] < Base(BlockOf(docs[0]) + 1) {
      assert BlockOf(run[i]) == BlockOf(docs[0]);
    }
  }

  lemma HeaderRead(block: nat, n: nat, rest: seq<byte>)
    requires block < TWO_16 && 0 < n <= TWO_16
    ensures var b := Header(block, n) + rest;
            && ReadLe(b, 2).Ok? && ReadLe(b, 2).value.0 == block
            && ReadLe(ReadLe(b, 2).value.1, 2) == Ok((n - 1, rest))
  {
    var inner := LeBytes(n - 1, 2) + rest;
    assert Header(block, n) + rest == LeBytes(block, 2) + inner;
    ReadU16(block, inner);
    ReadU16(n - 1, rest);
  }

  // Decoding in progress: `done` is in the bitmap, `docs` is still to come.
  datatype Progress = Progress(bitmap: seq<nat>, done: seq<nat>, docs: seq<nat>)

  ghost predicate Pending(p: Progress, maxDoc: nat) {
    match p
    case Progress(bitmap, done, docs) =>
      && IsBitmap(bitmap, done, maxDoc)
      && Ascending(docs) && AllBelow(docs, maxDoc)
      && (docs != [] ==> AllBelow(done, Base(BlockOf(docs[0]))))
  }

  function Remaining(p: Progress, maxDoc: nat, power: int, tail: seq<byte>): Result<seq<nat>> {
    ReadBlocks(Blocks(p.docs, power) + tail, |p.done|, |p.done| + |p.docs|, maxDoc, RankLength(power), p.bitmap)
  }

  lemma PendingNext(p: Progress, maxDoc: nat, power: int, rest: seq<byte>) returns (p': Progress)
    requires Pending(p, maxDoc) && p.docs != []
    ensures var block, n := BlockOf(p.docs[0]), RunLength(p.docs, BlockOf(p.docs[0]));
            var payload := BlockPayload(BlockWords(p.docs[..n]), n, power);
            && 0 < n <= BLOCK_SIZE && Base(block) < maxDoc
            && p'.done == p.done + p.docs[..n] && p'.docs == p.docs[n..]
            && ReadsPayload(ReadPayload(payload + rest, Base(block), n, maxDoc, RankLength(power), p.bitmap), p'.bitmap, rest)
            && Pending(p', maxDoc)
  {
    var done, docs := p.done, p.docs;
    var block, n := BlockOf(docs[0]), RunLength(docs, BlockOf(docs[0]));
    NextBlock(docs);
    assert Base(block) <= docs[0] < maxDoc;
    assert AllBelow(docs[..n], maxDoc) && AllBelow(docs[n..], maxDoc);
    LaterBlocks(done, docs[..n], docs[n..], block);
    PayloadRead(p.bitmap, done, docs[..n], block, maxDoc, power, rest);
    var payload := BlockPayload(BlockWords(docs[..n]), n, power);
    var r := ReadPayload(payload + rest, Base(block), n, maxDoc, RankLength(power), p.bitmap);
    p' := Progress(r.value.0, done + docs[..n], docs[n..]);
  }

  ghost predicate ReadsPayload(r: Parsed<seq<nat>>, bitmap: seq<nat>, rest: seq<byte>) {
    match r case Ok(p) => p.0 == bitmap && p.1 == rest case Err(_) => false
  }

  lemma BlocksReadStep(p: Progress, maxDoc: nat, power: int, tail: seq<byte>) returns (p': Progress)
    requires maxDoc <= TWO_31
    requires Pending(p, maxDoc) && p.docs != []
    ensures Pending(p', maxDoc) && |p'.docs| < |p.docs|
    ensures p'.done + p'.docs == p.done + p.docs
    ensures Remaining(p, maxDoc, power, tail) == Remaining(p', maxDoc, power, tail)
  {
    hide *;
    var block, n := BlockOf(p.docs[0]), RunLength(p.docs, BlockOf(p.docs[0]));
    var rest := Blocks(p.docs[n..], power) + tail;
    p' := PendingNext(p, maxDoc, power, rest);
    Assoc(p.done, p.docs[..n], p.docs[n..]);
    assert p.docs[..n] + p.docs[n..] == p.docs;
    RemainingStep(p, p', block, n, maxDoc, power, tail);
  }

  lemma {:induction false} BlocksRead(p: Progress, maxDoc: nat, power: int, tail: seq<byte>)
    requires maxDoc <= TWO_31
    requires Pending(p, maxDoc)
    ensures DecodesTo(Remaining(p, maxDoc, power, tail), p.done + p.docs, maxDoc)
    decreases |p.docs|
  {
    if p.docs == [] {
      hide IsBitmap, ReadPayload, AllBelow, Ascending;
      assert p.done + p.docs == p.done;
    } else {
      hide *;
      var p' := BlocksReadStep(p, maxDoc, power, tail);
      BlocksRead(p', maxDoc, power, tail);
    }
  }

  lemma RemainingStep(p: Progress, p': Progress, block: nat, n: nat, maxDoc: nat, power: int, tail: seq<byte>)
    requires p.docs != [] && block == BlockOf(p.docs[0]) && n == RunLength(p.docs, block)
    requires 0 < n <= BLOCK_SIZE && Base(block) < maxDoc <= TWO_31
    requires p'.done == p.done + p.docs[..n] && p'.docs == p.docs[n..]
    requires ReadsPayload(ReadPayload(BlockPayload(BlockWords(p.docs[..n]), n, power) + (Blocks(p.docs[n..], power) + tail),
                                      Base(block), n, maxDoc, RankLength(power), p.bitmap),
                          p'.bitmap, Blocks(p.docs[n..], power) + tail)
    ensures Remaining(p, maxDoc, power, tail) == Remaining(p', maxDoc, power, tail)
  {
    hide ReadBlocks, ReadPayload, BlockPayload, BlockWords, Blocks, RankLength, Header, RunLength, Base, BlockOf;
    OneBlockAhead(p.docs, power, tail);
    ReadBlocksStep(BlockPayload(BlockWords(p.docs[..n]), n, power) + (Blocks(p.docs[n..], power) + tail), block, n,
                   |p.done|, |p.done| + |p.docs|, maxDoc, RankLength(power), p.bitmap);
    assert |p'.done| == |p.done| + n;
    assert |p'.done| + |p'.docs| == |p.done| + |p.docs|;
  }

  lemma ReadBlocksStep(rest: seq<byte>, block: nat, n: nat, seen: nat, numValues: nat,
                       maxDoc: nat, rankBytes: nat, bitmap: seq<nat>)
    requires 0 < n <= BLOCK_SIZE && seen < numValues && Base(block) < maxDoc <= TWO_31
    requires ReadPayload(rest, Base(block), n, maxDoc, rankBytes, bitmap).Ok?
    ensures var p := ReadPayload(rest, Base(block), n, maxDoc, rankBytes, bitmap).value;
            (ReadBlocks(Header(block, n) + rest, seen, numValues, maxDoc, rankBytes, bitmap)
             == ReadBlocks(p.1, seen + n, numValues, maxDoc, rankBytes, p.0))
  {
    hide ReadPayload, Header;
    HeaderRead(block, n, rest);
  }

  lemma OneBlockAhead(docs: seq<nat>, power: int, tail: seq<byte>)
    requires docs != []
    ensures var n := RunLength(docs, BlockOf(docs[0]));
            n > 0 &&
            Blocks(docs, power) + tail ==
            Header(BlockOf(docs[0]), n) +
            (BlockPayload(BlockWords(docs[..n]), n, power) + (Blocks(docs[n..], power) + tail))
  {
    var n := RunLength(docs, BlockOf(docs[0]));
    var h, p := Header(BlockOf(docs[0]), n), BlockPayload(BlockWords(docs[..n]), n, power);
    var b := Blocks(docs[n..], power);
    hide Header, BlockPayload, BlockWords;
    hide *;
    Assoc(h + p, b, tail);
    Assoc(h, p, b + tail);
  }

  lemma LaterBlocks(done: seq<nat>, run: seq<nat>, later: seq<nat>, block: nat)
    requires AllBelow(done, Base(block)) && AllBelow(run, Base(block + 1))
    requires later != [] ==> BlockOf(later[0]) > block
    ensures later != [] ==> AllBelow(done + run, Base(BlockOf(later[0])))
  {
    if later != [] {
      assert Base(block + 1) <= Base(BlockOf(later[0]));
    }
  }

  // Whatever the docs, their density, and the rank power: decoding what was
  // written yields exactly their bitmap.
  lemma DisiRoundTrip(docs: seq<nat>, maxDoc: nat, power: int, tail: seq<byte>)
    requires LegalRankPower(power) && maxDoc <= TWO_31
    requires Ascending(docs) && AllBelow(docs, maxDoc)
    ensures DecodesTo(DecodeRegion(Encoded(docs, power) + tail, |docs|, maxDoc, DenseRankBytes(PowerByte(power))), docs, maxDoc)
  {
    hide Blocks, Sentinel, JumpBytes, JumpCount, ReadBlocks, DecodesTo, LegalRankPower, Pending, DenseRankBytes, RankLength;
    RankBytesWritten(power);
    EmptyPending(docs, maxDoc);
    var after := Sentinel() + JumpBytes(docs, power, JumpCount(docs));
    Assoc(Blocks(docs, power), after, tail);
    var p := Progress(ZeroWords(Direct.CeilDiv(maxDoc, 64)), [], docs);
    BlocksRead(p, maxDoc, power, after + tail);
    assert [] + docs == docs;
  }

  lemma EmptyPending(docs: seq<nat>, maxDoc: nat)
    requires Ascending(docs) && AllBelow(docs, maxDoc)
    ensures Pending(Progress(ZeroWords(Direct.CeilDiv(maxDoc, 64)), [], docs), maxDoc)
  {
    OnesOfZeros(ZeroWords(Direct.CeilDiv(maxDoc, 64)), 0);
  }
}
