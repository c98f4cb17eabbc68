// What the bytes of an IndexedDISI region are, whoever reads them: the form each block
// takes, the sentinel, and how many jump entries there are.
module DisiForm {
  import opened Bits
  import opened Bitmap
  import opened Disi

  // The first n documents are those of one block.
  ghost predicate FirstBlock(docs: seq<nat>, n: nat) {
    && 0 < n <= |docs|
    && (forall i :: 0 <= i < n ==> docs[i] / 65536 == docs[0] / 65536)
    && (n < |docs| ==> docs[n] / 65536 != docs[0] / 65536)
  }

  // Short i of p is the i-th document's place in its block.
  ghost predicate Shorts(p: seq<byte>, docs: seq<nat>) {
    |p| == 2 * |docs| && forall i :: 0 <= i < |docs| ==> ShortIs(p, i, docs[i] % 65536)
  }

  predicate ShortIs(p: seq<byte>, i: nat, x: nat) { 2 * i + 2 <= |p| && p[2 * i] == x % 256 && p[2 * i + 1] == x / 256 }

  // The 65536 bits of p are those of the documents.
  ghost predicate Bitset(p: seq<byte>, docs: seq<nat>) {
    exists words: seq<nat> :: WordsOf(p, words) && OnesOf(words, 0) == seq(|docs|, i requires 0 <= i < |docs| => docs[i] % 65536)
  }

  ghost predicate WordsOf(p: seq<byte>, words: seq<nat>) {
    |words| == 1024 && |p| == 8192 && forall i :: 0 <= i < 1024 ==> p[8 * i..8 * i + 8] == LeBytes(words[i], 8)
  }

  // The payload is nothing for a full block, a short for each document while that takes fewer
  // bytes than a bitset, and a bitset behind a rank table otherwise.
  ghost predicate IsPayload(p: seq<byte>, docs: seq<nat>, power: int) {
    var rank := if power < 7 then 0 else Shr(1024, power - 7);
    if |docs| == 65536 then p == []
    else if 2 * |docs| < 8192 then Shorts(p, docs)
    else |p| == rank + 8192 && Bitset(p[rank..], docs)
  }

  lemma BlockForm(docs: seq<nat>, n: nat, power: int)
    requires Ascending(docs) && FirstBlock(docs, n) && LegalRankPower(power)
    ensures n <= 65536
    ensures exists p :: IsPayload(p, docs[..n], power) &&
              Blocks(docs, power) ==
                (LeBytes(docs[0] / 65536, 2) + LeBytes((n - 1) % 65536, 2) + p) + Blocks(docs[n..], power)
  {
    hide BlockWords, RankTable, WordBytes, ShortBytes, Ascending, RunLength, IsPayload, OnesOf;
    RunIs(docs, n);
    FewInBlock(docs[..n], docs[0] / 65536);
    var words := BlockWords(docs[..n]);
    PayloadForm(docs[..n], docs[0] / 65536, power);
    assert IsPayload(BlockPayload(words, n, power), docs[..n], power);
  }

  lemma {:induction false} RunIs(docs: seq<nat>, n: nat)
    requires Ascending(docs) && FirstBlock(docs, n)
    ensures RunLength(docs, BlockOf(docs[0])) == n
    ensures InBlock(docs[..n], BlockOf(docs[0])) && Ascending(docs[..n])
    decreases n
  {
    RunFrom(docs, n, docs[0] / 65536);
  }

  lemma {:induction false} RunFrom(docs: seq<nat>, n: nat, block: nat)
    requires n <= |docs| && (forall i :: 0 <= i < n ==> docs[i] / 65536 == block)
    requires n < |docs| ==> docs[n] / 65536 != block
    ensures RunLength(docs, block) == n
    decreases n
  {
    if n > 0 {
      RunFrom(docs[1..], n - 1, block);
    }
  }

  lemma FewInBlock(docs: seq<nat>, block: nat)
    requires Ascending(docs) && InBlock(docs, block)
    ensures |docs| <= 65536
  {
    if docs != [] {
      Spread(docs, |docs| - 1);
      assert docs[|docs| - 1] / 65536 == docs[0] / 65536;
    }
  }

  lemma {:induction false} Spread(docs: seq<nat>, i: nat)
    requires Ascending(docs) && i < |docs|
    ensures docs[i] >= docs[0] + i
  {
    if i > 0 {
      Spread(docs, i - 1);
      assert docs[i - 1] < docs[i];
    }
  }

  lemma PayloadForm(docs: seq<nat>, block: nat, power: int)
    requires Ascending(docs) && InBlock(docs, block) && docs != [] && |docs| <= 65536 && LegalRankPower(power)
    ensures IsPayload(BlockPayload(BlockWords(docs), |docs|, power), docs, power)
  {
    hide BlockWords, Shr, RankTable, OnesOf, WordBytes, ShortBytes;
    BlockWordsOnes(docs, block);
    var words := BlockWords(docs);
    if |docs| < 4096 {
      ShortsAre(Within(docs));
      assert forall i :: 0 <= i < |docs| ==> Within(docs)[i] == docs[i] % 65536;
    } else if |docs| != 65536 {
      var rank := RankTable(words, power);
      assert (rank + WordBytes(words))[|rank|..] == WordBytes(words);
      WordsAre(words);
      assert WordsOf(WordBytes(words), words);
    }
  }

  lemma {:induction false} ShortsAre(s: seq<nat>)
    requires AllBelow(s, 65536)
    ensures |ShortBytes(s)| == 2 * |s| && forall i :: 0 <= i < |s| ==> ShortIs(ShortBytes(s), i, s[i])
  {
    if s != [] {
      ShortsAre(s[1..]);
      TwoBytes(s[0]);
      var p, rest := ShortBytes(s), ShortBytes(s[1..]);
      forall i | 0 <= i < |s| ensures ShortIs(p, i, s[i]) {
        if i > 0 {
          assert ShortIs(rest, i - 1, s[1..][i - 1]);
        }
      }
    }
  }

  lemma TwoBytes(x: nat)
    requires x < 65536
    ensures LeBytes(x, 2) == [x % 256, x / 256]
  {
    assert LeBytes(x, 2)[1] == x / 256 % 256;
  }

  lemma {:induction false} WordsAre(words: seq<nat>)
    ensures |WordBytes(words)| == 8 * |words|
    ensures forall i :: 0 <= i < |words| ==> WordBytes(words)[8 * i..8 * i + 8] == LeBytes(words[i], 8)
  {
    hide LeBytes;
    if words != [] {
      WordsAre(words[1..]);
      var p, rest := WordBytes(words), WordBytes(words[1..]);
      forall i | 0 <= i < |words| ensures p[8 * i..8 * i + 8] == LeBytes(words[i], 8) {
        if i > 0 {
          assert p[8 * i..8 * i + 8] == rest[8 * (i - 1)..8 * (i - 1) + 8];
        }
      }
    }
  }

  // Behind the blocks come block 32767 with the one document 65535, and the jump entries:
  // none if all documents are in block 0, otherwise one for every block up to the last one
  // with documents and one for the sentinel.
  lemma RegionEnd(docs: seq<nat>, power: int)
    requires docs != []
    ensures var count := if docs[|docs| - 1] < 65536 then 0 else docs[|docs| - 1] / 65536 + 2;
            Encoded(docs, power) == Blocks(docs, power) + ([0xFF, 0x7F, 0, 0, 0xFF, 0xFF] + JumpBytes(docs, power, count))
  {
    hide Blocks, JumpBytes;
    TwoBytes(32767);
    TwoBytes(65535);
    TwoBytes(0);
    assert Sentinel() == [0xFF, 0x7F, 0, 0, 0xFF, 0xFF];
  }
}
