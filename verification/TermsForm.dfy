// What the bytes of a terms dictionary are, whoever reads them: how terms are cut into
// blocks and prefix-coded, and which keys the reverse index holds.
module TermsForm {
  import opened Bits
  import opened Wire
  import opened Lex
  import opened Monotonic
  import opened TermsDict

  // ----- blocks --------------------------------------------------------------------------------

  ghost predicate StartsWith(b: seq<byte>, at: nat, part: seq<byte>) { at <= |b| && part <= b[at..] }

  // Term 64b starts block b, in full, where the b-th address says.
  lemma BlockStarts(terms: seq<Term>, z: Lz4, b: nat)
    requires 64 * b < |terms| && |BlocksBytes(terms, z)| < TWO_63
    ensures b < |Starts(terms, z, 0)| && Starts(terms, z, 0)[b] >= 0
    ensures StartsWith(BlocksBytes(terms, z), Starts(terms, z, 0)[b], VBytes(|terms[64 * b]|) + terms[64 * b])
  {
    hide BlocksBytes, Starts, VBytes, StartsWith;
    BlockStartsFrom(terms, z, 0, b);
  }

  lemma {:induction false} BlockStartsFrom(terms: seq<Term>, z: Lz4, offset: nat, b: nat)
    requires 64 * b < |terms| && offset + |BlocksBytes(terms, z)| < TWO_63
    ensures b < |Starts(terms, z, offset)| && Starts(terms, z, offset)[b] >= offset
    ensures StartsWith(BlocksBytes(terms, z), Starts(terms, z, offset)[b] - offset, VBytes(|terms[64 * b]|) + terms[64 * b])
    decreases b
  {
    hide VBytes, StartsWith, BlockBytes, BlocksBytes, Starts, Wrap, Chunk;
    var first, rest := BlockBytes(Chunk(terms, BLOCK_TERMS), z), Tail(terms, BLOCK_TERMS);
    FirstBlock(terms, z, offset);
    if b == 0 {
      FirstWhole(Chunk(terms, BLOCK_TERMS), z);
      AppendStarts(first, BlocksBytes(rest, z), 0, VBytes(|terms[0]|) + terms[0]);
    } else {
      BlockStartsFrom(rest, z, offset + |first|, b - 1);
      assert rest[64 * (b - 1)] == terms[64 * b];
      PrependStarts(first, BlocksBytes(rest, z), Starts(terms, z, offset)[b] - offset - |first|,
                    VBytes(|terms[64 * b]|) + terms[64 * b]);
    }
  }

  lemma FirstBlock(terms: seq<Term>, z: Lz4, offset: nat)
    requires terms != [] && offset < TWO_63
    ensures var c, rest := Chunk(terms, 64), Tail(terms, 64);
            && c != [] && c[0] == terms[0] && rest == terms[if |terms| <= 64 then |terms| else 64..]
            && BlocksBytes(terms, z) == BlockBytes(c, z) + BlocksBytes(rest, z)
            && Starts(terms, z, offset) == [offset] + Starts(rest, z, offset + |BlockBytes(c, z)|)
  {
    hide BlockBytes, Wrap;
    WrapIsIdentity(offset);
  }

  lemma FirstWhole(terms: seq<Term>, z: Lz4)
    requires terms != []
    ensures StartsWith(BlockBytes(terms, z), 0, VBytes(|terms[0]|) + terms[0])
  {
    hide VBytes, SuffixBytes;
    var tail := if |terms| == 1 then [] else SuffixBytes(terms, z);
    Assoc(VBytes(|terms[0]|), terms[0], tail);
    assert BlockBytes(terms, z)[0..] == BlockBytes(terms, z);
  }

  lemma AppendStarts(a: seq<byte>, b: seq<byte>, at: nat, part: seq<byte>)
    requires StartsWith(a, at, part)
    ensures StartsWith(a + b, at, part)
  {
    assert (a + b)[at..] == a[at..] + b;
  }

  lemma PrependStarts(a: seq<byte>, b: seq<byte>, at: nat, part: seq<byte>)
    requires StartsWith(b, at, part)
    ensures StartsWith(a + b, |a| + at, part)
  {
    assert (a + b)[|a| + at..] == b[at..];
  }

  // ----- the terms within a block --------------------------------------------------------------

  // A term after another: how much of it is the same, how much is not, and what is not. The
  // part that is the same is as long as can be.
  lemma TokenForm(prev: Term, term: Term, p: nat)
    requires p < |term| && p <= |prev| && prev[..p] == term[..p] && (p == |prev| || prev[p] != term[p])
    ensures var s := |term| - p;
            Token(prev, term) ==
              [(if p <= 15 then p else 15) + 16 * (if s <= 16 then s - 1 else 15)] +
              ((if p >= 15 then VBytes(p - 15) else []) + ((if s >= 16 then VBytes(s - 16) else []) + term[p..]))
  {
    hide VBytes;
    CommonPrefixLongest(prev, term, p);
  }

  // The stored maximum is the length of a longest term.
  lemma {:induction false} LongestIs(terms: seq<Term>)
    requires terms != []
    ensures (forall i :: 0 <= i < |terms| ==> |terms[i]| <= MaxLength(terms))
    ensures exists i :: 0 <= i < |terms| && |terms[i]| == MaxLength(terms)
    decreases |terms|
  {
    var init := terms[..|terms| - 1];
    if init == [] {
      assert MaxLength(init) == 0;
      assert |terms[0]| == MaxLength(terms);
    } else {
      LongestIs(init);
      var i :| 0 <= i < |init| && |init[i]| == MaxLength(init);
      assert |terms[i]| == MaxLength(init);
      assert |terms[|terms| - 1]| <= MaxLength(terms);
      if MaxLength(terms) != MaxLength(init) {
        assert |terms[|terms| - 1]| == MaxLength(terms);
      }
    }
  }

  // How long the prefix-coded terms of block b are.
  function StreamLength(terms: seq<Term>, b: nat): nat {
    if 64 * b < |terms| then |SuffixStream(Chunk(terms[64 * b..], 64))| else 0
  }

  // And the stored maximum for a block is the length of a longest one.
  lemma {:induction false} LongestStream(terms: seq<Term>, b: nat) returns (at: nat)
    requires terms != []
    ensures StreamLength(terms, b) <= MaxSuffix(terms)
    ensures 64 * at < |terms| && StreamLength(terms, at) == MaxSuffix(terms)
    decreases |terms|
  {
    hide SuffixStream;
    var rest := Tail(terms, 64);
    assert terms[0..] == terms;
    at := 0;
    if rest != [] {
      LaterStream(terms, if b > 0 then b - 1 else 0);
      var later := LongestStream(rest, if b > 0 then b - 1 else 0);
      LaterStream(terms, later);
      at := if StreamLength(terms, 0) > MaxSuffix(rest) then 0 else later + 1;
    }
  }

  lemma LaterStream(terms: seq<Term>, b: nat)
    ensures StreamLength(terms, b + 1) == StreamLength(Tail(terms, 64), b)
  {
    if |terms| > 64 {
      assert Tail(terms, 64) == terms[64..];
      if 64 * b < |terms| - 64 {
        assert terms[64..][64 * b..] == terms[64 * (b + 1)..];
      }
    }
  }

  // ----- the reverse index ---------------------------------------------------------------------

  // The shortest prefix of b that comes after a.
  lemma {:induction false} SortKeyLeast(a: Term, b: Term, k: nat)
    requires Less(a, b) && k < SortKeyLength(a, b)
    ensures 0 < SortKeyLength(a, b) <= |b|
    ensures Less(a, b[..SortKeyLength(a, b)]) && !Less(a, b[..k])
    decreases |a|
  {
    var n := SortKeyLength(a, b);
    PrefixShorter(a, b);
    if a != [] && a[0] == b[0] {
      PrefixShorter(a[1..], b[1..]);
      SortKeyLeast(a[1..], b[1..], if k == 0 then 0 else k - 1);
      assert b[..n][1..] == b[1..][..n - 1];
      if k > 0 {
        assert b[..k][1..] == b[1..][..k - 1];
      }
    }
  }

  // The key of an entry of the index.
  function KeyAt(terms: seq<Term>, i: nat): Term {
    var offsets, keys := IndexOffsets(terms, 0, 0), IndexKeys(terms, 0);
    if i + 1 < |offsets| && 0 <= offsets[i] <= offsets[i + 1] <= |keys| then keys[offsets[i]..offsets[i + 1]] else []
  }

  // Every 1024th term has an entry, and its key is the shortest prefix of it that comes after
  // the term before; the first one has an empty key.
  lemma KeyMeaning(terms: seq<Term>, i: nat, k: nat)
    requires StrictlySorted(terms) && |IndexKeys(terms, 0)| < TWO_63 && 1024 * i < |terms|
    ensures i + 1 < |IndexOffsets(terms, 0, 0)|
    ensures KeyAt(terms, i) <= terms[1024 * i]
    ensures i == 0 ==> KeyAt(terms, i) == []
    ensures i > 0 ==> Precedes(terms[1024 * i - 1], KeyAt(terms, i))
    ensures i > 0 && k < |KeyAt(terms, i)| ==> !Precedes(terms[1024 * i - 1], KeyAt(terms, i)[..k])
  {
    hide IndexKeys, IndexOffsets, SortKeyLength, Less, Precedes;
    KeysFrom(terms, 0, 0, i);
    var key := KeyAt(terms, i);
    if i > 0 {
      var a, b := terms[1024 * i - 1], terms[1024 * i];
      LastKeyByte(a, b);
      LessIs(a, key);
      if k < |key| {
        SortKeyLeast(a, b, k);
        assert key[..k] == b[..k];
        LessIs(a, key[..k]);
      }
    }
  }

  lemma LastKeyByte(a: Term, b: Term)
    requires Less(a, b)
    ensures 0 < SortKeyLength(a, b) <= |b| && Less(a, b[..SortKeyLength(a, b)])
  {
    hide Less;
    PrefixShorter(a, b);
    SortKeyLeast(a, b, 0);
  }

  lemma {:induction false} KeysFrom(terms: seq<Term>, ord: nat, offset: nat, i: nat)
    requires offset + |IndexKeys(terms, ord)| < TWO_63 && ord + 1024 * i < |terms|
    ensures var o := IndexOffsets(terms, ord, offset);
            i + 1 < |o| && offset <= o[i] <= o[i + 1] <= offset + |IndexKeys(terms, ord)| &&
            IndexKeys(terms, ord)[o[i] - offset..o[i + 1] - offset] ==
              terms[ord + 1024 * i][..KeyLength(terms, ord + 1024 * i)]
    decreases i
  {
    hide KeyLength, Wrap, IndexKeys, IndexOffsets;
    var n := KeyLength(terms, ord);
    FirstKey(terms, ord, offset);
    FirstOffset(terms, ord + 1024, offset + n);
    if i > 0 {
      KeysFrom(terms, ord + 1024, offset + n, i - 1);
      var o, rest := IndexOffsets(terms, ord, offset), IndexOffsets(terms, ord + 1024, offset + n);
      assert o[i] == rest[i - 1] && o[i + 1] == rest[i];
      SliceBehind(terms[ord][..n], IndexKeys(terms, ord + 1024), o[i] - offset, o[i + 1] - offset);
    }
  }

  lemma FirstKey(terms: seq<Term>, ord: nat, offset: nat)
    requires ord < |terms| && offset < TWO_63
    ensures IndexKeys(terms, ord) == terms[ord][..KeyLength(terms, ord)] + IndexKeys(terms, ord + 1024)
    ensures IndexOffsets(terms, ord, offset) == [offset] + IndexOffsets(terms, ord + 1024, offset + KeyLength(terms, ord))
  {
    hide KeyLength, Wrap;
    WrapIsIdentity(offset);
  }

  lemma FirstOffset(terms: seq<Term>, ord: nat, offset: nat)
    requires offset < TWO_63
    ensures IndexOffsets(terms, ord, offset)[0] == offset
  {
    hide KeyLength, Wrap;
    WrapIsIdentity(offset);
  }

  lemma SliceBehind(a: seq<byte>, b: seq<byte>, i: nat, j: nat)
    requires |a| <= i <= j <= |a| + |b|
    ensures (a + b)[i..j] == b[i - |a|..j - |a|]
  {
  }
}
