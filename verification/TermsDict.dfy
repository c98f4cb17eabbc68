// Terms dictionaries: byte-sorted terms in blocks of 64, each block's first term
// raw and the others prefix-coded into a stream that LZ4 compresses with the
// first term as dictionary; block starts as a DirectMonotonic sequence; and a
// reverse index the reader skips.
//
// LZ4 is any pair of functions of which the second undoes the first.
module TermsDict {
  import opened Bits
  import opened Wire
  import opened Lex
  import opened Monotonic

  datatype Lz4 = Lz4(compress: (seq<byte>, seq<byte>) -> seq<byte>,
                     decompress: (seq<byte>, nat, seq<byte>) -> Result<seq<byte>>)

  ghost predicate Inverts(z: Lz4) {
    forall dict, s :: z.decompress(z.compress(dict, s), |s|, dict) == Ok(s)
  }

  const BLOCK_TERMS: nat := 64

  // ----- what is written ------------------------------------------------------------------

  // One prefix-coded term: a token of both lengths, escapes, the suffix bytes.
  function Token(prev: Term, term: Term): seq<byte> {
    var prefix := CommonPrefix(prev, term);
    var suffix := |term| - prefix;
    [TokenByte(prefix, suffix)] +
    ((if prefix >= 15 then VBytes(prefix - 15) else []) +
     ((if suffix >= 16 then VBytes(suffix - 16) else []) + term[prefix..]))
  }

  function TokenByte(prefix: nat, suffix: nat): byte {
    var low := if prefix < 15 then prefix else 15;
    var high := if suffix <= 1 then 0 else if suffix - 1 < 15 then suffix - 1 else 15;
    low + 16 * high
  }

  // The terms after the first, each against its predecessor.
  function SuffixStream(terms: seq<Term>): seq<byte> {
    if |terms| <= 1 then [] else Token(terms[0], terms[1]) + SuffixStream(terms[1..])
  }

  function BlockBytes(terms: seq<Term>, z: Lz4): seq<byte>
    requires terms != []
  {
    VBytes(|terms[0]|) + (terms[0] + (if |terms| == 1 then [] else SuffixBytes(terms, z)))
  }

  function SuffixBytes(terms: seq<Term>, z: Lz4): seq<byte>
    requires terms != []
  {
    VBytes(|SuffixStream(terms)|) + z.compress(terms[0], SuffixStream(terms))
  }

  function BlocksBytes(terms: seq<Term>, z: Lz4): seq<byte> {
    if terms == [] then []
    else BlockBytes(Chunk(terms, BLOCK_TERMS), z) + BlocksBytes(Tail(terms, BLOCK_TERMS), z)
  }

  function Starts(terms: seq<Term>, z: Lz4, offset: nat): (s: seq<i64>)
    ensures |s| == BlockCount(|terms|, BLOCK_TERMS)
    decreases |terms|
  {
    if terms == [] then []
    else [Wrap(offset)] + Starts(Tail(terms, BLOCK_TERMS), z, offset + |BlockBytes(Chunk(terms, BLOCK_TERMS), z)|)
  }

  function MaxLength(terms: seq<Term>): nat {
    if terms == [] then 0
    else if |terms[|terms| - 1]| > MaxLength(terms[..|terms| - 1]) then |terms[|terms| - 1]|
    else MaxLength(terms[..|terms| - 1])
  }

  // What the 32-bit lengths of the format can hold: each term, and each block's
  // suffixes. It does not limit the terms altogether.
  ghost predicate Encodable(terms: seq<Term>) {
    && |terms| < TWO_63
    && (forall i :: 0 <= i < |terms| ==> |terms[i]| < TWO_31)
    && SuffixesFit(terms)
  }

  ghost predicate SuffixesFit(terms: seq<Term>)
    decreases |terms|
  {
    terms == [] || (|SuffixStream(Chunk(terms, BLOCK_TERMS))| < TWO_31 && SuffixesFit(Tail(terms, BLOCK_TERMS)))
  }

  // ----- what is read ----------------------------------------------------------------------

  // `vint` used as a length: negative ones are rejected or as good as too long.
  function ReadLength(rest: seq<byte>): Parsed<nat> {
    var (n, rest') :- ReadVNat32(rest);
    if n >= TWO_31 then Err(Corrupt) else Ok((n, rest'))
  }

  function ReadPrefixLength(token: byte, rest: seq<byte>): Parsed<nat> {
    if token % 16 == 15 then
      var (more, rest') :- ReadLength(rest);
      Ok((15 + more, rest'))
    else Ok((token % 16, rest))
  }

  function ReadSuffixLength(token: byte, rest: seq<byte>): Parsed<nat> {
    if token / 16 == 15 then
      var (more, rest') :- ReadLength(rest);
      Ok((16 + more, rest'))
    else Ok((token / 16 + 1, rest))
  }

  function ReadLengths(rest: seq<byte>): Parsed<(nat, nat)> {
    var (token, rest1) :- ReadU8(rest);
    var (prefix, rest2) :- ReadPrefixLength(token, rest1);
    var (suffix, rest3) :- ReadSuffixLength(token, rest2);
    Ok(((prefix, suffix), rest3))
  }

  function ReadToken(rest: seq<byte>, prev: Term): Parsed<Term> {
    var ((prefix, suffix), rest1) :- ReadLengths(rest);
    if prefix > |prev| then Err(Corrupt)
    else
      var (bytes, rest2) :- TakeBytes(rest1, suffix);
      Ok((prev[..prefix] + bytes, rest2))
  }

  function ReadTokens(rest: seq<byte>, prev: Term, k: nat): Result<seq<Term>>
    decreases k
  {
    if k == 0 then Ok([])
    else
      var (term, rest') :- ReadToken(rest, prev);
      var terms :- ReadTokens(rest', term, k - 1);
      Ok([term] + terms)
  }

  function ReadSuffixes(dvd: seq<byte>, rest: seq<byte>, blockEnd: nat, first: Term, n: nat, z: Lz4): Result<seq<Term>>
    requires n > 0
  {
    var (length, rest') :- ReadLength(rest);
    var pos := if |rest'| <= |dvd| then |dvd| - |rest'| else 0;
    if pos > blockEnd || blockEnd > |dvd| then Err(Panic)
    else
      var buffer :- z.decompress(dvd[pos..blockEnd], length, first);
      if |buffer| != length then Err(Corrupt) else ReadTokens(buffer, first, n - 1)
  }

  // The n terms of the block in dvd[blockStart..blockEnd].
  function ReadBlock(dvd: seq<byte>, blockStart: nat, blockEnd: nat, maxLength: nat, n: nat, z: Lz4): Result<seq<Term>> {
    var (firstLength, rest1) :- ReadLength(From(dvd, blockStart));
    if firstLength > maxLength then Err(Corrupt)
    else
      var (first, rest2) :- TakeBytes(rest1, firstLength);
      if n <= 1 then Ok([first])
      else
        var others :- ReadSuffixes(dvd, rest2, blockEnd, first, n, z);
        Ok([first] + others)
  }

  function ReadBlocks(dvd: seq<byte>, starts: seq<i64>, termsOffset: nat, termsEnd: nat, maxLength: nat,
                      remaining: nat, z: Lz4): Result<seq<Term>>
    decreases |starts|
  {
    if starts == [] then Ok([])
    else if starts[0] < 0 then Err(Corrupt)
    else
      var blockStart := termsOffset + starts[0];
      var blockEnd := if |starts| > 1 then termsOffset + AsU64(starts[1]) else termsEnd;
      if blockEnd < blockStart || blockEnd > termsEnd then Err(Corrupt)
      else
        var n := if remaining < BLOCK_TERMS then remaining else BLOCK_TERMS;
        var block :- ReadBlock(dvd, blockStart, blockEnd, maxLength, n, z);
        var rest :- ReadBlocks(dvd, starts[1..], termsOffset, termsEnd, maxLength, remaining - n, z);
        Ok(block + rest)
  }

  datatype TermsPlan = TermsPlan(numTerms: nat, addressMeta: seq<MetaBlock>, addressShift: nat, maxTermLength: nat,
                                 maxBlockLength: nat, termsOffset: nat, termsLen: nat, addressesOffset: nat, addressesLen: nat)

  function Materialize(t: TermsPlan, dvd: seq<byte>, z: Lz4, p: Predictor): Result<seq<Term>> {
    var termsEnd := t.termsOffset + t.termsLen;
    if termsEnd > |dvd| || t.addressesOffset + t.addressesLen > |dvd| then Err(Corrupt)
    else
      var starts :- Decode(t.addressMeta, From(dvd, t.addressesOffset), p,
                           BlockCount(t.numTerms, BLOCK_TERMS), SizeOf(t.addressShift));
      var terms :- ReadBlocks(dvd, starts, t.termsOffset, termsEnd, t.maxTermLength, t.numTerms, z);
      if |terms| != t.numTerms then Err(Corrupt) else Ok(terms)
  }

  // ----- tokens come back --------------------------------------------------------------------

  lemma LengthRoundTrip(n: nat, rest: seq<byte>)
    requires n < TWO_31
    ensures Yields(ReadLength(VBytes(n) + rest), n, rest)
  {
    hide ReadV, VBytes;
    VIntRoundTrip(n, rest);
  }

  lemma TokenByteFields(prefix: nat, suffix: nat)
    requires suffix > 0
    ensures var t := TokenByte(prefix, suffix);
            && (if prefix >= 15 then t % 16 == 15 else t % 16 == prefix)
            && (if suffix >= 16 then t / 16 == 15 else t / 16 == suffix - 1 && t / 16 < 15)
  {
  }

  lemma PrefixBack(prefix: nat, suffix: nat, rest: seq<byte>)
    requires suffix > 0 && prefix < TWO_31
    ensures Yields(ReadPrefixLength(TokenByte(prefix, suffix), (if prefix >= 15 then VBytes(prefix - 15) else []) + rest),
                   prefix, rest)
  {
    hide ReadLength, VBytes, TokenByte;
    TokenByteFields(prefix, suffix);
    if prefix >= 15 {
      LengthRoundTrip(prefix - 15, rest);
    } else {
      assert [] + rest == rest;
    }
  }

  lemma SuffixBack(prefix: nat, suffix: nat, rest: seq<byte>)
    requires 0 < suffix < TWO_31
    ensures Yields(ReadSuffixLength(TokenByte(prefix, suffix), (if suffix >= 16 then VBytes(suffix - 16) else []) + rest),
                   suffix, rest)
  {
    hide ReadLength, VBytes, TokenByte;
    TokenByteFields(prefix, suffix);
    if suffix >= 16 {
      LengthRoundTrip(suffix - 16, rest);
    } else {
      assert [] + rest == rest;
    }
  }

  lemma TokenRoundTrip(prev: Term, term: Term, rest: seq<byte>)
    requires CommonPrefix(prev, term) < |term| < TWO_31
    ensures Yields(ReadToken(Token(prev, term) + rest, prev), term, rest)
  {
    hide ReadPrefixLength, ReadSuffixLength, VBytes, TokenByte, CommonPrefix;
    var prefix := CommonPrefix(prev, term);
    var suffix := |term| - prefix;
    var t1 := term[prefix..];
    var s := if suffix >= 16 then VBytes(suffix - 16) else [];
    var f := if prefix >= 15 then VBytes(prefix - 15) else [];
    var b := TokenByte(prefix, suffix);
    Assoc([b], f + (s + t1), rest);
    Assoc(f, s + t1, rest);
    Assoc(s, t1, rest);
    assert ([b] + ((f + (s + t1)) + rest))[1..] == f + ((s + t1) + rest);
    PrefixBack(prefix, suffix, s + (t1 + rest));
    SuffixBack(prefix, suffix, t1 + rest);
    assert (t1 + rest)[..suffix] == t1 && (t1 + rest)[suffix..] == rest;
    assert prev[..prefix] + t1 == term;
  }

  // Each term adds at least a byte to its predecessor's prefix.
  ghost predicate Chained(terms: seq<Term>) {
    forall i :: 1 <= i < |terms| ==> CommonPrefix(terms[i - 1], terms[i]) < |terms[i]| < TWO_31
  }

  lemma ChainedTail(terms: seq<Term>)
    requires |terms| > 1 && Chained(terms)
    ensures Chained(terms[1..]) && CommonPrefix(terms[0], terms[1]) < |terms[1]| < TWO_31
  {
    hide CommonPrefix;
    var tail := terms[1..];
    forall i | 1 <= i < |tail| ensures CommonPrefix(tail[i - 1], tail[i]) < |tail[i]| < TWO_31 {
      assert tail[i - 1] == terms[i] && tail[i] == terms[i + 1];
    }
  }

  lemma {:induction false} TokensRoundTrip(terms: seq<Term>)
    requires terms != [] && Chained(terms)
    ensures Gives(ReadTokens(SuffixStream(terms), terms[0], |terms| - 1), terms[1..])
  {
    hide Token, ReadToken, CommonPrefix, Chained;
    if |terms| > 1 {
      var tail := terms[1..];
      ChainedTail(terms);
      TokenRoundTrip(terms[0], terms[1], SuffixStream(tail));
      TokensRoundTrip(tail);
      assert tail == [terms[1]] + tail[1..];
    } else {
      assert terms[1..] == [];
    }
  }

  // ----- blocks come back ---------------------------------------------------------------------

  lemma {:induction false} MaxLengthCovers(terms: seq<Term>)
    ensures forall i :: 0 <= i < |terms| ==> |terms[i]| <= MaxLength(terms)
  {
    if terms != [] {
      MaxLengthCovers(terms[..|terms| - 1]);
      assert forall i :: 0 <= i < |terms| - 1 ==> terms[i] == terms[..|terms| - 1][i];
    }
  }

  lemma SuffixesBack(dvd: seq<byte>, terms: seq<Term>, blockEnd: nat, after: seq<byte>, z: Lz4)
    requires Inverts(z) && |terms| > 1 && Chained(terms) && |SuffixStream(terms)| < TWO_31
    requires |SuffixBytes(terms, z) + after| <= |dvd|
    requires From(dvd, |dvd| - |SuffixBytes(terms, z) + after|) == SuffixBytes(terms, z) + after
    requires blockEnd == |dvd| - |after|
    ensures Gives(ReadSuffixes(dvd, SuffixBytes(terms, z) + after, blockEnd, terms[0], |terms|, z), terms[1..])
  {
    hide ReadLength, VBytes, SuffixStream, ReadTokens, Chained;
    var s := SuffixStream(terms);
    var packed := z.compress(terms[0], s);
    Assoc(VBytes(|s|), packed, after);
    LengthRoundTrip(|s|, packed + after);
    var pos := |dvd| - |packed + after|;
    assert dvd[pos..blockEnd] == packed by {
      CompressedRegion(dvd, VBytes(|s|), packed, after);
    }
    TokensRoundTrip(terms);
  }

  lemma CompressedRegion(dvd: seq<byte>, a: seq<byte>, b: seq<byte>, c: seq<byte>)
    requires |a + (b + c)| <= |dvd| && From(dvd, |dvd| - |a + (b + c)|) == a + (b + c)
    ensures dvd[|dvd| - |b + c|..|dvd| - |c|] == b
  {
    var at := |dvd| - |a + (b + c)|;
    assert dvd[at..][|a|..] == b + c;
    assert dvd[at + |a|..] == b + c;
    assert dvd[at + |a|..][..|b|] == b;
  }

  // The first term of a block, raw.
  lemma FirstBack(first: Term, more: seq<byte>, after: seq<byte>)
    requires |first| < TWO_31
    ensures Yields(ReadLength((VBytes(|first|) + (first + more)) + after), |first|, first + (more + after))
    ensures Yields(TakeBytes(first + (more + after), |first|), first, more + after)
  {
    hide ReadLength, VBytes;
    Assoc(VBytes(|first|), first + more, after);
    Assoc(first, more, after);
    LengthRoundTrip(|first|, first + (more + after));
    assert (first + (more + after))[..|first|] == first && (first + (more + after))[|first|..] == more + after;
  }

  lemma BlockRoundTrip(dvd: seq<byte>, start: nat, terms: seq<Term>, after: seq<byte>, maxLength: nat, z: Lz4)
    requires Inverts(z) && terms != [] && Chained(terms) && |terms[0]| < TWO_31 && |terms[0]| <= maxLength
    requires |SuffixStream(terms)| < TWO_31
    requires start + |BlockBytes(terms, z)| + |after| == |dvd|
    requires From(dvd, start) == BlockBytes(terms, z) + after
    ensures Gives(ReadBlock(dvd, start, start + |BlockBytes(terms, z)|, maxLength, |terms|, z), terms)
  {
    hide ReadLength, VBytes, SuffixStream, ReadTokens, Chained, SuffixBytes, ReadSuffixes, Inverts, TakeBytes, ReadBlock;
    var first := terms[0];
    var more := if |terms| == 1 then [] else SuffixBytes(terms, z);
    var end := start + |BlockBytes(terms, z)|;
    FirstBack(first, more, after);
    if |terms| > 1 {
      FromLater(dvd, start, VBytes(|first|) + first, more + after);
      Assoc(VBytes(|first|), first, more + after);
      SuffixesBack(dvd, terms, end, after, z);
    }
    BlockParts(dvd, start, end, maxLength, terms, z, first + (more + after), more + after);
  }

  // The parts, read one after the other, are the block.
  lemma BlockParts(dvd: seq<byte>, start: nat, end: nat, maxLength: nat, terms: seq<Term>, z: Lz4, r1: seq<byte>, r2: seq<byte>)
    requires terms != [] && |terms[0]| <= maxLength
    requires Yields(ReadLength(From(dvd, start)), |terms[0]|, r1) && Yields(TakeBytes(r1, |terms[0]|), terms[0], r2)
    requires |terms| > 1 ==> Gives(ReadSuffixes(dvd, r2, end, terms[0], |terms|, z), terms[1..])
    ensures Gives(ReadBlock(dvd, start, end, maxLength, |terms|, z), terms)
  {
    hide ReadLength, TakeBytes, ReadSuffixes;
    if |terms| > 1 {
      assert terms == [terms[0]] + terms[1..];
    } else {
      assert terms == [terms[0]];
    }
  }

  lemma FromLater(dvd: seq<byte>, start: nat, a: seq<byte>, b: seq<byte>)
    requires start <= |dvd| && From(dvd, start) == a + b
    ensures |b| <= |dvd| && From(dvd, |dvd| - |b|) == b && start + |a| == |dvd| - |b|
  {
    assert dvd[start..][|a|..] == b;
  }

  lemma SortedChains(terms: seq<Term>)
    requires StrictlySorted(terms) && forall i :: 0 <= i < |terms| ==> |terms[i]| < TWO_31
    ensures Chained(terms)
  {
    forall i | 1 <= i < |terms| ensures CommonPrefix(terms[i - 1], terms[i]) < |terms[i]| {
      PrefixShorter(terms[i - 1], terms[i]);
    }
  }

  // What reading the blocks of `terms` at `offset` of the terms region needs.
  ghost predicate Readable(dvd: seq<byte>, terms: seq<Term>, base: nat, offset: nat, end: nat, maxLength: nat, z: Lz4) {
    && Inverts(z) && StrictlySorted(terms) && SuffixesFit(terms) && end <= |dvd| < TWO_63
    && (forall i :: 0 <= i < |terms| ==> |terms[i]| < TWO_31 && |terms[i]| <= maxLength)
    && base + offset + |BlocksBytes(terms, z)| == end
    && dvd[base + offset..end] == BlocksBytes(terms, z)
  }

  lemma ReadableTail(dvd: seq<byte>, terms: seq<Term>, base: nat, offset: nat, end: nat, maxLength: nat, z: Lz4)
    requires terms != [] && Readable(dvd, terms, base, offset, end, maxLength, z)
    ensures var size := |BlockBytes(Chunk(terms, BLOCK_TERMS), z)|;
            && Readable(dvd, Tail(terms, BLOCK_TERMS), base, offset + size, end, maxLength, z)
            && base + offset + size <= end
  {
    hide BlockBytes, Less, SuffixStream, Inverts;
    var b, t := BlockBytes(Chunk(terms, BLOCK_TERMS), z), BlocksBytes(Tail(terms, BLOCK_TERMS), z);
    assert (b + t)[|b|..] == t;
    assert dvd[base + offset + |b|..end] == dvd[base + offset..end][|b|..];
  }

  lemma ReadableBlock(dvd: seq<byte>, terms: seq<Term>, base: nat, offset: nat, end: nat, maxLength: nat, z: Lz4)
    requires terms != [] && Readable(dvd, terms, base, offset, end, maxLength, z)
    ensures var chunk := Chunk(terms, BLOCK_TERMS);
            && base + offset + |BlockBytes(chunk, z)| <= end
            && Gives(ReadBlock(dvd, base + offset, base + offset + |BlockBytes(chunk, z)|, maxLength, |chunk|, z), chunk)
  {
    hide *;
    BlockIsNonEmpty(terms);
    ReadableChunk(dvd, terms, base, offset, end, maxLength, z);
    var chunk := Chunk(terms, BLOCK_TERMS);
    var after := BlocksBytes(Tail(terms, BLOCK_TERMS), z) + dvd[end..];
    RegionAfter(dvd, BlockBytes(chunk, z), BlocksBytes(Tail(terms, BLOCK_TERMS), z), base + offset, end);
    BlockRoundTrip(dvd, base + offset, chunk, after, maxLength, z);
  }

  lemma ReadableChunk(dvd: seq<byte>, terms: seq<Term>, base: nat, offset: nat, end: nat, maxLength: nat, z: Lz4)
    requires terms != [] && Readable(dvd, terms, base, offset, end, maxLength, z)
    ensures var chunk := Chunk(terms, BLOCK_TERMS);
            && chunk != [] && Inverts(z) && Chained(chunk) && |chunk[0]| < TWO_31 && |chunk[0]| <= maxLength
            && |SuffixStream(chunk)| < TWO_31 && end <= |dvd|
            && base + offset + |BlockBytes(chunk, z) + BlocksBytes(Tail(terms, BLOCK_TERMS), z)| == end
            && dvd[base + offset..end] == BlockBytes(chunk, z) + BlocksBytes(Tail(terms, BLOCK_TERMS), z)
  {
    hide BlockBytes, Less, SuffixStream, Inverts, CommonPrefix;
    SortedChains(Chunk(terms, BLOCK_TERMS));
  }

  lemma RegionAfter(dvd: seq<byte>, b: seq<byte>, t: seq<byte>, at: nat, end: nat)
    requires at <= end <= |dvd| && dvd[at..end] == b + t
    ensures From(dvd, at) == b + (t + dvd[end..])
    ensures at + |b| + |t + dvd[end..]| == |dvd|
  {
    assert dvd[at..] == dvd[at..end] + dvd[end..];
    Assoc(b, t, dvd[end..]);
  }

  lemma {:induction false} BlocksRoundTrip(dvd: seq<byte>, terms: seq<Term>, base: nat, offset: nat, end: nat,
                                           maxLength: nat, z: Lz4)
    requires Readable(dvd, terms, base, offset, end, maxLength, z)
    ensures Gives(ReadBlocks(dvd, Starts(terms, z, offset), base, end, maxLength, |terms|, z), terms)
    decreases |terms|
  {
    hide *;
    if terms == [] {
      NoBlocks(dvd, base, offset, end, maxLength, z);
    } else {
      BlockIsNonEmpty(terms);
      var offset' := offset + |BlockBytes(Chunk(terms, BLOCK_TERMS), z)|;
      ReadableTail(dvd, terms, base, offset, end, maxLength, z);
      ReadableBlock(dvd, terms, base, offset, end, maxLength, z);
      BlocksRoundTrip(dvd, Tail(terms, BLOCK_TERMS), base, offset', end, maxLength, z);
      OneMoreBlock(dvd, terms, base, offset, end, maxLength, z);
    }
  }

  lemma BlockIsNonEmpty(terms: seq<Term>)
    requires terms != []
    ensures Chunk(terms, BLOCK_TERMS) != [] && |Tail(terms, BLOCK_TERMS)| < |terms|
  {
  }

  lemma NoBlocks(dvd: seq<byte>, base: nat, offset: nat, end: nat, maxLength: nat, z: Lz4)
    ensures Gives(ReadBlocks(dvd, Starts([], z, offset), base, end, maxLength, 0, z), [])
  {
  }

  lemma OneMoreBlock(dvd: seq<byte>, terms: seq<Term>, base: nat, offset: nat, end: nat, maxLength: nat, z: Lz4)
    requires terms != [] && Readable(dvd, terms, base, offset, end, maxLength, z)
    requires Chunk(terms, BLOCK_TERMS) != []
    requires var chunk, tail := Chunk(terms, BLOCK_TERMS), Tail(terms, BLOCK_TERMS);
             var size := |BlockBytes(chunk, z)|;
             && base + offset + size <= end
             && Gives(ReadBlock(dvd, base + offset, base + offset + size, maxLength, |chunk|, z), chunk)
             && Gives(ReadBlocks(dvd, Starts(tail, z, offset + size), base, end, maxLength, |tail|, z), tail)
    ensures Gives(ReadBlocks(dvd, Starts(terms, z, offset), base, end, maxLength, |terms|, z), terms)
  {
    hide BlockBytes, ReadBlock, Less, SuffixStream, Inverts, SuffixesFit, Chunk, Tail;
    var chunk, tail := Chunk(terms, BLOCK_TERMS), Tail(terms, BLOCK_TERMS);
    var size := |BlockBytes(chunk, z)|;
    ChunkTail(terms, BLOCK_TERMS);
    var starts, later := Starts(terms, z, offset), Starts(tail, z, offset + size);
    assert starts[1..] == later;
    assert Wrap(offset) == offset && Wrap(offset + size) == offset + size;
    if tail == [] {
      assert BlocksBytes(terms, z) == BlockBytes(chunk, z) + [];
    } else {
      assert later[0] == offset + size;
    }
  }

  // ----- the reverse index ------------------------------------------------------------------------

  const REVERSE_SHIFT: nat := 10
  const REVERSE_TERMS: nat := 1024

  // Bytes of b needed to sort it after a.
  function SortKeyLength(a: Term, b: Term): (n: nat)
    ensures n <= |b|
  {
    if CommonPrefix(a, b) + 1 <= |b| then CommonPrefix(a, b) + 1 else |b|
  }

  function KeyLength(terms: seq<Term>, ord: nat): (n: nat)
    requires ord < |terms|
    ensures n <= |terms[ord]|
  {
    if ord == 0 then 0 else SortKeyLength(terms[ord - 1], terms[ord])
  }

  function IndexKeys(terms: seq<Term>, ord: nat): seq<byte>
    decreases |terms| - ord
  {
    if ord >= |terms| then []
    else terms[ord][..KeyLength(terms, ord)] + IndexKeys(terms, ord + REVERSE_TERMS)
  }

  function IndexOffsets(terms: seq<Term>, ord: nat, offset: nat): (s: seq<i64>)
    ensures |s| == 1 + BlockCount(if ord >= |terms| then 0 else |terms| - ord, REVERSE_TERMS)
    decreases |terms| - ord
  {
    if ord >= |terms| then [Wrap(offset)]
    else [Wrap(offset)] + IndexOffsets(terms, ord + REVERSE_TERMS, offset + KeyLength(terms, ord))
  }

  function IndexData(terms: seq<Term>, p: Predictor): seq<byte> {
    IndexKeys(terms, 0) + DataBytes(IndexOffsets(terms, 0, 0), p, BlockSize())
  }

  function RegionBytes(start: nat, a: seq<byte>, b: seq<byte>): seq<byte> {
    LeI64(Wrap(start)) + (LeI64(Wrap(|a|)) + (LeI64(Wrap(start + |a|)) + LeI64(Wrap(|b|))))
  }

  function IndexMeta(terms: seq<Term>, p: Predictor, at: nat): seq<byte> {
    LeI32(REVERSE_SHIFT) +
    (MetaBytes(MetaBlocks(IndexOffsets(terms, 0, 0), p, BlockSize(), 0)) +
     RegionBytes(at, IndexKeys(terms, 0), DataBytes(IndexOffsets(terms, 0, 0), p, BlockSize())))
  }

  // Steps over the index of a dictionary of n terms.
  function SkipIndex(rest: seq<byte>, n: nat): Parsed<()> {
    var (shift, rest1) :- ReadI32(rest);
    var values := BlockCount(n, SizeOf(AsU32(shift))) + 1;
    var (_, rest2) :- TakeBytes(rest1, BlockCount(values, BlockSize()) * META_BYTES_PER_BLOCK);
    var (_, rest3) :- TakeBytes(rest2, 32);
    Ok(((), rest3))
  }

  lemma SkipExactly(a: seq<byte>, rest: seq<byte>, n: nat)
    requires |a| == n
    ensures Yields(TakeBytes(a + rest, n), a, rest)
  {
    assert (a + rest)[..n] == a && (a + rest)[n..] == rest;
  }

  lemma ReverseSize()
    ensures SizeOf(AsU32(REVERSE_SHIFT)) == REVERSE_TERMS
  {
    assert Pow2(5) == 32;
    assert Pow2(10) == 1024;
  }

  // The planner steps over exactly what the writer put there.
  lemma IndexSkipped(terms: seq<Term>, p: Predictor, at: nat, rest: seq<byte>)
    ensures Yields(SkipIndex(IndexMeta(terms, p, at) + rest, |terms|), (), rest)
  {
    hide LeI32, ReadI32, LeI64, MetaBytes, MetaBlocks, DataBytes, IndexKeys, IndexOffsets, BlockCount, Pow2, TakeBytes, BlockSize;
    ReverseSize();
    var offsets := IndexOffsets(terms, 0, 0);
    var meta := MetaBytes(MetaBlocks(offsets, p, BlockSize(), 0));
    var region := RegionBytes(at, IndexKeys(terms, 0), DataBytes(offsets, p, BlockSize()));
    Assoc(LeI32(REVERSE_SHIFT), meta + region, rest);
    I32RoundTrip(REVERSE_SHIFT, (meta + region) + rest);
    Assoc(meta, region, rest);
    SkipExactly(meta, region + rest, |meta|);
    SkipExactly(region, rest, 32);
  }

  // ----- the whole dictionary -----------------------------------------------------------------------

  datatype Regions = Regions(maxTermLength: i32, maxBlockLength: i32, termsOffset: i64, termsLen: i64,
                             addressesOffset: i64, addressesLen: i64)

  function RegionsBytes(r: Regions): seq<byte> {
    LeI32(r.maxTermLength) + (LeI32(r.maxBlockLength) +
    (LeI64(r.termsOffset) + (LeI64(r.termsLen) + (LeI64(r.addressesOffset) + LeI64(r.addressesLen)))))
  }

  function ReadRegions(rest: seq<byte>): Parsed<Regions> {
    var (maxTermLength, rest1) :- ReadI32(rest);
    var (maxBlockLength, rest2) :- ReadI32(rest1);
    var (termsOffset, rest3) :- ReadI64(rest2);
    var (termsLen, rest4) :- ReadI64(rest3);
    var (addressesOffset, rest5) :- ReadI64(rest4);
    var (addressesLen, rest6) :- ReadI64(rest5);
    if termsOffset < 0 || termsLen < 0 || addressesOffset < 0 || addressesLen < 0 || maxTermLength < 0 then Err(Corrupt)
    else Ok((Regions(maxTermLength, maxBlockLength, termsOffset, termsLen, addressesOffset, addressesLen), rest6))
  }

  lemma RegionsRoundTrip(r: Regions, rest: seq<byte>)
    requires r.termsOffset >= 0 && r.termsLen >= 0 && r.addressesOffset >= 0 && r.addressesLen >= 0 && r.maxTermLength >= 0
    ensures Yields(ReadRegions(RegionsBytes(r) + rest), r, rest)
  {
    hide LeI32, ReadI32, LeI64, ReadI64;
    var t1 := LeI64(r.addressesOffset) + LeI64(r.addressesLen);
    var t2 := LeI64(r.termsLen) + t1;
    var t3 := LeI64(r.termsOffset) + t2;
    var t4 := LeI32(r.maxBlockLength) + t3;
    Assoc(LeI32(r.maxTermLength), t4, rest);
    I32RoundTrip(r.maxTermLength, t4 + rest);
    Assoc(LeI32(r.maxBlockLength), t3, rest);
    I32RoundTrip(r.maxBlockLength, t3 + rest);
    Assoc(LeI64(r.termsOffset), t2, rest);
    I64RoundTrip(r.termsOffset, t2 + rest);
    Assoc(LeI64(r.termsLen), t1, rest);
    I64RoundTrip(r.termsLen, t1 + rest);
    Assoc(LeI64(r.addressesOffset), LeI64(r.addressesLen), rest);
    I64RoundTrip(r.addressesOffset, LeI64(r.addressesLen) + rest);
    I64RoundTrip(r.addressesLen, rest);
  }

  // The longest suffix stream of any block.
  function MaxSuffix(terms: seq<Term>): nat
    decreases |terms|
  {
    if terms == [] then 0
    else
      var m := MaxSuffix(Tail(terms, BLOCK_TERMS));
      var n := |SuffixStream(Chunk(terms, BLOCK_TERMS))|;
      if n > m then n else m
  }

  function AddressBytes(terms: seq<Term>, z: Lz4, p: Predictor): seq<byte> {
    DataBytes(Starts(terms, z, 0), p, BlockSize())
  }

  function AddressMetas(terms: seq<Term>, z: Lz4, p: Predictor): (m: seq<MetaBlock>)
    ensures |m| == BlockCount(BlockCount(|terms|, BLOCK_TERMS), BlockSize())
  {
    MetaBlocks(Starts(terms, z, 0), p, BlockSize(), 0)
  }

  function RegionsOf(terms: seq<Term>, z: Lz4, p: Predictor, at: nat): Regions {
    var blocks := |BlocksBytes(terms, z)|;
    Regions(AsI32(MaxLength(terms)), AsI32(MaxSuffix(terms)), Wrap(at), Wrap(blocks),
            Wrap(at + blocks), Wrap(|AddressBytes(terms, z, p)|))
  }

  function TermsMeta(terms: seq<Term>, z: Lz4, p: Predictor, at: nat): seq<byte> {
    VBytes(|terms|) +
    (LeI32(BLOCK_SHIFT) +
     (MetaBytes(AddressMetas(terms, z, p)) +
      (RegionsBytes(RegionsOf(terms, z, p, at)) +
       IndexMeta(terms, p, at + |BlocksBytes(terms, z)| + |AddressBytes(terms, z, p)|))))
  }

  function TermsData(terms: seq<Term>, z: Lz4, p: Predictor): seq<byte> {
    BlocksBytes(terms, z) + (AddressBytes(terms, z, p) + IndexData(terms, p))
  }

  function ReadTermsDict(rest: seq<byte>): Parsed<TermsPlan> {
    var (head, rest2) :- ReadHead(rest);
    var (meta, rest3) :- ReadMeta(rest2, BlockCount(BlockCount(head.0, BLOCK_TERMS), SizeOf(head.1)));
    var (r, rest4) :- ReadRegions(rest3);
    var (_, rest5) :- SkipIndex(rest4, head.0);
    Ok((TermsPlan(head.0, meta, head.1, r.maxTermLength, AsU32(r.maxBlockLength),
                  r.termsOffset, r.termsLen, r.addressesOffset, r.addressesLen), rest5))
  }

  function AsU32(x: i32): nat { if x < 0 then x + TWO_32 else x }

  function PlanOf(terms: seq<Term>, z: Lz4, p: Predictor, at: nat): TermsPlan {
    var blocks := |BlocksBytes(terms, z)|;
    TermsPlan(|terms|, AddressMetas(terms, z, p), BLOCK_SHIFT, MaxLength(terms), MaxSuffix(terms),
              at, blocks, at + blocks, |AddressBytes(terms, z, p)|)
  }

  lemma {:induction false} LengthsFit(terms: seq<Term>)
    requires SuffixesFit(terms)
    ensures MaxSuffix(terms) < TWO_31
    decreases |terms|
  {
    if terms != [] {
      hide SuffixStream;
      LengthsFit(Tail(terms, BLOCK_TERMS));
    }
  }

  lemma {:induction false} MaxLengthFits(terms: seq<Term>)
    requires forall i :: 0 <= i < |terms| ==> |terms[i]| < TWO_31
    ensures MaxLength(terms) < TWO_31
  {
    if terms != [] {
      MaxLengthFits(terms[..|terms| - 1]);
    }
  }

  lemma MetaRead(terms: seq<Term>, z: Lz4, p: Predictor, at: nat, rest: seq<byte>)
    requires Encodable(terms) && at + |TermsData(terms, z, p)| < TWO_63
    ensures Yields(ReadTermsDict(TermsMeta(terms, z, p, at) + rest), PlanOf(terms, z, p, at), rest)
  {
    hide *;
    var at' := at + |BlocksBytes(terms, z)| + |AddressBytes(terms, z, p)|;
    var r := RegionsOf(terms, z, p, at);
    var meta := AddressMetas(terms, z, p);
    RegionsExact(terms, z, p, at);
    TermsMetaIs(terms, z, p, at);
    HeadRead(terms, MetaBytes(meta) + (RegionsBytes(r) + IndexMeta(terms, p, at')), rest);
    Assoc(MetaBytes(meta), RegionsBytes(r) + IndexMeta(terms, p, at'), rest);
    AddressMetaRead(terms, z, p, (RegionsBytes(r) + IndexMeta(terms, p, at')) + rest);
    Assoc(RegionsBytes(r), IndexMeta(terms, p, at'), rest);
    RegionsRoundTrip(r, IndexMeta(terms, p, at') + rest);
    IndexSkipped(terms, p, at', rest);
    MetaReadParts(terms, z, p, at, TermsMeta(terms, z, p, at) + rest, meta, r,
                  (MetaBytes(meta) + (RegionsBytes(r) + IndexMeta(terms, p, at'))) + rest,
                  (RegionsBytes(r) + IndexMeta(terms, p, at')) + rest, IndexMeta(terms, p, at') + rest, rest);
  }

  function ReadHead(rest: seq<byte>): Parsed<(nat, nat)> {
    var (numTerms, rest1) :- ReadVNat64(rest);
    if numTerms >= TWO_63 then Err(Corrupt)
    else
      var (shift, rest2) :- ReadI32(rest1);
      Ok(((numTerms, AsU32(shift)), rest2))
  }

  lemma HeadRead(terms: seq<Term>, body: seq<byte>, rest: seq<byte>)
    requires |terms| < TWO_63
    ensures Yields(ReadHead(VBytes(|terms|) + (LeI32(BLOCK_SHIFT) + body) + rest), (|terms|, BLOCK_SHIFT), body + rest)
  {
    hide VBytes, LeI32, ReadI32, ReadV;
    Assoc(VBytes(|terms|), LeI32(BLOCK_SHIFT) + body, rest);
    VLongRoundTrip(|terms|, (LeI32(BLOCK_SHIFT) + body) + rest);
    Assoc(LeI32(BLOCK_SHIFT), body, rest);
    I32RoundTrip(BLOCK_SHIFT, body + rest);
  }

  lemma TermsMetaIs(terms: seq<Term>, z: Lz4, p: Predictor, at: nat)
    ensures TermsMeta(terms, z, p, at) ==
            VBytes(|terms|) +
            (LeI32(BLOCK_SHIFT) +
             (MetaBytes(AddressMetas(terms, z, p)) +
              (RegionsBytes(RegionsOf(terms, z, p, at)) +
               IndexMeta(terms, p, at + |BlocksBytes(terms, z)| + |AddressBytes(terms, z, p)|))))
  {
    hide VBytes, LeI32, MetaBytes, AddressMetas, RegionsBytes, RegionsOf, IndexMeta, BlocksBytes, AddressBytes;
  }

  ghost predicate Exact(r: Regions, terms: seq<Term>, z: Lz4, p: Predictor, at: nat) {
    match r
    case Regions(maxTerm, maxBlock, offset, len, addressesOffset, addressesLen) =>
      && maxTerm == MaxLength(terms) && AsU32(maxBlock) == MaxSuffix(terms)
      && offset == at && len == |BlocksBytes(terms, z)|
      && addressesOffset == at + |BlocksBytes(terms, z)| && addressesLen == |AddressBytes(terms, z, p)|
  }

  lemma RegionsExact(terms: seq<Term>, z: Lz4, p: Predictor, at: nat)
    requires Encodable(terms) && at + |TermsData(terms, z, p)| < TWO_63
    ensures |terms| < TWO_63 && |AddressBytes(terms, z, p)| < TWO_63
    ensures var r := RegionsOf(terms, z, p, at);
            && Exact(r, terms, z, p, at)
            && r.termsOffset >= 0 && r.termsLen >= 0 && r.addressesOffset >= 0 && r.addressesLen >= 0 && r.maxTermLength >= 0
  {
    hide BlocksBytes, AddressBytes, IndexData, MaxLength, MaxSuffix, SuffixesFit;
    LengthsFit(terms);
    MaxLengthFits(terms);
    assert at + |BlocksBytes(terms, z)| + |AddressBytes(terms, z, p)| < TWO_63;
  }

  // The parts, read one after the other, are the entry.
  lemma MetaReadParts(terms: seq<Term>, z: Lz4, p: Predictor, at: nat, input: seq<byte>, meta: seq<MetaBlock>, r: Regions,
                      t3: seq<byte>, t2: seq<byte>, t1: seq<byte>, rest: seq<byte>)
    requires meta == AddressMetas(terms, z, p) && Exact(r, terms, z, p, at)
    requires Yields(ReadHead(input), (|terms|, BLOCK_SHIFT), t3)
    requires Yields(ReadMeta(t3, BlockCount(BlockCount(|terms|, BLOCK_TERMS), SizeOf(BLOCK_SHIFT))), meta, t2)
    requires Yields(ReadRegions(t2), r, t1)
    requires Yields(SkipIndex(t1, |terms|), (), rest)
    ensures Yields(ReadTermsDict(input), PlanOf(terms, z, p, at), rest)
  {
    hide ReadHead, ReadMeta, ReadRegions, SkipIndex, RegionsOf, AddressMetas, AddressBytes, BlocksBytes,
         BlockCount, Pow2, MaxLength, MaxSuffix;
  }

  lemma AddressMetaRead(terms: seq<Term>, z: Lz4, p: Predictor, rest: seq<byte>)
    requires |AddressBytes(terms, z, p)| < TWO_63
    ensures Yields(ReadMeta(MetaBytes(AddressMetas(terms, z, p)) + rest,
                            BlockCount(BlockCount(|terms|, BLOCK_TERMS), SizeOf(BLOCK_SHIFT))), AddressMetas(terms, z, p), rest)
  {
    hide MetaBytes, ReadMeta, Starts, MetaBlocks, DataBytes, Pow2, BlockCount, OffsetsWithin;
    MetaOffsets(Starts(terms, z, 0), p, BlockSize(), 0);
    OffsetsWithinMore(AddressMetas(terms, z, p), |AddressBytes(terms, z, p)|, TWO_63 - 1);
    MetaRoundTrip(AddressMetas(terms, z, p), rest);
  }

  // Any strictly sorted terms, any inverting compressor, any predictor: the
  // entry parses back and materializes to the same list of terms.
  lemma TermsRoundTrip(terms: seq<Term>, z: Lz4, p: Predictor, at: nat, dvd: seq<byte>, rest: seq<byte>)
    requires Inverts(z) && StrictlySorted(terms) && Encodable(terms)
    requires PlacedAt(dvd, at, TermsData(terms, z, p))
    ensures Yields(ReadTermsDict(TermsMeta(terms, z, p, at) + rest), PlanOf(terms, z, p, at), rest)
    ensures Gives(Materialize(PlanOf(terms, z, p, at), dvd, z, p), terms)
  {
    hide *;
    TermsPlaced(terms, z, p, at, dvd);
    MetaRead(terms, z, p, at, rest);
    var blocks := |BlocksBytes(terms, z)|;
    BlocksRoundTrip(dvd, terms, at, 0, at + blocks, MaxLength(terms), z);
    StartsDecode(terms, z, p, at + blocks, dvd);
    Materializes(terms, z, p, at, dvd);
  }

  lemma TermsPlaced(terms: seq<Term>, z: Lz4, p: Predictor, at: nat, dvd: seq<byte>)
    requires Inverts(z) && StrictlySorted(terms) && Encodable(terms) && PlacedAt(dvd, at, TermsData(terms, z, p))
    ensures at + |TermsData(terms, z, p)| < TWO_63
    ensures var blocks := |BlocksBytes(terms, z)|;
            && Readable(dvd, terms, at, 0, at + blocks, MaxLength(terms), z)
            && PlacedAt(dvd, at + blocks, AddressBytes(terms, z, p))
  {
    MaxLengthCovers(terms);
    hide BlocksBytes, AddressBytes, IndexData, Less, SuffixesFit, MaxLength, Inverts;
    PlacedPart(dvd, at, BlocksBytes(terms, z), AddressBytes(terms, z, p) + IndexData(terms, p));
    PlacedPart(dvd, at + |BlocksBytes(terms, z)|, AddressBytes(terms, z, p), IndexData(terms, p));
  }

  lemma StartsDecode(terms: seq<Term>, z: Lz4, p: Predictor, at: nat, dvd: seq<byte>)
    requires PlacedAt(dvd, at, AddressBytes(terms, z, p))
    ensures at + |AddressBytes(terms, z, p)| <= |dvd|
    ensures Gives(Decode(AddressMetas(terms, z, p), From(dvd, at), p, BlockCount(|terms|, BLOCK_TERMS), SizeOf(BLOCK_SHIFT)),
                  Starts(terms, z, 0))
  {
    hide Decode, Starts, MetaBlocks, DataBytes, Pow2, BlockCount;
    var data := AddressBytes(terms, z, p);
    var after := dvd[at + |data|..];
    assert dvd[at..] == dvd[at..at + |data|] + after;
    MonotonicRoundTrip(Starts(terms, z, 0), p, BlockSize(), after);
  }

  lemma Materializes(terms: seq<Term>, z: Lz4, p: Predictor, at: nat, dvd: seq<byte>)
    requires var blocks := |BlocksBytes(terms, z)|;
             && at + blocks + |AddressBytes(terms, z, p)| <= |dvd|
             && Gives(Decode(AddressMetas(terms, z, p), From(dvd, at + blocks), p, BlockCount(|terms|, BLOCK_TERMS),
                             SizeOf(BLOCK_SHIFT)), Starts(terms, z, 0))
             && Gives(ReadBlocks(dvd, Starts(terms, z, 0), at, at + blocks, MaxLength(terms), |terms|, z), terms)
    ensures Gives(Materialize(PlanOf(terms, z, p, at), dvd, z, p), terms)
  {
    hide BlocksBytes, AddressBytes, AddressMetas, Decode, ReadBlocks, Starts, MaxLength, MaxSuffix, BlockCount, Pow2;
  }

  // ----- the flat dictionary -----------------------------------------------------------------------

  // The terms in one buffer with 32-bit offsets, as the reader hands them out.
  function Flat(r: Result<seq<Term>>): Result<Dictionary> {
    match r case Ok(terms) => Ok(Layout(I32, terms)) case Err(e) => Err(e)
  }

  ghost predicate Restores(r: Result<Dictionary>, terms: seq<Term>) {
    match r
    case Err(_) => false
    case Ok(d) => |d.offsets| == |terms| + 1 && forall i: nat :: i < |terms| ==> d.TermAt(i) == Some(terms[i])
  }

  // Whatever the terms, the entry parses back; and the dictionary made of it gives
  // back every term exactly when they have fewer than 2^31 bytes altogether.
  lemma DictionaryExact(terms: seq<Term>, z: Lz4, p: Predictor, at: nat, dvd: seq<byte>, rest: seq<byte>)
    requires Inverts(z) && StrictlySorted(terms) && Encodable(terms)
    requires PlacedAt(dvd, at, TermsData(terms, z, p))
    ensures Yields(ReadTermsDict(TermsMeta(terms, z, p, at) + rest), PlanOf(terms, z, p, at), rest)
    ensures Restores(Flat(Materialize(PlanOf(terms, z, p, at), dvd, z, p)), terms) <==> OffsetsFit(terms)
  {
    hide Inverts, StrictlySorted, Encodable, PlacedAt, TermsData, ReadTermsDict, TermsMeta, PlanOf, Materialize, Layout, OffsetsFit;
    TermsRoundTrip(terms, z, p, at, dvd, rest);
    LayoutExact(terms);
    LayoutLength(terms);
  }

  lemma LayoutLength(terms: seq<Term>)
    ensures |Layout(I32, terms).offsets| == |terms| + 1
  {
    PushedKeeps(I32, NO_TERMS, terms);
  }

  // Two terms of 1.1 GB each: sorted, each within the 32-bit lengths of the format.
  function TwoGigabytes(): seq<Term> { [seq<byte>(1_100_000_000, _ => 1), seq<byte>(1_100_000_000, _ => 2)] }

  lemma {:induction false} VBytesShort(n: nat)
    ensures |VBytes(n)| <= 1 + n / 64
  {
    if n >= 128 {
      VBytesShort(n / 128);
    }
  }

  lemma TwoGigabytesEncodable()
    ensures StrictlySorted(TwoGigabytes()) && Encodable(TwoGigabytes()) && Bytes(TwoGigabytes()) == 2_200_000_000
  {
    hide VBytes;
    var terms := TwoGigabytes();
    var a, b := terms[0], terms[1];
    assert terms[1..] == [b] && terms[2..] == [];
    assert Less(a, b);
    assert CommonPrefix(a, b) == 0;
    VBytesShort(1_100_000_000 - 16);
    assert Chunk(terms, BLOCK_TERMS) == terms && Tail(terms, BLOCK_TERMS) == [];
    assert SuffixStream(terms) == Token(a, b) + SuffixStream([b]);
    assert Bytes(terms) == |a| + Bytes(terms[1..]);
  }

  // They are written without an error, and one of them cannot be read back.
  lemma TwoGigabytesFail(z: Lz4, p: Predictor, at: nat, dvd: seq<byte>)
    requires Inverts(z) && PlacedAt(dvd, at, TermsData(TwoGigabytes(), z, p))
    ensures !Restores(Flat(Materialize(PlanOf(TwoGigabytes(), z, p, at), dvd, z, p)), TwoGigabytes())
  {
    hide Inverts, StrictlySorted, Encodable, PlacedAt, TermsData, PlanOf, Materialize, Restores, Flat, TwoGigabytes, Bytes;
    TwoGigabytesEncodable();
    DictionaryExact(TwoGigabytes(), z, p, at, dvd, []);
  }
}
