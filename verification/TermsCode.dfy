// The terms-dictionary writer and reader as they run: one pass over the terms
// filling a suffix buffer that is flushed at block boundaries, and one pass over
// the blocks growing a byte buffer and an offset list.
module TermsCode {
  import opened Bits
  import opened Wire
  import opened Lex
  import opened Monotonic
  import opened MonotonicCode
  import opened TermsDict

  // ----- blocks, appended ----------------------------------------------------------------

  predicate WholeBlocks(n: nat) {
    n == 0 || (n >= BLOCK_TERMS && WholeBlocks(n - BLOCK_TERMS))
  }

  lemma {:induction false} WholeIs(n: nat)
    ensures WholeBlocks(n) <==> n % BLOCK_TERMS == 0
  {
    if n >= BLOCK_TERMS {
      WholeIs(n - BLOCK_TERMS);
    }
  }

  lemma ChunkOfAppend(a: seq<Term>, b: seq<Term>)
    requires |a| >= BLOCK_TERMS
    ensures Chunk(a + b, BLOCK_TERMS) == Chunk(a, BLOCK_TERMS) != []
    ensures Tail(a + b, BLOCK_TERMS) == Tail(a, BLOCK_TERMS) + b
    ensures |Tail(a, BLOCK_TERMS)| == |a| - BLOCK_TERMS
  {
    assert (a + b)[..BLOCK_TERMS] == a[..BLOCK_TERMS];
    assert (a + b)[BLOCK_TERMS..] == a[BLOCK_TERMS..] + b;
  }

  lemma WholeStep(n: nat)
    requires WholeBlocks(n) && n > 0
    ensures n >= BLOCK_TERMS && WholeBlocks(n - BLOCK_TERMS)
  {
  }

  // Adding blocks to whole blocks adds their bytes, starts and longest suffix.
  lemma {:induction false} BytesAppend(a: seq<Term>, b: seq<Term>, z: Lz4)
    requires WholeBlocks(|a|)
    ensures BlocksBytes(a + b, z) == BlocksBytes(a, z) + BlocksBytes(b, z)
    decreases |a|
  {
    hide BlockBytes, SuffixStream, Chunk, Tail, WholeBlocks;
    if a == [] {
      assert a + b == b;
    } else {
      WholeStep(|a|);
      ChunkOfAppend(a, b);
      BytesAppend(Tail(a, BLOCK_TERMS), b, z);
      Assoc(BlockBytes(Chunk(a, BLOCK_TERMS), z), BlocksBytes(Tail(a, BLOCK_TERMS), z), BlocksBytes(b, z));
    }
  }

  lemma {:induction false} StartsAppend(a: seq<Term>, b: seq<Term>, z: Lz4, offset: nat)
    requires WholeBlocks(|a|)
    ensures Starts(a + b, z, offset) == Starts(a, z, offset) + Starts(b, z, offset + |BlocksBytes(a, z)|)
    decreases |a|
  {
    hide *;
    if a == [] {
      NoStarts(z, offset, b);
      assert a + b == b;
    } else {
      WholeStep(|a|);
      ChunkOfAppend(a, b);
      StartsUnfold(a, z, offset);
      StartsUnfold(a + b, z, offset);
      var offset' := offset + |BlockBytes(Chunk(a, BLOCK_TERMS), z)|;
      StartsAppend(Tail(a, BLOCK_TERMS), b, z, offset');
      Assoc([Wrap(offset)], Starts(Tail(a, BLOCK_TERMS), z, offset'), Starts(b, z, offset + |BlocksBytes(a, z)|));
    }
  }

  lemma NoStarts(z: Lz4, offset: nat, b: seq<Term>)
    ensures Starts([], z, offset) == [] && BlocksBytes([], z) == []
    ensures [] + Starts(b, z, offset) == Starts(b, z, offset)
  {
  }

  lemma StartsUnfold(terms: seq<Term>, z: Lz4, offset: nat)
    requires terms != []
    ensures Chunk(terms, BLOCK_TERMS) != []
    ensures Starts(terms, z, offset) ==
            [Wrap(offset)] + Starts(Tail(terms, BLOCK_TERMS), z, offset + |BlockBytes(Chunk(terms, BLOCK_TERMS), z)|)
    ensures |BlocksBytes(terms, z)| == |BlockBytes(Chunk(terms, BLOCK_TERMS), z)| + |BlocksBytes(Tail(terms, BLOCK_TERMS), z)|
  {
    hide BlockBytes;
  }

  lemma {:induction false} MaxSuffixAppend(a: seq<Term>, b: seq<Term>)
    requires WholeBlocks(|a|)
    ensures MaxSuffix(a + b) == Larger(MaxSuffix(a), MaxSuffix(b))
    decreases |a|
  {
    if a == [] {
      assert a + b == b;
    } else {
      ChunkOfAppend(a, b);
      MaxSuffixAppend(Tail(a, BLOCK_TERMS), b);
    }
  }

  lemma BlocksAppend(a: seq<Term>, b: seq<Term>, z: Lz4)
    requires WholeBlocks(|a|)
    ensures BlocksBytes(a + b, z) == BlocksBytes(a, z) + BlocksBytes(b, z)
    ensures Starts(a + b, z, 0) == Starts(a, z, 0) + Starts(b, z, |BlocksBytes(a, z)|)
    ensures MaxSuffix(a + b) == Larger(MaxSuffix(a), MaxSuffix(b))
  {
    hide *;
    BytesAppend(a, b, z);
    StartsAppend(a, b, z, 0);
    MaxSuffixAppend(a, b);
  }

  function Larger(a: nat, b: nat): nat { if b > a then b else a }

  lemma {:induction false} SuffixStreamSnoc(terms: seq<Term>, term: Term)
    requires terms != []
    ensures SuffixStream(terms + [term]) == SuffixStream(terms) + Token(terms[|terms| - 1], term)
  {
    hide Token;
    var all := terms + [term];
    if |terms| == 1 {
      assert all[1..] == [term];
    } else {
      assert all[1..] == terms[1..] + [term];
      SuffixStreamSnoc(terms[1..], term);
    }
  }

  // ----- writing ---------------------------------------------------------------------------

  // The block still open after the terms before `ord`: it starts at `b`.
  datatype Open = Open(data: seq<byte>, suffixes: seq<byte>, dict: Term, starts: seq<i64>, maxLength: nat, maxSuffix: nat)

  ghost predicate Opened(o: Open, terms: seq<Term>, b: nat, ord: nat, z: Lz4, was: seq<byte>)
    requires b < ord <= |terms|
  {
    match o
    case Open(data, suffixes, dict, starts, maxLength, maxSuffix) =>
      && WholeBlocks(b) && ord - b <= BLOCK_TERMS
      && data == was + (BlocksBytes(terms[..b], z) + (VBytes(|terms[b]|) + terms[b]))
      && suffixes == SuffixStream(terms[b..ord]) && dict == terms[b]
      && starts == Starts(terms[..b], z, 0) + [Wrap(|BlocksBytes(terms[..b], z)|)]
      && maxLength == MaxLength(terms[..ord]) && maxSuffix == MaxSuffix(terms[..b])
  }

  // All blocks written.
  ghost predicate Closed(o: Open, terms: seq<Term>, ord: nat, z: Lz4, was: seq<byte>)
    requires ord <= |terms|
  {
    match o
    case Open(data, _, _, starts, maxLength, maxSuffix) =>
      && data == was + BlocksBytes(terms[..ord], z)
      && starts == Starts(terms[..ord], z, 0)
      && maxLength == MaxLength(terms[..ord]) && maxSuffix == MaxSuffix(terms[..ord])
  }

  lemma MaxLengthSnoc(terms: seq<Term>, ord: nat)
    requires ord < |terms|
    ensures MaxLength(terms[..ord + 1]) == Larger(MaxLength(terms[..ord]), |terms[ord]|)
  {
    assert terms[..ord + 1][..ord] == terms[..ord];
  }

  // The first term of a block, raw.
  method StartBlock(o: Open, terms: seq<Term>, ord: nat, ghost z: Lz4, ghost was: seq<byte>, start: nat) returns (o': Open)
    requires ord < |terms| && WholeBlocks(ord) && Closed(o, terms, ord, z, was) && start == |was|
    ensures Opened(o', terms, ord, ord + 1, z, was)
  {
    hide BlocksBytes, Starts, MaxSuffix, MaxLength, VBytes, SuffixStream;
    var data := WriteVInt(o.data, |terms[ord]|);
    data := data + terms[ord];
    MaxLengthSnoc(terms, ord);
    o' := Open(data, [], terms[ord], o.starts + [Wrap(|o.data| - start)], Larger(o.maxLength, |terms[ord]|), o.maxSuffix);
    assert o.data + VBytes(|terms[ord]|) + terms[ord] == was + (BlocksBytes(terms[..ord], z) + (VBytes(|terms[ord]|) + terms[ord]));
    NoSuffixes(terms[ord..ord + 1]);
  }

  lemma NoSuffixes(terms: seq<Term>)
    requires |terms| == 1
    ensures SuffixStream(terms) == []
  {
  }

  // The token of one more term of the block; a prefix of its predecessor is refused.
  method AddTerm(o: Open, terms: seq<Term>, ghost b: nat, ord: nat, ghost z: Lz4, ghost was: seq<byte>) returns (r: Result<Open>)
    requires b < ord < |terms| && Opened(o, terms, b, ord, z, was) && ord + 1 - b <= BLOCK_TERMS
    ensures r.Ok? <==> CommonPrefix(terms[ord - 1], terms[ord]) < |terms[ord]|
    ensures r.Ok? ==> Opened(r.value, terms, b, ord + 1, z, was)
    ensures r.Err? ==> r.error == Invalid
  {
    hide BlocksBytes, Starts, MaxSuffix, MaxLength, VBytes, SuffixStream, TokenByte;
    var previous, term := terms[ord - 1], terms[ord];
    var prefix := CommonPrefix(previous, term);
    var suffix := |term| - prefix;
    if suffix == 0 {
      return Err(Invalid);
    }
    var buffer := o.suffixes + [TokenByte(prefix, suffix)];
    if prefix >= 15 {
      buffer := WriteVInt(buffer, prefix - 15);
    }
    if suffix >= 16 {
      buffer := WriteVInt(buffer, suffix - 16);
    }
    buffer := buffer + term[prefix..];
    TokenAppended(o.suffixes, previous, term, buffer);
    assert terms[b..ord + 1] == terms[b..ord] + [term];
    SuffixStreamSnoc(terms[b..ord], term);
    MaxLengthSnoc(terms, ord);
    return Ok(o.(suffixes := buffer, maxLength := Larger(o.maxLength, |term|)));
  }

  lemma TokenAppended(s: seq<byte>, prev: Term, term: Term, buffer: seq<byte>)
    requires var prefix := CommonPrefix(prev, term);
             var suffix := |term| - prefix;
             buffer == ((s + [TokenByte(prefix, suffix)] + (if prefix >= 15 then VBytes(prefix - 15) else []))
                        + (if suffix >= 16 then VBytes(suffix - 16) else [])) + term[prefix..]
    ensures buffer == s + Token(prev, term)
  {
    hide VBytes, TokenByte;
  }

  // Compresses the suffix buffer and closes the block.
  method Flush(o: Open, terms: seq<Term>, ghost b: nat, ord: nat, z: Lz4, ghost was: seq<byte>) returns (o': Open)
    requires b < ord <= |terms| && Opened(o, terms, b, ord, z, was) && ord - b > 1
    requires ord - b == BLOCK_TERMS || ord == |terms|
    ensures Closed(o', terms, ord, z, was)
  {
    hide VBytes, BlocksBytes, Starts, MaxSuffix, MaxLength;
    var data := WriteVInt(o.data, |o.suffixes|);
    data := data + z.compress(o.dict, o.suffixes);
    o' := o.(data := data, maxSuffix := Larger(o.maxSuffix, |o.suffixes|), suffixes := []);
    BlockClosed(o, o', terms, b, ord, z, was);
  }

  lemma BlockClosed(o: Open, o': Open, terms: seq<Term>, b: nat, ord: nat, z: Lz4, was: seq<byte>)
    requires b < ord <= |terms| && Opened(o, terms, b, ord, z, was)
    requires ord - b > 1 && o'.data == o.data + VBytes(|o.suffixes|) + z.compress(o.dict, o.suffixes)
    requires o'.starts == o.starts && o'.maxLength == o.maxLength && o'.maxSuffix == Larger(o.maxSuffix, |o.suffixes|)
    ensures Closed(o', terms, ord, z, was)
  {
    hide VBytes, BlocksBytes, Starts, MaxSuffix, MaxLength, SuffixStream;
    var block := terms[b..ord];
    assert terms[..ord] == terms[..b] + block;
    BlocksAppend(terms[..b], block, z);
    SingleBlock(block, z, |BlocksBytes(terms[..b], z)|);
    var head, suffix := VBytes(|block[0]|) + block[0], VBytes(|o.suffixes|) + z.compress(o.dict, o.suffixes);
    Assoc(VBytes(|block[0]|), block[0], suffix);
    assert o'.data == o.data + suffix;
    Assoc(was, BlocksBytes(terms[..b], z) + head, suffix);
    Assoc(BlocksBytes(terms[..b], z), head, suffix);
  }

  lemma SingleBlock(block: seq<Term>, z: Lz4, offset: nat)
    requires 0 < |block| <= BLOCK_TERMS
    ensures BlocksBytes(block, z) == BlockBytes(block, z)
    ensures Starts(block, z, offset) == [Wrap(offset)]
    ensures MaxSuffix(block) == |SuffixStream(block)|
  {
    hide BlockBytes, SuffixStream;
    assert Chunk(block, BLOCK_TERMS) == block && Tail(block, BLOCK_TERMS) == [];
    assert BlocksBytes([], z) == [] && BlockBytes(block, z) + [] == BlockBytes(block, z);
  }

  // A last block of one term has nothing to flush.
  lemma LoneTerm(o: Open, terms: seq<Term>, b: nat, z: Lz4, was: seq<byte>)
    requires b + 1 == |terms| && Opened(o, terms, b, |terms|, z, was)
    ensures Closed(o, terms, |terms|, z, was) && o.suffixes == []
  {
    hide VBytes, BlocksBytes, Starts, MaxSuffix, MaxLength;
    var block := terms[b..];
    assert terms[..|terms|] == terms[..b] + block && terms[b..|terms|] == block;
    BlocksAppend(terms[..b], block, z);
    SingleBlock(block, z, |BlocksBytes(terms[..b], z)|);
    assert block[0] + [] == block[0];
  }

  lemma SuffixesNonEmpty(terms: seq<Term>)
    requires |terms| > 1
    ensures SuffixStream(terms) != []
  {
  }

  // Within its block no term is a prefix of its predecessor.
  ghost predicate Codable(terms: seq<Term>, n: nat) {
    forall i :: 1 <= i < n && i < |terms| && i % BLOCK_TERMS != 0 ==> CommonPrefix(terms[i - 1], terms[i]) < |terms[i]|
  }

  lemma SortedIsCodable(terms: seq<Term>)
    requires StrictlySorted(terms)
    ensures Codable(terms, |terms|)
  {
    forall i | 1 <= i < |terms| ensures CommonPrefix(terms[i - 1], terms[i]) < |terms[i]| {
      PrefixShorter(terms[i - 1], terms[i]);
    }
  }

  // Where the pass is before the term `ord`.
  ghost predicate Underway(o: Open, terms: seq<Term>, b: nat, ord: nat, z: Lz4, was: seq<byte>)
    requires ord <= |terms|
  {
    match o
    case Open(_, suffixes, _, _, _, _) =>
      if ord == 0 then suffixes == [] && Closed(o, terms, 0, z, was)
      else b < ord <= b + BLOCK_TERMS && b % BLOCK_TERMS == 0 && Opened(o, terms, b, ord, z, was)
  }

  lemma NothingWritten(o: Open, terms: seq<Term>, z: Lz4, was: seq<byte>)
    requires o == Open(was, [], [], [], 0, 0)
    ensures Underway(o, terms, 0, 0, z, was) && Codable(terms, 1)
  {
    assert terms[..0] == [] && was + [] == was;
  }

  lemma AtBoundary(o: Open, terms: seq<Term>, b: nat, ord: nat, z: Lz4, was: seq<byte>)
    requires ord < |terms| && Underway(o, terms, b, ord, z, was)
    ensures ord % BLOCK_TERMS == 0 ==> WholeBlocks(ord)
    ensures ord % BLOCK_TERMS == 0 && ord != 0 ==> ord - b == BLOCK_TERMS && Opened(o, terms, b, ord, z, was)
    ensures ord == 0 ==> Closed(o, terms, 0, z, was)
    ensures ord % BLOCK_TERMS != 0 ==> 0 < ord - b < BLOCK_TERMS && Opened(o, terms, b, ord, z, was)
  {
    hide Closed, Opened;
    WholeIs(ord);
  }

  lemma CodableNext(terms: seq<Term>, ord: nat)
    requires ord < |terms| && Codable(terms, if ord == 0 then 1 else ord)
    ensures Codable(terms, ord + 1) <==>
            ord % BLOCK_TERMS == 0 || CommonPrefix(terms[ord - 1], terms[ord]) < |terms[ord]|
    ensures !Codable(terms, ord + 1) ==> !Codable(terms, |terms|)
  {
    hide CommonPrefix;
  }

  // One step of the pass.
  method WriteTerm(o: Open, terms: seq<Term>, ghost b: nat, ord: nat, z: Lz4, ghost was: seq<byte>, start: nat)
    returns (r: Result<Open>, ghost b': nat)
    requires ord < |terms| && start == |was| && Underway(o, terms, b, ord, z, was)
    ensures r.Ok? <==> ord % BLOCK_TERMS == 0 || CommonPrefix(terms[ord - 1], terms[ord]) < |terms[ord]|
    ensures r.Ok? ==> Underway(r.value, terms, b', ord + 1, z, was)
    ensures r.Err? ==> r.error == Invalid
  {
    hide Closed, Opened, CommonPrefix, WholeBlocks;
    AtBoundary(o, terms, b, ord, z, was);
    b' := b;
    if ord % BLOCK_TERMS == 0 {
      var closed := o;
      if ord != 0 {
        closed := Flush(o, terms, b, ord, z, was);
      }
      var started := StartBlock(closed, terms, ord, z, was, start);
      return Ok(started), ord;
    } else {
      r := AddTerm(o, terms, b, ord, z, was);
    }
  }

  // The single pass over the terms.
  method WriteBlocks(terms: seq<Term>, z: Lz4, data: seq<byte>) returns (r: Result<Open>)
    ensures r.Ok? <==> Codable(terms, |terms|)
    ensures r.Ok? ==> Closed(r.value, terms, |terms|, z, data)
    ensures r.Err? ==> r.error == Invalid
  {
    hide Closed, Underway, Codable, CommonPrefix;
    var o := Open(data, [], [], [], 0, 0);
    ghost var b := 0;
    NothingWritten(o, terms, z, data);
    for ord := 0 to |terms|
      invariant Codable(terms, if ord == 0 then 1 else ord)
      invariant Underway(o, terms, b, ord, z, data)
    {
      CodableNext(terms, ord);
      var next;
      next, b := WriteTerm(o, terms, b, ord, z, data, |data|);
      if next.Err? {
        return Err(Invalid);
      }
      o := next.value;
    }
    CodableAll(terms);
    AtEnd(o, terms, b, z, data);
    if o.suffixes != [] {
      o := Flush(o, terms, b, |terms|, z, data);
    }
    return Ok(o);
  }

  lemma CodableAll(terms: seq<Term>)
    requires Codable(terms, if terms == [] then 1 else |terms|)
    ensures Codable(terms, |terms|)
  {
    hide CommonPrefix;
  }

  lemma AtEnd(o: Open, terms: seq<Term>, b: nat, z: Lz4, was: seq<byte>)
    requires Underway(o, terms, b, |terms|, z, was)
    ensures if o.suffixes == [] then Closed(o, terms, |terms|, z, was)
            else b + 1 < |terms| && Opened(o, terms, b, |terms|, z, was)
  {
    hide VBytes, BlocksBytes, Starts, MaxSuffix, MaxLength;
    if terms != [] {
      if b + 1 == |terms| {
        LoneTerm(o, terms, b, z, was);
      } else {
        SuffixesNonEmpty(terms[b..|terms|]);
      }
    }
  }

  // ----- the sequences written are non-decreasing ---------------------------------------------

  // Non-decreasing, and from `low` up to `high`.
  ghost predicate Climbs(s: seq<i64>, low: nat, high: nat) {
    NonDecreasing(s) && (s != [] ==> low <= s[0] && s[|s| - 1] <= high)
  }

  lemma ClimbsCons(x: nat, s: seq<i64>, low: nat, high: nat)
    requires x <= low && x <= high < TWO_63 && Climbs(s, low, high)
    ensures Climbs([Wrap(x)] + s, x, high)
  {
    assert Wrap(x) == x;
    var all := [Wrap(x)] + s;
    assert forall i :: 1 <= i < |all| ==> all[i] == s[i - 1];
  }

  lemma {:induction false} StartsClimb(terms: seq<Term>, z: Lz4, offset: nat)
    requires offset + |BlocksBytes(terms, z)| < TWO_63
    ensures Climbs(Starts(terms, z, offset), offset, offset + |BlocksBytes(terms, z)|)
    decreases |terms|
  {
    hide BlocksBytes, Starts, BlockBytes, Chunk, Tail;
    if terms == [] {
      NoStarts(z, offset, []);
    } else {
      StartsUnfold(terms, z, offset);
      BlockIsNonEmpty(terms);
      var offset' := offset + |BlockBytes(Chunk(terms, BLOCK_TERMS), z)|;
      StartsClimb(Tail(terms, BLOCK_TERMS), z, offset');
      ClimbsCons(offset, Starts(Tail(terms, BLOCK_TERMS), z, offset'), offset', offset + |BlocksBytes(terms, z)|);
    }
  }

  lemma {:induction false} OffsetsClimb(terms: seq<Term>, ord: nat, offset: nat)
    requires offset + |IndexKeys(terms, ord)| < TWO_63
    ensures Climbs(IndexOffsets(terms, ord, offset), offset, offset + |IndexKeys(terms, ord)|)
    decreases |terms| - ord
  {
    if ord >= |terms| {
      assert Wrap(offset) == offset;
    } else {
      hide KeyLength, NonDecreasing;
      var offset' := offset + KeyLength(terms, ord);
      OffsetsClimb(terms, ord + REVERSE_TERMS, offset');
      ClimbsCons(offset, IndexOffsets(terms, ord + REVERSE_TERMS, offset'), offset', offset + |IndexKeys(terms, ord)|);
    }
  }

  // ----- the reverse index ------------------------------------------------------------------------

  // The next ord the index has a key for.
  function NextKey(ord: nat): nat { (ord + 1023) / REVERSE_TERMS * REVERSE_TERMS }

  datatype IndexPass = IndexPass(data: seq<byte>, offsets: seq<i64>, offset: nat, previous: Option<Term>)

  ghost predicate Indexing(s: IndexPass, terms: seq<Term>, ord: nat, was: seq<byte>)
    requires ord <= |terms|
  {
    match s
    case IndexPass(data, offsets, offset, previous) =>
      && data + IndexKeys(terms, NextKey(ord)) == was + IndexKeys(terms, 0)
      && offsets + IndexOffsets(terms, NextKey(ord), offset) == IndexOffsets(terms, 0, 0)
      && (ord >= REVERSE_TERMS ==> previous == Some(terms[ord / REVERSE_TERMS * REVERSE_TERMS - 1]))
  }

  method IndexTerm(s: IndexPass, terms: seq<Term>, ord: nat, ghost was: seq<byte>) returns (s': IndexPass)
    requires ord < |terms| && Indexing(s, terms, ord, was)
    ensures Indexing(s', terms, ord + 1, was)
  {
    hide Indexing, KeyLength, CommonPrefix, SortKeyLength, Wrap;
    s' := s;
    NextKeyIs(ord);
    if ord % REVERSE_TERMS == 0 {
      KeyKnown(s, terms, ord, was);
      var keyLength := if ord == 0 then 0 else SortKeyLength(s.previous.value, terms[ord]);
      s' := IndexPass(s.data + terms[ord][..keyLength], s.offsets + [Wrap(s.offset)], s.offset + keyLength, s.previous);
      KeyStep(s, s', terms, ord, was);
    }
    if ord % REVERSE_TERMS == REVERSE_TERMS - 1 {
      s' := s'.(previous := Some(terms[ord]));
    }
    KeyTaken(s, s', terms, ord, was);
  }

  lemma NextKeyIs(ord: nat)
    ensures ord % REVERSE_TERMS == 0 ==> NextKey(ord) == ord && NextKey(ord + 1) == ord + REVERSE_TERMS
    ensures ord % REVERSE_TERMS != 0 ==> NextKey(ord + 1) == NextKey(ord)
    ensures ord % REVERSE_TERMS != REVERSE_TERMS - 1 ==> (ord + 1) / REVERSE_TERMS == ord / REVERSE_TERMS
    ensures ord % REVERSE_TERMS == REVERSE_TERMS - 1 ==> (ord + 1) / REVERSE_TERMS * REVERSE_TERMS - 1 == ord
  {
  }

  lemma KeyKnown(s: IndexPass, terms: seq<Term>, ord: nat, was: seq<byte>)
    requires ord < |terms| && ord % REVERSE_TERMS == 0 && Indexing(s, terms, ord, was)
    ensures ord == 0 || s.previous.Some?
    ensures KeyLength(terms, ord) == if ord == 0 then 0 else SortKeyLength(s.previous.value, terms[ord])
  {
    hide SortKeyLength, CommonPrefix, NextKey, IndexKeys, IndexOffsets;
  }

  lemma KeyTaken(s: IndexPass, s': IndexPass, terms: seq<Term>, ord: nat, was: seq<byte>)
    requires ord < |terms| && Indexing(s, terms, ord, was)
    requires s'.previous == if ord % REVERSE_TERMS == REVERSE_TERMS - 1 then Some(terms[ord]) else s.previous
    requires if ord % REVERSE_TERMS == 0 then
               s'.data + IndexKeys(terms, ord + REVERSE_TERMS) == was + IndexKeys(terms, 0) &&
               s'.offsets + IndexOffsets(terms, ord + REVERSE_TERMS, s'.offset) == IndexOffsets(terms, 0, 0)
             else s'.data == s.data && s'.offsets == s.offsets && s'.offset == s.offset
    ensures Indexing(s', terms, ord + 1, was)
  {
    hide NextKey, IndexKeys, IndexOffsets;
    NextKeyIs(ord);
  }

  lemma KeyStep(s: IndexPass, s': IndexPass, terms: seq<Term>, ord: nat, was: seq<byte>)
    requires ord < |terms| && ord % REVERSE_TERMS == 0 && Indexing(s, terms, ord, was)
    requires var k := KeyLength(terms, ord);
             s'.data == s.data + terms[ord][..k] && s'.offsets == s.offsets + [Wrap(s.offset)] && s'.offset == s.offset + k
    requires s'.previous == s.previous
    ensures s'.data + IndexKeys(terms, ord + REVERSE_TERMS) == was + IndexKeys(terms, 0)
    ensures s'.offsets + IndexOffsets(terms, ord + REVERSE_TERMS, s'.offset) == IndexOffsets(terms, 0, 0)
  {
    hide KeyLength, NextKey, Wrap;
    NextKeyIs(ord);
    Assoc(s.data, terms[ord][..KeyLength(terms, ord)], IndexKeys(terms, ord + REVERSE_TERMS));
    Assoc(s.offsets, [Wrap(s.offset)], IndexOffsets(terms, ord + REVERSE_TERMS, s'.offset));
  }

  method IndexTerms(terms: seq<Term>, data: seq<byte>) returns (s: IndexPass)
    ensures s.data == data + IndexKeys(terms, 0)
    ensures s.offsets == IndexOffsets(terms, 0, 0)
  {
    hide Indexing, IndexKeys, IndexOffsets;
    s := IndexPass(data, [], 0, None);
    IndexStart(terms, data);
    for ord := 0 to |terms|
      invariant Indexing(s, terms, ord, data)
    {
      s := IndexTerm(s, terms, ord, data);
    }
    IndexEnd(s, terms, data);
    s := s.(offsets := s.offsets + [Wrap(s.offset)]);
  }

  lemma IndexStart(terms: seq<Term>, data: seq<byte>)
    ensures Indexing(IndexPass(data, [], 0, None), terms, 0, data)
  {
    assert [] + IndexOffsets(terms, 0, 0) == IndexOffsets(terms, 0, 0);
  }

  lemma IndexEnd(s: IndexPass, terms: seq<Term>, data: seq<byte>)
    requires Indexing(s, terms, |terms|, data)
    ensures s.data == data + IndexKeys(terms, 0)
    ensures s.offsets + [Wrap(s.offset)] == IndexOffsets(terms, 0, 0)
  {
    assert IndexKeys(terms, NextKey(|terms|)) == [] && s.data + [] == s.data;
  }

  method WriteTermsIndex(terms: seq<Term>, p: Predictor, dvdBase: nat, meta: seq<byte>, data: seq<byte>)
    returns (meta': seq<byte>, data': seq<byte>)
    requires dvdBase + |data| + |IndexData(terms, p)| < TWO_63
    ensures meta' == meta + IndexMeta(terms, p, dvdBase + |data|)
    ensures data' == data + IndexData(terms, p)
  {
    hide LeI32, LeI64, MetaBytes, MetaBlocks, DataBytes, IndexKeys, IndexOffsets, BlockSize, NonDecreasing;
    var start := dvdBase + |data|;
    var s := IndexTerms(terms, data);
    OffsetsClimb(terms, 0, 0);
    var written := Write(s.offsets, p, BlockSize(), meta + LeI32(REVERSE_SHIFT), []);
    ghost var m := MetaBytes(MetaBlocks(s.offsets, p, BlockSize(), 0));
    var buffer := written.value.1;
    var keys := |s.data| - |data|;
    assert buffer == DataBytes(s.offsets, p, BlockSize());
    var region := LeI64(Wrap(start)) + (LeI64(Wrap(keys)) + (LeI64(Wrap(start + keys)) + LeI64(Wrap(|buffer|))));
    meta' := written.value.0 + region;
    Assoc(meta, LeI32(REVERSE_SHIFT), m);
    Assoc(meta, LeI32(REVERSE_SHIFT) + m, region);
    Assoc(LeI32(REVERSE_SHIFT), m, region);
    data' := s.data + buffer;
    Assoc(data, IndexKeys(terms, 0), buffer);
  }

  method AddTermsDict(terms: seq<Term>, z: Lz4, p: Predictor, dvdBase: nat, meta: seq<byte>, data: seq<byte>)
    returns (r: Result<(seq<byte>, seq<byte>)>)
    requires Encodable(terms) && dvdBase + |data| + |TermsData(terms, z, p)| < TWO_63
    ensures r.Ok? <==> Codable(terms, |terms|)
    ensures r.Ok? ==> r.value.0 == meta + TermsMeta(terms, z, p, dvdBase + |data|)
    ensures r.Ok? ==> r.value.1 == data + TermsData(terms, z, p)
    ensures r.Err? ==> r.error == Invalid
  {
    hide BlocksBytes, AddressBytes, IndexData, TermsData, TermsMeta, Starts, MaxLength, MaxSuffix, MetaBytes, MetaBlocks,
         DataBytes, RegionsBytes, RegionsOf, IndexMeta, VBytes, LeI32, Closed, Codable, Encodable, BlockSize, NonDecreasing,
         AsI32, Wrap;
    var start := dvdBase + |data|;
    var written := WriteBlocks(terms, z, data);
    if written.Err? {
      return Err(written.error);
    }
    var o := written.value;
    SizesFit(o, terms, z, p, start, data);
    var meta' := WriteVInt(meta, |terms|); // a vlong has the same bytes
    meta' := meta' + LeI32(BLOCK_SHIFT);
    var addresses := Write(o.starts, p, BlockSize(), meta', []);
    var buffer := addresses.value.1;
    BufferIs(terms, z, p, buffer);
    RegionsIs(terms, z, p, start);
    var blocks := |o.data| - |data|;
    var regions := Regions(AsI32(o.maxLength), AsI32(o.maxSuffix), Wrap(start), Wrap(blocks), Wrap(start + blocks), Wrap(|buffer|));
    meta' := addresses.value.0 + RegionsBytes(regions);
    var data' := o.data + buffer;
    meta', data' := WriteTermsIndex(terms, p, dvdBase, meta', data');
    Assembled(terms, z, p, start, meta, data);
    return Ok((meta', data'));
  }

  lemma RegionsIs(terms: seq<Term>, z: Lz4, p: Predictor, at: nat)
    ensures var blocks := |BlocksBytes(terms, z)|;
            RegionsOf(terms, z, p, at) ==
            Regions(AsI32(MaxLength(terms)), AsI32(MaxSuffix(terms)), Wrap(at), Wrap(blocks), Wrap(at + blocks),
                    Wrap(|AddressBytes(terms, z, p)|))
  {
    hide BlocksBytes, AddressBytes, MaxLength, MaxSuffix;
  }

  lemma BufferIs(terms: seq<Term>, z: Lz4, p: Predictor, buffer: seq<byte>)
    requires buffer == [] + DataBytes(Starts(terms, z, 0), p, BlockSize())
    ensures buffer == AddressBytes(terms, z, p)
  {
    hide DataBytes, Starts;
  }

  lemma SizesFit(o: Open, terms: seq<Term>, z: Lz4, p: Predictor, start: nat, data: seq<byte>)
    requires Closed(o, terms, |terms|, z, data) && start + |TermsData(terms, z, p)| < TWO_63
    ensures o.data == data + BlocksBytes(terms, z) && o.starts == Starts(terms, z, 0)
    ensures o.maxLength == MaxLength(terms) && o.maxSuffix == MaxSuffix(terms)
    ensures NonDecreasing(Starts(terms, z, 0)) && BlockSize() > 0
    ensures start + |BlocksBytes(terms, z)| + |AddressBytes(terms, z, p)| + |IndexData(terms, p)| < TWO_63
  {
    hide BlocksBytes, AddressBytes, IndexData, Starts, MaxLength, MaxSuffix;
    assert terms[..|terms|] == terms;
    StartsClimb(terms, z, 0);
  }

  lemma Assembled(terms: seq<Term>, z: Lz4, p: Predictor, at: nat, meta: seq<byte>, data: seq<byte>)
    ensures var at' := at + |BlocksBytes(terms, z)| + |AddressBytes(terms, z, p)|;
            meta + VBytes(|terms|) + LeI32(BLOCK_SHIFT) + MetaBytes(MetaBlocks(Starts(terms, z, 0), p, BlockSize(), 0))
            + RegionsBytes(RegionsOf(terms, z, p, at)) + IndexMeta(terms, p, at')
            == meta + TermsMeta(terms, z, p, at)
    ensures data + BlocksBytes(terms, z) + AddressBytes(terms, z, p) + IndexData(terms, p) == data + TermsData(terms, z, p)
  {
    hide VBytes, LeI32, MetaBytes, MetaBlocks, Starts, RegionsBytes, RegionsOf, IndexMeta, BlocksBytes, AddressBytes, IndexData;
  }

  // ----- materializing --------------------------------------------------------------------------

  method ReadLengthField(c: Cursor) returns (r: Result<nat>)
    modifies c
    ensures Did(ReadLength(old(c.Rest())), r, c.Rest())
    ensures c.pos == old(c.pos) || c.pos <= |c.bytes|
  {
    hide ReadV;
    var n :- c.VGroups(5, 32);
    if n >= TWO_31 {
      return Err(Corrupt);
    }
    return Ok(n);
  }

  method ReadTokenLengths(s: Cursor) returns (r: Result<(nat, nat)>)
    modifies s
    ensures Did(ReadLengths(old(s.Rest())), r, s.Rest())
    ensures s.pos == old(s.pos) || s.pos <= |s.bytes|
  {
    hide ReadLength;
    var token :- s.U8();
    var prefix: nat, suffix: nat := token % 16, token / 16 + 1;
    if prefix == 15 {
      var more :- ReadLengthField(s);
      prefix := 15 + more;
    }
    if suffix == 16 {
      var more :- ReadLengthField(s);
      suffix := 16 + more;
    }
    return Ok((prefix, suffix));
  }

  // One more prefix-coded term; its predecessor is the bytes from `prevStart`.
  method DecodeToken(s: Cursor, d: Dictionary, prevStart: nat) returns (r: Result<Dictionary>)
    requires prevStart <= |d.bytes| && s.pos <= |s.bytes|
    modifies s
    ensures match ReadToken(old(s.Rest()), d.bytes[prevStart..])
            case Ok(p) => r == Ok(Push(I32, d, p.0)) && s.Rest() == p.1
            case Err(e) => r == Err(e)
    ensures s.pos <= |s.bytes|
  {
    hide ReadLengths, Push;
    var lengths :- ReadTokenLengths(s);
    var prefix, suffix := lengths.0, lengths.1;
    var prevLength := |d.bytes| - prevStart;
    if prefix > prevLength {
      return Err(Corrupt);
    }
    var t :- s.Take(suffix);
    Spliced(d, prevStart, prefix, t);
    var bytes := d.bytes + d.bytes[prevStart..prevStart + prefix] + t;
    return Ok(Dictionary(bytes, d.offsets + [AsI32(|bytes|)]));
  }

  lemma Spliced(d: Dictionary, start: nat, prefix: nat, t: seq<byte>)
    requires start + prefix <= |d.bytes|
    ensures var bytes := d.bytes + d.bytes[start..start + prefix] + t;
            Dictionary(bytes, d.offsets + [AsI32(|bytes|)]) == Push(I32, d, d.bytes[start..][..prefix] + t)
  {
    assert d.bytes[start..start + prefix] == d.bytes[start..][..prefix];
    Assoc(d.bytes, d.bytes[start..][..prefix], t);
  }

  // The dictionary once the terms a reading function still gives are pushed.
  function Pushing(d: Dictionary, r: Result<seq<Term>>): Result<Dictionary> {
    match r case Ok(terms) => Ok(PushAll(I32, d, terms)) case Err(e) => Err(e)
  }

  lemma TokensStep(d: Dictionary, rest: seq<byte>, prev: Term, k: nat)
    requires k > 0
    ensures match ReadToken(rest, prev)
            case Ok(p) => Pushing(d, ReadTokens(rest, prev, k)) == Pushing(Push(I32, d, p.0), ReadTokens(p.1, p.0, k - 1))
            case Err(e) => Pushing(d, ReadTokens(rest, prev, k)) == Err(e)
  {
    hide ReadToken;
    if ReadToken(rest, prev).Ok? {
      var (term, rest') := ReadToken(rest, prev).value;
      if ReadTokens(rest', term, k - 1).Ok? {
        var terms := ReadTokens(rest', term, k - 1).value;
        assert ([term] + terms)[1..] == terms;
      }
    }
  }

  lemma TokensDone(d: Dictionary, rest: seq<byte>, prev: Term)
    ensures Pushing(d, ReadTokens(rest, prev, 0)) == Ok(d)
  {
  }

  lemma PushedLast(d: Dictionary)
    ensures forall t: Term :: |Push(I32, d, t).bytes| >= |d.bytes| && Push(I32, d, t).bytes[|d.bytes|..] == t
  {
  }

  method DecodeTokens(buffer: seq<byte>, d: Dictionary, prevStart: nat, k: nat) returns (r: Result<Dictionary>)
    requires prevStart <= |d.bytes|
    ensures r == Pushing(d, ReadTokens(buffer, d.bytes[prevStart..], k))
  {
    hide ReadTokens, ReadToken, Pushing, Push;
    var s := new Cursor(buffer, 0);
    assert s.Rest() == buffer;
    var all, start: nat, left: nat := d, prevStart, k;
    ghost var goal := Pushing(d, ReadTokens(buffer, d.bytes[prevStart..], k));
    while left > 0
      invariant start <= |all.bytes| && s.pos <= |s.bytes|
      invariant Pushing(all, ReadTokens(s.Rest(), all.bytes[start..], left)) == goal
    {
      TokensStep(all, s.Rest(), all.bytes[start..], left);
      PushedLast(all);
      var newStart := |all.bytes|;
      var next :- DecodeToken(s, all, start);
      all, start, left := next, newStart, left - 1;
    }
    TokensDone(all, s.Rest(), all.bytes[start..]);
    return Ok(all);
  }

  method DecodeSuffixes(dvd: seq<byte>, c: Cursor, blockEnd: nat, d: Dictionary, prevStart: nat, n: nat, z: Lz4)
    returns (r: Result<Dictionary>)
    requires n > 0 && c.bytes == dvd && c.pos <= |dvd| && prevStart <= |d.bytes|
    modifies c
    ensures r == Pushing(d, ReadSuffixes(dvd, old(c.Rest()), blockEnd, d.bytes[prevStart..], n, z))
  {
    hide ReadLength, ReadTokens, PushAll;
    var length :- ReadLengthField(c);
    assert c.pos <= |dvd| ==> |dvd| - |c.Rest()| == c.pos;
    if c.pos > blockEnd || blockEnd > |dvd| {
      return Err(Panic);
    }
    var buffer :- z.decompress(dvd[c.pos..blockEnd], length, d.bytes[prevStart..]);
    if |buffer| != length {
      return Err(Corrupt);
    }
    r := DecodeTokens(buffer, d, prevStart, n - 1);
  }

  lemma AfterLength(dvd: seq<byte>, blockStart: nat, blockEnd: nat, maxLength: nat, n: nat, z: Lz4, length: Result<nat>, rest: seq<byte>)
    requires Did(ReadLength(From(dvd, blockStart)), length, rest)
    requires length.Err? || length.value > maxLength
    ensures TermsDict.ReadBlock(dvd, blockStart, blockEnd, maxLength, n, z) ==
            Err(if length.Err? then length.error else Corrupt)
  {
    hide ReadLength, ReadSuffixes;
  }

  lemma AfterFirst(d: Dictionary, dvd: seq<byte>, blockStart: nat, blockEnd: nat, maxLength: nat, n: nat, z: Lz4,
                   length: nat, rest: seq<byte>, first: Result<Term>, rest': seq<byte>)
    requires Did(ReadLength(From(dvd, blockStart)), Ok(length), rest) && length <= maxLength
    requires Did(TakeBytes(rest, length), first, rest')
    ensures Pushing(d, TermsDict.ReadBlock(dvd, blockStart, blockEnd, maxLength, n, z)) ==
            if first.Err? then Err(first.error)
            else if n <= 1 then Ok(Push(I32, d, first.value))
            else Pushing(Push(I32, d, first.value), ReadSuffixes(dvd, rest', blockEnd, first.value, n, z))
  {
    hide ReadLength, ReadSuffixes, PushAll;
    if first.Ok? {
      PushOne(I32, d, first.value);
      if n > 1 {
        PushFirst(d, first.value, ReadSuffixes(dvd, rest', blockEnd, first.value, n, z));
      }
    }
  }

  method DecodeTermBlock(dvd: seq<byte>, blockStart: nat, blockEnd: nat, maxLength: nat, n: nat, z: Lz4, d: Dictionary)
    returns (r: Result<Dictionary>)
    requires blockStart <= |dvd|
    ensures r == Pushing(d, TermsDict.ReadBlock(dvd, blockStart, blockEnd, maxLength, n, z))
  {
    hide ReadLength, ReadSuffixes, TermsDict.ReadBlock, PushAll, Did;
    var c := new Cursor(dvd, blockStart);
    assert c.Rest() == From(dvd, blockStart);
    var length := ReadLengthField(c);
    if length.Err? || length.value > maxLength {
      AfterLength(dvd, blockStart, blockEnd, maxLength, n, z, length, c.Rest());
      return Err(if length.Err? then length.error else Corrupt);
    }
    ghost var rest := c.Rest();
    var first := c.Take(length.value);
    AfterFirst(d, dvd, blockStart, blockEnd, maxLength, n, z, length.value, rest, first, c.Rest());
    if first.Err? {
      return Err(first.error);
    }
    var prevStart := |d.bytes|;
    var d' := Dictionary(d.bytes + first.value, d.offsets + [AsI32(|d.bytes| + |first.value|)]);
    assert d' == Push(I32, d, first.value) && d'.bytes[prevStart..] == first.value;
    if n > 1 {
      r := DecodeSuffixes(dvd, c, blockEnd, d', prevStart, n, z);
    } else {
      return Ok(d');
    }
  }

  lemma PushFirst(d: Dictionary, first: Term, r: Result<seq<Term>>)
    ensures r.Ok? ==> Pushing(Push(I32, d, first), r) == Ok(PushAll(I32, d, [first] + r.value))
  {
    if r.Ok? {
      assert ([first] + r.value)[1..] == r.value;
    }
  }

  lemma BlocksStep(d: Dictionary, dvd: seq<byte>, starts: seq<i64>, termsOffset: nat, termsEnd: nat, maxLength: nat,
                   remaining: nat, z: Lz4)
    requires starts != []
    ensures var goal := Pushing(d, TermsDict.ReadBlocks(dvd, starts, termsOffset, termsEnd, maxLength, remaining, z));
            if starts[0] < 0 then goal == Err(Corrupt)
            else
              var blockStart := termsOffset + starts[0];
              var blockEnd := if |starts| > 1 then termsOffset + AsU64(starts[1]) else termsEnd;
              var n := if remaining < BLOCK_TERMS then remaining else BLOCK_TERMS;
              if blockEnd < blockStart || blockEnd > termsEnd then goal == Err(Corrupt)
              else match Pushing(d, TermsDict.ReadBlock(dvd, blockStart, blockEnd, maxLength, n, z))
                   case Ok(d') => goal == Pushing(d', TermsDict.ReadBlocks(dvd, starts[1..], termsOffset, termsEnd, maxLength,
                                                                           remaining - n, z))
                   case Err(e) => goal == Err(e)
  {
    hide TermsDict.ReadBlock, PushAll;
    if starts[0] >= 0 {
      var blockStart := termsOffset + starts[0];
      var blockEnd := if |starts| > 1 then termsOffset + AsU64(starts[1]) else termsEnd;
      var n := if remaining < BLOCK_TERMS then remaining else BLOCK_TERMS;
      var block := TermsDict.ReadBlock(dvd, blockStart, blockEnd, maxLength, n, z);
      var rest := TermsDict.ReadBlocks(dvd, starts[1..], termsOffset, termsEnd, maxLength, remaining - n, z);
      if block.Ok? && rest.Ok? {
        PushAllAppend(I32, d, block.value, rest.value);
      }
    }
  }

  lemma BlocksDone(d: Dictionary, dvd: seq<byte>, termsOffset: nat, termsEnd: nat, maxLength: nat, remaining: nat, z: Lz4)
    ensures Pushing(d, TermsDict.ReadBlocks(dvd, [], termsOffset, termsEnd, maxLength, remaining, z)) == Ok(d)
  {
  }

  method DecodeTermBlocks(dvd: seq<byte>, starts: seq<i64>, termsOffset: nat, termsEnd: nat, maxLength: nat, numTerms: nat, z: Lz4)
    returns (r: Result<Dictionary>)
    requires termsEnd <= |dvd|
    ensures r == Pushing(NO_TERMS, TermsDict.ReadBlocks(dvd, starts, termsOffset, termsEnd, maxLength, numTerms, z))
  {
    hide Pushing, TermsDict.ReadBlock, TermsDict.ReadBlocks;
    var d, remaining: nat := NO_TERMS, numTerms;
    ghost var goal := Pushing(d, TermsDict.ReadBlocks(dvd, starts, termsOffset, termsEnd, maxLength, numTerms, z));
    assert starts[0..] == starts;
    for bi := 0 to |starts|
      invariant Pushing(d, TermsDict.ReadBlocks(dvd, starts[bi..], termsOffset, termsEnd, maxLength, remaining, z)) == goal
    {
      BlocksStep(d, dvd, starts[bi..], termsOffset, termsEnd, maxLength, remaining, z);
      assert starts[bi..][1..] == starts[bi + 1..];
      if starts[bi] < 0 {
        return Err(Corrupt);
      }
      var blockStart := termsOffset + starts[bi];
      var blockEnd := if bi + 1 < |starts| then termsOffset + AsU64(starts[bi + 1]) else termsEnd;
      if blockEnd < blockStart || blockEnd > termsEnd {
        return Err(Corrupt);
      }
      var n := if remaining < BLOCK_TERMS then remaining else BLOCK_TERMS;
      d :- DecodeTermBlock(dvd, blockStart, blockEnd, maxLength, n, z, d);
      remaining := remaining - n;
    }
    BlocksDone(d, dvd, termsOffset, termsEnd, maxLength, remaining, z);
    assert starts[|starts|..] == [];
    return Ok(d);
  }

  // The dictionary in one allocation: exactly the layout of the terms the plan
  // materializes to.
  method MaterializeTerms(t: TermsPlan, dvd: seq<byte>, z: Lz4, p: Predictor) returns (r: Result<Dictionary>)
    ensures r == Pushing(NO_TERMS, Materialize(t, dvd, z, p))
  {
    hide Decode, TermsDict.ReadBlocks, BlockCount, SizeOf, PushAll;
    var termsEnd := t.termsOffset + t.termsLen;
    if termsEnd > |dvd| || t.addressesOffset + t.addressesLen > |dvd| {
      return Err(Corrupt);
    }
    var starts :- DecodeSequence(t.addressMeta, From(dvd, t.addressesOffset), p, BlockCount(t.numTerms, BLOCK_TERMS), SizeOf(t.addressShift));
    var d :- DecodeTermBlocks(dvd, starts, t.termsOffset, termsEnd, t.maxTermLength, t.numTerms, z);
    PushedLength(TermsDict.ReadBlocks(dvd, starts, t.termsOffset, termsEnd, t.maxTermLength, t.numTerms, z).value);
    if |d.offsets| - 1 != t.numTerms {
      return Err(Corrupt);
    }
    return Ok(d);
  }

  lemma PushedLength(terms: seq<Term>)
    ensures |PushAll(I32, NO_TERMS, terms).offsets| == 1 + |terms|
  {
    PushedKeeps(I32, NO_TERMS, terms);
  }
}
