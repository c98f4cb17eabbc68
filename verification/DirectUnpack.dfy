// The other reader of packed values: group by group, the way they were packed. It
// gives the same values as the fused reader, and fails on the same inputs.
module DirectUnpack {
  import opened Bits
  import opened Wire
  import opened Direct

  // The values of the group that starts at value i.
  function InGroup(count: nat, i: nat, w: nat): (n: nat)
    requires Supported(w) && i < count
    ensures 0 < n <= GroupSize(w) && i + n <= count
  {
    if count - i < GroupSize(w) then count - i else GroupSize(w)
  }

  lemma {:induction false} PayloadGrows(i: nat, count: nat, w: nat)
    requires Supported(w) && i <= count && (Whole(i, GroupSize(w)) || i == count)
    ensures PayloadLen(i, w) <= PayloadLen(count, w)
    decreases i
  {
    hide GroupLen;
    SmallGroup(0, w);
    if 0 < i < count {
      PayloadGrows(i - GroupSize(w), count - GroupSize(w), w);
      OneGroup(i, w);
      OneGroup(count, w);
    }
  }

  lemma OneGroup(n: nat, w: nat)
    requires Supported(w) && n >= GroupSize(w)
    ensures PayloadLen(n, w) == GroupLen(GroupSize(w), w) + PayloadLen(n - GroupSize(w), w)
  {
  }

  lemma FromWindow(x: nat, len: nat, w: nat, n: nat)
    requires Span(w, n) <= 8 * len
    ensures Digits(Low(x, 8 * len), w, n) == Digits(x, w, n)
  {
    hide Low, Shr;
    var y := Low(x, 8 * len);
    forall j: nat | j < n ensures Digits(y, w, n)[j] == Digits(x, w, n)[j] {
      DigitAt(y, w, n, j);
      DigitAt(x, w, n, j);
      SpanAdd(w, j + 1, n - j - 1);
      FieldOfLow(x, 8 * len, Span(w, j), w);
    }
  }

  lemma WindowOf(bytes: seq<byte>, at: nat, end: nat)
    requires at <= end <= |bytes|
    ensures LeNum(bytes[at..end]) == Low(Shr(LeNum(bytes), 8 * at), 8 * (end - at))
  {
    hide LeNum, Low, Shr, Shl;
    var window := bytes[at..end];
    assert bytes == bytes[..at] + bytes[at..];
    LeNumAppend(bytes[..at], bytes[at..]);
    LeNumBound(bytes[..at]);
    JoinSplit(LeNum(bytes[..at]), LeNum(bytes[at..]), 8 * at);
    assert bytes[at..] == window + bytes[end..];
    LeNumAppend(window, bytes[end..]);
    LeNumBound(window);
    JoinSplit(LeNum(window), LeNum(bytes[end..]), 8 * |window|);
  }

  // A group's bytes hold its values and nothing else decides them.
  lemma DigitsWithin(x: nat, w: nat, count: nat, i: nat, n: nat)
    requires i + n <= count
    ensures Digits(x, w, count)[i..i + n] == Digits(Shr(x, Span(w, i)), w, n)
  {
    hide Digits, Shr, Span;
    DigitsSplit(x, w, i, count - i);
    DigitsSplit(Shr(x, Span(w, i)), w, n, count - i - n);
    assert Digits(x, w, i + (count - i))[i..] == Digits(Shr(x, Span(w, i)), w, n + (count - i - n));
  }

  lemma GroupRead(bytes: seq<byte>, w: nat, count: nat, i: nat)
    requires Supported(w) && Whole(i, GroupSize(w)) && i < count
    ensures var n := InGroup(count, i, w);
            && PayloadLen(i + n, w) == PayloadLen(i, w) + GroupLen(n, w) <= PayloadLen(count, w)
            && (n == GroupSize(w) || i + n == count)
    ensures var n, off := InGroup(count, i, w), PayloadLen(i, w);
            off + GroupLen(n, w) <= |bytes| ==>
              Digits(LeNum(bytes[off..off + GroupLen(n, w)]), w, n) == Digits(LeNum(bytes), w, count)[i..i + n]
  {
    hide LeNum, Digits, Low, Shr, PayloadLen, GroupLen, Supported, GroupSize, Whole, Span;
    var n, off := InGroup(count, i, w), PayloadLen(i, w);
    PayloadGroups(i, n, w);
    if i + n < count {
      WholeNext(i, GroupSize(w));
    }
    PayloadGrows(i + n, count, w);
    if off + GroupLen(n, w) <= |bytes| {
      WindowOf(bytes, off, off + GroupLen(n, w));
      PartGroup(n, w);
      FromWindow(Shr(LeNum(bytes), 8 * off), GroupLen(n, w), w, n);
      DigitsWithin(LeNum(bytes), w, count, i, n);
    }
  }

  // What is read so far: the first `done` values, which took `off` bytes.
  ghost predicate ReadTo(bytes: seq<byte>, w: nat, count: nat, done: nat, off: nat, out: seq<nat>)
    requires Supported(w)
  {
    && done <= count && (Whole(done, GroupSize(w)) || done == count)
    && off == PayloadLen(done, w) && out == Digits(LeNum(bytes), w, count)[..done]
  }

  lemma GroupDone(bytes: seq<byte>, w: nat, count: nat, i: nat, off: nat, out: seq<nat>, out': seq<nat>)
    requires Supported(w) && i < count && ReadTo(bytes, w, count, i, off, out)
    requires off + GroupLen(InGroup(count, i, w), w) <= |bytes|
    requires out' == out + Digits(LeNum(bytes[off..off + GroupLen(InGroup(count, i, w), w)]), w, InGroup(count, i, w))
    ensures ReadTo(bytes, w, count, i + InGroup(count, i, w), off + GroupLen(InGroup(count, i, w), w), out')
  {
    hide LeNum, Digits, PayloadLen, GroupLen, GroupSize, Supported;
    GroupRead(bytes, w, count, i);
    if i + InGroup(count, i, w) < count {
      WholeNext(i, GroupSize(w));
    }
  }

  // One by one out of a word that holds n values.
  method Fields(packed: nat, w: nat, n: nat) returns (out: seq<nat>)
    ensures out == Digits(packed, w, n)
  {
    hide Digits, Low, Shr;
    out := [];
    var j := 0;
    while j < n
      invariant j <= n && out == Digits(packed, w, n)[..j]
    {
      DigitAt(packed, w, n, j);
      out := out + [Low(Shr(packed, Span(w, j)), w)];
      j := j + 1;
    }
  }

  // A group of any of the three shapes: its bytes, padded to a word.
  method OneGroupAt(bytes: seq<byte>, w: nat, count: nat, i: nat, off: nat, out: seq<nat>)
    returns (r: Result<(nat, nat, seq<nat>)>)
    requires Supported(w) && i < count && ReadTo(bytes, w, count, i, off, out)
    ensures r.Ok? ==> i < r.value.0 <= count && ReadTo(bytes, w, count, r.value.0, r.value.1, r.value.2)
    ensures r.Ok? ==> r.value.1 <= |bytes|
    ensures r.Err? ==> r.error == Corrupt && |bytes| < PayloadLen(count, w)
  {
    hide LeNum, Digits, PayloadLen, GroupSize, Supported;
    GroupRead(bytes, w, count, i);
    var n := InGroup(count, i, w);
    var len := GroupLen(n, w);
    if |bytes| < off + len {
      return Err(Corrupt);
    }
    var window := bytes[off..off + len];
    GroupFitsWord(n, w);
    LeNumPadded(window, 8 - len);
    var values := Fields(LeNum(window + Zeros(8 - len)), w, n);
    GroupDone(bytes, w, count, i, off, out, out + values);
    return Ok((i + n, off + len, out + values));
  }

  lemma GroupFitsWord(n: nat, w: nat)
    requires Supported(w) && n <= GroupSize(w)
    ensures GroupLen(n, w) <= 8
  {
    SpanIs(w, n);
  }

  method Unpack(bytes: seq<byte>, w: nat, count: nat) returns (r: Result<seq<nat>>)
    ensures r == UnpackGrouped(bytes, w, count)
  {
    hide LeNum, Digits, PayloadLen, GroupSize;
    if !Supported(w) {
      return Err(Corrupt);
    }
    NothingYet(bytes, w, count);
    var out: seq<nat> := [];
    var i: nat, off: nat := 0, 0;
    while i < count
      invariant ReadTo(bytes, w, count, i, off, out) && off <= |bytes|
    {
      var next :- OneGroupAt(bytes, w, count, i, off, out);
      GroupRead(bytes, w, count, i);
      i, off, out := next.0, next.1, next.2;
    }
    AllRead(bytes, w, count, off, out);
    return Ok(out);
  }

  lemma AllRead(bytes: seq<byte>, w: nat, count: nat, off: nat, out: seq<nat>)
    requires Supported(w) && ReadTo(bytes, w, count, count, off, out)
    ensures off == PayloadLen(count, w) && out == Digits(LeNum(bytes), w, count)
  {
    hide LeNum, Digits, PayloadLen;
    var all := Digits(LeNum(bytes), w, count);
    assert all[..count] == all;
  }

  lemma NothingYet(bytes: seq<byte>, w: nat, count: nat)
    requires Supported(w)
    ensures ReadTo(bytes, w, count, 0, 0, [])
  {
  }
}
