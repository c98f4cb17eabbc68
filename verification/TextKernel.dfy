// The device tokenizer: one thread per 64-byte slice of the corpus, an
// open-addressed vocabulary table claimed by compare-and-swap, and shared
// counters bumped atomically. The machine below takes one atomic step of one
// thread at a time, in any order; the invariant holds in every state of every
// run, so the final tables do not depend on the interleaving.
module TextKernel {
  import opened Bits
  import opened Lex
  import opened Analyzer

  const SLICE := 64
  const TABLE_CAP := 0x40_0000

  // ----- the runs of a corpus --------------------------------------------------------

  predicate Tokenish(b: nat) { AsciiAlphanumeric(b) || b >= 0x80 }

  predicate StartsRun(text: seq<byte>, i: nat) {
    i < |text| && Tokenish(text[i]) && (i > 0 ==> !Tokenish(text[i - 1]))
  }

  function RunEnd(text: seq<byte>, i: nat): (j: nat)
    ensures i <= j && (i < j ==> j <= |text|) && (i <= |text| ==> j <= |text|)
    decreases |text| - i
  {
    if i < |text| && Tokenish(text[i]) then RunEnd(text, i + 1) else i
  }

  predicate HasWide(text: seq<byte>, i: nat, j: nat) {
    exists k :: i <= k < j && k < |text| && text[k] >= 0x80
  }

  // A run the kernel keeps: ASCII only, not too long.
  predicate Clean(text: seq<byte>, i: nat) {
    StartsRun(text, i) && !HasWide(text, i, RunEnd(text, i)) && RunEnd(text, i) - i <= MAX_TOKEN_LEN
  }

  // A run left to the host.
  predicate Dirty(text: seq<byte>, i: nat) {
    StartsRun(text, i) && HasWide(text, i, RunEnd(text, i))
  }

  // The lowercased bytes of the run at i.
  function TermAt(text: seq<byte>, i: nat): (t: Term) {
    seq<byte>(RunEnd(text, i) - i, k requires 0 <= k < RunEnd(text, i) - i => AsciiLower(text[i + k]))
  }

  // Documents are lines: the newlines before i.
  function DocAt(text: seq<byte>, i: nat): nat {
    if i == 0 then 0 else DocAt(text, i - 1) + if i - 1 < |text| && text[i - 1] == 10 then 1 else 0
  }

  // A newline that ends the corpus starts no document.
  function NumDocs(text: seq<byte>): nat { if text == [] then 1 else DocAt(text, |text| - 1) + 1 }

  // offset << 16 | min(len, 0xFFFF)
  function Loc(text: seq<byte>, i: nat): nat {
    var len := RunEnd(text, i) - i;
    0x1_0000 * i + if len < 0xFFFF then len else 0xFFFF
  }

  function LocStart(loc: nat): nat { loc / 0x1_0000 }
  function LocLength(loc: nat): nat { loc % 0x1_0000 }

  lemma LocParts(text: seq<byte>, i: nat)
    ensures LocStart(Loc(text, i)) == i
    ensures LocLength(Loc(text, i)) == if RunEnd(text, i) - i < 0xFFFF then RunEnd(text, i) - i else 0xFFFF
    ensures StartsRun(text, i) ==> Loc(text, i) > 0
  {
  }

  // ----- the loops of one thread ----------------------------------------------------------

  method ScanRun(text: seq<byte>, i: nat) returns (j: nat, dirty: bool)
    requires i <= |text|
    ensures j == RunEnd(text, i) && dirty == HasWide(text, i, j)
  {
    j, dirty := i, false;
    while j < |text| && Tokenish(text[j])
      invariant i <= j <= |text| && RunEnd(text, j) == RunEnd(text, i)
      invariant dirty == HasWide(text, i, j)
    {
      if text[j] >= 0x80 {
        dirty := true;
      }
      j := j + 1;
    }
  }

  // The lowercased comparison of a stored location with the run at `off`.
  method SameTerm(text: seq<byte>, packed: nat, off: nat, len: nat) returns (same: bool)
    requires Clean(text, LocStart(packed)) && packed == Loc(text, LocStart(packed))
    requires off <= |text| && len == RunEnd(text, off) - off
    ensures same == (TermAt(text, LocStart(packed)) == TermAt(text, off))
  {
    hide Tokenish, HasWide, AsciiLower, LocStart, LocLength, Loc;
    LocParts(text, LocStart(packed));
    var slen := LocLength(packed);
    if slen != len {
      return false;
    }
    var soff := LocStart(packed);
    ghost var a, b := TermAt(text, soff), TermAt(text, off);
    for i := 0 to len
      invariant forall k :: 0 <= k < i ==> a[k] == b[k]
    {
      assert a[i] == AsciiLower(text[soff + i]) && b[i] == AsciiLower(text[off + i]);
      if AsciiLower(text[soff + i]) != AsciiLower(text[off + i]) {
        return false;
      }
    }
    assert a == b;
    return true;
  }

  // The offsets at which documents start.
  ghost predicate AreStarts(starts: seq<nat>, text: seq<byte>) {
    && |starts| == NumDocs(text) && Ascending(starts)
    && (forall d :: 0 <= d < |starts| ==> starts[d] < |text| || starts[d] == 0)
    && forall d, i :: 0 <= d < |starts| && 0 <= i < |text| ==> (starts[d] <= i <==> d <= DocAt(text, i))
  }

  // upper_bound(doc_starts, i) - 1
  method FindDoc(starts: seq<nat>, text: seq<byte>, i: nat) returns (doc: nat)
    requires AreStarts(starts, text) && i < |text|
    ensures doc == DocAt(text, i)
  {
    hide DocAt, NumDocs;
    DocsClimb(text, i, |text| - 1);
    DocCount(text);
    var lo, hi := 0, |starts|;
    while lo < hi
      invariant lo <= hi <= |starts|
      invariant lo <= DocAt(text, i) + 1 <= hi
    {
      var mid := (lo + hi) / 2;
      if starts[mid] <= i {
        lo := mid + 1;
      } else {
        hi := mid;
      }
    }
    doc := lo - 1;
  }

  lemma DocCount(text: seq<byte>)
    requires text != []
    ensures NumDocs(text) == DocAt(text, |text| - 1) + 1
  {
  }

  lemma {:induction false} DocsClimb(text: seq<byte>, i: nat, j: nat)
    requires i <= j
    ensures DocAt(text, i) <= DocAt(text, j)
    decreases j
  {
    if i < j {
      DocsClimb(text, i, j - 1);
    }
  }

  lemma DocInRange(text: seq<byte>, i: nat)
    requires i < |text|
    ensures DocAt(text, i) < NumDocs(text)
  {
    DocsClimb(text, i, |text| - 1);
  }

  method DocStarts(text: seq<byte>) returns (starts: seq<nat>)
    ensures AreStarts(starts, text)
  {
    starts := [0];
    for i := 0 to |text|
      invariant |starts| == DocAt(text, if i < |text| || i == 0 then i else i - 1) + 1 && Ascending(starts)
      invariant forall d :: 0 <= d < |starts| ==> starts[d] <= i && (starts[d] < |text| || starts[d] == 0)
      invariant forall d, k :: 0 <= d < |starts| && 0 <= k <= i && k < |text| ==> (starts[d] <= k <==> d <= DocAt(text, k))
    {
      if text[i] == 10 && i + 1 < |text| {
        forall k | 0 <= k <= i ensures DocAt(text, k) < |starts| {
          DocsClimb(text, k, i);
        }
        starts := starts + [i + 1];
      }
    }
    assert AreStarts(starts, text) by {
      assert |starts| == NumDocs(text);
    }
  }
}
