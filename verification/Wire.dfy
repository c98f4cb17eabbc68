// The byte substrate: results, machine integers, the little-endian primitives
// and VInts of the codec, and the cursor that reads them back.
//
// Each primitive has a writer (`LeI64(x)`: the bytes) and a reading function
// from the bytes still ahead to a value and the bytes left. `Cursor` is the
// stateful reader; its methods are tied to the reading functions.
module Wire {
  import opened Bits

  // `Panic` stands for an unchecked index the source would unwind on.
  datatype Error = Corrupt | Invalid | Unsupported | Panic

  datatype Result<+T> = Ok(value: T) | Err(error: Error) {
    predicate IsFailure() { Err? }
    function PropagateFailure<U>(): Result<U> requires Err? { Err(error) }
    function Extract(): T requires Ok? { value }
  }

  datatype Option<+T> = None | Some(value: T)

  // ----- machine integers ----------------------------------------------------

  const TWO_16 := 0x1_0000
  const TWO_31 := 0x8000_0000
  const TWO_32 := 0x1_0000_0000
  const TWO_63 := 0x8000_0000_0000_0000
  const TWO_64 := 0x1_0000_0000_0000_0000

  type i64 = x: int | -TWO_63 <= x < TWO_63
  type i32 = x: int | -TWO_31 <= x < TWO_31
  type i16 = x: int | -0x8000 <= x < 0x8000
  type u32 = x: nat | x < TWO_32

  // `x as u64` and `x as i64`: the same bits, read the other way.
  function AsU64(x: i64): u64 { if x < 0 then x + TWO_64 else x }
  function AsI64(x: u64): i64 { if x < TWO_63 then x else x - TWO_64 }

  // `x as i16` and `x as i32`: the low bits, read as signed.
  function AsI16(x: nat): i16 {
    var n := x % TWO_16;
    if n < 0x8000 then n else n - TWO_16
  }

  function AsI32(x: nat): i32 {
    var n := x % TWO_32;
    if n < TWO_31 then n else n - TWO_32
  }

  // `n as u64 + 1` for a signed count, wrapping.
  function CountAfter(n: i32): nat { (AsU64(n) + 1) % TWO_64 }

  // The i64 congruent to x modulo 2^64: what a wrapping operation returns.
  function Wrap(x: int): i64 { AsI64(x % TWO_64) }

  lemma WrapIsIdentity(x: i64)
    ensures Wrap(x) == x && AsI64(AsU64(x)) == x
  {
  }

  lemma UnsignedWrap(m: u64)
    ensures AsU64(Wrap(m)) == m && (Wrap(m) < 0 <==> m >= TWO_63)
  {
  }

  // Wrapping is of the sum, however often the parts were wrapped before.
  lemma WrapInside(a: int, b: int)
    ensures Wrap(a + Wrap(b)) == Wrap(a + b) && Wrap(a + AsU64(Wrap(b))) == Wrap(a + b)
  {
    var q := b / TWO_64;
    assert b == q * TWO_64 + b % TWO_64;
    ModAdds(a + b, -q);
    ModAdds(a + b, -q - 1);
  }

  lemma ModAdds(x: int, q: int)
    ensures (x + q * TWO_64) % TWO_64 == x % TWO_64
  {
  }

  // ----- primitives ------------------------------------------------------------

  type Parsed<+T> = Result<(T, seq<byte>)>

  // Reading gives x and leaves `rest`.
  ghost predicate Yields<T(!new)>(r: Parsed<T>, x: T, rest: seq<byte>) {
    match r case Ok(p) => p.0 == x && p.1 == rest case Err(_) => false
  }

  // `data` lies in the file at offset `at`.
  ghost predicate PlacedAt(dvd: seq<byte>, at: nat, data: seq<byte>) {
    at + |data| <= |dvd| < TWO_63 && dvd[at..at + |data|] == data
  }

  ghost predicate Gives<T(!new)>(r: Result<T>, x: T) {
    match r case Ok(y) => y == x case Err(_) => false
  }

  lemma PlacedPart(dvd: seq<byte>, at: nat, a: seq<byte>, b: seq<byte>)
    requires PlacedAt(dvd, at, a + b)
    ensures PlacedAt(dvd, at, a) && PlacedAt(dvd, at + |a|, b)
  {
    var ab := a + b;
    assert dvd[at..at + |a|] == ab[..|a|];
    assert dvd[at + |a|..at + |a| + |b|] == ab[|a|..];
  }

  // Items already read, in front of what reading the rest gives.
  function After<T>(items: seq<T>, r: Parsed<seq<T>>): Parsed<seq<T>> {
    match r case Ok(p) => Ok((items + p.0, p.1)) case Err(e) => Err(e)
  }

  lemma NothingRead<T>(r: Parsed<seq<T>>)
    ensures After([], r) == r
  {
    if r.Ok? {
      assert [] + r.value.0 == r.value.0;
    }
  }

  // The same without a reading position.
  function Onto<T>(items: seq<T>, r: Result<seq<T>>): Result<seq<T>> {
    match r case Ok(v) => Ok(items + v) case Err(e) => Err(e)
  }

  lemma OntoNothing<T>(items: seq<T>, r: Result<seq<T>>)
    ensures Onto([], r) == r
    ensures Onto(items, Ok([])) == Ok(items)
  {
    assert items + [] == items;
    if r.Ok? {
      assert [] + r.value == r.value;
    }
  }

  lemma OntoMore<T>(items: seq<T>, more: seq<T>, r: Result<seq<T>>)
    ensures Onto(items, Onto(more, r)) == Onto(items + more, r)
  {
    if r.Ok? {
      Assoc(items, more, r.value);
    }
  }

  function TakeBytes(rest: seq<byte>, n: nat): Parsed<seq<byte>> {
    if |rest| < n then Err(Corrupt) else Ok((rest[..n], rest[n..]))
  }

  function ReadU8(rest: seq<byte>): Parsed<byte> {
    if |rest| < 1 then Err(Corrupt) else Ok((rest[0], rest[1..]))
  }

  function ReadLe(rest: seq<byte>, k: nat): Parsed<nat> {
    if |rest| < k then Err(Corrupt) else Ok((LeNum(rest[..k]), rest[k..]))
  }

  function LeI16(x: i16): (b: seq<byte>) ensures |b| == 2 {
    LeBytes(if x < 0 then x + TWO_16 else x, 2)
  }

  function LeI32(x: i32): (b: seq<byte>) ensures |b| == 4 {
    LeBytes(if x < 0 then x + TWO_32 else x, 4)
  }

  function LeI64(x: i64): (b: seq<byte>) ensures |b| == 8 {
    LeBytes(AsU64(x), 8)
  }

  lemma LeNumRange(b: seq<byte>)
    ensures |b| == 2 ==> LeNum(b) < TWO_16
    ensures |b| == 4 ==> LeNum(b) < TWO_32
    ensures |b| == 8 ==> LeNum(b) < TWO_64
  {
    LeNumBound(b);
    Pow2Values();
  }

  function ReadI16(rest: seq<byte>): Parsed<i16> {
    if |rest| < 2 then Err(Corrupt) else
      LeNumRange(rest[..2]);
      var n := LeNum(rest[..2]);
      Ok((if n < 0x8000 then n else n - TWO_16, rest[2..]))
  }

  function ReadI32(rest: seq<byte>): Parsed<i32> {
    if |rest| < 4 then Err(Corrupt) else
      LeNumRange(rest[..4]);
      var n := LeNum(rest[..4]);
      Ok((if n < TWO_31 then n else n - TWO_32, rest[4..]))
  }

  function ReadI64(rest: seq<byte>): Parsed<i64> {
    if |rest| < 8 then Err(Corrupt) else
      LeNumRange(rest[..8]);
      Ok((AsI64(LeNum(rest[..8])), rest[8..]))
  }

  lemma LeNumOfBytes(n: nat, k: nat)
    requires n < Pow2(8 * k)
    ensures LeNum(LeBytes(n, k)) == n
  {
    LeNumBytes(n, k);
    LowSmall(n, 8 * k);
  }

  lemma I16RoundTrip(x: i16, rest: seq<byte>)
    ensures ReadI16(LeI16(x) + rest) == Ok((x, rest))
  {
    Pow2Values();
    LeNumOfBytes(if x < 0 then x + TWO_16 else x, 2);
    assert (LeI16(x) + rest)[..2] == LeI16(x);
  }

  lemma I32RoundTrip(x: i32, rest: seq<byte>)
    ensures ReadI32(LeI32(x) + rest) == Ok((x, rest))
  {
    Pow2Values();
    LeNumOfBytes(if x < 0 then x + TWO_32 else x, 4);
    assert (LeI32(x) + rest)[..4] == LeI32(x);
  }

  lemma I64RoundTrip(x: i64, rest: seq<byte>)
    ensures ReadI64(LeI64(x) + rest) == Ok((x, rest))
  {
    Pow2Values();
    LeNumOfBytes(AsU64(x), 8);
    assert (LeI64(x) + rest)[..8] == LeI64(x);
  }

  // ----- VInt and VLong ---------------------------------------------------------

  // 7-bit groups, low group first; a set high bit means more follow.
  function VBytes(v: nat): (b: seq<byte>)
    ensures |b| > 0
  {
    if v < 128 then [v] else [v % 128 + 128] + VBytes(v / 128)
  }

  // Byte i holds bits 7i to 7i + 6; all bytes but the last have the high bit set, and no byte
  // could be left out.
  lemma {:induction false} VIntForm(v: nat, i: nat)
    requires i < |VBytes(v)|
    ensures VBytes(v)[i] == Low(Shr(v, 7 * i), 7) + if i + 1 < |VBytes(v)| then 128 else 0
    ensures i > 0 ==> Shr(v, 7 * i) > 0
    ensures i + 1 == |VBytes(v)| ==> Shr(v, 7 * i) < 128
    decreases i
  {
    hide Low, Shr;
    if i == 0 {
      LowSeven(v);
      assert Shr(v, 0) == v by { NoShift(v); }
    } else {
      VIntForm(v / 128, i - 1);
      LowSeven(v);
      ShrShr(v, 7, 7 * (i - 1));
      if i == 1 {
        NoShift(v / 128);
      }
    }
  }

  lemma NoShift(v: nat)
    ensures Shr(v, 0) == v
  {
  }

  lemma LowSeven(v: nat)
    ensures Low(v, 7) == v % 128 && Shr(v, 7) == v / 128
  {
    hide Low, Shr, Shl;
    LowShr(v, 7);
    LowBound(v, 7);
    SeptetShift(Shr(v, 7));
    DivUnique(v, 128, Shr(v, 7), Low(v, 7));
  }

  // `groups` more bytes may follow. The accumulator is a `bits`-wide word, so a
  // group shifted past its top is cut off.
  function ReadV(rest: seq<byte>, shift: nat, value: nat, groups: nat, bits: nat): Parsed<nat>
    decreases groups
  {
    if groups == 0 then Err(Corrupt)
    else if |rest| == 0 then Err(Corrupt)
    else
      var value' := Or(value, Low(Shl(rest[0] % 128, shift), bits));
      if rest[0] < 128 then Ok((value', rest[1..]))
      else ReadV(rest[1..], shift + 7, value', groups - 1, bits)
  }

  function ReadVNat32(rest: seq<byte>): Parsed<nat> { ReadV(rest, 0, 0, 5, 32) }
  function ReadVNat64(rest: seq<byte>): Parsed<nat> { ReadV(rest, 0, 0, 10, 64) }

  // One group, when nothing is cut off: or-ing it in adds it.
  lemma ReadVStep(b: byte, rest: seq<byte>, shift: nat, value: nat, groups: nat, bits: nat)
    requires groups > 0 && value < Pow2(shift)
    requires value + Shl(b % 128, shift) < Pow2(bits)
    ensures ReadV([b] + rest, shift, value, groups, bits) ==
            if b < 128 then Ok((value + Shl(b % 128, shift), rest))
            else ReadV(rest, shift + 7, value + Shl(b % 128, shift), groups - 1, bits)
  {
    LowSmall(Shl(b % 128, shift), bits);
    OrDisjoint(value, b % 128, shift);
    assert ([b] + rest)[1..] == rest;
  }

  lemma {:induction false} ReadVOfVBytes(v: nat, rest: seq<byte>, shift: nat, value: nat, groups: nat, bits: nat)
    requires groups > 0 && v < Pow2(7 * groups)
    requires value < Pow2(shift)
    requires value + Shl(v, shift) < Pow2(bits)
    ensures ReadV(VBytes(v) + rest, shift, value, groups, bits) == Ok((value + Shl(v, shift), rest))
    decreases groups
  {
    hide ReadV, Shl, Pow2, Or, Low;
    if v < 128 {
      ReadVStep(v, rest, shift, value, groups, bits);
    } else {
      var g, w := v % 128, v / 128;
      SplitGroup(v, shift);
      NextGroup(value, g, shift);
      GroupsLeft(v, groups);
      ReadVStep(g + 128, VBytes(w) + rest, shift, value, groups, bits);
      assert VBytes(v) + rest == [g + 128] + (VBytes(w) + rest);
      ReadVOfVBytes(w, rest, shift + 7, value + Shl(g, shift), groups - 1, bits);
    }
  }

  lemma SplitGroup(v: nat, shift: nat)
    ensures Shl(v, shift) == Shl(v % 128, shift) + Shl(v / 128, shift + 7)
  {
    SeptetShift(v / 128);
    ShlAdd(v % 128, 128 * (v / 128), shift);
    ShlShl(v / 128, 7, shift);
  }

  lemma NextGroup(value: nat, g: nat, shift: nat)
    requires value < Pow2(shift) && g < 128
    ensures value + Shl(g, shift) < Pow2(shift + 7)
  {
    ShlMonotone(g + 1, 128, shift);
    ShlAdd(g, 1, shift);
    Pow2Add(0, shift);
    Pow2Add(7, shift);
  }

  lemma GroupsLeft(v: nat, groups: nat)
    requires groups > 0 && 128 <= v < Pow2(7 * groups)
    ensures groups > 1 && v / 128 < Pow2(7 * (groups - 1))
  {
    assert Pow2(7) == 128;
    Pow2Add(7 * (groups - 1), 7);
    SeptetShift(Pow2(7 * (groups - 1)));
  }

  lemma SeptetShift(n: nat)
    ensures Shl(n, 7) == 128 * n
  {
  }

  // A VInt read back is the number written, for every u32.
  lemma VIntRoundTrip(v: u32, rest: seq<byte>)
    ensures ReadVNat32(VBytes(v) + rest) == Ok((v, rest))
  {
    Pow2Values();
    Pow2Monotone(32, 35);
    ReadVOfVBytes(v, rest, 0, 0, 5, 32);
  }

  lemma VLongRoundTrip(v: u64, rest: seq<byte>)
    ensures ReadVNat64(VBytes(v) + rest) == Ok((v, rest))
  {
    Pow2Values();
    Pow2Monotone(64, 70);
    ReadVOfVBytes(v, rest, 0, 0, 10, 64);
  }

  method WriteVInt(out: seq<byte>, v: nat) returns (out': seq<byte>)
    ensures out' == out + VBytes(v)
  {
    out' := out;
    var w := v;
    while w >= 128
      invariant out' + VBytes(w) == out + VBytes(v)
    {
      out' := out' + [w % 128 + 128];
      w := w / 128;
    }
    out' := out' + [w];
  }

  // ----- the cursor ---------------------------------------------------------------

  // What a stateful read must have done, given the reading function's answer.
  ghost predicate Did<T(!new)>(spec: Parsed<T>, r: Result<T>, rest: seq<byte>) {
    match spec
    case Ok(p) => r == Ok(p.0) && rest == p.1
    case Err(e) => r == Err(e)
  }

  class Cursor {
    const bytes: seq<byte>
    var pos: nat

    constructor (bytes: seq<byte>, pos: nat)
      ensures this.bytes == bytes && this.pos == pos
    {
      this.bytes := bytes;
      this.pos := pos;
    }

    function Rest(): seq<byte>
      reads this
    {
      if pos <= |bytes| then bytes[pos..] else []
    }

    method Take(n: nat) returns (r: Result<seq<byte>>)
      requires pos <= |bytes| || n > 0 // an empty slice past the end panics
      modifies this
      ensures Did(TakeBytes(old(Rest()), n), r, Rest())
      ensures if r.Ok? then pos == old(pos) + n && pos <= |bytes| else pos == old(pos)
    {
      var remaining := if pos <= |bytes| then |bytes| - pos else 0;
      if remaining < n {
        return Err(Corrupt);
      }
      var out := bytes[pos..pos + n];
      assert out == Rest()[..n];
      pos := pos + n;
      return Ok(out);
    }

    method Skip(n: nat) returns (r: Result<()>)
      requires pos <= |bytes| || n > 0
      modifies this
      ensures if |old(Rest())| < n then r == Err(Corrupt) else r.Ok? && Rest() == old(Rest())[n..]
      ensures if r.Ok? then pos == old(pos) + n && pos <= |bytes| else pos == old(pos)
    {
      var t :- Take(n);
      return Ok(());
    }

    method U8() returns (r: Result<byte>)
      modifies this
      ensures Did(ReadU8(old(Rest())), r, Rest())
      ensures pos == old(pos) || pos <= |bytes|
    {
      var t :- Take(1);
      return Ok(t[0]);
    }

    method I16() returns (r: Result<i16>)
      modifies this
      ensures Did(ReadI16(old(Rest())), r, Rest())
      ensures pos == old(pos) || pos <= |bytes|
    {
      var t :- Take(2);
      LeNumRange(t);
      var n := LeNum(t);
      return Ok(if n < 0x8000 then n else n - TWO_16);
    }

    method I32() returns (r: Result<i32>)
      modifies this
      ensures Did(ReadI32(old(Rest())), r, Rest())
      ensures pos == old(pos) || pos <= |bytes|
    {
      var t :- Take(4);
      LeNumRange(t);
      var n := LeNum(t);
      return Ok(if n < TWO_31 then n else n - TWO_32);
    }

    method I64() returns (r: Result<i64>)
      modifies this
      ensures Did(ReadI64(old(Rest())), r, Rest())
      ensures pos == old(pos) || pos <= |bytes|
    {
      var t :- Take(8);
      LeNumRange(t);
      return Ok(AsI64(LeNum(t)));
    }

    // The accumulating loop of both readers: five groups of a 32-bit word for a
    // VInt, ten of a 64-bit word for a VLong.
    method VGroups(groups: nat, bits: nat) returns (r: Result<nat>)
      modifies this
      ensures Did(ReadV(old(Rest()), 0, 0, groups, bits), r, Rest())
      ensures pos == old(pos) || pos <= |bytes|
    {
      var value, shift, left := 0, 0, groups;
      while left > 0
        invariant ReadV(Rest(), shift, value, left, bits) == ReadV(old(Rest()), 0, 0, groups, bits)
        invariant pos == old(pos) || pos <= |bytes|
      {
        var b :- U8();
        value := Or(value, Low(Shl(b % 128, shift), bits));
        if b < 128 {
          return Ok(value);
        }
        shift, left := shift + 7, left - 1;
      }
      return Err(Corrupt);
    }
  }
}
