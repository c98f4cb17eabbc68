// Text analysis: lowercased runs of alphanumeric characters, at most 255 bytes
// long. The Unicode classification is a parameter that agrees with the ASCII
// rules below 0x80; UTF-8 itself is written out, because one tokenizer walks
// characters and the other walks bytes.
module Analyzer {
  import opened Bits
  import opened Wire
  import opened Lex

  // ----- UTF-8 ------------------------------------------------------------------

  // Unicode scalar values: code points without the surrogates.
  type Scalar = c: nat | c < 0xD800 || 0xE000 <= c < 0x11_0000

  function EncodeChar(c: Scalar): (b: seq<byte>)
    ensures 1 <= |b| <= 4 && (c < 0x80 ==> b == [c]) && (c >= 0x80 ==> forall k :: 0 <= k < |b| ==> b[k] >= 0x80)
  {
    if c < 0x80 then [c]
    else if c < 0x800 then [0xC0 + c / 64, 0x80 + c % 64]
    else if c < 0x1_0000 then [0xE0 + c / 4096, 0x80 + c / 64 % 64, 0x80 + c % 64]
    else [0xF0 + c / 26_2144, 0x80 + c / 4096 % 64, 0x80 + c / 64 % 64, 0x80 + c % 64]
  }

  function Encode(text: seq<Scalar>): (b: seq<byte>) {
    if text == [] then [] else EncodeChar(text[0]) + Encode(text[1..])
  }

  function IsScalar(c: nat): bool { c < 0xD800 || 0xE000 <= c < 0x11_0000 }

  // The code point a lead byte and its continuation bytes spell, before checks.
  function Tail6(b: byte): nat { b % 64 }

  function Lead(b: byte, size: nat): nat
    requires size > 0
  {
    b % size
  }

  function Spelled(b: seq<byte>): Option<nat> {
    if b == [] || 0x80 <= b[0] < 0xC0 || b[0] >= 0xF8 then None
    else if b[0] < 0x80 then Some(b[0])
    else if b[0] < 0xE0 then if |b| < 2 then None else Some(64 * Lead(b[0], 32) + Tail6(b[1]))
    else if b[0] < 0xF0 then
      if |b| < 3 then None else Some(4096 * Lead(b[0], 16) + 64 * Tail6(b[1]) + Tail6(b[2]))
    else if |b| < 4 then None
    else Some(26_2144 * Lead(b[0], 8) + 4096 * Tail6(b[1]) + 64 * Tail6(b[2]) + Tail6(b[3]))
  }

  // The first character; None unless it is the one valid spelling of a scalar.
  function DecodeChar(b: seq<byte>): (r: Option<Scalar>)
    ensures r.Some? ==> EncodeChar(r.value) <= b
  {
    match Spelled(b)
    case None => None
    case Some(c) => if IsScalar(c) && EncodeChar(c) <= b then Some(c) else None
  }

  function Decode(b: seq<byte>): Option<seq<Scalar>>
    decreases |b|
  {
    if b == [] then Some([])
    else match DecodeChar(b)
         case None => None
         case Some(c) => match Decode(b[|EncodeChar(c)|..])
                         case None => None
                         case Some(text) => Some([c] + text)
  }

  lemma LeadIs(top: nat, prefix: nat, size: nat)
    requires top < size && (prefix, size) in {(0xC0, 32), (0xE0, 16), (0xF0, 8)}
    ensures prefix + top < 256 && Lead(prefix + top, size) == top
  {
  }

  lemma TailIs(c: nat)
    ensures Tail6(0x80 + c % 64) == c % 64 && c == 64 * (c / 64) + c % 64
  {
  }

  lemma Nested(c: nat)
    ensures c / 4096 == c / 64 / 64 && c / 26_2144 == c / 4096 / 64
  {
  }

  lemma SpelledBack(c: Scalar, b: seq<byte>)
    requires EncodeChar(c) <= b
    ensures Spelled(b) == Some(c)
  {
    hide Lead, Tail6;
    var e := EncodeChar(c);
    assert forall k :: 0 <= k < |e| ==> b[k] == e[k];
    TailIs(c);
    TailIs(c / 64);
    TailIs(c / 4096);
    Nested(c);
    if 0x80 <= c < 0x800 {
      LeadIs(c / 64, 0xC0, 32);
    } else if 0x800 <= c < 0x1_0000 {
      LeadIs(c / 4096, 0xE0, 16);
    } else if c >= 0x1_0000 {
      LeadIs(c / 26_2144, 0xF0, 8);
    }
  }

  lemma CharRoundTrip(c: Scalar, rest: seq<byte>)
    ensures DecodeChar(EncodeChar(c) + rest) == Some(c)
  {
    var b := EncodeChar(c) + rest;
    SpelledBack(c, b);
    assert b[..|EncodeChar(c)|] == EncodeChar(c);
  }

  lemma {:induction false} TextRoundTrip(text: seq<Scalar>)
    ensures Decode(Encode(text)) == Some(text)
  {
    hide DecodeChar, EncodeChar;
    if text != [] {
      var first := EncodeChar(text[0]);
      CharRoundTrip(text[0], Encode(text[1..]));
      assert (first + Encode(text[1..]))[|first|..] == Encode(text[1..]);
      TextRoundTrip(text[1..]);
      assert text == [text[0]] + text[1..];
    }
  }

  lemma {:induction false} EncodeAppend(a: seq<Scalar>, b: seq<Scalar>)
    ensures Encode(a + b) == Encode(a) + Encode(b)
  {
    if a == [] {
      assert [] + b == b;
    } else {
      assert (a + b)[1..] == a[1..] + b;
      EncodeAppend(a[1..], b);
      Assoc(EncodeChar(a[0]), Encode(a[1..]), Encode(b));
    }
  }

  lemma EncodeOne(c: Scalar)
    ensures Encode([c]) == EncodeChar(c)
  {
    assert [c][1..] == [];
    assert Encode([]) == [];
  }

  // ----- the tokens of a text ---------------------------------------------------

  datatype Unicode = Unicode(alphanumeric: Scalar -> bool, lowercase: Scalar -> seq<Scalar>)

  predicate AsciiAlphanumeric(b: nat) { 48 <= b <= 57 || 65 <= b <= 90 || 97 <= b <= 122 }

  function AsciiLower(b: byte): byte { if 65 <= b <= 90 then b + 32 else b }

  // By their letters: what is alphanumeric, and what lowercasing makes of it.
  lemma AsciiLetters(c: char)
    requires c as int < 0x80
    ensures AsciiAlphanumeric(c as int) <==> '0' <= c <= '9' || 'A' <= c <= 'Z' || 'a' <= c <= 'z'
    ensures AsciiLower(c as int) == (if 'A' <= c <= 'Z' then c as int - 'A' as int + 'a' as int else c as int)
  {
  }

  ghost predicate AgreesOnAscii(u: Unicode) {
    forall c: Scalar :: c < 0x80 ==>
      u.alphanumeric(c) == AsciiAlphanumeric(c) && (AsciiAlphanumeric(c) ==> u.lowercase(c) == [AsciiLower(c)])
  }

  const MAX_TOKEN_LEN := 255

  // A finished run: nothing, or a token unless it is too long.
  function Flush(run: Term): (t: seq<Term>)
    ensures |t| <= 1
  {
    if run == [] || |run| > MAX_TOKEN_LEN then [] else [run]
  }

  function Lowered(c: Scalar, u: Unicode): Term { Encode(u.lowercase(c)) }

  // The tokens of `text` when the run before it is `run`.
  function TokensAfter(run: Term, text: seq<Scalar>, u: Unicode): seq<Term>
    decreases |text|
  {
    if text == [] then Flush(run)
    else if u.alphanumeric(text[0]) then TokensAfter(run + Lowered(text[0], u), text[1..], u)
    else Flush(run) + TokensAfter([], text[1..], u)
  }

  function Tokens(text: seq<Scalar>, u: Unicode): seq<Term> { TokensAfter([], text, u) }

  // A character that is not alphanumeric separates whatever is around it.
  lemma {:induction false} TokensSplit(run: Term, a: seq<Scalar>, sep: Scalar, b: seq<Scalar>, u: Unicode)
    requires !u.alphanumeric(sep)
    ensures TokensAfter(run, a + [sep] + b, u) == TokensAfter(run, a, u) + Tokens(b, u)
    decreases |a|
  {
    hide Flush, Lowered;
    var text := a + [sep] + b;
    if a == [] {
      assert text == [sep] + b && text[1..] == b;
    } else {
      assert text[0] == a[0] && text[1..] == a[1..] + [sep] + b;
      if u.alphanumeric(a[0]) {
        TokensSplit(run + Lowered(a[0], u), a[1..], sep, b, u);
      } else {
        TokensSplit([], a[1..], sep, b, u);
        Assoc(Flush(run), TokensAfter([], a[1..], u), Tokens(b, u));
      }
    }
  }

  function LowerAll(text: seq<Scalar>, u: Unicode): Term {
    if text == [] then [] else Lowered(text[0], u) + LowerAll(text[1..], u)
  }

  // A run of alphanumeric characters is one token, lowercased.
  lemma {:induction false} TokensOfRun(run: Term, text: seq<Scalar>, u: Unicode)
    requires forall i :: 0 <= i < |text| ==> u.alphanumeric(text[i])
    ensures TokensAfter(run, text, u) == Flush(run + LowerAll(text, u))
    decreases |text|
  {
    hide Flush, Lowered;
    if text == [] {
      assert run + [] == run;
    } else {
      TokensOfRun(run + Lowered(text[0], u), text[1..], u);
      Assoc(run, Lowered(text[0], u), LowerAll(text[1..], u));
    }
  }

  lemma RunToken(text: seq<Scalar>, u: Unicode)
    requires forall i :: 0 <= i < |text| ==> u.alphanumeric(text[i])
    ensures Tokens(text, u) == if 0 < |LowerAll(text, u)| <= 255 then [LowerAll(text, u)] else []
  {
    TokensOfRun([], text, u);
    assert [] + LowerAll(text, u) == LowerAll(text, u);
  }

  lemma {:induction false} TokenLengths(run: Term, text: seq<Scalar>, u: Unicode)
    ensures forall t :: t in TokensAfter(run, text, u) ==> 0 < |t| <= 255
    decreases |text|
  {
    if text != [] {
      TokenLengths(run + Lowered(text[0], u), text[1..], u);
      TokenLengths([], text[1..], u);
    }
  }

  // ----- the two tokenizers ------------------------------------------------------

  method Tokenize(text: seq<Scalar>, u: Unicode) returns (out: seq<Term>)
    ensures out == Tokens(text, u)
  {
    hide Flush;
    out := [];
    var cur: Term := [];
    assert text[0..] == text;
    for i := 0 to |text|
      invariant out + TokensAfter(cur, text[i..], u) == Tokens(text, u)
    {
      assert text[i..][1..] == text[i + 1..];
      if u.alphanumeric(text[i]) {
        var lower := u.lowercase(text[i]);
        ghost var before := cur;
        assert lower[0..] == lower && cur + Encode(lower) == before + Lowered(text[i], u);
        for k := 0 to |lower|
          invariant cur + Encode(lower[k..]) == before + Lowered(text[i], u)
        {
          assert lower[k..][1..] == lower[k + 1..];
          Assoc(cur, EncodeChar(lower[k]), Encode(lower[k + 1..]));
          cur := cur + EncodeChar(lower[k]);
        }
        assert cur + [] == cur;
      } else {
        Assoc(out, Flush(cur), TokensAfter([], text[i + 1..], u));
        NothingToFlush(cur);
        if cur != [] {
          if |cur| <= MAX_TOKEN_LEN {
            FlushShort(cur);
            out := out + [cur];
          } else {
            FlushLong(cur);
          }
          cur := [];
        }
        assert out + [] == out;
      }
    }
    NothingToFlush(cur);
    assert text[|text|..] == [];
    if cur != [] && |cur| <= MAX_TOKEN_LEN {
      FlushShort(cur);
      out := out + [cur];
    } else {
      FlushLong(cur);
      assert out + [] == out;
    }
  }

  lemma NothingToFlush(run: Term)
    ensures run == [] ==> Flush(run) == []
  {
  }

  lemma FlushShort(run: Term)
    requires run != [] && |run| <= MAX_TOKEN_LEN
    ensures Flush(run) == [run]
  {
  }

  lemma FlushLong(run: Term)
    requires run == [] || |run| > MAX_TOKEN_LEN
    ensures Flush(run) == []
  {
  }

  // Hands the scratch buffer to the callback, whose calls are collected.
  method FlushScratch(scratch: Term, out: seq<Term>) returns (out': seq<Term>)
    ensures out' == out + Flush(scratch)
  {
    out' := out;
    if scratch != [] {
      if |scratch| <= MAX_TOKEN_LEN {
        out' := out' + [scratch];
      }
    }
  }

  // One step of the byte walk at a character boundary.
  lemma ByteStep(text: seq<Scalar>, bytes: seq<byte>, u: Unicode)
    requires bytes == Encode(text) && bytes != [] && AgreesOnAscii(u)
    ensures text != [] && DecodeChar(bytes) == Some(text[0])
    ensures |EncodeChar(text[0])| <= |bytes| && bytes[|EncodeChar(text[0])|..] == Encode(text[1..])
    ensures bytes[0] < 0x80 <==> text[0] < 0x80
    ensures text[0] < 0x80 ==> text[0] == bytes[0] && |EncodeChar(text[0])| == 1
                               && u.alphanumeric(text[0]) == AsciiAlphanumeric(bytes[0])
    ensures text[0] < 0x80 && AsciiAlphanumeric(bytes[0]) ==> Lowered(text[0], u) == [AsciiLower(bytes[0])]
  {
    hide DecodeChar;
    assert text != [] by {
      assert Encode([]) == [];
    }
    CharRoundTrip(text[0], Encode(text[1..]));
    if text[0] < 0x80 && AsciiAlphanumeric(bytes[0]) {
      EncodeOne(AsciiLower(bytes[0]));
    }
  }

  // The tokens of a valid UTF-8 string, found byte by byte.
  method ForEachToken(ghost text: seq<Scalar>, bytes: seq<byte>, u: Unicode) returns (out: seq<Term>)
    requires bytes == Encode(text) && AgreesOnAscii(u)
    ensures out == Tokens(text, u)
  {
    hide Flush, Encode, EncodeChar, DecodeChar, Lowered, AgreesOnAscii;
    out := [];
    var scratch: Term := [];
    var i := 0;
    ghost var left := text;
    assert bytes[0..] == bytes && [] + TokensAfter([], text, u) == Tokens(text, u);
    while i < |bytes|
      invariant i <= |bytes| && bytes[i..] == Encode(left)
      invariant out + TokensAfter(scratch, left, u) == Tokens(text, u)
      decreases |bytes| - i
    {
      ByteStep(left, bytes[i..], u);
      Assoc(out, Flush(scratch), TokensAfter([], left[1..], u));
      var b := bytes[i];
      if b < 0x80 {
        if AsciiAlphanumeric(b) {
          scratch := scratch + [AsciiLower(b)];
        } else {
          out := FlushScratch(scratch, out);
          scratch := [];
        }
        i := i + 1;
      } else {
        var ch := DecodeChar(bytes[i..]).value;
        if u.alphanumeric(ch) {
          scratch := scratch + Encode(u.lowercase(ch));
          assert Encode(u.lowercase(ch)) == Lowered(ch, u) by { LoweredIs(ch, u); }
        } else {
          out := FlushScratch(scratch, out);
          scratch := [];
        }
        assert |EncodeChar(ch)| > 0 by { SomeBytes(ch); }
        i := i + |EncodeChar(ch)|;
      }
      left := left[1..];
    }
    EncodesNothing(left);
    out := FlushScratch(scratch, out);
  }

  lemma LoweredIs(c: Scalar, u: Unicode)
    ensures Encode(u.lowercase(c)) == Lowered(c, u)
  {
  }

  lemma SomeBytes(c: Scalar)
    ensures |EncodeChar(c)| > 0
  {
  }

  lemma EncodesNothing(text: seq<Scalar>)
    requires Encode(text) == []
    ensures text == []
  {
  }
}
