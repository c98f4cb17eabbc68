// A run longer than the 16 bits its length is stored in: the host is given less of it,
// and the field is no longer that of the lines.
module TextCut {
  import opened Bits
  import opened Wire
  import opened Lex
  import opened StatsPass
  import opened Analyzer
  import opened Inverted
  import opened ParallelBuild
  import opened TextKernel
  import opened TextRuns

  // The copyright sign, which takes two bytes and is not alphanumeric.
  const SIGN: Scalar := 0xA9

  // n signs and a letter: one line, one run of 2n + 1 bytes, one token.
  function LongRun(n: nat): seq<Scalar> { seq<Scalar>(n, _ => SIGN) + [97] }

  ghost predicate Signs(b: seq<byte>) {
    forall k :: 0 <= k < |b| ==> b[k] == if k % 2 == 0 then 0xC2 else 0xA9
  }

  lemma OneByte()
    ensures Encode(LongRun(0)) == [97]
  {
    EncodeOne(97);
    assert LongRun(0) == [97];
  }

  lemma NextSign(n: nat)
    requires n > 0
    ensures Encode(LongRun(n)) == [0xC2, 0xA9] + Encode(LongRun(n - 1))
  {
    assert LongRun(n)[1..] == LongRun(n - 1);
  }

  lemma {:induction false} LongBytes(n: nat)
    ensures var b := Encode(LongRun(n)); |b| == 2 * n + 1 && Signs(b[..2 * n]) && b[2 * n] == 97
  {
    hide Encode, LongRun;
    var b := Encode(LongRun(n));
    if n == 0 {
      OneByte();
    } else {
      LongBytes(n - 1);
      NextSign(n);
      var rest := Encode(LongRun(n - 1));
      forall k | 0 <= k < 2 * n ensures b[k] == if k % 2 == 0 then 0xC2 else 0xA9 {
        if k >= 2 {
          assert b[k] == rest[k - 2] == rest[..2 * (n - 1)][k - 2];
        }
      }
      assert b[2 * n] == rest[2 * (n - 1)];
    }
  }

  // Cut inside a sign, it is not UTF-8.
  lemma {:induction false} OddCut(b: seq<byte>)
    requires Signs(b) && |b| % 2 == 1
    ensures Decode(b) == None
    decreases |b|
  {
    if |b| == 1 {
      assert b == [0xC2];
      assert Spelled(b) == None;
    } else {
      assert b[0] == 0xC2 && b[1] == 0xA9;
      assert Spelled(b) == Some(SIGN);
      assert b == [0xC2, 0xA9] + b[2..];
      assert DecodeChar(b) == Some(SIGN);
      OddCut(b[2..]);
    }
  }

  ghost predicate OneRun(text: seq<byte>) {
    |text| > 0 && forall k :: 0 <= k < |text| ==> Tokenish(text[k])
  }

  lemma LongIsOneRun(n: nat)
    requires n > 0
    ensures var text := Encode(LongRun(n));
            OneRun(text) && RunEnd(text, 0) == |text| == 2 * n + 1 && Dirty(text, 0) && NumDocs(text) == 1
  {
    hide Encode, LongRun, RunEnd, DocAt;
    LongBytes(n);
    var text := Encode(LongRun(n));
    forall k | 0 <= k < |text| ensures Tokenish(text[k]) && text[k] != NEWLINE {
      assert k < 2 * n ==> text[k] == text[..2 * n][k];
    }
    assert text[0] == text[..2 * n][0];
    RunEndsAt(text, 0, |text|);
    OneDoc(text, |text| - 1);
  }

  lemma {:induction false} OneDoc(text: seq<byte>, i: nat)
    requires i <= |text| && forall k :: 0 <= k < |text| ==> text[k] != NEWLINE
    ensures DocAt(text, i) == 0
    decreases i
  {
    if i > 0 {
      OneDoc(text, i - 1);
    }
  }

  lemma {:induction false} NothingLater(text: seq<byte>, i: nat, u: Unicode)
    requires OneRun(text) && i > 0
    ensures AllStoredPairs(text, i, u) == []
    decreases |text| - i
  {
    hide Tokenish, TermAt, DocAt, RunEnd, HasWide, SpanTokens;
    if i < |text| {
      NothingLater(text, i + 1, u);
    }
  }

  lemma NothingStored(n: nat, u: Unicode)
    requires n >= 0x8000
    ensures AllStoredPairs(Encode(LongRun(n)), 0, u) == []
  {
    hide Encode, LongRun, RunEnd, HasWide, Decode, DocAt, TermAt;
    LongBytes(n);
    LongIsOneRun(n);
    var text := Encode(LongRun(n));
    var span := text[0..SpanEnd(text, 0)];
    assert |span| == 0xFFFF;
    forall k | 0 <= k < |span| ensures span[k] == if k % 2 == 0 then 0xC2 else 0xA9 {
      assert span[k] == text[..2 * n][k];
    }
    OddCut(span);
    NothingLater(text, 1, u);
  }

  lemma {:induction false} OneToken(n: nat, u: Unicode)
    requires AgreesOnAscii(u) && !u.alphanumeric(SIGN)
    ensures Tokens(LongRun(n), u) == [[97]]
  {
    var text := LongRun(n);
    if n == 0 {
      LowerOne(97, u);
      assert text == [97] && text[1..] == [];
      assert TokensAfter([] + Lowered(97, u), [], u) == Flush([97]);
    } else {
      OneToken(n - 1, u);
      assert text[1..] == LongRun(n - 1);
    }
  }

  lemma OneLine(n: nat)
    ensures Lines(LongRun(n)) == [LongRun(n)]
  {
    hide FirstNewline;
  }

  lemma Different(f: InvertedField)
    ensures IsInverted(f, [[]]) ==> !IsInverted(f, [[[97]]])
  {
    var a: seq<seq<Term>>, b: seq<seq<Term>> := [[]], [[[97]]];
    assert a[1..] == [] && b[1..] == [];
    assert Flatten(a) == [] && Flatten(b) == [[97]];
    var one: seq<Term> := [[97]];
    assert one[1..] == [];
    assert DictOf(a) == [] && DictOf(b) == [[97]];
    PushedKeeps(U64, NO_TERMS, DictOf(a));
    PushedKeeps(U64, NO_TERMS, DictOf(b));
  }

  // The lines hold a token; the documents the host builds hold none, and no field is that
  // of both.
  lemma CutSpan(n: nat, u: Unicode, f: InvertedField)
    requires n >= 0x8000 && AgreesOnAscii(u) && !u.alphanumeric(SIGN)
    ensures !SpansShort(Encode(LongRun(n)))
    ensures StoredDocs(Encode(LongRun(n)), u) == [[]] && TokensOf(Lines(LongRun(n)), u) == [[[97]]]
    ensures IsInverted(f, StoredDocs(Encode(LongRun(n)), u)) ==> !IsInverted(f, TokensOf(Lines(LongRun(n)), u))
  {
    hide Encode, LongRun, Dirty, RunEnd, AllStoredPairs, NumDocs, IsInverted, Lines, Tokens, AgreesOnAscii;
    var text := Encode(LongRun(n));
    LongIsOneRun(n);
    NothingStored(n, u);
    assert StoredDocs(text, u)[0] == [];
    OneToken(n, u);
    OneLine(n);
    assert TokensOf(Lines(LongRun(n)), u)[0] == [[97]];
    Different(f);
  }
}
