// A corpus is lines; its tokens can be found run by run. A run of alphanumeric
// ASCII and non-ASCII bytes never crosses a line or splits a character, so the
// bytes of a run are tokenized on their own.
module TextRuns {
  import opened Bits
  import opened Lex
  import opened StatsPass
  import opened Analyzer
  import opened Inverted
  import opened ParallelBuild
  import opened TextKernel

  const NEWLINE := 10

  function FirstNewline(text: seq<Scalar>): (k: nat)
    ensures k <= |text| && (k < |text| ==> text[k] == NEWLINE) && forall j :: 0 <= j < k ==> text[j] != NEWLINE
  {
    if text == [] || text[0] == NEWLINE then 0 else 1 + FirstNewline(text[1..])
  }

  // The documents: every line with its newline; a newline at the very end starts
  // no further one.
  function Lines(text: seq<Scalar>): seq<seq<Scalar>>
    decreases |text|
  {
    var k := FirstNewline(text);
    if k + 1 >= |text| then [text] else [text[..k + 1]] + Lines(text[k + 1..])
  }

  // Laid end to end the lines are the text; no line has a newline before its end, and all but
  // the last end in one.
  lemma {:induction false} LinesMeaning(text: seq<Scalar>, i: nat, k: nat)
    requires i < |Lines(text)| && k < |Lines(text)[i]|
    ensures Flatten(Lines(text)) == text
    ensures k + 1 < |Lines(text)[i]| ==> Lines(text)[i][k] != 10
    ensures k + 1 == |Lines(text)[i]| && i + 1 < |Lines(text)| ==> Lines(text)[i][k] == 10
    decreases |text|
  {
    hide FirstNewline;
    var n := FirstNewline(text);
    if n + 1 < |text| {
      var head, rest := text[..n + 1], text[n + 1..];
      assert Lines(text)[1..] == Lines(rest);
      LinesJoin(rest);
      assert text == head + rest;
      if i > 0 {
        LinesMeaning(rest, i - 1, k);
      }
    } else {
      LinesJoin(text);
    }
  }

  lemma {:induction false} LinesJoin(text: seq<Scalar>)
    ensures Flatten(Lines(text)) == text
    decreases |text|
  {
    hide FirstNewline;
    var n := FirstNewline(text);
    if n + 1 < |text| {
      LinesJoin(text[n + 1..]);
      assert Lines(text)[1..] == Lines(text[n + 1..]);
    } else {
      assert [text][1..] == [];
    }
  }

  function CharRun(text: seq<Scalar>): (k: nat)
    ensures k <= |text| && (k < |text| ==> !Tokenish(text[k])) && forall j :: 0 <= j < k ==> Tokenish(text[j])
    ensures text != [] && Tokenish(text[0]) ==> k > 0
  {
    if text == [] || !Tokenish(text[0]) then 0 else 1 + CharRun(text[1..])
  }

  // The tokens of `text` run by run, counting documents by newlines.
  function CorpusPairs(text: seq<Scalar>, doc: nat, u: Unicode): seq<(Term, nat)>
    decreases |text|
  {
    if text == [] then []
    else if !Tokenish(text[0]) then CorpusPairs(text[1..], if text[0] == NEWLINE then doc + 1 else doc, u)
    else
      var k := CharRun(text);
      DocPairs(Tokens(text[..k], u), doc) + CorpusPairs(text[k..], doc, u)
  }

  // ----- lines ----------------------------------------------------------------------

  lemma SeparatorNotAlphanumeric(c: Scalar, u: Unicode)
    requires AgreesOnAscii(u) && !Tokenish(c)
    ensures !u.alphanumeric(c)
  {
  }

  lemma LeadingSeparator(text: seq<Scalar>, u: Unicode)
    requires text != [] && !u.alphanumeric(text[0])
    ensures Tokens(text, u) == Tokens(text[1..], u)
  {
    assert Flush([]) == [];
  }

  lemma NoTokens(u: Unicode)
    ensures Tokens([], u) == []
  {
  }

  lemma FirstRun(text: seq<Scalar>, u: Unicode)
    requires AgreesOnAscii(u) && text != [] && Tokenish(text[0])
    ensures Tokens(text, u) == Tokens(text[..CharRun(text)], u) + Tokens(text[CharRun(text)..], u)
  {
    hide Tokenish, AgreesOnAscii, TokensAfter, CharRun;
    var k := CharRun(text);
    if k < |text| {
      SeparatorNotAlphanumeric(text[k], u);
      assert text == text[..k] + [text[k]] + text[k + 1..];
      TokensSplit([], text[..k], text[k], text[k + 1..], u);
      LeadingSeparator(text[k..], u);
      assert text[k..][1..] == text[k + 1..];
    } else {
      assert text[..k] == text && text[k..] == [];
      NoTokens(u);
    }
  }

  lemma DocPairsAppend(a: seq<Term>, b: seq<Term>, doc: nat)
    ensures DocPairs(a + b, doc) == DocPairs(a, doc) + DocPairs(b, doc)
  {
  }

  lemma {:induction false} CharRunAppend(a: seq<Scalar>, tail: seq<Scalar>)
    requires tail == [] || !Tokenish(tail[0])
    ensures CharRun(a + tail) == CharRun(a)
    decreases |a|
  {
    hide Tokenish;
    if a == [] {
      assert a + tail == tail;
    } else {
      assert (a + tail)[1..] == a[1..] + tail;
      CharRunAppend(a[1..], tail);
    }
  }

  // A stretch without newlines belongs to one document.
  lemma {:induction false} OneDocument(a: seq<Scalar>, tail: seq<Scalar>, doc: nat, u: Unicode)
    requires AgreesOnAscii(u) && (forall j :: 0 <= j < |a| ==> a[j] != NEWLINE) && (tail == [] || !Tokenish(tail[0]))
    ensures CorpusPairs(a + tail, doc, u) == DocPairs(Tokens(a, u), doc) + CorpusPairs(tail, doc, u)
    decreases |a|
  {
    hide Tokenish, AgreesOnAscii, Tokens, CharRun, DocPairs;
    if a == [] {
      NoTokens(u);
      NoPairs(doc);
      assert a + tail == tail;
    } else if !Tokenish(a[0]) {
      SeparatorNotAlphanumeric(a[0], u);
      LeadingSeparator(a, u);
      assert (a + tail)[1..] == a[1..] + tail;
      OneDocument(a[1..], tail, doc, u);
    } else {
      var k := CharRun(a);
      CharRunAppend(a, tail);
      FirstRun(a, u);
      DocPairsAppend(Tokens(a[..k], u), Tokens(a[k..], u), doc);
      assert (a + tail)[..k] == a[..k] && (a + tail)[k..] == a[k..] + tail;
      OneDocument(a[k..], tail, doc, u);
    }
  }

  lemma NoPairs(doc: nat)
    ensures DocPairs([], doc) == []
  {
  }

  lemma NewlineSeparates()
    ensures !Tokenish(NEWLINE)
  {
  }

  lemma TrailingNewline(a: seq<Scalar>, u: Unicode)
    requires AgreesOnAscii(u)
    ensures Tokens(a + [NEWLINE], u) == Tokens(a, u)
  {
    assert a + [NEWLINE] == a + [NEWLINE] + [];
    SeparatorNotAlphanumeric(NEWLINE, u);
    TokensSplit([], a, NEWLINE, [], u);
    NoTokens(u);
  }

  lemma NewlineStep(rest: seq<Scalar>, doc: nat, u: Unicode)
    ensures CorpusPairs([NEWLINE] + rest, doc, u) == CorpusPairs(rest, doc + 1, u)
  {
    assert ([NEWLINE] + rest)[1..] == rest;
  }

  // Run by run or line by line: the same tokens in the same documents.
  lemma {:induction false} LinePairs(text: seq<Scalar>, doc: nat, u: Unicode)
    requires AgreesOnAscii(u)
    ensures CorpusPairs(text, doc, u) == TokenPairs(TokensOf(Lines(text), u), doc)
    decreases |text|
  {
    hide Tokenish, AgreesOnAscii, Tokens, CharRun, DocPairs, CorpusPairs, FirstNewline, TokenPairs;
    var k := FirstNewline(text);
    if k == |text| {
      assert text + [] == text;
      OneDocument(text, [], doc, u);
      LastLine(text, doc, u);
    } else {
      var a, rest := text[..k], text[k + 1..];
      assert text == a + ([NEWLINE] + rest) && text[..k + 1] == a + [NEWLINE];
      NewlineSeparates();
      OneDocument(a, [NEWLINE] + rest, doc, u);
      NewlineStep(rest, doc, u);
      TrailingNewline(a, u);
      if rest == [] {
        assert a + [NEWLINE] == text;
        LastLine(text, doc, u);
        NothingLeft(doc + 1, u);
      } else {
        LinePairs(rest, doc + 1, u);
        assert TokensOf(Lines(text), u) == [Tokens(text[..k + 1], u)] + TokensOf(Lines(rest), u);
        FirstLine(Tokens(a, u), TokensOf(Lines(rest), u), doc);
      }
    }
  }

  lemma LastLine(text: seq<Scalar>, doc: nat, u: Unicode)
    ensures TokenPairs(TokensOf([text], u), doc) == DocPairs(Tokens(text, u), doc)
    ensures CorpusPairs([], doc, u) == []
  {
    hide Tokens, DocPairs;
    assert TokensOf([text], u) == [Tokens(text, u)];
    TokenPairsOne(Tokens(text, u), doc);
  }

  lemma NothingLeft(doc: nat, u: Unicode)
    ensures CorpusPairs([], doc, u) == []
  {
  }

  lemma FirstLine(tokens: seq<Term>, rest: seq<seq<Term>>, doc: nat)
    ensures TokenPairs([tokens] + rest, doc) == DocPairs(tokens, doc) + TokenPairs(rest, doc + 1)
  {
    assert ([tokens] + rest)[1..] == rest;
  }

  // ----- runs of bytes ----------------------------------------------------------------

  function SpanTokens(span: seq<byte>, u: Unicode): seq<Term> {
    match Decode(span) case Some(chars) => Tokens(chars, u) case None => []
  }

  // What the run at i contributes.
  function RunPairs(text: seq<byte>, i: nat, u: Unicode): seq<(Term, nat)> {
    if Clean(text, i) then [(TermAt(text, i), DocAt(text, i))]
    else if Dirty(text, i) then DocPairs(SpanTokens(text[i..RunEnd(text, i)], u), DocAt(text, i))
    else []
  }

  function AllRunPairs(text: seq<byte>, i: nat, u: Unicode): seq<(Term, nat)>
    decreases |text| - i
  {
    if i >= |text| then [] else RunPairs(text, i, u) + AllRunPairs(text, i + 1, u)
  }

  lemma {:induction false} RunEndsAt(text: seq<byte>, i: nat, e: nat)
    requires i <= e <= |text| && (forall j :: i <= j < e ==> Tokenish(text[j])) && (e < |text| ==> !Tokenish(text[e]))
    ensures RunEnd(text, i) == e
    decreases e - i
  {
    hide Tokenish;
    if i < e {
      RunEndsAt(text, i + 1, e);
    }
  }

  // Inside a run nothing starts.
  lemma {:induction false} SkipRun(text: seq<byte>, i: nat, e: nat, u: Unicode)
    requires 0 < i <= e <= |text| && forall j :: i - 1 <= j < e ==> Tokenish(text[j])
    ensures AllRunPairs(text, i, u) == AllRunPairs(text, e, u) && DocAt(text, i) == DocAt(text, e)
    decreases e - i
  {
    hide RunEnd, HasWide, TermAt, SpanTokens;
    if i < e {
      SkipRun(text, i + 1, e, u);
    }
  }

  lemma {:induction false} EncodedBytes(chars: seq<Scalar>, j: nat)
    requires (forall k :: 0 <= k < |chars| ==> Tokenish(chars[k])) && j < |Encode(chars)|
    ensures Tokenish(Encode(chars)[j])
    decreases |chars|
  {
    if chars != [] {
      var first := EncodeChar(chars[0]);
      if j >= |first| {
        EncodedBytes(chars[1..], j - |first|);
      }
    }
  }

  lemma {:induction false} AsciiBytes(chars: seq<Scalar>)
    requires forall k :: 0 <= k < |chars| ==> chars[k] < 0x80
    ensures Encode(chars) == chars
    decreases |chars|
  {
    if chars != [] {
      AsciiBytes(chars[1..]);
      assert chars == [chars[0]] + chars[1..];
    }
  }

  lemma {:induction false} WideByte(chars: seq<Scalar>, k: nat) returns (j: nat)
    requires k < |chars| && chars[k] >= 0x80
    ensures j < |Encode(chars)| && Encode(chars)[j] >= 0x80
    decreases |chars|
  {
    var first := EncodeChar(chars[0]);
    if k == 0 {
      j := 0;
    } else {
      var i := WideByte(chars[1..], k - 1);
      j := |first| + i;
    }
  }

  lemma {:induction false} LowerAscii(chars: seq<Scalar>, u: Unicode)
    requires AgreesOnAscii(u) && forall k :: 0 <= k < |chars| ==> chars[k] < 0x80 && Tokenish(chars[k])
    ensures LowerAll(chars, u) == seq<byte>(|chars|, k requires 0 <= k < |chars| => AsciiLower(chars[k]))
    ensures forall k :: 0 <= k < |chars| ==> u.alphanumeric(chars[k])
    decreases |chars|
  {
    if chars != [] {
      LowerAscii(chars[1..], u);
      EncodeOne(AsciiLower(chars[0]));
      LowerOne(chars[0], u);
      assert LowerAll(chars, u) == [AsciiLower(chars[0])] + LowerAll(chars[1..], u);
    }
  }

  lemma LowerOne(c: Scalar, u: Unicode)
    requires AgreesOnAscii(u) && c < 0x80 && Tokenish(c)
    ensures u.alphanumeric(c) && Lowered(c, u) == [AsciiLower(c)]
  {
    EncodeOne(AsciiLower(c));
  }

  // A run of characters and its bytes.
  ghost predicate RunOfChars(text: seq<byte>, i: nat, e: nat, chars: seq<Scalar>) {
    && i < e <= |text| && text[i..e] == Encode(chars) && StartsRun(text, i) && RunEnd(text, i) == e
    && forall k :: 0 <= k < |chars| ==> Tokenish(chars[k])
  }

  lemma ByteOfRun(text: seq<byte>, i: nat, e: nat, chars: seq<Scalar>, j: nat)
    requires RunOfChars(text, i, e, chars) && j < |Encode(chars)|
    ensures i + j < e && text[i + j] == Encode(chars)[j]
  {
    assert text[i + j] == text[i..e][j];
  }

  lemma CleanRun(text: seq<byte>, i: nat, e: nat, chars: seq<Scalar>, u: Unicode)
    requires AgreesOnAscii(u) && RunOfChars(text, i, e, chars) && !HasWide(text, i, e)
    ensures Tokens(chars, u) == if e - i <= MAX_TOKEN_LEN then [TermAt(text, i)] else []
  {
    hide AgreesOnAscii, Tokenish, DocAt, LowerAll, TermAt, RunEnd, Encode;
    forall k | 0 <= k < |chars| ensures chars[k] < 0x80 {
      if chars[k] >= 0x80 {
        var j := WideByte(chars, k);
        ByteOfRun(text, i, e, chars, j);
      }
    }
    CleanTerm(text, i, e, chars, u);
    TokensOfRun([], chars, u);
    assert [] + LowerAll(chars, u) == LowerAll(chars, u);
  }

  lemma CleanTerm(text: seq<byte>, i: nat, e: nat, chars: seq<Scalar>, u: Unicode)
    requires AgreesOnAscii(u) && RunOfChars(text, i, e, chars)
    requires forall k :: 0 <= k < |chars| ==> chars[k] < 0x80
    ensures TermAt(text, i) == LowerAll(chars, u) && |TermAt(text, i)| == e - i
    ensures forall k :: 0 <= k < |chars| ==> u.alphanumeric(chars[k])
  {
    hide AgreesOnAscii, Tokenish, DocAt, LowerAll;
    AsciiBytes(chars);
    LowerAscii(chars, u);
    var term := TermAt(text, i);
    assert |term| == |chars| == e - i;
    forall k | 0 <= k < |term| ensures term[k] == LowerAll(chars, u)[k] {
      assert text[i + k] == text[i..e][k] == chars[k];
    }
  }

  lemma RunContributes(text: seq<byte>, i: nat, e: nat, chars: seq<Scalar>, u: Unicode)
    requires AgreesOnAscii(u) && RunOfChars(text, i, e, chars)
    ensures RunPairs(text, i, u) == DocPairs(Tokens(chars, u), DocAt(text, i))
  {
    hide AgreesOnAscii, Tokenish, DocAt, Tokens, TermAt, HasWide, Encode, Decode;
    if HasWide(text, i, e) {
      TextRoundTrip(chars);
    } else {
      CleanRun(text, i, e, chars, u);
    }
  }

  // Bytes and characters in step.
  ghost predicate InStep(text: seq<byte>, i: nat, chars: seq<Scalar>) {
    && i <= |text| && text[i..] == Encode(chars)
    && (i == 0 || !Tokenish(text[i - 1]) || i == |text| || !Tokenish(text[i]))
  }

  lemma FirstBytes(text: seq<byte>, i: nat, chars: seq<Scalar>)
    requires i <= |text| && text[i..] == Encode(chars) && chars != []
    ensures i < |text| && (Tokenish(text[i]) <==> Tokenish(chars[0])) && (text[i] == NEWLINE <==> chars[0] == NEWLINE)
    ensures !Tokenish(chars[0]) ==> text[i + 1..] == Encode(chars[1..])
  {
    assert text[i] == text[i..][0];
    if !Tokenish(chars[0]) {
      assert text[i + 1..] == text[i..][1..];
    }
  }

  lemma RunFound(text: seq<byte>, i: nat, chars: seq<Scalar>)
    requires InStep(text, i, chars) && chars != [] && Tokenish(chars[0])
    ensures var k := CharRun(chars); var e := i + |Encode(chars[..k])|;
            && RunOfChars(text, i, e, chars[..k]) && InStep(text, e, chars[k..])
            && forall j :: i <= j < e ==> Tokenish(text[j])
  {
    hide Tokenish, Encode, CharRun, RunEnd;
    var k := CharRun(chars);
    var a, rest := chars[..k], chars[k..];
    var e := i + |Encode(a)|;
    assert chars == a + rest;
    EncodeAppend(a, rest);
    FirstBytes(text, i, chars);
    assert text[i..e] == text[i..][..|Encode(a)|] == Encode(a);
    assert text[e..] == text[i..][|Encode(a)|..] == Encode(rest);
    forall j | i <= j < e ensures Tokenish(text[j]) {
      EncodedBytes(a, j - i);
      assert text[j] == text[i..e][j - i];
    }
    SomeBytesAll(a);
    if rest != [] {
      FirstBytes(text, e, rest);
    } else {
      EncodesEmpty();
    }
    RunEndsAt(text, i, e);
  }

  lemma SomeBytesAll(chars: seq<Scalar>)
    ensures chars != [] ==> |Encode(chars)| > 0
  {
  }

  lemma EncodesEmpty()
    ensures Encode([]) == []
  {
  }

  lemma AllStep(text: seq<byte>, i: nat, u: Unicode)
    requires i < |text|
    ensures AllRunPairs(text, i, u) == RunPairs(text, i, u) + AllRunPairs(text, i + 1, u)
    ensures !Tokenish(text[i]) ==> RunPairs(text, i, u) == []
    ensures DocAt(text, i + 1) == DocAt(text, i) + if text[i] == NEWLINE then 1 else 0
  {
    hide RunEnd, HasWide, TermAt, SpanTokens;
  }

  // The byte runs give the pairs of the characters.
  lemma {:induction false} ByteRuns(text: seq<byte>, i: nat, chars: seq<Scalar>, u: Unicode)
    requires AgreesOnAscii(u) && InStep(text, i, chars)
    ensures AllRunPairs(text, i, u) == CorpusPairs(chars, DocAt(text, i), u)
    decreases |chars|
  {
    hide AgreesOnAscii, Tokenish, DocAt, Tokens, Encode, CharRun, RunPairs, DocPairs, AllRunPairs, RunOfChars;
    if chars == [] {
      EncodesEmpty();
      NoRuns(text, u);
    } else {
      FirstBytes(text, i, chars);
      AllStep(text, i, u);
      if !Tokenish(chars[0]) {
        ByteRuns(text, i + 1, chars[1..], u);
        assert [] + AllRunPairs(text, i + 1, u) == AllRunPairs(text, i + 1, u);
      } else {
        var k := CharRun(chars);
        var e := i + |Encode(chars[..k])|;
        RunFound(text, i, chars);
        RunSpan(text, i, e, chars[..k]);
        RunContributes(text, i, e, chars[..k], u);
        SkipRun(text, i + 1, e, u);
        SameDoc(text, i);
        ByteRuns(text, e, chars[k..], u);
      }
    }
  }

  lemma NoRuns(text: seq<byte>, u: Unicode)
    ensures AllRunPairs(text, |text|, u) == []
  {
  }

  lemma RunSpan(text: seq<byte>, i: nat, e: nat, chars: seq<Scalar>)
    requires RunOfChars(text, i, e, chars)
    ensures i < e <= |text|
  {
  }

  lemma SameDoc(text: seq<byte>, i: nat)
    requires i < |text| && Tokenish(text[i])
    ensures DocAt(text, i + 1) == DocAt(text, i)
  {
  }

  // The corpus, run by run.
  lemma CorpusRuns(corpus: seq<Scalar>, u: Unicode)
    requires AgreesOnAscii(u)
    ensures AllRunPairs(Encode(corpus), 0, u) == TokenPairs(TokensOf(Lines(corpus), u), 0)
  {
    hide AllRunPairs, CorpusPairs, TokenPairs, TokensOf, Lines;
    ByteRuns(Encode(corpus), 0, corpus, u);
    LinePairs(corpus, 0, u);
  }

  // ----- what the host is given -----------------------------------------------------------

  // Where the span of a run left to the host ends: its length is stored in 16 bits.
  function SpanEnd(text: seq<byte>, i: nat): (e: nat)
    ensures i <= e <= RunEnd(text, i)
  {
    if RunEnd(text, i) - i < 0xFFFF then RunEnd(text, i) else i + 0xFFFF
  }

  // No run left to the host is longer than that.
  ghost predicate SpansShort(text: seq<byte>) {
    forall i :: Dirty(text, i) ==> RunEnd(text, i) - i <= 0xFFFF
  }

  // What the run at i comes to: a longer span is cut, and one cut inside a character is
  // passed over.
  function StoredPairs(text: seq<byte>, i: nat, u: Unicode): seq<(Term, nat)> {
    if Clean(text, i) then [(TermAt(text, i), DocAt(text, i))]
    else if Dirty(text, i) then DocPairs(SpanTokens(text[i..SpanEnd(text, i)], u), DocAt(text, i))
    else []
  }

  function AllStoredPairs(text: seq<byte>, i: nat, u: Unicode): seq<(Term, nat)>
    decreases |text| - i
  {
    if i >= |text| then [] else StoredPairs(text, i, u) + AllStoredPairs(text, i + 1, u)
  }

  // Short spans are stored whole.
  lemma {:induction false} StoredRuns(text: seq<byte>, i: nat, u: Unicode)
    requires SpansShort(text)
    ensures AllStoredPairs(text, i, u) == AllRunPairs(text, i, u)
    decreases |text| - i
  {
    hide SpanTokens, TermAt, DocAt, RunEnd, HasWide;
    if i < |text| {
      StoredRuns(text, i + 1, u);
    }
  }

  // The tokens of document d, in order.
  function TokensIn(pairs: seq<(Term, nat)>, d: nat): seq<Term> {
    if pairs == [] then []
    else TokensIn(pairs[..|pairs| - 1], d) + if pairs[|pairs| - 1].1 == d then [pairs[|pairs| - 1].0] else []
  }

  // The documents the host builds.
  function StoredDocs(text: seq<byte>, u: Unicode): (docs: seq<seq<Term>>)
    ensures |docs| == NumDocs(text)
  {
    seq<seq<Term>>(NumDocs(text), d requires 0 <= d < NumDocs(text) => TokensIn(AllStoredPairs(text, 0, u), d))
  }

  lemma {:induction false} TokensInAppend(a: seq<(Term, nat)>, b: seq<(Term, nat)>, d: nat)
    ensures TokensIn(a + b, d) == TokensIn(a, d) + TokensIn(b, d)
    decreases |b|
  {
    if b == [] {
      assert a + b == a;
    } else {
      assert (a + b)[..|a + b| - 1] == a + b[..|b| - 1];
      TokensInAppend(a, b[..|b| - 1], d);
    }
  }

  lemma {:induction false} TokensInOne(tokens: seq<Term>, doc: nat, d: nat)
    ensures TokensIn(DocPairs(tokens, doc), d) == if d == doc then tokens else []
    decreases |tokens|
  {
    if tokens != [] {
      var n := |tokens| - 1;
      assert DocPairs(tokens, doc)[..n] == DocPairs(tokens[..n], doc);
      TokensInOne(tokens[..n], doc, d);
      assert tokens == tokens[..n] + [tokens[n]];
    }
  }

  lemma {:induction false} TokensOfPairs(docs: seq<seq<Term>>, base: nat, d: nat)
    ensures TokensIn(TokenPairs(docs, base), d) == if base <= d < base + |docs| then docs[d - base] else []
    decreases |docs|
  {
    hide DocPairs;
    if docs != [] {
      TokensInAppend(DocPairs(docs[0], base), TokenPairs(docs[1..], base + 1), d);
      TokensInOne(docs[0], base, d);
      TokensOfPairs(docs[1..], base + 1, d);
    }
  }

  lemma TokensInOnePair(p: (Term, nat), d: nat, t: Term)
    ensures multiset(if p.1 == d then [p.0] else [])[t] == multiset([p])[(t, d)]
  {
    assert multiset([p])[p] == 1;
  }

  lemma {:induction false} TokensInCounts(pairs: seq<(Term, nat)>, d: nat, t: Term)
    ensures multiset(TokensIn(pairs, d))[t] == multiset(pairs)[(t, d)]
    decreases |pairs|
  {
    if pairs != [] {
      var n := |pairs| - 1;
      TokensInCounts(pairs[..n], d, t);
      TokensInOnePair(pairs[n], d, t);
      assert pairs == pairs[..n] + [pairs[n]];
      assert TokensIn(pairs, d) == TokensIn(pairs[..n], d) + if pairs[n].1 == d then [pairs[n].0] else [];
    }
  }

  // Documents that hold what is stored, whatever its order.
  ghost predicate HoldStored(text: seq<byte>, docs: seq<seq<Term>>, u: Unicode) {
    |docs| == NumDocs(text) && multiset(TokenPairs(docs, 0)) == multiset(AllStoredPairs(text, 0, u))
  }

  lemma {:induction false} StoredInRange(text: seq<byte>, i: nat, u: Unicode, p: (Term, nat))
    requires p in AllStoredPairs(text, i, u)
    ensures p.1 < NumDocs(text)
    decreases |text| - i
  {
    hide SpanTokens, TermAt, DocAt, RunEnd, HasWide, NumDocs;
    if p in StoredPairs(text, i, u) {
      DocInRange(text, i);
    } else {
      StoredInRange(text, i + 1, u, p);
    }
  }

  lemma StoredDocsHold(text: seq<byte>, u: Unicode)
    ensures HoldStored(text, StoredDocs(text, u), u)
  {
    hide AllStoredPairs, NumDocs, TokensIn, TokenPairs;
    var docs, pairs := StoredDocs(text, u), AllStoredPairs(text, 0, u);
    forall p: (Term, nat) ensures multiset(TokenPairs(docs, 0))[p] == multiset(pairs)[p] {
      PairCounts(docs, 0, p.0, p.1);
      if p.1 < |docs| {
        TokensInCounts(pairs, p.1, p.0);
      } else if p in pairs {
        StoredInRange(text, 0, u, p);
      }
    }
  }

  // With short spans they are the lines' own tokens.
  lemma StoredLines(corpus: seq<Scalar>, u: Unicode)
    requires AgreesOnAscii(u) && SpansShort(Encode(corpus)) && |Lines(corpus)| == NumDocs(Encode(corpus))
    ensures StoredDocs(Encode(corpus), u) == TokensOf(Lines(corpus), u)
  {
    hide AllStoredPairs, AllRunPairs, NumDocs, TokensIn, TokenPairs, Encode, Lines, Tokens, AgreesOnAscii;
    var text, docs := Encode(corpus), TokensOf(Lines(corpus), u);
    StoredRuns(text, 0, u);
    CorpusRuns(corpus, u);
    forall d | 0 <= d < |docs| ensures StoredDocs(text, u)[d] == docs[d] {
      TokensOfPairs(docs, 0, d);
    }
  }
}
