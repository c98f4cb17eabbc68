// The parallel builder: documents in contiguous parts, a vocabulary of local ids
// per part, then global ords and the shared row builder. Equal to the serial
// builder for every number of threads.
module ParallelBuild {
  import opened Bits
  import opened Wire
  import opened Lex
  import opened StatsPass
  import opened Analyzer
  import opened Csr
  import opened Inverted
  import opened IndexBuild

  datatype Local = Local(vocab: map<Term, nat>, keys: seq<(nat, nat)>, norms: seq<byte>, docBase: nat)

  function TokensOf(lines: seq<seq<Scalar>>, u: Unicode): (t: seq<seq<Term>>)
    ensures |t| == |lines|
  {
    seq(|lines|, i requires 0 <= i < |lines| => Tokens(lines[i], u))
  }

  // The keys are the pairs, with local ids for terms.
  ghost predicate Interned(vocab: map<Term, nat>, keys: seq<(nat, nat)>, pairs: seq<(Term, nat)>) {
    && |keys| == |pairs| && DistinctIds(vocab, |vocab|)
    && (forall j :: 0 <= j < |pairs| ==> pairs[j].0 in vocab && keys[j] == (vocab[pairs[j].0], pairs[j].1))
    && (forall t :: t in vocab ==> Met(pairs, t))
  }

  ghost predicate Met(pairs: seq<(Term, nat)>, t: Term) {
    exists j :: 0 <= j < |pairs| && pairs[j].0 == t
  }

  ghost predicate IsLocal(l: Local, docs: seq<seq<Term>>, docBase: nat) {
    l.docBase == docBase && l.norms == Norms(docs) && Interned(l.vocab, l.keys, TokenPairs(docs, docBase))
  }

  method Intern(vocab: map<Term, nat>, keys: seq<(nat, nat)>, ghost pairs: seq<(Term, nat)>, t: Term, doc: nat)
    returns (vocab': map<Term, nat>, keys': seq<(nat, nat)>)
    requires Interned(vocab, keys, pairs)
    ensures Interned(vocab', keys', pairs + [(t, doc)])
  {
    var next := |vocab|;
    vocab' := if t in vocab then vocab else vocab[t := next];
    keys' := keys + [(vocab'[t], doc)];
    ghost var all := pairs + [(t, doc)];
    assert all[|pairs|].0 == t;
    forall s | s in vocab' ensures Met(all, s) {
      if s != t {
        var j :| 0 <= j < |pairs| && pairs[j].0 == s;
        assert all[j].0 == s;
      }
    }
  }

  lemma DocPairsSnoc(tokens: seq<Term>, k: nat, doc: nat)
    requires k < |tokens|
    ensures DocPairs(tokens[..k + 1], doc) == DocPairs(tokens[..k], doc) + [(tokens[k], doc)]
  {
  }

  lemma NextDoc(docs: seq<seq<Term>>, i: nat, base: nat)
    requires i < |docs|
    ensures TokenPairs(docs[..i + 1], base) == TokenPairs(docs[..i], base) + DocPairs(docs[i], base + i)
    ensures Norms(docs[..i + 1]) == Norms(docs[..i]) + [NormOf(|docs[i]|)]
  {
    hide DocPairs, TokenPairs, Norms;
    assert docs[..i + 1] == docs[..i] + [docs[i]];
    TokenPairsAppend(docs[..i], [docs[i]], base);
    TokenPairsOne(docs[i], base + i);
    NormsGrow(docs[..i], docs[i]);
  }

  method InternDoc(vocab: map<Term, nat>, keys: seq<(nat, nat)>, ghost pairs: seq<(Term, nat)>, tokens: seq<Term>, doc: nat)
    returns (vocab': map<Term, nat>, keys': seq<(nat, nat)>, count: nat)
    requires Interned(vocab, keys, pairs)
    ensures Interned(vocab', keys', pairs + DocPairs(tokens, doc)) && count == |tokens|
  {
    hide Interned;
    vocab', keys', count := vocab, keys, 0;
    assert pairs + DocPairs(tokens[..0], doc) == pairs;
    for k := 0 to |tokens|
      invariant count == k && Interned(vocab', keys', pairs + DocPairs(tokens[..k], doc))
    {
      vocab', keys' := Intern(vocab', keys', pairs + DocPairs(tokens[..k], doc), tokens[k], doc);
      count := count + 1;
      DocPairsSnoc(tokens, k, doc);
      Assoc(pairs, DocPairs(tokens[..k], doc), [(tokens[k], doc)]);
    }
    assert tokens[..|tokens|] == tokens;
  }

  method BuildLocal(part: seq<seq<Scalar>>, docBase: nat, u: Unicode) returns (l: Local)
    requires AgreesOnAscii(u)
    ensures IsLocal(l, TokensOf(part, u), docBase)
  {
    hide Interned, Tokens, TokenPairs, DocPairs, Norms, AgreesOnAscii, NormOf;
    var vocab: map<Term, nat>, keys: seq<(nat, nat)>, norms: seq<byte> := map[], [], [];
    ghost var docs := TokensOf(part, u);
    NothingInterned(docs, docBase);
    for i := 0 to |part|
      invariant Interned(vocab, keys, TokenPairs(docs[..i], docBase)) && norms == Norms(docs[..i])
    {
      var tokens := ForEachToken(part[i], Encode(part[i]), u);
      var count;
      vocab, keys, count := InternDoc(vocab, keys, TokenPairs(docs[..i], docBase), tokens, docBase + i);
      NextDoc(docs, i, docBase);
      norms := norms + [NormOf(count)];
    }
    assert docs[..|part|] == docs;
    l := Local(vocab, keys, norms, docBase);
  }

  lemma NothingInterned(docs: seq<seq<Term>>, docBase: nat)
    ensures Interned(map[], [], TokenPairs(docs[..0], docBase)) && Norms(docs[..0]) == []
  {
  }

  // ----- global ords ------------------------------------------------------------------

  method OrdMap(dict: seq<Term>) returns (ordOf: map<Term, nat>)
    requires StrictlySorted(dict)
    ensures forall t :: t in dict ==> t in ordOf && ordOf[t] == OrdOf(dict, t)
  {
    hide Less, OrdOf;
    ordOf := map[];
    for i := 0 to |dict|
      invariant forall j :: 0 <= j < i ==> dict[j] in ordOf && ordOf[dict[j]] == OrdOf(dict, dict[j])
    {
      OrdUnique(dict, i);
      ordOf := ordOf[dict[i] := i];
    }
  }

  // remap[id of t] = ord of t
  ghost predicate IsRemap(remap: seq<nat>, vocab: map<Term, nat>, dict: seq<Term>) {
    forall t :: t in vocab ==> vocab[t] < |remap| && remap[vocab[t]] == OrdOf(dict, t)
  }

  method Remap(vocab: map<Term, nat>, ordOf: map<Term, nat>, ghost dict: seq<Term>) returns (remap: seq<nat>)
    requires DistinctIds(vocab, |vocab|)
    requires forall t :: t in vocab ==> t in ordOf && ordOf[t] == OrdOf(dict, t)
    ensures IsRemap(remap, vocab, dict)
  {
    hide OrdOf;
    remap := seq(|vocab|, i => 0);
    var left := vocab.Keys;
    while left != {}
      invariant left <= vocab.Keys && |remap| == |vocab|
      invariant forall t :: t in vocab && t !in left ==> remap[vocab[t]] == OrdOf(dict, t)
      decreases left
    {
      var t :| t in left;
      remap := remap[vocab[t] := ordOf[t]];
      left := left - {t};
    }
  }

  method GlobalKeys(l: Local, remap: seq<nat>, ghost docs: seq<seq<Term>>, ghost dict: seq<Term>) returns (keys: seq<nat>)
    requires IsLocal(l, docs, l.docBase) && IsRemap(remap, l.vocab, dict)
    ensures keys == KeysOf(TokenPairs(docs, l.docBase), dict)
  {
    hide Key, OrdOf, TokenPairs;
    keys := [];
    ghost var pairs := TokenPairs(docs, l.docBase);
    for j := 0 to |l.keys|
      invariant |keys| == j && forall i :: 0 <= i < j ==> keys[i] == KeysOf(pairs, dict)[i]
    {
      assert pairs[j].0 in l.vocab;
      keys := keys + [Key(remap[l.keys[j].0], l.keys[j].1)];
    }
  }

  // ----- the whole build ---------------------------------------------------------------

  // The part of local i.
  ghost predicate IsPart(l: Local, docs: seq<seq<Term>>, s: nat, e: nat) {
    s <= e <= |docs| && IsLocal(l, docs[s..e], s)
  }

  // The locals are the consecutive parts of docs[..e].
  ghost predicate Parts(locals: seq<Local>, docs: seq<seq<Term>>, bounds: seq<nat>) {
    && |bounds| == |locals| + 1 && bounds[0] == 0
    && forall i :: 0 <= i < |locals| ==> IsPart(locals[i], docs, bounds[i], bounds[i + 1])
  }

  method BuildLocals(lines: seq<seq<Scalar>>, chunk: nat, u: Unicode) returns (locals: seq<Local>, ghost bounds: seq<nat>)
    requires chunk > 0 && AgreesOnAscii(u)
    ensures Parts(locals, TokensOf(lines, u), bounds) && bounds[|locals|] == |lines|
  {
    hide IsLocal, AgreesOnAscii, Tokens;
    locals, bounds := [], [0];
    var start := 0;
    while start < |lines|
      invariant start <= |lines| && Parts(locals, TokensOf(lines, u), bounds) && bounds[|locals|] == start
    {
      var end := if start + chunk < |lines| then start + chunk else |lines|;
      assert TokensOf(lines[start..end], u) == TokensOf(lines, u)[start..end];
      var l := BuildLocal(lines[start..end], start, u);
      PartsSnoc(locals, TokensOf(lines, u), bounds, l, end);
      locals, bounds := locals + [l], bounds + [end];
      start := end;
    }
  }

  lemma PartsSnoc(locals: seq<Local>, docs: seq<seq<Term>>, bounds: seq<nat>, l: Local, end: nat)
    requires Parts(locals, docs, bounds) && IsPart(l, docs, bounds[|locals|], end)
    ensures Parts(locals + [l], docs, bounds + [end])
  {
    hide IsLocal;
    var all, ends := locals + [l], bounds + [end];
    forall i | 0 <= i < |all| ensures IsPart(all[i], docs, ends[i], ends[i + 1]) {
      if i < |locals| {
        assert all[i] == locals[i] && ends[i] == bounds[i] && ends[i + 1] == bounds[i + 1];
      }
    }
  }

  // Sorting and deduplicating the local vocabularies.
  method GlobalDict(locals: seq<Local>, ghost docs: seq<seq<Term>>, ghost bounds: seq<nat>) returns (dict: seq<Term>)
    requires Parts(locals, docs, bounds) && bounds[|locals|] == |docs|
    ensures dict == DictOf(docs)
  {
    hide SortUnique, IsLocal, Flatten;
    var all: seq<Term> := [];
    assert docs[..0] == [];
    NothingFlat();
    for i := 0 to |locals|
      invariant bounds[i] <= |docs| && forall t :: t in all <==> t in Flatten(docs[..bounds[i]])
    {
      assert IsPart(locals[i], docs, bounds[i], bounds[i + 1]);
      LocalTerms(locals[i], docs, bounds[i], bounds[i + 1]);
      var keys := ListKeys(locals[i].vocab);
      all := all + keys;
    }
    assert docs[..|docs|] == docs;
    SameDict(all, Flatten(docs));
    dict := SortUnique(all);
  }

  lemma NothingFlat()
    ensures Flatten<Term>([]) == []
  {
  }

  lemma {:induction false} FlattenBoth(a: seq<seq<Term>>, b: seq<seq<Term>>)
    ensures Flatten(a + b) == Flatten(a) + Flatten(b)
    decreases |a|
  {
    if a == [] {
      assert a + b == b;
    } else {
      assert (a + b)[1..] == a[1..] + b;
      FlattenBoth(a[1..], b);
    }
  }

  lemma LocalTerms(l: Local, docs: seq<seq<Term>>, s: nat, e: nat)
    requires IsPart(l, docs, s, e)
    ensures forall t :: t in Flatten(docs[..e]) <==> t in Flatten(docs[..s]) || t in l.vocab
  {
    hide Flatten, TokenPairs, Norms;
    assert docs[..e] == docs[..s] + docs[s..e];
    FlattenBoth(docs[..s], docs[s..e]);
    var pairs := TokenPairs(docs[s..e], s);
    PairsOfDocs(docs[s..e], s);
    forall t ensures t in Flatten(docs[s..e]) <==> t in l.vocab {
      if t in l.vocab {
        assert Met(pairs, t);
        var j :| 0 <= j < |pairs| && pairs[j].0 == t;
      }
      if t in Flatten(docs[s..e]) {
        var j := TermPaired(docs[s..e], s, t);
      }
    }
  }

  lemma {:induction false} TermPaired(docs: seq<seq<Term>>, base: nat, t: Term) returns (j: nat)
    requires t in Flatten(docs)
    ensures j < |TokenPairs(docs, base)| && TokenPairs(docs, base)[j].0 == t
    decreases |docs|
  {
    if docs != [] {
      if t in docs[0] {
        var i :| 0 <= i < |docs[0]| && docs[0][i] == t;
        j := i;
      } else {
        j := TermPaired(docs[1..], base + 1, t);
        j := |docs[0]| + j;
      }
    }
  }

  lemma PartTerms(l: Local, docs: seq<seq<Term>>, s: nat, e: nat)
    requires IsPart(l, docs, s, e)
    ensures forall t :: t in l.vocab ==> t in DictOf(docs)
    ensures DistinctIds(l.vocab, |l.vocab|) && l.docBase == s
  {
    hide Flatten, TokenPairs, Norms, DictOf;
    LocalTerms(l, docs, s, e);
    DictIs(docs);
    assert docs == docs[..e] + docs[e..];
    FlattenBoth(docs[..e], docs[e..]);
  }

  lemma KeysGrow(docs: seq<seq<Term>>, dict: seq<Term>, s: nat, e: nat)
    requires s <= e <= |docs|
    ensures KeysOf(TokenPairs(docs[..e], 0), dict) ==
            KeysOf(TokenPairs(docs[..s], 0), dict) + KeysOf(TokenPairs(docs[s..e], s), dict)
  {
    hide KeysOf, TokenPairs;
    assert docs[..e] == docs[..s] + docs[s..e];
    TokenPairsAppend(docs[..s], docs[s..e], 0);
    KeysOfAppend(TokenPairs(docs[..s], 0), TokenPairs(docs[s..e], s), dict);
  }

  lemma FlattenMore(chunks: seq<seq<nat>>, chunk: seq<nat>)
    ensures Flatten(chunks + [chunk]) == Flatten(chunks) + chunk
  {
    var all := chunks + [chunk];
    FlattenSnoc(all, |chunks|);
    assert all[..|chunks|] == chunks && all[..|chunks| + 1] == all;
  }

  method AllKeys(locals: seq<Local>, dict: seq<Term>, ghost docs: seq<seq<Term>>, ghost bounds: seq<nat>)
    returns (chunks: seq<seq<nat>>)
    requires Parts(locals, docs, bounds) && bounds[|locals|] == |docs| && dict == DictOf(docs)
    ensures Flatten(chunks) == KeysOf(TokenPairs(docs, 0), dict)
  {
    hide DictOf, IsLocal, Flatten, IsRemap, OrdOf, KeysOf, TokenPairs, StrictlySorted, DistinctIds;
    DictIs(docs);
    var ordOf := OrdMap(dict);
    chunks := [];
    NoKeysYet(docs, dict);
    for i := 0 to |locals|
      invariant bounds[i] <= |docs| && Flatten(chunks) == KeysOf(TokenPairs(docs[..bounds[i]], 0), dict)
    {
      ghost var s, e := bounds[i], bounds[i + 1];
      assert IsPart(locals[i], docs, s, e);
      PartTerms(locals[i], docs, s, e);
      var remap := Remap(locals[i].vocab, ordOf, dict);
      var keys := GlobalKeys(locals[i], remap, docs[s..e], dict);
      KeysGrow(docs, dict, s, e);
      FlattenMore(chunks, keys);
      chunks := chunks + [keys];
    }
    assert docs[..|docs|] == docs;
  }

  lemma NoKeysYet(docs: seq<seq<Term>>, dict: seq<Term>)
    ensures Flatten<nat>([]) == KeysOf(TokenPairs(docs[..0], 0), dict)
  {
  }

  // Each part's norms at its base.
  method GatherNorms(locals: seq<Local>, n: nat, ghost docs: seq<seq<Term>>, ghost bounds: seq<nat>) returns (norms: seq<byte>)
    requires Parts(locals, docs, bounds) && bounds[|locals|] == |docs| == n
    ensures norms == Norms(docs)
  {
    hide Interned, NormOf;
    norms := seq<byte>(n, i => 0);
    for i := 0 to |locals|
      invariant |norms| == n && bounds[i] <= n && norms[..bounds[i]] == Norms(docs)[..bounds[i]]
    {
      var l := locals[i];
      ghost var s, e := bounds[i], bounds[i + 1];
      assert IsPart(l, docs, s, e);
      NormsOfPart(docs, s, e);
      ghost var before := norms;
      norms := norms[..l.docBase] + l.norms + norms[l.docBase + |l.norms|..];
      assert norms[..e] == before[..s] + l.norms;
    }
    assert norms[..n] == norms && Norms(docs)[..n] == Norms(docs);
  }

  lemma NormsOfPart(docs: seq<seq<Term>>, s: nat, e: nat)
    requires s <= e <= |docs|
    ensures Norms(docs)[..e] == Norms(docs)[..s] + Norms(docs[s..e])
  {
  }

  method DictLayout(dict: seq<Term>) returns (names: Dictionary)
    ensures names == PushAll(U64, NO_TERMS, dict)
  {
    hide PushAll;
    names := NO_TERMS;
    PushNone();
    assert dict[..0] == [];
    for ord := 0 to |dict|
      invariant names == PushAll(U64, NO_TERMS, dict[..ord])
    {
      PushNext(dict, ord);
      names := Dictionary(names.bytes + dict[ord], names.offsets + [|names.bytes| + |dict[ord]|]);
    }
    assert dict[..|dict|] == dict;
  }

  lemma KeysInDict(docs: seq<seq<Term>>)
    requires |docs| <= TWO_32
    ensures forall k :: k in KeysOf(TokenPairs(docs, 0), DictOf(docs)) ==> KeyOrd(k) < |DictOf(docs)|
  {
    hide DictOf, TokenPairs, KeysOf, KeyOrd;
    PairsIn(docs);
    forall k | k in KeysOf(TokenPairs(docs, 0), DictOf(docs)) ensures KeyOrd(k) < |DictOf(docs)| {
      KeysBounded(TokenPairs(docs, 0), DictOf(docs), k);
    }
  }

  // An empty list of lines would make the part size zero.
  method BuildParallel(lines: seq<seq<Scalar>>, threads: nat, u: Unicode) returns (f: InvertedField)
    requires 0 < |lines| <= TWO_32 && AgreesOnAscii(u)
    ensures IsInverted(f, TokensOf(lines, u))
  {
    hide Parts, DictOf, KeysOf, TokenPairs, IsCsr, KeyOrd, PushAll, Flatten, AgreesOnAscii, Norms;
    var workers := if threads < 1 then 1 else if threads > |lines| then |lines| else threads;
    var chunk := (|lines| + workers - 1) / workers;
    DivMonotone(workers, |lines| + workers - 1, workers);
    var locals, bounds := BuildLocals(lines, chunk, u);
    ghost var docs := TokensOf(lines, u);
    PartsBounds(locals, docs, bounds);
    var dict := GlobalDict(locals, docs, bounds);
    var chunks := AllKeys(locals, dict, docs, bounds);
    KeysInDict(docs);
    var postings := KeysToCsr(chunks, |dict|, workers);
    var names := DictLayout(dict);
    var norms := GatherNorms(locals, |lines|, docs, bounds);
    f := InvertedField(names, postings, norms);
  }

  lemma PartsBounds(locals: seq<Local>, docs: seq<seq<Term>>, bounds: seq<nat>)
    requires Parts(locals, docs, bounds)
    ensures |bounds| == |locals| + 1
  {
  }
}
