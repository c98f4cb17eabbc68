// What an inverted field is: the sorted dictionary of the documents' tokens, the
// rows of its (ord, doc) keys, and a norm per document. Every builder below is
// proved against IsInverted, which determines the field; so they all agree.
module Inverted {
  import opened Bits
  import opened Wire
  import opened Lex
  import opened StatsPass
  import opened Csr
  import SmallFloat

  datatype InvertedField = InvertedField(terms: Dictionary, postings: Postings, norms: seq<byte>)

  function DocPairs(tokens: seq<Term>, doc: nat): (p: seq<(Term, nat)>)
    ensures |p| == |tokens|
  {
    seq(|tokens|, i requires 0 <= i < |tokens| => (tokens[i], doc))
  }

  // Every token with its document, in reading order; the first document is `base`.
  function TokenPairs(docs: seq<seq<Term>>, base: nat): seq<(Term, nat)>
    decreases |docs|
  {
    if docs == [] then [] else DocPairs(docs[0], base) + TokenPairs(docs[1..], base + 1)
  }

  function KeysOf(pairs: seq<(Term, nat)>, dict: seq<Term>): (k: seq<nat>)
    ensures |k| == |pairs|
  {
    seq(|pairs|, i requires 0 <= i < |pairs| => Key(OrdOf(dict, pairs[i].0), pairs[i].1))
  }

  function DictOf(docs: seq<seq<Term>>): seq<Term> { SortUnique(Flatten(docs)) }

  // A count kept in 32 bits.
  function Count32(n: nat): int {
    var low := n % TWO_32;
    if low < TWO_31 then low else low - TWO_32
  }

  function NormOf(tokens: nat): byte { SmallFloat.IntToByte4(Count32(tokens)) }

  function Norms(docs: seq<seq<Term>>): (n: seq<byte>)
    ensures |n| == |docs|
  {
    seq(|docs|, i requires 0 <= i < |docs| => NormOf(|docs[i]|))
  }

  ghost predicate IsInverted(f: InvertedField, docs: seq<seq<Term>>) {
    && f.terms == PushAll(U64, NO_TERMS, DictOf(docs))
    && IsCsr(f.postings, multiset(KeysOf(TokenPairs(docs, 0), DictOf(docs))), |DictOf(docs)|)
    && f.norms == Norms(docs)
  }

  lemma InvertedUnique(a: InvertedField, b: InvertedField, docs: seq<seq<Term>>)
    requires IsInverted(a, docs) && IsInverted(b, docs)
    ensures a == b
  {
    hide IsCsr, PushAll, DictOf, KeysOf, Norms;
    CsrUnique(a.postings, b.postings, multiset(KeysOf(TokenPairs(docs, 0), DictOf(docs))), |DictOf(docs)|);
  }

  // ----- what the rows mean ----------------------------------------------------------

  ghost predicate AllIn(pairs: seq<(Term, nat)>, dict: seq<Term>) {
    forall i :: 0 <= i < |pairs| ==> pairs[i].0 in dict && pairs[i].1 < TWO_32
  }

  // A key occurs as often as its term and document occur together.
  lemma {:induction false} KeyCounts(pairs: seq<(Term, nat)>, dict: seq<Term>, ord: nat, doc: nat)
    requires StrictlySorted(dict) && AllIn(pairs, dict) && ord < |dict| && doc < TWO_32
    ensures multiset(KeysOf(pairs, dict))[Key(ord, doc)] == multiset(pairs)[(dict[ord], doc)]
    decreases |pairs|
  {
    hide Key, OrdOf, StrictlySorted;
    if pairs != [] {
      var init, last := pairs[..|pairs| - 1], pairs[|pairs| - 1];
      assert pairs == init + [last];
      KeysOfSnoc(init, last, dict);
      KeyCounts(init, dict, ord, doc);
      KeyParts(ord, doc);
      KeyParts(OrdOf(dict, last.0), last.1);
      OrdUnique(dict, ord);
      OrdFound(dict, last.0);
    }
  }

  lemma OrdFound(dict: seq<Term>, t: Term)
    requires t in dict
    ensures OrdOf(dict, t) < |dict| && dict[OrdOf(dict, t)] == t
  {
  }

  lemma KeysOfSnoc(pairs: seq<(Term, nat)>, last: (Term, nat), dict: seq<Term>)
    ensures KeysOf(pairs + [last], dict) == KeysOf(pairs, dict) + [Key(OrdOf(dict, last.0), last.1)]
  {
    hide Key, OrdOf;
  }

  lemma KeysOfAppend(a: seq<(Term, nat)>, b: seq<(Term, nat)>, dict: seq<Term>)
    ensures KeysOf(a + b, dict) == KeysOf(a, dict) + KeysOf(b, dict)
  {
    hide Key, OrdOf;
  }

  lemma KeysBounded(pairs: seq<(Term, nat)>, dict: seq<Term>, k: nat)
    requires AllIn(pairs, dict) && k in KeysOf(pairs, dict)
    ensures KeyOrd(k) < |dict|
  {
    hide Key, KeyOrd, KeyDoc, OrdOf;
    var i :| 0 <= i < |pairs| && KeysOf(pairs, dict)[i] == k;
    OrdFound(dict, pairs[i].0);
    KeyParts(OrdOf(dict, pairs[i].0), pairs[i].1);
  }

  // The keys depend on the bag of pairs only.
  lemma KeysPermuted(a: seq<(Term, nat)>, b: seq<(Term, nat)>, dict: seq<Term>)
    requires StrictlySorted(dict) && AllIn(a, dict) && AllIn(b, dict) && multiset(a) == multiset(b)
    ensures multiset(KeysOf(a, dict)) == multiset(KeysOf(b, dict))
  {
    hide Key, KeyOrd, KeyDoc, KeysOf, AllIn, StrictlySorted;
    forall k: nat ensures multiset(KeysOf(a, dict))[k] == multiset(KeysOf(b, dict))[k] {
      KeyWhole(k);
      if KeyOrd(k) < |dict| {
        KeyCounts(a, dict, KeyOrd(k), KeyDoc(k));
        KeyCounts(b, dict, KeyOrd(k), KeyDoc(k));
      } else {
        if k in KeysOf(a, dict) {
          KeysBounded(a, dict, k);
        }
        if k in KeysOf(b, dict) {
          KeysBounded(b, dict, k);
        }
      }
    }
  }

  lemma {:induction false} TokenPairsAppend(a: seq<seq<Term>>, b: seq<seq<Term>>, base: nat)
    ensures TokenPairs(a + b, base) == TokenPairs(a, base) + TokenPairs(b, base + |a|)
    decreases |a|
  {
    hide DocPairs;
    if a == [] {
      assert a + b == b;
    } else {
      assert (a + b)[1..] == a[1..] + b;
      TokenPairsAppend(a[1..], b, base + 1);
    }
  }

  lemma TokenPairsOne(tokens: seq<Term>, doc: nat)
    ensures TokenPairs([tokens], doc) == DocPairs(tokens, doc)
  {
    assert [tokens][1..] == [];
    assert TokenPairs([], doc + 1) == [];
  }

  lemma {:induction false} DocPairCounts(tokens: seq<Term>, doc: nat, t: Term, d: nat)
    ensures multiset(DocPairs(tokens, doc))[(t, d)] == if d == doc then multiset(tokens)[t] else 0
    decreases |tokens|
  {
    if tokens != [] {
      var init, last := tokens[..|tokens| - 1], tokens[|tokens| - 1];
      assert tokens == init + [last];
      assert DocPairs(tokens, doc) == DocPairs(init, doc) + [(last, doc)];
      DocPairCounts(init, doc, t, d);
    }
  }

  // Pairs count the occurrences of a term in a document.
  lemma {:induction false} PairCounts(docs: seq<seq<Term>>, base: nat, t: Term, d: nat)
    ensures multiset(TokenPairs(docs, base))[(t, d)] ==
            if base <= d < base + |docs| then multiset(docs[d - base])[t] else 0
    decreases |docs|
  {
    hide DocPairs;
    if docs != [] {
      DocPairCounts(docs[0], base, t, d);
      PairCounts(docs[1..], base + 1, t, d);
      var first, rest := DocPairs(docs[0], base), TokenPairs(docs[1..], base + 1);
      assert multiset(TokenPairs(docs, base)) == multiset(first) + multiset(rest);
    }
  }

  lemma {:induction false} PairsOfDocs(docs: seq<seq<Term>>, base: nat)
    ensures forall i :: 0 <= i < |TokenPairs(docs, base)| ==>
              TokenPairs(docs, base)[i].0 in Flatten(docs) && base <= TokenPairs(docs, base)[i].1 < base + |docs|
    decreases |docs|
  {
    if docs != [] {
      PairsOfDocs(docs[1..], base + 1);
    }
  }

  lemma DictIs(docs: seq<seq<Term>>)
    ensures StrictlySorted(DictOf(docs)) && forall t :: t in DictOf(docs) <==> t in Flatten(docs)
  {
    SortUniqueIs(Flatten(docs));
  }

  lemma PairsIn(docs: seq<seq<Term>>)
    requires |docs| <= TWO_32
    ensures AllIn(TokenPairs(docs, 0), DictOf(docs))
  {
    hide DictOf, Flatten, TokenPairs;
    PairsOfDocs(docs, 0);
    DictIs(docs);
  }

  // Document d is listed for a term exactly when it holds it, with the number of
  // its occurrences; the documents of a term are in ascending order.
  lemma PostingsMeaning(f: InvertedField, docs: seq<seq<Term>>, ord: nat, d: nat, r: nat)
    requires IsInverted(f, docs) && |docs| <= TWO_32 && ord < |DictOf(docs)| && d < |docs|
    ensures Listed(f.postings, ord, d) <==> DictOf(docs)[ord] in docs[d]
    ensures r < |f.postings.docs| && InRow(f.postings, ord, r) ==>
              && f.postings.docs[r] < |docs|
              && f.postings.freqs[r] == multiset(docs[f.postings.docs[r]])[DictOf(docs)[ord]]
              && (r + 1 < |f.postings.docs| && InRow(f.postings, ord, r + 1) ==>
                    f.postings.docs[r] < f.postings.docs[r + 1])
  {
    hide Key, KeyOrd, KeyDoc, DictOf, KeysOf, TokenPairs, PushAll, Norms, AllIn, StrictlySorted, IsCsr, InRow, Listed;
    var dict, pairs := DictOf(docs), TokenPairs(docs, 0);
    DictIs(docs);
    PairsIn(docs);
    KeyCounts(pairs, dict, ord, d);
    PairCounts(docs, 0, dict[ord], d);
    RowIs(f.postings, multiset(KeysOf(pairs, dict)), |dict|, ord, d, r);
    if r < |f.postings.docs| && InRow(f.postings, ord, r) {
      KeyCounts(pairs, dict, ord, f.postings.docs[r]);
      PairCounts(docs, 0, dict[ord], f.postings.docs[r]);
    }
  }

  // The dictionary lists the tokens of the documents, each once, in the order of their bytes.
  lemma TermsMeaning(f: InvertedField, docs: seq<seq<Term>>, ord: nat, t: Term)
    requires IsInverted(f, docs)
    ensures Climbs(DictOf(docs)) && (t in DictOf(docs) <==> exists d :: 0 <= d < |docs| && t in docs[d])
    ensures ord < |DictOf(docs)| ==> f.terms.TermAt(ord) == Some(DictOf(docs)[ord])
  {
    hide SortUnique, PushAll, Climbs, IsCsr, KeysOf, TokenPairs, Norms;
    SortUniqueMeans(Flatten(docs), DictOf(docs));
    InSome(docs, t);
    if ord < |DictOf(docs)| {
      LayoutHolds(U64, DictOf(docs), ord);
    }
  }

  lemma {:induction false} InSome(docs: seq<seq<Term>>, t: Term)
    ensures t in Flatten(docs) <==> exists d :: 0 <= d < |docs| && t in docs[d]
  {
    if docs != [] {
      InSome(docs[1..], t);
      if t in docs[0] {
        assert t in docs[0];
      } else if t in Flatten(docs[1..]) {
        var d :| 0 <= d < |docs[1..]| && t in docs[1..][d];
        assert t in docs[d + 1];
      }
      if d :| 0 <= d < |docs| && t in docs[d] && d > 0 {
        assert docs[d] == docs[1..][d - 1];
      }
    }
  }

  // One norm per document, and it reaches a byte exactly when the document has at least
  // as many tokens as that byte stands for. Counts go around at 2^32, and from 2^31 on
  // they are negative and leave the norm 0.
  lemma NormMeaning(f: InvertedField, docs: seq<seq<Term>>, d: nat, b: byte)
    requires IsInverted(f, docs) && d < |docs|
    ensures |f.norms| == |docs|
    ensures var n := |docs[d]| % 0x1_0000_0000;
            if n < 0x8000_0000 then f.norms[d] >= b <==> n >= SmallFloat.Byte4ToInt(b) else f.norms[d] == 0
  {
    hide DictOf, PushAll, IsCsr, KeysOf, TokenPairs, SmallFloat.Byte4ToInt;
    var n := |docs[d]| % TWO_32;
    if n < TWO_31 {
      hide SmallFloat.IntToByte4;
      SmallFloat.NormAdjoint(n, b);
    }
  }

  lemma RowIs(p: Postings, keys: multiset<nat>, n: nat, ord: nat, d: nat, r: nat)
    requires IsCsr(p, keys, n) && ord < n && d < TWO_32
    ensures Listed(p, ord, d) <==> Key(ord, d) in keys
    ensures r < |p.docs| && InRow(p, ord, r) ==> |p.freqs| == |p.docs| && Counted(p, keys, ord, r)
    ensures r + 1 < |p.docs| && InRow(p, ord, r) && InRow(p, ord, r + 1) ==> p.docs[r] < p.docs[r + 1]
  {
    hide Key, KeyOrd, KeyDoc, Counted, InRow;
    KeyParts(ord, d);
    if Listed(p, ord, d) {
      var s :| 0 <= s < |p.docs| && InRow(p, ord, s) && p.docs[s] == d;
      CountedIs(p, keys, ord, s);
    }
  }

  lemma CountedIs(p: Postings, keys: multiset<nat>, ord: nat, r: nat)
    requires r < |p.docs| == |p.freqs| && Counted(p, keys, ord, r)
    ensures Key(ord, p.docs[r]) in keys
  {
  }
}
