// What the models of concurrent kernels share: a state is a record, its tables are
// sequences, and a step puts one entry.
module Machines {
  function Put<T>(s: seq<T>, i: nat, x: T): (r: seq<T>)
    ensures |r| == |s| && forall k :: 0 <= k < |s| ==> r[k] == if k == i then x else s[k]
  {
    if i < |s| then s[i := x] else s
  }

  // Slots from `home` on to `slot` in an open-addressing table of `cap` slots.
  function Dist(cap: nat, home: nat, slot: nat): int { if slot >= home then slot - home else slot + cap - home }

  ghost predicate NoDuplicates(s: seq<nat>) {
    forall i, j :: 0 <= i < j < |s| ==> s[i] != s[j]
  }
}
