/** Frequency counting: the character-count table the Huffman coder starts from. */
module Frequency {

  /** A frequency table: each character mapped to its number of occurrences. */
  type Table = map<char, nat>

  /** The sum of all counts in a table. */
  ghost function Total(m: Table): nat
    decreases m.Keys
  {
    if m.Keys == {} then 0
    else
      var k :| k in m.Keys;
      m[k] + Total(m - {k})
  }

  /** The sum does not depend on which key is taken out first. */
  lemma {:induction false} TotalRemove(m: Table, x: char)
    requires x in m
    ensures Total(m) == m[x] + Total(m - {x})
    decreases m.Keys
  {
    var k :| k in m.Keys && Total(m) == m[k] + Total(m - {k});
    if k != x {
      TotalRemove(m - {k}, x);
      TotalRemove(m - {x}, k);
      assert m - {k} - {x} == m - {x} - {k};
    }
  }

  /** Adding a new key adds its count to the sum. */
  lemma TotalInsert(m: Table, x: char, v: nat)
    requires x !in m
    ensures Total(m[x := v]) == Total(m) + v
  {
    TotalRemove(m[x := v], x);
    assert m[x := v] - {x} == m;
  }

  /** Raising one count by `d` raises the sum by `d`. */
  lemma TotalAdd(m: Table, x: char, d: nat)
    requires x in m
    ensures Total(m[x := m[x] + d]) == Total(m) + d
  {
    TotalRemove(m[x := m[x] + d], x);
    TotalRemove(m, x);
    assert m[x := m[x] + d] - {x} == m - {x};
  }

  /** A table of zero counts sums to zero. */
  lemma {:induction false} TotalZero(m: Table)
    requires forall k :: k in m ==> m[k] == 0
    ensures Total(m) == 0
    decreases m.Keys
  {
    if m.Keys != {} {
      var k :| k in m.Keys;
      TotalRemove(m, k);
      TotalZero(m - {k});
    }
  }

  /** `hm` holds exactly the characters of `s`, each with its number of occurrences. */
  predicate Counts(hm: Table, s: string)
  {
    && (forall c :: c in hm <==> c in s)
    && (forall c :: c in hm ==> hm[c] == multiset(s)[c])
  }

  /** Builds the frequency table of `s` in one left-to-right pass. */
  method Setup(s: string) returns (hm: Table)
    ensures Counts(hm, s)
    ensures forall c :: c in hm ==> hm[c] > 0
    ensures Total(hm) == |s|
  {
    hm := map[];
    for i := 0 to |s|
      invariant Counts(hm, s[..i])
      invariant forall c :: c in hm ==> hm[c] > 0
      invariant Total(hm) == i
    {
      var c := s[i];
      assert s[..i + 1] == s[..i] + [c];
      CountStep(hm, s[..i], c);
      hm := Bump(hm, c);
    }
    assert s[..|s|] == s;
  }

  /** The table after one more occurrence of `c`: its count goes up by one, from zero if absent. */
  function Bump(hm: Table, c: char): Table
  {
    if c in hm then hm[c := hm[c] + 1] else hm[c := 1]
  }

  /** Counting one more character keeps the table exact and adds one to its sum. */
  lemma CountStep(hm: Table, t: string, c: char)
    requires Counts(hm, t)
    ensures Counts(Bump(hm, c), t + [c])
    ensures Total(Bump(hm, c)) == Total(hm) + 1
  {
    assert multiset(t + [c]) == multiset(t) + multiset{c};
    if c in hm {
      TotalAdd(hm, c, 1);
    } else {
      TotalInsert(hm, c, 1);
    }
  }
}
