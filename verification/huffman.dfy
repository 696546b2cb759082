/**
 * The whole coder: count the characters of a string, build the tree, assign
 * the code words, encode the string and decode it again.
 */
module Huffman {
  import opened Frequency
  import opened HuffmanTree
  import opened CodeAssignment
  import opened Codec

  /**
   * Counts the characters of a non-empty string, builds the tree and assigns
   * the code words. Whatever tie-breaks the queue and the table make, the
   * root weighs the input's length, every leaf weighs its character's count,
   * and the table is a prefix code over exactly the input's characters.
   */
  method Alg(s: string) returns (hm: Table, root: Tree, hc: CodeMap)
    requires |s| > 0
    requires |s| <= MaxInt
    ensures Counts(hm, s)
    ensures root.w == |s| && Conserved(root)
    ensures forall c :: Bag(root)[c] == if c in s then 1 else 0
    ensures LeafWeights(root, hm)
    ensures hc == CodeTable(root)
    ensures forall c :: c in hc <==> c in s
    ensures forall c :: c in hc ==> |hc[c]| > 0
    ensures PrefixFree(hc)
  {
    hm := Setup(s);
    root := BuildTree(hm);
    var sb;
    sb, hc := AssignCode(root, [], map[], |hm| == 1);
    UnionEmpty(Codes(root, [], root.Leaf?));
    assert forall c :: c in hc <==> c in s by {
      CodeTableIsPathTable(root);
      LeavesAreAlphabet(s, hm, root);
    }
    assert forall c :: Bag(root)[c] == if c in s then 1 else 0 by {
      LeavesAreAlphabet(s, hm, root);
    }
    assert (forall c :: c in hc ==> |hc[c]| > 0) && PrefixFree(hc) by {
      CodeTableIsPathTable(root);
      CodeTableIsPrefixCode(root);
    }
  }

  /**
   * Runs the coder on a non-empty string whose length fits in a Java `int`:
   * `Alg`, then encoding, then decoding. The bits are the string's encoding
   * under the tree's table, and their decoding is the string again.
   */
  method Run(s: string) returns (hm: Table, root: Tree, hc: CodeMap, d: Code, r: string)
    requires |s| > 0
    requires |s| <= MaxInt
    ensures Counts(hm, s)
    ensures hc == CodeTable(root)
    ensures forall c :: c in hc <==> c in s
    ensures EncodesTo(s, hc, d)
    ensures r == Decode(root, d)
    ensures r == s
    ensures |d| == Total(CostTable(s, hc))
  {
    hm, root, hc := Alg(s);
    d := Encode(s, hc);
    r := Decode(root, d);
    assert r == s by {
      LeavesAreAlphabet(s, hm, root);
      RoundTrip(root, s);
    }
    EncodedLength(s, hc);
  }

  /** Leaves holding exactly the table's keys hold each character of the string exactly once. */
  lemma LeavesAreAlphabet(s: string, hm: Table, root: Tree)
    requires Counts(hm, s)
    requires Bag(root) == multiset(hm.Keys)
    ensures forall c :: Bag(root)[c] == if c in s then 1 else 0
    ensures forall c :: c in Bag(root) <==> c in s
  {
    forall c
      ensures Bag(root)[c] == if c in s then 1 else 0
    {
      assert c in hm <==> c in s;
    }
  }
}
