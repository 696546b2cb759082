/**
 * Code assignment: each leaf character gets the root-to-leaf path as its
 * code word, `false` (the digit 0) for a step left and `true` (the digit 1)
 * for a step right; a one-character alphabet gets the code word 0.
 */
module CodeAssignment {
  import opened HuffmanTree

  /** A code word: false is the digit 0 (go left), true is the digit 1 (go right). */
  type Code = seq<bool>

  /** A code table: each character mapped to its code word. */
  type CodeMap = map<char, Code>

  /**
   * The entries code assignment records for the subtree `t` entered along
   * `path`. With `single` set (a one-character table) every leaf gets 0.
   */
  function Codes(t: Tree, path: Code, single: bool): (hc: CodeMap)
    ensures forall c :: c in hc <==> c in Bag(t)
  {
    match t
    case Leaf(c, _) => map[c := if single then [false] else path]
    case Node(l, r, _) => Codes(l, path + [false], single) + Codes(r, path + [true], single)
  }

  /**
   * The recursive walk with one shared, growing buffer: a digit is appended
   * before each descent and deleted after it, so the buffer comes back as it
   * went in and sibling paths do not see each other's digits.
   */
  method AssignCode(n: Tree, sb: Code, hc: CodeMap, single: bool) returns (sbOut: Code, hcOut: CodeMap)
    ensures sbOut == sb
    ensures hcOut == hc + Codes(n, sb, single)
    decreases n
  {
    match n
    case Leaf(c, _) =>
      sbOut := sb;
      hcOut := hc[c := if single then [false] else sb];
      assert hcOut == hc + map[c := if single then [false] else sb];
    case Node(l, r, _) =>
      var buf := sb + [false];
      buf, hcOut := AssignCode(l, buf, hc, single);
      buf := buf[..|buf| - 1];
      assert buf == sb;
      buf := buf + [true];
      buf, hcOut := AssignCode(r, buf, hcOut, single);
      sbOut := buf[..|buf| - 1];
      UnionAssoc(hc, Codes(l, sb + [false], single), Codes(r, sb + [true], single));
  }

  lemma UnionAssoc<K, V>(a: map<K, V>, b: map<K, V>, c: map<K, V>)
    ensures a + b + c == a + (b + c)
  {
  }

  lemma UnionEmpty<K, V>(m: map<K, V>)
    ensures map[] + m == m
  {
  }

  /** The code table of a built tree: a bare leaf is the one-character case. */
  function CodeTable(root: Tree): (hc: CodeMap)
    ensures forall c :: c in hc <==> c in Bag(root)
    ensures root.Leaf? ==> hc == map[root.c := [false]]
  {
    Codes(root, [], root.Leaf?)
  }

  /** `p` walks from the top of `t` down to a leaf that holds `c`. */
  predicate LeadsTo(t: Tree, p: Code, c: char)
    decreases t
  {
    match t
    case Leaf(c', _) => p == [] && c' == c
    case Node(l, r, _) => |p| > 0 && LeadsTo(if p[0] then r else l, p[1..], c)
  }

  /** Every recorded code word is the entry path followed by the path down to its leaf. */
  lemma {:induction false} CodesArePaths(t: Tree, p: Code)
    ensures forall c :: c in Codes(t, p, false) ==>
      p <= Codes(t, p, false)[c] && LeadsTo(t, Codes(t, p, false)[c][|p|..], c)
  {
    match t
    case Leaf(_, _) =>
    case Node(l, r, _) =>
      var pl, pr := p + [false], p + [true];
      CodesArePaths(l, pl);
      CodesArePaths(r, pr);
      forall c | c in Codes(t, p, false)
        ensures p <= Codes(t, p, false)[c] && LeadsTo(t, Codes(t, p, false)[c][|p|..], c)
      {
        var code := Codes(t, p, false)[c];
        if c in Codes(r, pr, false) {
          assert code == Codes(r, pr, false)[c];
          assert code[|p|..][1..] == code[|pr|..];
        } else {
          assert code == Codes(l, pl, false)[c];
          assert code[|p|..][1..] == code[|pl|..];
        }
      }
  }

  /** A path to a leaf is never a proper prefix of another: the walk ends at a leaf. */
  lemma {:induction false} PathsPrefixFree(t: Tree, p: Code, a: char, q: Code, b: char)
    requires LeadsTo(t, p, a) && LeadsTo(t, q, b)
    requires p <= q
    ensures p == q && a == b
    decreases t
  {
    match t
    case Leaf(_, _) =>
    case Node(l, r, _) =>
      assert p[0] == q[0];
      assert p[1..] <= q[1..];
      PathsPrefixFree(if p[0] then r else l, p[1..], a, q[1..], b);
      assert p == [p[0]] + p[1..] && q == [q[0]] + q[1..];
  }

  /** No code word of the table is a prefix of another character's code word. */
  predicate PrefixFree(hc: CodeMap)
  {
    forall a, b :: a in hc && b in hc && a != b ==> !(hc[a] <= hc[b])
  }

  /**
   * The table of a built tree records paths: its keys are the leaf
   * characters; a bare leaf gets the code word 0; otherwise each code word
   * is a path from the root to its own leaf. Either way no code word is empty.
   */
  lemma {:induction false} CodeTableIsPathTable(root: Tree)
    ensures forall c :: c in CodeTable(root) <==> c in Bag(root)
    ensures root.Leaf? ==> CodeTable(root) == map[root.c := [false]]
    ensures root.Node? ==> forall c :: c in CodeTable(root) ==> LeadsTo(root, CodeTable(root)[c], c)
    ensures forall c :: c in CodeTable(root) ==> |CodeTable(root)[c]| > 0
  {
    var hc := CodeTable(root);
    if root.Node? {
      CodesArePaths(root, []);
      forall c | c in hc
        ensures LeadsTo(root, hc[c], c)
      {
        assert hc[c][0..] == hc[c];
      }
    }
  }

  /**
   * The table of a built tree is a prefix code: no code word is a prefix of
   * another character's code word, so distinct characters get distinct
   * code words.
   */
  lemma {:induction false} CodeTableIsPrefixCode(root: Tree)
    ensures PrefixFree(CodeTable(root))
    ensures forall a, b :: a in CodeTable(root) && b in CodeTable(root) && a != b ==>
      CodeTable(root)[a] != CodeTable(root)[b]
  {
    var hc := CodeTable(root);
    if root.Node? {
      CodeTableIsPathTable(root);
      forall a, b | a in hc && b in hc && a != b
        ensures !(hc[a] <= hc[b])
      {
        if hc[a] <= hc[b] {
          PathsPrefixFree(root, hc[a], a, hc[b], b);
        }
      }
    }
  }
}
