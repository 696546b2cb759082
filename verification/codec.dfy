/**
 * Encoding (concatenating code words) and decoding (a walk over the tree,
 * bit by bit, that emits a character at each leaf and restarts at the root).
 */
module Codec {
  import opened Frequency
  import opened HuffmanTree
  import opened CodeAssignment

  /**
   * The code words of the characters of `s`, concatenated in order. When no
   * code word is empty, each character contributes at least one bit.
   */
  function Encode(s: string, hc: CodeMap): (r: Code)
    requires forall c :: c in s ==> c in hc
    ensures (forall c :: c in hc ==> |hc[c]| > 0) ==> |r| >= |s|
  {
    if s == [] then [] else hc[s[0]] + Encode(s[1..], hc)
  }

  /** `d` is the encoding of `s` under `hc`: every character of `s` has a code word, and `d` concatenates them in order. */
  predicate EncodesTo(s: string, hc: CodeMap, d: Code)
  {
    (forall c :: c in s ==> c in hc) && d == Encode(s, hc)
  }

  /** Encoding a concatenation concatenates the encodings: characters are encoded one by one, in order. */
  lemma {:induction false} EncodeAppend(s: string, t: string, hc: CodeMap)
    requires forall c :: c in s ==> c in hc
    requires forall c :: c in t ==> c in hc
    ensures forall c :: c in s + t ==> c in hc
    ensures Encode(s + t, hc) == Encode(s, hc) + Encode(t, hc)
    decreases |s|
  {
    if s == [] {
      assert s + t == t;
    } else {
      assert (s + t)[0] == s[0] && (s + t)[1..] == s[1..] + t;
      EncodeAppend(s[1..], t, hc);
    }
  }

  /**
   * The decoding state machine from the current node `cur`. When the root
   * is a bare leaf, every bit yields the root's character and the walk does
   * not move; otherwise a 0 goes left, a 1 goes right, and reaching a leaf
   * emits its character and restarts at the root. Bits left over in the
   * middle of a walk are dropped.
   */
  function DecodeFrom(root: Tree, cur: Tree, bits: Code): (r: string)
    requires root.Node? ==> cur.Node?
    ensures |r| <= |bits|
    ensures root.Leaf? ==> |r| == |bits|
    decreases |bits|
  {
    if bits == [] then []
    else if root.Leaf? then [root.c] + DecodeFrom(root, cur, bits[1..])
    else
      var next := if bits[0] then cur.right else cur.left;
      if next.Leaf? then [next.c] + DecodeFrom(root, root, bits[1..])
      else DecodeFrom(root, next, bits[1..])
  }

  /** Decodes a whole bit string, starting at the root; only leaf characters come out. */
  function Decode(root: Tree, bits: Code): (r: string)
    ensures |r| <= |bits|
    ensures Over(r, Bag(root))
  {
    DecodeInAlphabet(root, root, bits);
    DecodeFrom(root, root, bits)
  }

  /** Every character of `r` is in `alphabet`. */
  predicate Over(r: string, alphabet: multiset<char>)
  {
    forall i :: 0 <= i < |r| ==> r[i] in alphabet
  }

  lemma ConsOver(x: char, r: string, alphabet: multiset<char>)
    requires x in alphabet && Over(r, alphabet)
    ensures Over([x] + r, alphabet)
  {
  }

  /** A walk from a node below the root emits only characters of the root's leaves. */
  lemma {:induction false} DecodeInAlphabet(root: Tree, cur: Tree, bits: Code)
    requires root.Node? ==> cur.Node?
    requires Bag(cur) <= Bag(root)
    ensures Over(DecodeFrom(root, cur, bits), Bag(root))
    decreases |bits|
  {
    if bits != [] {
      if root.Leaf? {
        DecodeInAlphabet(root, cur, bits[1..]);
        ConsOver(root.c, DecodeFrom(root, cur, bits[1..]), Bag(root));
      } else {
        var next := if bits[0] then cur.right else cur.left;
        assert Bag(next) <= Bag(cur);
        if next.Leaf? {
          DecodeInAlphabet(root, root, bits[1..]);
          ConsOver(next.c, DecodeFrom(root, root, bits[1..]), Bag(root));
        } else {
          DecodeInAlphabet(root, next, bits[1..]);
        }
      }
    }
  }

  /** With a bare-leaf root, each bit decodes to the root's character. */
  lemma {:induction false} DecodeSingle(root: Tree, cur: Tree, bits: Code)
    requires root.Leaf?
    ensures forall i :: 0 <= i < |DecodeFrom(root, cur, bits)| ==> DecodeFrom(root, cur, bits)[i] == root.c
    decreases |bits|
  {
    if bits != [] {
      DecodeSingle(root, cur, bits[1..]);
    }
  }

  /** Following a path to a leaf emits exactly that leaf's character and restarts at the root. */
  lemma {:induction false} DecodeAlongPath(root: Tree, cur: Tree, p: Code, c: char, rest: Code)
    requires root.Node? && cur.Node?
    requires LeadsTo(cur, p, c)
    ensures DecodeFrom(root, cur, p + rest) == [c] + Decode(root, rest)
    decreases cur
  {
    var bits := p + rest;
    assert bits[0] == p[0] && bits[1..] == p[1..] + rest;
    match cur
    case Node(l, r, _) =>
      var next := if p[0] then r else l;
      if next.Node? {
        DecodeAlongPath(root, next, p[1..], c, rest);
      } else {
        assert p[1..] == [];
      }
  }

  /** Stopping part-way down a path to a leaf emits nothing. */
  lemma {:induction false} DecodePartialPath(root: Tree, cur: Tree, p: Code, c: char, k: nat)
    requires root.Node? && cur.Node?
    requires LeadsTo(cur, p, c)
    requires k < |p|
    ensures DecodeFrom(root, cur, p[..k]) == []
    decreases cur
  {
    if k > 0 {
      assert p[..k][0] == p[0] && p[..k][1..] == p[1..][..k - 1];
      match cur
      case Node(l, r, _) =>
        var next := if p[0] then r else l;
        if next.Node? {
          DecodePartialPath(root, next, p[1..], c, k - 1);
        } else {
          assert false;
        }
    }
  }

  /** A table whose every code word is a path, from the root, to its own character. */
  predicate PathTable(root: Tree, hc: CodeMap)
  {
    forall c :: c in hc ==> LeadsTo(root, hc[c], c)
  }

  /** Decoding an encoded string followed by more bits yields the string, then the decoding of those bits. */
  lemma {:induction false} DecodeEncode(root: Tree, hc: CodeMap, s: string, tail: Code)
    requires root.Node?
    requires PathTable(root, hc)
    requires forall c :: c in s ==> c in hc
    ensures Decode(root, Encode(s, hc) + tail) == s + Decode(root, tail)
    decreases |s|
  {
    if s == [] {
      assert Encode(s, hc) + tail == tail;
    } else {
      var more := Encode(s[1..], hc) + tail;
      assert Encode(s, hc) + tail == hc[s[0]] + more;
      DecodeAlongPath(root, root, hc[s[0]], s[0], more);
      DecodeEncode(root, hc, s[1..], tail);
      assert s == [s[0]] + s[1..];
    }
  }

  /** A one-word table whose word has one bit encodes one bit per character. */
  lemma {:induction false} EncodeSingle(s: string, c: char)
    requires forall i :: 0 <= i < |s| ==> s[i] == c
    ensures forall x :: x in s ==> x in map[c := [false]]
    ensures |Encode(s, map[c := [false]])| == |s|
    decreases |s|
  {
    if s != [] {
      EncodeSingle(s[1..], c);
    }
  }

  /**
   * The round trip: every string over the leaf characters of a tree is
   * recovered by decoding its encoding under the tree's code table, both
   * for a bare-leaf tree and for a tree with two or more leaves.
   */
  lemma RoundTrip(root: Tree, s: string)
    requires forall c :: c in s ==> c in Bag(root)
    ensures forall c :: c in s ==> c in CodeTable(root)
    ensures Decode(root, Encode(s, CodeTable(root))) == s
  {
    CodeTableIsPathTable(root);
    var hc := CodeTable(root);
    if root.Node? {
      DecodeEncode(root, hc, s, []);
      assert Encode(s, hc) + [] == Encode(s, hc);
    } else {
      assert forall i :: 0 <= i < |s| ==> s[i] in Bag(root);
      EncodeSingle(s, root.c);
      DecodeSingle(root, root, Encode(s, hc));
    }
  }

  /**
   * The decoder reports no truncated stream: bits that stop part-way down a
   * code word are dropped and the decoded prefix comes back unchanged.
   */
  lemma TruncatedTailDropped(root: Tree, s: string, c: char, k: nat)
    requires root.Node?
    requires forall x :: x in s ==> x in Bag(root)
    requires c in Bag(root)
    requires k < |CodeTable(root)[c]|
    ensures forall x :: x in s ==> x in CodeTable(root)
    ensures Decode(root, Encode(s, CodeTable(root)) + CodeTable(root)[c][..k]) == s
  {
    CodeTableIsPathTable(root);
    var hc := CodeTable(root);
    DecodeEncode(root, hc, s, hc[c][..k]);
    DecodePartialPath(root, root, hc[c], c, k);
    assert s + [] == s;
  }

  /** Each character's count times its code-word length. */
  function CostTable(s: string, hc: CodeMap): Table
  {
    map c | c in hc :: multiset(s)[c] * |hc[c]|
  }

  /** The encoding is as long as the sum, over characters, of count times code-word length. */
  lemma {:induction false} EncodedLength(s: string, hc: CodeMap)
    requires forall c :: c in s ==> c in hc
    ensures |Encode(s, hc)| == Total(CostTable(s, hc))
    decreases |s|
  {
    if s == [] {
      TotalZero(CostTable(s, hc));
    } else {
      var x := s[0];
      EncodedLength(s[1..], hc);
      assert |Encode(s, hc)| == |hc[x]| + |Encode(s[1..], hc)|;
      CostTableCons(s, hc);
    }
  }

  /** One more occurrence of `s[0]` adds its code-word length to the total cost. */
  lemma CostTableCons(s: string, hc: CodeMap)
    requires |s| > 0 && s[0] in hc
    ensures Total(CostTable(s, hc)) == Total(CostTable(s[1..], hc)) + |hc[s[0]]|
  {
    var x := s[0];
    var before := CostTable(s[1..], hc);
    var after := before[x := before[x] + |hc[x]|];
    assert CostTable(s, hc) == after by {
      forall c | c in hc
        ensures CostTable(s, hc)[c] == after[c]
      {
        CountCons(s, c);
        if c == x {
          MulSucc(multiset(s[1..])[c], |hc[c]|);
        }
      }
    }
    TotalAdd(before, x, |hc[x]|);
  }

  /** The count of `c` in `s` is its count in the tail, plus one if `s` starts with `c`. */
  lemma CountCons(s: string, c: char)
    requires |s| > 0
    ensures multiset(s)[c] == multiset(s[1..])[c] + if s[0] == c then 1 else 0
  {
    assert s == [s[0]] + s[1..];
  }

  lemma MulSucc(n: nat, k: nat)
    ensures (n + 1) * k == n * k + k
  {
  }
}
