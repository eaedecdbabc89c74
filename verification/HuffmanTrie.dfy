/**
 The decoding trie of HpackDecoder::decode_string: built code by code into a growing vector of nodes, then walked bit by
 bit. Building is proved for any prefix-free code, walking for any prefix-free and complete one, against a reference that
 only knows "which code is a prefix of the remaining bits".
 */
module HuffmanTrie {
  import opened Bits
  import opened HuffmanTable
  import opened HuffmanCode

  /** Child indices and symbol, -1 when absent. */
  datatype Node = Node(left: int, right: int, sym: int)

  const EMPTY_NODE := Node(-1, -1, -1)

  function Child(n: Node, bit: bool): int {
    if bit then n.right else n.left
  }

  /** paths[n] spells the bits on the way from the root to node n. */
  ghost predicate Edge(child: int, paths: seq<bits>, q: bits) {
    if child == -1 then q !in paths else 0 <= child < |paths| && paths[child] == q
  }

  ghost predicate Shape(tree: seq<Node>, paths: seq<bits>) {
    && |tree| == |paths| > 0 && paths[0] == []
    && (forall m, n | 0 <= m < |paths| && 0 <= n < |paths| && paths[m] == paths[n] :: m == n)
    && (forall n, bit | 0 <= n < |tree| :: Edge(Child(tree[n], bit), paths, paths[n] + [bit]))
  }

  /** q starts the path being inserted or one of the first k codes. */
  ghost predicate Starts(q: bits, codes: seq<bits>, k: nat, p: bits)
    requires k <= |codes|
  {
    q <= p || exists j | 0 <= j < k :: q <= codes[j]
  }

  ghost predicate Holds(paths: seq<bits>, codes: seq<bits>, k: nat, p: bits)
    requires k <= |codes|
  {
    forall q: bits :: q in paths <==> Starts(q, codes, k, p)
  }

  ghost predicate Labels(tree: seq<Node>, paths: seq<bits>, codes: seq<bits>, k: nat)
    requires |tree| == |paths| && k <= |codes|
  {
    && (forall n | 0 <= n < |tree| && tree[n].sym != -1 :: 0 <= tree[n].sym < k && paths[n] == codes[tree[n].sym])
    && (forall n, j | 0 <= n < |tree| && 0 <= j < k && paths[n] == codes[j] :: tree[n].sym == j)
  }

  ghost predicate Building(tree: seq<Node>, paths: seq<bits>, codes: seq<bits>, k: nat, p: bits) {
    k <= |codes| && Shape(tree, paths) && Holds(paths, codes, k, p) && Labels(tree, paths, codes, k)
  }

  /**
   The finished trie. Following child links from the root spells out paths; symbol nodes are leaves whose path is the
   symbol's code; every other node has both children and has completed no code.
   */
  ghost predicate Spells(tree: seq<Node>, paths: seq<bits>, codes: seq<bits>) {
    && |tree| == |paths| > 0 && paths[0] == [] && tree[0].sym == -1
    && (forall n | 0 <= n < |tree| :: -1 <= tree[n].sym < |codes|)
    && (forall n, bit | 0 <= n < |tree| && tree[n].sym == -1 ::
          0 <= Child(tree[n], bit) < |tree| && paths[Child(tree[n], bit)] == paths[n] + [bit])
    && (forall n | 0 <= n < |tree| && tree[n].sym == -1 :: Unled(codes, paths[n]))
    && (forall n | 0 <= n < |tree| && tree[n].sym != -1 ::
          tree[n].left == -1 && tree[n].right == -1 && paths[n] == codes[tree[n].sym])
  }

  ghost predicate IsTrie(tree: seq<Node>, codes: seq<bits>) {
    exists paths :: Spells(tree, paths, codes) && forall j | 0 <= j < |codes| :: codes[j] in paths
  }

  /** One turn of the insertion loop: step to the child for the bit, creating it if it is missing. */
  method Descend(tree: seq<Node>, node: nat, bit: bool, ghost paths: seq<bits>, ghost codes: seq<bits>, ghost k: nat)
    returns (tree': seq<Node>, node': nat, ghost paths': seq<bits>)
    requires node < |tree|
    requires |tree| == |paths| && Building(tree, paths, codes, k, paths[node])
    ensures |tree'| == |paths'| && node' < |tree'| && paths'[node'] == paths[node] + [bit]
    ensures Building(tree', paths', codes, k, paths'[node'])
  {
    var c := Child(tree[node], bit);
    ghost var q := paths[node] + [bit];
    assert Edge(c, paths, q);
    if c == -1 {
      node' := |tree|;
      var parent := if bit then tree[node].(right := node') else tree[node].(left := node');
      tree' := tree[node := parent] + [EMPTY_NODE];
      paths' := paths + [q];
      Extended(tree, node, bit, paths, codes, k, tree', paths');
    } else {
      tree', node', paths' := tree, c, paths;
      StepHolds(paths, paths, codes, k, paths[node], bit);
    }
  }

  lemma PrefixTransitive(a: bits, b: bits, c: bits)
    ensures a <= b && b <= c ==> a <= c
  {
  }

  lemma StartsOfStart(q: bits, q': bits, codes: seq<bits>, k: nat, p: bits)
    requires k <= |codes| && q <= q'
    ensures Starts(q', codes, k, p) ==> Starts(q, codes, k, p)
  {
    PrefixTransitive(q, q', p);
    forall j | 0 <= j < k {
      PrefixTransitive(q, q', codes[j]);
    }
  }

  lemma StepHolds(paths: seq<bits>, paths': seq<bits>, codes: seq<bits>, k: nat, p: bits, bit: bool)
    requires k <= |codes| && Holds(paths, codes, k, p)
    requires paths' == paths + [p + [bit]] || (paths' == paths && p + [bit] in paths)
    ensures Holds(paths', codes, k, p + [bit])
  {
    forall q: bits
      ensures q in paths' <==> Starts(q, codes, k, p + [bit])
    {
      assert q <= p + [bit] <==> q <= p || q == p + [bit];
      assert q in paths <==> Starts(q, codes, k, p);
      assert q in paths' <==> q in paths || q == p + [bit];
    }
  }

  /** Hanging a fresh leaf under a node keeps the trie well formed. */
  lemma Extended(tree: seq<Node>, node: nat, bit: bool, paths: seq<bits>, codes: seq<bits>, k: nat,
                 tree': seq<Node>, paths': seq<bits>)
    requires node < |tree| == |paths| && Building(tree, paths, codes, k, paths[node])
    requires Child(tree[node], bit) == -1
    requires paths' == paths + [paths[node] + [bit]]
    requires tree' == tree[node := if bit then tree[node].(right := |tree|) else tree[node].(left := |tree|)] + [EMPTY_NODE]
    ensures Building(tree', paths', codes, k, paths[node] + [bit])
  {
    var p := paths[node];
    var q := p + [bit];
    assert Edge(Child(tree[node], bit), paths, q);
    StepHolds(paths, paths', codes, k, p, bit);
    forall n, b | 0 <= n < |tree'|
      ensures Edge(Child(tree'[n], b), paths', paths'[n] + [b])
    {
      if n == |tree| {
        StartsOfStart(q, q + [b], codes, k, p);
        assert q in paths <==> Starts(q, codes, k, p);
        assert q + [b] in paths <==> Starts(q + [b], codes, k, p);
      } else {
        assert Edge(Child(tree[n], b), paths, paths[n] + [b]);
        SnocInjective(paths[n], b, p, bit);
      }
    }
    assert q in paths <==> Starts(q, codes, k, p);
    forall n, j | 0 <= n < |tree'| && 0 <= j < k && paths'[n] == codes[j]
      ensures tree'[n].sym == j
    {
      assert n < |tree|;
    }
  }

  lemma SnocInjective(a: bits, x: bool, b: bits, y: bool)
    ensures a + [x] == b + [y] <==> a == b && x == y
  {
    if a + [x] == b + [y] {
      assert a == (a + [x])[..|a|] == (b + [y])[..|b|] == b;
      assert (a + [x])[|a|] == x && (b + [y])[|b|] == y;
    }
  }

  /** Follows the nbits-bit code of symbol i from the root, most significant bit first, creating what is missing. */
  method Reach(tree: seq<Node>, code: nat, nbits: nat, ghost paths: seq<bits>, ghost codes: seq<bits>, ghost i: nat)
    returns (tree': seq<Node>, node: nat, ghost paths': seq<bits>)
    requires |tree| == |paths| && Building(tree, paths, codes, i, [])
    ensures node < |tree'| == |paths'| && paths'[node] == BitsOf(code, nbits)
    ensures Building(tree', paths', codes, i, BitsOf(code, nbits))
  {
    ghost var spelled := BitsOf(code, nbits);
    tree', node, paths' := tree, 0, paths;
    var b: nat := nbits;
    while b > 0
      invariant b <= nbits
      invariant node < |tree'| == |paths'| && paths'[node] == spelled[..nbits - b]
      invariant Building(tree', paths', codes, i, paths'[node])
    {
      ghost var k := nbits - b;
      b := b - 1;
      SpelledNext(code, nbits, k, k + 1, b);
      tree', node, paths' := Descend(tree', node, Shr(code, b) % 2 == 1, paths', codes, i);
      assert k + 1 == nbits - b;
    }
    assert spelled[..nbits] == spelled;
  }

  lemma SpelledNext(code: nat, nbits: nat, k: nat, k': nat, b: nat)
    requires k < nbits && k' == k + 1 && b == nbits - 1 - k
    ensures BitsOf(code, nbits)[..k] + [Shr(code, b) % 2 == 1] == BitsOf(code, nbits)[..k']
  {
    BitAt(code, nbits, k);
  }

  /** The trie of the whole table. */
  method BuildTree() returns (tree: seq<Node>)
    ensures IsTrie(tree, Codes())
  {
    ghost var codes := Codes();
    TableIsCode();
    tree := [EMPTY_NODE];
    ghost var paths: seq<bits> := [[]];
    Rooted(codes);
    for i := 0 to SYMBOLS
      invariant |tree| == |paths| && Building(tree, paths, codes, i, [])
    {
      CodeLengths(i);
      var node;
      tree, node, paths := Reach(tree, Shr(Code(i), 32 - Nbits(i)), Nbits(i), paths, codes, i);
      Labelled(tree, paths, codes, i, node);
      tree := tree[node := tree[node].(sym := i)];
    }
    TrieSpells(tree, paths, codes);
  }

  lemma Rooted(codes: seq<bits>)
    ensures Building([EMPTY_NODE], [[]], codes, 0, [])
  {
  }

  lemma {:induction false} BitAt(v: nat, n: nat, j: nat)
    requires j < n
    ensures BitsOf(v, n)[j] == (Shr(v, n - 1 - j) % 2 == 1)
  {
    if j < n - 1 {
      BitAt(v / 2, n - 1, j);
    }
  }

  /** Storing the symbol at the end of its path completes its insertion. */
  lemma Labelled(tree: seq<Node>, paths: seq<bits>, codes: seq<bits>, i: nat, node: nat)
    requires i < |codes| && PrefixFree(codes)
    requires node < |tree| == |paths| && paths[node] == codes[i] && Building(tree, paths, codes, i, codes[i])
    ensures Building(tree[node := tree[node].(sym := i)], paths, codes, i + 1, [])
  {
    var tree' := tree[node := tree[node].(sym := i)];
    forall n, bit | 0 <= n < |tree'|
      ensures Edge(Child(tree'[n], bit), paths, paths[n] + [bit])
    {
      assert Edge(Child(tree[n], bit), paths, paths[n] + [bit]);
    }
    forall q: bits
      ensures q in paths <==> Starts(q, codes, i + 1, [])
    {
      assert q in paths <==> Starts(q, codes, i, codes[i]);
      assert [] in paths;
    }
  }

  lemma NothingBeyond(codes: seq<bits>, k: nat, q: bits)
    requires k < |codes| && PrefixFree(codes) && codes[k] <= q && codes[k] != q
    ensures forall j | 0 <= j < |codes| :: !(q <= codes[j])
  {
    forall j | 0 <= j < |codes|
      ensures !(q <= codes[j])
    {
      PrefixTransitive(codes[k], q, codes[j]);
    }
  }

  lemma PrefixOfSnoc(a: bits, p: bits, bit: bool)
    ensures a <= p + [bit] <==> a <= p || a == p + [bit]
  {
  }

  lemma BothWays(codes: seq<bits>, c: nat, p: bits, bit: bool)
    requires c < |codes| && PrefixFree(codes) && Complete(codes)
    requires p <= codes[c] && p != codes[c]
    ensures exists j | 0 <= j < |codes| :: p + [bit] <= codes[j]
  {
    assert Met(codes, p + [bit]);
    var j :| 0 <= j < |codes| && Comparable(codes[j], p + [bit]);
    PrefixOfSnoc(codes[j], p, bit);
    PrefixTransitive(codes[j], p, codes[c]);
  }

  /** Symbol nodes are leaves; every other node has both children. */
  lemma TrieIsFull(tree: seq<Node>, paths: seq<bits>, codes: seq<bits>, n: nat)
    requires codes != [] && PrefixFree(codes) && Complete(codes)
    requires |tree| == |paths| && n < |tree| && Building(tree, paths, codes, |codes|, [])
    ensures if tree[n].sym == -1 then tree[n].left != -1 && tree[n].right != -1 else tree[n].left == -1 && tree[n].right == -1
  {
    assert paths[n] in paths;
    assert Starts(paths[n], codes, |codes|, []);
    assert [] <= codes[0];
    var c :| 0 <= c < |codes| && paths[n] <= codes[c];
    forall bit
      ensures (Child(tree[n], bit) == -1) == (tree[n].sym != -1)
    {
      var q := paths[n] + [bit];
      assert Edge(Child(tree[n], bit), paths, q);
      assert q in paths <==> Starts(q, codes, |codes|, []);
      if tree[n].sym != -1 {
        NothingBeyond(codes, tree[n].sym, q);
      } else {
        BothWays(codes, c, paths[n], bit);
      }
    }
    assert Child(tree[n], false) == tree[n].left && Child(tree[n], true) == tree[n].right;
  }

  /** Where the walk has not reached a symbol, it has passed none. */
  lemma InnerUnled(tree: seq<Node>, paths: seq<bits>, codes: seq<bits>, n: nat)
    requires IsCode(codes) && |tree| == |paths| && n < |tree| && Building(tree, paths, codes, |codes|, [])
    requires tree[n].sym == -1
    ensures Unled(codes, paths[n])
  {
    assert paths[n] in paths;
    assert Starts(paths[n], codes, |codes|, []);
    assert [] <= codes[0];
    var c :| 0 <= c < |codes| && paths[n] <= codes[c];
    forall i
      ensures !Leads(codes, i, paths[n])
    {
      if 0 <= i < |codes| {
        PrefixTransitive(codes[i], paths[n], codes[c]);
      }
    }
  }

  lemma TrieSpells(tree: seq<Node>, paths: seq<bits>, codes: seq<bits>)
    requires IsCode(codes) && |tree| == |paths| && Building(tree, paths, codes, |codes|, [])
    ensures Spells(tree, paths, codes) && forall j | 0 <= j < |codes| :: codes[j] in paths
  {
    forall j | 0 <= j < |codes|
      ensures codes[j] in paths && codes[j] != []
    {
      assert Starts(codes[j], codes, |codes|, []);
      NonEmptyCode(codes, j);
    }
    forall n | 0 <= n < |tree| && tree[n].sym == -1
      ensures Unled(codes, paths[n])
    {
      InnerUnled(tree, paths, codes, n);
    }
    forall n | 0 <= n < |tree| {
      TrieIsFull(tree, paths, codes, n);
    }
    forall n, bit | 0 <= n < |tree| && tree[n].sym == -1
      ensures 0 <= Child(tree[n], bit) < |tree| && paths[Child(tree[n], bit)] == paths[n] + [bit]
    {
      assert Edge(Child(tree[n], bit), paths, paths[n] + [bit]);
    }
  }
}
