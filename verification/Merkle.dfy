/** The Merkle root a lease checkpoint commits to (crates/nas-lease/src/merkle.rs). */
module Merkle {
  import opened Bytes
  import opened AddrOrder

  function LeafInput(a: Addr): Bytes {
    [0x00] + a
  }

  function NodeInput(l: Digest, r: Digest): Bytes {
    [0x01] + l + r
  }

  function RootInput(count: nat, tree: Digest): Bytes {
    Ascii("nas-tools/lease-merkle/v1") + LE(count, 8) + tree
  }

  function Leaf(hash: HashFn, a: Addr): Digest {
    hash(LeafInput(a))
  }

  function Node(hash: HashFn, l: Digest, r: Digest): Digest {
    hash(NodeInput(l, r))
  }

  /** Leaf hashes, left to right. */
  function Leaves(hash: HashFn, addrs: seq<Addr>): (r: seq<Digest>)
    ensures |r| == |addrs|
  {
    seq(|addrs|, i requires 0 <= i < |addrs| => Leaf(hash, addrs[i]))
  }

  /** One level up: neighbours are paired, an odd node is promoted and never duplicated. */
  function NextLevel(hash: HashFn, level: seq<Digest>): (r: seq<Digest>)
    ensures |r| == (|level| + 1) / 2
  {
    if |level| < 2 then level
    else [Node(hash, level[0], level[1])] + NextLevel(hash, level[2..])
  }

  function Tree(hash: HashFn, level: seq<Digest>): Digest
    decreases |level|
  {
    if level == [] then ZeroDigest()
    else if |level| == 1 then level[0]
    else Tree(hash, NextLevel(hash, level))
  }

  function RootSpec(hash: HashFn, addrs: seq<Addr>): Digest {
    var sorted := Canonicalise(addrs);
    hash(RootInput(|sorted|, Tree(hash, Leaves(hash, sorted))))
  }

  lemma {:induction false} NextLevelAt(hash: HashFn, done: seq<Digest>, i: nat, level: seq<Digest>)
    requires i + 1 < |level| && done + NextLevel(hash, level[i..]) == NextLevel(hash, level)
    ensures (done + [Node(hash, level[i], level[i + 1])]) + NextLevel(hash, level[i + 2..]) == NextLevel(hash, level)
  {
    assert level[i..][2..] == level[i + 2..];
    var n := [Node(hash, level[i], level[i + 1])];
    assert NextLevel(hash, level[i..]) == n + NextLevel(hash, level[i + 2..]);
    assert (done + n) + NextLevel(hash, level[i + 2..]) == done + (n + NextLevel(hash, level[i + 2..]));
  }

  /** `root`: rebuild the level until one node is left, then hash in the count. */
  method Root(hash: HashFn, addrs: seq<Addr>) returns (r: Digest)
    ensures r == RootSpec(hash, addrs)
  {
    var sorted := Canonicalise(addrs);
    var level := Leaves(hash, sorted);
    while |level| > 1
      invariant Tree(hash, level) == Tree(hash, Leaves(hash, sorted))
      decreases |level|
    {
      var next: seq<Digest> := [];
      var i := 0;
      assert level[0..] == level && next + NextLevel(hash, level) == NextLevel(hash, level);
      while i + 1 < |level|
        invariant 0 <= i <= |level|
        invariant next + NextLevel(hash, level[i..]) == NextLevel(hash, level)
      {
        NextLevelAt(hash, next, i, level);
        next := next + [Node(hash, level[i], level[i + 1])];
        i := i + 2;
      }
      if i < |level| {
        assert level[i..] == [level[i]];
        next := next + [level[i]];
      }
      assert next == NextLevel(hash, level);
      level := next;
    }
    var tree := if level == [] then ZeroDigest() else level[0];
    return hash(RootInput(|sorted|, tree));
  }

  /** A level read by position: pairs are joined in place, and a last odd node moves up unchanged. */
  lemma {:induction false} NextLevelShape(hash: HashFn, level: seq<Digest>, i: nat)
    requires 2 * i < |level|
    ensures NextLevel(hash, level)[i]
         == if 2 * i + 1 < |level| then Node(hash, level[2 * i], level[2 * i + 1]) else level[2 * i]
  {
    if i > 0 {
      NextLevelShape(hash, level[2..], i - 1);
    }
  }

  /** A leaf, an interior node and a root are never hashes of one string. */
  lemma KindsAreApart(a: Addr, l: Digest, r: Digest, count: nat, tree: Digest)
    ensures LeafInput(a) != NodeInput(l, r) && LeafInput(a) != RootInput(count, tree)
    ensures NodeInput(l, r) != RootInput(count, tree)
  {
    assert |LeafInput(a)| < |NodeInput(l, r)| && |LeafInput(a)| < |RootInput(count, tree)|;
    assert NodeInput(l, r)[0] == 0x01 && RootInput(count, tree)[0] == Octet('n');
  }

  // ---- Binding

  /** Every node string hashed on the way from a level to its tree. */
  function NodeQueries(hash: HashFn, level: seq<Digest>): set<Bytes> {
    if |level| < 2 then {} else {NodeInput(level[0], level[1])} + NodeQueries(hash, level[2..])
  }

  function TreeQueries(hash: HashFn, level: seq<Digest>): set<Bytes>
    decreases |level|
  {
    if |level| < 2 then {} else NodeQueries(hash, level) + TreeQueries(hash, NextLevel(hash, level))
  }

  /** Every string `root` hashes for a list of addresses. */
  function RootQueries(hash: HashFn, addrs: seq<Addr>): set<Bytes> {
    var sorted := Canonicalise(addrs);
    var leaves := Leaves(hash, sorted);
    (set a | a in sorted :: LeafInput(a)) + TreeQueries(hash, leaves)
    + {RootInput(|sorted|, Tree(hash, leaves))}
  }

  lemma NodeInputInjective(l: Digest, r: Digest, l': Digest, r': Digest)
    requires NodeInput(l, r) == NodeInput(l', r')
    ensures l == l' && r == r'
  {
    var x, y := NodeInput(l, r), NodeInput(l', r');
    assert x[1..33] == l && y[1..33] == l' && x[33..] == r && y[33..] == r';
  }

  lemma {:induction false} LevelBinding(hash: HashFn, a: seq<Digest>, b: seq<Digest>, hashed: set<Bytes>)
    requires |a| == |b| && NextLevel(hash, a) == NextLevel(hash, b)
    requires NodeQueries(hash, a) + NodeQueries(hash, b) <= hashed
    ensures a == b || Collides(hash, hashed)
  {
    if |a| >= 2 {
      var m, n := NextLevel(hash, a), NextLevel(hash, b);
      assert m[0] == n[0] && m[1..] == NextLevel(hash, a[2..]) && n[1..] == NextLevel(hash, b[2..]);
      SameHash(hash, hashed, NodeInput(a[0], a[1]), NodeInput(b[0], b[1]));
      LevelBinding(hash, a[2..], b[2..], hashed);
      if !Collides(hash, hashed) {
        NodeInputInjective(a[0], a[1], b[0], b[1]);
        assert a == [a[0], a[1]] + a[2..] && b == [b[0], b[1]] + b[2..];
      }
    }
  }

  lemma {:induction false} TreeBinding(hash: HashFn, a: seq<Digest>, b: seq<Digest>, hashed: set<Bytes>)
    requires |a| == |b| && Tree(hash, a) == Tree(hash, b)
    requires TreeQueries(hash, a) + TreeQueries(hash, b) <= hashed
    ensures a == b || Collides(hash, hashed)
    decreases |a|
  {
    if |a| >= 2 {
      TreeBinding(hash, NextLevel(hash, a), NextLevel(hash, b), hashed);
      if NextLevel(hash, a) == NextLevel(hash, b) {
        LevelBinding(hash, a, b, hashed);
      }
    }
  }

  lemma RootInputInjective(m: nat, t: Digest, n: nat, u: Digest)
    requires m <= U64_MAX && n <= U64_MAX && RootInput(m, t) == RootInput(n, u)
    ensures m == n && t == u
  {
    var x, y := RootInput(m, t), RootInput(n, u);
    var k := |Ascii("nas-tools/lease-merkle/v1")|;
    assert x[k..k + 8] == LE(m, 8) && y[k..k + 8] == LE(n, 8) && x[k + 8..] == t && y[k + 8..] == u;
    LE64(m, LE(m, 8));
    LE64(n, LE(n, 8));
  }

  /**
   * The root commits to the set: two lists have one root exactly when they have the same
   * members, whatever their order and repetitions, unless the two computations hashed
   * two strings that collide.
   */
  lemma RootBinding(hash: HashFn, a: seq<Addr>, b: seq<Addr>)
    requires |Canonicalise(a)| <= U64_MAX && |Canonicalise(b)| <= U64_MAX
    ensures Elements(a) == Elements(b) ==> RootSpec(hash, a) == RootSpec(hash, b)
    ensures RootSpec(hash, a) == RootSpec(hash, b) ==>
            Elements(a) == Elements(b) || Collides(hash, RootQueries(hash, a) + RootQueries(hash, b))
  {
    CanonicaliseIsOfTheSet(a, b);
    if RootSpec(hash, a) == RootSpec(hash, b) {
      var s, t := Canonicalise(a), Canonicalise(b);
      var hashed := RootQueries(hash, a) + RootQueries(hash, b);
      var ls, lt := Leaves(hash, s), Leaves(hash, t);
      SameHash(hash, hashed, RootInput(|s|, Tree(hash, ls)), RootInput(|t|, Tree(hash, lt)));
      if !Collides(hash, hashed) {
        RootInputInjective(|s|, Tree(hash, ls), |t|, Tree(hash, lt));
        TreeBinding(hash, ls, lt, hashed);
        forall i | 0 <= i < |s| ensures s[i] == t[i] {
          assert ls[i] == lt[i];
          SameHash(hash, hashed, LeafInput(s[i]), LeafInput(t[i]));
          assert LeafInput(s[i])[1..] == s[i] && LeafInput(t[i])[1..] == t[i];
        }
        assert s == t;
      }
    }
  }

  lemma TreeOfThree(hash: HashFn, x: Digest, y: Digest, z: Digest)
    ensures Tree(hash, [x, y, z]) == Node(hash, Node(hash, x, y), z)
  {
    hide Node;
    var level, two := [x, y, z], [Node(hash, x, y), z];
    assert level[2..] == [z] && NextLevel(hash, level[2..]) == [z];
    assert NextLevel(hash, level) == two;
    var none: seq<Digest> := two[2..];
    assert none == [] && NextLevel(hash, none) == [];
    var one := [Node(hash, two[0], two[1])];
    assert NextLevel(hash, two) == one;
    assert Tree(hash, one) == one[0];
    assert Tree(hash, two) == one[0];
  }

  lemma SortedThree(a: Addr, b: Addr, c: Addr)
    requires Less(a, b) && Less(b, c)
    ensures Canonicalise([c, a, b, a]) == [a, b, c]
  {
    hide Less, Canonicalise;
    LessTransitive(a, b, c);
    var sorted: seq<Addr> := [a, b, c];
    assert Ascending(sorted);
    assert Elements([c, a, b, a]) == {a, b, c} == Elements(sorted);
    AscendingUnique(Canonicalise([c, a, b, a]), sorted);
  }

  /**
   * The tree spelled out where every rule of it shows: out of order and with a repeat, three
   * addresses are sorted, two leaves joined left to right, the third promoted, and the whole
   * hashed with the count.
   */
  lemma RootOfThree(hash: HashFn, a: Addr, b: Addr, c: Addr)
    requires Less(a, b) && Less(b, c)
    ensures RootSpec(hash, [c, a, b, a])
         == hash(Ascii("nas-tools/lease-merkle/v1") + LE(3, 8)
                 + hash([0x01] + hash([0x01] + hash([0x00] + a) + hash([0x00] + b)) + hash([0x00] + c)))
  {
    hide Ascii, LE, Tree, Canonicalise, Less;
    SortedThree(a, b, c);
    var (la, lb, lc) := (Leaf(hash, a), Leaf(hash, b), Leaf(hash, c));
    assert Leaves(hash, [a, b, c]) == [la, lb, lc];
    TreeOfThree(hash, la, lb, lc);
  }
}
