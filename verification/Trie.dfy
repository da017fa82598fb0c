/**
 Idealised Merkle tree: a compacted binary trie over the bits of the key, lowest bit first,
 hashed with a free constructor. It stands for the arbo library, which is not part of this model.
 */
module Trie {
  import opened Results

  /** The value of a leaf: the hash of a public key and its weight. */
  datatype KeyHash = KeyHash(x: nat, y: nat, weight: nat)

  /** A node hash. Being a free constructor it has no collisions; `Zero` is the hash of the empty tree. */
  datatype Digest = Zero | LeafDigest(key: nat, value: KeyHash) | NodeDigest(left: Digest, right: Digest)

  datatype Tree = Empty | Leaf(key: nat, value: KeyHash) | Node(left: Tree, right: Tree)

  function Root(t: Tree): Digest
  {
    match t
    case Empty => Zero
    case Leaf(k, v) => LeafDigest(k, v)
    case Node(l, r) => NodeDigest(Root(l), Root(r))
  }

  function Pow2(n: nat): (p: nat)
    ensures p > 0
  {
    if n == 0 then 1 else 2 * Pow2(n - 1)
  }

  /** Bit `n` of `k`. */
  function Bit(k: nat, n: nat): bool
  {
    if n == 0 then k % 2 == 1 else Bit(k / 2, n - 1)
  }

  /** The lowest `n` bits of `k`, the path a key takes through `n` levels. */
  function Path(k: nat, n: nat): (p: seq<bool>)
    ensures |p| == n
  {
    if n == 0 then [] else Path(k, n - 1) + [Bit(k, n - 1)]
  }

  ghost function Contents(t: Tree): map<nat, KeyHash>
  {
    match t
    case Empty => map[]
    case Leaf(k, v) => map[k := v]
    case Node(l, r) => Contents(l) + Contents(r)
  }

  function Depth(t: Tree): nat
  {
    match t
    case Empty => 0
    case Leaf(_, _) => 0
    case Node(l, r) => 1 + if Depth(l) < Depth(r) then Depth(r) else Depth(l)
  }

  /**
   A subtree hanging below `path`: all its keys run through that path, and no node stands above fewer than
   two leaves, so every leaf sits at the first level where its path is its own.
   */
  ghost predicate WellFormed(t: Tree, path: seq<bool>)
    decreases t
  {
    && (forall k | k in Contents(t) :: Path(k, |path|) == path)
    && match t
       case Empty => true
       case Leaf(_, _) => true
       case Node(l, r) =>
         && (l.Empty? ==> r.Node?) && (r.Empty? ==> l.Node?)
         && WellFormed(l, path + [false]) && WellFormed(r, path + [true])
  }

  // ---------------------------------------------------------------- insertion

  /** Adds a leaf; refused when the key is taken or when its path runs past `max` levels. */
  function Insert(t: Tree, k: nat, v: KeyHash, lvl: nat, max: nat): Option<Tree>
    decreases t
  {
    match t
    case Empty => Some(Leaf(k, v))
    case Leaf(k', v') => if k == k' then None else Split(k', v', k, v, lvl, max)
    case Node(l, r) =>
      if lvl >= max then None
      else if Bit(k, lvl) then
        match Insert(r, k, v, lvl + 1, max)
        case None => None
        case Some(r') => Some(Node(l, r'))
      else
        match Insert(l, k, v, lvl + 1, max)
        case None => None
        case Some(l') => Some(Node(l', r))
  }

  /** Pushes an old leaf and a new one down to the first level where their paths part. */
  function Split(k': nat, v': KeyHash, k: nat, v: KeyHash, lvl: nat, max: nat): Option<Tree>
    decreases max - lvl
  {
    if lvl >= max then None
    else if Bit(k', lvl) != Bit(k, lvl) then
      if Bit(k, lvl) then Some(Node(Leaf(k', v'), Leaf(k, v))) else Some(Node(Leaf(k, v), Leaf(k', v')))
    else
      match Split(k', v', k, v, lvl + 1, max)
      case None => None
      case Some(sub) => if Bit(k, lvl) then Some(Node(Empty, sub)) else Some(Node(sub, Empty))
  }

  lemma {:induction false} PathPrefix(k: nat, m: nat, n: nat)
    requires m <= n
    ensures Path(k, n)[..m] == Path(k, m)
    ensures m < n ==> Path(k, n)[m] == Bit(k, m)
    decreases n
  {
    if m < n {
      PathPrefix(k, m, n - 1);
      assert Path(k, n)[..m] == Path(k, n - 1)[..m];
    } else {
      assert Path(k, n)[..m] == Path(k, n);
    }
  }

  lemma {:induction false} BitsDiffer(a: nat, b: nat, lvl: nat, n: nat)
    requires lvl < n && Bit(a, lvl) != Bit(b, lvl)
    ensures Path(a, n) != Path(b, n)
  {
    PathPrefix(a, lvl, n);
    PathPrefix(b, lvl, n);
  }

  /** No key of `m` has the lowest `max` bits of `k`. */
  ghost predicate Free(m: map<nat, KeyHash>, k: nat, max: nat)
  {
    forall a | a in m :: Path(a, max) != Path(k, max)
  }

  /** What insertion promises: the new entry and no other, kept in shape. */
  ghost predicate Inserted(r: Option<Tree>, before: map<nat, KeyHash>, k: nat, v: KeyHash, path: seq<bool>, max: nat)
  {
    && (r.Some? <==> Free(before, k, max))
    && (r.Some? ==> k !in before && Contents(r.value) == before[k := v] && WellFormed(r.value, path))
  }

  lemma {:induction false} SplitSpec(k': nat, v': KeyHash, k: nat, v: KeyHash, path: seq<bool>, max: nat)
    requires |path| <= max && Path(k', |path|) == path && Path(k, |path|) == path
    ensures var r := Split(k', v', k, v, |path|, max);
            Inserted(r, map[k' := v'], k, v, path, max) && (r.Some? ==> r.value.Node?)
    decreases max - |path|
  {
    var lvl, one := |path|, map[k' := v'];
    assert k' in one;
    assert Free(one, k, max) <==> Path(k', max) != Path(k, max);
    if lvl == max {
    } else if Bit(k', lvl) == Bit(k, lvl) {
      SplitSpec(k', v', k, v, path + [Bit(k, lvl)], max);
      var sub := Split(k', v', k, v, lvl + 1, max);
      if sub.Some? {
        SplitBelow(k', v', k, v, path, max, sub.value);
      }
    } else {
      BitsDiffer(k', k, lvl, max);
      SplitHere(k', v', k, v, path, max);
    }
  }

  lemma SplitBelow(k': nat, v': KeyHash, k: nat, v: KeyHash, path: seq<bool>, max: nat, sub: Tree)
    requires |path| < max && Path(k', |path|) == path && Path(k, |path|) == path
    requires Bit(k', |path|) == Bit(k, |path|) && Split(k', v', k, v, |path| + 1, max) == Some(sub)
    requires sub.Node? && Contents(sub) == map[k' := v'][k := v] && WellFormed(sub, path + [Bit(k, |path|)])
    ensures var r := Split(k', v', k, v, |path|, max);
            r.Some? && r.value.Node? && Contents(r.value) == Contents(sub) && WellFormed(r.value, path)
  {
    OneChild(sub, path, Bit(k, |path|));
  }

  /** A subtree with two leaves or more may hang alone below its parent. */
  lemma OneChild(sub: Tree, path: seq<bool>, turn: bool)
    requires sub.Node? && WellFormed(sub, path + [turn])
    requires forall k | k in Contents(sub) :: Path(k, |path|) == path
    ensures var t := if turn then Node(Empty, sub) else Node(sub, Empty);
            Contents(t) == Contents(sub) && WellFormed(t, path)
  {
    assert Contents(Empty) + Contents(sub) == Contents(sub) == Contents(sub) + Contents(Empty);
  }

  lemma SplitHere(k': nat, v': KeyHash, k: nat, v: KeyHash, path: seq<bool>, max: nat)
    requires |path| < max && Path(k', |path|) == path && Path(k, |path|) == path
    requires Bit(k', |path|) != Bit(k, |path|)
    ensures var r := Split(k', v', k, v, |path|, max);
            r.Some? && r.value.Node? && k != k' && Contents(r.value) == map[k' := v'][k := v] && WellFormed(r.value, path)
  {
    assert Contents(Split(k', v', k, v, |path|, max).value) == map[k' := v'][k := v];
    assert Path(k, |path| + 1) == path + [Bit(k, |path|)];
    assert Path(k', |path| + 1) == path + [Bit(k', |path|)];
  }

  /**
   Insertion succeeds exactly when no stored key has the same lowest `max` bits, and then the result is a
   well-formed trie with one more entry.
   */
  lemma {:induction false} InsertSpec(t: Tree, k: nat, v: KeyHash, path: seq<bool>, max: nat)
    requires WellFormed(t, path) && |path| <= max && Path(k, |path|) == path
    ensures var r := Insert(t, k, v, |path|, max);
            Inserted(r, Contents(t), k, v, path, max) && (r.Some? && !t.Empty? ==> r.value.Node?)
    decreases t
  {
    match t
    case Empty =>
      assert Contents(Leaf(k, v)) == Contents(t)[k := v];
    case Leaf(k', v') =>
      if k != k' {
        SplitSpec(k', v', k, v, path, max);
      } else {
        assert k' in Contents(t);
      }
    case Node(l, r) =>
      if |path| < max {
        InsertNode(t, k, v, path, max);
      } else {
        var a, b := NodeHasTwoKeys(t, path);
        assert Path(a, max) == Path(k, max);
      }
  }

  /** In a node, the next bit of a key says which child holds it. */
  lemma NodeBits(t: Tree, path: seq<bool>)
    requires t.Node? && WellFormed(t, path)
    ensures forall k | k in Contents(t.left) :: !Bit(k, |path|)
    ensures forall k | k in Contents(t.right) :: Bit(k, |path|)
  {
    KeysTurn(t.left, path, false);
    KeysTurn(t.right, path, true);
  }

  lemma KeysTurn(t: Tree, path: seq<bool>, turn: bool)
    requires WellFormed(t, path + [turn])
    ensures forall k | k in Contents(t) :: Bit(k, |path|) == turn
  {
    forall k | k in Contents(t) ensures Bit(k, |path|) == turn {
      LastOfPath(k, path, turn);
    }
  }

  lemma LastOfPath(k: nat, path: seq<bool>, turn: bool)
    requires Path(k, |path + [turn]|) == path + [turn]
    ensures Bit(k, |path|) == turn
  {
    assert Path(k, |path| + 1)[|path|] == Bit(k, |path|);
  }

  lemma NodeDisjoint(t: Tree, path: seq<bool>)
    requires t.Node? && WellFormed(t, path)
    ensures Contents(t.left).Keys !! Contents(t.right).Keys
    ensures Contents(t) == Contents(t.right) + Contents(t.left)
  {
    NodeBits(t, path);
  }

  lemma {:induction false} InsertNode(t: Tree, k: nat, v: KeyHash, path: seq<bool>, max: nat)
    requires t.Node? && WellFormed(t, path) && |path| < max && Path(k, |path|) == path
    ensures var r := Insert(t, k, v, |path|, max);
            Inserted(r, Contents(t), k, v, path, max) && (r.Some? ==> r.value.Node?)
    decreases t, 0
  {
    var lvl := |path|;
    var into, other := if Bit(k, lvl) then t.right else t.left, if Bit(k, lvl) then t.left else t.right;
    var s := Insert(into, k, v, lvl + 1, max);
    InsertSpec(into, k, v, path + [Bit(k, lvl)], max);
    NoneBeside(t, k, path, max);
    if s.Some? {
      JoinChildren(t, into, other, s.value, k, v, path);
    }
  }

  /** Only keys in the child that `k` enters can block its way. */
  lemma NoneBeside(t: Tree, k: nat, path: seq<bool>, max: nat)
    requires t.Node? && WellFormed(t, path) && |path| < max
    ensures Free(Contents(if Bit(k, |path|) then t.right else t.left), k, max) <==> Free(Contents(t), k, max)
  {
    NodeBits(t, path);
    forall a | a in Contents(t) && Bit(a, |path|) != Bit(k, |path|) ensures Path(a, max) != Path(k, max) {
      BitsDiffer(a, k, |path|, max);
    }
  }

  lemma JoinChildren(t: Tree, into: Tree, other: Tree, into': Tree, k: nat, v: KeyHash, path: seq<bool>)
    requires t.Node? && WellFormed(t, path) && Path(k, |path|) == path
    requires into == (if Bit(k, |path|) then t.right else t.left) && other == if Bit(k, |path|) then t.left else t.right
    requires k !in Contents(into) && Contents(into') == Contents(into)[k := v]
    requires WellFormed(into', path + [Bit(k, |path|)])
    requires !into'.Empty? && (!into.Empty? ==> into'.Node?)
    ensures var t' := if Bit(k, |path|) then Node(other, into') else Node(into', other);
            k !in Contents(t) && Contents(t') == Contents(t)[k := v] && WellFormed(t', path)
  {
    NodeBits(t, path);
    NodeDisjoint(t, path);
    InsertedBeside(Contents(other), Contents(into), k, v);
    var t' := if Bit(k, |path|) then Node(other, into') else Node(into', other);
    assert Contents(t') == Contents(other) + Contents(into') by {
      assert Contents(other).Keys !! Contents(into').Keys;
    }
  }

  lemma InsertedBeside(other: map<nat, KeyHash>, into: map<nat, KeyHash>, k: nat, v: KeyHash)
    ensures other + into[k := v] == (other + into)[k := v]
  {}

  /** A node stands above two different keys. */
  lemma {:induction false} NodeHasTwoKeys(t: Tree, path: seq<bool>) returns (a: nat, b: nat)
    requires t.Node? && WellFormed(t, path)
    ensures a in Contents(t) && b in Contents(t) && a != b
    decreases t
  {
    if t.left.Node? {
      a, b := NodeHasTwoKeys(t.left, path + [false]);
    } else if t.right.Node? {
      a, b := NodeHasTwoKeys(t.right, path + [true]);
    } else {
      a, b := t.left.key, t.right.key;
      assert a in Contents(t.left) && b in Contents(t.right);
      NodeDisjoint(t, path);
    }
  }

  // ---------------------------------------------------------------- depth

  lemma {:induction false} PathHalves(k: nat, n: nat)
    ensures Path(k, n + 1) == [k % 2 == 1] + Path(k / 2, n)
    decreases n
  {
    if n > 0 { PathHalves(k, n - 1); }
  }

  /** Keys below 2^n are told apart by their lowest `n` bits. */
  lemma {:induction false} PathInjective(a: nat, b: nat, n: nat)
    requires a < Pow2(n) && b < Pow2(n) && Path(a, n) == Path(b, n)
    ensures a == b
  {
    if n > 0 {
      PathHalves(a, n - 1);
      PathHalves(b, n - 1);
      assert Path(a, n)[0] == Path(b, n)[0];
      assert Path(a, n)[1..] == Path(a / 2, n - 1) && Path(b, n)[1..] == Path(b / 2, n - 1);
      PathInjective(a / 2, b / 2, n - 1);
    }
  }

  /** Adding multiples of 2^n leaves the lowest `n` bits alone. */
  lemma {:induction false} PathPeriodic(r: nat, q: nat, n: nat)
    ensures Path(r + q * Pow2(n), n) == Path(r, n)
  {
    if n > 0 {
      var k := r + q * Pow2(n);
      assert k == r + 2 * (q * Pow2(n - 1));
      PathHalves(k, n - 1);
      PathHalves(r, n - 1);
      assert k % 2 == r % 2 && k / 2 == r / 2 + q * Pow2(n - 1);
      PathPeriodic(r / 2, q, n - 1);
    }
  }

  lemma Division(k: nat, p: nat)
    requires p > 0
    ensures k == k % p + (k / p) * p && k % p < p && k % p <= k
    ensures k % p != k ==> k >= k % p + p
  {
    var q := k / p;
    assert k == p * q + k % p;
    if q > 0 { assert p * q == p * (q - 1) + p; }
  }

  lemma PathOfNext(r: nat, n: nat)
    ensures Path(r + Pow2(n), n) == Path(r, n)
  {
    PathPeriodic(r, 1, n);
  }

  lemma PathOfRemainder(k: nat, n: nat)
    ensures Path(k % Pow2(n), n) == Path(k, n)
  {
    var p := Pow2(n);
    Division(k, p);
    PathPeriodic(k % p, k / p, n);
  }

  /** Two keys take the same path through `n` levels exactly when they are equal modulo 2^n. */
  lemma PathsEqualIff(a: nat, b: nat, n: nat)
    ensures Path(a, n) == Path(b, n) <==> a % Pow2(n) == b % Pow2(n)
  {
    PathOfRemainder(a, n);
    PathOfRemainder(b, n);
    if Path(a, n) == Path(b, n) { PathInjective(a % Pow2(n), b % Pow2(n), n); }
  }

  lemma {:induction false} HighBit(r: nat, n: nat)
    requires r < Pow2(n)
    ensures !Bit(r, n) && Bit(r + Pow2(n), n)
  {
    if n > 0 {
      HighBit(r / 2, n - 1);
      assert (r + Pow2(n)) / 2 == r / 2 + Pow2(n - 1);
    }
  }

  lemma {:induction false} Pow2Monotone(a: nat, b: nat)
    requires a <= b
    ensures Pow2(a) <= Pow2(b)
  {
    if a < b { Pow2Monotone(a, b - 1); }
  }

  /** A trie whose keys differ within their lowest `n` bits is at most `n` levels deep. */
  lemma {:induction false} DepthSeparate(t: Tree, path: seq<bool>, n: nat)
    requires WellFormed(t, path) && |path| <= n
    requires forall a, b | a in Contents(t) && b in Contents(t) && a != b :: Path(a, n) != Path(b, n)
    ensures Depth(t) <= n - |path|
    decreases t
  {
    if t.Node? {
      if |path| == n {
        var a, b := NodeHasTwoKeys(t, path);
      } else {
        NodeDisjoint(t, path);
        DepthSeparate(t.left, path + [false], n);
        DepthSeparate(t.right, path + [true], n);
      }
    }
  }

  /** In particular a trie whose keys all lie below 2^n. */
  lemma DepthBound(t: Tree, path: seq<bool>, n: nat)
    requires WellFormed(t, path) && |path| <= n
    requires forall k | k in Contents(t) :: k < Pow2(n)
    ensures Depth(t) <= n - |path|
  {
    forall a, b | a in Contents(t) && b in Contents(t) && a != b ensures Path(a, n) != Path(b, n) {
      if Path(a, n) == Path(b, n) { PathInjective(a, b, n); }
    }
    DepthSeparate(t, path, n);
  }

  // ---------------------------------------------------------------- proofs

  /** The value stored under `k` in a subtree at level `lvl`. */
  function Find(t: Tree, k: nat, lvl: nat): Option<KeyHash>
    decreases t
  {
    match t
    case Empty => None
    case Leaf(k', v) => if k == k' then Some(v) else None
    case Node(l, r) => Find(if Bit(k, lvl) then r else l, k, lvl + 1)
  }

  lemma {:induction false} FindSpec(t: Tree, k: nat, path: seq<bool>)
    requires WellFormed(t, path) && Path(k, |path|) == path
    ensures Find(t, k, |path|) == if k in Contents(t) then Some(Contents(t)[k]) else None
    decreases t
  {
    if t.Node? {
      NodeBits(t, path);
      NodeDisjoint(t, path);
      FindSpec(if Bit(k, |path|) then t.right else t.left, k, path + [Bit(k, |path|)]);
    }
  }

  /** The siblings met on the way from the root of `t`, at level `lvl`, to the leaf of key `k`. */
  function Siblings(t: Tree, k: nat, lvl: nat): Option<seq<Digest>>
    decreases t
  {
    match t
    case Empty => None
    case Leaf(k', _) => if k == k' then Some([]) else None
    case Node(l, r) =>
      if Bit(k, lvl) then
        match Siblings(r, k, lvl + 1)
        case None => None
        case Some(s) => Some([Root(l)] + s)
      else
        match Siblings(l, k, lvl + 1)
        case None => None
        case Some(s) => Some([Root(r)] + s)
  }

  /** The hash that a leaf and its siblings recompute for the subtree at level `lvl`. */
  function Recompute(k: nat, v: KeyHash, siblings: seq<Digest>, lvl: nat): Digest
    decreases |siblings|
  {
    if siblings == [] then LeafDigest(k, v)
    else
      var below := Recompute(k, v, siblings[1..], lvl + 1);
      if Bit(k, lvl) then NodeDigest(siblings[0], below) else NodeDigest(below, siblings[0])
  }

  predicate CheckProof(k: nat, v: KeyHash, root: Digest, siblings: seq<Digest>)
  {
    Recompute(k, v, siblings, 0) == root
  }

  /** Every leaf has a proof, no other key has one, and the proof recomputes the root. */
  lemma {:induction false} ProofComplete(t: Tree, k: nat, path: seq<bool>)
    requires WellFormed(t, path) && Path(k, |path|) == path
    ensures var s := Siblings(t, k, |path|);
            && (s.Some? <==> k in Contents(t))
            && (s.Some? ==> Recompute(k, Contents(t)[k], s.value, |path|) == Root(t))
    decreases t
  {
    if t.Node? {
      var lvl := |path|;
      var into, other := if Bit(k, lvl) then t.right else t.left, if Bit(k, lvl) then t.left else t.right;
      ProofComplete(into, k, path + [Bit(k, lvl)]);
      ChildHolds(t, k, path);
      var s := Siblings(into, k, lvl + 1);
      if s.Some? {
        assert ([Root(other)] + s.value)[1..] == s.value;
      }
    }
  }

  /** A proof is no longer than the trie is deep, and its last sibling is never the empty hash. */
  lemma {:induction false} ProofShape(t: Tree, k: nat, path: seq<bool>)
    requires WellFormed(t, path) && Siblings(t, k, |path|).Some?
    ensures var s := Siblings(t, k, |path|).value;
            |s| <= Depth(t) && (s != [] ==> s[|s| - 1] != Zero)
    decreases t
  {
    if t.Node? {
      var turn := Bit(k, |path|);
      var into := if turn then t.right else t.left;
      ProofShape(into, k, path + [turn]);
      if Siblings(into, k, |path| + 1).value == [] { LeafHasNoSiblings(into, k, |path| + 1); }
    }
  }

  lemma ChildHolds(t: Tree, k: nat, path: seq<bool>)
    requires t.Node? && WellFormed(t, path)
    ensures var into := if Bit(k, |path|) then t.right else t.left;
            (k in Contents(t) <==> k in Contents(into)) && (k in Contents(t) ==> Contents(t)[k] == Contents(into)[k])
  {
    NodeBits(t, path);
    NodeDisjoint(t, path);
  }

  lemma LeafHasNoSiblings(t: Tree, k: nat, lvl: nat)
    requires Siblings(t, k, lvl) == Some([])
    ensures t.Leaf?
  {}

  /** Siblings that recompute the root of a trie belong to a leaf of it, and are that leaf's siblings. */
  lemma {:induction false} ProofSound(t: Tree, k: nat, v: KeyHash, siblings: seq<Digest>, lvl: nat)
    requires Recompute(k, v, siblings, lvl) == Root(t)
    ensures Siblings(t, k, lvl) == Some(siblings)
    decreases t
  {
    if siblings != [] {
      assert t.Node?;
      ProofSound(if Bit(k, lvl) then t.right else t.left, k, v, siblings[1..], lvl + 1);
      assert siblings == [siblings[0]] + siblings[1..];
    }
  }

  lemma {:induction false} ProofBindsValue(t: Tree, k: nat, v: KeyHash, siblings: seq<Digest>, path: seq<bool>)
    requires WellFormed(t, path) && Path(k, |path|) == path
    requires Recompute(k, v, siblings, |path|) == Root(t)
    ensures k in Contents(t) && Contents(t)[k] == v
    decreases t
  {
    if siblings != [] {
      NodeDisjoint(t, path);
      ProofBindsValue(if Bit(k, |path|) then t.right else t.left, k, v, siblings[1..], path + [Bit(k, |path|)]);
    }
  }

  /**
   A proof is accepted against the root of a trie exactly when it is the proof of one of its leaves:
   completeness, soundness and uniqueness of proofs in one statement.
   */
  lemma {:induction false} ProofIff(t: Tree, k: nat, v: KeyHash, siblings: seq<Digest>)
    requires WellFormed(t, [])
    ensures CheckProof(k, v, Root(t), siblings)
       <==> k in Contents(t) && Contents(t)[k] == v && Siblings(t, k, 0) == Some(siblings)
  {
    ProofComplete(t, k, []);
    if CheckProof(k, v, Root(t), siblings) {
      ProofSound(t, k, v, siblings, 0);
      ProofBindsValue(t, k, v, siblings, []);
    }
  }

  /** The root hash determines the trie. */
  lemma {:induction false} RootInjective(t: Tree, u: Tree)
    requires Root(t) == Root(u)
    ensures t == u
  {
    if t.Node? {
      RootInjective(t.left, u.left);
      RootInjective(t.right, u.right);
    }
  }

  /** Two leaves of one trie never share a proof. */
  lemma {:induction false} ProofsDiffer(t: Tree, a: nat, b: nat, path: seq<bool>)
    requires WellFormed(t, path) && Path(a, |path|) == path && Path(b, |path|) == path
    requires Siblings(t, a, |path|).Some? && Siblings(t, a, |path|) == Siblings(t, b, |path|)
    ensures a == b
    decreases t
  {
    if t.Node? {
      var lvl := |path|;
      var sa, sb := Siblings(t, a, lvl).value, Siblings(t, b, lvl).value;
      if Bit(a, lvl) == Bit(b, lvl) {
        var into := if Bit(a, lvl) then t.right else t.left;
        assert sa[1..] == Siblings(into, a, lvl + 1).value && sb[1..] == Siblings(into, b, lvl + 1).value;
        ProofsDiffer(into, a, b, path + [Bit(a, lvl)]);
      } else {
        assert sa[0] == sb[0];
        RootInjective(t.left, t.right);
        NodeDisjoint(t, path);
        NodeHasKey(t.left, path + [false]);
      }
    }
  }

  lemma NodeHasKey(t: Tree, path: seq<bool>)
    requires WellFormed(t, path) && !t.Empty?
    ensures exists k :: k in Contents(t)
  {
    if t.Node? {
      var a, b := NodeHasTwoKeys(t, path);
    } else {
      assert t.key in Contents(t);
    }
  }

  // ---------------------------------------------------------------- proofs of tries over consecutive keys

  /** A subtree below `path` of a trie over the keys 0 .. n - 1. */
  ghost predicate Dense(t: Tree, path: seq<bool>, n: nat)
  {
    WellFormed(t, path) && forall k: nat :: k in Contents(t) <==> k < n && Path(k, |path|) == path
  }

  /** With a key, a dense subtree holds the least key of its path. */
  lemma LeastKey(t: Tree, path: seq<bool>, n: nat, k: nat)
    requires Dense(t, path, n) && k in Contents(t)
    ensures k % Pow2(|path|) in Contents(t)
  {
    PathOfRemainder(k, |path|);
    Division(k, Pow2(|path|));
  }

  /** In a dense subtree no node has an empty child. */
  lemma DenseNode(t: Tree, path: seq<bool>, n: nat)
    requires t.Node? && Dense(t, path, n)
    ensures Contents(t.left) != map[] && Contents(t.right) != map[]
  {
    var r := LowestTwo(t, path, n);
    HighBit(r, |path|);
    NodeBits(t, path);
    assert r in Contents(t.left) && r + Pow2(|path|) in Contents(t.right);
  }

  /** A dense node holds the two least keys of its path. */
  lemma LowestTwo(t: Tree, path: seq<bool>, n: nat) returns (r: nat)
    requires t.Node? && Dense(t, path, n)
    ensures r < Pow2(|path|) && r in Contents(t) && r + Pow2(|path|) in Contents(t)
  {
    var p := Pow2(|path|);
    var a, b := NodeHasTwoKeys(t, path);
    PathsEqualIff(a, b, |path|);
    r := a % p;
    var k := if r == a then b else a;
    Division(k, p);
    LeastKey(t, path, n, k);
    PathOfNext(r, |path|);
    SmallerKey(t, path, n, r + p, k);
  }

  lemma SmallerKey(t: Tree, path: seq<bool>, n: nat, next: nat, k: nat)
    requires Dense(t, path, n) && k in Contents(t) && next <= k && Path(next, |path|) == path
    ensures next in Contents(t)
  {}

  lemma DenseChild(t: Tree, path: seq<bool>, n: nat, turn: bool)
    requires t.Node? && Dense(t, path, n)
    ensures Dense(if turn then t.right else t.left, path + [turn], n)
  {
    NodeBits(t, path);
    NodeDisjoint(t, path);
    var child := if turn then t.right else t.left;
    forall k: nat ensures k in Contents(child) <==> k < n && Path(k, |path + [turn]|) == path + [turn] {
      assert Path(k, |path| + 1) == Path(k, |path|) + [Bit(k, |path|)];
      if Path(k, |path + [turn]|) == path + [turn] {
        LastOfPath(k, path, turn);
        assert Path(k, |path|) == path by { assert Path(k, |path| + 1)[..|path|] == Path(k, |path|) == (path + [turn])[..|path|]; }
      }
    }
  }

  /**
   The length of a proof, exactly: in the trie over 0 .. n - 1, the proof of key k has at most m siblings when k
   is below 2^m and the next key on its path, k + 2^m, is past the end.
   */
  lemma {:induction false} ProofLengthIff(t: Tree, path: seq<bool>, n: nat, k: nat, m: nat)
    requires Dense(t, path, n) && Siblings(t, k, |path|).Some? && Path(k, |path|) == path && |path| <= m
    ensures |path| + |Siblings(t, k, |path|).value| <= m <==> k < Pow2(m) && n <= k + Pow2(m)
    decreases t
  {
    ProofComplete(t, k, path);
    if t.Leaf? {
      AloneInRange(t, path, n, k);
      Pow2Monotone(|path|, m);
    } else if |path| == m {
      CrowdedNode(t, path, n, k);
    } else {
      var turn := Bit(k, |path|);
      var into := if turn then t.right else t.left;
      DenseChild(t, path, n, turn);
      ProofLengthIff(into, path + [turn], n, k, m);
    }
  }

  lemma AloneInRange(t: Tree, path: seq<bool>, n: nat, k: nat)
    requires t.Leaf? && t.key == k && Dense(t, path, n)
    ensures k < Pow2(|path|) && n <= k + Pow2(|path|)
  {
    var p := Pow2(|path|);
    LeastKey(t, path, n, k);
    Division(k, p);
    PathOfNext(k, |path|);
    assert k + p !in Contents(t);
  }

  lemma CrowdedNode(t: Tree, path: seq<bool>, n: nat, k: nat)
    requires t.Node? && Dense(t, path, n) && k in Contents(t)
    ensures !(k < Pow2(|path|) && n <= k + Pow2(|path|))
  {
    var p := Pow2(|path|);
    if k < p {
      var a, b := NodeHasTwoKeys(t, path);
      var other := if a == k then b else a;
      PathsEqualIff(k, other, |path|);
      Division(k, p);
      Division(other, p);
    }
  }

  /**
   Leaves with different keys never share a proof, not even across two tries of different sizes with
   different values, as long as each trie holds consecutive keys from 0.
   */
  lemma {:induction false} ProofsDifferAcross(t: Tree, u: Tree, a: nat, b: nat, path: seq<bool>, n: nat, m: nat)
    requires Dense(t, path, n) && Dense(u, path, m)
    requires Path(a, |path|) == path && Path(b, |path|) == path
    requires Siblings(t, a, |path|).Some? && Siblings(t, a, |path|) == Siblings(u, b, |path|)
    ensures a == b
    decreases t
  {
    var lvl := |path|;
    var sa, sb := Siblings(t, a, lvl).value, Siblings(u, b, lvl).value;
    if t.Leaf? {
      LeafHasNoSiblings(u, b, lvl);
      LeastKey(t, path, n, a);
      LeastKey(u, path, m, b);
      PathsEqualIff(a, b, lvl);
    } else {
      assert u.Node?;
      SameTurn(t, u, a, b, path, n, m, sa[0]);
      var turn := Bit(a, lvl);
      var into, into' := if turn then t.right else t.left, if turn then u.right else u.left;
      assert sa[1..] == Siblings(into, a, lvl + 1).value && sb[1..] == Siblings(into', b, lvl + 1).value;
      DenseChild(t, path, n, turn);
      DenseChild(u, path, m, turn);
      ProofsDifferAcross(into, into', a, b, path + [turn], n, m);
    }
  }

  /** The first sibling tells which way the key turned. */
  lemma SameTurn(t: Tree, u: Tree, a: nat, b: nat, path: seq<bool>, n: nat, m: nat, sibling: Digest)
    requires t.Node? && u.Node? && Dense(t, path, n) && Dense(u, path, m)
    requires sibling == Root(if Bit(a, |path|) then t.left else t.right) == Root(if Bit(b, |path|) then u.left else u.right)
    ensures Bit(a, |path|) == Bit(b, |path|)
  {
    var x, y := if Bit(a, |path|) then t.left else t.right, if Bit(b, |path|) then u.left else u.right;
    RootInjective(x, y);
    DenseNode(t, path, n);
    var k :| k in Contents(x);
    NodeBits(t, path);
    NodeBits(u, path);
  }

  // ---------------------------------------------------------------- the shape depends on the contents only

  /** Well-formed tries with the same entries are the same trie, so the order of insertion leaves no trace. */
  lemma {:induction false} Canonical(t: Tree, u: Tree, path: seq<bool>)
    requires WellFormed(t, path) && WellFormed(u, path) && Contents(t) == Contents(u)
    ensures t == u
    decreases t
  {
    if t.Node? && u.Node? {
      ChildContents(t, path);
      ChildContents(u, path);
      Canonical(t.left, u.left, path + [false]);
      Canonical(t.right, u.right, path + [true]);
    } else if t.Node? {
      var a, b := NodeHasTwoKeys(t, path);
    } else if u.Node? {
      var a, b := NodeHasTwoKeys(u, path);
    } else {
      assert t.Leaf? ==> t.key in Contents(u);
      assert u.Leaf? ==> u.key in Contents(t);
    }
  }

  lemma ChildContents(t: Tree, path: seq<bool>)
    requires t.Node? && WellFormed(t, path)
    ensures Contents(t.left) == map k | k in Contents(t) && !Bit(k, |path|) :: Contents(t)[k]
    ensures Contents(t.right) == map k | k in Contents(t) && Bit(k, |path|) :: Contents(t)[k]
  {
    NodeBits(t, path);
  }

  // ---------------------------------------------------------------- batches

  /** Adds the leaves one after the other; returns the positions of those that were refused. */
  function AddBatch(t: Tree, keys: seq<nat>, values: seq<KeyHash>, max: nat): (r: (Tree, seq<nat>))
    requires |keys| == |values|
    decreases |keys|
  {
    if keys == [] then (t, [])
    else
      var n := |keys| - 1;
      var before := AddBatch(t, keys[..n], values[..n], max);
      match Insert(before.0, keys[n], values[n], 0, max)
      case None => (before.0, before.1 + [n])
      case Some(t') => (t', before.1)
  }

  ghost function Entries(keys: seq<nat>, values: seq<KeyHash>): map<nat, KeyHash>
    requires |keys| == |values|
  {
    if keys == [] then map[]
    else
      var n := |keys| - 1;
      Entries(keys[..n], values[..n])[keys[n] := values[n]]
  }

  /** The new keys have paths of their own within `max` levels. */
  ghost predicate Separate(t: Tree, keys: seq<nat>, max: nat)
  {
    && (forall i | 0 <= i < |keys| :: Free(Contents(t), keys[i], max))
    && (forall i, j | 0 <= i < j < |keys| :: Path(keys[i], max) != Path(keys[j], max))
  }

  lemma {:induction false} EntriesAre(keys: seq<nat>, values: seq<KeyHash>)
    requires |keys| == |values|
    requires forall i, j | 0 <= i < j < |keys| :: keys[i] != keys[j]
    ensures forall k :: k in Entries(keys, values) <==> k in keys
    ensures forall i | 0 <= i < |keys| :: Entries(keys, values)[keys[i]] == values[i]
  {
    if keys != [] {
      var n := |keys| - 1;
      var front := keys[..n];
      assert forall i | 0 <= i < n :: front[i] == keys[i];
      EntriesAre(front, values[..n]);
      assert keys == front + [keys[n]];
    }
  }

  /** A batch goes in whole exactly when its keys are separate, and then adds exactly its entries. */
  lemma {:induction false} AddBatchSpec(t: Tree, keys: seq<nat>, values: seq<KeyHash>, max: nat)
    requires WellFormed(t, []) && |keys| == |values|
    ensures var r := AddBatch(t, keys, values, max);
            && WellFormed(r.0, [])
            && (r.1 == [] <==> Separate(t, keys, max))
            && (r.1 == [] ==> Contents(r.0) == Contents(t) + Entries(keys, values))
    decreases |keys|
  {
    if keys == [] {
      assert Contents(t) == Contents(t) + map[];
    } else {
      var n := |keys| - 1;
      var front := keys[..n];
      AddBatchSpec(t, front, values[..n], max);
      var before := AddBatch(t, front, values[..n], max);
      InsertSpec(before.0, keys[n], values[n], [], max);
      SeparateSplits(t, keys, values, max);
      if before.1 == [] {
        InsertedBeside(Contents(t), Entries(front, values[..n]), keys[n], values[n]);
      }
    }
  }

  lemma SeparateSplits(t: Tree, keys: seq<nat>, values: seq<KeyHash>, max: nat)
    requires |keys| == |values| > 0
    ensures var n := |keys| - 1;
            Separate(t, keys, max)
            <==> Separate(t, keys[..n], max) && Free(Contents(t) + Entries(keys[..n], values[..n]), keys[n], max)
  {
    var n := |keys| - 1;
    var front := keys[..n];
    LastSeparate(t, keys, max);
    if Separate(t, front, max) {
      forall i, j | 0 <= i < j < n ensures front[i] != front[j] {
        assert Path(front[i], max) != Path(front[j], max);
      }
      EntriesAre(front, values[..n]);
      FreeOfBoth(Contents(t), Entries(front, values[..n]), front, keys[n], max);
    }
  }

  lemma LastSeparate(t: Tree, keys: seq<nat>, max: nat)
    requires |keys| > 0
    ensures var n := |keys| - 1;
            Separate(t, keys, max)
            <==> Separate(t, keys[..n], max) && Free(Contents(t), keys[n], max)
                 && forall i | 0 <= i < n :: Path(keys[..n][i], max) != Path(keys[n], max)
  {
    var n := |keys| - 1;
    var front := keys[..n];
    assert forall i | 0 <= i < n :: front[i] == keys[i];
    if Separate(t, keys, max) {
      assert Separate(t, front, max);
    }
  }

  lemma FreeOfBoth(m: map<nat, KeyHash>, added: map<nat, KeyHash>, front: seq<nat>, k: nat, max: nat)
    requires forall a :: a in added <==> a in front
    ensures Free(m + added, k, max)
       <==> Free(m, k, max) && forall i | 0 <= i < |front| :: Path(front[i], max) != Path(k, max)
  {
    if Free(m + added, k, max) {
      forall i | 0 <= i < |front| ensures Path(front[i], max) != Path(k, max) {
        assert front[i] in added;
      }
    }
  }

  /** Adding two batches in turn is adding them at once, when both go in whole. */
  lemma {:induction false} AddBatchAppend(t: Tree, ks: seq<nat>, vs: seq<KeyHash>, ks': seq<nat>, vs': seq<KeyHash>, max: nat)
    requires |ks| == |vs| && |ks'| == |vs'|
    ensures var one, first := AddBatch(t, ks + ks', vs + vs', max), AddBatch(t, ks, vs, max);
            var second := AddBatch(first.0, ks', vs', max);
            one.0 == second.0 && (one.1 == [] <==> first.1 == [] && second.1 == [])
    decreases |ks'|
  {
    if ks' == [] {
      assert ks + ks' == ks && vs + vs' == vs;
    } else {
      var n, m := |ks'| - 1, |ks + ks'| - 1;
      AddBatchAppend(t, ks, vs, ks'[..n], vs'[..n], max);
      assert (ks + ks')[..m] == ks + ks'[..n];
      assert (vs + vs')[..m] == vs + vs'[..n];
      assert (ks + ks')[m] == ks'[n] && (vs + vs')[m] == vs'[n];
    }
  }
}
