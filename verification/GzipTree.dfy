/** Huffman trees of gzip: building from code lengths, and decoding (libc/gzip.c:209-338). */
module GzipTree {
  import opened Words
  import opened Counting
  import opened BitStream
  import opened CanonicalCode
  import opened GzipBits

  const MAX_BITS := 15
  const MAX_SYMS := 288
  const MAX_NODES := MAX_SYMS * MAX_BITS + 1

  datatype Parsed<+T> = Ok(value: T, rest: seq<bool>) | Failed

  // ---- tries ----

  /** The child of a node for bit b is the node of the extended path, or there is no such node. */
  ghost predicate Down(link: seq<int>, paths: seq<seq<bool>>, id: nat, b: bool)
    requires id < |paths| <= |link|
  {
    if link[id] < 0 then link[id] == -1 && paths[id] + [b] !in paths
    else link[id] < |paths| && paths[link[id]] == paths[id] + [b]
  }

  /** Nodes stand for bit paths: node 0 for the empty one, every node's parent is there, and links follow the paths. */
  ghost predicate Trie(left: seq<int>, right: seq<int>, paths: seq<seq<bool>>) {
    && 0 < |paths| <= |left| && |paths| <= |right| && paths[0] == [] && Distinct(paths)
    && (forall id :: 0 <= id < |paths| ==> Down(left, paths, id, false) && Down(right, paths, id, true))
    && forall id :: 0 < id < |paths| ==> paths[id] != [] && paths[id][..|paths[id]| - 1] in paths
  }

  lemma Unextended(v: seq<bool>, b: bool, w: seq<bool>, c: bool)
    ensures v + [b] == w + [c] <==> v == w && b == c
  {
    if v + [b] == w + [c] {
      assert |v + [b]| == |v| + 1 && |w + [c]| == |w| + 1;
      assert (v + [b])[..|v|] == v && (w + [c])[..|w|] == w;
      assert (v + [b])[|v|] == b && (w + [c])[|w|] == c;
    }
  }

  lemma ParentIn(left: seq<int>, right: seq<int>, paths: seq<seq<bool>>, w: seq<bool>, c: bool)
    requires Trie(left, right, paths) && w + [c] in paths
    ensures w in paths
  {
    var k :| 0 <= k < |paths| && paths[k] == w + [c];
    assert k != 0;
    assert paths[k][..|paths[k]| - 1] == w;
  }

  /** What a new path w does to one node's link for bit c. */
  lemma DownGrown(link: seq<int>, paths: seq<seq<bool>>, node: nat, b: bool, link': seq<int>, id: nat, c: bool)
    requires id < |paths| < |link| && node < |paths| && Distinct(paths) && Down(link, paths, id, c)
    requires c == b && id == node ==> link[id] < 0
    requires link' == (if c == b then link[node := |paths|] else link)[|paths| := -1]
    ensures Down(link', paths + [paths[node] + [b]], id, c)
  {
    var w := paths[node] + [b];
    var paths' := paths + [w];
    Unextended(paths[id], c, paths[node], b);
    assert paths'[id] == paths[id] && paths'[|paths|] == w;
    if id != node { assert paths[id] != paths[node]; }
    if paths[id] + [c] in paths' && paths[id] + [c] != w {
      var k :| 0 <= k < |paths'| && paths'[k] == paths[id] + [c];
      assert paths[k] == paths[id] + [c];
    }
  }

  lemma NewLeaf(left: seq<int>, right: seq<int>, paths: seq<seq<bool>>, w: seq<bool>, link': seq<int>, c: bool)
    requires Trie(left, right, paths) && w !in paths && |link'| > |paths| && link'[|paths|] == -1
    ensures Down(link', paths + [w], |paths|, c)
  {
    var paths' := paths + [w];
    if w + [c] in paths' {
      var k :| 0 <= k < |paths'| && paths'[k] == w + [c];
      if k < |paths| { ParentIn(left, right, paths, w, c); }
    }
  }

  /** A new leaf below `node`. */
  lemma Grown(left: seq<int>, right: seq<int>, paths: seq<seq<bool>>, node: nat, b: bool, left': seq<int>, right': seq<int>)
    requires Trie(left, right, paths) && node < |paths| < |left| && |paths| < |right|
    requires if b then right[node] < 0 else left[node] < 0
    requires left' == (if false == b then left[node := |paths|] else left)[|paths| := -1]
    requires right' == (if true == b then right[node := |paths|] else right)[|paths| := -1]
    ensures Trie(left', right', paths + [paths[node] + [b]])
  {
    hide Down;
    var w := paths[node] + [b];
    var paths' := paths + [w];
    NoSuchPath(left, right, paths, node, b);
    forall id | 0 <= id < |paths'|
      ensures Down(left', paths', id, false) && Down(right', paths', id, true)
    {
      if id == |paths| {
        NewLeaf(left, right, paths, w, left', false);
        NewLeaf(left, right, paths, w, right', true);
      } else {
        DownGrown(left, paths, node, b, left', id, false);
        DownGrown(right, paths, node, b, right', id, true);
      }
    }
    forall id | 0 < id < |paths'|
      ensures paths'[id] != [] && paths'[id][..|paths'[id]| - 1] in paths'
    {
      if id == |paths| {
        assert w[..|w| - 1] == paths[node] && paths'[node] == paths[node];
      } else {
        assert paths'[id] == paths[id];
        var up := paths[id][..|paths[id]| - 1];
        var k :| 0 <= k < |paths| && paths[k] == up;
        assert paths'[k] == up;
      }
    }
    assert Distinct(paths');
  }

  lemma NoSuchPath(left: seq<int>, right: seq<int>, paths: seq<seq<bool>>, node: nat, b: bool)
    requires Trie(left, right, paths) && node < |paths|
    requires if b then right[node] < 0 else left[node] < 0
    ensures paths[node] + [b] !in paths
  {
    assert Down(left, paths, node, false) && Down(right, paths, node, true);
  }

  lemma {:induction false} PrefixIn(left: seq<int>, right: seq<int>, paths: seq<seq<bool>>, w: seq<bool>, k: nat)
    requires Trie(left, right, paths) && w in paths && k <= |w|
    ensures w[..k] in paths
    decreases |w| - k
  {
    if k == |w| {
      assert w[..k] == w;
    } else {
      PrefixIn(left, right, paths, w, k + 1);
      var id :| 0 <= id < |paths| && paths[id] == w[..k + 1];
      assert id != 0;
      assert paths[id][..|paths[id]| - 1] == w[..k];
    }
  }

  // ---- decoding ----

  /** huff_decode from a node on. */
  ghost function Follow(left: seq<int>, right: seq<int>, sym: seq<int>, node: int, z: seq<bool>): (r: Parsed<nat>)
    ensures r.Ok? ==> |r.rest| <= |z|
    ensures r.Ok? && 0 <= node < |sym| && sym[node] < 0 ==> |r.rest| < |z|
    decreases |z|
  {
    if !(0 <= node < |sym| && node < |left| && node < |right|) then Failed
    else if sym[node] >= 0 then Ok(sym[node], z)
    else if z == [] then Failed
    else Follow(left, right, sym, if z[0] then right[node] else left[node], z[1..])
  }

  /** The symbols sit exactly at the ends of their code words. */
  ghost predicate Labelled(lens: seq<Byte>, sym: seq<int>, paths: seq<seq<bool>>, upto: nat)
    requires upto <= |lens|
  {
    && |sym| >= |paths|
    && (forall id :: 0 <= id < |paths| && sym[id] >= 0 ==> sym[id] < upto && lens[sym[id]] > 0 && paths[id] == CodeBits(lens, sym[id]))
    && (forall s :: 0 <= s < upto && lens[s] > 0 ==> exists id :: 0 <= id < |paths| && paths[id] == CodeBits(lens, s) && sym[id] == s)
  }

  /** Distinct symbols have distinct code words. */
  ghost predicate DistinctCodes(lens: seq<Byte>, upto: nat)
    requires upto <= |lens|
  {
    forall s, t :: 0 <= s < t < upto && lens[s] > 0 && lens[t] > 0 ==> CodeBits(lens, s) != CodeBits(lens, t)
  }

  lemma KraftDistinct(lens: seq<Byte>)
    requires PrefixCode(lens, MAX_BITS)
    ensures DistinctCodes(lens, |lens|)
  {
    forall s, t | 0 <= s < t < |lens| && lens[s] > 0 && lens[t] > 0
      ensures CodeBits(lens, s) != CodeBits(lens, t)
    {
      PrefixFree(lens, MAX_BITS, s, t);
    }
  }

  /** A tree as built for some lengths: its labelled nodes are exactly the canonical codes. */
  ghost predicate Built(lens: seq<Byte>, left: seq<int>, right: seq<int>, sym: seq<int>, paths: seq<seq<bool>>) {
    Trie(left, right, paths) && Labelled(lens, sym, paths, |lens|)
  }

  // ---- decoding by code words ----

  ghost predicate Names(lens: seq<Byte>, s: nat, w: seq<bool>) {
    s < |lens| && lens[s] > 0 && CodeBits(lens, s) == w
  }

  /** The symbol whose code word the stream starts with, the shortest one if there are several; the first k bits are no code word. */
  ghost function Lookup(lens: seq<Byte>, z: seq<bool>, k: nat): (r: Parsed<nat>)
    requires k <= |z|
    ensures r.Ok? ==> r.value < |lens| && |r.rest| < |z|
    decreases |z| - k
  {
    if exists s :: Names(lens, s, z[..k]) then
      var s :| Names(lens, s, z[..k]);
      Ok(s, z[k..])
    else if k == |z| then Failed
    else Lookup(lens, z, k + 1)
  }

  lemma NamesOne(lens: seq<Byte>, s: nat, t: nat, w: seq<bool>)
    requires DistinctCodes(lens, |lens|) && Names(lens, s, w) && Names(lens, t, w)
    ensures s == t
  {
    hide CodeBits;
  }

  lemma LookupHere(lens: seq<Byte>, z: seq<bool>, k: nat, s: nat)
    requires k <= |z| && DistinctCodes(lens, |lens|) && Names(lens, s, z[..k])
    ensures Lookup(lens, z, k) == Ok(s, z[k..])
  {
    hide Names, DistinctCodes;
    forall t | Names(lens, t, z[..k]) ensures t == s { NamesOne(lens, s, t, z[..k]); }
  }

  lemma LookupOn(lens: seq<Byte>, z: seq<bool>, k: nat)
    requires k <= |z| && forall s :: !Names(lens, s, z[..k])
    ensures Lookup(lens, z, k) == if k == |z| then Failed else Lookup(lens, z, k + 1)
  {
    hide Names;
  }

  /** For every length vector within the Kraft bound: the code word of s, then anything, is read as s and leaves the rest. */
  lemma CanonicalDecode(lens: seq<Byte>, s: nat, z: seq<bool>)
    requires PrefixCode(lens, MAX_BITS) && s < |lens| && lens[s] > 0
    ensures DistinctCodes(lens, |lens|) && Lookup(lens, CodeBits(lens, s) + z, 0) == Ok(s, z)
  {
    KraftDistinct(lens);
    CanonicalFrom(lens, s, z, 0);
  }

  lemma {:induction false} CanonicalFrom(lens: seq<Byte>, s: nat, z: seq<bool>, k: nat)
    requires PrefixCode(lens, MAX_BITS) && DistinctCodes(lens, |lens|) && s < |lens| && lens[s] > 0 && k <= lens[s]
    ensures Lookup(lens, CodeBits(lens, s) + z, k) == Ok(s, z)
    decreases lens[s] - k
  {
    hide CodeBits, PrefixCode, DistinctCodes, Lookup;
    var code := CodeBits(lens, s);
    var w := code + z;
    if k == lens[s] {
      assert w[..k] == code && w[k..] == z;
      LookupHere(lens, w, k, s);
    } else {
      forall t ensures !Names(lens, t, w[..k]) {
        if Names(lens, t, w[..k]) {
          assert w[..k] <= code;
          PrefixFree(lens, MAX_BITS, t, s);
        }
      }
      LookupOn(lens, w, k);
      CanonicalFrom(lens, s, z, k + 1);
    }
  }

  /** Walking the tree from the node of the first k bits finds what looking code words up finds. */
  lemma {:induction false} FollowLookup(lens: seq<Byte>, left: seq<int>, right: seq<int>, sym: seq<int>, paths: seq<seq<bool>>,
                                        node: nat, z: seq<bool>, k: nat)
    requires Built(lens, left, right, sym, paths) && DistinctCodes(lens, |lens|)
    requires node < |paths| && k <= |z| && paths[node] == z[..k]
    ensures Follow(left, right, sym, node, z[k..]) == Lookup(lens, z, k)
    decreases |z| - k
  {
    hide Built, DistinctCodes, Lookup, Names, Follow;
    BuiltSizes(lens, left, right, sym, paths);
    if sym[node] >= 0 {
      NamedAt(lens, left, right, sym, paths, node);
      LookupHere(lens, z, k, sym[node]);
      FollowEnd(left, right, sym, node, z[k..]);
    } else {
      NoneNamed(lens, left, right, sym, paths, node);
      LookupOn(lens, z, k);
      FollowOn(left, right, sym, node, z, k);
      if k < |z| {
        BuiltChild(lens, left, right, sym, paths, node, z[k]);
        assert z[..k + 1] == z[..k] + [z[k]];
        var child := if z[k] then right[node] else left[node];
        if child < 0 {
          Nowhere(lens, left, right, sym, paths, z, k + 1);
          FollowNowhere(left, right, sym, child, z[k + 1..]);
        } else {
          FollowLookup(lens, left, right, sym, paths, child, z, k + 1);
        }
      }
    }
  }

  lemma BuiltSizes(lens: seq<Byte>, left: seq<int>, right: seq<int>, sym: seq<int>, paths: seq<seq<bool>>)
    requires Built(lens, left, right, sym, paths)
    ensures 0 < |paths| <= |left| && |paths| <= |right| && |paths| <= |sym| && paths[0] == []
  {
  }

  lemma FollowEnd(left: seq<int>, right: seq<int>, sym: seq<int>, node: nat, z: seq<bool>)
    requires node < |sym| && node < |left| && node < |right| && sym[node] >= 0
    ensures Follow(left, right, sym, node, z) == Ok(sym[node], z)
  {
  }

  lemma FollowNowhere(left: seq<int>, right: seq<int>, sym: seq<int>, node: int, z: seq<bool>)
    requires node < 0
    ensures Follow(left, right, sym, node, z) == Failed
  {
  }

  lemma FollowOn(left: seq<int>, right: seq<int>, sym: seq<int>, node: nat, z: seq<bool>, k: nat)
    requires node < |sym| && node < |left| && node < |right| && sym[node] < 0 && k <= |z|
    ensures Follow(left, right, sym, node, z[k..]) == if k == |z| then Failed else Follow(left, right, sym, if z[k] then right[node] else left[node], z[k + 1..])
  {
    if k < |z| { assert z[k..][0] == z[k] && z[k..][1..] == z[k + 1..]; }
  }

  lemma NamedAt(lens: seq<Byte>, left: seq<int>, right: seq<int>, sym: seq<int>, paths: seq<seq<bool>>, node: nat)
    requires Built(lens, left, right, sym, paths) && node < |paths| && sym[node] >= 0
    ensures Names(lens, sym[node], paths[node])
  {
    hide CodeBits, Trie;
  }

  lemma NamedIn(lens: seq<Byte>, left: seq<int>, right: seq<int>, sym: seq<int>, paths: seq<seq<bool>>, s: nat, w: seq<bool>) returns (id: nat)
    requires Built(lens, left, right, sym, paths) && Names(lens, s, w)
    ensures id < |paths| && paths[id] == w && sym[id] == s
  {
    hide CodeBits, Trie;
    id :| 0 <= id < |paths| && paths[id] == CodeBits(lens, s) && sym[id] == s;
  }

  lemma NoneNamed(lens: seq<Byte>, left: seq<int>, right: seq<int>, sym: seq<int>, paths: seq<seq<bool>>, node: nat)
    requires Built(lens, left, right, sym, paths) && node < |paths| && sym[node] < 0
    ensures forall s :: !Names(lens, s, paths[node])
  {
    hide CodeBits, Trie;
    PathsDistinct(left, right, paths);
    forall s ensures !Names(lens, s, paths[node]) {
      if Names(lens, s, paths[node]) { var id := NamedIn(lens, left, right, sym, paths, s, paths[node]); }
    }
  }

  lemma BuiltChild(lens: seq<Byte>, left: seq<int>, right: seq<int>, sym: seq<int>, paths: seq<seq<bool>>, node: nat, b: bool)
    requires Built(lens, left, right, sym, paths) && node < |paths|
    ensures var child := if b then right[node] else left[node];
            if child < 0 then paths[node] + [b] !in paths else child < |paths| && paths[child] == paths[node] + [b]
  {
    assert Down(left, paths, node, false) && Down(right, paths, node, true);
  }

  /** Off the tree there are no more code words. */
  lemma {:induction false} Nowhere(lens: seq<Byte>, left: seq<int>, right: seq<int>, sym: seq<int>, paths: seq<seq<bool>>, z: seq<bool>, k: nat)
    requires Built(lens, left, right, sym, paths) && k <= |z| && z[..k] !in paths
    ensures Lookup(lens, z, k) == Failed
    decreases |z| - k
  {
    hide CodeBits, Lookup, Trie;
    forall s ensures !Names(lens, s, z[..k]) {
      if Names(lens, s, z[..k]) { var id := NamedIn(lens, left, right, sym, paths, s, z[..k]); }
    }
    LookupOn(lens, z, k);
    if k < |z| {
      assert z[..k + 1][..k] == z[..k];
      if z[..k + 1] in paths { PrefixIn(left, right, paths, z[..k + 1], k); }
      Nowhere(lens, left, right, sym, paths, z, k + 1);
    }
  }

  // ---- building ----

  /** Bit k of a code word, as the build loop takes it. */
  lemma {:induction false} BitAt(v: nat, n: nat, k: nat)
    requires k < n
    ensures ToBits(v, n)[k] == (Shr(v, n - 1 - k) % 2 == 1)
    decreases n
  {
    if k == n - 1 {
      ShrNone(v);
    } else {
      BitAt(v / 2, n - 1, k);
      assert ToBits(v, n)[k] == ToBits(v / 2, n - 1)[k];
      ShrHalf(v, n - 2 - k);
    }
  }

  lemma {:induction false} ShrHalf(v: nat, k: nat)
    ensures Shr(v / 2, k) == Shr(v, k + 1)
    decreases k
  {
    ShrMask(v / 2, k);
    var q, r := Shr(v / 2, k), Mask(v / 2, k);
    Doubled(q, Pow2(k));
    Quotient(v, q, Pow2(k + 1), 2 * r + v % 2);
  }

  class HuffTree {
    const left: array<int>
    const right: array<int>
    const sym: array<int>
    var nodes: nat
    ghost var paths: seq<seq<bool>>
    ghost var lens: seq<Byte>

    ghost predicate Shape() {
      left.Length == right.Length == sym.Length == MAX_NODES && left != right && left != sym && right != sym
    }

    ghost predicate Valid()
      reads this, left, right
    {
      Shape() && nodes == |paths| <= MAX_NODES && Trie(left[..], right[..], paths)
    }

    /** The tree holds a whole code, given by its lengths. */
    ghost predicate Ready()
      reads this, left, right, sym
    {
      Valid() && Built(lens, left[..], right[..], sym[..], paths) && DistinctCodes(lens, |lens|)
    }

    constructor ()
      ensures Shape() && fresh(left) && fresh(right) && fresh(sym)
    {
      left, right, sym := new int[MAX_NODES], new int[MAX_NODES], new int[MAX_NODES];
      nodes, paths, lens := 0, [], [];
    }

    /** huff_reset */
    method Reset()
      requires Shape()
      modifies this, left, right, sym
      ensures Valid() && nodes == 1 && paths == [[]] && forall i :: 0 <= i < MAX_NODES ==> sym[i] == -1
    {
      for i := 0 to MAX_NODES
        modifies left, right, sym
        invariant forall k :: 0 <= k < i ==> left[k] == right[k] == sym[k] == -1
      {
        left[i], right[i], sym[i] := -1, -1, -1;
      }
      nodes, paths := 1, [[]];
    }

    /** The child for a bit, made if it is missing. */
    method Child(node: nat, bit: bool) returns (child: int)
      requires Valid() && node < nodes < MAX_NODES
      modifies this, left, right, sym
      ensures Valid() && 0 <= child < nodes <= old(nodes) + 1 && old(paths) <= paths && paths[child] == old(paths[node]) + [bit]
      ensures forall i :: 0 <= i < old(nodes) ==> sym[i] == old(sym[i])
      ensures nodes > old(nodes) ==> sym[old(nodes)] == -1
    {
      hide Trie;
      DownAt(left[..], right[..], paths, node);
      child := if bit then right[node] else left[node];
      if child < 0 {
        ghost var l, r, p := left[..], right[..], paths;
        child := nodes;
        nodes := nodes + 1;
        left[child], right[child], sym[child] := -1, -1, -1;
        if bit { right[node] := child; } else { left[node] := child; }
        paths := paths + [paths[node] + [bit]];
        assert left[..] == (if false == bit then l[node := |p|] else l)[|p| := -1];
        assert right[..] == (if true == bit then r[node := |p|] else r)[|p| := -1];
        Grown(l, r, p, node, bit, left[..], right[..]);
      }
    }

    /** Walk down the code word of symbol s, making nodes as needed. */
    method Descend(ghost lens: seq<Byte>, s: nat, len: nat, cur: nat) returns (node: nat)
      requires Valid() && s < |lens| && len == lens[s] <= MAX_BITS && cur == Code(lens, s) && nodes + MAX_BITS <= MAX_NODES
      requires Labelled(lens, sym[..], paths, s)
      modifies this, left, right, sym
      ensures Valid() && node < nodes <= old(nodes) + len && paths[node] == CodeBits(lens, s)
      ensures Labelled(lens, sym[..], paths, s)
    {
      hide Trie, Code, Labelled, ToBits, Shr;
      node := 0;
      ghost var code := CodeBits(lens, s);
      RootPath(left[..], right[..], paths);
      assert code[..0] == [];
      var i: int := len - 1;
      while i >= 0
        invariant -1 <= i < len && Valid() && nodes <= old(nodes) + (len - 1 - i) && node < nodes
        invariant paths[node] == code[..len - 1 - i] && Labelled(lens, sym[..], paths, s)
      {
        ghost var k := len - 1 - i;
        BitAt(cur, len, k);
        ghost var sym0, paths0 := sym[..], paths;
        LabelledSize(lens, sym0, paths0, s);
        node := Child(node, Shr(cur, i) % 2 == 1);
        LabelledGrown(lens, sym0, paths0, sym[..], paths, s);
        assert code[..k + 1] == code[..k] + [code[k]];
        i := i - 1;
      }
      assert code[..len] == code;
    }

    /** Enter symbol s at the end of its code word; it fails only if an earlier symbol has the same one. */
    method Insert(ghost lens: seq<Byte>, s: nat, len: nat, cur: nat) returns (ok: bool)
      requires Valid() && s < |lens| && 0 < len == lens[s] <= MAX_BITS && cur == Code(lens, s) && nodes + MAX_BITS <= MAX_NODES
      requires Labelled(lens, sym[..], paths, s)
      modifies this, left, right, sym
      ensures Valid() && nodes <= old(nodes) + MAX_BITS
      ensures ok ==> Labelled(lens, sym[..], paths, s + 1) && NewCode(lens, s)
      ensures !ok ==> !NewCode(lens, s)
    {
      hide Trie, Code, Labelled, CodeBits;
      var node := Descend(lens, s, len, cur);
      ghost var labels := sym[..];
      PathsDistinct(left[..], right[..], paths);
      if sym[node] >= 0 {
        Taken(lens, labels, paths, s, node);
        return false;
      }
      LabelledSet(lens, labels, paths, s, node);
      sym[node] := s;
      assert sym[..] == labels[node := s];
      ok := true;
    }
  }

  /** No earlier symbol shares the code word of s. */
  ghost predicate NewCode(lens: seq<Byte>, s: nat)
    requires s < |lens|
  {
    forall t :: 0 <= t < s && lens[t] > 0 ==> CodeBits(lens, t) != CodeBits(lens, s)
  }

  lemma RootPath(left: seq<int>, right: seq<int>, paths: seq<seq<bool>>)
    requires Trie(left, right, paths)
    ensures |paths| > 0 && paths[0] == []
  {
  }

  lemma PathsDistinct(left: seq<int>, right: seq<int>, paths: seq<seq<bool>>)
    requires Trie(left, right, paths)
    ensures Distinct(paths)
  {
  }

  lemma LabelledSize(lens: seq<Byte>, sym: seq<int>, paths: seq<seq<bool>>, upto: nat)
    requires upto <= |lens| && Labelled(lens, sym, paths, upto)
    ensures |sym| >= |paths|
  {
  }

  lemma LabelledGrown(lens: seq<Byte>, sym: seq<int>, paths: seq<seq<bool>>, sym': seq<int>, paths': seq<seq<bool>>, upto: nat)
    requires upto <= |lens| && Labelled(lens, sym, paths, upto) && paths <= paths' && |sym'| == |sym| >= |paths'|
    requires |paths'| <= |paths| + 1 && (|paths'| > |paths| ==> sym'[|paths|] == -1)
    requires forall i :: 0 <= i < |paths| ==> sym'[i] == sym[i]
    ensures Labelled(lens, sym', paths', upto)
  {
    hide CodeBits;
    forall s | 0 <= s < upto && lens[s] > 0
      ensures exists id :: 0 <= id < |paths'| && paths'[id] == CodeBits(lens, s) && sym'[id] == s
    {
      var id :| 0 <= id < |paths| && paths[id] == CodeBits(lens, s) && sym[id] == s;
      assert paths'[id] == CodeBits(lens, s) && sym'[id] == s;
    }
  }

  lemma LabelledSet(lens: seq<Byte>, sym: seq<int>, paths: seq<seq<bool>>, s: nat, node: nat)
    requires s < |lens| && Labelled(lens, sym, paths, s) && node < |paths| && sym[node] < 0
    requires lens[s] > 0 && paths[node] == CodeBits(lens, s) && Distinct(paths)
    ensures Labelled(lens, sym[node := s], paths, s + 1) && NewCode(lens, s)
  {
    hide CodeBits;
    var sym' := sym[node := s];
    forall t | 0 <= t < s + 1 && lens[t] > 0
      ensures exists id :: 0 <= id < |paths| && paths[id] == CodeBits(lens, t) && sym'[id] == t
      ensures t < s ==> CodeBits(lens, t) != CodeBits(lens, s)
    {
      if t < s {
        var id :| 0 <= id < |paths| && paths[id] == CodeBits(lens, t) && sym[id] == t;
        assert id != node;
        assert sym'[id] == t;
        assert paths[id] != paths[node];
      } else {
        assert sym'[node] == s;
      }
    }
  }

  lemma Taken(lens: seq<Byte>, sym: seq<int>, paths: seq<seq<bool>>, s: nat, node: nat)
    requires s < |lens| && Labelled(lens, sym, paths, s) && node < |paths| && sym[node] >= 0 && paths[node] == CodeBits(lens, s)
    ensures !NewCode(lens, s)
  {
    hide CodeBits;
    assert CodeBits(lens, sym[node]) == CodeBits(lens, s);
  }

  lemma LabelledSkip(lens: seq<Byte>, sym: seq<int>, paths: seq<seq<bool>>, s: nat)
    requires s < |lens| && Labelled(lens, sym, paths, s) && lens[s] == 0
    ensures Labelled(lens, sym, paths, s + 1)
  {
    hide CodeBits;
  }

  lemma DownAt(left: seq<int>, right: seq<int>, paths: seq<seq<bool>>, id: nat)
    requires Trie(left, right, paths) && id < |paths|
    ensures left[id] >= 0 ==> left[id] < |paths| && paths[left[id]] == paths[id] + [false]
    ensures right[id] >= 0 ==> right[id] < |paths| && paths[right[id]] == paths[id] + [true]
  {
    assert Down(left, paths, id, false) && Down(right, paths, id, true);
  }

  // ---- huff_build ----

  ghost predicate AllNew(lens: seq<Byte>, upto: nat)
    requires upto <= |lens|
  {
    forall s :: 0 <= s < upto && lens[s] > 0 ==> NewCode(lens, s)
  }

  lemma AllNewDistinct(lens: seq<Byte>)
    ensures AllNew(lens, |lens|) <==> DistinctCodes(lens, |lens|)
  {
    hide CodeBits;
  }

  /** Lengths that huff_build accepts. */
  ghost predicate Usable(lens: seq<Byte>) {
    Within(lens, MAX_BITS) && DistinctCodes(lens, |lens|)
  }

  /** How many symbols have each length; a length over 15 is refused. */
  method CountUsed(lens: seq<Byte>) returns (ok: bool, count: array<int>)
    ensures ok <==> Within(lens, MAX_BITS)
    ensures fresh(count) && count.Length == MAX_BITS + 1
    ensures ok ==> count[0] == 0 && forall l :: 1 <= l <= MAX_BITS ==> count[l] == Count(lens, l)
  {
    hide Count;
    count := new int[MAX_BITS + 1](_ => 0);
    assert lens[..0] == [];
    forall l: int ensures Count(lens[..0], l) == 0 { CountNone(lens[..0], l); }
    for s := 0 to |lens|
      invariant Within(lens[..s], MAX_BITS) && count[0] == 0
      invariant forall l :: 1 <= l <= MAX_BITS ==> count[l] == Count(lens[..s], l)
    {
      CountNext(lens, s);
      if lens[s] > MAX_BITS { return false, count; }
      if lens[s] != 0 { count[lens[s]] := count[lens[s]] + 1; }
    }
    assert lens[..|lens|] == lens;
    ok := true;
  }

  /** The first code word of each length. */
  method FirstCodes(lens: seq<Byte>, count: array<int>) returns (next: array<int>)
    requires count.Length == MAX_BITS + 1 && count[0] == 0 && forall l :: 1 <= l <= MAX_BITS ==> count[l] == Count(lens, l)
    ensures fresh(next) && next.Length == MAX_BITS + 1 && forall l :: 1 <= l <= MAX_BITS ==> next[l] == First(lens, l)
  {
    hide Count;
    next := new int[MAX_BITS + 1](_ => 0);
    var code := 0;
    for bits := 1 to MAX_BITS + 1
      invariant code == (if bits == 1 then 0 else First(lens, bits - 1))
      invariant forall l :: 1 <= l < bits ==> next[l] == First(lens, l)
    {
      code := 2 * (code + count[bits - 1]);
      next[bits] := code;
    }
  }

  /**
   * huff_build: it succeeds exactly when no length exceeds 15 and no two symbols get the same code word, and
   * the tree then holds exactly the canonical code.
   */
  method Build(t: HuffTree, lens: seq<Byte>) returns (ok: bool)
    requires t.Shape() && |lens| <= MAX_SYMS
    modifies t, t.left, t.right, t.sym
    ensures t.Shape() && (ok <==> Usable(lens))
    ensures ok ==> t.Ready() && t.lens == lens
  {
    hide Trie, Code, CodeBits, Labelled, Count, First, NewCode, DistinctCodes;
    t.Reset();
    AllNewDistinct(lens);
    var good, count := CountUsed(lens);
    if !good { return false; }
    var next := FirstCodes(lens, count);
    NothingLabelled(lens, t.sym[..], t.paths);
    forall l: int ensures Count(lens[..0], l) == 0 { CountNone(lens[..0], l); }
    for s := 0 to |lens|
      invariant t.Valid() && t.nodes <= 1 + MAX_BITS * s && Labelled(lens, t.sym[..], t.paths, s) && AllNew(lens, s)
      invariant forall l :: 1 <= l <= MAX_BITS ==> next[l] == First(lens, l) + Count(lens[..s], l)
    {
      CountNext(lens, s);
      var len: nat := lens[s];
      if len == 0 {
        LabelledSkip(lens, t.sym[..], t.paths, s);
      } else {
        CodeIs(lens, s);
        var cur := next[len];
        next[len] := next[len] + 1;
        var fine := t.Insert(lens, s, len, cur);
        if !fine { return false; }
      }
    }
    t.lens := lens;
    ok := true;
  }

  lemma CodeIs(lens: seq<Byte>, s: nat)
    requires s < |lens|
    ensures Code(lens, s) == First(lens, lens[s]) + Count(lens[..s], lens[s])
  {
  }

  lemma NothingLabelled(lens: seq<Byte>, sym: seq<int>, paths: seq<seq<bool>>)
    requires |sym| >= |paths| && forall i :: 0 <= i < |sym| ==> sym[i] == -1
    ensures Labelled(lens, sym, paths, 0)
  {
  }

  /** huff_decode */
  method Decode(bs: Source, t: HuffTree) returns (ok: bool, sym: nat)
    requires bs.Valid() && t.Ready()
    modifies bs
    ensures bs.Valid()
    ensures ok <==> Lookup(t.lens, old(bs.Rest()), 0).Ok?
    ensures ok ==> Lookup(t.lens, old(bs.Rest()), 0) == Ok(sym, bs.Rest())
  {
    hide Source.Valid, Source.Rest, Trie, Built, DistinctCodes, Lookup;
    var node := 0;
    sym := 0;
    RootPath(t.left[..], t.right[..], t.paths);
    ghost var z := bs.Rest();
    ghost var all := Follow(t.left[..], t.right[..], t.sym[..], 0, z);
    assert z[..0] == [] && z[0..] == z;
    FollowLookup(t.lens, t.left[..], t.right[..], t.sym[..], t.paths, 0, z, 0);
    while true
      invariant bs.Valid() && 0 <= node < t.nodes && all == Follow(t.left[..], t.right[..], t.sym[..], node, bs.Rest())
      decreases |bs.Rest()|
    {
      if t.sym[node] >= 0 { return true, t.sym[node]; }
      DownAt(t.left[..], t.right[..], t.paths, node);
      var fine, b := bs.ReadBit();
      if !fine { return false, 0; }
      node := if b == 0 then t.left[node] else t.right[node];
      if node < 0 { return false, 0; }
    }
  }
}
