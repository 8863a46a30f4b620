/**
 * The finished trie: what `build` leaves behind once every range has been
 * processed, and the facts the queries navigate by.
 *
 * A node is reached in LOUDS through a cursor `(pos, zeros)` with
 * `pos - zeros` its number; node `v`'s cursor is `(start[v], start[v] - v)`.
 * Its children are numbered from `ChildLo(v) = start[v] - v - 1` on, and
 * the `j`-th of them hangs on the `0` at `start[v] + j`.
 */
module TrieShapes {
  import opened Outcomes
  import opened TrieKeys
  import opened TrieRanges
  import opened BitSeqs
  import opened TrieLayouts

  /** Every range processed, and one terminal bit per key. */
  ghost predicate Built(keys: seq<Key>, dr: Draft, pl: Plan)
  {
    Partial(keys, dr, pl, |pl.nodes|) && Rank(dr.terminal, true, |dr.terminal|) == |keys|
  }

  function ChildLo(pl: Plan, v: nat): int
    requires v < |pl.start|
  {
    pl.start[v] - v - 1
  }

  /** The number of children of node `v`: the zeros of its child list. */
  function Fan(pl: Plan, v: nat): int
    requires v + 1 < |pl.start|
  {
    pl.start[v + 1] as int - pl.start[v] - 1
  }

  /** The key a terminal node stands for. */
  ghost function KeyOfNode(keys: seq<Key>, pl: Plan, v: nat): Key
    requires v < |pl.nodes| && pl.nodes[v].left < |keys|
  {
    keys[pl.nodes[v].left]
  }


  /** The bytes on the path from the root to node `v`. */
  ghost function Spell(keys: seq<Key>, pl: Plan, v: nat): Key
    requires v < |pl.nodes| && NodeOk(keys, pl.nodes[v])
  {
    keys[pl.nodes[v].left][..pl.nodes[v].depth]
  }

  lemma NodeFacts(keys: seq<Key>, dr: Draft, pl: Plan, v: nat)
    requires Built(keys, dr, pl) && v < |pl.nodes|
    ensures Sorted(keys) && NodeOk(keys, pl.nodes[v]) && v + 1 < |pl.start|
    ensures Processed(keys, dr, pl, v)
  {
    assert OkAt(keys, pl.nodes, v);
  }

  lemma NodeOkAt(keys: seq<Key>, dr: Draft, pl: Plan, v: nat)
    requires Built(keys, dr, pl) && v < |pl.nodes|
    ensures Sorted(keys) && NodeOk(keys, pl.nodes[v])
  {
    assert OkAt(keys, pl.nodes, v);
  }

  lemma EdgeFacts(keys: seq<Key>, dr: Draft, pl: Plan, z: nat)
    requires Built(keys, dr, pl) && 1 <= z < |pl.nodes|
    ensures |pl.nodes| == |pl.parent| && |pl.start| == |pl.nodes| + 1
    ensures Linked(keys, dr, pl, |pl.nodes|, z)
  {
  }

  lemma Sizes(keys: seq<Key>, dr: Draft, pl: Plan)
    requires Built(keys, dr, pl)
    ensures Sorted(keys) && |keys| > 0 && |pl.nodes| > 0
    ensures |pl.start| == |pl.nodes| + 1 && |pl.parent| == |pl.nodes|
    ensures pl.start[0] == 2 && pl.start[|pl.nodes|] == |dr.louds| && |dr.louds| == 2 * |pl.nodes| + 1
    ensures !dr.louds[0] && dr.louds[1]
    ensures Rank(dr.louds, true, |dr.louds|) == |pl.nodes| + 1
    ensures |dr.terminal| == |pl.nodes| && |dr.tail| == |pl.nodes| && |dr.edges| + 1 == |pl.nodes|
    ensures |dr.tails| == Rank(dr.tail, true, |pl.nodes|)
    ensures Rank(dr.terminal, true, |pl.nodes|) == |keys|
    ensures pl.nodes[0] == Node(0, |keys|, 0)
  {
  }

  /** The bits of node `v`'s child list: `j` zeros, then the closing one;
      the counts of ones and zeros in front of each. */
  lemma KidPos(keys: seq<Key>, dr: Draft, pl: Plan, v: nat, j: nat)
    requires Built(keys, dr, pl) && v < |pl.nodes|
    requires NodeOk(keys, pl.nodes[v]) && j <= |Kids(keys, pl.nodes[v])|
    ensures v + 1 < |pl.start| && v + 2 <= pl.start[v] && pl.start[v] + j < |dr.louds|
    ensures dr.louds[pl.start[v] + j] == (j == |Kids(keys, pl.nodes[v])|)
    ensures Rank(dr.louds, true, pl.start[v] + j) == v + 1
    ensures Rank(dr.louds, false, pl.start[v] + j) == ChildLo(pl, v) + j
    ensures pl.start[v + 1] == pl.start[v] + |Kids(keys, pl.nodes[v])| + 1
  {
    NodeFacts(keys, dr, pl, v);
    var nd := pl.nodes[v];
    KidPosAs(dr, pl, v, Kids(keys, nd), TailCase(keys, nd), TailCase(keys, nd) || EndsHere(keys, nd),
             keys[nd.left][nd.depth..], j);
  }

  /** `KidPos` for a processed node whose children are the runs `kids`. */
  lemma KidPosAs(dr: Draft, pl: Plan, v: nat, kids: seq<RangeNode>, isTail: bool, ends: bool, rest: Key,
                 j: nat)
    requires v < |pl.nodes| && v + 1 < |pl.start| && ProcessedAs(dr, pl, v, kids, isTail, ends, rest)
    requires j <= |kids|
    ensures v + 2 <= pl.start[v] && pl.start[v] + j < |dr.louds|
    ensures dr.louds[pl.start[v] + j] == (j == |kids|)
    ensures Rank(dr.louds, true, pl.start[v] + j) == v + 1
    ensures Rank(dr.louds, false, pl.start[v] + j) == ChildLo(pl, v) + j
    ensures pl.start[v + 1] == pl.start[v] + |kids| + 1
  {
    var s := pl.start[v];
    RankRun(dr.louds, true, false, s, j);
    RankRun(dr.louds, false, false, s, j);
    RankSplit(dr.louds, s);
  }

  /** The closing one of node `v`'s child list. */
  lemma ChildEnd(keys: seq<Key>, dr: Draft, pl: Plan, v: nat)
    requires Built(keys, dr, pl) && v < |pl.nodes|
    ensures v + 1 < |pl.start| && v + 2 <= pl.start[v] < pl.start[v + 1] <= |dr.louds|
    ensures dr.louds[pl.start[v + 1] - 1] && Rank(dr.louds, true, pl.start[v + 1] - 1) == v + 1
  {
    NodeOkAt(keys, dr, pl, v);
    KidPos(keys, dr, pl, v, |Kids(keys, pl.nodes[v])|);
  }

  /** `select1(v)` is the one in front of node `v`'s child list; for
      `v == |nodes|` it is the last bit. */
  lemma OneSelect(keys: seq<Key>, dr: Draft, pl: Plan, v: nat)
    requires Built(keys, dr, pl) && v <= |pl.nodes|
    ensures v < |pl.start| && 2 <= pl.start[v] <= |dr.louds|
    ensures v < Total(dr.louds, true) && Select(dr.louds, true, v) == pl.start[v] - 1
  {
    Sizes(keys, dr, pl);
    if v == 0 {
      assert Rank(dr.louds, true, 1) == 0;
      SelectUnique(dr.louds, true, 0, 1);
    } else {
      ChildEnd(keys, dr, pl, v - 1);
      SelectUnique(dr.louds, true, v, pl.start[v] - 1);
    }
  }

  /** Child `j` of node `v`: its number, its node, its label, its
      spelling. */
  lemma ChildKid(keys: seq<Key>, dr: Draft, pl: Plan, v: nat, j: nat)
    requires Built(keys, dr, pl) && v < |pl.nodes|
    requires NodeOk(keys, pl.nodes[v]) && j < |Kids(keys, pl.nodes[v])|
    ensures var z := ChildLo(pl, v) + j;
            var k := Kids(keys, pl.nodes[v])[j];
            v < z < |pl.nodes| && z - 1 < |dr.edges| && pl.parent[z] == v &&
            pl.nodes[z] == Node(k.left, k.right, pl.nodes[v].depth + 1) &&
            NodeOk(keys, pl.nodes[z]) &&
            pl.nodes[v].left <= k.left && k.right <= pl.nodes[v].right &&
            pl.nodes[v].depth < |keys[k.left]| &&
            dr.edges[z - 1] == keys[k.left][pl.nodes[v].depth] &&
            Spell(keys, pl, z) == Spell(keys, pl, v) + [dr.edges[z - 1]]
  {
    NodeFacts(keys, dr, pl, v);
    var z := ChildLo(pl, v) + j;
    var nd := pl.nodes[v];
    var k := Kids(keys, nd)[j];
    KidsOk(keys, nd, j);
    EdgeFacts(keys, dr, pl, z);
    var d := nd.depth;
    assert keys[k.left][..d + 1] == keys[k.left][..d] + [keys[k.left][d]];
  }

  /** `select0(z)` is the `0` of the edge into node `z`: for a child `z` of
      `p`, position `z + p + 1`; for the root, the seed's `0`. */
  lemma ZeroSelect(keys: seq<Key>, dr: Draft, pl: Plan, z: nat)
    requires Built(keys, dr, pl) && z < |pl.nodes|
    ensures z < Total(dr.louds, false) && |pl.parent| == |pl.nodes|
    ensures Select(dr.louds, false, z) == if z == 0 then 0 else z + pl.parent[z] + 1
    ensures z >= 1 ==> pl.parent[z] < z && z + pl.parent[z] + 1 >= 2
  {
    Sizes(keys, dr, pl);
    if z == 0 {
      SelectUnique(dr.louds, false, 0, 0);
    } else {
      EdgeFacts(keys, dr, pl, z);
      var p := pl.parent[z];
      NodeFacts(keys, dr, pl, p);
      var j := z - ChildLo(pl, p);
      KidPos(keys, dr, pl, p, j);
      SelectUnique(dr.louds, false, z, pl.start[p] + j);
    }
  }

  /** A node with a child is not a tail leaf. */
  lemma ParentNotTail(keys: seq<Key>, dr: Draft, pl: Plan, z: nat)
    requires Built(keys, dr, pl) && 1 <= z < |pl.nodes|
    ensures var p := pl.parent[z];
            p < z && NodeOk(keys, pl.nodes[p]) &&
            0 <= z - ChildLo(pl, p) < |Kids(keys, pl.nodes[p])|
  {
    EdgeFacts(keys, dr, pl, z);
    var p := pl.parent[z];
    NodeFacts(keys, dr, pl, p);
  }

  /** A key of a non-tail node that has a byte at the node's depth lies in
      the child run carrying that byte. */
  lemma RunMember(keys: seq<Key>, nd: Node, j: nat, i: nat)
    requires Sorted(keys) && NodeOk(keys, nd) && nd.left <= i < nd.right
    requires j < |Kids(keys, nd)| && nd.depth < |keys[i]|
    requires Kids(keys, nd)[j].left < |keys| && nd.depth < |keys[Kids(keys, nd)[j].left]|
    requires keys[i][nd.depth] == keys[Kids(keys, nd)[j].left][nd.depth]
    ensures Kids(keys, nd)[j].left <= i < Kids(keys, nd)[j].right
  {
    var kids := Kids(keys, nd);
    var d := nd.depth;
    KidsLonger(keys, nd);
    var lo := NewLeft(keys, nd);
    var j2 := RunOf(keys, lo, nd.right, d, i);
    RunsTile(keys, lo, nd.right, d);
    RunsIncrease(keys, lo, nd.right, d);
  }

  /** Node `v` holds exactly the keys that begin with its spelling. */
  lemma {:induction false} InRange(keys: seq<Key>, dr: Draft, pl: Plan, v: nat, i: nat)
    requires Built(keys, dr, pl) && v < |pl.nodes| && i < |keys|
    ensures NodeOk(keys, pl.nodes[v])
    ensures pl.nodes[v].left <= i < pl.nodes[v].right <==>
            pl.nodes[v].depth <= |keys[i]| && keys[i][..pl.nodes[v].depth] == Spell(keys, pl, v)
    decreases v
  {
    NodeOkAt(keys, dr, pl, v);
    var nd := pl.nodes[v];
    if v > 0 && nd.depth <= |keys[i]| && keys[i][..nd.depth] == Spell(keys, pl, v) {
      ParentNotTail(keys, dr, pl, v);
      var p := pl.parent[v];
      var j := v - ChildLo(pl, p);
      ChildKid(keys, dr, pl, p, j);
      var d := pl.nodes[p].depth;
      assert keys[i][..d] == keys[i][..d + 1][..d];
      InRange(keys, dr, pl, p, i);
      assert keys[i][d] == keys[i][..d + 1][d];
      RunMember(keys, pl.nodes[p], j, i);
    }
  }

  // ------------------------------------------------ navigation facts

  /** A node's child count is never negative. */
  lemma FanNat(keys: seq<Key>, dr: Draft, pl: Plan, v: nat)
    requires Built(keys, dr, pl) && v < |pl.nodes|
    ensures v + 1 < |pl.start| && 0 <= Fan(pl, v)
  {
    FanIs(keys, dr, pl, v);
  }

  /** Child `j` of node `v` comes after `v` and has an edge label. */
  lemma ChildAfter(keys: seq<Key>, dr: Draft, pl: Plan, v: nat, j: nat)
    requires Built(keys, dr, pl) && v < |pl.nodes| && v + 1 < |pl.start| && j < Fan(pl, v)
    ensures v < ChildLo(pl, v) + j < |pl.nodes| && ChildLo(pl, v) + j - 1 < |dr.edges|
  {
    ChildIs(keys, dr, pl, v, j);
  }

  lemma FanIs(keys: seq<Key>, dr: Draft, pl: Plan, v: nat)
    requires Built(keys, dr, pl) && v < |pl.nodes|
    ensures Sorted(keys) && NodeOk(keys, pl.nodes[v]) && v + 1 < |pl.start|
    ensures Fan(pl, v) == |Kids(keys, pl.nodes[v])|
    ensures v < |dr.tail| && dr.tail[v] == TailCase(keys, pl.nodes[v])
    ensures v < |dr.terminal| && dr.terminal[v] == (TailCase(keys, pl.nodes[v]) || EndsHere(keys, pl.nodes[v]))
  {
    NodeFacts(keys, dr, pl, v);
  }

  /** The bits of node `v`'s child list: `Fan(v)` zeros, then the closing
      one; the counts of ones and zeros in front of each. */
  lemma ChildPos(keys: seq<Key>, dr: Draft, pl: Plan, v: nat, j: nat)
    requires Built(keys, dr, pl) && v < |pl.nodes| && v + 1 < |pl.start| && j <= Fan(pl, v)
    ensures v + 2 <= pl.start[v] && pl.start[v] + j < |dr.louds|
    ensures dr.louds[pl.start[v] + j] == (j == Fan(pl, v))
    ensures Rank(dr.louds, true, pl.start[v] + j) == v + 1
    ensures Rank(dr.louds, false, pl.start[v] + j) == ChildLo(pl, v) + j
  {
    FanIs(keys, dr, pl, v);
    KidPos(keys, dr, pl, v, j);
  }

  /** The children of `v` are numbered from 1 on and exist. */
  lemma ChildRange(keys: seq<Key>, dr: Draft, pl: Plan, v: nat)
    requires Built(keys, dr, pl) && v < |pl.nodes|
    ensures v + 1 < |pl.start| && 1 <= ChildLo(pl, v) && ChildLo(pl, v) + Fan(pl, v) <= |pl.nodes|
    ensures |dr.edges| + 1 == |pl.nodes|
  {
    NodeFacts(keys, dr, pl, v);
    Sizes(keys, dr, pl);
  }

  /** Child `j` of node `v`: a later node, one byte deeper, holding part
      of `v`'s keys, spelled by `v`'s spelling and its edge byte. */
  lemma ChildIs(keys: seq<Key>, dr: Draft, pl: Plan, v: nat, j: nat)
    requires Built(keys, dr, pl) && v < |pl.nodes| && v + 1 < |pl.start| && j < Fan(pl, v)
    ensures var z := ChildLo(pl, v) + j;
            v < z < |pl.nodes| && 1 <= z && z - 1 < |dr.edges| && pl.parent[z] == v &&
            v < |dr.tail| && !dr.tail[v] &&
            NodeOk(keys, pl.nodes[v]) && NodeOk(keys, pl.nodes[z]) &&
            pl.nodes[z].depth == pl.nodes[v].depth + 1 &&
            pl.nodes[v].left <= pl.nodes[z].left && pl.nodes[z].right <= pl.nodes[v].right &&
            Spell(keys, pl, z) == Spell(keys, pl, v) + [dr.edges[z - 1]]
  {
    FanIs(keys, dr, pl, v);
    ChildKid(keys, dr, pl, v, j);
  }

  /** The edge bytes under a node strictly increase: each byte labels at
      most one child. */
  lemma LabelsIncrease(keys: seq<Key>, dr: Draft, pl: Plan, v: nat, j: nat, k: nat)
    requires Built(keys, dr, pl) && v < |pl.nodes| && v + 1 < |pl.start| && j < k < Fan(pl, v)
    ensures 1 <= ChildLo(pl, v) + j && ChildLo(pl, v) + k - 1 < |dr.edges|
    ensures dr.edges[ChildLo(pl, v) + j - 1] < dr.edges[ChildLo(pl, v) + k - 1]
  {
    FanIs(keys, dr, pl, v);
    var nd := pl.nodes[v];
    KidsLonger(keys, nd);
    var lo := NewLeft(keys, nd);
    assert SharePrefix(keys, lo, nd.right, nd.depth) by {
      assert keys[lo][..nd.depth] == keys[nd.left][..nd.depth];
    }
    RunsIncrease(keys, lo, nd.right, nd.depth);
    var rs := Kids(keys, nd);
    assert rs == Runs(keys, lo, nd.right, nd.depth);
    assert keys[rs[j].left][nd.depth] < keys[rs[k].left][nd.depth];
    ChildKid(keys, dr, pl, v, j);
    ChildKid(keys, dr, pl, v, k);
  }

  /** A key below a non-tail node that goes on past it leaves it along an
      edge labelled with its next byte. */
  lemma ChildByte(keys: seq<Key>, dr: Draft, pl: Plan, v: nat, i: nat) returns (j: nat)
    requires Built(keys, dr, pl) && v < |pl.nodes| && v < |dr.tail| && !dr.tail[v] && i < |keys|
    requires NodeOk(keys, pl.nodes[v])
    requires pl.nodes[v].depth < |keys[i]| && keys[i][..pl.nodes[v].depth] == Spell(keys, pl, v)
    ensures v + 1 < |pl.start| && j < Fan(pl, v)
    ensures 1 <= ChildLo(pl, v) + j && ChildLo(pl, v) + j - 1 < |dr.edges|
    ensures dr.edges[ChildLo(pl, v) + j - 1] == keys[i][pl.nodes[v].depth]
  {
    InRange(keys, dr, pl, v, i);
    FanIs(keys, dr, pl, v);
    var nd := pl.nodes[v];
    var d := nd.depth;
    KidsLonger(keys, nd);
    var lo := NewLeft(keys, nd);
    j := RunOf(keys, lo, nd.right, d, i);
    RunAt(keys, lo, nd.right, d, j);
    ChildKid(keys, dr, pl, v, j);
  }

  /** A tail leaf: one key, no children, and the stored tail is the rest
      of that key. */
  lemma TailFacts(keys: seq<Key>, dr: Draft, pl: Plan, v: nat)
    requires Built(keys, dr, pl) && v < |pl.nodes| && v < |dr.tail| && dr.tail[v]
    ensures NodeOk(keys, pl.nodes[v]) && v + 1 < |pl.start| && Fan(pl, v) == 0
    ensures pl.nodes[v].right == pl.nodes[v].left + 1 && pl.nodes[v].depth + 1 < |keys[pl.nodes[v].left]|
    ensures v < |dr.terminal| && dr.terminal[v]
    ensures Rank(dr.tail, true, v) < |dr.tails|
    ensures dr.tails[Rank(dr.tail, true, v)] == keys[pl.nodes[v].left][pl.nodes[v].depth..]
  {
    NodeFacts(keys, dr, pl, v);
  }

  /** A terminal node's number among the terminal nodes is a key id, and
      selecting that id finds the node again. */
  lemma TermFacts(keys: seq<Key>, dr: Draft, pl: Plan, v: nat)
    requires Built(keys, dr, pl) && v < |pl.nodes|
    ensures NodeOk(keys, pl.nodes[v]) && v < |dr.terminal| && v < |dr.tail|
    ensures dr.terminal[v] <==> dr.tail[v] || |KeyOfNode(keys, pl, v)| == pl.nodes[v].depth
    ensures dr.terminal[v] ==> Rank(dr.terminal, true, v) < |keys| &&
                               Rank(dr.terminal, true, v) < Total(dr.terminal, true) &&
                               Select(dr.terminal, true, Rank(dr.terminal, true, v)) == v
  {
    FanIs(keys, dr, pl, v);
    Sizes(keys, dr, pl);
    if dr.terminal[v] {
      RankGrows(dr.terminal, true, v, |dr.terminal|);
      SelectUnique(dr.terminal, true, Rank(dr.terminal, true, v), v);
    }
  }

  /** The key with id `id`: the key of the `id`-th terminal node. */
  ghost function KeyOf(keys: seq<Key>, dr: Draft, pl: Plan, id: nat): (k: Key)
    requires Built(keys, dr, pl) && id < |keys|
    ensures k in keys
  {
    Sizes(keys, dr, pl);
    var v := Select(dr.terminal, true, id);
    NodeOkAt(keys, dr, pl, v);
    KeyOfNode(keys, pl, v)
  }

  // ------------------------------------------------ children by label

  /** The child of node `v` whose edge carries symbol `c`, searched among
      the children from number `j` on, as `getChild` scans them; the end of
      the query (`None`) labels no edge. */
  ghost function ChildFrom(keys: seq<Key>, dr: Draft, pl: Plan, v: nat, c: Option<Byte>, j: nat): (r: Option<nat>)
    requires Built(keys, dr, pl) && v < |pl.nodes| && v + 1 < |pl.start| && j <= Fan(pl, v)
    decreases Fan(pl, v) - j
  {
    if j == Fan(pl, v) then None
    else
      ChildAfter(keys, dr, pl, v, j);
      if c == Some(dr.edges[ChildLo(pl, v) + j - 1]) then Some(ChildLo(pl, v) + j)
      else ChildFrom(keys, dr, pl, v, c, j + 1)
  }

  ghost function Child(keys: seq<Key>, dr: Draft, pl: Plan, v: nat, c: Option<Byte>): Option<nat>
    requires Built(keys, dr, pl) && v < |pl.nodes|
  {
    FanNat(keys, dr, pl, v);
    ChildFrom(keys, dr, pl, v, c, 0)
  }

  /** What the scan from `j` finds is a child of `v` numbered from `j` on,
      carrying `c`. */
  lemma {:induction false} ChildFromFound(keys: seq<Key>, dr: Draft, pl: Plan, v: nat, c: Option<Byte>, j: nat)
    requires Built(keys, dr, pl) && v < |pl.nodes| && v + 1 < |pl.start| && j <= Fan(pl, v)
    ensures var r := ChildFrom(keys, dr, pl, v, c, j);
            r.Some? ==> j <= r.value - ChildLo(pl, v) < Fan(pl, v) &&
                        1 <= r.value <= |dr.edges| && c == Some(dr.edges[r.value - 1])
    ensures ChildFrom(keys, dr, pl, v, c, j).None? ==>
            1 <= ChildLo(pl, v) + j && ChildLo(pl, v) + Fan(pl, v) - 1 <= |dr.edges| &&
            forall e | ChildLo(pl, v) + j - 1 <= e < ChildLo(pl, v) + Fan(pl, v) - 1 :: c != Some(dr.edges[e])
    decreases Fan(pl, v) - j
  {
    ChildRange(keys, dr, pl, v);
    if j < Fan(pl, v) {
      ChildIs(keys, dr, pl, v, j);
      ChildFromFound(keys, dr, pl, v, c, j + 1);
    }
  }

  /** `Child(v, c)` is a child of `v`: the node one byte deeper whose
      spelling is `v`'s followed by `c`. */
  lemma ChildFound(keys: seq<Key>, dr: Draft, pl: Plan, v: nat, c: Option<Byte>)
    requires Built(keys, dr, pl) && v < |pl.nodes| && Child(keys, dr, pl, v, c).Some?
    ensures var z := Child(keys, dr, pl, v, c).value;
            v + 1 < |pl.start| && 0 <= z - ChildLo(pl, v) < Fan(pl, v) &&
            v < z < |pl.nodes| && pl.parent[z] == v && 1 <= z <= |dr.edges| &&
            c == Some(dr.edges[z - 1]) && v < |dr.tail| && !dr.tail[v] &&
            NodeOk(keys, pl.nodes[v]) && NodeOk(keys, pl.nodes[z]) &&
            pl.nodes[z].depth == pl.nodes[v].depth + 1 &&
            Spell(keys, pl, z) == Spell(keys, pl, v) + [dr.edges[z - 1]]
  {
    FanIs(keys, dr, pl, v);
    ChildFromFound(keys, dr, pl, v, c, 0);
    var z := Child(keys, dr, pl, v, c).value;
    ChildIs(keys, dr, pl, v, z - ChildLo(pl, v));
  }

  /** No child for byte `b` under a non-tail node: no key continues the
      node's spelling with `b`. */
  lemma ChildMissing(keys: seq<Key>, dr: Draft, pl: Plan, v: nat, b: Byte, i: nat)
    requires Built(keys, dr, pl) && v < |pl.nodes| && v < |dr.tail| && !dr.tail[v] && i < |keys|
    requires Child(keys, dr, pl, v, Some(b)).None?
    ensures NodeOk(keys, pl.nodes[v])
    ensures !(pl.nodes[v].depth < |keys[i]| && keys[i][..pl.nodes[v].depth + 1] == Spell(keys, pl, v) + [b])
  {
    FanIs(keys, dr, pl, v);
    var d := pl.nodes[v].depth;
    if d < |keys[i]| && keys[i][..d + 1] == Spell(keys, pl, v) + [b] {
      assert keys[i][..d] == keys[i][..d + 1][..d];
      assert keys[i][d] == keys[i][..d + 1][d];
      var j := ChildByte(keys, dr, pl, v, i);
      ChildFromFound(keys, dr, pl, v, Some(b), 0);
    }
  }

  /** `getChild` undoes `getParent`: under `z`'s parent, the byte on
      `z`'s edge leads back to `z`. */
  lemma ChildOfParent(keys: seq<Key>, dr: Draft, pl: Plan, z: nat)
    requires Built(keys, dr, pl) && 1 <= z < |pl.nodes|
    ensures |pl.parent| == |pl.nodes| && pl.parent[z] < |pl.nodes| && z <= |dr.edges|
    ensures Child(keys, dr, pl, pl.parent[z], Some(dr.edges[z - 1])) == Some(z)
  {
    ParentNotTail(keys, dr, pl, z);
    var p := pl.parent[z];
    FanIs(keys, dr, pl, p);
    var jz := z - ChildLo(pl, p);
    ChildIs(keys, dr, pl, p, jz);
    ChildScan(keys, dr, pl, p, jz, 0);
  }

  /** Scanning from `j <= jz` meets no earlier child with `z`'s byte. */
  lemma {:induction false} ChildScan(keys: seq<Key>, dr: Draft, pl: Plan, p: nat, jz: nat, j: nat)
    requires Built(keys, dr, pl) && p < |pl.nodes| && p + 1 < |pl.start| && j <= jz < Fan(pl, p)
    requires 1 <= ChildLo(pl, p) + jz <= |dr.edges|
    ensures ChildFrom(keys, dr, pl, p, Some(dr.edges[ChildLo(pl, p) + jz - 1]), j) == Some(ChildLo(pl, p) + jz)
    decreases jz - j
  {
    if j < jz {
      LabelsIncrease(keys, dr, pl, p, j, jz);
      ChildScan(keys, dr, pl, p, jz, j + 1);
    }
  }

  /** One round of `getChild`'s scan at child `j` of `v`: the LOUDS bit it
      reads, the edge it compares, and where a match leads. */
  /** Where the scan over node `v`'s children stands at child `j`: the
      bit there closes the list exactly at the last child, and otherwise
      the `1` standing for child `j` is the one before that child's own
      list. */
  lemma ScanAt(keys: seq<Key>, dr: Draft, pl: Plan, v: nat, j: nat)
    requires Built(keys, dr, pl) && v < |pl.nodes| && v + 1 < |pl.start| && j <= Fan(pl, v)
    ensures pl.start[v] + j < |dr.louds| && dr.louds[pl.start[v] + j] == (j == Fan(pl, v))
    ensures j < Fan(pl, v) ==>
              var z := pl.start[v] - v - 1 + j;
              v < z < |pl.nodes| && z < |pl.start| && z < Total(dr.louds, true) &&
              Select(dr.louds, true, z) + 1 == pl.start[z] && pl.start[z] >= z
  {
    ChildPos(keys, dr, pl, v, j);
    if j < Fan(pl, v) {
      var z := pl.start[v] - v - 1 + j;
      ChildIs(keys, dr, pl, v, j);
      OneSelect(keys, dr, pl, z);
      ChildEnd(keys, dr, pl, z);
    }
  }

  lemma ScanStep(keys: seq<Key>, dr: Draft, pl: Plan, v: nat, c: Option<Byte>, j: nat)
    requires Built(keys, dr, pl) && v < |pl.nodes| && v + 1 < |pl.start| && j <= Fan(pl, v)
    ensures pl.start[v] + j < |dr.louds| && dr.louds[pl.start[v] + j] == (j == Fan(pl, v))
    ensures j == Fan(pl, v) ==> ChildFrom(keys, dr, pl, v, c, j) == None
    ensures j < Fan(pl, v) ==>
              var z := pl.start[v] - v - 1 + j;
              1 <= z < |pl.nodes| && v < z && z - 1 < |dr.edges| &&
              z < Total(dr.louds, true) && Select(dr.louds, true, z) + 1 == pl.start[z] &&
              pl.start[z] >= z &&
              ChildFrom(keys, dr, pl, v, c, j) ==
                if c == Some(dr.edges[z - 1]) then Some(z) else ChildFrom(keys, dr, pl, v, c, j + 1)
  {
    ChildPos(keys, dr, pl, v, j);
    if j < Fan(pl, v) {
      var z := pl.start[v] - v - 1 + j;
      ChildIs(keys, dr, pl, v, j);
      OneSelect(keys, dr, pl, z);
      ChildEnd(keys, dr, pl, z);
    }
  }

  /** A terminal node that is no tail leaf ends the key it spells. */
  lemma EndsAt(keys: seq<Key>, dr: Draft, pl: Plan, v: nat, q: Key)
    requires Built(keys, dr, pl) && v < |pl.nodes| && v < |dr.tail| && !dr.tail[v]
    requires v < |dr.terminal| && dr.terminal[v]
    requires NodeOk(keys, pl.nodes[v]) && pl.nodes[v].depth <= |q|
    requires Spell(keys, pl, v) == q[..pl.nodes[v].depth]
    ensures |KeyOfNode(keys, pl, v)| == pl.nodes[v].depth && IsPrefix(KeyOfNode(keys, pl, v), q)
  {
    TermFacts(keys, dr, pl, v);
    var key := KeyOfNode(keys, pl, v);
    assert key == key[..pl.nodes[v].depth];
  }

  /** Where a key that is a prefix of `q` stands at a node `v` on `q`'s
      path no deeper than the key is long: a tail leaf holds it alone, a
      node as deep as the key ends it, and otherwise `q`'s next byte leads
      on. */
  lemma PrefixAt(keys: seq<Key>, dr: Draft, pl: Plan, v: nat, q: Key, i: nat)
    requires Built(keys, dr, pl) && v < |pl.nodes| && i < |keys|
    requires NodeOk(keys, pl.nodes[v]) && pl.nodes[v].depth <= |q|
    requires Spell(keys, pl, v) == q[..pl.nodes[v].depth]
    requires IsPrefix(keys[i], q) && pl.nodes[v].depth <= |keys[i]|
    ensures v < |dr.tail| && v < |dr.terminal|
    ensures dr.tail[v] ==> i == pl.nodes[v].left
    ensures !dr.tail[v] && |keys[i]| == pl.nodes[v].depth ==> i == pl.nodes[v].left && dr.terminal[v]
    ensures !dr.tail[v] && pl.nodes[v].depth < |keys[i]| ==>
              pl.nodes[v].depth < |q| && Child(keys, dr, pl, v, Some(q[pl.nodes[v].depth])).Some?
  {
    var d := pl.nodes[v].depth;
    var l := pl.nodes[v].left;
    TermFacts(keys, dr, pl, v);
    assert keys[i][..d] == q[..|keys[i]|][..d];
    InRange(keys, dr, pl, v, i);
    if dr.tail[v] {
      TailFacts(keys, dr, pl, v);
    } else if |keys[i]| == d {
      if i > l {
        OnlyFirstEnds(keys, l, i, d);
      }
    } else if Child(keys, dr, pl, v, Some(q[d])).None? {
      assert keys[i][..d + 1] == q[..|keys[i]|][..d + 1] == q[..d] + [q[d]];
      ChildMissing(keys, dr, pl, v, q[d], i);
    }
  }

  /** A terminal node's key is its spelling followed by its tail, when it
      is a tail leaf, and its spelling alone otherwise. */
  lemma DecodeParts(keys: seq<Key>, dr: Draft, pl: Plan, v: nat)
    requires Built(keys, dr, pl) && v < |pl.nodes| && v < |dr.terminal| && dr.terminal[v]
    ensures NodeOk(keys, pl.nodes[v]) && v < |dr.tail|
    ensures dr.tail[v] ==> Rank(dr.tail, true, v) < |dr.tails| &&
                           Spell(keys, pl, v) + dr.tails[Rank(dr.tail, true, v)] == KeyOfNode(keys, pl, v)
    ensures !dr.tail[v] ==> Spell(keys, pl, v) == KeyOfNode(keys, pl, v)
  {
    TermFacts(keys, dr, pl, v);
    var key := KeyOfNode(keys, pl, v);
    var d := pl.nodes[v].depth;
    if dr.tail[v] {
      TailFacts(keys, dr, pl, v);
      assert key == key[..d] + key[d..];
    } else {
      assert key == key[..d];
    }
  }
}
