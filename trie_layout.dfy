/**
 * The layout `Trie::build` produces, stated as an invariant of its
 * breadth-first loop, and the loop's body (one range of keys).
 *
 * Node `v` is the `v`-th range taken off the queues. The LOUDS bits start
 * with the seed `0 1`; node `v` then owns one `0` per child followed by one
 * `1`, beginning at position `start[v]`. Node `v`'s bit in `terminal` and
 * in `tail` is bit `v`. The `z`-th `0` of LOUDS (counting the seed as the
 * 0th) is the edge into node `z`, and its label is `edges_[z - 1]`.
 */
module TrieLayouts {
  import opened TrieKeys
  import opened TrieRanges
  import opened BitSeqs

  /** The bits and arrays `build` fills: `loudBV`, `terminalBV`, `tailBV`,
      `vtails_` and `edges_`. */
  datatype Draft = Draft(louds: seq<bool>, terminal: seq<bool>, tail: seq<bool>,
                         tails: seq<Key>, edges: seq<Byte>)

  /** Bookkeeping that exists only in the proof: the range and depth of
      every node created so far, where each processed node's LOUDS bits
      begin, and each node's parent. */
  datatype Plan = Plan(nodes: seq<Node>, start: seq<nat>, parent: seq<nat>)

  /** Every key of a non-tail node from `newLeft` on has a byte at the
      node's depth. */
  lemma KidsLonger(keys: seq<Key>, nd: Node)
    requires Sorted(keys) && NodeOk(keys, nd) && !TailCase(keys, nd)
    ensures NewLeft(keys, nd) <= nd.right && LongerThan(keys, NewLeft(keys, nd), nd.right, nd.depth)
  {
    forall i | NewLeft(keys, nd) <= i < nd.right
      ensures nd.depth < |keys[i]|
    {
      if i > nd.left {
        OnlyFirstEnds(keys, nd.left, i, nd.depth);
      }
    }
  }

  /** The children `build` creates for a node: none for a tail leaf,
      otherwise the byte runs of its keys from `newLeft` on. */
  ghost function Kids(keys: seq<Key>, nd: Node): seq<RangeNode>
    requires Sorted(keys) && NodeOk(keys, nd)
  {
    if TailCase(keys, nd) then []
    else
      KidsLonger(keys, nd);
      Runs(keys, NewLeft(keys, nd), nd.right, nd.depth)
  }

  /** The edge bytes of a list of runs at depth `d`. */
  function Labels(keys: seq<Key>, rs: seq<RangeNode>, d: nat): (ls: seq<Byte>)
    ensures |ls| == |rs|
  {
    if rs == [] then []
    else
      var r := rs[|rs| - 1];
      Labels(keys, rs[..|rs| - 1], d) + [if r.left < |keys| && d < |keys[r.left]| then keys[r.left][d] else 0]
  }

  lemma {:induction false} LabelsAt(keys: seq<Key>, rs: seq<RangeNode>, d: nat, j: nat)
    requires j < |rs| && rs[j].left < |keys| && d < |keys[rs[j].left]|
    ensures Labels(keys, rs, d)[j] == keys[rs[j].left][d]
    decreases |rs|
  {
    if j < |rs| - 1 {
      LabelsAt(keys, rs[..|rs| - 1], d, j);
    }
  }

  /** What processed node `v` contributed and what it has become. */
  ghost predicate Processed(keys: seq<Key>, dr: Draft, pl: Plan, v: nat)
    requires Sorted(keys) && v < |pl.nodes| && v + 1 < |pl.start| && OkAt(keys, pl.nodes, v)
  {
    var nd := pl.nodes[v];
    ProcessedAs(dr, pl, v, Kids(keys, nd), TailCase(keys, nd),
                TailCase(keys, nd) || EndsHere(keys, nd), keys[nd.left][nd.depth..])
  }

  /** `Processed` for a node whose children are the runs `kids`, whose tail
      flag is `isTail`, whose terminal flag is `ends` and whose keys' common
      remainder is `rest`. */
  ghost predicate ProcessedAs(dr: Draft, pl: Plan, v: nat, kids: seq<RangeNode>, isTail: bool,
                              ends: bool, rest: Key)
    requires v < |pl.nodes| && v + 1 < |pl.start|
  {
    var s := pl.start[v];
    var depth := pl.nodes[v].depth;
    v + 2 <= s && s + |kids| + 1 == pl.start[v + 1] && pl.start[v + 1] <= |dr.louds| &&
    (forall t | s <= t < s + |kids| :: !dr.louds[t]) && dr.louds[s + |kids|] &&
    Rank(dr.louds, true, s) == v + 1 &&
    s - v - 1 + |kids| <= |pl.nodes| && |pl.nodes| == |pl.parent| &&
    (forall j | 0 <= j < |kids| ::
      pl.nodes[s - v - 1 + j] == Node(kids[j].left, kids[j].right, depth + 1) &&
      pl.parent[s - v - 1 + j] == v) &&
    v < |dr.tail| && v < |dr.terminal| &&
    dr.tail[v] == isTail &&
    dr.terminal[v] == ends &&
    (dr.tail[v] ==> Rank(dr.tail, true, v) < |dr.tails| && dr.tails[Rank(dr.tail, true, v)] == rest)
  }

  /** The edge into node `z`: it hangs under a processed node with a
      smaller number, inside that node's child list, and carries the byte
      at which `z`'s keys leave their parent. */
  ghost predicate Linked(keys: seq<Key>, dr: Draft, pl: Plan, P: nat, z: nat)
    requires 1 <= z < |pl.nodes| == |pl.parent| && |pl.start| == P + 1
  {
    var p := pl.parent[z];
    p < P && p < z && z - 1 < |dr.edges| &&
    pl.start[p] - p - 1 <= z < pl.start[p + 1] - p - 2 &&
    pl.nodes[z].depth == pl.nodes[p].depth + 1 &&
    pl.nodes[z].left < |keys| && pl.nodes[p].depth < |keys[pl.nodes[z].left]| &&
    dr.edges[z - 1] == keys[pl.nodes[z].left][pl.nodes[p].depth]
  }

  /** The state of `build` after `P` ranges have been processed. */
  ghost predicate Partial(keys: seq<Key>, dr: Draft, pl: Plan, P: nat)
  {
    Sorted(keys) && |keys| > 0 &&
    |pl.nodes| > 0 && pl.nodes[0] == Node(0, |keys|, 0) &&
    P <= |pl.nodes| && |pl.start| == P + 1 &&
    pl.start[0] == 2 && |dr.louds| >= 2 && !dr.louds[0] && dr.louds[1] &&
    Counters(dr, pl, P) &&
    AllOk(keys, pl.nodes) && AllProcessed(keys, dr, pl, P) && AllLinked(keys, dr, pl, P)
  }

  /** The lengths and counts that each processed node moves on. */
  ghost predicate Counters(dr: Draft, pl: Plan, P: nat)
  {
    P < |pl.start| && pl.start[P] == |dr.louds| && Rank(dr.louds, true, |dr.louds|) == P + 1 &&
    |dr.louds| - P - 1 == |pl.nodes| && |pl.parent| == |pl.nodes| &&
    |dr.tail| == P && |dr.terminal| == P && |dr.tails| == Rank(dr.tail, true, P) &&
    |dr.edges| + 1 == |pl.nodes|
  }

  ghost predicate AllOk(keys: seq<Key>, nodes: seq<Node>)
  {
    forall z | 0 <= z < |nodes| :: OkAt(keys, nodes, z)
  }

  /** Node `z` is well formed. */
  ghost predicate OkAt(keys: seq<Key>, nodes: seq<Node>, z: nat)
    requires z < |nodes|
  {
    NodeOk(keys, nodes[z])
  }

  ghost predicate AllProcessed(keys: seq<Key>, dr: Draft, pl: Plan, P: nat)
    requires Sorted(keys) && AllOk(keys, pl.nodes) && P <= |pl.nodes| && |pl.start| == P + 1
  {
    forall v | 0 <= v < P :: Processed(keys, dr, pl, v)
  }

  ghost predicate AllLinked(keys: seq<Key>, dr: Draft, pl: Plan, P: nat)
    requires |pl.nodes| == |pl.parent| && |pl.start| == P + 1
  {
    forall z | 1 <= z < |pl.nodes| :: Linked(keys, dr, pl, P, z)
  }

  /** The state before the first range: the seed bits `0 1` and the root
      range holding every key. */
  lemma Seed(keys: seq<Key>)
    requires Sorted(keys) && |keys| > 0
    ensures Partial(keys, Draft([false, true], [], [], [], []), Plan([Node(0, |keys|, 0)], [2], [0]), 0)
  {
    var louds := [false, true];
    assert Rank(louds, true, 2) == 1 by {
      assert Rank(louds, true, 1) == 0;
    }
    assert NodeOk(keys, Node(0, |keys|, 0));
  }

  /** What processing node `nd` appends: `deg` zeros and a one to LOUDS,
      its terminal and tail bits, its tail string if it is a tail leaf,
      and one edge byte per child. */
  ghost predicate Expanded(keys: seq<Key>, nd: Node, dr: Draft, next: Draft)
    requires Sorted(keys) && NodeOk(keys, nd)
  {
    var kids := Kids(keys, nd);
    next.louds == dr.louds + Repeat(false, |kids|) + [true] &&
    next.terminal == dr.terminal + [TailCase(keys, nd) || EndsHere(keys, nd)] &&
    next.tail == dr.tail + [TailCase(keys, nd)] &&
    next.tails == dr.tails + (if TailCase(keys, nd) then [keys[nd.left][nd.depth..]] else []) &&
    next.edges == dr.edges + Labels(keys, kids, nd.depth)
  }

  /** One range taken off the queue (the body of `build`'s loop after
      `q.pop()`): its bits, its tail, its edges and its child ranges. */
  method Expand(keys: seq<Key>, depth: nat, rn: RangeNode, dr: Draft, nextQ: seq<RangeNode>)
    returns (next: Draft, nextQ2: seq<RangeNode>)
    requires Sorted(keys) && NodeOk(keys, Node(rn.left, rn.right, depth))
    ensures Expanded(keys, Node(rn.left, rn.right, depth), dr, next)
    ensures nextQ2 == nextQ + Kids(keys, Node(rn.left, rn.right, depth))
  {
    ghost var nd := Node(rn.left, rn.right, depth);
    var louds, terminal, tail, tails, edges := dr.louds, dr.terminal, dr.tail, dr.tails, dr.edges;
    nextQ2 := nextQ;
    var left, right := rn.left, rn.right;
    var cur := keys[left];
    if left + 1 == right && depth + 1 < |cur| {
      louds := louds + [true];
      terminal := terminal + [true];
      tail := tail + [true];
      var t: Key := [];
      for i := depth to |cur|
        invariant t == cur[depth..i]
      {
        t := t + [cur[i]];
      }
      assert t == cur[depth..];
      tails := tails + [t];
      assert Kids(keys, nd) == [];
      assert Repeat(false, 0) == [] && Labels(keys, [], depth) == [];
      next := Draft(louds, terminal, tail, tails, edges);
      return;
    } else {
      tail := tail + [false];
    }
    var newLeft := left;
    if depth == |cur| {
      terminal := terminal + [true];
      newLeft := newLeft + 1;
      if newLeft == right {
        louds := louds + [true];
        assert Kids(keys, nd) == Runs(keys, right, right, depth) == [];
        assert Repeat(false, 0) == [] && Labels(keys, [], depth) == [];
        next := Draft(louds, terminal, tail, tails, edges);
        return;
      }
    } else {
      terminal := terminal + [false];
    }
    KidsLonger(keys, nd);
    louds, edges, nextQ2 := PushEdges(keys, depth, newLeft, right, louds, edges, nextQ2);
    next := Draft(louds, terminal, tail, tails, edges);
  }

  /** The edge loop of `build`: one `0` in LOUDS, one byte in `edges_` and
      one queued range per run of equal bytes at `depth`, then the closing
      `1`. */
  method PushEdges(keys: seq<Key>, depth: nat, newLeft: nat, right: nat,
                   louds: seq<bool>, edges: seq<Byte>, nextQ: seq<RangeNode>)
    returns (louds2: seq<bool>, edges2: seq<Byte>, nextQ2: seq<RangeNode>)
    requires newLeft < right <= |keys| && LongerThan(keys, newLeft, right, depth)
    ensures var kids := Runs(keys, newLeft, right, depth);
            louds2 == louds + Repeat(false, |kids|) + [true] &&
            edges2 == edges + Labels(keys, kids, depth) &&
            nextQ2 == nextQ + kids
  {
    louds2, edges2, nextQ2 := louds, edges, nextQ;
    ghost var kids := Runs(keys, newLeft, right, depth);
    ghost var pushed: seq<RangeNode> := [];
    var prev := newLeft;
    var prevC := keys[prev][depth];
    var i := prev + 1;
    while true
      invariant newLeft <= prev < i <= right
      invariant prevC == keys[prev][depth]
      invariant forall j | prev <= j < i :: keys[j][depth] == prevC
      invariant LongerThan(keys, prev, right, depth)
      invariant PushedSoFar(keys, depth, prev, right, kids, pushed, louds, edges, nextQ, louds2, edges2, nextQ2)
      decreases right - i
    {
      if i < right && prevC == keys[i][depth] {
        i := i + 1;
        continue;
      }
      PushRun(keys, prev, i, right, depth, kids, pushed, louds, edges, nextQ, louds2, edges2, nextQ2);
      edges2 := edges2 + [prevC];
      louds2 := louds2 + [false];
      nextQ2 := nextQ2 + [RangeNode(prev, i)];
      pushed := pushed + [RangeNode(prev, i)];
      if i == right {
        assert Runs(keys, right, right, depth) == [];
        assert pushed == kids;
        break;
      }
      prev := i;
      prevC := keys[prev][depth];
      i := i + 1;
    }
    louds2 := louds2 + [true];
  }

  /** The edge loop's bookkeeping: `pushed` are the runs already closed,
      and each output holds exactly their contribution. */
  ghost predicate PushedSoFar(keys: seq<Key>, depth: nat, prev: nat, right: nat, kids: seq<RangeNode>,
                              pushed: seq<RangeNode>, louds: seq<bool>, edges: seq<Byte>, nextQ: seq<RangeNode>,
                              louds2: seq<bool>, edges2: seq<Byte>, nextQ2: seq<RangeNode>)
    requires prev <= right <= |keys| && LongerThan(keys, prev, right, depth)
  {
    pushed + Runs(keys, prev, right, depth) == kids &&
    nextQ2 == nextQ + pushed &&
    edges2 == edges + Labels(keys, pushed, depth) &&
    louds2 == louds + Repeat(false, |pushed|)
  }

  /** Closing the run `[prev, i)` moves it from the runs still ahead to the
      runs pushed. */
  lemma PushRun(keys: seq<Key>, prev: nat, i: nat, right: nat, depth: nat, kids: seq<RangeNode>,
                pushed: seq<RangeNode>, louds: seq<bool>, edges: seq<Byte>, nextQ: seq<RangeNode>,
                louds2: seq<bool>, edges2: seq<Byte>, nextQ2: seq<RangeNode>)
    requires prev < i <= right <= |keys| && LongerThan(keys, prev, right, depth)
    requires forall j | prev <= j < i :: keys[j][depth] == keys[prev][depth]
    requires i < right ==> keys[i][depth] != keys[prev][depth]
    requires PushedSoFar(keys, depth, prev, right, kids, pushed, louds, edges, nextQ, louds2, edges2, nextQ2)
    ensures LongerThan(keys, i, right, depth)
    ensures PushedSoFar(keys, depth, i, right, kids, pushed + [RangeNode(prev, i)], louds, edges, nextQ,
                        louds2 + [false], edges2 + [keys[prev][depth]], nextQ2 + [RangeNode(prev, i)])
  {
    RunsFirst(keys, prev, i, right, depth);
    assert (pushed + [RangeNode(prev, i)])[..|pushed|] == pushed;
  }

  lemma RunsFirst(keys: seq<Key>, prev: nat, i: nat, right: nat, depth: nat)
    requires prev < i <= right <= |keys| && LongerThan(keys, prev, right, depth)
    requires forall j | prev <= j < i :: keys[j][depth] == keys[prev][depth]
    requires i < right ==> keys[i][depth] != keys[prev][depth]
    ensures LongerThan(keys, i, right, depth)
    ensures Runs(keys, prev, right, depth) == [RangeNode(prev, i)] + Runs(keys, i, right, depth)
  {
    RunEndIs(keys, prev, i, right, depth);
  }

  // ------------------------------------------------------------ one step

  /** The plan once node `P` is processed: its children join the node
      table, and node `P + 1`'s LOUDS list begins after `P`'s. */
  ghost function NextPlan(keys: seq<Key>, pl: Plan, P: nat, next: Draft): Plan
    requires Sorted(keys) && P < |pl.nodes| && NodeOk(keys, pl.nodes[P])
  {
    var kids := Kids(keys, pl.nodes[P]);
    Plan(pl.nodes + Deepen(kids, pl.nodes[P].depth + 1), pl.start + [|next.louds|],
         pl.parent + seq(|kids|, _ => P))
  }

  /** Keys agreeing on `d` bytes and on byte `d` agree on `d + 1` bytes. */
  lemma PrefixExtend(a: Key, b: Key, d: nat)
    requires d < |a| && d < |b| && a[..d] == b[..d] && a[d] == b[d]
    ensures a[..d + 1] == b[..d + 1]
  {
    assert a[..d + 1] == a[..d] + [a[d]];
    assert b[..d + 1] == b[..d] + [b[d]];
  }

  /** What `RunsTile` says about one run. */
  lemma RunAt(keys: seq<Key>, lo: nat, hi: nat, d: nat, j: nat)
    requires lo <= hi <= |keys| && LongerThan(keys, lo, hi, d) && j < |Runs(keys, lo, hi, d)|
    ensures var k := Runs(keys, lo, hi, d)[j];
            lo <= k.left < k.right <= hi &&
            forall i | k.left <= i < k.right :: keys[i][d] == keys[k.left][d]
  {
    RunsTile(keys, lo, hi, d);
  }

  /** The children of a node are well-formed nodes one level down, and the
      byte on the edge into each exists. */
  lemma KidsOk(keys: seq<Key>, nd: Node, j: nat)
    requires Sorted(keys) && NodeOk(keys, nd) && j < |Kids(keys, nd)|
    ensures var k := Kids(keys, nd)[j];
            NodeOk(keys, Node(k.left, k.right, nd.depth + 1)) &&
            nd.left <= k.left && k.right <= nd.right &&
            nd.depth < |keys[k.left]|
  {
    KidsLonger(keys, nd);
    var lo := NewLeft(keys, nd);
    var d := nd.depth;
    RunAt(keys, lo, nd.right, d, j);
    var k := Runs(keys, lo, nd.right, d)[j];
    forall i | k.left <= i < k.right
      ensures d + 1 <= |keys[i]| && keys[i][..d + 1] == keys[k.left][..d + 1]
    {
      PrefixExtend(keys[i], keys[k.left], d);
    }
  }

  /** A node processed earlier is not disturbed by what later nodes append. */
  lemma ProcessedKept(keys: seq<Key>, dr: Draft, pl: Plan, dr2: Draft, pl2: Plan, v: nat)
    requires Sorted(keys) && v < |pl.nodes| && v + 1 < |pl.start| && NodeOk(keys, pl.nodes[v])
    requires Processed(keys, dr, pl, v)
    requires dr.louds <= dr2.louds && dr.tail <= dr2.tail && dr.terminal <= dr2.terminal && dr.tails <= dr2.tails
    requires pl.nodes <= pl2.nodes && pl.start <= pl2.start && pl.parent <= pl2.parent && |pl2.nodes| == |pl2.parent|
    ensures Processed(keys, dr2, pl2, v)
  {
    var nd := pl.nodes[v];
    assert pl2.nodes[v] == nd && OkAt(keys, pl2.nodes, v);
    ProcessedAsKept(dr, pl, dr2, pl2, v, Kids(keys, nd), TailCase(keys, nd),
                    TailCase(keys, nd) || EndsHere(keys, nd), keys[nd.left][nd.depth..]);
  }

  /** `ProcessedAs` survives extending every sequence of the draft and the
      plan. */
  lemma ProcessedAsKept(dr: Draft, pl: Plan, dr2: Draft, pl2: Plan, v: nat, kids: seq<RangeNode>,
                        isTail: bool, ends: bool, rest: Key)
    requires v < |pl.nodes| && v + 1 < |pl.start| && ProcessedAs(dr, pl, v, kids, isTail, ends, rest)
    requires dr.louds <= dr2.louds && dr.tail <= dr2.tail && dr.terminal <= dr2.terminal && dr.tails <= dr2.tails
    requires pl.nodes <= pl2.nodes && pl.start <= pl2.start && pl.parent <= pl2.parent && |pl2.nodes| == |pl2.parent|
    ensures ProcessedAs(dr2, pl2, v, kids, isTail, ends, rest)
  {
    var s := pl.start[v];
    assert pl2.nodes[v] == pl.nodes[v] && pl2.start[v] == s && pl2.start[v + 1] == pl.start[v + 1];
    ListKept(dr.louds, dr2.louds, s, |kids|, v);
    TailKept(dr.tail, dr2.tail, dr.tails, dr2.tails, v);
    assert dr2.terminal[v] == dr.terminal[v];
  }

  /** A child list of `k` zeros closed by a one at `s`, preceded by `v + 1`
      ones, stays so in any extension of the bits. */
  lemma ListKept(louds: seq<bool>, louds2: seq<bool>, s: nat, k: nat, v: nat)
    requires louds <= louds2 && s + k < |louds|
    requires (forall t | s <= t < s + k :: !louds[t]) && louds[s + k] && Rank(louds, true, s) == v + 1
    ensures (forall t | s <= t < s + k :: !louds2[t]) && louds2[s + k] && Rank(louds2, true, s) == v + 1
  {
    RankPrefix(louds, louds2, true, s);
  }

  /** The tail a node's flag points to is the same in any extension of the
      flags and the tails. */
  lemma TailKept(tail: seq<bool>, tail2: seq<bool>, tails: seq<Key>, tails2: seq<Key>, v: nat)
    requires tail <= tail2 && tails <= tails2 && v < |tail|
    requires tail[v] ==> Rank(tail, true, v) < |tails|
    ensures tail2[v] == tail[v]
    ensures tail[v] ==> Rank(tail2, true, v) == Rank(tail, true, v) < |tails2| &&
                        tails2[Rank(tail, true, v)] == tails[Rank(tail, true, v)]
  {
    RankPrefix(tail, tail2, true, v);
  }

  /** The node just processed satisfies `Processed`. */
  lemma ProcessedNew(keys: seq<Key>, dr: Draft, pl: Plan, P: nat, dr2: Draft)
    requires Sorted(keys) && P < |pl.nodes| && |pl.start| == P + 1 && NodeOk(keys, pl.nodes[P])
    requires Counters(dr, pl, P)
    requires Expanded(keys, pl.nodes[P], dr, dr2)
    ensures var pl2 := NextPlan(keys, pl, P, dr2);
            P + 1 < |pl2.start| && P < |pl2.nodes| && NodeOk(keys, pl2.nodes[P]) &&
            Processed(keys, dr2, pl2, P)
  {
    var nd := pl.nodes[P];
    ProcessedNewAs(dr, pl, P, dr2, NextPlan(keys, pl, P, dr2), Kids(keys, nd), TailCase(keys, nd),
                   TailCase(keys, nd) || EndsHere(keys, nd), keys[nd.left][nd.depth..]);
  }

  /** `ProcessedNew` for a node whose children are the runs `kids`. */
  lemma ProcessedNewAs(dr: Draft, pl: Plan, P: nat, dr2: Draft, pl2: Plan, kids: seq<RangeNode>,
                       isTail: bool, ends: bool, rest: Key)
    requires P < |pl.nodes| && |pl.start| == P + 1 && Counters(dr, pl, P)
    requires dr2.louds == dr.louds + Repeat(false, |kids|) + [true]
    requires dr2.terminal == dr.terminal + [ends] && dr2.tail == dr.tail + [isTail]
    requires dr2.tails == dr.tails + (if isTail then [rest] else [])
    requires pl2 == Plan(pl.nodes + Deepen(kids, pl.nodes[P].depth + 1), pl.start + [|dr2.louds|],
                         pl.parent + seq(|kids|, _ => P))
    ensures P + 1 < |pl2.start| && P < |pl2.nodes| && ProcessedAs(dr2, pl2, P, kids, isTail, ends, rest)
  {
    var s := pl.start[P];
    assert s == |dr.louds| && s - P - 1 == |pl.nodes| == |pl.parent|;
    NewList(dr.louds, dr2.louds, |kids|, P);
    NewKids(pl.nodes, pl.parent, pl2.nodes, pl2.parent, kids, pl.nodes[P].depth + 1, P);
    NewTail(dr.tail, dr2.tail, dr.tails, dr2.tails, isTail, rest);
    assert pl2.nodes[P] == pl.nodes[P] && pl2.start[P] == s && pl2.start[P + 1] == |dr2.louds|;
    assert dr2.terminal[P] == ends;
  }

  /** A child list of `k` zeros and a closing one appended after `v + 1`
      ones. */
  lemma NewList(louds: seq<bool>, louds2: seq<bool>, k: nat, v: nat)
    requires louds2 == louds + Repeat(false, k) + [true] && Rank(louds, true, |louds|) == v + 1
    ensures |louds2| == |louds| + k + 1
    ensures (forall t | |louds| <= t < |louds| + k :: !louds2[t]) && louds2[|louds| + k]
    ensures Rank(louds2, true, |louds|) == v + 1
  {
    assert louds2 == louds + (Repeat(false, k) + [true]);
    RankAppend(louds, Repeat(false, k) + [true], true, |louds|);
  }

  /** The nodes appended for the runs `kids` at depth `d`, all with parent
      `v`. */
  lemma NewKids(nodes: seq<Node>, parent: seq<nat>, nodes2: seq<Node>, parent2: seq<nat>,
                kids: seq<RangeNode>, d: nat, v: nat)
    requires |nodes| == |parent|
    requires nodes2 == nodes + Deepen(kids, d) && parent2 == parent + seq(|kids|, _ => v)
    ensures |nodes2| == |parent2| == |nodes| + |kids| && nodes <= nodes2
    ensures forall j | 0 <= j < |kids| ::
              nodes2[|nodes| + j] == Node(kids[j].left, kids[j].right, d) && parent2[|nodes| + j] == v
  {
  }

  /** The tail flag appended for the node numbered `|tail|`, and its
      remainder when it is a tail leaf. */
  lemma NewTail(tail: seq<bool>, tail2: seq<bool>, tails: seq<Key>, tails2: seq<Key>, isTail: bool, rest: Key)
    requires |tails| == Rank(tail, true, |tail|)
    requires tail2 == tail + [isTail] && tails2 == tails + (if isTail then [rest] else [])
    ensures tail2[|tail|] == isTail
    ensures isTail ==> Rank(tail2, true, |tail|) < |tails2| && tails2[Rank(tail2, true, |tail|)] == rest
  {
    RankAppend(tail, [isTail], true, |tail|);
  }

  /** `Counters` move on to `P + 1`. */
  lemma CountersNext(keys: seq<Key>, dr: Draft, pl: Plan, P: nat, dr2: Draft)
    requires Sorted(keys) && P < |pl.nodes| && |pl.start| == P + 1 && NodeOk(keys, pl.nodes[P])
    requires Counters(dr, pl, P)
    requires Expanded(keys, pl.nodes[P], dr, dr2)
    ensures Counters(dr2, NextPlan(keys, pl, P, dr2), P + 1)
  {
    var nd := pl.nodes[P];
    var k := |Kids(keys, nd)|;
    var s := pl.start[P];
    assert dr2.louds == dr.louds + (Repeat(false, k) + [true]);
    RankAppend(dr.louds, Repeat(false, k) + [true], true, s);
    RankRun(dr2.louds, true, false, s, k);
    RankAppend(dr.tail, [TailCase(keys, nd)], true, P);
  }

  /** An edge recorded earlier is not disturbed by what later nodes append. */
  lemma LinkedKept(keys: seq<Key>, dr: Draft, pl: Plan, P: nat, dr2: Draft, pl2: Plan, z: nat)
    requires 1 <= z < |pl.nodes| == |pl.parent| && |pl.start| == P + 1
    requires Linked(keys, dr, pl, P, z)
    requires dr.edges <= dr2.edges
    requires pl.nodes <= pl2.nodes && pl.start <= pl2.start && pl.parent <= pl2.parent
    requires |pl2.nodes| == |pl2.parent| && |pl2.start| == P + 2
    ensures Linked(keys, dr2, pl2, P + 1, z)
  {
  }

  /** The edges into the children of the node just processed. */
  lemma LinkedNew(keys: seq<Key>, dr: Draft, pl: Plan, P: nat, dr2: Draft, z: nat)
    requires Sorted(keys) && P < |pl.nodes| && |pl.start| == P + 1 && NodeOk(keys, pl.nodes[P])
    requires Counters(dr, pl, P)
    requires Expanded(keys, pl.nodes[P], dr, dr2)
    requires |pl.nodes| <= z < |pl.nodes| + |Kids(keys, pl.nodes[P])|
    ensures var pl2 := NextPlan(keys, pl, P, dr2);
            |pl2.nodes| == |pl2.parent| && |pl2.start| == P + 2 && z < |pl2.nodes| &&
            Linked(keys, dr2, pl2, P + 1, z)
  {
    var nd := pl.nodes[P];
    var kids := Kids(keys, nd);
    var j := z - |pl.nodes|;
    KidsOk(keys, nd, j);
    LabelsAt(keys, kids, nd.depth, j);
  }

  lemma StepNodes(keys: seq<Key>, pl: Plan, P: nat, dr2: Draft)
    requires Sorted(keys) && P < |pl.nodes| && AllOk(keys, pl.nodes) && OkAt(keys, pl.nodes, P)
    ensures AllOk(keys, NextPlan(keys, pl, P, dr2).nodes)
  {
    var nd := pl.nodes[P];
    var nodes2 := NextPlan(keys, pl, P, dr2).nodes;
    forall z | 0 <= z < |nodes2|
      ensures OkAt(keys, nodes2, z)
    {
      if z >= |pl.nodes| {
        KidsOk(keys, nd, z - |pl.nodes|);
      } else {
        assert OkAt(keys, pl.nodes, z);
      }
    }
  }

  lemma AllProcessedKept(keys: seq<Key>, dr: Draft, pl: Plan, P: nat, dr2: Draft, pl2: Plan)
    requires Sorted(keys) && P <= |pl.nodes| && |pl.start| == P + 1 && AllOk(keys, pl.nodes)
    requires AllProcessed(keys, dr, pl, P)
    requires dr.louds <= dr2.louds && dr.tail <= dr2.tail && dr.terminal <= dr2.terminal && dr.tails <= dr2.tails
    requires pl.nodes <= pl2.nodes && pl.start <= pl2.start && pl.parent <= pl2.parent && |pl2.nodes| == |pl2.parent|
    ensures forall v | 0 <= v < P :: v + 1 < |pl2.start| && v < |pl2.nodes| && OkAt(keys, pl2.nodes, v) &&
                                     Processed(keys, dr2, pl2, v)
  {
    forall v | 0 <= v < P
      ensures v + 1 < |pl2.start| && v < |pl2.nodes| && OkAt(keys, pl2.nodes, v) && Processed(keys, dr2, pl2, v)
    {
      assert OkAt(keys, pl.nodes, v);
      ProcessedKept(keys, dr, pl, dr2, pl2, v);
    }
  }

  lemma AllProcessedNext(keys: seq<Key>, dr2: Draft, pl2: Plan, P: nat)
    requires Sorted(keys) && P < |pl2.nodes| && |pl2.start| == P + 2 && AllOk(keys, pl2.nodes)
    requires forall v | 0 <= v < P :: v + 1 < |pl2.start| && v < |pl2.nodes| && OkAt(keys, pl2.nodes, v) &&
                                      Processed(keys, dr2, pl2, v)
    requires Processed(keys, dr2, pl2, P)
    ensures AllProcessed(keys, dr2, pl2, P + 1)
  {
  }

  lemma StepProcessed(keys: seq<Key>, dr: Draft, pl: Plan, P: nat, dr2: Draft, pl2: Plan)
    requires Sorted(keys) && P < |pl.nodes| && |pl.start| == P + 1 && AllOk(keys, pl.nodes) && OkAt(keys, pl.nodes, P)
    requires AllProcessed(keys, dr, pl, P)
    requires Counters(dr, pl, P)
    requires Expanded(keys, pl.nodes[P], dr, dr2)
    requires pl2 == NextPlan(keys, pl, P, dr2) && AllOk(keys, pl2.nodes)
    ensures AllProcessed(keys, dr2, pl2, P + 1)
  {
    assert dr.louds <= dr2.louds && dr.tail <= dr2.tail && dr.terminal <= dr2.terminal && dr.tails <= dr2.tails;
    assert pl.nodes <= pl2.nodes && pl.start <= pl2.start && pl.parent <= pl2.parent;
    AllProcessedKept(keys, dr, pl, P, dr2, pl2);
    ProcessedNew(keys, dr, pl, P, dr2);
    AllProcessedNext(keys, dr2, pl2, P);
  }

  lemma StepLinked(keys: seq<Key>, dr: Draft, pl: Plan, P: nat, dr2: Draft, pl2: Plan, P1: nat)
    requires Sorted(keys) && P < |pl.nodes| && |pl.start| == P + 1 && NodeOk(keys, pl.nodes[P])
    requires Counters(dr, pl, P)
    requires AllLinked(keys, dr, pl, P)
    requires Expanded(keys, pl.nodes[P], dr, dr2)
    requires pl2 == NextPlan(keys, pl, P, dr2) && P1 == P + 1
    ensures AllLinked(keys, dr2, pl2, P1)
  {
    forall z | 1 <= z < |pl2.nodes|
      ensures Linked(keys, dr2, pl2, P1, z)
    {
      if z < |pl.nodes| {
        LinkedKept(keys, dr, pl, P, dr2, pl2, z);
      } else {
        LinkedNew(keys, dr, pl, P, dr2, z);
      }
    }
  }

  /** One iteration of `build`'s loop keeps the layout. */
  lemma Step(keys: seq<Key>, dr: Draft, pl: Plan, P: nat, dr2: Draft)
    requires Partial(keys, dr, pl, P) && P < |pl.nodes| && OkAt(keys, pl.nodes, P)
    requires Expanded(keys, pl.nodes[P], dr, dr2)
    ensures Partial(keys, dr2, NextPlan(keys, pl, P, dr2), P + 1)
  {
    var pl2 := NextPlan(keys, pl, P, dr2);
    CountersNext(keys, dr, pl, P, dr2);
    StepNodes(keys, pl, P, dr2);
    StepProcessed(keys, dr, pl, P, dr2, pl2);
    StepLinked(keys, dr, pl, P, dr2, pl2, P + 1);
  }

  // ------------------------------------------------------------ queues and budget

  /** The ranges of a list of nodes. */
  function Ranges(ns: seq<Node>): (rs: seq<RangeNode>)
    ensures |rs| == |ns|
    ensures forall j | 0 <= j < |ns| :: rs[j] == RangeNode(ns[j].left, ns[j].right)
  {
    seq(|ns|, j requires 0 <= j < |ns| => RangeNode(ns[j].left, ns[j].right))
  }

  /** `q` followed by `nextQ` are the nodes not yet processed: those of `q`
      at depth `depth`, those of `nextQ` one deeper. */
  ghost predicate Queued(nodes: seq<Node>, P: nat, q: seq<RangeNode>, nextQ: seq<RangeNode>, depth: nat)
  {
    P <= |nodes| && Ranges(nodes[P..]) == q + nextQ &&
    (forall z | P <= z < P + |q| :: nodes[z].depth == depth) &&
    (forall z | P + |q| <= z < |nodes| :: nodes[z].depth == depth + 1)
  }

  /** Every key is accounted for, by a terminal bit already set or by a
      node still queued; the edges so far and the work left fit in the
      bytes of the keys. */
  ghost predicate Budget(keys: seq<Key>, dr: Draft, pl: Plan, P: nat)
    requires P <= |pl.nodes| && P <= |dr.terminal|
  {
    Rank(dr.terminal, true, P) + KeyCount(pl.nodes[P..]) == |keys| &&
    |dr.edges| + QueueCost(keys, pl.nodes[P..]) <= TotalLength(keys) + |pl.nodes| - P
  }

  lemma {:induction false} WeightTotal(keys: seq<Key>, m: nat)
    requires m <= |keys|
    ensures Weight(keys, 0, m, 0) == TotalLength(keys[..m])
  {
    if m > 0 {
      WeightTotal(keys, m - 1);
      WeightSplit(keys, 0, m - 1, m, 0);
      assert keys[..m][..m - 1] == keys[..m - 1];
    }
  }

  /** The root alone is queued at the start. */
  lemma SeedBudget(keys: seq<Key>)
    requires Sorted(keys) && |keys| > 0
    ensures Budget(keys, Draft([false, true], [], [], [], []), Plan([Node(0, |keys|, 0)], [2], [0]), 0)
    ensures Queued([Node(0, |keys|, 0)], 0, [RangeNode(0, |keys|)], [], 0)
  {
    var ns := [Node(0, |keys|, 0)];
    assert ns[0..] == ns && ns[..0] == [];
    WeightTotal(keys, |keys|);
    assert keys[..|keys|] == keys;
  }

  lemma AllOkSlice(keys: seq<Key>, ns: seq<Node>, a: nat, b: nat)
    requires AllOk(keys, ns) && a <= b <= |ns|
    ensures AllOk(keys, ns[a..b])
  {
    var sub := ns[a..b];
    forall z | 0 <= z < |sub|
      ensures OkAt(keys, sub, z)
    {
      assert sub[z] == ns[a + z] && OkAt(keys, ns, a + z);
    }
  }

  lemma {:induction false} QueueCostAtLeast(keys: seq<Key>, ns: seq<Node>)
    requires AllOk(keys, ns)
    ensures QueueCost(keys, ns) >= |ns|
    decreases |ns|
  {
    if ns != [] {
      var last := ns[|ns| - 1];
      AllOkSlice(keys, ns, 0, |ns| - 1);
      assert ns[0..|ns| - 1] == ns[..|ns| - 1];
      QueueCostAtLeast(keys, ns[..|ns| - 1]);
      assert OkAt(keys, ns, |ns| - 1);
      WeightNonNegative(keys, last.left, last.right, last.depth);
    }
  }

  lemma RangesDeepen(rs: seq<RangeNode>, d: nat)
    ensures Ranges(Deepen(rs, d)) == rs
  {
  }

  /** Taking node `P` off the queue and queueing its children `kids`. */
  lemma StepQueue(nodes: seq<Node>, P: nat, q: seq<RangeNode>, nextQ: seq<RangeNode>, depth: nat,
                  kids: seq<RangeNode>, nodes2: seq<Node>)
    requires P < |nodes| && q != [] && Queued(nodes, P, q, nextQ, depth)
    requires nodes2 == nodes + Deepen(kids, nodes[P].depth + 1)
    ensures nodes[P] == Node(q[0].left, q[0].right, depth)
    ensures Queued(nodes2, P + 1, q[1..], nextQ + kids, depth)
  {
    assert Ranges(nodes[P..])[0] == q[0];
    var deeper := Deepen(kids, depth + 1);
    assert nodes2[P + 1..] == nodes[P + 1..] + deeper;
    assert Ranges(nodes[P + 1..]) == Ranges(nodes[P..])[1..];
    RangesDeepen(kids, depth + 1);
    assert Ranges(nodes2[P + 1..]) == Ranges(nodes[P + 1..]) + Ranges(deeper);
    assert q[1..] + (nextQ + kids) == (q + nextQ)[1..] + kids;
  }

  /** When `q` runs dry, `nextQ` holds the next level. */
  lemma SwapQueue(nodes: seq<Node>, P: nat, nextQ: seq<RangeNode>, depth: nat)
    requires Queued(nodes, P, [], nextQ, depth)
    ensures Queued(nodes, P, nextQ, [], depth + 1)
    ensures nextQ == [] ==> P == |nodes|
  {
    assert nextQ + [] == [] + nextQ;
  }

  /** The children of `nd` hold its keys except the one ending at `nd`. */
  lemma KidsKeys(keys: seq<Key>, nd: Node)
    requires Sorted(keys) && NodeOk(keys, nd)
    ensures KeyCount(Deepen(Kids(keys, nd), nd.depth + 1)) + (if TailCase(keys, nd) || EndsHere(keys, nd) then 1 else 0)
            == nd.right - nd.left
  {
    if !TailCase(keys, nd) {
      KidsLonger(keys, nd);
      RunsCount(keys, NewLeft(keys, nd), nd.right, nd.depth);
    }
  }

  /** The work of the children of `nd` is at most the bytes below `nd`:
      each child costs one and eats one byte of each of its keys. */
  lemma KidsCost(keys: seq<Key>, nd: Node)
    requires Sorted(keys) && NodeOk(keys, nd)
    ensures QueueCost(keys, Deepen(Kids(keys, nd), nd.depth + 1)) <= Weight(keys, nd.left, nd.right, nd.depth)
  {
    WeightNonNegative(keys, nd.left, nd.right, nd.depth);
    if !TailCase(keys, nd) {
      KidsLonger(keys, nd);
      var lo := NewLeft(keys, nd);
      RunsCount(keys, lo, nd.right, nd.depth);
      RunsTile(keys, lo, nd.right, nd.depth);
      WeightSplit(keys, nd.left, lo, nd.right, nd.depth);
      if lo > nd.left {
        assert Weight(keys, nd.left, lo, nd.depth) == 0 by {
          assert Weight(keys, lo, lo, nd.depth) == 0;
        }
      }
    }
  }

  lemma OneNode(keys: seq<Key>, nd: Node)
    ensures KeyCount([nd]) == nd.right - nd.left
    ensures QueueCost(keys, [nd]) == Cost(keys, nd)
  {
    assert [nd][..0] == [];
  }

  /** How the key count and the work of the queue change when node `nd`
      leaves it and its children join it. */
  lemma StepTotals(keys: seq<Key>, nd: Node, rest: seq<Node>)
    requires Sorted(keys) && NodeOk(keys, nd)
    ensures var kids := Kids(keys, nd);
            var deeper := Deepen(kids, nd.depth + 1);
            KeyCount([nd] + rest) == KeyCount(rest + deeper) + (if TailCase(keys, nd) || EndsHere(keys, nd) then 1 else 0) &&
            QueueCost(keys, rest + deeper) + 1 <= QueueCost(keys, [nd] + rest)
  {
    var deeper := Deepen(Kids(keys, nd), nd.depth + 1);
    KeyCountAppend([nd], rest);
    KeyCountAppend(rest, deeper);
    QueueCostAppend(keys, [nd], rest);
    QueueCostAppend(keys, rest, deeper);
    OneNode(keys, nd);
    KidsKeys(keys, nd);
    KidsCost(keys, nd);
  }

  /** One processed node keeps the budget and shrinks the work left. */
  lemma StepBudget(keys: seq<Key>, dr: Draft, pl: Plan, P: nat, dr2: Draft, pl2: Plan)
    requires Sorted(keys) && P < |pl.nodes| && NodeOk(keys, pl.nodes[P]) && |dr.terminal| == P
    requires var nd := pl.nodes[P];
             dr2.terminal == dr.terminal + [TailCase(keys, nd) || EndsHere(keys, nd)] &&
             |dr2.edges| == |dr.edges| + |Kids(keys, nd)| &&
             pl2.nodes == pl.nodes + Deepen(Kids(keys, nd), nd.depth + 1)
    requires AllOk(keys, pl2.nodes)
    requires Budget(keys, dr, pl, P)
    ensures P + 1 <= |pl2.nodes| && P + 1 <= |dr2.terminal| &&
            Budget(keys, dr2, pl2, P + 1) &&
            0 <= QueueCost(keys, pl2.nodes[P + 1..]) < QueueCost(keys, pl.nodes[P..])
  {
    var nd := pl.nodes[P];
    var rest := pl.nodes[P + 1..];
    var deeper := Deepen(Kids(keys, nd), nd.depth + 1);
    QueueSplit(pl.nodes, Deepen(Kids(keys, nd), nd.depth + 1), pl2.nodes, P);
    StepTotals(keys, nd, rest);
    TerminalStep(dr.terminal, TailCase(keys, nd) || EndsHere(keys, nd));
    WorkLeft(keys, pl2.nodes, P + 1);
  }

  /** The queue from `P` is its head and the rest; after the children are
      appended, the queue from `P + 1` is the rest and the children. */
  lemma QueueSplit(ns: seq<Node>, kids: seq<Node>, ns2: seq<Node>, P: nat)
    requires P < |ns| && ns2 == ns + kids
    ensures ns[P..] == [ns[P]] + ns[P + 1..] && ns2[P + 1..] == ns[P + 1..] + kids
  {
  }

  lemma TerminalStep(terminal: seq<bool>, b: bool)
    ensures Rank(terminal + [b], true, |terminal| + 1) == Rank(terminal, true, |terminal|) + (if b then 1 else 0)
  {
    RankAppend(terminal, [b], true, |terminal|);
  }

  lemma WorkLeft(keys: seq<Key>, nodes: seq<Node>, P: nat)
    requires AllOk(keys, nodes) && P <= |nodes|
    ensures QueueCost(keys, nodes[P..]) >= 0
  {
    AllOkSlice(keys, nodes, P, |nodes|);
    assert nodes[P..|nodes|] == nodes[P..];
    QueueCostAtLeast(keys, nodes[P..]);
  }
}
