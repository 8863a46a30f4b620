/**
 * `hsds::Trie`: a LOUDS trie over a set of byte strings. Each key is
 * spelled by the edges from the root down to a terminal node, except that a
 * range holding a single key with at least two bytes left ends in a tail
 * leaf that stores those bytes as a string.
 */
module Tries {
  import opened Outcomes
  import opened BitSeqs
  import opened TrieKeys
  import opened TrieRanges
  import opened TrieLayouts
  import opened TrieShapes
  import opened TrieOrders

  /** The breadth-first loop of `build`: ranges of the current depth are
      taken from `q`, their children go to `nextQ`, and the two swap when
      `q` runs dry. `keys` are already sorted and distinct. */
  method Layout(keys: seq<Key>) returns (dr: Draft, ghost pl: Plan)
    requires Sorted(keys)
    ensures keys == [] ==> dr == Draft([false, true], [], [], [], [])
    ensures keys != [] ==> Built(keys, dr, pl) && |dr.edges| <= TotalLength(keys)
  {
    var n := |keys|;
    var q: seq<RangeNode> := if n != 0 then [RangeNode(0, n)] else [];
    var nextQ: seq<RangeNode> := [];
    dr := Draft([false, true], [], [], [], []);
    pl := Plan([Node(0, n, 0)], [2], [0]);
    ghost var P := 0;
    if n > 0 {
      Seed(keys);
      SeedBudget(keys);
    }
    var depth := 0;
    while true
      invariant n == 0 ==> q == [] && nextQ == [] && dr == Draft([false, true], [], [], [], [])
      invariant n > 0 ==> Partial(keys, dr, pl, P) && Queued(pl.nodes, P, q, nextQ, depth)
      invariant n > 0 ==> P <= |dr.terminal| && Budget(keys, dr, pl, P)
      decreases if n > 0 && P <= |pl.nodes| then QueueCost(keys, pl.nodes[P..]) else 0
    {
      if q == [] {
        q, nextQ := nextQ, [];
        depth := depth + 1;
        if n > 0 {
          SwapQueue(pl.nodes, P, q, depth - 1);
        }
        if q == [] {
          break;
        }
      }
      Front(keys, dr, pl, P, q, nextQ, depth);
      var rn := q[0];
      var next, nextQ2 := Expand(keys, depth, rn, dr, nextQ);
      ghost var pl2 := Advance(keys, dr, pl, P, q, nextQ, depth, next);
      q := q[1..];
      dr, nextQ, pl, P := next, nextQ2, pl2, P + 1;
    }
    if n > 0 {
      assert pl.nodes[P..] == [];
    }
  }

  /** The work of `build`: the keys sorted and made distinct, and their
      layout, which is a sound trie state, ready exactly when a key was
      given. */
  method Arrange(keyList: seq<Key>) returns (keys: seq<Key>, dr: Draft, ghost pl: Plan)
    requires TotalLength(keyList) < 0x7FFF_FFFF
    ensures Sorted(keys) && (forall k :: k in keys <==> k in keyList)
    ensures Sound(dr, keys, pl, |keys|, keys != []) && (keys != [] <==> keyList != [])
  {
    keys := SortUnique(keyList);
    dr, pl := Layout(keys);
    if keyList != [] {
      assert keyList[0] in keys;
    }
    if keys != [] {
      Sizes(keys, dr, pl);
    }
  }

  /** The range at the front of `q` is node `P` of the plan. */
  lemma Front(keys: seq<Key>, dr: Draft, pl: Plan, P: nat, q: seq<RangeNode>, nextQ: seq<RangeNode>, depth: nat)
    requires Partial(keys, dr, pl, P) && Queued(pl.nodes, P, q, nextQ, depth) && q != []
    ensures P < |pl.nodes| && pl.nodes[P] == Node(q[0].left, q[0].right, depth)
    ensures Sorted(keys) && NodeOk(keys, pl.nodes[P])
  {
    assert Ranges(pl.nodes[P..])[0] == q[0];
    assert OkAt(keys, pl.nodes, P);
  }

  /** Processing the front range keeps every loop invariant and shrinks
      the work left. */
  lemma Advance(keys: seq<Key>, dr: Draft, pl: Plan, P: nat, q: seq<RangeNode>, nextQ: seq<RangeNode>,
                depth: nat, next: Draft) returns (pl2: Plan)
    requires Partial(keys, dr, pl, P) && Queued(pl.nodes, P, q, nextQ, depth) && q != []
    requires P <= |dr.terminal| && Budget(keys, dr, pl, P)
    requires Sorted(keys) && NodeOk(keys, Node(q[0].left, q[0].right, depth))
    requires Expanded(keys, Node(q[0].left, q[0].right, depth), dr, next)
    ensures Partial(keys, next, pl2, P + 1)
    ensures Queued(pl2.nodes, P + 1, q[1..], nextQ + Kids(keys, Node(q[0].left, q[0].right, depth)), depth)
    ensures P + 1 <= |next.terminal| && Budget(keys, next, pl2, P + 1)
    ensures 0 <= QueueCost(keys, pl2.nodes[P + 1..]) < QueueCost(keys, pl.nodes[P..])
  {
    Front(keys, dr, pl, P, q, nextQ, depth);
    var nd := pl.nodes[P];
    var kids := Kids(keys, nd);
    StepQueue(pl.nodes, P, q, nextQ, depth, kids, pl.nodes + Deepen(kids, nd.depth + 1));
    Step(keys, dr, pl, P, next);
    pl2 := NextPlan(keys, pl, P, next);
    StepBudget(keys, dr, pl, P, next, pl2);
  }

  /** `Trie::NOT_FOUND`: `~0` as a 64-bit id. */
  const NOT_FOUND: nat := 0xFFFF_FFFF_FFFF_FFFF

  /** The sentinel `traverse` returns when the walk cannot go on; one
      below `NOT_FOUND`, like `FAILED_TRAVERSE_AT_NODE`. */
  const CAN_NOT_TRAVERSE: nat := 0xFFFF_FFFF_FFFF_FFFE

  /** `Trie::DEFAULT_LIMIT_VALUE`. */
  const DEFAULT_LIMIT_VALUE: nat := 0xFFFF_FFFF_FFFF_FFFF

  /** `std::max(x, 2)`: `traverse` reads a cursor below `2` as the
      root's. */
  function AtLeastTwo(x: nat): (r: nat)
    ensures r >= 2 && r >= x && (x >= 2 ==> r == x)
  {
    if x < 2 then 2 else x
  }

  /** A hit of `commonPrefixSearch`: the key id and the key's length. */
  datatype Match = Match(id: nat, length: nat)

  /** The symbol `traverse` reads at `k`: a byte of the query, or the end
      of the query, which labels no edge. */
  function SymbolAt(q: Key, k: nat): (c: Option<Byte>)
    ensures c.Some? <==> k < |q|
    ensures k < |q| ==> c.value == q[k]
  {
    if k < |q| then Some(q[k]) else None
  }

  /** The state of a trie: when ready, the LOUDS layout of its keys;
      otherwise empty (`build` on no keys leaves only the two seed bits). */
  ghost predicate Sound(dr: Draft, keys: seq<Key>, pl: Plan, numOfKeys: nat, isReady: bool)
  {
    if isReady then
      Built(keys, dr, pl) && numOfKeys == |keys| && |dr.louds| < 0x1_0000_0000
    else
      numOfKeys == 0 && keys == [] && (dr.louds == [] || dr.louds == [false, true]) &&
      dr.terminal == [] && dr.tail == [] && dr.tails == [] && dr.edges == []
  }

  /** `enumerateAll(pos, zeros, retIDs, limit)` at node `v` of the layout
      `dr` of `keys`: appends the ids below `v` in the order of their keys,
      visiting a child only while fewer than `limit` ids are listed. `bits`
      and `term` are the trie's `louds` and `terminal`. */
  method EnumerateAll(bits: seq<bool>, term: seq<bool>, ghost keys: seq<Key>, ghost dr: Draft, ghost pl: Plan,
                      pos: nat, zeros: nat, ret: seq<nat>, limit: nat, ghost v: nat)
    returns (ret2: seq<nat>)
    requires Built(keys, dr, pl) && bits == dr.louds && term == dr.terminal
    requires v < |pl.nodes| && v < |pl.start| && pos == pl.start[v] && zeros == pl.start[v] - v && |ret| < limit
    ensures ret2 == ret + Take(Pre(keys, dr, pl, v), limit - |ret|)
    decreases |pl.nodes| - v, 1
  {
    ListStart(keys, dr, pl, v);
    var ones := pos - zeros;
    ret2 := ret;
    if term[ones] {
      ret2 := ret2 + [Rank(term, true, ones)];
    }
    ListWhole(keys, dr, pl, v, ret, limit, ret2);
    ret2 := EnumerateChildren(bits, term, keys, dr, pl, pos, zeros, ret2, limit, v,
                              ret + Take(Pre(keys, dr, pl, v), limit - |ret|));
  }

  /** The loop of `enumerateAll` over the children of node `v`: starting
      from `ret` with the listing `whole` of `v` in view, visits child after
      child while fewer than `limit` ids are listed, and ends with `whole`. */
  method EnumerateChildren(bits: seq<bool>, term: seq<bool>, ghost keys: seq<Key>, ghost dr: Draft, ghost pl: Plan,
                           pos: nat, zeros: nat, ret: seq<nat>, limit: nat, ghost v: nat, ghost whole: seq<nat>)
    returns (ret2: seq<nat>)
    requires Built(keys, dr, pl) && bits == dr.louds && term == dr.terminal
    requires v < |pl.nodes| && v + 1 < |pl.start| && pos == pl.start[v] && zeros == pl.start[v] - v
    requires 0 <= Fan(pl, v) && Listing(keys, dr, pl, v, whole, limit, ret, 0)
    ensures ret2 == whole
    decreases |pl.nodes| - v, 0
  {
    ScanAt(keys, dr, pl, v, 0);
    ret2 := ret;
    var i: nat := 0;
    while !bits[pos + i] && |ret2| < limit
      invariant i <= Fan(pl, v) && pos + i < |bits| && (bits[pos + i] <==> i == Fan(pl, v))
      invariant Listing(keys, dr, pl, v, whole, limit, ret2, i)
      decreases Fan(pl, v) - i
    {
      ScanAt(keys, dr, pl, v, i);
      ghost var child: nat := pl.start[v] - v - 1 + i;
      var nextPos := Select(bits, true, zeros + i - 1) + 1;
      ghost var before := ret2;
      ret2 := EnumerateAll(bits, term, keys, dr, pl, nextPos, nextPos - zeros - i + 1, ret2, limit, child);
      ListStep(keys, dr, pl, v, whole, limit, before, i, ret2);
      i := i + 1;
    }
    ListEnds(keys, dr, pl, v, whole, limit, ret2, i);
  }

  /** The byte loop of `predictiveSearch` at a tail leaf: the rest of the
      query from `i` on runs along the tail `t`. A query byte past the
      tail's end counts as a mismatch. */
  method RunsAlong(q: Key, i: nat, t: Key) returns (ok: bool)
    requires i <= |q|
    ensures ok <==> |q| - i <= |t| && t[..|q| - i] == q[i..]
  {
    for j := i to |q|
      invariant j - i <= |t| && q[i..j] == t[..j - i]
    {
      if j - i >= |t| || q[j] != t[j - i] {
        assert |q| - i <= |t| ==> t[..|q| - i][j - i] != q[i..][j - i];
        return false;
      }
      assert q[i..j + 1] == q[i..j] + [q[j]];
    }
    assert q[i..|q|] == q[i..];
    return true;
  }

  class Trie {
    var louds: seq<bool>
    var terminal: seq<bool>
    var tail: seq<bool>
    var tails: seq<Key>
    var edges: seq<Byte>
    var numOfKeys: nat
    var isReady: bool
    /** The sorted, distinct keys the trie was built from, and the layout
        `build` gave them. */
    ghost var keys: seq<Key>
    ghost var plan: Plan

    ghost function Shape(): Draft
      reads this
    {
      Draft(louds, terminal, tail, tails, edges)
    }

    /** A built trie holds the LOUDS layout of its keys; an unbuilt one is
        empty. */
    ghost predicate Valid()
      reads this
    {
      Sound(Shape(), keys, plan, numOfKeys, isReady)
    }

    constructor ()
      ensures Valid() && !isReady && numOfKeys == 0 && keys == []
      ensures louds == [] && terminal == [] && tail == [] && tails == [] && edges == []
    {
      louds, terminal, tail, tails, edges := [], [], [], [], [];
      numOfKeys, isReady := 0, false;
      keys, plan := [], Plan([], [], []);
    }

    /** Exchanges the whole state with `x`; swapping with itself changes
        nothing. */
    method Swap(x: Trie)
      modifies this, x
      ensures louds == old(x.louds) && terminal == old(x.terminal) && tail == old(x.tail)
      ensures tails == old(x.tails) && edges == old(x.edges)
      ensures numOfKeys == old(x.numOfKeys) && isReady == old(x.isReady)
      ensures keys == old(x.keys) && plan == old(x.plan)
      ensures x.louds == old(louds) && x.terminal == old(terminal) && x.tail == old(tail)
      ensures x.tails == old(tails) && x.edges == old(edges)
      ensures x.numOfKeys == old(numOfKeys) && x.isReady == old(isReady)
      ensures x.keys == old(keys) && x.plan == old(plan)
    {
      if x != this {
        louds, x.louds := x.louds, louds;
        terminal, x.terminal := x.terminal, terminal;
        tail, x.tail := x.tail, tail;
        tails, x.tails := x.tails, tails;
        edges, x.edges := x.edges, edges;
        numOfKeys, x.numOfKeys := x.numOfKeys, numOfKeys;
        isReady, x.isReady := x.isReady, isReady;
        keys, x.keys := x.keys, keys;
        plan, x.plan := x.plan, plan;
      }
    }

    /** `clear()`: swaps with a new, empty trie. */
    method Clear()
      modifies this
      ensures Valid() && !isReady && numOfKeys == 0 && keys == []
      ensures louds == [] && terminal == [] && tail == [] && tails == [] && edges == []
    {
      var tmp := new Trie();
      Swap(tmp);
    }

    /** `build(keyList)`: sorts `keyList` and removes duplicates (the
        rearranged list is returned as `sorted`), then lays the keys out
        breadth first. The trie is ready exactly when there was a key. */
    method Build(keyList: seq<Key>) returns (sorted: seq<Key>)
      requires TotalLength(keyList) < 0x7FFF_FFFF
      modifies this
      ensures Valid() && keys == sorted && Sorted(sorted)
      ensures forall k :: k in sorted <==> k in keyList
      ensures numOfKeys == |sorted| && (isReady <==> keyList != [])
    {
      Clear();
      var dr;
      sorted, dr, plan := Arrange(keyList);
      numOfKeys := |sorted|;
      louds, terminal, tail, tails, edges := dr.louds, dr.terminal, dr.tail, dr.tails, dr.edges;
      keys := sorted;
      if numOfKeys > 0 {
        isReady := true;
      }
      assert Shape() == dr;
    }

    /** `isLeaf(pos)`: the LOUDS bit at `pos` closes a child list. */
    method IsLeaf(pos: nat) returns (b: bool)
      requires Valid() && isReady && pos < |louds|
      ensures b == louds[pos]
      ensures forall v: nat | v + 1 < |plan.start| && pos == plan.start[v] :: b <==> Fan(plan, v) == 0
    {
      b := louds[pos];
      forall v: nat | v + 1 < |plan.start| && pos == plan.start[v]
        ensures b <==> Fan(plan, v) == 0
      {
        Sizes(keys, Shape(), plan);
        FanIs(keys, Shape(), plan, v);
        ScanStep(keys, Shape(), plan, v, None, 0);
      }
    }

    /** `getChild(c, pos, zeros)`: scans the child list of node `v` for the
        edge labelled `c` and moves the cursor to that child, or sets `pos`
        to `NOT_FOUND`. */
    method GetChild(c: Option<Byte>, pos: nat, zeros: nat, ghost v: nat) returns (pos2: nat, zeros2: nat, ghost z: nat)
      requires Valid() && isReady && v < |plan.nodes| && v < |plan.start|
      requires pos == plan.start[v] && zeros == plan.start[v] - v
      ensures pos2 == NOT_FOUND <==> Child(keys, Shape(), plan, v, c).None?
      ensures pos2 != NOT_FOUND ==> Child(keys, Shape(), plan, v, c) == Some(z) && z < |plan.nodes| &&
                                    pos2 == plan.start[z] && zeros2 == plan.start[z] - z
    {
      ghost var dr := Shape();
      FanIs(keys, dr, plan, v);
      pos2, zeros2, z := pos, zeros, 0;
      ghost var j := 0;
      while true
        invariant j <= Fan(plan, v) && pos2 == plan.start[v] + j && zeros2 == plan.start[v] - v + j
        invariant Child(keys, dr, plan, v, c) == ChildFrom(keys, dr, plan, v, c, j)
        decreases Fan(plan, v) - j
      {
        ScanStep(keys, dr, plan, v, c, j);
        if louds[pos2] {
          pos2 := NOT_FOUND;
          return;
        }
        if c == Some(edges[zeros2 - 2]) {
          z := zeros2 - 1;
          pos2 := Select(louds, true, zeros2 - 1) + 1;
          zeros2 := pos2 - zeros2 + 1;
          return;
        }
        pos2, zeros2, j := pos2 + 1, zeros2 + 1, j + 1;
      }
    }

    /** `getParent(c, pos, zeros)` from the cursor of node `w`: moves to
        `w`'s parent and yields the byte on the edge into `w`; from the
        root it yields `pos == 0` and leaves `c` alone. */
    method GetParent(c: Byte, pos: nat, zeros: nat, ghost w: nat) returns (c2: Byte, pos2: nat, zeros2: nat)
      requires Valid() && isReady && zeros <= pos && pos - zeros == w < |plan.nodes|
      ensures zeros2 == w + 1 && (pos2 == 0 <==> w == 0)
      ensures w == 0 ==> c2 == c
      ensures w >= 1 ==> |plan.parent| == |plan.nodes| && plan.parent[w] < w &&
                         pos2 - zeros2 == plan.parent[w] &&
                         Child(keys, Shape(), plan, plan.parent[w], Some(c2)) == Some(w)
    {
      ZeroSelect(keys, Shape(), plan, w);
      zeros2 := pos - zeros + 1;
      pos2 := Select(louds, false, zeros2 - 1);
      if zeros2 < 2 {
        return c, pos2, zeros2;
      }
      ChildOfParent(keys, Shape(), plan, w);
      c2 := edges[zeros2 - 2];
    }

    /** `getTail(i)`: the `i`-th stored tail. */
    method GetTail(i: nat) returns (t: Key)
      requires i < |tails|
      ensures t == tails[i]
    {
      t := tails[i];
    }

    /** `tailMatch`: tail `tailId` fits in the query from `depth` on and
        agrees with it there; on a match `retLen` is the tail's length. */
    method TailMatch(q: Key, depth: nat, tailId: nat) returns (ok: bool, retLen: nat)
      requires tailId < |tails| && depth <= |q|
      ensures ok <==> |tails[tailId]| <= |q| - depth && q[depth..depth + |tails[tailId]|] == tails[tailId]
      ensures retLen == if ok then |tails[tailId]| else 0
    {
      var t := GetTail(tailId);
      if |t| > |q| - depth {
        return false, 0;
      }
      for i := 0 to |t|
        invariant q[depth..depth + i] == t[..i]
      {
        if q[i + depth] != t[i] {
          assert q[depth..depth + |t|][i] != t[i];
          return false, 0;
        }
        assert q[depth..depth + i + 1] == q[depth..depth + i] + [q[i + depth]];
      }
      return true, |t|;
    }
  
    /** Node `v` is reached by reading `q[..keyPos]`. */
    ghost predicate On(q: Key, keyPos: nat, v: nat)
      reads this
    {
      v < |plan.nodes| && NodeOk(keys, plan.nodes[v]) &&
      keyPos == plan.nodes[v].depth && keyPos <= |q| && Spell(keys, plan, v) == q[..keyPos]
    }

    /** The cursor `(pos, zeros)` and `keyPos` stand at node `v`; a cursor
        below `2` reads as `2`, the root's, as in `traverse`. */
    ghost predicate At(q: Key, pos: nat, zeros: nat, keyPos: nat, v: nat)
      reads this
    {
      On(q, keyPos, v) && v < |plan.start| &&
      AtLeastTwo(pos) == plan.start[v] && AtLeastTwo(zeros) == plan.start[v] - v
    }

    /** Node `v` ends a key that is a prefix of `q`. */
    ghost predicate Reports(q: Key, v: nat)
      requires Valid() && isReady && v < |plan.nodes|
      reads this
    {
      TermFacts(keys, Shape(), plan, v);
      terminal[v] && IsPrefix(KeyOfNode(keys, plan, v), q)
    }

    /** What one call of `traverse` from node `v` at `keyPos` achieves:
        it reports the key `v` ends when that key is a prefix of `q`
        (moving `keyPos` past the key), says `CAN_NOT_TRAVERSE` when it
        neither reports nor moves, and otherwise follows `q[keyPos]` to the
        child `w`. No prefix key of `q` is skipped: one no longer than the
        new `keyPos`, or any at all when the walk stops, is `v`'s. */
    ghost predicate Stepped(q: Key, keyPos: nat, v: nat, id: nat, pos2: nat, zeros2: nat, keyPos2: nat, w: nat)
      requires Valid() && isReady && v < |plan.nodes|
      reads this
    {
      TermFacts(keys, Shape(), plan, v);
      (Reports(q, v) ==> id < numOfKeys && KeyOf(keys, Shape(), plan, id) == KeyOfNode(keys, plan, v) &&
                         keyPos2 == |KeyOfNode(keys, plan, v)| + 1) &&
      (!Reports(q, v) ==> keyPos2 == keyPos + 1 &&
                          id == if pos2 == NOT_FOUND then CAN_NOT_TRAVERSE else NOT_FOUND) &&
      (pos2 != NOT_FOUND ==> !tail[v] && Child(keys, Shape(), plan, v, SymbolAt(q, keyPos)) == Some(w) &&
                             At(q, pos2, zeros2, keyPos2, w)) &&
      (pos2 == NOT_FOUND ==> tail[v] || Child(keys, Shape(), plan, v, SymbolAt(q, keyPos)).None?) &&
      (forall i | 0 <= i < |keys| && IsPrefix(keys[i], q) && keyPos <= |keys[i]| &&
                  (|keys[i]| < keyPos2 || pos2 == NOT_FOUND) ::
         Reports(q, v) && keys[i] == KeyOfNode(keys, plan, v))
    }

    /** The first half of `traverse` at node `v`: a tail leaf is matched
        against the rest of `q`, and a key the node ends is reported when
        it is a prefix of `q`. */
    method Visit(q: Key, keyPos: nat, ones: nat, ghost v: nat) returns (id: nat, keyPos2: nat)
      requires Valid() && isReady && On(q, keyPos, v) && ones == v
      ensures Reports(q, v) ==> id < numOfKeys && KeyOf(keys, Shape(), plan, id) == KeyOfNode(keys, plan, v) &&
                                keyPos2 == |KeyOfNode(keys, plan, v)| <= |q|
      ensures !Reports(q, v) ==> id == NOT_FOUND && keyPos2 == keyPos
    {
      ghost var dr := Shape();
      TermFacts(keys, dr, plan, v);
      id, keyPos2 := NOT_FOUND, keyPos;
      if tail[ones] {
        TailFacts(keys, dr, plan, v);
        RestPrefix(keys[plan.nodes[v].left], q, keyPos);
        var ok, retLen := TailMatch(q, keyPos, Rank(tail, true, ones));
        if ok {
          keyPos2 := keyPos + retLen;
          id := Rank(terminal, true, ones);
        }
      } else if terminal[ones] {
        EndsAt(keys, dr, plan, v, q);
        id := Rank(terminal, true, ones);
      }
    }

    /** `traverse(str, len, nodePos, zeros, keyPos)`: one step of a walk
        down the trie along `q`. */
    method Traverse(q: Key, pos: nat, zeros: nat, keyPos: nat, ghost v: nat)
      returns (id: nat, pos2: nat, zeros2: nat, keyPos2: nat, ghost w: nat)
      requires Valid()
      requires isReady && pos != NOT_FOUND ==> At(q, pos, zeros, keyPos, v)
      ensures !isReady || pos == NOT_FOUND ==>
                id == CAN_NOT_TRAVERSE && pos2 == pos && zeros2 == zeros && keyPos2 == keyPos
      ensures isReady && pos != NOT_FOUND ==> Stepped(q, keyPos, v, id, pos2, zeros2, keyPos2, w)
    {
      if !isReady || pos == NOT_FOUND {
        return CAN_NOT_TRAVERSE, pos, zeros, keyPos, v;
      }
      var p := AtLeastTwo(pos);
      var z := AtLeastTwo(zeros);
      id, keyPos2 := Visit(q, keyPos, p - z, v);
      var c := SymbolAt(q, keyPos2);
      pos2, zeros2, w := GetChild(c, p, z, v);
      keyPos2 := keyPos2 + 1;
      if id == NOT_FOUND && pos2 == NOT_FOUND {
        id := CAN_NOT_TRAVERSE;
      }
      StepEnds(q, keyPos, v, keyPos2 - 1, pos2, zeros2, w);
    }

    /** Where the child lookup of `traverse` leaves the walk: at the child
        for `q[keyPos]`, or stopped with no prefix key of `q` beyond `v`'s
        own. */
    lemma StepEnds(q: Key, keyPos: nat, v: nat, keyPos1: nat, pos2: nat, zeros2: nat, w: nat)
      requires Valid() && isReady && On(q, keyPos, v)
      requires Reports(q, v) ==> keyPos1 == |KeyOfNode(keys, plan, v)| <= |q|
      requires !Reports(q, v) ==> keyPos1 == keyPos
      requires pos2 == NOT_FOUND <==> Child(keys, Shape(), plan, v, SymbolAt(q, keyPos1)).None?
      requires pos2 != NOT_FOUND ==> Child(keys, Shape(), plan, v, SymbolAt(q, keyPos1)) == Some(w) &&
                                     w < |plan.nodes| && pos2 == plan.start[w] && zeros2 == plan.start[w] - w
      ensures v < |tail|
      ensures pos2 != NOT_FOUND ==> !tail[v] && Child(keys, Shape(), plan, v, SymbolAt(q, keyPos)) == Some(w) &&
                                    At(q, pos2, zeros2, keyPos1 + 1, w)
      ensures pos2 == NOT_FOUND ==> tail[v] || Child(keys, Shape(), plan, v, SymbolAt(q, keyPos)).None?
      ensures forall i | 0 <= i < |keys| && IsPrefix(keys[i], q) && keyPos <= |keys[i]| &&
                         (|keys[i]| < keyPos1 + 1 || pos2 == NOT_FOUND) ::
                Reports(q, v) && keys[i] == KeyOfNode(keys, plan, v)
    {
      ghost var dr := Shape();
      TermFacts(keys, dr, plan, v);
      if !tail[v] && Reports(q, v) {
        EndsAt(keys, dr, plan, v, q);
      }
      if pos2 != NOT_FOUND {
        ChildFound(keys, dr, plan, v, SymbolAt(q, keyPos1));
        ChildEnd(keys, dr, plan, w);
        assert q[..keyPos + 1] == q[..keyPos] + [q[keyPos]];
      }
      forall i | 0 <= i < |keys| && IsPrefix(keys[i], q) && keyPos <= |keys[i]|
        ensures (|keys[i]| < keyPos1 + 1 || pos2 == NOT_FOUND) ==>
                  Reports(q, v) && keys[i] == KeyOfNode(keys, plan, v)
      {
        PrefixAt(keys, dr, plan, v, q, i);
      }
    }
  
    /** The walk along `q` meets the key `q`, if there is one, no later
        than the step that stops or reads past the end of `q`, and a key
        it reports there is `q` itself. */
    lemma Meets(q: Key, keyPos: nat, v: nat, id: nat, pos2: nat, zeros2: nat, keyPos2: nat, w: nat)
      requires Valid() && isReady && On(q, keyPos, v) && Stepped(q, keyPos, v, id, pos2, zeros2, keyPos2, w)
      ensures keyPos2 <= |q| + 1
      ensures Reports(q, v) ==> KeyOfNode(keys, plan, v) in keys
      ensures Reports(q, v) && keyPos2 == |q| + 1 ==> KeyOfNode(keys, plan, v) == q
      ensures q in keys && (pos2 == NOT_FOUND || keyPos2 == |q| + 1) ==>
                Reports(q, v) && KeyOfNode(keys, plan, v) == q
      ensures keyPos2 == |q| + 1 ==> exists k | k in keys :: IsPrefix(q, k)
      ensures keyPos2 > keyPos
    {
      var l := plan.nodes[v].left;
      assert keys[l] in keys;
      if keyPos == |q| {
        assert q == keys[l][..keyPos];
        assert IsPrefix(q, keys[l]);
      }
      if Reports(q, v) {
        var key := KeyOfNode(keys, plan, v);
        assert key == keys[plan.nodes[v].left];
        if keyPos2 == |q| + 1 {
          assert q[..|key|] == q;
        }
      }
      if q in keys && (pos2 == NOT_FOUND || keyPos2 == |q| + 1) {
        var i :| 0 <= i < |keys| && keys[i] == q;
        assert q[..|q|] == q;
        assert IsPrefix(keys[i], q);
      }
    }

    /** `exactMatchSearch(str, len)` with the walk stopped once `traverse`
        says `CAN_NOT_TRAVERSE`: the id of `q` when `q` is a key,
        `NOT_FOUND` otherwise. */
    method ExactMatchSearch(q: Key) returns (id: nat)
      requires Valid()
      ensures id != NOT_FOUND <==> q in keys
      ensures id != NOT_FOUND ==> isReady && id < numOfKeys && KeyOf(keys, Shape(), plan, id) == q
    {
      var pos: nat, zeros: nat, keyPos: nat := 0, 0, 0;
      ghost var v: nat := 0;
      if isReady {
        Sizes(keys, Shape(), plan);
        assert q[..0] == Spell(keys, plan, 0);
      }
      while keyPos <= |q|
        invariant keyPos <= |q|
        invariant isReady && pos != NOT_FOUND ==> At(q, pos, zeros, keyPos, v)
        invariant !isReady || pos == NOT_FOUND ==> q !in keys
        decreases |q| + 1 - keyPos + (if pos == NOT_FOUND then 0 else 1)
      {
        var id2, pos2, zeros2, keyPos2, w := Traverse(q, pos, zeros, keyPos, v);
        if isReady && pos != NOT_FOUND {
          Meets(q, keyPos, v, id2, pos2, zeros2, keyPos2, w);
        }
        if id2 == CAN_NOT_TRAVERSE {
          return NOT_FOUND;
        }
        if keyPos2 == |q| + 1 {
          return id2;
        }
        pos, zeros, keyPos, v := pos2, zeros2, keyPos2, w;
      }
      return NOT_FOUND;
    }
  
    /** `exactMatchSearch(str, len)` as written, run for at most `fuel`
        rounds of its loop: `None` when it is still looping. An answer it
        gives is right, and it finds every key, but a query that is no
        prefix of any key (the key itself included) leaves it looping for
        ever, since `traverse` keeps answering `CAN_NOT_TRAVERSE` without
        moving `keyPos`; so does any query on a trie that is not ready. */
    method ExactMatchSearchAsWritten(q: Key, fuel: nat) returns (r: Option<nat>)
      requires Valid()
      ensures r.Some? ==> (r.value != NOT_FOUND <==> q in keys)
      ensures r.Some? && r.value != NOT_FOUND ==>
                isReady && r.value < numOfKeys && KeyOf(keys, Shape(), plan, r.value) == q
      ensures isReady && q in keys && fuel > |q| ==> r.Some?
      ensures !isReady ==> r == None
      ensures (forall k | k in keys :: !IsPrefix(q, k)) ==> r == None
    {
      var pos: nat, zeros: nat, keyPos: nat := 0, 0, 0;
      ghost var v: nat := 0;
      if isReady {
        Sizes(keys, Shape(), plan);
        assert q[..0] == Spell(keys, plan, 0);
      }
      var n := 0;
      while keyPos <= |q| && n < fuel
        invariant n <= fuel && keyPos <= |q| + 1
        invariant isReady && pos != NOT_FOUND ==> At(q, pos, zeros, keyPos, v)
        invariant isReady && q in keys ==> pos != NOT_FOUND && keyPos >= n
        invariant keyPos == |q| + 1 ==> q !in keys && isReady && exists k | k in keys :: IsPrefix(q, k)
        decreases fuel - n
      {
        var id, pos2, zeros2, keyPos2, w := Traverse(q, pos, zeros, keyPos, v);
        if isReady && pos != NOT_FOUND {
          Meets(q, keyPos, v, id, pos2, zeros2, keyPos2, w);
        }
        pos, zeros, keyPos, v := pos2, zeros2, keyPos2, w;
        if keyPos == |q| + 1 && id != CAN_NOT_TRAVERSE {
          return Some(id);
        }
        n := n + 1;
      }
      if keyPos <= |q| {
        return None;
      }
      return Some(NOT_FOUND);
    }
  
    /** `decodeKey(id, ret)`: climbs from the id's terminal node to the
        root collecting edge bytes, reverses them and adds the node's tail.
        An id past the last key makes `select1` throw. */
    method DecodeKey(id: nat) returns (r: Result<Key>)
      requires Valid()
      ensures !isReady ==> r == Success([])
      ensures isReady && id >= numOfKeys ==> r == Failure
      ensures isReady && id < numOfKeys ==> r == Success(KeyOf(keys, Shape(), plan, id))
    {
      if !isReady {
        return Success([]);
      }
      ghost var dr := Shape();
      Sizes(keys, dr, plan);
      if id >= numOfKeys {
        return Failure;
      }
      var node := Select(terminal, true, id);
      var ret := Climb(node);
      DecodeParts(keys, dr, plan, node);
      if tail[node] {
        var t := GetTail(Rank(tail, true, node));
        ret := ret + t;
      }
      return Success(ret);
    }

    /** The `getParent` loop of `decodeKey`: the bytes on the path from
        the root down to `node`. */
    method Climb(node: nat) returns (s: Key)
      requires Valid() && isReady && node < |plan.nodes|
      ensures NodeOk(keys, plan.nodes[node]) && s == Spell(keys, plan, node)
    {
      ghost var dr := Shape();
      OneSelect(keys, dr, plan, node);
      ChildEnd(keys, dr, plan, node);
      NodeOkAt(keys, dr, plan, node);
      Sizes(keys, dr, plan);
      var pos: nat := Select(louds, true, node) + 1;
      var zeros: nat := pos - node;
      var ret: Key := [];
      ghost var w: nat := node;
      while true
        invariant w < |plan.nodes| && zeros <= pos && pos - zeros == w
        invariant NodeOk(keys, plan.nodes[w]) && Spell(keys, plan, w) + Reverse(ret) == Spell(keys, plan, node)
        decreases w
      {
        var c, pos2, zeros2 := GetParent(0, pos, zeros, w);
        if pos2 == 0 {
          break;
        }
        ChildFound(keys, dr, plan, plan.parent[w], Some(c));
        ReverseAppend(ret, c);
        ret := ret + [c];
        pos, zeros, w := pos2, zeros2, plan.parent[w];
      }
      s := Reverse(ret);
    }
  
    /** Every match names a key that is a prefix of `q` of the given
        length, and the lengths increase. */
    ghost predicate Listed(q: Key, results: seq<Match>)
      requires Valid()
      reads this
    {
      (forall k | 0 <= k < |results| ::
         isReady && results[k].id < numOfKeys && results[k].length <= |q| &&
         KeyOf(keys, Shape(), plan, results[k].id) == q[..results[k].length]) &&
      (forall a, b | 0 <= a < b < |results| :: results[a].length < results[b].length)
    }

    /** Every key that is a prefix of `q` shorter than `bound` has a match. */
    ghost predicate Found(q: Key, results: seq<Match>, bound: nat)
      reads this
    {
      forall i | 0 <= i < |keys| && IsPrefix(keys[i], q) && |keys[i]| < bound ::
        exists k | 0 <= k < |results| :: results[k].length == |keys[i]|
    }

    /** A match for what a step of the walk reports keeps the matches
        listed. */
    lemma ListMore(q: Key, results: seq<Match>, keyPos: nat, v: nat,
                   id: nat, pos2: nat, zeros2: nat, keyPos2: nat, w: nat)
      requires Valid() && isReady && On(q, keyPos, v) && Stepped(q, keyPos, v, id, pos2, zeros2, keyPos2, w)
      requires id != CAN_NOT_TRAVERSE && id != NOT_FOUND && Listed(q, results)
      requires forall k | 0 <= k < |results| :: results[k].length < keyPos
      ensures Listed(q, results + [Match(id, keyPos2 - 1)])
      ensures var more := results + [Match(id, keyPos2 - 1)];
              forall k | 0 <= k < |more| :: more[k].length < keyPos2
    {
      var key := KeyOfNode(keys, plan, v);
      assert q[..|key|] == key;
    }

    /** After a step that does not stop the walk, every prefix key of `q`
        shorter than the new `keyPos`, or any at all if the walk has
        stopped, has a match. */
    lemma FindMore(q: Key, results: seq<Match>, keyPos: nat, v: nat,
                   id: nat, pos2: nat, zeros2: nat, keyPos2: nat, w: nat)
      requires Valid() && isReady && On(q, keyPos, v) && Stepped(q, keyPos, v, id, pos2, zeros2, keyPos2, w)
      requires id != CAN_NOT_TRAVERSE && Found(q, results, keyPos)
      ensures Found(q, if id != NOT_FOUND then results + [Match(id, keyPos2 - 1)] else results,
                    if pos2 == NOT_FOUND then |q| + 1 else keyPos2)
    {
      var more := if id != NOT_FOUND then results + [Match(id, keyPos2 - 1)] else results;
      var bound := if pos2 == NOT_FOUND then |q| + 1 else keyPos2;
      forall i | 0 <= i < |keys| && IsPrefix(keys[i], q) && |keys[i]| < bound
        ensures exists k | 0 <= k < |more| :: more[k].length == |keys[i]|
      {
        if |keys[i]| < keyPos {
          var k :| 0 <= k < |results| && results[k].length == |keys[i]|;
          assert more[k] == results[k];
        } else {
          assert more[|results|].length == |keys[i]|;
        }
      }
    }

    /** When a step says `CAN_NOT_TRAVERSE`, no prefix key of `q` was left
        to find. */
    lemma Stuck(q: Key, results: seq<Match>, keyPos: nat, v: nat,
                id: nat, pos2: nat, zeros2: nat, keyPos2: nat, w: nat)
      requires Valid() && isReady && On(q, keyPos, v) && Stepped(q, keyPos, v, id, pos2, zeros2, keyPos2, w)
      requires id == CAN_NOT_TRAVERSE && Found(q, results, keyPos)
      ensures Found(q, results, |q| + 1)
    {
      forall i | 0 <= i < |keys| && IsPrefix(keys[i], q) && |keys[i]| < |q| + 1
        ensures exists k | 0 <= k < |results| :: results[k].length == |keys[i]|
      {
        if keyPos <= |keys[i]| {
          assert false;
        }
      }
    }

    /** The state of the `commonPrefixSearch` loop: the cursor on `q`'s
        path, fewer than `limit` matches, all listed, and every prefix key
        already passed found. */
    ghost predicate Walking(q: Key, limit: nat, results: seq<Match>, pos: nat, zeros: nat, keyPos: nat, v: nat)
      reads this
    {
      Valid() && (isReady && pos != NOT_FOUND ==> At(q, pos, zeros, keyPos, v)) &&
      (limit > 0 ==> |results| < limit) && Listed(q, results) &&
      Found(q, results, if pos == NOT_FOUND then |q| + 1 else keyPos) &&
      (pos != NOT_FOUND ==> forall k | 0 <= k < |results| :: results[k].length < keyPos)
    }

    /** How far `q` has been searched when the walk ends: all of it,
        unless `limit` matches stopped the walk at the last one. */
    function Reach(q: Key, limit: nat, results: seq<Match>): (bound: nat)
      ensures limit == 0 || |results| < limit ==> bound == |q| + 1
      ensures limit > 0 && |results| >= limit ==> bound == results[|results| - 1].length + 1
    {
      if limit == 0 || |results| < limit then |q| + 1
      else results[|results| - 1].length + 1
    }

    /** What `commonPrefixSearch` promises once its walk has ended. */
    ghost predicate Reported(q: Key, limit: nat, results: seq<Match>)
      requires Valid()
      reads this
    {
      (limit > 0 ==> |results| <= limit) && Listed(q, results) && Found(q, results, Reach(q, limit, results))
    }

    /** A round of the `commonPrefixSearch` loop that does not stop the
        walk: the match it reports, if any, is added and the loop state
        holds at the new cursor, which has moved on. */
    lemma WalkOn(q: Key, limit: nat, results: seq<Match>, pos: nat, zeros: nat, keyPos: nat, v: nat,
                 id: nat, pos2: nat, zeros2: nat, keyPos2: nat, w: nat)
      requires Walking(q, limit, results, pos, zeros, keyPos, v) && isReady && pos != NOT_FOUND
      requires Stepped(q, keyPos, v, id, pos2, zeros2, keyPos2, w) && id != CAN_NOT_TRAVERSE
      requires id != NOT_FOUND ==> |results| + 1 != limit
      ensures keyPos <= |q| && (pos2 == NOT_FOUND || keyPos < keyPos2 <= |q|)
      ensures Walking(q, limit, if id != NOT_FOUND then results + [Match(id, keyPos2 - 1)] else results,
                      pos2, zeros2, keyPos2, w)
    {
      FindMore(q, results, keyPos, v, id, pos2, zeros2, keyPos2, w);
      if id != NOT_FOUND {
        ListMore(q, results, keyPos, v, id, pos2, zeros2, keyPos2, w);
      }
      Meets(q, keyPos, v, id, pos2, zeros2, keyPos2, w);
    }

    /** A round of the `commonPrefixSearch` loop whose match is the
        `limit`-th ends the walk with everything up to that match found. */
    lemma WalkFull(q: Key, limit: nat, results: seq<Match>, pos: nat, zeros: nat, keyPos: nat, v: nat,
                   id: nat, pos2: nat, zeros2: nat, keyPos2: nat, w: nat)
      requires Walking(q, limit, results, pos, zeros, keyPos, v) && isReady && pos != NOT_FOUND
      requires Stepped(q, keyPos, v, id, pos2, zeros2, keyPos2, w) && id != CAN_NOT_TRAVERSE
      requires id != NOT_FOUND && |results| + 1 == limit
      ensures Reported(q, limit, results + [Match(id, keyPos2 - 1)])
    {
      FindMore(q, results, keyPos, v, id, pos2, zeros2, keyPos2, w);
      ListMore(q, results, keyPos, v, id, pos2, zeros2, keyPos2, w);
      Meets(q, keyPos, v, id, pos2, zeros2, keyPos2, w);
    }

    /** A round of the `commonPrefixSearch` loop that stops the walk
        leaves every prefix key of `q` found. */
    lemma WalkEnds(q: Key, limit: nat, results: seq<Match>, pos: nat, zeros: nat, keyPos: nat, v: nat,
                   id: nat, pos2: nat, zeros2: nat, keyPos2: nat, w: nat)
      requires Walking(q, limit, results, pos, zeros, keyPos, v) && id == CAN_NOT_TRAVERSE
      requires isReady && pos != NOT_FOUND ==> Stepped(q, keyPos, v, id, pos2, zeros2, keyPos2, w)
      ensures Reported(q, limit, results)
    {
      if isReady && pos != NOT_FOUND {
        Stuck(q, results, keyPos, v, id, pos2, zeros2, keyPos2, w);
      }
    }

    /** `commonPrefixSearch(str, len, results, limit)`: the keys that are
        prefixes of `q`, shortest first, each with its id and length; the
        search stops once `limit` of them are found, and a `limit` of `0`
        never stops it. */
    method CommonPrefixMatches(q: Key, limit: nat) returns (results: seq<Match>)
      requires Valid()
      ensures limit > 0 ==> |results| <= limit
      ensures Listed(q, results)
      ensures Found(q, results, Reach(q, limit, results))
    {
      results := [];
      var pos: nat, zeros: nat, keyPos: nat := 0, 0, 0;
      ghost var v: nat := 0;
      if isReady {
        Sizes(keys, Shape(), plan);
        assert q[..0] == Spell(keys, plan, 0);
      }
      while true
        invariant Walking(q, limit, results, pos, zeros, keyPos, v)
        decreases if pos == NOT_FOUND then 0 else |q| + 2 - keyPos
      {
        var id, pos2, zeros2, keyPos2, w := Traverse(q, pos, zeros, keyPos, v);
        if id == CAN_NOT_TRAVERSE {
          WalkEnds(q, limit, results, pos, zeros, keyPos, v, id, pos2, zeros2, keyPos2, w);
          break;
        }
        if id != NOT_FOUND && |results| + 1 == limit {
          WalkFull(q, limit, results, pos, zeros, keyPos, v, id, pos2, zeros2, keyPos2, w);
          results := results + [Match(id, keyPos2 - 1)];
          break;
        }
        WalkOn(q, limit, results, pos, zeros, keyPos, v, id, pos2, zeros2, keyPos2, w);
        if id != NOT_FOUND {
          results := results + [Match(id, keyPos2 - 1)];
        }
        pos, zeros, keyPos, v := pos2, zeros2, keyPos2, w;
      }
    }

    /** `commonPrefixSearch(str, len, retIDs, limit)`: the ids of the
        matches the other overload finds; both run the same walk. */
    method CommonPrefixSearch(q: Key, limit: nat) returns (ids: seq<nat>, ghost results: seq<Match>)
      requires Valid()
      ensures limit > 0 ==> |results| <= limit
      ensures Listed(q, results) && Found(q, results, Reach(q, limit, results))
      ensures |ids| == |results| && forall k | 0 <= k < |ids| :: ids[k] == results[k].id
      ensures limit > 0 ==> |ids| <= limit
      ensures forall k | 0 <= k < |ids| ::
                isReady && ids[k] < numOfKeys && IsPrefix(KeyOf(keys, Shape(), plan, ids[k]), q)
    {
      var found := CommonPrefixMatches(q, limit);
      results := found;
      ids := seq(|found|, k requires 0 <= k < |found| => found[k].id);
    }

    /** The tail-leaf branch of `predictiveSearch`: at tail leaf `v`,
        reached along the first `i` bytes of `q`, the answer is `v`'s key
        when the rest of `q` runs along the leaf's tail, and nothing
        otherwise. */
    method PredictAtTail(q: Key, i: nat, v: nat, limit: nat) returns (ret: seq<nat>)
      requires Valid() && isReady && limit > 0 && On(q, i, v) && v < |tail| && tail[v]
      ensures Below(ret, numOfKeys) && Names(keys, Shape(), plan, ret) == Take(WithPrefix(keys, q), limit)
    {
      ghost var ks, pl, dr := keys, plan, Shape();
      PredictTail(ks, dr, pl, v, q);
      var id, tailId := Rank(terminal, true, v), Rank(tail, true, v);
      var t := GetTail(tailId);
      var along := RunsAlong(q, i, t);
      ret := if along then [id] else [];
      assert i == pl.nodes[v].depth && t == dr.tails[tailId] && id == Rank(dr.terminal, true, v);
      TailAnswer(ks, dr, pl, v, q, limit, along, ret);
      assert keys == ks && plan == pl && Shape() == dr;
    }

    /** `predictiveSearch(str, len, retIDs, limit)`: the ids of the first
        `limit` keys, in key order, that begin with `q`. Walking down `q`
        stops early at a tail leaf, which answers with its own key when the
        rest of `q` runs along its tail, and at a missing edge, which
        answers with nothing. */
    method PredictiveSearch(q: Key, limit: nat) returns (ret: seq<nat>)
      requires Valid()
      ensures !isReady || limit == 0 ==> ret == []
      ensures isReady ==> Below(ret, numOfKeys) &&
                          Names(keys, Shape(), plan, ret) == Take(WithPrefix(keys, q), limit)
    {
      ret := [];
      if !isReady || limit == 0 {
        return;
      }
      ghost var ks, pl, dr := keys, plan, Shape();
      Sizes(ks, dr, pl);
      var pos: nat, zeros: nat := 2, 2;
      ghost var v: nat := 0;
      assert q[..0] == Spell(ks, pl, 0);
      for i := 0 to |q|
        invariant keys == ks && plan == pl && Shape() == dr
        invariant On(q, i, v) && v < |pl.start| && pos == pl.start[v] && zeros == pl.start[v] - v
      {
        var ones := pos - zeros;
        if tail[ones] {
          ret := PredictAtTail(q, i, ones, limit);
          return;
        }
        var pos2, zeros2, z := GetChild(Some(q[i]), pos, zeros, v);
        if pos2 == NOT_FOUND {
          NoKeys(ks, dr, pl, v, q);
          assert Names(ks, dr, pl, ret) == Take(WithPrefix(ks, q), limit);
          assert keys == ks && plan == pl && Shape() == dr && numOfKeys == |ks|;
          return;
        }
        ChildFound(ks, dr, pl, v, Some(q[i]));
        assert q[..i + 1] == q[..i] + [q[i]];
        pos, zeros, v := pos2, zeros2, z;
      }
      assert q[..|q|] == q;
      ret := EnumerateAll(louds, terminal, ks, dr, pl, pos, zeros, [], limit, v);
      assert keys == ks && plan == pl && Shape() == dr && numOfKeys == |ks|;
      ghost var listed := Take(Pre(ks, dr, pl, v), limit);
      assert ret == [] + listed;
      assert ret == listed;
      PredictAll(ks, dr, pl, v, q, limit);
    }
  }
}
