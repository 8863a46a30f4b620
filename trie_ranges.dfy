/**
 * The key ranges `Trie::build` works on. A range `[left, right)` of the
 * sorted key list at depth `d` stands for one trie node: its keys share
 * their first `d` bytes. Its children are the maximal runs of keys that
 * also agree on byte `d`, which the edge loop of `build` discovers from
 * left to right.
 */
module TrieRanges {
  import opened TrieKeys

  /** `RangeNode`: the queue entry of `build`. */
  datatype RangeNode = RangeNode(left: nat, right: nat)

  /** A range together with the depth at which `build` processes it. */
  datatype Node = Node(left: nat, right: nat, depth: nat)

  /** A non-empty range whose keys all share their first `depth` bytes. */
  ghost predicate NodeOk(keys: seq<Key>, nd: Node)
  {
    nd.left < nd.right <= |keys| && nd.depth <= |keys[nd.left]| &&
    forall i | nd.left <= i < nd.right ::
      nd.depth <= |keys[i]| && keys[i][..nd.depth] == keys[nd.left][..nd.depth]
  }

  /** Every key of `[lo, hi)` has a byte at position `d`. */
  ghost predicate LongerThan(keys: seq<Key>, lo: nat, hi: nat, d: nat)
    requires hi <= |keys|
  {
    forall i | lo <= i < hi :: d < |keys[i]|
  }

  /** Every key of `[lo, hi)` starts with the same `d` bytes as key `lo`. */
  ghost predicate SharePrefix(keys: seq<Key>, lo: nat, hi: nat, d: nat)
    requires lo < hi <= |keys|
  {
    d <= |keys[lo]| &&
    forall i | lo <= i < hi :: d <= |keys[i]| && keys[i][..d] == keys[lo][..d]
  }

  /** The tail-candidate test of `build`: one key that goes on for at least
      two more bytes. */
  predicate TailCase(keys: seq<Key>, nd: Node)
    requires nd.left < |keys|
  {
    nd.left + 1 == nd.right && nd.depth + 1 < |keys[nd.left]|
  }

  /** The first key of the range ends at this node: `depth == cur.size()`. */
  predicate EndsHere(keys: seq<Key>, nd: Node)
    requires nd.left < |keys|
  {
    |keys[nd.left]| == nd.depth
  }

  /** `newLeft`: the first key that continues below the node. */
  function NewLeft(keys: seq<Key>, nd: Node): nat
    requires nd.left < |keys|
  {
    if EndsHere(keys, nd) then nd.left + 1 else nd.left
  }

  // ------------------------------------------------------------ runs

  /** The end of the run of keys starting at `lo` that agree with key `lo`
      on byte `d`, scanning from `i`. */
  function RunEndFrom(keys: seq<Key>, lo: nat, i: nat, hi: nat, d: nat): (e: nat)
    requires lo < i <= hi <= |keys| && LongerThan(keys, lo, hi, d)
    requires forall j | lo <= j < i :: keys[j][d] == keys[lo][d]
    ensures i <= e <= hi
    ensures forall j | lo <= j < e :: keys[j][d] == keys[lo][d]
    ensures e < hi ==> keys[e][d] != keys[lo][d]
    decreases hi - i
  {
    if i == hi || keys[i][d] != keys[lo][d] then i else RunEndFrom(keys, lo, i + 1, hi, d)
  }

  function RunEnd(keys: seq<Key>, lo: nat, hi: nat, d: nat): (e: nat)
    requires lo < hi <= |keys| && LongerThan(keys, lo, hi, d)
    ensures lo < e <= hi
    ensures forall j | lo <= j < e :: keys[j][d] == keys[lo][d]
    ensures e < hi ==> keys[e][d] != keys[lo][d]
  {
    RunEndFrom(keys, lo, lo + 1, hi, d)
  }

  /** Any index that closes the run starting at `lo` is its end. */
  lemma RunEndIs(keys: seq<Key>, lo: nat, i: nat, hi: nat, d: nat)
    requires lo < i <= hi <= |keys| && LongerThan(keys, lo, hi, d)
    requires forall j | lo <= j < i :: keys[j][d] == keys[lo][d]
    requires i < hi ==> keys[i][d] != keys[lo][d]
    ensures RunEnd(keys, lo, hi, d) == i
  {
  }

  /** The maximal runs of `[lo, hi)` whose keys agree on byte `d`, in
      order: the children `build` pushes for a node at depth `d`. */
  function Runs(keys: seq<Key>, lo: nat, hi: nat, d: nat): (rs: seq<RangeNode>)
    requires lo <= hi <= |keys| && LongerThan(keys, lo, hi, d)
    decreases hi - lo
  {
    if lo == hi then []
    else
      var e := RunEnd(keys, lo, hi, d);
      [RangeNode(lo, e)] + Runs(keys, e, hi, d)
  }

  /** The runs tile `[lo, hi)`: consecutive, non-empty, each of one byte,
      neighbours of different bytes. */
  ghost predicate Tiles(keys: seq<Key>, lo: nat, hi: nat, d: nat, rs: seq<RangeNode>)
    requires hi <= |keys| && LongerThan(keys, lo, hi, d)
  {
    (rs == [] <==> lo == hi) &&
    (rs != [] ==> rs[0].left == lo && rs[|rs| - 1].right == hi) &&
    (forall j | 0 <= j < |rs| ::
      lo <= rs[j].left < rs[j].right <= hi &&
      forall i | rs[j].left <= i < rs[j].right :: keys[i][d] == keys[rs[j].left][d]) &&
    (forall j | 0 <= j < |rs| - 1 ::
      rs[j].right == rs[j + 1].left && keys[rs[j + 1].left][d] != keys[rs[j].left][d])
  }

  lemma RunsTile(keys: seq<Key>, lo: nat, hi: nat, d: nat)
    requires lo <= hi <= |keys| && LongerThan(keys, lo, hi, d)
    ensures Tiles(keys, lo, hi, d, Runs(keys, lo, hi, d))
    ensures |Runs(keys, lo, hi, d)| <= hi - lo
  {
    RunsEnds(keys, lo, hi, d);
    RunsEach(keys, lo, hi, d);
    RunsMeet(keys, lo, hi, d);
  }

  /** The runs start at `lo`, end at `hi`, and there are at most as many
      as keys. */
  lemma {:induction false} RunsEnds(keys: seq<Key>, lo: nat, hi: nat, d: nat)
    requires lo <= hi <= |keys| && LongerThan(keys, lo, hi, d)
    ensures var rs := Runs(keys, lo, hi, d);
            (rs == [] <==> lo == hi) && (rs != [] ==> rs[0].left == lo && rs[|rs| - 1].right == hi) &&
            |rs| <= hi - lo
    decreases hi - lo
  {
    if lo < hi {
      var e := RunEnd(keys, lo, hi, d);
      RunsEnds(keys, e, hi, d);
    }
  }

  /** Each run is a non-empty part of `[lo, hi)` whose keys share byte `d`. */
  ghost predicate EachRun(keys: seq<Key>, lo: nat, hi: nat, d: nat, rs: seq<RangeNode>)
    requires hi <= |keys| && LongerThan(keys, lo, hi, d)
  {
    forall j | 0 <= j < |rs| ::
      lo <= rs[j].left < rs[j].right <= hi &&
      forall i | rs[j].left <= i < rs[j].right :: keys[i][d] == keys[rs[j].left][d]
  }

  lemma {:induction false} RunsEach(keys: seq<Key>, lo: nat, hi: nat, d: nat)
    requires lo <= hi <= |keys| && LongerThan(keys, lo, hi, d)
    ensures EachRun(keys, lo, hi, d, Runs(keys, lo, hi, d))
    decreases hi - lo
  {
    if lo < hi {
      var e := RunEnd(keys, lo, hi, d);
      RunsEach(keys, e, hi, d);
      var rs := Runs(keys, lo, hi, d);
      var rest := Runs(keys, e, hi, d);
      assert EachRun(keys, e, hi, d, rest);
      assert rs == [RangeNode(lo, e)] + rest;
      forall j | 0 <= j < |rs|
        ensures lo <= rs[j].left < rs[j].right <= hi
        ensures forall i | rs[j].left <= i < rs[j].right :: keys[i][d] == keys[rs[j].left][d]
      {
        if j > 0 {
          assert rs[j] == rest[j - 1];
        }
      }
    }
  }

  /** Neighbouring runs meet, and their bytes differ. */
  lemma {:induction false} RunsMeet(keys: seq<Key>, lo: nat, hi: nat, d: nat)
    requires lo <= hi <= |keys| && LongerThan(keys, lo, hi, d)
    ensures var rs := Runs(keys, lo, hi, d);
            (forall j | 0 <= j < |rs| :: lo <= rs[j].left < rs[j].right <= hi) &&
            forall j | 0 <= j < |rs| - 1 ::
              rs[j].right == rs[j + 1].left && keys[rs[j + 1].left][d] != keys[rs[j].left][d]
    decreases hi - lo
  {
    RunsEach(keys, lo, hi, d);
    if lo < hi {
      var e := RunEnd(keys, lo, hi, d);
      RunsMeet(keys, e, hi, d);
      RunsEnds(keys, e, hi, d);
      var rs := Runs(keys, lo, hi, d);
      var rest := Runs(keys, e, hi, d);
      assert rs == [RangeNode(lo, e)] + rest;
      forall j | 0 <= j < |rs| - 1
        ensures rs[j].right == rs[j + 1].left && keys[rs[j + 1].left][d] != keys[rs[j].left][d]
      {
        assert rs[j + 1] == rest[j];
        if j > 0 {
          assert rs[j] == rest[j - 1];
        }
      }
    }
  }

    /** The run that holds key `i`. */
  lemma {:induction false} RunOf(keys: seq<Key>, lo: nat, hi: nat, d: nat, i: nat) returns (j: nat)
    requires lo <= i < hi <= |keys| && LongerThan(keys, lo, hi, d)
    ensures j < |Runs(keys, lo, hi, d)|
    ensures Runs(keys, lo, hi, d)[j].left <= i < Runs(keys, lo, hi, d)[j].right
    decreases hi - lo
  {
    var e := RunEnd(keys, lo, hi, d);
    if i < e {
      j := 0;
    } else {
      var k := RunOf(keys, e, hi, d, i);
      j := k + 1;
    }
  }

  /** Byte `d` strictly increases from run to run. */
  ghost predicate Increasing(keys: seq<Key>, d: nat, rs: seq<RangeNode>)
  {
    forall j, k | 0 <= j < k < |rs| ::
      rs[j].left < |keys| && rs[k].left < |keys| &&
      d < |keys[rs[j].left]| && d < |keys[rs[k].left]| &&
      keys[rs[j].left][d] < keys[rs[k].left][d]
  }

  /** Among sorted keys with a common `d`-byte prefix, later runs have
      larger bytes: the edges of one node are distinct and increasing. */
  lemma {:induction false} RunsIncrease(keys: seq<Key>, lo: nat, hi: nat, d: nat)
    requires Sorted(keys) && lo <= hi <= |keys| && LongerThan(keys, lo, hi, d)
    requires lo < hi ==> SharePrefix(keys, lo, hi, d)
    ensures Increasing(keys, d, Runs(keys, lo, hi, d))
    decreases hi - lo
  {
    if lo < hi {
      var e := RunEnd(keys, lo, hi, d);
      var rs := Runs(keys, lo, hi, d);
      var rest := Runs(keys, e, hi, d);
      RunsTile(keys, e, hi, d);
      RunsIncrease(keys, e, hi, d);
      assert rs == [RangeNode(lo, e)] + rest;
      forall k | 0 < k < |rs|
        ensures keys[lo][d] < keys[rs[k].left][d]
      {
        var m := rest[k - 1].left;
        ByteMonotone(keys, d, lo, e);
        ByteMonotone(keys, d, e, m);
      }
    }
  }

  // ------------------------------------------------------------ counting

  /** The number of keys in a list of ranges. */
  function KeyCount(ns: seq<Node>): int
  {
    if ns == [] then 0 else KeyCount(ns[..|ns| - 1]) + ns[|ns| - 1].right - ns[|ns| - 1].left
  }

  /** The bytes the keys of `[l, r)` have beyond depth `d`. */
  function Weight(keys: seq<Key>, l: nat, r: nat, d: nat): int
    requires l <= r <= |keys|
    decreases r - l
  {
    if l == r then 0 else Weight(keys, l + 1, r, d) + |keys[l]| - d
  }

  /** What is left to do for one node: the node itself and the bytes
      below it. */
  function Cost(keys: seq<Key>, nd: Node): int
  {
    if nd.left <= nd.right <= |keys| then 1 + Weight(keys, nd.left, nd.right, nd.depth) else 0
  }

  function QueueCost(keys: seq<Key>, ns: seq<Node>): int
  {
    if ns == [] then 0 else QueueCost(keys, ns[..|ns| - 1]) + Cost(keys, ns[|ns| - 1])
  }

  lemma {:induction false} KeyCountAppend(a: seq<Node>, b: seq<Node>)
    ensures KeyCount(a + b) == KeyCount(a) + KeyCount(b)
    decreases |b|
  {
    if b == [] {
      assert a + b == a;
    } else {
      assert (a + b)[..|a + b| - 1] == a + b[..|b| - 1];
      KeyCountAppend(a, b[..|b| - 1]);
    }
  }

  lemma {:induction false} QueueCostAppend(keys: seq<Key>, a: seq<Node>, b: seq<Node>)
    ensures QueueCost(keys, a + b) == QueueCost(keys, a) + QueueCost(keys, b)
    decreases |b|
  {
    if b == [] {
      assert a + b == a;
    } else {
      assert (a + b)[..|a + b| - 1] == a + b[..|b| - 1];
      QueueCostAppend(keys, a, b[..|b| - 1]);
    }
  }

  lemma {:induction false} WeightSplit(keys: seq<Key>, l: nat, m: nat, r: nat, d: nat)
    requires l <= m <= r <= |keys|
    ensures Weight(keys, l, r, d) == Weight(keys, l, m, d) + Weight(keys, m, r, d)
    decreases m - l
  {
    if l < m {
      WeightSplit(keys, l + 1, m, r, d);
    }
  }

  lemma {:induction false} WeightDeeper(keys: seq<Key>, l: nat, r: nat, d: nat)
    requires l <= r <= |keys|
    ensures Weight(keys, l, r, d + 1) == Weight(keys, l, r, d) - (r - l)
    decreases r - l
  {
    if l < r {
      WeightDeeper(keys, l + 1, r, d);
    }
  }

  lemma {:induction false} WeightNonNegative(keys: seq<Key>, l: nat, r: nat, d: nat)
    requires l <= r <= |keys|
    requires forall i | l <= i < r :: d <= |keys[i]|
    ensures Weight(keys, l, r, d) >= 0
    decreases r - l
  {
    if l < r {
      WeightNonNegative(keys, l + 1, r, d);
    }
  }

  /** The runs as nodes one level down. */
  function Deepen(rs: seq<RangeNode>, d: nat): (ns: seq<Node>)
    ensures |ns| == |rs|
    ensures forall j | 0 <= j < |rs| :: ns[j] == Node(rs[j].left, rs[j].right, d)
  {
    if rs == [] then [] else Deepen(rs[..|rs| - 1], d) + [Node(rs[|rs| - 1].left, rs[|rs| - 1].right, d)]
  }

  /** The children hold the keys of `[lo, hi)`, and their work is at most
      the work below the node: each child costs one and eats one byte of
      each of its keys. */
  lemma RunsCount(keys: seq<Key>, lo: nat, hi: nat, d: nat)
    requires lo <= hi <= |keys| && LongerThan(keys, lo, hi, d)
    ensures KeyCount(Deepen(Runs(keys, lo, hi, d), d + 1)) == hi - lo
    ensures QueueCost(keys, Deepen(Runs(keys, lo, hi, d), d + 1))
            == |Runs(keys, lo, hi, d)| + Weight(keys, lo, hi, d) - (hi - lo)
  {
    RunsKeys(keys, lo, hi, d);
    RunsCost(keys, lo, hi, d);
  }

  /** The children hold the keys of `[lo, hi)`. */
  lemma {:induction false} RunsKeys(keys: seq<Key>, lo: nat, hi: nat, d: nat)
    requires lo <= hi <= |keys| && LongerThan(keys, lo, hi, d)
    ensures KeyCount(Deepen(Runs(keys, lo, hi, d), d + 1)) == hi - lo
    decreases hi - lo
  {
    var rs := Runs(keys, lo, hi, d);
    if lo < hi {
      var e := RunEnd(keys, lo, hi, d);
      var rest := Runs(keys, e, hi, d);
      RunsKeys(keys, e, hi, d);
      var first := [Node(lo, e, d + 1)];
      assert Deepen(rs, d + 1) == first + Deepen(rest, d + 1);
      KeyCountAppend(first, Deepen(rest, d + 1));
      assert KeyCount(first) == e - lo by {
        assert first[..0] == [];
      }
    }
  }

  /** The children's work: each costs one and eats one byte of each of its
      keys. */
  lemma {:induction false} RunsCost(keys: seq<Key>, lo: nat, hi: nat, d: nat)
    requires lo <= hi <= |keys| && LongerThan(keys, lo, hi, d)
    ensures QueueCost(keys, Deepen(Runs(keys, lo, hi, d), d + 1))
            == |Runs(keys, lo, hi, d)| + Weight(keys, lo, hi, d) - (hi - lo)
    decreases hi - lo
  {
    var rs := Runs(keys, lo, hi, d);
    if lo < hi {
      var e := RunEnd(keys, lo, hi, d);
      var rest := Runs(keys, e, hi, d);
      RunsCost(keys, e, hi, d);
      var first := [Node(lo, e, d + 1)];
      assert Deepen(rs, d + 1) == first + Deepen(rest, d + 1);
      QueueCostAppend(keys, first, Deepen(rest, d + 1));
      assert QueueCost(keys, first) == Cost(keys, first[0]) by {
        assert first[..0] == [];
      }
      WeightSplit(keys, lo, e, hi, d);
      WeightDeeper(keys, lo, e, d);
    }
  }
}
