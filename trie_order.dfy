/**
 * The order in which `enumerateAll` lists a subtree: a node's own key
 * first, then the subtrees of its children in the order of their edges.
 * Since edges increase and a node's key is a proper prefix of the keys
 * below it, this is the sorted order of the node's keys.
 */
module TrieOrders {
  import opened Outcomes
  import opened BitSeqs
  import opened TrieKeys
  import opened TrieRanges
  import opened TrieLayouts
  import opened TrieShapes

  /** The first `n` elements of `s`, or all of it when it is shorter. */
  function Take<T>(s: seq<T>, n: int): (r: seq<T>)
    ensures |r| == if n <= 0 then 0 else if n < |s| then n else |s|
    ensures r == s[..|r|]
  {
    if n <= 0 then [] else if n < |s| then s[..n] else if n == |s| then s else Take(s, |s|)
  }

  /** Taking from a concatenation takes from the first part, then from
      the second whatever is left. */
  lemma TakeCat<T>(a: seq<T>, b: seq<T>, n: int)
    ensures Take(a + b, n) == Take(a, n) + Take(b, n - |a|)
  {
    if 0 < n <= |a| {
      assert (a + b)[..n] == a[..n];
    } else if n > |a| {
      assert Take(a + b, n) == (a + b)[..|a| + |Take(b, n - |a|)|];
    }
  }

  lemma SliceSplit<T>(s: seq<T>, a: nat, b: nat, c: nat)
    requires a <= b <= c <= |s|
    ensures s[a..c] == s[a..b] + s[b..c]
  {
  }

  /** Taking `n` from a concatenation: what is left after the first part
      is taken from the second. */
  lemma TakeOn<T>(a: seq<T>, c: seq<T>, n: int)
    requires n >= 0
    ensures Take(a + c, n) == Take(a, n) + Take(c, n - |Take(a, n)|)
  {
    TakeCat(a, c, n);
    if n < |a| {
      assert |Take(a, n)| == n && Take(c, 0) == [] && Take(c, n - |a|) == [];
    } else {
      assert |Take(a, n)| == |a|;
    }
  }

  /** Listing `first` with the room left after `ret` and then `rest` with
      the room left after that is listing `first + rest`. */
  lemma TakeStep<T>(ret: seq<T>, first: seq<T>, rest: seq<T>, limit: nat)
    requires |ret| <= limit
    ensures var ret2 := ret + Take(first, limit - |ret|);
            |ret2| <= limit && ret + Take(first + rest, limit - |ret|) == ret2 + Take(rest, limit - |ret2|)
  {
    var m := limit - |ret|;
    var a := Take(first, m);
    var b := Take(rest, m - |a|);
    TakeOn(first, rest, m);
    assert limit - |ret + a| == m - |a|;
    assert ret + (a + b) == (ret + a) + b;
  }

  /** Every id is below `n`. */
  predicate Below(ids: seq<nat>, n: nat)
  {
    forall k | 0 <= k < |ids| :: ids[k] < n
  }

  /** The keys with the ids `ids`, in that order. */
  ghost function Names(keys: seq<Key>, dr: Draft, pl: Plan, ids: seq<nat>): (r: seq<Key>)
    requires Built(keys, dr, pl) && Below(ids, |keys|)
    ensures |r| == |ids|
  {
    if ids == [] then []
    else Names(keys, dr, pl, ids[..|ids| - 1]) + [KeyOf(keys, dr, pl, ids[|ids| - 1])]
  }

  lemma {:induction false} NamesCat(keys: seq<Key>, dr: Draft, pl: Plan, a: seq<nat>, b: seq<nat>)
    requires Built(keys, dr, pl) && Below(a, |keys|) && Below(b, |keys|)
    ensures Below(a + b, |keys|)
    ensures Names(keys, dr, pl, a + b) == Names(keys, dr, pl, a) + Names(keys, dr, pl, b)
    decreases |b|
  {
    assert Below(a + b, |keys|) by {
      forall k | 0 <= k < |a + b|
        ensures (a + b)[k] < |keys|
      {
        if k >= |a| {
          assert (a + b)[k] == b[k - |a|];
        }
      }
    }
    if b == [] {
      assert a + b == a;
    } else {
      var c := b[..|b| - 1];
      assert (a + b)[..|a + b| - 1] == a + c;
      assert Below(c, |keys|);
      NamesCat(keys, dr, pl, a, c);
    }
  }

  lemma {:induction false} NamesTake(keys: seq<Key>, dr: Draft, pl: Plan, ids: seq<nat>, m: nat)
    requires Built(keys, dr, pl) && Below(ids, |keys|) && m <= |ids|
    ensures Below(ids[..m], |keys|)
    ensures Names(keys, dr, pl, ids[..m]) == Names(keys, dr, pl, ids)[..m]
    decreases |ids|
  {
    if m < |ids| {
      var c := ids[..|ids| - 1];
      assert c[..m] == ids[..m];
      NamesTake(keys, dr, pl, c, m);
    } else {
      assert ids[..m] == ids;
    }
  }

  /** The id node `v` contributes itself: one if it is terminal. */
  ghost function Own(keys: seq<Key>, dr: Draft, pl: Plan, v: nat): (ids: seq<nat>)
    requires Built(keys, dr, pl) && v < |pl.nodes|
    ensures |ids| <= 1
  {
    if dr.terminal[v] then [Rank(dr.terminal, true, v)] else []
  }

  /** The ids below node `v`, in the order `enumerateAll` reports them. */
  ghost function Pre(keys: seq<Key>, dr: Draft, pl: Plan, v: nat): seq<nat>
    requires Built(keys, dr, pl) && v < |pl.nodes|
    decreases |pl.nodes| - v, 1, 0
  {
    FanNat(keys, dr, pl, v);
    Own(keys, dr, pl, v) + Cat(keys, dr, pl, v, 0)
  }

  /** The ids below the children of `v` from number `j` on. */
  ghost function Cat(keys: seq<Key>, dr: Draft, pl: Plan, v: nat, j: nat): seq<nat>
    requires Built(keys, dr, pl) && v < |pl.nodes| && v + 1 < |pl.start| && j <= Fan(pl, v)
    decreases |pl.nodes| - v, 0, Fan(pl, v) - j
  {
    if j == Fan(pl, v) then []
    else
      ChildAfter(keys, dr, pl, v, j);
      Pre(keys, dr, pl, ChildLo(pl, v) + j) + Cat(keys, dr, pl, v, j + 1)
  }

  /** The first key held by the children of `v` from number `j` on, or
      the end of `v`'s range when there are none. */
  ghost function From(keys: seq<Key>, dr: Draft, pl: Plan, v: nat, j: nat): nat
    requires Built(keys, dr, pl) && v < |pl.nodes| && v + 1 < |pl.start| && j <= Fan(pl, v)
  {
    if j < Fan(pl, v) then
      ChildAfter(keys, dr, pl, v, j);
      pl.nodes[ChildLo(pl, v) + j].left
    else pl.nodes[v].right
  }

  /** The children of a node hold consecutive ranges that end where the
      node's range ends and start where the key ending at the node, if
      any, leaves off. */
  lemma KidsTile(keys: seq<Key>, nd: Node, j: nat)
    requires Sorted(keys) && NodeOk(keys, nd) && !TailCase(keys, nd)
    ensures var kids := Kids(keys, nd);
            (kids != [] ==> kids[0].left == NewLeft(keys, nd)) &&
            (kids == [] ==> NewLeft(keys, nd) == nd.right) &&
            (j < |kids| ==> kids[j].right == if j + 1 < |kids| then kids[j + 1].left else nd.right)
  {
    KidsLonger(keys, nd);
    RunsTile(keys, NewLeft(keys, nd), nd.right, nd.depth);
  }

  /** Where the keys of the children of `v` from `j` on begin: child `j`
      holds the keys up to where the next child's begin. */
  lemma KidsFollow(keys: seq<Key>, dr: Draft, pl: Plan, v: nat, j: nat)
    requires Built(keys, dr, pl) && v < |pl.nodes| && v + 1 < |pl.start| && j <= Fan(pl, v)
    ensures NodeOk(keys, pl.nodes[v]) && v < |dr.tail| && pl.nodes[v].right <= |keys|
    ensures !dr.tail[v] ==> From(keys, dr, pl, v, 0) == NewLeft(keys, pl.nodes[v])
    ensures dr.tail[v] ==> From(keys, dr, pl, v, 0) == pl.nodes[v].right
    ensures j < Fan(pl, v) ==>
              var z := ChildLo(pl, v) + j;
              v < z < |pl.nodes| && pl.nodes[v].left <= pl.nodes[z].left &&
              pl.nodes[z].right == From(keys, dr, pl, v, j + 1) <= pl.nodes[v].right
  {
    FromFirst(keys, dr, pl, v);
    if j < Fan(pl, v) {
      FromNext(keys, dr, pl, v, j);
    }
  }

  /** The children's keys begin after the key ending at `v`, if any; a
      tail leaf has none. */
  lemma FromFirst(keys: seq<Key>, dr: Draft, pl: Plan, v: nat)
    requires Built(keys, dr, pl) && v < |pl.nodes| && v + 1 < |pl.start|
    ensures NodeOk(keys, pl.nodes[v]) && v < |dr.tail| && pl.nodes[v].right <= |keys| && 0 <= Fan(pl, v)
    ensures !dr.tail[v] ==> From(keys, dr, pl, v, 0) == NewLeft(keys, pl.nodes[v])
    ensures dr.tail[v] ==> From(keys, dr, pl, v, 0) == pl.nodes[v].right
  {
    FanIs(keys, dr, pl, v);
    if !dr.tail[v] {
      KidsTile(keys, pl.nodes[v], 0);
      if Fan(pl, v) > 0 {
        ChildKid(keys, dr, pl, v, 0);
      }
    }
  }

  /** Child `j` holds the keys up to where child `j + 1`'s begin. */
  lemma FromNext(keys: seq<Key>, dr: Draft, pl: Plan, v: nat, j: nat)
    requires Built(keys, dr, pl) && v < |pl.nodes| && v + 1 < |pl.start| && j < Fan(pl, v)
    ensures var z := ChildLo(pl, v) + j;
            v < z < |pl.nodes| && pl.nodes[v].left <= pl.nodes[z].left &&
            pl.nodes[z].right == From(keys, dr, pl, v, j + 1) <= pl.nodes[v].right
  {
    FanIs(keys, dr, pl, v);
    KidsTile(keys, pl.nodes[v], j);
    ChildKid(keys, dr, pl, v, j);
    if j + 1 < Fan(pl, v) {
      ChildKid(keys, dr, pl, v, j + 1);
    }
  }

  /** `Pre(v)` lists the ids of `v`'s keys, `keys[left..right]`, in
      ascending key order. */
  lemma {:induction false} PreKeys(keys: seq<Key>, dr: Draft, pl: Plan, v: nat)
    requires Built(keys, dr, pl) && v < |pl.nodes|
    ensures NodeOk(keys, pl.nodes[v]) && Below(Pre(keys, dr, pl, v), |keys|)
    ensures Names(keys, dr, pl, Pre(keys, dr, pl, v)) == keys[pl.nodes[v].left..pl.nodes[v].right]
    decreases |pl.nodes| - v, 1, 0
  {
    FanIs(keys, dr, pl, v);
    OwnKeys(keys, dr, pl, v);
    CatKeys(keys, dr, pl, v, 0);
    var nd := pl.nodes[v];
    var own := Own(keys, dr, pl, v);
    NamesCat(keys, dr, pl, own, Cat(keys, dr, pl, v, 0));
    SliceSplit(keys, nd.left, From(keys, dr, pl, v, 0), nd.right);
  }

  /** The id `v` contributes itself names the first of its keys, and its
      children's keys follow. */
  lemma OwnKeys(keys: seq<Key>, dr: Draft, pl: Plan, v: nat)
    requires Built(keys, dr, pl) && v < |pl.nodes| && v + 1 < |pl.start|
    ensures NodeOk(keys, pl.nodes[v]) && 0 <= Fan(pl, v) && Below(Own(keys, dr, pl, v), |keys|)
    ensures var own := Own(keys, dr, pl, v);
            From(keys, dr, pl, v, 0) == pl.nodes[v].left + |own| <= pl.nodes[v].right <= |keys| &&
            Names(keys, dr, pl, own) == keys[pl.nodes[v].left..pl.nodes[v].left + |own|]
  {
    TermFacts(keys, dr, pl, v);
    FanIs(keys, dr, pl, v);
    KidsFollow(keys, dr, pl, v, 0);
    if dr.tail[v] {
      TailFacts(keys, dr, pl, v);
    }
    var own := Own(keys, dr, pl, v);
    if own != [] {
      assert own[..0] == [];
    }
  }

  /** `Cat(v, j)` lists the ids of the keys from `From(v, j)` to the end
      of `v`'s range, in ascending key order. */
  lemma {:induction false} CatKeys(keys: seq<Key>, dr: Draft, pl: Plan, v: nat, j: nat)
    requires Built(keys, dr, pl) && v < |pl.nodes| && v + 1 < |pl.start| && j <= Fan(pl, v)
    ensures pl.nodes[v].right <= |keys| && From(keys, dr, pl, v, j) <= pl.nodes[v].right
    ensures Below(Cat(keys, dr, pl, v, j), |keys|)
    ensures Names(keys, dr, pl, Cat(keys, dr, pl, v, j)) == keys[From(keys, dr, pl, v, j)..pl.nodes[v].right]
    decreases |pl.nodes| - v, 0, Fan(pl, v) - j
  {
    KidsFollow(keys, dr, pl, v, j);
    if j < Fan(pl, v) {
      var z := ChildLo(pl, v) + j;
      PreKeys(keys, dr, pl, z);
      CatKeys(keys, dr, pl, v, j + 1);
      var first := Pre(keys, dr, pl, z);
      var rest := Cat(keys, dr, pl, v, j + 1);
      NamesCat(keys, dr, pl, first, rest);
      var lo := From(keys, dr, pl, v, j);
      var mid := From(keys, dr, pl, v, j + 1);
      SliceSplit(keys, lo, mid, pl.nodes[v].right);
    }
  }

  /** Partway through node `v`'s loop, after its first `i` children: the
      ids `ret2` listed so far followed by whatever room is left for the
      remaining children's ids make up `whole`. */
  ghost predicate Listing(keys: seq<Key>, dr: Draft, pl: Plan, v: nat, whole: seq<nat>, limit: nat,
                          ret2: seq<nat>, i: nat)
    requires Built(keys, dr, pl) && v < |pl.nodes| && v + 1 < |pl.start| && i <= Fan(pl, v)
  {
    |ret2| <= limit && whole == ret2 + Take(Cat(keys, dr, pl, v, i), limit - |ret2|)
  }

  /** Node `v`'s child count and terminal flag are in range. */
  lemma ListStart(keys: seq<Key>, dr: Draft, pl: Plan, v: nat)
    requires Built(keys, dr, pl) && v < |pl.nodes|
    ensures v + 1 < |pl.start| && 0 <= Fan(pl, v) && v < |dr.terminal|
  {
    FanNat(keys, dr, pl, v);
  }

  /** Node `v`'s own id opens its listing: the call's whole answer is its
      own id, if any, then what fits of its children's ids. */
  lemma ListWhole(keys: seq<Key>, dr: Draft, pl: Plan, v: nat, ret: seq<nat>, limit: nat, ret1: seq<nat>)
    requires Built(keys, dr, pl) && v < |pl.nodes| && |ret| < limit
    requires v < |dr.terminal| && ret1 == if dr.terminal[v] then ret + [Rank(dr.terminal, true, v)] else ret
    ensures v + 1 < |pl.start| && 0 <= Fan(pl, v)
    ensures Listing(keys, dr, pl, v, ret + Take(Pre(keys, dr, pl, v), limit - |ret|), limit, ret1, 0)
  {
    FanNat(keys, dr, pl, v);
    var own := Own(keys, dr, pl, v);
    var rest := Cat(keys, dr, pl, v, 0);
    assert Pre(keys, dr, pl, v) == own + rest;
    TakeStep(ret, own, rest, limit);
    assert Take(own, limit - |ret|) == own;
  }

  /** Listing child `i`'s subtree with the room left moves on to child
      `i + 1`. */
  lemma ListStep(keys: seq<Key>, dr: Draft, pl: Plan, v: nat, whole: seq<nat>, limit: nat,
                 ret2: seq<nat>, i: nat, ret3: seq<nat>)
    requires Built(keys, dr, pl) && v < |pl.nodes| && v + 1 < |pl.start| && i < Fan(pl, v)
    requires Listing(keys, dr, pl, v, whole, limit, ret2, i) && |ret2| < limit
    requires 0 <= ChildLo(pl, v) + i < |pl.nodes|
    requires ret3 == ret2 + Take(Pre(keys, dr, pl, ChildLo(pl, v) + i), limit - |ret2|)
    ensures Listing(keys, dr, pl, v, whole, limit, ret3, i + 1)
    ensures pl.start[v] + i + 1 < |dr.louds| && dr.louds[pl.start[v] + i + 1] == (i + 1 == Fan(pl, v))
  {
    ScanAt(keys, dr, pl, v, i + 1);
    ChildIs(keys, dr, pl, v, i);
    var first := Pre(keys, dr, pl, ChildLo(pl, v) + i);
    var rest := Cat(keys, dr, pl, v, i + 1);
    assert Cat(keys, dr, pl, v, i) == first + rest;
    TakeStep(ret2, first, rest, limit);
  }

  /** After the last child, or once `limit` ids are listed, the listing
      is complete. */
  lemma ListEnds(keys: seq<Key>, dr: Draft, pl: Plan, v: nat, whole: seq<nat>, limit: nat,
                 ret2: seq<nat>, i: nat)
    requires Built(keys, dr, pl) && v < |pl.nodes| && v + 1 < |pl.start| && i <= Fan(pl, v)
    requires Listing(keys, dr, pl, v, whole, limit, ret2, i) && (i == Fan(pl, v) || |ret2| >= limit)
    ensures ret2 == whole
  {
  }

  /** Node `v` spelling all of `q` holds exactly the keys beginning with
      `q`. */
  lemma PrefixKeys(keys: seq<Key>, dr: Draft, pl: Plan, v: nat, q: Key)
    requires Built(keys, dr, pl) && v < |pl.nodes| && NodeOk(keys, pl.nodes[v])
    requires pl.nodes[v].depth == |q| && Spell(keys, pl, v) == q
    ensures WithPrefix(keys, q) == keys[pl.nodes[v].left..pl.nodes[v].right]
  {
    forall i | 0 <= i < |keys|
      ensures IsPrefix(q, keys[i]) <==> pl.nodes[v].left <= i < pl.nodes[v].right
    {
      InRange(keys, dr, pl, v, i);
    }
    PrefixBlock(keys, q, pl.nodes[v].left, pl.nodes[v].right);
  }

  /** Below a tail leaf on `q`'s path the only candidate is the leaf's
      key. */
  lemma TailKeys(keys: seq<Key>, dr: Draft, pl: Plan, v: nat, q: Key)
    requires Built(keys, dr, pl) && v < |pl.nodes| && v < |dr.tail| && dr.tail[v]
    requires NodeOk(keys, pl.nodes[v]) && pl.nodes[v].depth <= |q|
    requires Spell(keys, pl, v) == q[..pl.nodes[v].depth]
    ensures var key := KeyOfNode(keys, pl, v);
            WithPrefix(keys, q) == if IsPrefix(q, key) then [key] else []
  {
    TailFacts(keys, dr, pl, v);
    var l := pl.nodes[v].left;
    var d := pl.nodes[v].depth;
    var r := if IsPrefix(q, keys[l]) then l + 1 else l;
    forall i | 0 <= i < |keys|
      ensures IsPrefix(q, keys[i]) <==> l <= i < r
    {
      InRange(keys, dr, pl, v, i);
      if IsPrefix(q, keys[i]) {
        assert keys[i][..d] == q[..d];
      }
    }
    PrefixBlock(keys, q, l, r);
    assert keys[l..l + 1] == [keys[l]];
  }

  /** When no edge below `v` carries `q`'s next byte, no key begins with
      `q`. */
  lemma NoKeys(keys: seq<Key>, dr: Draft, pl: Plan, v: nat, q: Key)
    requires Built(keys, dr, pl) && v < |pl.nodes| && v < |dr.tail| && !dr.tail[v]
    requires NodeOk(keys, pl.nodes[v]) && pl.nodes[v].depth < |q|
    requires Spell(keys, pl, v) == q[..pl.nodes[v].depth]
    requires Child(keys, dr, pl, v, Some(q[pl.nodes[v].depth])).None?
    ensures WithPrefix(keys, q) == []
  {
    var d := pl.nodes[v].depth;
    forall i | 0 <= i < |keys|
      ensures !IsPrefix(q, keys[i])
    {
      ChildMissing(keys, dr, pl, v, q[d], i);
    }
    PrefixBlock(keys, q, 0, 0);
  }

  /** Node `v` spelling all of `q`: the first `limit` ids of `v`'s subtree
      name the first `limit` keys that begin with `q`. */
  lemma PredictAll(keys: seq<Key>, dr: Draft, pl: Plan, v: nat, q: Key, limit: nat)
    requires Built(keys, dr, pl) && v < |pl.nodes| && NodeOk(keys, pl.nodes[v])
    requires pl.nodes[v].depth == |q| && Spell(keys, pl, v) == q
    ensures Below(Take(Pre(keys, dr, pl, v), limit), |keys|)
    ensures Names(keys, dr, pl, Take(Pre(keys, dr, pl, v), limit)) == Take(WithPrefix(keys, q), limit)
  {
    PreKeys(keys, dr, pl, v);
    PrefixKeys(keys, dr, pl, v, q);
    var ids := Pre(keys, dr, pl, v);
    NamesTake(keys, dr, pl, ids, |Take(ids, limit)|);
  }

  /** A tail leaf `v` reached along the first `d` bytes of `q`: the keys
      beginning with `q` are `v`'s own key when the rest of `q` runs along
      the leaf's tail, and none otherwise. */
  lemma PredictTail(keys: seq<Key>, dr: Draft, pl: Plan, v: nat, q: Key)
    requires Built(keys, dr, pl) && v < |pl.nodes| && v < |dr.tail| && dr.tail[v]
    requires NodeOk(keys, pl.nodes[v]) && pl.nodes[v].depth <= |q|
    requires Spell(keys, pl, v) == q[..pl.nodes[v].depth]
    ensures v < |dr.terminal| && Rank(dr.terminal, true, v) < |keys| && Rank(dr.tail, true, v) < |dr.tails|
    ensures var d, t, id := pl.nodes[v].depth, dr.tails[Rank(dr.tail, true, v)], Rank(dr.terminal, true, v);
            WithPrefix(keys, q) ==
              if |q| - d <= |t| && t[..|q| - d] == q[d..] then Names(keys, dr, pl, [id]) else []
  {
    TailFacts(keys, dr, pl, v);
    TermFacts(keys, dr, pl, v);
    TailKeys(keys, dr, pl, v, q);
    OwnKeys(keys, dr, pl, v);
    var l, d := pl.nodes[v].left, pl.nodes[v].depth;
    var key := keys[l];
    assert key[..d] == q[..d];
    RestPrefix(q, key, d);
    if |q| - d <= |key| - d {
      assert key[d..][..|q| - d] == key[d..d + (|q| - d)];
    }
    assert keys[l..l + 1] == [key];
  }

  /** What `predictiveSearch` answers at tail leaf `v`: its own id when the
      rest of `q` runs along its tail, and nothing otherwise, is the list of
      the first `limit` keys beginning with `q`. */
  lemma TailAnswer(keys: seq<Key>, dr: Draft, pl: Plan, v: nat, q: Key, limit: nat, along: bool, ret: seq<nat>)
    requires Built(keys, dr, pl) && v < |pl.nodes| && v < |dr.tail| && dr.tail[v]
    requires NodeOk(keys, pl.nodes[v]) && pl.nodes[v].depth <= |q|
    requires Spell(keys, pl, v) == q[..pl.nodes[v].depth] && limit > 0
    requires Rank(dr.tail, true, v) < |dr.tails|
    requires var d, t := pl.nodes[v].depth, dr.tails[Rank(dr.tail, true, v)];
             along <==> |q| - d <= |t| && t[..|q| - d] == q[d..]
    requires ret == if along then [Rank(dr.terminal, true, v)] else []
    ensures Below(ret, |keys|) && Names(keys, dr, pl, ret) == Take(WithPrefix(keys, q), limit)
  {
    PredictTail(keys, dr, pl, v, q);
    var want := WithPrefix(keys, q);
    if along {
      assert want == Names(keys, dr, pl, ret) && |want| == 1;
    } else {
      assert want == [] == Names(keys, dr, pl, ret);
    }
    assert Take(want, limit) == want;
  }
}
