/**
 * Keys of the trie: byte strings, ordered as `std::string` orders them
 * (`char_traits<char>` compares characters as `unsigned char`), and the
 * `sort` + `unique` step that opens `Trie::build`.
 */
module TrieKeys {

  /** A character, read as the `uint8_t` the trie stores in `edges_`. */
  type Byte = x: int | 0 <= x < 256

  type Key = seq<Byte>

  /** The length of the longest common prefix of `a` and `b`. */
  function Common(a: Key, b: Key): (n: nat)
    ensures n <= |a| && n <= |b|
    ensures a[..n] == b[..n]
    ensures n < |a| && n < |b| ==> a[n] != b[n]
  {
    if |a| == 0 || |b| == 0 || a[0] != b[0] then 0
    else
      var m := Common(a[1..], b[1..]);
      assert a[..m + 1] == [a[0]] + a[1..][..m];
      assert b[..m + 1] == [b[0]] + b[1..][..m];
      m + 1
  }

  /** `a < b` for `std::string`: `a` is a proper prefix of `b`, or `a` has
      the smaller byte where they first differ. */
  predicate Less(a: Key, b: Key)
  {
    var n := Common(a, b);
    (n == |a| && n < |b|) || (n < |a| && n < |b| && a[n] < b[n])
  }

  /** Agreeing on a prefix of length `m` makes `m` a lower bound of `Common`. */
  lemma CommonAtLeast(a: Key, b: Key, m: nat)
    requires m <= |a| && m <= |b| && a[..m] == b[..m]
    ensures m <= Common(a, b)
  {
  }

  /** `Common` is the first index where the keys part ways. */
  lemma CommonIs(a: Key, b: Key, m: nat)
    requires m <= |a| && m <= |b| && a[..m] == b[..m]
    requires m < |a| && m < |b| ==> a[m] != b[m]
    requires m == |a| || m == |b| || a[m] != b[m]
    ensures Common(a, b) == m
  {
    CommonAtLeast(a, b, m);
  }

  lemma LessIrreflexive(a: Key)
    ensures !Less(a, a)
  {
    CommonAtLeast(a, a, |a|);
  }

  lemma LessAsymmetric(a: Key, b: Key)
    requires Less(a, b)
    ensures !Less(b, a)
  {
    var n := Common(a, b);
    CommonIs(b, a, n);
  }

  lemma LessTotal(a: Key, b: Key)
    requires a != b
    ensures Less(a, b) || Less(b, a)
  {
    var n := Common(a, b);
    CommonIs(b, a, n);
  }

  lemma LessTransitive(a: Key, b: Key, c: Key)
    requires Less(a, b) && Less(b, c)
    ensures Less(a, c)
  {
    var x, y := Common(a, b), Common(b, c);
    if x < y {
      assert a[..x] == b[..x] == c[..x];
      CommonIs(a, c, x);
    } else if y < x {
      assert a[..y] == b[..y] == c[..y];
      CommonIs(a, c, y);
    } else {
      assert a[..x] == b[..x] == c[..x];
      CommonIs(a, c, x);
    }
  }

  /** A key comes after every proper prefix of it. */
  lemma PrefixLess(p: Key, b: Key)
    requires |p| < |b| && b[..|p|] == p
    ensures Less(p, b)
  {
    assert p[..|p|] == p;
    CommonIs(p, b, |p|);
  }

  /** Two keys that agree on their first `d` bytes are ordered by byte `d`. */
  lemma LessAtByte(a: Key, b: Key, d: nat)
    requires d < |a| && d < |b| && a[..d] == b[..d] && Less(a, b)
    ensures a[d] <= b[d]
  {
    CommonAtLeast(a, b, d);
  }

  /** Strictly increasing: `sort` followed by `unique`. */
  ghost predicate Sorted(keys: seq<Key>)
  {
    forall i, j | 0 <= i < j < |keys| :: Ordered(keys, i, j)
  }

  /** Key `i` comes before key `j`. */
  predicate Ordered(keys: seq<Key>, i: nat, j: nat)
    requires i < |keys| && j < |keys|
  {
    Less(keys[i], keys[j])
  }

  /** In sorted keys sharing their first `d` bytes, byte `d` never
      decreases. */
  lemma ByteMonotone(keys: seq<Key>, d: nat, i: nat, j: nat)
    requires Sorted(keys) && i <= j < |keys|
    requires d < |keys[i]| && d < |keys[j]| && keys[i][..d] == keys[j][..d]
    ensures keys[i][d] <= keys[j][d]
  {
    if i < j {
      assert Ordered(keys, i, j);
      LessAtByte(keys[i], keys[j], d);
    }
  }

  /** Among sorted keys sharing a `d`-byte prefix, only the first can have
      length `d`. */
  lemma OnlyFirstEnds(keys: seq<Key>, l: nat, i: nat, d: nat)
    requires Sorted(keys) && l < i < |keys|
    requires d <= |keys[l]| && d <= |keys[i]| && keys[i][..d] == keys[l][..d]
    ensures d < |keys[i]|
  {
    assert Ordered(keys, l, i);
    if |keys[i]| == d {
      assert keys[i] == keys[i][..d];
      if |keys[l]| == d {
        assert keys[l] == keys[l][..d];
        LessIrreflexive(keys[l]);
      } else {
        PrefixLess(keys[i], keys[l]);
        LessAsymmetric(keys[l], keys[i]);
      }
    }
  }

  /** `sort` followed by `unique` has one possible outcome: two strictly
      increasing lists holding the same keys are the same list. */
  lemma {:induction false} SortedSame(a: seq<Key>, b: seq<Key>)
    requires Sorted(a) && Sorted(b)
    requires forall k :: k in a <==> k in b
    ensures a == b
    decreases |a|
  {
    if a != [] {
      assert a[0] in b;
    }
    if b != [] {
      assert b[0] in a;
    }
    if a != [] {
      if a[0] != b[0] {
        assert b[0] in a && a[0] in b;
        var i :| 0 <= i < |a| && a[i] == b[0];
        var j :| 0 <= j < |b| && b[j] == a[0];
        assert Ordered(a, 0, i) && Ordered(b, 0, j);
        LessAsymmetric(a[0], a[i]);
      }
      forall k
        ensures k in a[1..] <==> k in b[1..]
      {
        if k in a[1..] {
          var i :| 1 <= i < |a| && a[i] == k;
          assert Ordered(a, 0, i);
          LessIrreflexive(a[0]);
          assert k in b && k != b[0];
        }
        if k in b[1..] {
          var j :| 1 <= j < |b| && b[j] == k;
          assert Ordered(b, 0, j);
          LessIrreflexive(b[0]);
          assert k in a && k != a[0];
        }
      }
      SortedDrop(a);
      SortedDrop(b);
      SortedSame(a[1..], b[1..]);
      assert a == [a[0]] + a[1..] && b == [b[0]] + b[1..];
    }
  }

  /** Dropping the first key keeps the keys sorted. */
  lemma SortedDrop(keys: seq<Key>)
    requires Sorted(keys) && keys != []
    ensures Sorted(keys[1..])
  {
    forall i, j | 0 <= i < j < |keys| - 1
      ensures Ordered(keys[1..], i, j)
    {
      assert Ordered(keys, i + 1, j + 1);
    }
  }

  /** Sum of the key lengths. */
  function TotalLength(keys: seq<Key>): nat
  {
    if keys == [] then 0 else TotalLength(keys[..|keys| - 1]) + |keys[|keys| - 1]|
  }

  lemma {:induction false} TotalLengthAppend(a: seq<Key>, b: seq<Key>)
    ensures TotalLength(a + b) == TotalLength(a) + TotalLength(b)
    decreases |b|
  {
    if b != [] {
      assert (a + b)[..|a + b| - 1] == a + b[..|b| - 1];
      TotalLengthAppend(a, b[..|b| - 1]);
    } else {
      assert a + b == a;
    }
  }

  /** `sort(keyList)` then `unique` and `erase`: the distinct keys in
      increasing order. Keys are inserted one at a time into their place. */
  method SortUnique(keyList: seq<Key>) returns (keys: seq<Key>)
    ensures Sorted(keys)
    ensures forall k :: k in keys <==> k in keyList
    ensures |keys| <= |keyList|
    ensures TotalLength(keys) <= TotalLength(keyList)
  {
    keys := [];
    for i := 0 to |keyList|
      invariant Sorted(keys)
      invariant forall k :: k in keys <==> k in keyList[..i]
      invariant |keys| <= i
      invariant TotalLength(keys) <= TotalLength(keyList[..i])
    {
      var x := keyList[i];
      var p := 0;
      while p < |keys| && Less(keys[p], x)
        invariant p <= |keys|
        invariant forall j | 0 <= j < p :: Less(keys[j], x)
      {
        p := p + 1;
      }
      assert keyList[..i + 1] == keyList[..i] + [x];
      TotalLengthAppend(keyList[..i], [x]);
      if p == |keys| || keys[p] != x {
        keys := Insert(keys, p, x);
      }
    }
    assert keyList[..|keyList|] == keyList;
  }

  /** `x` inserted at `p` keeps the list sorted when `p` is `x`'s place. */
  method Insert(keys: seq<Key>, p: nat, x: Key) returns (r: seq<Key>)
    requires Sorted(keys) && p <= |keys|
    requires forall j | 0 <= j < p :: Less(keys[j], x)
    requires p < |keys| ==> !Less(keys[p], x) && keys[p] != x
    ensures Sorted(r)
    ensures forall k :: k in r <==> k in keys || k == x
    ensures |r| == |keys| + 1
    ensures TotalLength(r) == TotalLength(keys) + |x|
  {
    r := keys[..p] + [x] + keys[p..];
    if p < |keys| {
      LessTotal(keys[p], x);
    }
    InsertSorted(keys, p, x);
    InsertLength(keys, p, x);
  }

  /** The length and membership half of `Insert`. */
  lemma InsertLength(keys: seq<Key>, p: nat, x: Key)
    requires p <= |keys|
    ensures forall k :: k in keys[..p] + [x] + keys[p..] <==> k in keys || k == x
    ensures TotalLength(keys[..p] + [x] + keys[p..]) == TotalLength(keys) + |x|
  {
    TotalLengthAppend(keys[..p], [x]);
    TotalLengthAppend(keys[..p] + [x], keys[p..]);
    TotalLengthAppend(keys[..p], keys[p..]);
    assert keys[..p] + keys[p..] == keys;
  }

  /** The sortedness half of `Insert`. */
  lemma InsertSorted(keys: seq<Key>, p: nat, x: Key)
    requires Sorted(keys) && p <= |keys|
    requires forall j | 0 <= j < p :: Less(keys[j], x)
    requires p < |keys| ==> Less(x, keys[p])
    ensures Sorted(keys[..p] + [x] + keys[p..])
  {
    var r := keys[..p] + [x] + keys[p..];
    forall i, j | 0 <= i < j < |r|
      ensures Ordered(r, i, j)
    {
      if j < p {
        assert r[i] == keys[i] && r[j] == keys[j] && Ordered(keys, i, j);
      } else if j == p {
        assert r[i] == keys[i] && r[j] == x;
      } else if i == p {
        assert r[i] == x && r[j] == keys[j - 1];
        if j - 1 > p {
          assert Ordered(keys, p, j - 1);
          LessTransitive(x, keys[p], keys[j - 1]);
        }
      } else if i < p {
        assert r[i] == keys[i] && r[j] == keys[j - 1] && Ordered(keys, i, j - 1);
      } else {
        assert r[i] == keys[i - 1] && r[j] == keys[j - 1] && Ordered(keys, i - 1, j - 1);
      }
    }
  }

  /** `std::reverse` on a string. */
  function Reverse(s: Key): (r: Key)
    ensures |r| == |s|
  {
    if s == [] then [] else [s[|s| - 1]] + Reverse(s[..|s| - 1])
  }

  lemma ReverseAppend(s: Key, c: Byte)
    ensures Reverse(s + [c]) == [c] + Reverse(s)
  {
    assert (s + [c])[..|s|] == s;
  }

  /** `a` is a prefix of `b`. */
  predicate IsPrefix(a: Key, b: Key)
  {
    |a| <= |b| && b[..|a|] == a
  }

  /** A key agreeing with `q` on its first `d` bytes is a prefix of `q`
      exactly when the rest of the key matches `q` from `d` on. */
  lemma RestPrefix(key: Key, q: Key, d: nat)
    requires d <= |key| && d <= |q| && key[..d] == q[..d]
    ensures IsPrefix(key, q) <==>
            |key| - d <= |q| - d && q[d..d + (|key| - d)] == key[d..]
  {
    if |key| <= |q| {
      assert key == key[..d] + key[d..];
      assert q[..|key|] == q[..d] + q[d..|key|];
    }
  }

  /** The keys of `keys` that begin with `q`, in their order. */
  ghost function WithPrefix(keys: seq<Key>, q: Key): (r: seq<Key>)
    ensures |r| <= |keys|
  {
    if keys == [] then []
    else
      var last := keys[|keys| - 1];
      WithPrefix(keys[..|keys| - 1], q) + (if IsPrefix(q, last) then [last] else [])
  }

  /** When the keys beginning with `q` are exactly those at `[l, r)`,
      they are `keys[l..r]`. */
  lemma PrefixBlock(keys: seq<Key>, q: Key, l: nat, r: nat)
    requires l <= r <= |keys|
    requires forall i | 0 <= i < |keys| :: IsPrefix(q, keys[i]) <==> l <= i < r
    ensures WithPrefix(keys, q) == keys[l..r]
  {
    PrefixBlockUpTo(keys, q, l, r, |keys|);
    assert keys[..|keys|] == keys;
  }

  lemma {:induction false} PrefixBlockUpTo(keys: seq<Key>, q: Key, l: nat, r: nat, m: nat)
    requires l <= r <= |keys| && m <= |keys|
    requires forall i | 0 <= i < |keys| :: IsPrefix(q, keys[i]) <==> l <= i < r
    ensures var a, b := if l < m then l else m, if r < m then r else m;
            WithPrefix(keys[..m], q) == keys[a..b]
  {
    if m > 0 {
      PrefixBlockUpTo(keys, q, l, r, m - 1);
      assert keys[..m][..m - 1] == keys[..m - 1];
      var b := if r < m then r else m;
      if l <= m - 1 < r {
        assert keys[l..b] == keys[l..m - 1] + [keys[m - 1]];
      }
    }
  }
}
