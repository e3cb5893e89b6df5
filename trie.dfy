/**
 * The prefix tree `Triemap_node` (pokestring/pstring.py), stored as an arena:
 * every node lives in `nodes` and refers to its children by index. Node 0 is
 * the root. The ghost map `paths` names every node by the key path that
 * reaches it; `Contents()` is the abstract view, the map from stored keys to
 * their values.
 */
module Trie {
  import opened Wrappers

  /** One trie node: its children by next unit, and its value if one is stored. */
  datatype Node<K, V> = Node(children: map<K, nat>, value: Option<V>)

  /** The effect of one insertion on the stored map: the first value stored for a key wins. */
  function InsertFirst<K(==), V>(m: map<seq<K>, V>, key: seq<K>, v: V): (r: map<seq<K>, V>)
    ensures r.Keys == m.Keys + {key}
    ensures r[key] == (if key in m then m[key] else v)
    ensures forall k :: k in m ==> r[k] == m[k]
  {
    if key in m then m else m[key := v]
  }

  /** The stored map after inserting `pairs`, in order, into an empty trie. */
  function FirstWins<K(==), V>(pairs: seq<(seq<K>, V)>): map<seq<K>, V>
  {
    if pairs == [] then map[]
    else
      var last := pairs[|pairs| - 1];
      InsertFirst(FirstWins(pairs[..|pairs| - 1]), last.0, last.1)
  }

  /** A key is stored after a sequence of insertions exactly when some insertion used it. */
  lemma {:induction false} FirstWinsKeys<K, V>(pairs: seq<(seq<K>, V)>, key: seq<K>)
    ensures key in FirstWins(pairs) <==> exists i :: 0 <= i < |pairs| && pairs[i].0 == key
  {
    if pairs != [] {
      var init := pairs[..|pairs| - 1];
      FirstWinsKeys(init, key);
      if key in FirstWins(init) {
        var i :| 0 <= i < |init| && init[i].0 == key;
        assert pairs[i].0 == key;
      }
      if exists i :: 0 <= i < |pairs| && pairs[i].0 == key {
        var i :| 0 <= i < |pairs| && pairs[i].0 == key;
        if i < |init| {
          assert init[i].0 == key;
        }
      }
    }
  }

  /** The value stored for a key is the one given by the first insertion of that key. */
  lemma {:induction false} FirstWinsValue<K, V>(pairs: seq<(seq<K>, V)>, i: nat)
    requires i < |pairs| && forall j :: 0 <= j < i ==> pairs[j].0 != pairs[i].0
    ensures pairs[i].0 in FirstWins(pairs) && FirstWins(pairs)[pairs[i].0] == pairs[i].1
  {
    var init := pairs[..|pairs| - 1];
    if i == |pairs| - 1 {
      assert forall j :: 0 <= j < |init| ==> init[j].0 != pairs[i].0;
      FirstWinsKeys(init, pairs[i].0);
    } else {
      assert init[i] == pairs[i];
      FirstWinsValue(init, i);
    }
  }

  /** The length of the longest prefix of `s` no longer than `hi` that is a key of `m`. */
  function LongestKeyUpTo<K(==), V>(m: map<seq<K>, V>, s: seq<K>, hi: nat): (r: Option<nat>)
    requires hi <= |s|
    ensures r.Some? ==> r.value <= hi && s[..r.value] in m
    ensures forall j :: (if r.Some? then r.value + 1 else 0) <= j <= hi ==> s[..j] !in m
    decreases hi
  {
    if s[..hi] in m then Some(hi)
    else if hi == 0 then None
    else LongestKeyUpTo(m, s, hi - 1)
  }

  /**
   * Reference definition of a longest-prefix lookup in a map of keys:
   * the value and length of the longest prefix of `s` that is a key of `m`,
   * or no value and length 0 when no prefix is.
   */
  function LongestMatch<K(==), V>(m: map<seq<K>, V>, s: seq<K>): (r: (Option<V>, nat))
    ensures r.1 <= |s|
    ensures r.0.Some? ==> s[..r.1] in m && r.0.value == m[s[..r.1]]
    ensures r.0.None? ==> r.1 == 0 && forall j :: 0 <= j <= |s| ==> s[..j] !in m
    ensures forall j :: r.1 < j <= |s| ==> s[..j] !in m
  {
    match LongestKeyUpTo(m, s, |s|)
    case Some(d) => (Some(m[s[..d]]), d)
    case None => (None, 0)
  }

  /** Any lookup result with the defining properties of a longest match is `LongestMatch`. */
  lemma LongestMatchUnique<K, V>(m: map<seq<K>, V>, s: seq<K>, r: (Option<V>, nat))
    requires r.1 <= |s|
    requires r.0.Some? ==> s[..r.1] in m && r.0.value == m[s[..r.1]]
    requires r.0.None? ==> r.1 == 0 && forall j :: 0 <= j <= |s| ==> s[..j] !in m
    requires forall j :: r.1 < j <= |s| ==> s[..j] !in m
    ensures r == LongestMatch(m, s)
  {
  }

  /** The prefix of length `i + 1` is the prefix of length `i` extended by the unit at `i`. */
  lemma SliceSnoc<K>(s: seq<K>, i: nat)
    requires i < |s|
    ensures s[..i + 1] == s[..i] + [s[i]]
  {
  }

  /** The parent path of a non-empty key path. */
  function Up<K>(q: seq<K>): seq<K>
  {
    if q == [] then [] else q[..|q| - 1]
  }

  /**
   * The arena invariant. `paths` is a bijection between key paths and node
   * indices that follows the child links: node 0 is reached by the empty
   * path, the child of the node at `p` under unit `k` is the node at
   * `p + [k]`, and every non-empty path is its parent's path extended by a
   * child link.
   */
  ghost predicate WellFormed<K, V>(nodes: seq<Node<K, V>>, paths: map<seq<K>, nat>)
  {
    && [] in paths && paths[[]] == 0
    && (forall p :: p in paths ==> paths[p] < |nodes|)
    && (forall p, q :: p in paths && q in paths && paths[p] == paths[q] ==> p == q)
    && (forall p, k :: p in paths && paths[p] < |nodes| && k in nodes[paths[p]].children ==>
          p + [k] in paths && paths[p + [k]] == nodes[paths[p]].children[k])
    && (forall q {:trigger Up(q)} :: q in paths && q != [] ==>
          Up(q) in paths && paths[Up(q)] < |nodes| && q[|q| - 1] in nodes[paths[Up(q)]].children)
  }

  /** The keys stored in an arena with their values: the paths whose node holds a value. */
  ghost function Stored<K, V>(nodes: seq<Node<K, V>>, paths: map<seq<K>, nat>): map<seq<K>, V>
  {
    map p | p in paths && paths[p] < |nodes| && nodes[paths[p]].value.Some? :: nodes[paths[p]].value.value
  }

  /** The arena after a fresh, valueless node is linked below node `cur` under unit `k`. */
  function Grow<K, V>(nodes: seq<Node<K, V>>, cur: nat, k: K): seq<Node<K, V>>
    requires cur < |nodes|
  {
    nodes[cur := nodes[cur].(children := nodes[cur].children[k := |nodes|])] + [Node(map[], None)]
  }

  /** Every prefix of a path of the arena is a path of the arena. */
  lemma {:induction false} PrefixClosed<K, V>(nodes: seq<Node<K, V>>, paths: map<seq<K>, nat>, w: seq<K>, i: nat)
    requires WellFormed(nodes, paths) && w in paths && i <= |w|
    ensures w[..i] in paths
    decreases |w| - i
  {
    if i < |w| {
      PrefixClosed(nodes, paths, w, i + 1);
      assert Up(w[..i + 1]) == w[..i];
    } else {
      assert w[..i] == w;
    }
  }

  /** A path that leaves the arena is not a path of it. */
  lemma NotAPath<K, V>(nodes: seq<Node<K, V>>, paths: map<seq<K>, nat>, p: seq<K>, k: K)
    requires WellFormed(nodes, paths) && p in paths && k !in nodes[paths[p]].children
    ensures p + [k] !in paths
  {
    var q := p + [k];
    assert Up(q) == p && q[|q| - 1] == k;
  }

  /** Linking a fresh child keeps the arena well formed. */
  lemma GrowWellFormed<K, V>(nodes: seq<Node<K, V>>, paths: map<seq<K>, nat>, p: seq<K>, k: K)
    requires WellFormed(nodes, paths) && p in paths && k !in nodes[paths[p]].children
    ensures WellFormed(Grow(nodes, paths[p], k), paths[p + [k] := |nodes|])
  {
    GrowInjective(nodes, paths, p, k);
    GrowChildren(nodes, paths, p, k);
    GrowParents(nodes, paths, p, k);
  }

  /** After linking a fresh child, distinct paths still reach distinct nodes. */
  lemma GrowInjective<K, V>(nodes: seq<Node<K, V>>, paths: map<seq<K>, nat>, p: seq<K>, k: K)
    requires WellFormed(nodes, paths) && p in paths && k !in nodes[paths[p]].children
    ensures var ps := paths[p + [k] := |nodes|];
      forall p1, q1 :: p1 in ps && q1 in ps && ps[p1] == ps[q1] ==> p1 == q1
  {
    NotAPath(nodes, paths, p, k);
  }

  /** After linking a fresh child, every child link is followed by a path. */
  lemma GrowChildren<K, V>(nodes: seq<Node<K, V>>, paths: map<seq<K>, nat>, p: seq<K>, k: K)
    requires WellFormed(nodes, paths) && p in paths && k !in nodes[paths[p]].children
    ensures var ns, ps := Grow(nodes, paths[p], k), paths[p + [k] := |nodes|];
      forall p1, k1 :: p1 in ps && ps[p1] < |ns| && k1 in ns[ps[p1]].children ==>
        p1 + [k1] in ps && ps[p1 + [k1]] == ns[ps[p1]].children[k1]
  {
    var cur, q := paths[p], p + [k];
    var ns, ps := Grow(nodes, cur, k), paths[q := |nodes|];
    NotAPath(nodes, paths, p, k);
    forall p1, k1 | p1 in ps && ps[p1] < |ns| && k1 in ns[ps[p1]].children
      ensures p1 + [k1] in ps && ps[p1 + [k1]] == ns[ps[p1]].children[k1]
    {
      if p1 != q && ps[p1] == cur {
        assert p1 == p;
      }
    }
  }

  /** After linking a fresh child, every non-empty path still hangs below its parent. */
  lemma GrowParents<K, V>(nodes: seq<Node<K, V>>, paths: map<seq<K>, nat>, p: seq<K>, k: K)
    requires WellFormed(nodes, paths) && p in paths && k !in nodes[paths[p]].children
    ensures var ns, ps := Grow(nodes, paths[p], k), paths[p + [k] := |nodes|];
      forall q1 {:trigger Up(q1)} :: q1 in ps && q1 != [] ==>
        Up(q1) in ps && ps[Up(q1)] < |ns| && q1[|q1| - 1] in ns[ps[Up(q1)]].children
  {
    var q := p + [k];
    NotAPath(nodes, paths, p, k);
    assert Up(q) == p && q[|q| - 1] == k;
  }

  /** Linking a fresh child stores no new key. */
  lemma GrowStored<K, V>(nodes: seq<Node<K, V>>, paths: map<seq<K>, nat>, p: seq<K>, k: K)
    requires WellFormed(nodes, paths) && p in paths && k !in nodes[paths[p]].children
    ensures Stored(Grow(nodes, paths[p], k), paths[p + [k] := |nodes|]) == Stored(nodes, paths)
  {
    NotAPath(nodes, paths, p, k);
    StoredGrow(nodes, paths, paths[p], p + [k], k);
  }

  /** A new path to a fresh valueless node, with the old paths inside the arena, adds no key. */
  lemma StoredGrow<K, V>(nodes: seq<Node<K, V>>, paths: map<seq<K>, nat>, cur: nat, q: seq<K>, k: K)
    requires cur < |nodes| && q !in paths
    requires forall x :: x in paths ==> paths[x] < |nodes|
    ensures Stored(Grow(nodes, cur, k), paths[q := |nodes|]) == Stored(nodes, paths)
  {
    var ns, ps := Grow(nodes, cur, k), paths[q := |nodes|];
    var c0, c1 := Stored(nodes, paths), Stored(ns, ps);
    forall x
      ensures x in c1 <==> x in c0
      ensures x in c0 ==> c1[x] == c0[x]
    {
      if x in paths {
        assert ns[ps[x]].value == nodes[paths[x]].value;
      }
    }
    assert c1.Keys == c0.Keys;
  }

  /** Storing a value at the node of `w`, which has none, adds exactly the key `w`. */
  lemma SetStored<K, V>(nodes: seq<Node<K, V>>, paths: map<seq<K>, nat>, w: seq<K>, v: V)
    requires WellFormed(nodes, paths) && w in paths && nodes[paths[w]].value.None?
    ensures WellFormed(nodes[paths[w] := nodes[paths[w]].(value := Some(v))], paths)
    ensures Stored(nodes[paths[w] := nodes[paths[w]].(value := Some(v))], paths) == Stored(nodes, paths)[w := v]
  {
    StoredSet(nodes, paths, w, v);
  }

  /** Storing a value at a valueless node that only `w` reaches adds exactly the key `w`. */
  lemma StoredSet<K, V>(nodes: seq<Node<K, V>>, paths: map<seq<K>, nat>, w: seq<K>, v: V)
    requires w in paths && paths[w] < |nodes| && nodes[paths[w]].value.None?
    requires forall x :: x in paths && paths[x] == paths[w] ==> x == w
    ensures Stored(nodes[paths[w] := nodes[paths[w]].(value := Some(v))], paths) == Stored(nodes, paths)[w := v]
  {
    var ns := nodes[paths[w] := nodes[paths[w]].(value := Some(v))];
    var c0, c1 := Stored(nodes, paths)[w := v], Stored(ns, paths);
    forall x
      ensures x in c1 <==> x in c0
      ensures x in c0 ==> c1[x] == c0[x]
    {
    }
    assert c1.Keys == c0.Keys;
  }

  class Trie<K(==), V> {
    var nodes: seq<Node<K, V>>
    ghost var paths: map<seq<K>, nat>

    ghost predicate Valid()
      reads this
    {
      WellFormed(nodes, paths)
    }

    /** The keys stored in the trie with their values. */
    ghost function Contents(): map<seq<K>, V>
      reads this
    {
      Stored(nodes, paths)
    }

    constructor ()
      ensures Valid() && Contents() == map[]
    {
      nodes := [Node(map[], None)];
      paths := map[[] := 0];
    }

    /**
     * `insert` (pokestring/pstring.py:18-29): walk `word` from the root,
     * creating each missing child, and store `v` at the last node unless a
     * value is stored there already.
     */
    method Insert(word: seq<K>, v: V)
      requires Valid()
      modifies this
      ensures Valid()
      ensures Contents() == InsertFirst(old(Contents()), word, v)
    {
      var cur := 0;
      var i := 0;
      while i < |word|
        invariant Valid()
        invariant i <= |word|
        invariant word[..i] in paths && paths[word[..i]] == cur
        invariant Contents() == old(Contents())
      {
        assert word[..i + 1] == word[..i] + [word[i]];
        cur := Child(word[..i], cur, word[i]);
        i := i + 1;
      }
      assert word[..i] == word;
      if nodes[cur].value.None? {
        SetStored(nodes, paths, word, v);
        nodes := nodes[cur := nodes[cur].(value := Some(v))];
      }
    }

    /** The child of node `cur` (reached by `p`) under `k`, created without a value if missing. */
    method Child(p: seq<K>, cur: nat, k: K) returns (next: nat)
      requires Valid() && p in paths && paths[p] == cur
      modifies this
      ensures Valid() && Contents() == old(Contents())
      ensures p + [k] in paths && paths[p + [k]] == next
    {
      if k in nodes[cur].children {
        next := nodes[cur].children[k];
      } else {
        GrowWellFormed(nodes, paths, p, k);
        GrowStored(nodes, paths, p, k);
        next := |nodes|;
        nodes := Grow(nodes, cur, k);
        paths := paths[p + [k] := next];
      }
    }

    /**
     * `get_longest_prefix` (pokestring/pstring.py:31-58) at node `n`, reached
     * by the first `depth` units of the stream. The stream is the sequence of
     * units the source's stream function yields before it yields `None`.
     */
    function LongestPrefixFrom(n: nat, stream: seq<K>, depth: nat): (r: (Option<V>, nat))
      reads this
      requires Valid() && depth <= |stream| && stream[..depth] in paths && paths[stream[..depth]] == n
      ensures depth <= r.1 <= |stream|
      decreases |stream| - depth
    {
      assert n < |nodes|;
      if depth == |stream| || stream[depth] !in nodes[n].children then
        (nodes[n].value, depth)
      else
        ChildPath(stream[..depth], stream[depth]);
        SliceSnoc(stream, depth);
        var child := LongestPrefixFrom(nodes[n].children[stream[depth]], stream, depth + 1);
        if child.0.Some? then child else (nodes[n].value, depth)
    }

    /**
     * The walk from the node of the first `depth` units ends at the deepest
     * node on the stream's path that holds a value, or reports the starting
     * node's empty value when there is none.
     */
    lemma {:induction false} LongestPrefixFromDeepest(n: nat, stream: seq<K>, depth: nat)
      requires Valid() && depth <= |stream| && stream[..depth] in paths && paths[stream[..depth]] == n
      ensures var r := LongestPrefixFrom(n, stream, depth);
        && (r.0.Some? ==> HoldsValue(stream[..r.1]) && r.0 == nodes[paths[stream[..r.1]]].value)
        && (r.0.None? ==> r.1 == depth && !HoldsValue(stream[..depth]))
        && (forall j :: r.1 < j <= |stream| ==> !HoldsValue(stream[..j]))
      decreases |stream| - depth
    {
      if depth == |stream| {
      } else if stream[depth] !in nodes[n].children {
        NoDeeperKey(stream, depth);
      } else {
        ChildPath(stream[..depth], stream[depth]);
        SliceSnoc(stream, depth);
        LongestPrefixFromDeepest(nodes[n].children[stream[depth]], stream, depth + 1);
      }
    }

    /** `p` is a path of the arena whose node holds a value. */
    ghost predicate HoldsValue(p: seq<K>)
      reads this
    {
      p in paths && paths[p] < |nodes| && nodes[paths[p]].value.Some?
    }

    /** The stored keys are the paths whose node holds a value, with that value. */
    lemma ValueAt(p: seq<K>)
      ensures HoldsValue(p) <==> p in Contents()
      ensures HoldsValue(p) ==> Contents()[p] == nodes[paths[p]].value.value
    {
    }

    /** Following a child link extends the path by the link's unit. */
    lemma ChildPath(p: seq<K>, k: K)
      requires Valid() && p in paths && paths[p] < |nodes| && k in nodes[paths[p]].children
      ensures p + [k] in paths && paths[p + [k]] == nodes[paths[p]].children[k]
    {
    }

    /** When the stream leaves the trie after `depth` units, no longer prefix is stored. */
    lemma NoDeeperKey(stream: seq<K>, depth: nat)
      requires Valid() && depth < |stream| && stream[..depth] in paths
      requires stream[depth] !in nodes[paths[stream[..depth]]].children
      ensures forall j :: depth < j <= |stream| ==> stream[..j] !in paths
    {
      forall j | depth < j <= |stream|
        ensures stream[..j] !in paths
      {
        if stream[..j] in paths {
          assert stream[..j][..depth + 1] == stream[..depth + 1];
          assert Up(stream[..depth + 1]) == stream[..depth];
          PrefixClosed(nodes, paths, stream[..j], depth + 1);
          assert false;
        }
      }
    }

    /** `get_longest_prefix` called on the root with `depth=0`. */
    function LongestPrefix(stream: seq<K>): (r: (Option<V>, nat))
      reads this
      requires Valid()
      ensures r == LongestMatch(Contents(), stream)
    {
      assert stream[..0] == [];
      var r := LongestPrefixFrom(0, stream, 0);
      LongestPrefixFromDeepest(0, stream, 0);
      ValueAt(stream[..r.1]);
      forall j | 0 <= j <= |stream|
        ensures HoldsValue(stream[..j]) <==> stream[..j] in Contents()
      {
        ValueAt(stream[..j]);
      }
      LongestMatchUnique(Contents(), stream, r);
      r
    }
  }
}
