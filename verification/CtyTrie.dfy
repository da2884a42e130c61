/** The CTY prefix trie: nodes in a slice, children by index, and the longest-prefix
    walk over them. */
module CtyTrie {
  import opened Common

  datatype Node = Node(next: map<byte, nat>, terminalKey: bytes)

  /** The trie over these keys; paths[i] is the string that leads to node i. */
  ghost predicate Shape(nodes: seq<Node>, paths: seq<bytes>) {
    && |nodes| == |paths| > 0 && paths[0] == []
    && (forall i, j :: 0 <= i < j < |paths| ==> paths[i] != paths[j])
    && (forall i, c :: 0 <= i < |nodes| && c in nodes[i].next ==>
          nodes[i].next[c] < |nodes| && paths[nodes[i].next[c]] == paths[i] + [c])
    && (forall j :: 0 < j < |paths| ==> HasParent(nodes, paths, j))
  }

  /** Node j hangs below the node of its path without the last byte. */
  ghost predicate HasParent(nodes: seq<Node>, paths: seq<bytes>, j: nat)
    requires |nodes| == |paths| && j < |paths|
  {
    paths[j] != [] && exists i :: 0 <= i < |nodes| && Edge(nodes, paths, i, j)
  }

  ghost predicate Edge(nodes: seq<Node>, paths: seq<bytes>, i: nat, j: nat)
    requires |nodes| == |paths| && i < |paths| && j < |paths| && paths[j] != []
  {
    var n := |paths[j]| - 1;
    paths[i] == paths[j][..n] && paths[j][n] in nodes[i].next && nodes[i].next[paths[j][n]] == j
  }

  /** Terminal nodes are exactly the nonempty keys. */
  ghost predicate Terminals(nodes: seq<Node>, paths: seq<bytes>, keys: set<bytes>)
    requires |nodes| == |paths|
  {
    && (forall i :: 0 <= i < |nodes| ==>
          nodes[i].terminalKey == if paths[i] in keys && paths[i] != [] then paths[i] else [])
    && (forall k :: k in keys && k != [] ==> k in paths)
  }

  ghost predicate TrieOf(nodes: seq<Node>, paths: seq<bytes>, keys: set<bytes>) {
    Shape(nodes, paths) && Terminals(nodes, paths, keys)
  }

  /** Every prefix of a path is a path. */
  lemma {:induction false} PrefixIsPath(nodes: seq<Node>, paths: seq<bytes>, p: bytes, q: bytes)
    requires Shape(nodes, paths) && q in paths && p <= q
    ensures p in paths
    decreases |q|
  {
    var j :| 0 <= j < |paths| && paths[j] == q;
    if p != q {
      assert HasParent(nodes, paths, j);
      var i :| 0 <= i < |nodes| && Edge(nodes, paths, i, j);
      assert paths[i] in paths && p <= paths[i];
      PrefixIsPath(nodes, paths, p, paths[i]);
    }
  }

  /** From a node, a byte leads on exactly when the extended string is a path. */
  lemma ChildIff(nodes: seq<Node>, paths: seq<bytes>, i: nat, c: byte)
    requires Shape(nodes, paths) && i < |nodes|
    ensures c in nodes[i].next <==> paths[i] + [c] in paths
  {
    var q := paths[i] + [c];
    assert q[..|q| - 1] == paths[i] && q[|q| - 1] == c;
    if c in nodes[i].next {
      assert paths[nodes[i].next[c]] == q;
    }
    if q in paths {
      var j :| 0 <= j < |paths| && paths[j] == q;
      assert HasParent(nodes, paths, j);
      var k :| 0 <= k < |nodes| && Edge(nodes, paths, k, j);
      assert paths[k] == paths[i];
    }
  }

  // ---------------------------------------------------------------- building

  function KeySet(keys: seq<bytes>): (s: set<bytes>) { set k | k in keys }

  lemma AddChild(nodes: seq<Node>, paths: seq<bytes>, state: nat, c: byte)
    requires Shape(nodes, paths) && state < |nodes| && c !in nodes[state].next
    ensures var linked := nodes[state := nodes[state].(next := nodes[state].next[c := |nodes|])];
            Shape(linked + [Node(map[], [])], paths + [paths[state] + [c]])
  {
    var q := paths[state] + [c];
    ChildIff(nodes, paths, state, c);
    var linked := nodes[state := nodes[state].(next := nodes[state].next[c := |nodes|])];
    var ns, ps := linked + [Node(map[], [])], paths + [q];
    forall j | 0 < j < |ps| ensures HasParent(ns, ps, j) {
      if j == |paths| {
        assert q[..|q| - 1] == paths[state];
        assert Edge(ns, ps, state, j);
      } else {
        assert HasParent(nodes, paths, j);
        var i :| 0 <= i < |nodes| && Edge(nodes, paths, i, j);
        assert Edge(ns, ps, i, j);
      }
    }
    forall i, j | 0 <= i < j < |ps| ensures ps[i] != ps[j] {
      if j == |paths| { assert paths[i] in paths; }
    }
  }

  /** Terminals survive a new node as long as its path is not yet a key. */
  lemma AddChildTerminals(nodes: seq<Node>, paths: seq<bytes>, keys: set<bytes>, state: nat, c: byte)
    requires TrieOf(nodes, paths, keys) && state < |nodes| && c !in nodes[state].next
    ensures var linked := nodes[state := nodes[state].(next := nodes[state].next[c := |nodes|])];
            Terminals(linked + [Node(map[], [])], paths + [paths[state] + [c]], keys)
  {
    var q := paths[state] + [c];
    ChildIff(nodes, paths, state, c);
    assert q !in keys;
  }

  /** The node array is a trie of the keys: some assignment of paths to nodes fits it. */
  ghost predicate IsTrie(nodes: seq<Node>, keys: set<bytes>) {
    exists paths :: TrieOf(nodes, paths, keys)
  }

  /** buildCTYTrie; keys may repeat and empty ones are skipped. */
  method BuildTrie(keys: seq<bytes>) returns (nodes: seq<Node>)
    ensures IsTrie(nodes, KeySet(keys))
  {
    nodes := [Node(map[], [])];
    ghost var paths: seq<bytes> := [[]];
    for n := 0 to |keys|
      invariant TrieOf(nodes, paths, KeySet(keys[..n]))
    {
      hide Shape, Terminals;
      ghost var before := KeySet(keys[..n]);
      assert keys[..n + 1] == keys[..n] + [keys[n]];
      assert KeySet(keys[..n + 1]) == before + {keys[n]};
      if keys[n] == [] {
        TerminalsIgnoreEmpty(nodes, paths, before);
        continue;
      }
      nodes, paths := AddKey(nodes, paths, before, keys[n]);
    }
    assert keys[..|keys|] == keys;
  }

  lemma TerminalsIgnoreEmpty(nodes: seq<Node>, paths: seq<bytes>, keys: set<bytes>)
    requires TrieOf(nodes, paths, keys)
    ensures TrieOf(nodes, paths, keys + {[]})
  {
    hide Shape;
  }

  method AddKey(nodes0: seq<Node>, ghost paths0: seq<bytes>, ghost keys: set<bytes>, key: bytes)
    returns (nodes: seq<Node>, ghost paths: seq<bytes>)
    requires TrieOf(nodes0, paths0, keys) && key != []
    ensures TrieOf(nodes, paths, keys + {key})
  {
    hide Shape, Terminals;
    nodes, paths := nodes0, paths0;
    var state := 0;
    RootPath(nodes, paths);
    for i := 0 to |key|
      invariant TrieOf(nodes, paths, keys)
      invariant |nodes| == |paths| && 0 <= state < |nodes| && paths[state] == key[..i]
    {
      var ch := key[i];
      assert key[..i + 1] == key[..i] + [ch];
      if ch !in nodes[state].next {
        AddChild(nodes, paths, state, ch);
        AddChildTerminals(nodes, paths, keys, state, ch);
        var child := |nodes|;
        paths := paths + [paths[state] + [ch]];
        nodes := nodes[state := nodes[state].(next := nodes[state].next[ch := child])] + [Node(map[], [])];
        state := child;
      } else {
        ChildPath(nodes, paths, state, ch);
        state := nodes[state].next[ch];
      }
    }
    assert key[..|key|] == key;
    MarkTerminal(nodes, paths, keys, state, key);
    nodes := nodes[state := nodes[state].(terminalKey := key)];
  }

  lemma RootPath(nodes: seq<Node>, paths: seq<bytes>)
    requires Shape(nodes, paths)
    ensures |nodes| == |paths| > 0 && paths[0] == []
  {
  }

  lemma ChildPath(nodes: seq<Node>, paths: seq<bytes>, i: nat, c: byte)
    requires Shape(nodes, paths) && i < |nodes| && c in nodes[i].next
    ensures nodes[i].next[c] < |paths| == |nodes| && paths[nodes[i].next[c]] == paths[i] + [c]
  {
  }

  lemma MarkTerminal(nodes: seq<Node>, paths: seq<bytes>, keys: set<bytes>, state: nat, key: bytes)
    requires TrieOf(nodes, paths, keys) && state < |nodes| && paths[state] == key != []
    ensures TrieOf(nodes[state := nodes[state].(terminalKey := key)], paths, keys + {key})
  {
    ShapeMarked(nodes, paths, state, key);
    TerminalsMarked(nodes, paths, keys, state, key);
    hide Shape, Terminals;
  }

  lemma ShapeMarked(nodes: seq<Node>, paths: seq<bytes>, state: nat, key: bytes)
    requires Shape(nodes, paths) && state < |nodes|
    ensures Shape(nodes[state := nodes[state].(terminalKey := key)], paths)
  {
    var ns := nodes[state := nodes[state].(terminalKey := key)];
    forall j | 0 < j < |paths| ensures HasParent(ns, paths, j) {
      assert HasParent(nodes, paths, j);
      var i :| 0 <= i < |nodes| && Edge(nodes, paths, i, j);
      assert Edge(ns, paths, i, j);
    }
  }

  lemma TerminalsMarked(nodes: seq<Node>, paths: seq<bytes>, keys: set<bytes>, state: nat, key: bytes)
    requires Shape(nodes, paths) && Terminals(nodes, paths, keys) && state < |nodes| && paths[state] == key != []
    ensures Terminals(nodes[state := nodes[state].(terminalKey := key)], paths, keys + {key})
  {
  }

  // ---------------------------------------------------------------- walking

  /** key is the longest nonempty key that is a prefix of cs. */
  ghost predicate LongestPrefix(keys: set<bytes>, cs: bytes, key: bytes) {
    && key in keys && key != [] && key <= cs
    && forall k :: k in keys && k != [] && k <= cs ==> |k| <= |key|
  }

  ghost predicate NoPrefix(keys: set<bytes>, cs: bytes) {
    forall k :: k in keys && k != [] ==> !(k <= cs)
  }

  /** longestPrefixKey: a key exactly when some nonempty key is a prefix, and then the
      longest one. */
  method LongestPrefixKey(nodes: seq<Node>, ghost keys: set<bytes>, cs: bytes) returns (key: bytes, ok: bool)
    requires IsTrie(nodes, keys)
    ensures ok ==> LongestPrefix(keys, cs, key)
    ensures !ok ==> NoPrefix(keys, cs) && key == []
  {
    hide Shape, Terminals, LongestPrefix, NoPrefix;
    ghost var paths :| TrieOf(nodes, paths, keys);
    key, ok := Descend(nodes, paths, keys, cs);
  }

  /** The walk down the trie, remembering the last terminal passed. */
  method Descend(nodes: seq<Node>, ghost paths: seq<bytes>, ghost keys: set<bytes>, cs: bytes)
    returns (key: bytes, ok: bool)
    requires TrieOf(nodes, paths, keys)
    ensures ok ==> LongestPrefix(keys, cs, key)
    ensures !ok ==> NoPrefix(keys, cs) && key == []
  {
    hide Shape, Terminals;
    if |nodes| == 0 || cs == [] {
      RootPath(nodes, paths);
      return [], false;
    }
    var state := 0;
    var best: bytes := [];
    var i := 0;
    RootPath(nodes, paths);
    BestAtRoot(keys, cs);
    while i < |cs|
      invariant 0 <= i <= |cs| && |nodes| == |paths| && 0 <= state < |nodes| && paths[state] == cs[..i]
      invariant BestUpTo(keys, cs, i, best)
      decreases |cs| - i
    {
      if cs[i] !in nodes[state].next {
        DeadEnd(nodes, paths, keys, cs, i, state, best);
        break;
      }
      ChildPath(nodes, paths, state, cs[i]);
      state := nodes[state].next[cs[i]];
      assert cs[..i + 1] == cs[..i] + [cs[i]];
      Advance(nodes, paths, keys, cs, i, state, best);
      if nodes[state].terminalKey != [] { best := nodes[state].terminalKey; }
      i := i + 1;
    }
    assert BestUpTo(keys, cs, |cs|, best);
    if best == [] { return [], false; }
    return best, true;
  }

  /** best is the longest nonempty key among the prefixes of cs up to length i. */
  ghost predicate BestUpTo(keys: set<bytes>, cs: bytes, i: nat, best: bytes)
    requires i <= |cs|
  {
    && (best != [] ==> best in keys && best <= cs && |best| <= i)
    && forall k :: k in keys && k != [] && k <= cs && |k| <= i ==> best != [] && |k| <= |best|
  }

  lemma BestAtRoot(keys: set<bytes>, cs: bytes)
    ensures BestUpTo(keys, cs, 0, [])
  {
  }

  lemma Advance(nodes: seq<Node>, paths: seq<bytes>, keys: set<bytes>, cs: bytes, i: nat, state: nat, best: bytes)
    requires TrieOf(nodes, paths, keys) && i < |cs| && state < |nodes| && paths[state] == cs[..i + 1]
    requires BestUpTo(keys, cs, i, best)
    ensures BestUpTo(keys, cs, i + 1, if nodes[state].terminalKey != [] then nodes[state].terminalKey else best)
  {
    hide Shape;
    forall k | k in keys && k <= cs && |k| == i + 1 ensures k == cs[..i + 1] {}
  }

  /** Past a dead end no longer prefix of cs can be a key. */
  lemma DeadEnd(nodes: seq<Node>, paths: seq<bytes>, keys: set<bytes>, cs: bytes, i: nat, state: nat, best: bytes)
    requires TrieOf(nodes, paths, keys) && i < |cs| && state < |nodes| && paths[state] == cs[..i]
    requires cs[i] !in nodes[state].next && BestUpTo(keys, cs, i, best)
    ensures BestUpTo(keys, cs, |cs|, best)
  {
    hide Shape, Terminals;
    forall k | k in keys && k != [] && k <= cs ensures |k| <= i {
      NoLongerKey(nodes, paths, keys, cs, i, state, k);
    }
  }

  lemma NoLongerKey(nodes: seq<Node>, paths: seq<bytes>, keys: set<bytes>, cs: bytes, i: nat, state: nat, k: bytes)
    requires TrieOf(nodes, paths, keys) && i < |cs| && state < |nodes| && paths[state] == cs[..i]
    requires cs[i] !in nodes[state].next && k in keys && k != [] && k <= cs
    ensures |k| <= i
  {
    hide Shape, Terminals;
    var q := cs[..i] + [cs[i]];
    ChildIff(nodes, paths, state, cs[i]);
    KeyIsPath(nodes, paths, keys, k);
    assert q == cs[..i + 1];
    if |k| > i {
      assert q <= k by { assert k[..i + 1] == cs[..i + 1]; }
      PrefixIsPath(nodes, paths, q, k);
    }
  }

  lemma KeyIsPath(nodes: seq<Node>, paths: seq<bytes>, keys: set<bytes>, k: bytes)
    requires TrieOf(nodes, paths, keys) && k in keys && k != []
    ensures k in paths
  {
    hide Shape;
  }
}
