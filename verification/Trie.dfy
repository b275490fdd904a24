/** The trie and the Aho-Corasick automaton of my_trie.h: nodes linked by their first edge (links),
    the next edge of their parent (next) and the failure function (fail). */
module AhoCorasick {

  type uchar = x: int | 0 <= x < 0x100
  type uint16 = x: int | 0 <= x < 0x1_0000
  type Word = seq<uchar>

  ghost predicate IsSuffix(v: Word, w: Word) {
    |v| <= |w| && v == w[|w| - |v|..]
  }

  class TrieNode {
    var leaf: uint16
    var c: uchar
    var next: TrieNode?
    var links: TrieNode?
    var fail: TrieNode?
  }

  /** A trie. The ghost fields name the word that leads to each node and the edges that leave it. */
  class Trie {
    const root: TrieNode
    ghost var path: map<TrieNode, Word>
    ghost var kids: map<TrieNode, seq<TrieNode>>

    /** A trie of no words. */
    constructor ()
      ensures Prepared() && path.Keys == {root} && fresh(root) && root.leaf == 0
    {
      var node := new TrieNode;
      node.leaf, node.next, node.links, node.fail := 0, null, null, null;
      root, path, kids := node, map[node := []], map[node := []];
    }

    /** The sibling list that starts at n.links is kids[n]; its labels are distinct. */
    ghost predicate EdgesOf(n: TrieNode)
      requires n in path
      reads this, path.Keys
    {
      && n in kids
      && n.links == (if kids[n] == [] then null else kids[n][0])
      && (forall i :: 0 <= i < |kids[n]| ==>
            && kids[n][i] in path && path[kids[n][i]] == path[n] + [kids[n][i].c]
            && kids[n][i].next == if i + 1 < |kids[n]| then kids[n][i + 1] else null)
      && (forall i, j :: 0 <= i < j < |kids[n]| ==> kids[n][i].c != kids[n][j].c)
    }

    ghost predicate HasParent(n: TrieNode)
      reads this
    {
      exists p :: p in path && p in kids && n in kids[p]
    }

    /** A trie as trie_insert leaves it. */
    ghost predicate Shaped()
      reads this, path.Keys
    {
      && root in path && path[root] == []
      && (forall n {:trigger EdgesOf(n)} :: n in path ==> EdgesOf(n))
      && (forall n {:trigger HasParent(n)} :: n in path && n != root ==> HasParent(n))
    }

    /** Some node is reached by w. */
    ghost predicate HasWord(w: Word)
      reads this
    {
      exists n :: n in path && path[n] == w
    }

    /** w is the longest suffix of the text that leads to a node. */
    ghost predicate IsLongest(w: Word, text: Word)
      reads this
    {
      HasWord(w) && IsSuffix(w, text) && forall v :: HasWord(v) && IsSuffix(v, text) ==> |v| <= |w|
    }

    /** The failure function leads to the longest proper suffix that is a path. */
    ghost predicate FailOf(n: TrieNode)
      requires n in path
      reads this, path.Keys
    {
      path[n] != [] && n.fail != null && n.fail in path && IsLongest(path[n.fail], path[n][1..])
    }

    /** A trie as ac_trie_prepare leaves it. */
    ghost predicate Prepared()
      reads this, path.Keys
    {
      Shaped() && forall n {:trigger FailOf(n)} :: n in path && n != root ==> FailOf(n)
    }

    lemma PreparedIsShaped()
      requires Prepared()
      ensures Shaped()
    {
    }

    /** Every match knows its depth. */
    ghost predicate LeavesAreDepths()
      reads this, path.Keys
    {
      forall n :: n in path && n.leaf > 0 ==> n.leaf == |path[n]|
    }

    ghost predicate Stored(key: Word)
      reads this, path.Keys
    {
      exists n :: n in path && path[n] == key && n.leaf > 0
    }

    lemma ParentOf(n: TrieNode) returns (p: TrieNode, i: nat)
      requires Shaped() && n in path && n != root
      ensures p in path && p in kids && i < |kids[p]| && kids[p][i] == n && path[n] == path[p] + [n.c]
    {
      assert HasParent(n);
      p :| p in path && p in kids && n in kids[p];
      assert EdgesOf(p);
      i :| 0 <= i < |kids[p]| && kids[p][i] == n;
    }

    /** Different nodes are reached by different words. */
    lemma {:induction false} SameWord(m: TrieNode, n: TrieNode)
      requires Shaped() && m in path && n in path && path[m] == path[n]
      ensures m == n
      decreases |path[m]|
    {
      if m == root {
        if n != root { var q, j := ParentOf(n); }
      } else if n == root {
        var p, i := ParentOf(m);
      } else {
        var p, i := ParentOf(m);
        var q, j := ParentOf(n);
        assert path[m][..|path[m]| - 1] == path[p] && path[n][..|path[n]| - 1] == path[q];
        SameWord(p, q);
        assert EdgesOf(p);
        assert m.c == n.c by { assert path[m][|path[p]|] == m.c && path[n][|path[q]|] == n.c; }
      }
    }

    /** The paths are closed under prefixes. */
    lemma PrefixIsWord(v: Word, c: uchar)
      requires Shaped() && HasWord(v + [c])
      ensures HasWord(v)
    {
      var n :| n in path && path[n] == v + [c];
      var p, i := ParentOf(n);
      assert path[p] == path[n][..|path[n]| - 1] == v;
    }

    /** Every text has a longest suffix that leads to a node, if only the empty one. */
    lemma {:induction false} LongestExists(text: Word) returns (m: TrieNode)
      requires Shaped()
      ensures m in path && IsLongest(path[m], text)
    {
      if HasWord(text) {
        m :| m in path && path[m] == text;
      } else {
        assert text != [] by { assert HasWord(path[root]); }
        m := LongestExists(text[1..]);
        forall v | HasWord(v) && IsSuffix(v, text) ensures IsSuffix(v, text[1..]) {
          assert v != text && |v| < |text|;
        }
      }
    }

    /** In every trie each node but the root has exactly one node to fail to, so the trie can be
        prepared, and in one way only. */
    lemma FailIsUnique(n: TrieNode) returns (m: TrieNode)
      requires Shaped() && n in path && n != root
      ensures path[n] != [] && m in path && IsLongest(path[m], path[n][1..])
      ensures forall k :: k in path && IsLongest(path[k], path[n][1..]) ==> k == m
    {
      var p, i := ParentOf(n);
      var text := path[n][1..];
      m := LongestExists(text);
      forall k | k in path && IsLongest(path[k], text) ensures k == m {
        assert |path[k]| == |path[m]|;
        SameWord(k, m);
      }
    }

    /** An extension of a node's word is the word of one of its edges. */
    lemma EdgeFor(n: TrieNode, m: TrieNode, c: uchar) returns (i: nat)
      requires Shaped() && n in path && m in path && path[m] == path[n] + [c]
      ensures n in kids && i < |kids[n]| && kids[n][i] == m && m.c == c
    {
      var p;
      p, i := ParentOf(m);
      assert path[p] == path[m][..|path[m]| - 1] == path[n];
      SameWord(p, n);
      assert path[m][|path[n]|] == c;
    }

    /** trie_goto: along the edge labelled c; the root has an edge to itself for every other label. */
    method Goto(node: TrieNode, c: uchar) returns (next: TrieNode?)
      requires Shaped() && node in path
      ensures next != null ==> next in path
      ensures HasWord(path[node] + [c]) ==> next != null && path[next] == path[node] + [c]
      ensures !HasWord(path[node] + [c]) ==> next == if node == root then root else null
    {
      assert EdgesOf(node);
      next := node.links;
      ghost var i := 0;
      while next != null
        invariant 0 <= i <= |kids[node]| && next == (if i < |kids[node]| then kids[node][i] else null)
        invariant forall j :: 0 <= j < i ==> kids[node][j].c != c
        decreases |kids[node]| - i
      {
        if next.c == c {
          assert HasWord(path[node] + [c]);
          return;
        }
        next := next.next;
        i := i + 1;
      }
      if HasWord(path[node] + [c]) {
        ghost var m :| m in path && path[m] == path[node] + [c];
        ghost var j := EdgeFor(node, m, c);
        assert false;
      }
      if root == node {
        next := root;
      }
    }

    /** trie_search: true exactly for the stored words. */
    method Search(key: Word) returns (found: bool)
      requires Shaped()
      ensures found <==> Stored(key)
    {
      var node := root;
      var k := 0;
      while k < |key|
        invariant 0 <= k <= |key| && node in path && path[node] == key[..k]
      {
        ghost var parent := node;
        assert EdgesOf(parent);
        if node.links == null {
          NoNodeFor(parent, key, k);
          return false;
        }
        node := node.links;
        ghost var i := 0;
        var p := key[k];
        while p != node.c
          invariant 0 <= i < |kids[parent]| && node == kids[parent][i]
          invariant forall j :: 0 <= j < i ==> kids[parent][j].c != p
          decreases |kids[parent]| - i
        {
          assert node.next == if i + 1 < |kids[parent]| then kids[parent][i + 1] else null;
          if node.next == null {
            NoNodeFor(parent, key, k);
            return false;
          }
          node := node.next;
          i := i + 1;
        }
        assert key[..k + 1] == key[..k] + [p];
        k := k + 1;
      }
      assert key[..|key|] == key;
      if Stored(key) {
        ghost var n :| n in path && path[n] == key && n.leaf > 0;
        SameWord(n, node);
      }
      found := node.leaf > 0;
    }

    /** A key whose next character labels no edge is not stored. */
    lemma NoNodeFor(n: TrieNode, key: Word, k: nat)
      requires Shaped() && n in path && k < |key| && path[n] == key[..k]
      requires n in kids && forall j :: 0 <= j < |kids[n]| ==> kids[n][j].c != key[k]
      ensures !Stored(key)
    {
      if Stored(key) {
        var m :| m in path && path[m] == key && m.leaf > 0;
        PrefixesAreWords(key, k + 1);
        var l :| l in path && path[l] == key[..k + 1];
        assert key[..k + 1] == key[..k] + [key[k]];
        var i := EdgeFor(n, l, key[k]);
      }
    }

    /** Of the suffixes of the text that c extends to a path, none is longer than n characters. */
    ghost predicate NoLonger(n: nat, text: Word, c: uchar)
      reads this
    {
      forall v {:trigger IsSuffix(v, text)} :: IsSuffix(v, text) && HasWord(v + [c]) ==> |v| <= n
    }

    lemma LongestIsBound(w: Word, text: Word, c: uchar)
      requires Shaped() && IsLongest(w, text)
      ensures NoLonger(|w|, text, c)
    {
      forall v | IsSuffix(v, text) && HasWord(v + [c]) ensures |v| <= |w| {
        PrefixIsWord(v, c);
      }
    }

    /** A failure step skips no candidate. */
    lemma FailSkipsNothing(n: TrieNode, text: Word, c: uchar)
      requires Prepared() && n in path && n != root && !HasWord(path[n] + [c])
      requires IsSuffix(path[n], text) && NoLonger(|path[n]|, text, c)
      ensures n.fail != null && n.fail in path && |path[n.fail]| < |path[n]|
      ensures IsSuffix(path[n.fail], text) && NoLonger(|path[n.fail]|, text, c)
    {
      assert FailOf(n);
      forall v | IsSuffix(v, text) && HasWord(v + [c]) ensures |v| <= |path[n.fail]| {
        PrefixIsWord(v, c);
        assert v != path[n] && |v| < |path[n]|;
        assert IsSuffix(v, path[n][1..]);
      }
    }

    /** The node that ends the failure steps is that of the longest suffix of the longer text. */
    lemma GotoIsLongest(n: TrieNode, next: TrieNode, text: Word, c: uchar)
      requires Shaped() && n in path && next in path
      requires IsSuffix(path[n], text) && NoLonger(|path[n]|, text, c)
      requires if HasWord(path[n] + [c]) then path[next] == path[n] + [c] else n == root == next
      ensures IsLongest(path[next], text + [c]) && |path[next]| <= |path[n]| + 1
    {
      forall u | HasWord(u) && IsSuffix(u, text + [c]) ensures |u| <= |path[next]| {
        if u != [] {
          var v, w := u[..|u| - 1], text + [c];
          assert u == w[|w| - |u|..] && |u| <= |text| + 1;
          assert v == text[|text| - |v|..];
          assert u == v + [c] && IsSuffix(v, text);
          assert n == root ==> path[n] + [c] == [c];
        }
      }
    }

    lemma {:induction false} PrefixesAreWords(w: Word, k: nat)
      requires Shaped() && HasWord(w) && k <= |w|
      ensures HasWord(w[..k])
      decreases |w| - k
    {
      if k == |w| {
        assert w[..k] == w;
      } else {
        PrefixesAreWords(w, k + 1);
        assert w[..k + 1] == w[..k] + [w[k]];
        PrefixIsWord(w[..k], w[k]);
      }
    }
  }

  /** The state of a search. The ghost fields hold the text read so far and the number of times the
      failure function was followed. */
  class AcTrieState {
    const trie: Trie
    var node: TrieNode
    ghost var text: Word
    ghost var hops: nat

    constructor (trie: Trie)
      requires trie.Prepared()
      ensures this.trie == trie && text == [] && Valid()
    {
      this.trie := trie;
      node := trie.root;
      text := [];
      hops := 0;
    }

    /** The node is that of the longest suffix of the text that is a path, and every failure step
        so far is paid for by a character read. */
    ghost predicate Valid()
      reads this, trie, trie.path.Keys
    {
      && trie.Prepared() && node in trie.path && trie.IsLongest(trie.path[node], text)
      && hops + |trie.path[node]| <= |text|
    }

    /** The loop of ac_trie_next: failure steps until there is an edge for c. */
    method Follow(c: uchar) returns (next: TrieNode, ghost followed: nat)
      requires Valid()
      ensures next in trie.path && trie.IsLongest(trie.path[next], text + [c])
      ensures hops + followed + |trie.path[next]| <= |text| + 1
    {
      trie.PreparedIsShaped();
      hide Trie.Prepared, Trie.Shaped, Trie.IsLongest, Trie.NoLonger, Trie.HasWord, IsSuffix;
      var n := node;
      trie.LongestIsBound(trie.path[n], text, c);
      followed := 0;
      var found := trie.Goto(n, c);
      while found == null
        invariant n in trie.path && hops + followed + |trie.path[n]| <= |text|
        invariant IsSuffix(trie.path[n], text) && trie.NoLonger(|trie.path[n]|, text, c)
        invariant found != null ==> found in trie.path
        invariant if trie.HasWord(trie.path[n] + [c]) then found != null && trie.path[found] == trie.path[n] + [c]
                  else found == if n == trie.root then n else null
        decreases |trie.path[n]|
      {
        trie.FailSkipsNothing(n, text, c);
        n := n.fail;
        followed := followed + 1;
        found := trie.Goto(n, c);
      }
      next := found;
      trie.GotoIsLongest(n, next, text, c);
    }

    /** ac_trie_next: one character. */
    method Next(c: uchar) returns (length: int)
      requires Valid()
      modifies this
      ensures Valid() && text == old(text) + [c] && length == node.leaf
    {
      hide Trie.Prepared, Trie.IsLongest;
      ghost var followed: nat;
      var next;
      next, followed := Follow(c);
      node := next;
      text := text + [c];
      hops := hops + followed;
      length := node.leaf;
    }

    /** Where the automaton stands after a whole key tells whether the key is stored. */
    lemma SearchIsRun(key: Word)
      requires Valid() && text == key != [] && trie.LeavesAreDepths()
      ensures trie.Stored(key) <==> node.leaf == |key|
    {
      if trie.Stored(key) {
        var n :| n in trie.path && trie.path[n] == key && n.leaf > 0;
        assert IsSuffix(key, text) && trie.HasWord(key);
        assert trie.path[node] == key;
        trie.SameWord(n, node);
      }
      if node.leaf == |key| {
        assert trie.path[node] == key;
      }
    }

    /** What the automaton holds is determined by the text alone. */
    lemma NodeIsDetermined(other: AcTrieState)
      requires Valid() && other.Valid() && other.trie == trie && other.text == text
      ensures other.node == node
    {
      trie.SameWord(node, other.node);
    }
  }
}
