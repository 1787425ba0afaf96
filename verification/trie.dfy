/** The character trie used for completion (`TrieNode` and `Trie`): every
    node maps characters to child nodes, a stored string is a path from the
    root, and only paths that end at a childless node (a leaf) are reported.

    Rust's `HashMap<char, TrieNode>` becomes a Dafny `map`; the in-place
    updates of `add` and `delete` become functions returning the new node. */
module CharTrie {
  import opened Results

  datatype Node = Node(children: map<char, Node>)

  /** `TrieNode::new`. */
  const Empty := Node(map[])

  predicate IsLeaf(n: Node) {
    n.children == map[]
  }

  predicate IsPrefix(p: string, s: string) {
    |p| <= |s| && s[..|p|] == p
  }

  predicate IsStrictPrefix(p: string, s: string) {
    |p| < |s| && s[..|p|] == p
  }

  /** `TrieNode::find`: the node reached by following `s` from `n`. */
  function Find(n: Node, s: string): Option<Node>
    decreases |s|
  {
    if s == [] then Some(n)
    else if s[0] in n.children then Find(n.children[s[0]], s[1..])
    else None
  }

  /** `s` leads from `n` to a leaf: the strings the trie reports. */
  predicate IsLeafPath(n: Node, s: string)
    decreases |s|
  {
    if s == [] then IsLeaf(n)
    else s[0] in n.children && IsLeafPath(n.children[s[0]], s[1..])
  }

  /** `TrieNode::add`: walk `s`, creating the missing children and reusing
      the existing ones. */
  function AddPath(n: Node, s: string): (r: Node)
    ensures s != [] ==> s[0] in r.children
    ensures r.children.Keys == n.children.Keys + (if s == [] then {} else {s[0]})
    decreases |s|
  {
    if s == [] then n
    else
      var child := if s[0] in n.children then n.children[s[0]] else Empty;
      Node(n.children[s[0] := AddPath(child, s[1..])])
  }

  /** `TrieNode::delete`'s inner `_delete`: the node after deleting `s` below
      it, and whether the caller should consider it removed.  A child is
      dropped only when the deletion below it succeeded and left it with no
      children; the recursion may have pruned the child even when it reports
      false. */
  function DeletePath(n: Node, s: string): (r: (Node, bool))
    ensures r.0.children.Keys <= n.children.Keys
    decreases |s|
  {
    if s == [] then (n, IsLeaf(n))
    else if s[0] !in n.children then (n, false)
    else
      var (child, removed) := DeletePath(n.children[s[0]], s[1..]);
      if removed && IsLeaf(child) then (Node(n.children - {s[0]}), true)
      else (Node(n.children[s[0] := child]), false)
  }

  /** `TrieNode::get_all_chars`: the paths from `n` to its leaves; a
      childless node contributes the empty path. */
  function GetAllChars(n: Node): set<string>
    decreases n
  {
    if IsLeaf(n) then {[]}
    else set c, p | c in n.children && p in GetAllChars(n.children[c]) :: [c] + p
  }

  /** `TrieNode::extract`: `None` for an empty prefix on a childless node or
      for a prefix that is not a path, otherwise `s` followed by every path
      from its node to a leaf. */
  function NodeExtract(n: Node, s: string): (r: Option<set<string>>)
    ensures r.Some? <==> Find(n, s).Some? && !(s == [] && IsLeaf(n))
  {
    if s == [] && IsLeaf(n) then None
    else
      match Find(n, s)
      case None => None
      case Some(m) => Some(set q | q in GetAllChars(m) :: s + q)
  }

  datatype Trie = Trie(root: Node)

  /** `Trie::new`. */
  const NewTrie := Trie(Empty)

  /** `Trie::add`. */
  function TrieAdd(t: Trie, s: string): Trie {
    Trie(AddPath(t.root, s))
  }

  /** `Trie::delete`: the root is never removed, whatever `_delete` reports. */
  function TrieDelete(t: Trie, s: string): Trie {
    Trie(DeletePath(t.root, s).0)
  }

  /** `Trie::extract`, which repeats the empty-trie check before delegating. */
  function TrieExtract(t: Trie, s: string): Option<set<string>> {
    if s == [] && IsLeaf(t.root) then None else NodeExtract(t.root, s)
  }

  /** `Trie::from(&str)`, through `TrieNode::from`: a new node with `s`
      added. */
  function TrieFrom(s: string): Trie {
    Trie(AddPath(Empty, s))
  }

  // ---------------------------------------------------------------------
  // Paths

  /** Following `p` and then `q` is following `p + q`. */
  lemma {:induction false} FindConcat(n: Node, p: string, q: string)
    ensures Find(n, p + q) == match Find(n, p)
                              case None => None
                              case Some(m) => Find(m, q)
    decreases |p|
  {
    if p == [] {
      assert p + q == q;
    } else {
      assert (p + q)[0] == p[0];
      assert (p + q)[1..] == p[1..] + q;
      if p[0] in n.children {
        FindConcat(n.children[p[0]], p[1..], q);
      }
    }
  }

  /** A leaf path through `p` is a leaf path from the node `p` reaches. */
  lemma {:induction false} LeafPathConcat(n: Node, p: string, q: string)
    ensures IsLeafPath(n, p + q) <==> Find(n, p).Some? && IsLeafPath(Find(n, p).value, q)
    decreases |p|
  {
    if p == [] {
      assert p + q == q;
    } else {
      assert (p + q)[0] == p[0];
      assert (p + q)[1..] == p[1..] + q;
      if p[0] in n.children {
        LeafPathConcat(n.children[p[0]], p[1..], q);
      }
    }
  }

  /** `get_all_chars` collects exactly the leaf paths. */
  lemma {:induction false} GetAllCharsSpec(n: Node, s: string)
    ensures s in GetAllChars(n) <==> IsLeafPath(n, s)
    decreases n
  {
    if !IsLeaf(n) && s != [] && s[0] in n.children {
      GetAllCharsSpec(n.children[s[0]], s[1..]);
      assert s == [s[0]] + s[1..];
    }
  }

  // ---------------------------------------------------------------------
  // add

  /** After `add(s)` every prefix of `s`, the empty one included, is a
      path. */
  lemma {:induction false} FindAfterAdd(n: Node, s: string, k: nat)
    requires k <= |s|
    ensures Find(AddPath(n, s), s[..k]).Some?
    decreases |s|
  {
    if k > 0 {
      var child := if s[0] in n.children then n.children[s[0]] else Empty;
      FindAfterAdd(child, s[1..], k - 1);
      assert s[..k][1..] == s[1..][..k - 1];
    }
  }

  /** `add` reuses the node a path already leads to, and otherwise ends at a
      fresh childless node. */
  lemma {:induction false} AddReuses(n: Node, s: string)
    ensures Find(AddPath(n, s), s) == Some(if Find(n, s).Some? then Find(n, s).value else Empty)
    decreases |s|
  {
    if s != [] {
      var child := if s[0] in n.children then n.children[s[0]] else Empty;
      AddReuses(child, s[1..]);
      if s[0] !in n.children {
        EmptyFind(s[1..]);
      }
    }
  }

  /** From a childless node only the empty path leads anywhere. */
  lemma EmptyFind(s: string)
    ensures Find(Empty, s) == if s == [] then Some(Empty) else None
  {
  }

  /** Adding a string twice is adding it once. */
  lemma {:induction false} AddIdempotent(n: Node, s: string)
    ensures AddPath(AddPath(n, s), s) == AddPath(n, s)
    decreases |s|
  {
    if s != [] {
      var child := if s[0] in n.children then n.children[s[0]] else Empty;
      AddIdempotent(child, s[1..]);
      var once := AddPath(n, s);
      assert once.children[s[0]] == AddPath(child, s[1..]);
      assert once.children[s[0] := AddPath(once.children[s[0]], s[1..])] == once.children;
    }
  }

  /** Two non-empty strings with the same head and tail are equal. */
  lemma ConsEq(t: string, s: string)
    requires t != [] && s != [] && t[0] == s[0]
    ensures t == s <==> t[1..] == s[1..]
  {
    if t[1..] == s[1..] {
      assert t == [t[0]] + t[1..] && s == [s[0]] + s[1..];
    }
  }

  lemma StrictPrefixStep(t: string, s: string)
    requires t != [] && s != [] && t[0] == s[0]
    ensures IsStrictPrefix(t, s) <==> IsStrictPrefix(t[1..], s[1..])
  {
    if IsStrictPrefix(t[1..], s[1..]) {
      assert s[..|t|] == [s[0]] + s[1..][..|t| - 1];
      assert t == [t[0]] + t[1..];
    }
    if IsStrictPrefix(t, s) {
      assert s[1..][..|t| - 1] == s[..|t|][1..];
    }
  }

  /** The leaves after `add(s)`: `s` is one exactly when it ends at a new or
      childless node, and an earlier leaf stays one unless `s` extends it. */
  lemma {:induction false} LeafAfterAdd(n: Node, s: string, t: string)
    ensures IsLeafPath(AddPath(n, s), t) <==>
      if t == s then Find(n, s).None? || IsLeaf(Find(n, s).value)
      else IsLeafPath(n, t) && !IsStrictPrefix(t, s)
    decreases |s|
  {
    if s != [] && t != [] && t[0] == s[0] {
      var child := if s[0] in n.children then n.children[s[0]] else Empty;
      LeafAfterAdd(child, s[1..], t[1..]);
      StrictPrefixStep(t, s);
      EmptyFind(s[1..]);
      ConsEq(t, s);
    }
  }

  /** `Trie::from(s)` stores `s` and nothing else. */
  lemma FromStoresOnly(s: string, t: string)
    ensures IsLeafPath(TrieFrom(s).root, t) <==> t == s
  {
    LeafAfterAdd(Empty, s, t);
    EmptyFind(s);
  }

  /** A single chain of nodes spelling `s`. */
  function Chain(s: string): (r: Node)
    ensures IsLeafPath(r, s)
    decreases |s|
  {
    if s == [] then Empty else Node(map[s[0] := Chain(s[1..])])
  }

  /** `Trie::from(s)` is the chain of `s`, as the `abc` tree is built by
      hand. */
  lemma {:induction false} FromIsChain(s: string)
    ensures TrieFrom(s) == Trie(Chain(s))
    decreases |s|
  {
    if s != [] {
      FromIsChain(s[1..]);
      assert Empty.children[s[0] := Chain(s[1..])] == map[s[0] := Chain(s[1..])];
    }
  }

  // ---------------------------------------------------------------------
  // extract

  /** `extract(p)` is `None` exactly when `p` is not a path, or when it is
      empty and the trie is empty. */
  lemma ExtractNone(t: Trie, p: string)
    ensures TrieExtract(t, p).None? <==> Find(t.root, p).None? || (p == [] && IsLeaf(t.root))
  {
  }

  /** Every extracted string starts with `p` and is a stored leaf path, and
      every stored leaf path starting with `p` is extracted. */
  lemma ExtractSpec(t: Trie, p: string, w: string)
    requires TrieExtract(t, p).Some?
    ensures w in TrieExtract(t, p).value <==> IsPrefix(p, w) && IsLeafPath(t.root, w)
  {
    var m := Find(t.root, p).value;
    var found := TrieExtract(t, p).value;
    assert found == set q | q in GetAllChars(m) :: p + q;
    if w in found {
      var q :| q in GetAllChars(m) && w == p + q;
      GetAllCharsSpec(m, q);
      LeafPathConcat(t.root, p, q);
      assert w[..|p|] == p;
    }
    if IsPrefix(p, w) && IsLeafPath(t.root, w) {
      var q := w[|p|..];
      assert w == p + q;
      LeafPathConcat(t.root, p, q);
      GetAllCharsSpec(m, q);
    }
  }

  // ---------------------------------------------------------------------
  // delete

  /** Deleting the empty string or a string that does not end at a leaf
      (a proper prefix, a longer string, an absent one) changes nothing. */
  lemma {:induction false} DeleteNonLeafNoOp(n: Node, s: string)
    requires s == [] || !IsLeafPath(n, s)
    ensures DeletePath(n, s) == (n, s == [] && IsLeaf(n))
    decreases |s|
  {
    if s != [] && s[0] in n.children {
      var child := n.children[s[0]];
      DeleteNonLeafNoOp(child, s[1..]);
      if s[1..] == [] {
        assert !IsLeaf(child);
      }
      assert n.children[s[0] := child] == n.children;
    }
  }

  /** Below a childless node only the empty path leads to a leaf. */
  lemma LeafOnlyEmpty(n: Node, u: string)
    requires IsLeaf(n)
    ensures IsLeafPath(n, u) <==> u == []
  {
  }

  /** Deleting a stored string removes it and every node it alone kept
      alive: its own path disappears, no other non-empty string gains or
      loses its leaf, and the caller is told to drop this node's child
      exactly when the node lost it. */
  lemma {:induction false} DeleteLeaf(n: Node, s: string, t: string)
    requires s != [] && IsLeafPath(n, s)
    ensures var (r, removed) := DeletePath(n, s);
      && Find(r, s).None?
      && (t != [] ==> (IsLeafPath(r, t) <==> IsLeafPath(n, t) && t != s))
      && (removed ==> r.children == n.children - {s[0]})
      && (!removed ==> !IsLeaf(r))
    decreases |s|
  {
    var c := s[0];
    var child := n.children[c];
    var (cr, cremoved) := DeletePath(child, s[1..]);
    if s[1..] == [] {
      assert IsLeaf(child);
      if t != [] && t[0] == c {
        LeafOnlyEmpty(child, t[1..]);
        assert t == [c] + t[1..];
      }
    } else {
      DeleteLeaf(child, s[1..], if t != [] then t[1..] else []);
      if t != [] && t[0] == c {
        assert t == [c] + t[1..];
        assert s == [c] + s[1..];
        if t[1..] == [] {
          assert !IsLeaf(child) by { assert s[1..][0] in child.children; }
        } else if IsLeaf(cr) {
          LeafOnlyEmpty(cr, t[1..]);
        }
      }
    }
  }

  /** At the level of the whole trie: deleting a stored string leaves every
      other stored string in place and `s` unreachable. */
  lemma TrieDeleteSpec(tr: Trie, s: string, t: string)
    requires s != [] && IsLeafPath(tr.root, s)
    ensures Find(TrieDelete(tr, s).root, s).None?
    ensures t != [] ==> (IsLeafPath(TrieDelete(tr, s).root, t) <==> IsLeafPath(tr.root, t) && t != s)
  {
    DeleteLeaf(tr.root, s, t);
  }
}
