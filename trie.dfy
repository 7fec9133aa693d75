/**
 * The suggestion index: a character trie whose nodes carry a list of advice
 * strings (trie.py). Keys are strings; a stored list is an immutable
 * sequence of strings.
 *
 * The abstract value of a trie is a View: every path that exists in the
 * trie, mapped to the list held by the node at the end of that path (empty
 * for a node that was only created on the way to a longer key). The class
 * Trie is proved against the functions Lookup and Store on Views.
 */
module SuggestionIndex {

  type View = map<string, seq<string>>

  /** A fresh trie: only the root, with no suggestions. */
  const EmptyView: View := map["" := []]

  /** All prefixes of `key`, from "" up to `key` itself. */
  function Prefixes(key: string): (ps: set<string>)
    ensures forall p :: p in ps <==> p <= key
  {
    assert forall p | p <= key :: p == key[..|p|];
    set j | 0 <= j <= |key| :: key[..j]
  }

  /** The parent path of every present path is present. */
  ghost predicate PrefixClosed(paths: set<string>)
  {
    forall p, c | p + [c] in paths :: p in paths
  }

  /** What a search returns: the list at the end of the path, or nothing. */
  function Lookup(v: View, key: string): seq<string>
  {
    if key in v then v[key] else []
  }

  /** The nodes that insert creates on its way down `key`: every missing
      prefix of `key`, shortest first, each with no suggestions. */
  function AddPath(v: View, key: string): View
  {
    if key == [] then (if [] in v then v else v[[] := []])
    else
      var u := AddPath(v, key[..|key| - 1]);
      if key in u then u else u[key := []]
  }

  /** What an insert does: create the missing nodes along `key` and
      overwrite the list at the last one. */
  function Store(v: View, key: string, suggestions: seq<string>): View
  {
    AddPath(v, key)[key := suggestions]
  }

  /** Walking `key` adds exactly its prefixes as paths and changes no list
      that was already there. */
  lemma {:induction false} AddPathFacts(v: View, key: string)
    ensures AddPath(v, key).Keys == v.Keys + Prefixes(key)
    ensures forall p | p in AddPath(v, key) :: AddPath(v, key)[p] == Lookup(v, p)
  {
    if key != [] {
      var init := key[..|key| - 1];
      AddPathFacts(v, init);
      forall p ensures p in Prefixes(key) <==> p in Prefixes(init) || p == key {
        if p <= key && p != key {
          assert p <= init;
        }
      }
    }
  }

  lemma AddPathStart(v: View)
    requires "" in v
    ensures AddPath(v, "") == v
  {
  }

  /** One more step of the walk: the path one character longer is created
      if it was missing. */
  lemma AddPathStep(v: View, key: string, i: nat)
    requires i < |key|
    ensures var g := AddPath(v, key[..i]);
      AddPath(v, key[..i + 1]) == if key[..i + 1] in g then g else g[key[..i + 1] := []]
  {
    assert key[..i + 1][..i] == key[..i];
  }

  // ---------------------------------------------------------------------
  // Map properties of insert and search

  /** Read-your-write, and every other key keeps what a search returned before. */
  lemma LookupStore(v: View, key: string, suggestions: seq<string>, q: string)
    ensures Lookup(Store(v, key, suggestions), q) == if q == key then suggestions else Lookup(v, q)
  {
    AddPathFacts(v, key);
  }

  /** A second insert of the same key replaces the first list; nothing is merged. */
  lemma StoreTwice(v: View, key: string, first: seq<string>, second: seq<string>)
    ensures Store(Store(v, key, first), key, second) == Store(v, key, second)
  {
    var w := Store(v, key, first);
    var lhs, rhs := Store(w, key, second), Store(v, key, second);
    AddPathFacts(v, key);
    AddPathFacts(w, key);
    assert lhs.Keys == rhs.Keys;
    forall p | p in lhs ensures lhs[p] == rhs[p] {
    }
  }

  lemma StorePrefixClosed(v: View, key: string, suggestions: seq<string>)
    requires PrefixClosed(v.Keys)
    ensures PrefixClosed(Store(v, key, suggestions).Keys)
  {
    var w := Store(v, key, suggestions);
    AddPathFacts(v, key);
    forall p, c | p + [c] in w ensures p in w {
      if p + [c] !in v {
        assert p + [c] <= key;
        assert p <= key;
      }
    }
  }

  /** In a prefix-closed set of paths, every prefix of a present path is present. */
  lemma {:induction false} PrefixOfPresent(paths: set<string>, q: string, j: nat)
    requires PrefixClosed(paths) && q in paths && j <= |q|
    ensures q[..j] in paths
    decreases |q| - j
  {
    if j < |q| {
      PrefixOfPresent(paths, q, j + 1);
      assert q[..j + 1] == q[..j] + [q[j]];
      assert q[..j] + [q[j]] in paths;
    } else {
      assert q[..j] == q;
    }
  }

  /** A missing step on the path means the whole key is missing. */
  lemma MissingStep(v: View, key: string, i: nat)
    requires PrefixClosed(v.Keys) && i < |key| && key[..i + 1] !in v
    ensures Lookup(v, key) == []
  {
    if key in v {
      PrefixOfPresent(v.Keys, key, i + 1);
    }
  }

  lemma AppendInjective(p: string, d: char, q: string, e: char)
    requires p + [d] == q + [e]
    ensures p == q && d == e
  {
    assert p == (p + [d])[..|p|];
    assert q == (q + [e])[..|q|];
    assert d == (p + [d])[|p|];
  }

  // ---------------------------------------------------------------------
  // A sequence of inserts into a fresh trie

  /** The view after inserting `ops` one after another, starting from `v`. */
  function Replay(v: View, ops: seq<(string, seq<string>)>): View
  {
    if ops == [] then v
    else Store(Replay(v, ops[..|ops| - 1]), ops[|ops| - 1].0, ops[|ops| - 1].1)
  }

  /** The view after inserting `ops` one after another into a fresh trie. */
  function Build(ops: seq<(string, seq<string>)>): View
  {
    Replay(EmptyView, ops)
  }

  /** One more insert extends the replay by one step. */
  lemma ReplayStep(v: View, ops: seq<(string, seq<string>)>, k: nat)
    requires k < |ops|
    ensures Replay(v, ops[..k + 1]) == Store(Replay(v, ops[..k]), ops[k].0, ops[k].1)
  {
    assert ops[..k + 1][..k] == ops[..k];
  }

  /** Inserting `a` and then `b` is inserting `a + b`. */
  lemma {:induction false} ReplayAppend(v: View, a: seq<(string, seq<string>)>, b: seq<(string, seq<string>)>)
    ensures Replay(v, a + b) == Replay(Replay(v, a), b)
  {
    if b == [] {
      assert a + b == a;
    } else {
      ReplayAppend(v, a, b[..|b| - 1]);
      assert (a + b)[..|a + b| - 1] == a + b[..|b| - 1];
    }
  }

  /** The list of the last insert of `key` among `ops`, or nothing. */
  function LastFor(ops: seq<(string, seq<string>)>, key: string): seq<string>
  {
    if ops == [] then []
    else if ops[|ops| - 1].0 == key then ops[|ops| - 1].1
    else LastFor(ops[..|ops| - 1], key)
  }

  /** After any sequence of inserts, a search returns the list of the last
      insert of exactly that key, and nothing for a key never inserted, even
      one whose path exists as a prefix of a longer key. */
  lemma {:induction false} LookupBuild(ops: seq<(string, seq<string>)>, key: string)
    ensures Lookup(Build(ops), key) == LastFor(ops, key)
  {
    if ops != [] {
      var init, last := ops[..|ops| - 1], ops[|ops| - 1];
      LookupBuild(init, key);
      assert Build(ops) == Store(Build(init), last.0, last.1);
      LookupStore(Build(init), last.0, last.1, key);
    }
  }

  lemma {:induction false} LastForNever(ops: seq<(string, seq<string>)>, key: string)
    requires forall i | 0 <= i < |ops| :: ops[i].0 != key
    ensures LastFor(ops, key) == []
  {
    if ops != [] {
      LastForNever(ops[..|ops| - 1], key);
    }
  }

  lemma {:induction false} LastForAt(ops: seq<(string, seq<string>)>, key: string, i: nat)
    requires i < |ops| && ops[i].0 == key
    requires forall j | i < j < |ops| :: ops[j].0 != key
    ensures LastFor(ops, key) == ops[i].1
  {
    if i < |ops| - 1 {
      LastForAt(ops[..|ops| - 1], key, i);
    }
  }

  // ---------------------------------------------------------------------
  // The pointer structure

  class TrieNode {
    var children: map<char, TrieNode>
    var suggestions: seq<string>
    /** The path from the root to this node. */
    ghost const path: string

    constructor (ghost path: string)
      ensures children == map[] && suggestions == [] && this.path == path
    {
      children := map[];
      suggestions := [];
      this.path := path;
    }
  }

  class Trie {
    var root: TrieNode
    /** The node at the end of each path that exists. */
    ghost var Paths: map<string, TrieNode>
    ghost var Repr: set<object>

    ghost predicate Valid()
      reads this, Repr
    {
      this in Repr &&
      "" in Paths && Paths[""] == root &&
      (forall p | p in Paths :: Paths[p] in Repr) &&
      (forall p | p in Paths :: Paths[p].path == p) &&
      (forall p, c {:trigger Paths[p].children[c]} | p in Paths && c in Paths[p].children ::
        p + [c] in Paths && Paths[p].children[c] == Paths[p + [c]]) &&
      (forall p, c {:trigger p + [c]} | p + [c] in Paths :: p in Paths && c in Paths[p].children)
    }

    lemma ContentsPaths()
      requires Valid()
      ensures Contents().Keys == Paths.Keys && PrefixClosed(Paths.Keys)
    {
    }

    ghost function Contents(): View
      reads this, Repr
      requires Valid()
    {
      map p | p in Paths :: Paths[p].suggestions
    }

    constructor ()
      ensures Valid() && fresh(Repr)
      ensures Contents() == EmptyView
    {
      root := new TrieNode("");
      Paths := map["" := root];
      Repr := {this, root};
    }

    /** Adds a fresh child under `node`, the node at `path`, for the
        character `c`, which `node` does not have yet. */
    method AddChild(node: TrieNode, ghost path: string, c: char) returns (child: TrieNode)
      requires Valid() && path in Paths && node == Paths[path] && c !in node.children
      modifies this, node
      ensures Valid() && fresh(child) && Repr == old(Repr) + {child} && root == old(root)
      ensures Paths == old(Paths)[path + [c] := child] && path + [c] !in old(Paths)
      ensures node.children == old(node.children)[c := child]
      ensures node.suggestions == old(node.suggestions) && child.suggestions == []
      ensures Contents() == old(Contents())[path + [c] := []]
    {
      var np := path + [c];
      assert np !in Paths;
      child := new TrieNode(np);
      Paths := Paths[np := child];
      Repr := Repr + {child};
      node.children := node.children[c := child];
      forall p, d | p + [d] == np ensures p == path && d == c {
        AppendInjective(p, d, path, c);
      }
      forall p, d {:trigger Paths[p].children[d]} | p in Paths && d in Paths[p].children
        ensures p + [d] in Paths && Paths[p].children[d] == Paths[p + [d]]
      {
        if p == path {
          if d != c {
            assert p + [d] != np;
          }
        } else if p != np {
          assert p in old(Paths) && Paths[p] == old(Paths)[p] != node;
          assert p + [d] in old(Paths);
          assert p + [d] != np;
        }
      }
      forall p, d {:trigger p + [d]} | p + [d] in Paths ensures p in Paths && d in Paths[p].children {
        if p + [d] != np {
          assert p + [d] in old(Paths);
          assert p in old(Paths) && p != np;
        }
      }
    }

    /** Walks `item` from the root, creating each missing child, and stores
        `suggestions` at the node reached. */
    method Insert(item: string, suggestions: seq<string>)
      requires Valid()
      modifies Repr
      ensures Valid() && fresh(Repr - old(Repr))
      ensures Contents() == Store(old(Contents()), item, suggestions)
      ensures root == old(root) && root.suggestions == if item == "" then suggestions else old(root.suggestions)
    {
      var node := root;
      var i := 0;
      AddPathStart(Contents());
      while i < |item|
        invariant 0 <= i <= |item|
        invariant Valid() && fresh(Repr - old(Repr)) && root == old(root)
        invariant item[..i] in Paths && node == Paths[item[..i]]
        invariant Contents() == AddPath(old(Contents()), item[..i])
        invariant root.suggestions == old(root.suggestions)
      {
        var c := item[i];
        assert item[..i + 1] == item[..i] + [c];
        AddPathStep(old(Contents()), item, i);
        if c !in node.children {
          var child := AddChild(node, item[..i], c);
        }
        node := node.children[c];
        i := i + 1;
      }
      assert item[..i] == item;
      SetSuggestions(node, item, suggestions);
    }

    /** Overwrites the list held by `node`, the node at `path`. */
    method SetSuggestions(node: TrieNode, ghost path: string, suggestions: seq<string>)
      requires Valid() && path in Paths && node == Paths[path]
      modifies node
      ensures Valid() && node.children == old(node.children)
      ensures Contents() == old(Contents())[path := suggestions]
      ensures root.suggestions == if path == "" then suggestions else old(root.suggestions)
    {
      node.suggestions := suggestions;
      forall p | p in Paths && p != path ensures Paths[p] != node {
      }
    }

    /** Walks `prefix` from the root; nothing if a step is missing, otherwise
        the list at the node reached. */
    method Search(prefix: string) returns (result: seq<string>)
      requires Valid()
      ensures result == Lookup(Contents(), prefix)
    {
      var node := root;
      var i := 0;
      while i < |prefix|
        invariant 0 <= i <= |prefix|
        invariant prefix[..i] in Paths && node == Paths[prefix[..i]]
      {
        var c := prefix[i];
        assert prefix[..i + 1] == prefix[..i] + [c];
        if c !in node.children {
          assert prefix[..i + 1] !in Paths;
          ContentsPaths();
          MissingStep(Contents(), prefix, i);
          return [];
        }
        node := node.children[c];
        i := i + 1;
      }
      assert prefix[..i] == prefix;
      return node.suggestions;
    }
  }
}
