/**
 * The trend index: an unbalanced binary search tree keyed by date, built
 * fresh for one trend query and read back once by an in-order traversal
 * (bst.py). Dates are modelled as integers (any total order would do) and
 * the per-day totals as exact reals.
 *
 * The pure part below (Tree, InsertT, Inorder, ...) is the specification;
 * the classes Node and BST are the pointer structure that bst.py mutates,
 * and each of their methods is proved against that specification.
 */
module TrendIndex {

  /** One element of the traversal result: `{"date": ..., "total_em": ...}`. */
  datatype Entry = Entry(date: int, totalEm: real)

  /** The abstract shape of a (sub)tree. */
  datatype Tree = Leaf | Branch(left: Tree, date: int, value: real, right: Tree)

  function Keys(t: Tree): set<int>
  {
    match t
    case Leaf => {}
    case Branch(l, d, _, r) => Keys(l) + {d} + Keys(r)
  }

  function Size(t: Tree): nat
  {
    match t
    case Leaf => 0
    case Branch(l, _, _, r) => Size(l) + 1 + Size(r)
  }

  /** The search-tree ordering: smaller dates to the left, larger to the right. */
  ghost predicate SearchTree(t: Tree)
  {
    match t
    case Leaf => true
    case Branch(l, d, _, r) =>
      (forall k | k in Keys(l) :: k < d) &&
      (forall k | k in Keys(r) :: d < k) &&
      SearchTree(l) && SearchTree(r)
  }

  /** The dates and values stored in the tree, as a dictionary. */
  function ToMap(t: Tree): map<int, real>
  {
    match t
    case Leaf => map[]
    case Branch(l, d, v, r) => (ToMap(l) + ToMap(r))[d := v]
  }

  /** Whether the walk that insert performs ends at a node holding `d`. */
  predicate Contains(t: Tree, d: int)
  {
    match t
    case Leaf => false
    case Branch(l, k, _, r) =>
      if d < k then Contains(l, d) else if d > k then Contains(r, d) else true
  }

  /** What insert and its recursive helper do to the tree's shape: walk down,
      and either hang a new leaf node on the empty slot reached or, on an
      equal date, do nothing. */
  function InsertT(t: Tree, d: int, v: real): Tree
  {
    match t
    case Leaf => Branch(Leaf, d, v, Leaf)
    case Branch(l, k, w, r) =>
      if d < k then Branch(InsertT(l, d, v), k, w, r)
      else if d > k then Branch(l, k, w, InsertT(r, d, v))
      else t
  }

  /** Left subtree, node, right subtree. */
  function Inorder(t: Tree): seq<Entry>
  {
    match t
    case Leaf => []
    case Branch(l, d, v, r) => Inorder(l) + [Entry(d, v)] + Inorder(r)
  }

  predicate StrictlyAscending(s: seq<Entry>)
  {
    forall i, j | 0 <= i < j < |s| :: s[i].date < s[j].date
  }

  /** `u` keeps every node of `t` in place, with its date and value; it may
      only have grown new nodes where `t` had an empty slot. */
  predicate Extends(t: Tree, u: Tree)
  {
    match t
    case Leaf => true
    case Branch(l, d, v, r) =>
      u.Branch? && u.date == d && u.value == v && Extends(l, u.left) && Extends(r, u.right)
  }

  // ---------------------------------------------------------------------
  // Properties of insert

  lemma {:induction false} InsertKeys(t: Tree, d: int, v: real)
    ensures Keys(InsertT(t, d, v)) == Keys(t) + {d}
  {
    match t
    case Leaf =>
    case Branch(l, k, w, r) =>
      if d < k { InsertKeys(l, d, v); }
      else if d > k { InsertKeys(r, d, v); }
  }

  lemma {:induction false} InsertPreservesSearchTree(t: Tree, d: int, v: real)
    requires SearchTree(t)
    ensures SearchTree(InsertT(t, d, v))
  {
    match t
    case Leaf =>
    case Branch(l, k, w, r) =>
      if d < k {
        InsertPreservesSearchTree(l, d, v);
        InsertKeys(l, d, v);
      } else if d > k {
        InsertPreservesSearchTree(r, d, v);
        InsertKeys(r, d, v);
      }
  }

  /** In an ordered tree the insert walk finds a date exactly when it is stored. */
  lemma {:induction false} ContainsIsMembership(t: Tree, d: int)
    requires SearchTree(t)
    ensures Contains(t, d) <==> d in Keys(t)
  {
    match t
    case Leaf =>
    case Branch(l, k, _, r) =>
      ContainsIsMembership(l, d);
      ContainsIsMembership(r, d);
  }

  /** A date already present: the tree is unchanged, the first value stays. */
  lemma DuplicateInsertIsNoOp(t: Tree, d: int, v: real)
    requires SearchTree(t) && d in Keys(t)
    ensures InsertT(t, d, v) == t
  {
    ContainsIsMembership(t, d);
    ContainsMeansNoOp(t, d, v);
  }

  lemma {:induction false} ContainsMeansNoOp(t: Tree, d: int, v: real)
    requires Contains(t, d)
    ensures InsertT(t, d, v) == t
  {
    match t
    case Branch(l, k, _, r) =>
      if d < k { ContainsMeansNoOp(l, d, v); }
      else if d > k { ContainsMeansNoOp(r, d, v); }
  }

  lemma {:induction false} KeysOfMap(t: Tree)
    ensures ToMap(t).Keys == Keys(t)
  {
    match t
    case Leaf =>
    case Branch(l, _, _, r) =>
      KeysOfMap(l);
      KeysOfMap(r);
  }

  /** The key/value view of insert: a new date is added with its value, and
      every date already stored keeps its value. */
  lemma {:induction false} InsertMap(t: Tree, d: int, v: real)
    requires SearchTree(t)
    ensures ToMap(InsertT(t, d, v)) == if d in Keys(t) then ToMap(t) else ToMap(t)[d := v]
  {
    match t
    case Leaf =>
    case Branch(l, k, w, r) =>
      if d < k {
        InsertMap(l, d, v);
        if d !in Keys(l) {
          KeysOfMap(r);
          UpdateLeftPart(ToMap(l), ToMap(r), d, v, k, w);
        }
      } else if d > k {
        InsertMap(r, d, v);
        if d !in Keys(r) {
          UpdateRightPart(ToMap(l), ToMap(r), d, v, k, w);
        }
      }
  }

  lemma UpdateLeftPart(a: map<int, real>, b: map<int, real>, d: int, v: real, k: int, w: real)
    requires d != k && d !in b
    ensures (a[d := v] + b)[k := w] == (a + b)[k := w][d := v]
  {
  }

  lemma UpdateRightPart(a: map<int, real>, b: map<int, real>, d: int, v: real, k: int, w: real)
    requires d != k
    ensures (a + b[d := v])[k := w] == (a + b)[k := w][d := v]
  {
  }

  /** Insert leaves every existing node as it was and adds at most one node:
      exactly one when the date is new. */
  lemma {:induction false} InsertExtends(t: Tree, d: int, v: real)
    ensures Extends(t, InsertT(t, d, v))
    ensures Size(InsertT(t, d, v)) == if Contains(t, d) then Size(t) else Size(t) + 1
  {
    match t
    case Leaf =>
    case Branch(l, k, w, r) =>
      if d < k { InsertExtends(l, d, v); ExtendsReflexive(r); }
      else if d > k { InsertExtends(r, d, v); ExtendsReflexive(l); }
      else { ExtendsReflexive(t); }
  }

  lemma {:induction false} ExtendsReflexive(t: Tree)
    ensures Extends(t, t)
  {
    match t
    case Leaf =>
    case Branch(l, _, _, r) =>
      ExtendsReflexive(l);
      ExtendsReflexive(r);
  }

  /** The first insert into an empty tree makes a root with no children. */
  lemma FirstInsert(d: int, v: real)
    ensures InsertT(Leaf, d, v) == Branch(Leaf, d, v, Leaf)
    ensures Inorder(InsertT(Leaf, d, v)) == [Entry(d, v)]
  {
  }

  // ---------------------------------------------------------------------
  // Properties of the traversal

  /** The traversal has one entry per node, and one node per stored date. */
  lemma {:induction false} InorderLength(t: Tree)
    requires SearchTree(t)
    ensures |Inorder(t)| == Size(t) == |Keys(t)|
  {
    match t
    case Leaf =>
    case Branch(l, d, v, r) =>
      InorderLength(l);
      InorderLength(r);
      assert d !in Keys(l) && d !in Keys(r);
      forall x | x in Keys(l) ensures x !in Keys(r) {
        assert x < d;
      }
      assert |Keys(l) + {d}| == |Keys(l)| + 1;
      assert Keys(l) + {d} !! Keys(r);
  }

  /** The traversal lists only stored dates. */
  lemma {:induction false} InorderDates(t: Tree)
    ensures forall i | 0 <= i < |Inorder(t)| :: Inorder(t)[i].date in Keys(t)
  {
    match t
    case Leaf =>
    case Branch(l, d, v, r) =>
      InorderDates(l);
      InorderDates(r);
      var s, sl, sr := Inorder(t), Inorder(l), Inorder(r);
      forall i | 0 <= i < |s| ensures s[i].date in Keys(t) {
        if i < |sl| { assert s[i] == sl[i]; }
        else if i > |sl| { assert s[i] == sr[i - |sl| - 1]; }
      }
  }

  /** In an ordered tree the traversal comes out strictly ascending by date. */
  lemma {:induction false} InorderAscending(t: Tree)
    requires SearchTree(t)
    ensures StrictlyAscending(Inorder(t))
  {
    match t
    case Leaf =>
    case Branch(l, d, v, r) =>
      InorderAscending(l);
      InorderAscending(r);
      InorderDates(l);
      InorderDates(r);
      var s, sl, sr := Inorder(t), Inorder(l), Inorder(r);
      forall i, j | 0 <= i < j < |s| ensures s[i].date < s[j].date {
        if j < |sl| {
          assert s[i] == sl[i] && s[j] == sl[j];
        } else if i > |sl| {
          assert s[i] == sr[i - |sl| - 1] && s[j] == sr[j - |sl| - 1];
        } else if i < |sl| {
          assert s[i] == sl[i];
          if j > |sl| { assert s[j] == sr[j - |sl| - 1]; }
        } else {
          assert s[j] == sr[j - |sl| - 1];
        }
      }
  }

  /** Every traversal entry is a stored date with its stored value, and every
      stored date appears. */
  lemma {:induction false} InorderMatchesMap(t: Tree)
    requires SearchTree(t)
    ensures forall e :: e in Inorder(t) <==> e.date in ToMap(t) && ToMap(t)[e.date] == e.totalEm
  {
    match t
    case Leaf =>
    case Branch(l, d, v, r) =>
      InorderMatchesMap(l);
      InorderMatchesMap(r);
      KeysOfMap(l);
      KeysOfMap(r);
  }

  // ---------------------------------------------------------------------
  // A whole trend query: the rows inserted in fetch order

  /** The tree after inserting `rows` one after the other into an empty tree. */
  function BuildTree(rows: seq<Entry>): Tree
  {
    if rows == [] then Leaf
    else InsertT(BuildTree(rows[..|rows| - 1]), rows[|rows| - 1].date, rows[|rows| - 1].totalEm)
  }

  /** For every date among `rows`, the value of its first row. */
  function FirstValues(rows: seq<Entry>): map<int, real>
  {
    if rows == [] then map[]
    else
      var m := FirstValues(rows[..|rows| - 1]);
      var last := rows[|rows| - 1];
      if last.date in m then m else m[last.date := last.totalEm]
  }

  /** Inserting any sequence of rows yields an ordered tree holding, for each
      distinct date, the value of the first row with that date. */
  lemma {:induction false} BuildTreeKeepsFirst(rows: seq<Entry>)
    ensures SearchTree(BuildTree(rows))
    ensures ToMap(BuildTree(rows)) == FirstValues(rows)
  {
    if rows != [] {
      var init := rows[..|rows| - 1];
      var last := rows[|rows| - 1];
      BuildTreeKeepsFirst(init);
      InsertPreservesSearchTree(BuildTree(init), last.date, last.totalEm);
      InsertMap(BuildTree(init), last.date, last.totalEm);
      KeysOfMap(BuildTree(init));
    }
  }

  // ---------------------------------------------------------------------
  // The pointer structure

  class Node {
    var date: int
    var value: real
    var left: Node?
    var right: Node?
    ghost var Contents: Tree
    ghost var Repr: set<object>

    ghost predicate Valid()
      reads this, Repr
      decreases Repr
    {
      this in Repr &&
      (left != null ==>
        left in Repr && left.Repr <= Repr && this !in left.Repr && left.Valid()) &&
      (right != null ==>
        right in Repr && right.Repr <= Repr && this !in right.Repr && right.Valid()) &&
      (left != null && right != null ==> left.Repr !! right.Repr) &&
      Contents == Branch(ChildContents(left), date, value, ChildContents(right))
    }

    /** A fresh node with no children. */
    constructor (date: int, value: real)
      ensures Valid() && Repr == {this}
      ensures this.date == date && this.value == value && left == null && right == null
      ensures Contents == Branch(Leaf, date, value, Leaf)
    {
      this.date := date;
      this.value := value;
      left := null;
      right := null;
      Contents := Branch(Leaf, date, value, Leaf);
      Repr := {this};
    }
  }

  ghost function ChildContents(n: Node?): Tree
    reads n
  {
    if n == null then Leaf else n.Contents
  }

  class BST {
    var root: Node?
    ghost var Contents: Tree
    ghost var Repr: set<object>

    ghost predicate Valid()
      reads this, Repr
    {
      this in Repr &&
      (root != null ==>
        root in Repr && root.Repr <= Repr && this !in root.Repr && root.Valid()) &&
      Contents == ChildContents(root) &&
      SearchTree(Contents)
    }

    /** An empty tree. */
    constructor ()
      ensures Valid() && fresh(Repr)
      ensures Contents == Leaf
    {
      root := null;
      Contents := Leaf;
      Repr := {this};
    }

    method Insert(date: int, value: real)
      requires Valid()
      modifies Repr
      ensures Valid() && fresh(Repr - old(Repr))
      ensures Contents == InsertT(old(Contents), date, value)
    {
      var newNode := new Node(date, value);
      if root == null {
        root := newNode;
        Repr := Repr + {newNode};
      } else {
        InsertRecursive(root, newNode);
        Repr := Repr + root.Repr;
      }
      InsertPreservesSearchTree(Contents, date, value);
      Contents := InsertT(Contents, date, value);
    }

    /** Walks down from `current`; hangs `newNode` on the first empty slot on
        its side, or drops it when a node with its date is met. */
    method InsertRecursive(current: Node, newNode: Node)
      requires current.Valid()
      requires newNode.Valid() && newNode.left == null && newNode.right == null
      requires newNode.Repr == {newNode} && newNode !in current.Repr
      modifies current.Repr
      ensures current.Valid()
      ensures current.Contents == InsertT(old(current.Contents), newNode.date, newNode.value)
      ensures current.Repr ==
        old(current.Repr) + if Contains(old(current.Contents), newNode.date) then {} else {newNode}
      decreases current.Repr
    {
      if newNode.date < current.date {
        if current.left == null {
          current.left := newNode;
          current.Repr := current.Repr + {newNode};
        } else {
          InsertRecursive(current.left, newNode);
          current.Repr := current.Repr + current.left.Repr;
        }
      } else if newNode.date > current.date {
        if current.right == null {
          current.right := newNode;
          current.Repr := current.Repr + {newNode};
        } else {
          InsertRecursive(current.right, newNode);
          current.Repr := current.Repr + current.right.Repr;
        }
      }
      current.Contents := Branch(ChildContents(current.left), current.date, current.value, ChildContents(current.right));
      assert current.Valid();
    }

    /** The entries sorted by date: each stored date once, with its value. */
    method GetInorderTraversal() returns (results: seq<Entry>)
      requires Valid()
      ensures results == Inorder(Contents)
      ensures StrictlyAscending(results)
      ensures |results| == |Keys(Contents)|
      ensures forall e :: e in results <==> e.date in ToMap(Contents) && ToMap(Contents)[e.date] == e.totalEm
    {
      results := InorderRecursive(root, []);
      InorderLength(Contents);
      InorderAscending(Contents);
      InorderMatchesMap(Contents);
    }

    /** Appends the entries of the subtree at `node`, in order, to `results`. */
    method InorderRecursive(node: Node?, results: seq<Entry>) returns (extended: seq<Entry>)
      requires node != null ==> node.Valid()
      ensures extended == results + Inorder(ChildContents(node))
      decreases if node == null then {} else node.Repr
    {
      extended := results;
      if node != null {
        extended := InorderRecursive(node.left, extended);
        extended := extended + [Entry(node.date, node.value)];
        extended := InorderRecursive(node.right, extended);
      }
    }
  }

  // ---------------------------------------------------------------------
  // Uses of the tree

  /** An empty tree traverses to nothing; after one insert it traverses to
      that single entry. */
  method TraversalExamples(date: int, value: real) returns (empty: seq<Entry>, single: seq<Entry>)
    ensures empty == [] && single == [Entry(date, value)]
  {
    var tree := new BST();
    empty := tree.GetInorderTraversal();
    tree.Insert(date, value);
    FirstInsert(date, value);
    single := tree.GetInorderTraversal();
  }

  /** The trend query: each fetched row, already reduced to its date and
      total, is inserted into a fresh tree in fetch order, and the tree is
      read back in order. The result is ascending by date and holds, for
      each date, the total of its first row. */
  method Trend(rows: seq<Entry>) returns (trend: seq<Entry>)
    ensures trend == Inorder(BuildTree(rows))
    ensures StrictlyAscending(trend)
    ensures forall e :: e in trend <==> e.date in FirstValues(rows) && FirstValues(rows)[e.date] == e.totalEm
  {
    var tree := new BST();
    var i := 0;
    while i < |rows|
      invariant 0 <= i <= |rows|
      invariant tree.Valid() && fresh(tree.Repr) && tree.Contents == BuildTree(rows[..i])
      decreases |rows| - i
    {
      assert rows[..i + 1][..i] == rows[..i];
      tree.Insert(rows[i].date, rows[i].totalEm);
      i := i + 1;
    }
    assert rows[..i] == rows;
    trend := tree.GetInorderTraversal();
    BuildTreeKeepsFirst(rows);
  }
}
