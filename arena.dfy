/** The syntax tree as the parser builds it: a collection of node objects, each known by
    its identity (an index here), whose `body` lists hold the identities of their
    children. The runner mutates these objects in place; `Tree` reads the value tree
    that hangs from one of them. Also the invariant of the breadth-first walk of
    `ast.walk` and the lemmas that turn it into statements about `Syntax.Document`. */
module Arena {
  import opened Syntax

  /** One node object: a string-literal statement, or a node with children. Only the
      statement-level structure is kept: the context and operator objects (`Load`,
      `Store`, `Add`, ...) that CPython's `ast.parse` shares among many parents are part
      of a node's `name`, not objects of their own, which is why every object here has
      at most one parent (`SoleParent`). */
  datatype Cell = StrCell(value: string) | BlockCell(kind: Kind, name: string, body: seq<nat>)

  /** The child nodes of a node that the walk follows: its child statements, in order.
      `ast.iter_child_nodes` also yields the expression children, such as a definition's
      header (arguments, decorators, return annotation, bases) or the test of an `if`;
      here they are part of `name` and are not walked. They never hold a function or
      class definition, so the units the walk meets, and their relative order, are those
      of `ast.walk`. */
  function Kids(c: Cell): seq<nat>
  {
    if c.BlockCell? then c.body else []
  }

  predicate KidsBetween(c: Cell, lo: nat, hi: nat)
  {
    forall x :: 0 <= x < |Kids(c)| ==> lo < Kids(c)[x] < hi
  }

  /** Every child was created after its parent. */
  predicate Ordered(a: seq<Cell>)
  {
    forall i :: 0 <= i < |a| ==> KidsBetween(a[i], i, |a|)
  }

  /** No node is the child of two nodes, or twice the child of one. */
  predicate SoleParent(a: seq<Cell>)
  {
    forall i, x, j, y ::
      (0 <= i < |a| && 0 <= j < |a| && 0 <= x < |Kids(a[i])| && 0 <= y < |Kids(a[j])|
       && Kids(a[i])[x] == Kids(a[j])[y]) ==> i == j && x == y
  }

  /** What `ast.parse` returns: a tree of node objects rooted at node 0 (the module). */
  type ParsedTree = a: seq<Cell> | |a| > 0 && Ordered(a) && SoleParent(a)
    witness [BlockCell(Other, "", [])]

  predicate IsUnitCell(c: Cell)
  {
    c.BlockCell? && c.kind != Other
  }

  /** The value tree that hangs from node `i`. */
  function Tree(a: seq<Cell>, i: nat): (t: Node)
    requires Ordered(a) && i < |a|
    ensures t.Str? <==> a[i].StrCell?
    ensures IsUnit(t) <==> IsUnitCell(a[i])
    ensures t.Block? ==> |t.body| == |Kids(a[i])|
    decreases |a| - i
  {
    match a[i]
    case StrCell(v) => Str(v)
    case BlockCell(k, n, b) =>
      assert forall j :: 0 <= j < |b| ==> i < b[j] < |a| by {
        assert KidsBetween(a[i], i, |a|) && Kids(a[i]) == b;
      }
      Block(k, n, seq(|b|, j requires 0 <= j < |b| => Tree(a, b[j])))
  }

  /** The identities of the nodes that hang from node `i`, `i` included. */
  ghost function Reach(a: seq<Cell>, i: nat): set<nat>
    requires Ordered(a) && i < |a|
    decreases |a| - i
  {
    assert KidsBetween(a[i], i, |a|);
    {i} + (set j, x | 0 <= j < |Kids(a[i])| && x in Reach(a, Kids(a[i])[j]) :: x)
  }

  lemma {:induction false} ReachBounds(a: seq<Cell>, i: nat)
    requires Ordered(a) && i < |a|
    ensures forall x :: x in Reach(a, i) ==> i <= x < |a|
    decreases |a| - i
  {
    assert KidsBetween(a[i], i, |a|);
    forall j | 0 <= j < |Kids(a[i])| {
      ReachBounds(a, Kids(a[i])[j]);
    }
  }

  lemma KidInReach(a: seq<Cell>, i: nat, j: nat)
    requires Ordered(a) && i < |a| && j < |Kids(a[i])|
    ensures Kids(a[i])[j] < |a| && Kids(a[i])[j] in Reach(a, i)
  {
    assert KidsBetween(a[i], i, |a|);
    var k := Kids(a[i])[j];
    assert k in Reach(a, k);
  }

  /** Whatever hangs from a node that hangs from `r` also hangs from `r`. */
  lemma {:induction false} ReachTrans(a: seq<Cell>, r: nat, u: nat)
    requires Ordered(a) && r < |a| && u in Reach(a, r)
    ensures u < |a| && Reach(a, u) <= Reach(a, r)
    decreases |a| - r
  {
    ReachBounds(a, r);
    assert KidsBetween(a[r], r, |a|);
    if u != r {
      var j :| 0 <= j < |Kids(a[r])| && u in Reach(a, Kids(a[r])[j]);
      ReachTrans(a, Kids(a[r])[j], u);
    }
  }

  /** A set of nodes that holds the children of each of its members. */
  ghost predicate Closed(a: seq<Cell>, d: set<nat>)
  {
    forall i :: i in d ==> i < |a| && forall x :: 0 <= x < |Kids(a[i])| ==> Kids(a[i])[x] in d
  }

  lemma {:induction false} ReachClosed(a: seq<Cell>, r: nat, d: set<nat>)
    requires Ordered(a) && r < |a| && r in d && Closed(a, d)
    ensures Reach(a, r) <= d
    decreases |a| - r
  {
    assert KidsBetween(a[r], r, |a|);
    forall j | 0 <= j < |Kids(a[r])| {
      ReachClosed(a, Kids(a[r])[j], d);
    }
  }

  /** The children of the value tree at `i` are the value trees at its children. */
  lemma TreeKids(a: seq<Cell>, i: nat)
    requires Ordered(a) && i < |a| && a[i].BlockCell?
    ensures forall j :: 0 <= j < |Kids(a[i])| ==>
      Kids(a[i])[j] < |a| && Tree(a, i).body[j] == Tree(a, Kids(a[i])[j])
  {
    assert KidsBetween(a[i], i, |a|);
  }

  /** Some node hanging from `r` has property `p`. */
  ghost predicate SomeBelow(a: seq<Cell>, r: nat, p: Node -> bool)
    requires Ordered(a) && r < |a|
  {
    exists i :: i in Reach(a, r) && i < |a| && p(Tree(a, i))
  }

  lemma SomeBelowUnfold(a: seq<Cell>, r: nat, p: Node -> bool)
    requires Ordered(a) && r < |a|
    ensures KidsBetween(a[r], r, |a|)
    ensures SomeBelow(a, r, p) <==>
      p(Tree(a, r)) || exists j :: 0 <= j < |Kids(a[r])| && SomeBelow(a, Kids(a[r])[j], p)
  {
    assert KidsBetween(a[r], r, |a|);
    if SomeBelow(a, r, p) && !p(Tree(a, r)) {
      SomeBelowKid(a, r, p);
    }
    if exists j :: 0 <= j < |Kids(a[r])| && SomeBelow(a, Kids(a[r])[j], p) {
      var j :| 0 <= j < |Kids(a[r])| && SomeBelow(a, Kids(a[r])[j], p);
      SomeBelowParent(a, r, j, p);
    }
    assert r in Reach(a, r);
  }

  /** A node with property `p` hanging from `r`, other than `r`, hangs from a child of `r`. */
  lemma SomeBelowKid(a: seq<Cell>, r: nat, p: Node -> bool)
    requires Ordered(a) && r < |a| && SomeBelow(a, r, p) && !p(Tree(a, r))
    ensures KidsBetween(a[r], r, |a|)
    ensures exists j :: 0 <= j < |Kids(a[r])| && SomeBelow(a, Kids(a[r])[j], p)
  {
    assert KidsBetween(a[r], r, |a|);
    var i :| i in Reach(a, r) && i < |a| && p(Tree(a, i));
    ReachBelow(a, r, i);
    var j :| 0 <= j < |Kids(a[r])| && i in Reach(a, Kids(a[r])[j]);
    assert SomeBelow(a, Kids(a[r])[j], p);
  }

  /** A node hanging from `r`, other than `r`, hangs from a child of `r`. */
  lemma ReachBelow(a: seq<Cell>, r: nat, i: nat)
    requires Ordered(a) && r < |a| && i in Reach(a, r) && i != r
    ensures KidsBetween(a[r], r, |a|)
    ensures exists j :: 0 <= j < |Kids(a[r])| && i in Reach(a, Kids(a[r])[j])
  {
    assert KidsBetween(a[r], r, |a|);
  }

  /** A node with property `p` hanging from a child of `r` hangs from `r`. */
  lemma SomeBelowParent(a: seq<Cell>, r: nat, j: nat, p: Node -> bool)
    requires Ordered(a) && r < |a| && j < |Kids(a[r])|
    requires KidsBetween(a[r], r, |a|) && SomeBelow(a, Kids(a[r])[j], p)
    ensures SomeBelow(a, r, p)
  {
    var i :| i in Reach(a, Kids(a[r])[j]) && i < |a| && p(Tree(a, i));
    assert i in Reach(a, r);
  }

  /** Some node hanging from `r` has property `p` exactly when the value tree at `r`
      counts a node with property `p`. */
  lemma {:induction false} ExistsIffCount(a: seq<Cell>, r: nat, p: Node -> bool)
    requires Ordered(a) && r < |a|
    ensures SomeBelow(a, r, p) <==> Count(p, Tree(a, r)) > 0
    decreases |a| - r
  {
    SomeBelowUnfold(a, r, p);
    var t := Tree(a, r);
    if a[r].BlockCell? {
      TreeKids(a, r);
      var ks := Kids(a[r]);
      var cs := ChildCounts(p, t.body, t);
      forall j | 0 <= j < |ks| ensures SomeBelow(a, ks[j], p) <==> cs[j] > 0 {
        ExistsIffCount(a, ks[j], p);
      }
      SumPositive(cs);
    }
  }

  /** Node objects that nothing has touched carry the same value tree. */
  lemma {:induction false} SameTree(a0: seq<Cell>, a: seq<Cell>, r: nat)
    requires Ordered(a0) && Ordered(a) && |a0| <= |a| && r < |a0|
    requires forall x :: x in Reach(a0, r) && x < |a0| ==> a[x] == a0[x]
    ensures Tree(a, r) == Tree(a0, r)
    decreases |a0| - r
  {
    ReachBounds(a0, r);
    if a0[r].BlockCell? {
      TreeKids(a0, r);
      TreeKids(a, r);
      forall j | 0 <= j < |Kids(a0[r])| ensures Tree(a, r).body[j] == Tree(a0, r).body[j] {
        var k := Kids(a0[r])[j];
        KidInReach(a0, r, j);
        ReachTrans(a0, r, k);
        SameTree(a0, a, k);
      }
    }
  }

  /** The node objects of the tree that the walk examines and may change. */
  class SyntaxTree {
    var cells: seq<Cell>

    constructor (parsed: ParsedTree)
      ensures cells == parsed
    {
      cells := parsed;
    }

    /** `node.body.insert(0, ast.Expr(ast.Str(doc)))` for node `u`: a new literal node is
        created and becomes statement 0 of `u`'s body; every other node is untouched. */
    method InsertFirst(u: nat, doc: string)
      requires u < |cells| && cells[u].BlockCell? && Ordered(cells)
      modifies this
      ensures cells == old(cells[u := BlockCell(cells[u].kind, cells[u].name, [|cells|] + cells[u].body)]
                                + [StrCell(doc)])
      ensures Ordered(cells)
    {
      var c := cells[u];
      InsertKeepsOrdered(cells, u, doc);
      cells := cells[u := BlockCell(c.kind, c.name, [|cells|] + c.body)] + [StrCell(doc)];
    }
  }

  lemma InsertKeepsOrdered(a: seq<Cell>, u: nat, doc: string)
    requires u < |a| && a[u].BlockCell? && Ordered(a)
    ensures Ordered(a[u := BlockCell(a[u].kind, a[u].name, [|a|] + a[u].body)] + [StrCell(doc)])
  {
    var a' := a[u := BlockCell(a[u].kind, a[u].name, [|a|] + a[u].body)] + [StrCell(doc)];
    forall i | 0 <= i < |a'| ensures KidsBetween(a'[i], i, |a'|) {
      if i < |a| {
        assert KidsBetween(a[i], i, |a|);
        if i == u {
          forall x | 0 <= x < |Kids(a'[i])| ensures i < Kids(a'[i])[x] < |a'| {
            if x > 0 { assert Kids(a'[i])[x] == Kids(a[i])[x - 1]; }
          }
        }
      }
    }
  }

  // ---- The breadth-first walk ----

  ghost predicate KidsUnseen(c: Cell, done: set<nat>, todo: seq<nat>)
  {
    forall x :: 0 <= x < |Kids(c)| ==> Kids(c)[x] !in done && Kids(c)[x] !in todo
  }

  ghost predicate KidsSeen(c: Cell, done: set<nat>, todo: seq<nat>)
  {
    forall x :: 0 <= x < |Kids(c)| ==> Kids(c)[x] in done || Kids(c)[x] in todo
  }

  /** What the visit of node `i` leaves behind in the current objects `a`: when the unit
      gets a docstring, a new literal node holding the reply for the unit as it was parsed
      and, after it, the unit's former children; otherwise the node unchanged. */
  ghost predicate Visited(a0: seq<Cell>, a: seq<Cell>, i: nat, reply: Node -> string)
    requires Ordered(a0) && i < |a0| <= |a|
  {
    if Inserts(reply, Tree(a0, i)) then
      var c := a[i];
      c.BlockCell? && c.kind == a0[i].kind && c.name == a0[i].name
      && |c.body| == |Kids(a0[i])| + 1 && c.body[1..] == Kids(a0[i])
      && |a0| <= c.body[0] < |a| && a[c.body[0]] == StrCell(reply(Tree(a0, i)))
    else
      a[i] == a0[i]
  }

  // Loop invariants built of many conjuncts (`Walking` here, `DocstringPass.Progress` and
  // `Tallied`, `Runner.DirectoryAt` and `Runner.FolderAt`) are written `P(...) == true` in
  // contracts and invariants. The verifier then keeps each as a single fact instead of
  // splitting it into one proof goal per conjunct, which keeps those proofs small; the
  // step lemmas unfold them one part at a time.

  /** The state of the walk: `done` holds the nodes already yielded, `todo` the queue.
      Yielded nodes had their children queued and carry the effect of their visit; every
      other node is as parsed and none of its children has been queued. */
  ghost predicate Walking(a0: ParsedTree, a: seq<Cell>, todo: seq<nat>, done: set<nat>, reply: Node -> string)
  {
    |a0| <= |a| && Ordered(a)
    && (forall k :: 0 <= k < |todo| ==> todo[k] < |a0| && todo[k] !in done && todo[k] in Reach(a0, 0))
    && (forall k, l :: 0 <= k < l < |todo| ==> todo[k] != todo[l])
    && (forall i :: i in done ==>
          i < |a0| && i in Reach(a0, 0) && KidsSeen(a0[i], done, todo) && Visited(a0, a, i, reply))
    && (forall i :: 0 <= i < |a0| && i !in done ==> a[i] == a0[i] && KidsUnseen(a0[i], done, todo))
    && (0 in done || 0 in todo)
  }

  lemma WalkStart(a0: ParsedTree, reply: Node -> string)
    ensures Walking(a0, a0, [0], {}, reply)
  {
    assert 0 in Reach(a0, 0);
    forall i | 0 <= i < |a0| ensures KidsUnseen(a0[i], {}, [0]) {
      assert KidsBetween(a0[i], i, |a0|);
    }
  }

  /** The sizes of the subtrees still queued: what the walk has left to yield. */
  ghost function Sizes(a0: ParsedTree, todo: seq<nat>): seq<nat>
    requires forall k :: 0 <= k < |todo| ==> todo[k] < |a0|
  {
    seq(|todo|, k requires 0 <= k < |todo| => Count(AnyNode(), Tree(a0, todo[k])))
  }

  ghost function Weight(a0: ParsedTree, todo: seq<nat>): nat
    requires forall k :: 0 <= k < |todo| ==> todo[k] < |a0|
  {
    Sum(Sizes(a0, todo))
  }

  /** A node still queued (or not yet reached) hangs over node objects that nothing has
      touched: its value tree is the parsed one. */
  lemma UnvisitedTree(a0: ParsedTree, a: seq<Cell>, todo: seq<nat>, done: set<nat>, reply: Node -> string, u: nat)
    requires Walking(a0, a, todo, done, reply) && u < |a0| && u !in done
    ensures Tree(a, u) == Tree(a0, u)
  {
    var notDone := set x | 0 <= x < |a0| && x !in done;
    ReachClosed(a0, u, notDone);
    SameTree(a0, a, u);
  }

  /** The objects after the visit of `todo[0]`: unchanged, or with the docstring inserted. */
  ghost predicate Stepped(a0: ParsedTree, a: seq<Cell>, todo: seq<nat>, reply: Node -> string, a': seq<Cell>)
    requires todo != [] && todo[0] < |a0| <= |a|
  {
    var u := todo[0];
    if Inserts(reply, Tree(a0, u))
    then a' == a[u := BlockCell(a0[u].kind, a0[u].name, [|a|] + Kids(a0[u]))] + [StrCell(reply(Tree(a0, u)))]
    else a' == a
  }

  lemma StepQueueBounds(a0: seq<Cell>, todo: seq<nat>, done: set<nat>)
    requires Ordered(a0) && |a0| > 0 && todo != [] && todo[0] < |a0|
    requires forall k :: 0 < k < |todo| ==> todo[k] != todo[0]
    requires forall k :: 0 <= k < |todo| ==> todo[k] < |a0| && todo[k] !in done && todo[k] in Reach(a0, 0)
    requires KidsUnseen(a0[todo[0]], done, todo)
    ensures var u := todo[0]; var todo', done' := todo[1..] + Kids(a0[u]), done + {u};
      forall k :: 0 <= k < |todo'| ==> todo'[k] < |a0| && todo'[k] !in done' && todo'[k] in Reach(a0, 0)
  {
    var u := todo[0];
    var ks := Kids(a0[u]);
    var done' := done + {u};
    forall k | 0 <= k < |todo| - 1
      ensures todo[1..][k] < |a0| && todo[1..][k] !in done' && todo[1..][k] in Reach(a0, 0)
    {
      assert todo[1..][k] == todo[k + 1];
    }
    KidsInReach(a0, u);
    assert KidsBetween(a0[u], u, |a0|);
    assert Queueable(a0, ks, done');
    QueueableAppend(a0, todo[1..], ks, done');
  }

  /** Queue entries that are parsed nodes of the tree, none of them yielded yet. */
  ghost predicate Queueable(a0: seq<Cell>, q: seq<nat>, done: set<nat>)
    requires Ordered(a0) && |a0| > 0
  {
    forall k :: 0 <= k < |q| ==> q[k] < |a0| && q[k] !in done && q[k] in Reach(a0, 0)
  }

  lemma QueueableAppend(a0: seq<Cell>, q1: seq<nat>, q2: seq<nat>, done: set<nat>)
    requires Ordered(a0) && |a0| > 0 && Queueable(a0, q1, done) && Queueable(a0, q2, done)
    ensures Queueable(a0, q1 + q2, done)
  {
    forall k | 0 <= k < |q1 + q2| ensures (q1 + q2)[k] < |a0| && (q1 + q2)[k] !in done && (q1 + q2)[k] in Reach(a0, 0) {
      if k < |q1| {
        assert (q1 + q2)[k] == q1[k];
      } else {
        assert (q1 + q2)[k] == q2[k - |q1|];
      }
    }
  }

  lemma KidsInReach(a0: seq<Cell>, u: nat)
    requires Ordered(a0) && |a0| > 0 && u < |a0| && u in Reach(a0, 0)
    ensures forall x :: 0 <= x < |Kids(a0[u])| ==> Kids(a0[u])[x] < |a0| && Kids(a0[u])[x] in Reach(a0, 0)
  {
    ReachTrans(a0, 0, u);
    forall x | 0 <= x < |Kids(a0[u])|
      ensures Kids(a0[u])[x] < |a0| && Kids(a0[u])[x] in Reach(a0, 0)
    {
      KidInReach(a0, u, x);
    }
  }

  lemma StepQueueDistinct(a0: ParsedTree, todo: seq<nat>, done: set<nat>)
    requires todo != [] && todo[0] < |a0|
    requires forall k, l :: 0 <= k < l < |todo| ==> todo[k] != todo[l]
    requires KidsUnseen(a0[todo[0]], done, todo)
    ensures var todo' := todo[1..] + Kids(a0[todo[0]]);
      forall k, l :: 0 <= k < l < |todo'| ==> todo'[k] != todo'[l]
  {
    var u := todo[0];
    var ks := Kids(a0[u]);
    var todo' := todo[1..] + ks;
    forall k, l | 0 <= k < l < |todo'| ensures todo'[k] != todo'[l] {
      if l < |todo| - 1 {
        assert todo'[k] == todo[k + 1] && todo'[l] == todo[l + 1];
      } else if k < |todo| - 1 {
        assert todo'[k] == todo[k + 1] && todo'[l] == ks[l - (|todo| - 1)];
      } else {
        assert todo'[k] == ks[k - (|todo| - 1)] && todo'[l] == ks[l - (|todo| - 1)];
      }
    }
  }

  lemma StepDone(a0: ParsedTree, a: seq<Cell>, todo: seq<nat>, done: set<nat>, reply: Node -> string, a': seq<Cell>)
    requires Walking(a0, a, todo, done, reply) && todo != [] && Stepped(a0, a, todo, reply, a')
    ensures |a0| <= |a'|
    ensures var u := todo[0]; var todo', done' := todo[1..] + Kids(a0[u]), done + {u};
      forall i :: i in done' ==>
        i < |a0| && i in Reach(a0, 0) && KidsSeen(a0[i], done', todo') && Visited(a0, a', i, reply)
  {
    StepSeen(a0, todo, done);
    StepFrame(a0, a, todo, reply, a');
    VisitedHere(a0, a, todo, reply, a');
    StepVisited(a0, a, todo[0], done, reply, a');
  }

  /** The visit of `todo[0]` changes no other node object and only appends new ones. */
  lemma StepFrame(a0: ParsedTree, a: seq<Cell>, todo: seq<nat>, reply: Node -> string, a': seq<Cell>)
    requires |a0| <= |a| && todo != [] && todo[0] < |a0| && Stepped(a0, a, todo, reply, a')
    ensures |a| <= |a'| && forall x :: 0 <= x < |a| && x != todo[0] ==> a'[x] == a[x]
  {
  }

  /** Yielding the head of the queue and queueing its children leaves every yielded node
      with its children yielded or queued. */
  lemma StepSeen(a0: seq<Cell>, todo: seq<nat>, done: set<nat>)
    requires todo != [] && todo[0] < |a0|
    requires forall i :: i in done ==> i < |a0| && KidsSeen(a0[i], done, todo)
    ensures var u := todo[0]; var todo', done' := todo[1..] + Kids(a0[u]), done + {u};
      forall i :: i in done' ==> i < |a0| && KidsSeen(a0[i], done', todo')
  {
    var u := todo[0];
    var ks := Kids(a0[u]);
    var todo', done' := todo[1..] + ks, done + {u};
    forall i | i in done' ensures i < |a0| && KidsSeen(a0[i], done', todo') {
      forall x | 0 <= x < |Kids(a0[i])| ensures Kids(a0[i])[x] in done' || Kids(a0[i])[x] in todo' {
        var c := Kids(a0[i])[x];
        if i == u {
          assert c in ks;
        } else if c !in done' {
          assert c in todo;
          var k :| 0 <= k < |todo| && todo[k] == c;
          assert todo[1..][k - 1] == c;
        }
      }
    }
  }

  /** The visit of node `u` keeps the effect of every earlier visit. */
  lemma StepVisited(a0: ParsedTree, a: seq<Cell>, u: nat, done: set<nat>, reply: Node -> string, a': seq<Cell>)
    requires u < |a0| <= |a| <= |a'| && forall x :: 0 <= x < |a| && x != u ==> a'[x] == a[x]
    requires Visited(a0, a', u, reply)
    requires forall i :: i in done ==> i < |a0| && i != u && Visited(a0, a, i, reply)
    ensures forall i :: i in done + {u} ==> i < |a0| && Visited(a0, a', i, reply)
  {
    forall i | i in done + {u} ensures i < |a0| && Visited(a0, a', i, reply) {
      if i != u {
        VisitedFrame(a0, a, a', i, reply);
      }
    }
  }

  /** The visit of `todo[0]` records its own effect. */
  lemma VisitedHere(a0: ParsedTree, a: seq<Cell>, todo: seq<nat>, reply: Node -> string, a': seq<Cell>)
    requires |a0| <= |a| && todo != [] && todo[0] < |a0| && a[todo[0]] == a0[todo[0]]
    requires Stepped(a0, a, todo, reply, a')
    ensures Visited(a0, a', todo[0], reply)
  {
  }

  /** A change beyond the first `|a0|` objects or at other parsed nodes keeps the effect of
      the visit of node `i`. */
  lemma VisitedFrame(a0: ParsedTree, a: seq<Cell>, a': seq<Cell>, i: nat, reply: Node -> string)
    requires i < |a0| <= |a| <= |a'| && Visited(a0, a, i, reply) && a'[i] == a[i]
    requires forall x :: |a0| <= x < |a| ==> a'[x] == a[x]
    ensures Visited(a0, a', i, reply)
  {
  }

  lemma StepRest(a0: ParsedTree, a: seq<Cell>, todo: seq<nat>, done: set<nat>, reply: Node -> string, a': seq<Cell>)
    requires Walking(a0, a, todo, done, reply) && todo != [] && Stepped(a0, a, todo, reply, a')
    ensures |a0| <= |a'|
    ensures var u := todo[0]; var todo', done' := todo[1..] + Kids(a0[u]), done + {u};
      forall i :: 0 <= i < |a0| && i !in done' ==> a'[i] == a0[i] && KidsUnseen(a0[i], done', todo')
  {
    var u := todo[0];
    var ks := Kids(a0[u]);
    var todo', done' := todo[1..] + ks, done + {u};
    forall i | 0 <= i < |a0| && i !in done'
      ensures a'[i] == a0[i] && KidsUnseen(a0[i], done', todo')
    {
      forall x | 0 <= x < |Kids(a0[i])|
        ensures Kids(a0[i])[x] !in done' && Kids(a0[i])[x] !in todo'
      {
        var c := Kids(a0[i])[x];
        assert c != u;
        assert c !in todo && c !in ks;
        assert c !in todo[1..];
      }
    }
  }

  lemma StepWeight(a0: ParsedTree, todo: seq<nat>)
    requires todo != [] && forall k :: 0 <= k < |todo| ==> todo[k] < |a0|
    ensures var todo' := todo[1..] + Kids(a0[todo[0]]);
      && (forall k :: 0 <= k < |todo'| ==> todo'[k] < |a0|)
      && Weight(a0, todo') < Weight(a0, todo)
  {
    var u := todo[0];
    var ks := Kids(a0[u]);
    var todo' := todo[1..] + ks;
    KidsWeight(a0, u);
    assert Sizes(a0, todo) == [Count(AnyNode(), Tree(a0, u))] + Sizes(a0, todo[1..]);
    SizesAppend(a0, todo[1..], ks);
    SumAppend(Sizes(a0, todo[1..]), Sizes(a0, ks));
  }

  lemma SizesAppend(a0: ParsedTree, xs: seq<nat>, ys: seq<nat>)
    requires forall k :: 0 <= k < |xs| ==> xs[k] < |a0|
    requires forall k :: 0 <= k < |ys| ==> ys[k] < |a0|
    ensures forall k :: 0 <= k < |xs + ys| ==> (xs + ys)[k] < |a0|
    ensures Sizes(a0, xs + ys) == Sizes(a0, xs) + Sizes(a0, ys)
  {
    assert forall k :: 0 <= k < |xs + ys| ==> (xs + ys)[k] < |a0|;
  }

  /** The subtrees of the children of `u` are together one node smaller than `u`'s. */
  lemma KidsWeight(a0: ParsedTree, u: nat)
    requires u < |a0|
    ensures (forall k :: 0 <= k < |Kids(a0[u])| ==> Kids(a0[u])[k] < |a0|)
      && Weight(a0, Kids(a0[u])) < Count(AnyNode(), Tree(a0, u))
  {
    var ks := Kids(a0[u]);
    assert KidsBetween(a0[u], u, |a0|);
    var t := Tree(a0, u);
    if t.Block? {
      TreeKids(a0, u);
      assert Sizes(a0, ks) == ChildCounts(AnyNode(), t.body, t);
    } else {
      assert Sizes(a0, ks) == [];
    }
  }

  /** One step of the walk: pop `u`, queue its children, and, when the unit gets a
      docstring, apply the insertion. The invariant holds again and less is left to do. */
  lemma WalkStep(a0: ParsedTree, a: seq<Cell>, todo: seq<nat>, done: set<nat>, reply: Node -> string, a': seq<Cell>)
    requires Walking(a0, a, todo, done, reply) == true && todo != [] && Stepped(a0, a, todo, reply, a')
    ensures var u := todo[0]; var todo' := todo[1..] + Kids(a0[u]);
      && (forall k :: 0 <= k < |todo'| ==> todo'[k] < |a0|)
      && Walking(a0, a', todo', done + {u}, reply) == true
      && Weight(a0, todo') < Weight(a0, todo)
  {
    var u := todo[0];
    assert Ordered(a') by {
      if Inserts(reply, Tree(a0, u)) {
        InsertKeepsOrdered(a, u, reply(Tree(a0, u)));
      }
    }
    assert u !in done;
    StepQueueBounds(a0, todo, done);
    StepQueueDistinct(a0, todo, done);
    StepDone(a0, a, todo, done, reply, a');
    StepRest(a0, a, todo, done, reply, a');
    StepWeight(a0, todo);
  }

  /** When the queue runs dry, the walk has yielded exactly the nodes of the tree, and the
      objects hold the tree `Document` describes. */
  lemma WalkEnd(a0: ParsedTree, a: seq<Cell>, done: set<nat>, reply: Node -> string)
    requires Walking(a0, a, [], done, reply)
    ensures done == Reach(a0, 0)
    ensures Tree(a, 0) == Document(reply, Tree(a0, 0))
  {
    ReachClosed(a0, 0, done);
    ReachBounds(a0, 0);
    FinalTree(a0, a, 0, reply);
  }

  lemma {:induction false} FinalTree(a0: ParsedTree, a: seq<Cell>, r: nat, reply: Node -> string)
    requires Ordered(a) && |a0| <= |a| && r < |a0|
    requires forall x :: x in Reach(a0, r) && x < |a0| ==> Visited(a0, a, x, reply)
    ensures Tree(a, r) == Document(reply, Tree(a0, r))
    decreases |a0| - r
  {
    assert r in Reach(a0, r);
    if a0[r].BlockCell? {
      TreeKids(a0, r);
      var ks := Kids(a0[r]);
      forall j | 0 <= j < |ks| ensures Tree(a, ks[j]) == Document(reply, Tree(a0, r).body[j]) {
        KidInReach(a0, r, j);
        ReachTrans(a0, r, ks[j]);
        FinalTree(a0, a, ks[j], reply);
      }
      if Inserts(reply, Tree(a0, r)) {
        ReassembleInserted(a0, a, r, reply);
      } else {
        ReassembleKept(a0, a, r, reply);
      }
    }
  }

  /** A node whose children already hold their documented trees, and which carries its
      inserted docstring, holds the documented tree of the node as parsed. */
  lemma ReassembleInserted(a0: ParsedTree, a: seq<Cell>, r: nat, reply: Node -> string)
    requires Ordered(a) && |a0| <= |a| && r < |a0| && a0[r].BlockCell?
    requires Inserts(reply, Tree(a0, r)) && Visited(a0, a, r, reply)
    requires forall j :: 0 <= j < |Kids(a0[r])| ==>
      Kids(a0[r])[j] < |a0| && Tree(a, Kids(a0[r])[j]) == Document(reply, Tree(a0, r).body[j])
    ensures Tree(a, r) == Document(reply, Tree(a0, r))
  {
    var t0, ks, c := Tree(a0, r), Kids(a0[r]), a[r];
    TreeKids(a, r);
    DocstringPlacement(reply, t0);
    var d := Document(reply, t0);
    assert Kids(c)[0] == c.body[0];
    assert Tree(a, r).body[0] == d.body[0];
    forall j | 1 <= j <= |ks| ensures Tree(a, r).body[j] == d.body[j] {
      assert Kids(c)[j] == ks[j - 1];
    }
    assert Tree(a, r).body == d.body;
  }

  /** A node whose children already hold their documented trees, and which was left
      unchanged, holds the documented tree of the node as parsed. */
  lemma ReassembleKept(a0: ParsedTree, a: seq<Cell>, r: nat, reply: Node -> string)
    requires Ordered(a) && |a0| <= |a| && r < |a0| && a0[r].BlockCell?
    requires !Inserts(reply, Tree(a0, r)) && Visited(a0, a, r, reply)
    requires forall j :: 0 <= j < |Kids(a0[r])| ==>
      Kids(a0[r])[j] < |a0| && Tree(a, Kids(a0[r])[j]) == Document(reply, Tree(a0, r).body[j])
    ensures Tree(a, r) == Document(reply, Tree(a0, r))
  {
    var t0 := Tree(a0, r);
    TreeKids(a, r);
    NoInsertionKeepsBody(reply, t0);
    assert Tree(a, r).body == Document(reply, t0).body;
  }
}
