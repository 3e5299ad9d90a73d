/** A tree of syntax nodes as values, the docstring test of `ast.get_docstring`, and
    `Document`, a reference definition of the tree that one documentation run leaves
    behind. `Document` is what the in-place walk of the runner is proved against. */
module Syntax {
  import opened DocText

  /** The node classes the runner tells apart; `Other` is every other node class. */
  datatype Kind = FunctionDef | AsyncFunctionDef | ClassDef | Other

  /** `Str(v)` is an expression statement holding the string literal `v`. A `Block` is
      any other node: `body` is its child statements in order, and `name` stands for the
      rest of the node's own syntax as `ast.parse` represents it. For a definition that
      is its whole header (decorators, name, arguments, return annotation, class bases).
      Spacing, comments and quote style are not part of it, since the parser does not
      keep them. So two units with different headers are different values, and
      `unparse` and the replies computed from it can tell them apart. */
  datatype Node = Str(value: string) | Block(kind: Kind, name: string, body: seq<Node>)

  /** A documentable unit: a function, asynchronous function or class definition. */
  predicate IsUnit(t: Node)
  {
    t.Block? && t.kind != Other
  }

  /** `ast.get_docstring(node)` is truthy: the first statement of the body is a string
      literal whose cleaned text is non-empty (see `DocText.CleanDocEmptyIff`). */
  predicate HasDocstring(t: Node)
  {
    t.Block? && |t.body| > 0 && t.body[0].Str? && !BlankDoc(t.body[0].value)
  }

  /** A unit that the runner sends to the generator. */
  predicate NeedsDocstring(t: Node)
  {
    IsUnit(t) && !HasDocstring(t)
  }

  /** The runner inserts a docstring into `t`: it needs one and the reply is non-empty. */
  predicate Inserts(reply: Node -> string, t: Node)
  {
    NeedsDocstring(t) && reply(t) != ""
  }

  function InsertsBy(reply: Node -> string): Node -> bool
  {
    t => Inserts(reply, t)
  }

  /** A unit still lacking a docstring after a run: the reply it got was blank. */
  function DeclinedBy(reply: Node -> string): Node -> bool
  {
    t => NeedsDocstring(t) && BlankDoc(reply(t))
  }

  function AnyNode(): Node -> bool
  {
    t => true
  }

  /** The tree after one run, where `reply(u)` is what the generator answers for the
      unit `u` as it stood in the input tree. Each unit that needs a docstring and gets a
      non-empty reply receives it as statement 0; nothing else changes. */
  function Document(reply: Node -> string, t: Node): (d: Node)
    ensures d.Str? <==> t.Str?
    ensures d.Str? ==> d == t
    ensures d.Block? ==> d.kind == t.kind && d.name == t.name
    decreases t
  {
    match t
    case Str(_) => t
    case Block(k, n, body) =>
      var rest := seq(|body|, j requires 0 <= j < |body| => Document(reply, body[j]));
      if Inserts(reply, t) then Block(k, n, [Str(reply(t))] + rest) else Block(k, n, rest)
  }

  /** A unit that gets a non-empty reply has it as statement 0, and its previous body
      follows, in the same order, each statement documented in turn. */
  lemma DocstringPlacement(reply: Node -> string, t: Node)
    requires Inserts(reply, t)
    ensures var d := Document(reply, t);
      |d.body| == |t.body| + 1 && d.body[0] == Str(reply(t))
      && forall j :: 0 <= j < |t.body| ==> d.body[j + 1] == Document(reply, t.body[j])
  {
    var rest := seq(|t.body|, j requires 0 <= j < |t.body| => Document(reply, t.body[j]));
    var d := Document(reply, t);
    assert d.body == [Str(reply(t))] + rest;
    forall j | 0 <= j < |t.body| ensures d.body[j + 1] == Document(reply, t.body[j]) {
      assert d.body[j + 1] == rest[j];
    }
  }

  /** A unit that is not given a docstring (already documented, not a unit, or an empty
      reply) keeps the statements of its body in place, and its docstring state. */
  lemma NoInsertionKeepsBody(reply: Node -> string, t: Node)
    requires t.Block? && !Inserts(reply, t)
    ensures var d := Document(reply, t);
      |d.body| == |t.body|
      && (forall j :: 0 <= j < |t.body| ==> d.body[j] == Document(reply, t.body[j]))
      && (HasDocstring(d) <==> HasDocstring(t))
      && (HasDocstring(t) ==> d.body[0] == t.body[0])
  {
  }

  /** Sum of a sequence of counts. */
  function Sum(xs: seq<nat>): nat
  {
    if xs == [] then 0 else xs[0] + Sum(xs[1..])
  }

  lemma {:induction false} SumAppend(xs: seq<nat>, ys: seq<nat>)
    ensures Sum(xs + ys) == Sum(xs) + Sum(ys)
  {
    if xs == [] {
      assert xs + ys == ys;
    } else {
      assert (xs + ys)[1..] == xs[1..] + ys;
      SumAppend(xs[1..], ys);
    }
  }

  lemma {:induction false} SumPositive(xs: seq<nat>)
    ensures Sum(xs) > 0 <==> exists j :: 0 <= j < |xs| && xs[j] > 0
  {
    if xs != [] {
      SumPositive(xs[1..]);
      if Sum(xs[1..]) > 0 {
        var j :| 0 <= j < |xs[1..]| && xs[1..][j] > 0;
        assert xs[j + 1] > 0;
      }
      if exists j :: 0 <= j < |xs| && xs[j] > 0 {
        var j :| 0 <= j < |xs| && xs[j] > 0;
        if j > 0 { assert xs[1..][j - 1] > 0; }
      }
    }
  }

  lemma {:induction false} SumMono(xs: seq<nat>, ys: seq<nat>)
    requires |xs| == |ys| && forall j :: 0 <= j < |xs| ==> xs[j] <= ys[j]
    ensures Sum(xs) <= Sum(ys)
  {
    if xs != [] {
      SumMono(xs[1..], ys[1..]);
    }
  }

  /** The counts of the children of `t`. */
  function ChildCounts(p: Node -> bool, body: seq<Node>, ghost parent: Node): seq<nat>
    requires forall j :: 0 <= j < |body| ==> body[j] < parent
    decreases parent, 0
  {
    seq(|body|, j requires 0 <= j < |body| => Count(p, body[j]))
  }

  /** The number of nodes of `t` (itself included) satisfying `p`. */
  function Count(p: Node -> bool, t: Node): nat
    decreases t, 1
  {
    match t
    case Str(_) => if p(t) then 1 else 0
    case Block(_, _, body) => (if p(t) then 1 else 0) + Sum(ChildCounts(p, body, t))
  }

  /** The number of units a run on `t` sends to the generator. */
  function Pending(t: Node): nat
  {
    Count(NeedsDocstring, t)
  }

  lemma {:induction false} CountMono(p: Node -> bool, q: Node -> bool, t: Node)
    requires forall u :: p(u) ==> q(u)
    ensures Count(p, t) <= Count(q, t)
    decreases t
  {
    if t.Block? {
      var cp, cq := ChildCounts(p, t.body, t), ChildCounts(q, t.body, t);
      forall j | 0 <= j < |t.body| ensures cp[j] <= cq[j] {
        CountMono(p, q, t.body[j]);
      }
      SumMono(cp, cq);
    }
  }

  /** The only effect of a run is the insertion of docstrings: its result is its input
      exactly when no unit gets one. */
  lemma {:induction false} DocumentUnchangedIff(reply: Node -> string, t: Node)
    ensures Document(reply, t) == t <==> Count(InsertsBy(reply), t) == 0
    decreases t
  {
    if t.Block? {
      var p := InsertsBy(reply);
      var cs := ChildCounts(p, t.body, t);
      var rest := seq(|t.body|, j requires 0 <= j < |t.body| => Document(reply, t.body[j]));
      forall j | 0 <= j < |t.body| ensures rest[j] == t.body[j] <==> cs[j] == 0 {
        DocumentUnchangedIff(reply, t.body[j]);
      }
      SumPositive(cs);
      if Inserts(reply, t) {
        assert |Document(reply, t).body| == |t.body| + 1;
      } else if Sum(cs) > 0 {
        var j :| 0 <= j < |cs| && cs[j] > 0;
        assert Document(reply, t).body[j] != t.body[j];
      } else {
        assert rest == t.body;
      }
    }
  }

  /** After a run, the units still lacking a docstring are exactly those whose reply was
      blank: so a second run resubmits none of the units that got a non-blank reply. */
  lemma {:induction false} PendingAfterRun(reply: Node -> string, t: Node)
    ensures Pending(Document(reply, t)) == Count(DeclinedBy(reply), t)
    decreases t
  {
    if t.Block? {
      var d := Document(reply, t);
      var rest := seq(|t.body|, j requires 0 <= j < |t.body| => Document(reply, t.body[j]));
      var before := ChildCounts(DeclinedBy(reply), t.body, t);
      var after := seq(|rest|, j requires 0 <= j < |rest| => Pending(rest[j]));
      forall j | 0 <= j < |t.body| ensures after[j] == before[j] {
        PendingAfterRun(reply, t.body[j]);
      }
      assert after == before;
      if Inserts(reply, t) {
        assert d.body == [Str(reply(t))] + rest;
        assert ChildCounts(NeedsDocstring, d.body, d) == [0] + after;
        assert Sum([0] + after) == Sum(after);
      } else {
        assert d.body == rest;
        assert ChildCounts(NeedsDocstring, d.body, d) == after;
        NoInsertionKeepsBody(reply, t);
      }
    }
  }

  /** A tree with no unit lacking a docstring is left exactly as it is, whatever the
      generator would answer. */
  lemma NothingPendingIsFixpoint(reply: Node -> string, t: Node)
    requires Pending(t) == 0
    ensures Document(reply, t) == t
  {
    CountMono(InsertsBy(reply), NeedsDocstring, t);
    DocumentUnchangedIff(reply, t);
  }

  /** When every reply is either empty or non-blank, a second run finds nothing to send
      and leaves the tree of the first run as it is. */
  lemma SecondRunIsNoOp(reply: Node -> string, reply2: Node -> string, t: Node)
    requires Count(DeclinedBy(reply), t) == 0
    ensures Pending(Document(reply, t)) == 0
    ensures Document(reply2, Document(reply, t)) == Document(reply, t)
  {
    PendingAfterRun(reply, t);
    NothingPendingIsFixpoint(reply2, Document(reply, t));
  }

  /** The string literals of a tree. */
  ghost function Literals(t: Node): set<string>
    decreases t
  {
    match t
    case Str(v) => {v}
    case Block(_, _, body) => set j, s | 0 <= j < |body| && s in Literals(body[j]) :: s
  }

  /** Every literal of the documented tree was already in the input or is a reply; so
      when every reply has a property `good`, so has every literal the run added. */
  lemma {:induction false} NewLiteralsAreReplies(reply: Node -> string, good: string -> bool, t: Node)
    requires forall u :: good(reply(u))
    ensures forall s :: s in Literals(Document(reply, t)) ==> s in Literals(t) || good(s)
    decreases t
  {
    if t.Block? {
      var d := Document(reply, t);
      forall s | s in Literals(d) ensures s in Literals(t) || good(s) {
        var j :| 0 <= j < |d.body| && s in Literals(d.body[j]);
        if Inserts(reply, t) {
          if j > 0 {
            NewLiteralsAreReplies(reply, good, t.body[j - 1]);
          }
        } else {
          NewLiteralsAreReplies(reply, good, t.body[j]);
        }
      }
    }
  }
}
