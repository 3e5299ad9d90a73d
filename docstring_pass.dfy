/** The bookkeeping of the loop of `add_docstring`: what it keeps true from one node to
    the next, and what that gives when the queue runs dry. */
module DocstringPass {
  import opened Syntax
  import opened Arena
  import opened TextFile

  /** The state of `add_docstring` between two nodes of the walk: the node objects, the
      queue, the nodes already yielded, the units met and the units sent to the service
      so far, whether the file has been rewritten, and the file's text and position. */
  datatype PassState = PassState(cells: seq<Cell>, todo: seq<nat>, done: set<nat>,
                                 examined: seq<nat>, sent: seq<nat>, wrote: bool,
                                 content: string, pos: nat)

  /** What the visit of one node found: a unit, a unit sent to the service, a unit that
      got a docstring. */
  datatype VisitResult = VisitResult(isUnit: bool, asked: bool, inserted: bool)

  /** The visit of node `u` (see `Runner.Runner.Visit`), from the node objects and file
      `cells`, `content`, `pos` to `cells'`, `content'`, `pos'`: a unit that gets a
      non-empty reply has a new literal node as statement 0, and the unparsed tree is
      then written over the file from its start, the position just after it; otherwise
      nothing changes. */
  ghost predicate VisitOutcome(a0: ParsedTree, u: nat, reply: Node -> string, unparse: Node -> string,
                               cells: seq<Cell>, content: string, pos: nat, v: VisitResult,
                               cells': seq<Cell>, content': string, pos': nat)
  {
    match v
    case VisitResult(isUnit, asked, inserted) =>
      && u < |a0| <= |cells|
      && isUnit == IsUnitCell(a0[u])
      && asked == NeedsDocstring(Tree(a0, u))
      && inserted == Inserts(reply, Tree(a0, u))
      && (inserted ==>
            cells' == cells[u := BlockCell(a0[u].kind, a0[u].name, [|cells|] + Kids(a0[u]))]
                      + [StrCell(reply(Tree(a0, u)))]
            && Ordered(cells')
            && var w := unparse(Tree(cells', 0));
               content' == Overwrite(content, 0, w) && pos' == |w| <= |content'| && content'[..pos'] == w)
      && (!inserted ==> cells' == cells && content' == content && pos' == pos)
  }

  /** What the loop of `add_docstring` keeps true, for a file that held `content0` when it
      was read: the walk invariant, the tallies of what the nodes yielded so far found, and
      the state of the file. */
  ghost predicate Progress(a0: ParsedTree, reply: Node -> string, unparse: Node -> string,
                           content0: string, s: PassState)
  {
    match s
    case PassState(cells, todo, done, examined, sent, wrote, content, pos) =>
      && Walking(a0, cells, todo, done, reply)
      && Tallied(a0, reply, done, examined, sent, wrote)
      && Written(a0, unparse, content0, cells, wrote, content, pos)
  }

  /** `examined` and `sent` hold the units, and the units lacking a docstring, among the
      nodes `done`, each once; `wrote` tells whether one of them got a docstring. */
  ghost predicate Tallied(a0: ParsedTree, reply: Node -> string, done: set<nat>,
                          examined: seq<nat>, sent: seq<nat>, wrote: bool)
  {
    ExaminedAll(a0, done, examined) && SentAll(a0, done, sent) && WroteAny(a0, reply, done, wrote)
  }

  ghost predicate ExaminedAll(a0: ParsedTree, done: set<nat>, examined: seq<nat>)
  {
    && (forall i :: i in examined <==> i in done && i < |a0| && IsUnitCell(a0[i]))
    && (forall k, l :: 0 <= k < l < |examined| ==> examined[k] != examined[l])
  }

  ghost predicate SentAll(a0: ParsedTree, done: set<nat>, sent: seq<nat>)
  {
    && (forall i :: i in sent <==> i in done && i < |a0| && NeedsDocstring(Tree(a0, i)))
    && (forall k, l :: 0 <= k < l < |sent| ==> sent[k] != sent[l])
  }

  ghost predicate WroteAny(a0: ParsedTree, reply: Node -> string, done: set<nat>, wrote: bool)
  {
    wrote <==> exists i :: i in done && i < |a0| && Inserts(reply, Tree(a0, i))
  }

  /** The file holds the text as read until a unit gets a docstring, and from then on
      starts with the unparsed current tree, the position just after it. */
  ghost predicate Written(a0: ParsedTree, unparse: Node -> string, content0: string,
                          cells: seq<Cell>, wrote: bool, content: string, pos: nat)
    requires Ordered(cells) && |cells| > 0
  {
    && (!wrote ==> cells == a0 && content == content0 && pos == |content|)
    && (wrote ==> var w := unparse(Tree(cells, 0)); pos == |w| <= |content| && content[..pos] == w)
  }

  /** The state after the visit of the head of the queue: its children are queued, it is
      yielded, and what the visit found is recorded. */
  function Next(a0: ParsedTree, s: PassState, v: VisitResult, cells': seq<Cell>, content': string, pos': nat): PassState
    requires s.todo != [] && s.todo[0] < |a0|
  {
    var u := s.todo[0];
    PassState(cells', s.todo[1..] + Kids(a0[u]), s.done + {u},
              if v.isUnit then s.examined + [u] else s.examined,
              if v.asked then s.sent + [u] else s.sent,
              s.wrote || v.inserted, content', pos')
  }

  /** Right after the text is read and parsed, with the root queued. */
  lemma ProgressStart(a0: ParsedTree, reply: Node -> string, unparse: Node -> string, content: string)
    ensures Progress(a0, reply, unparse, content, PassState(a0, [0], {}, [], [], false, content, |content|))
  {
    WalkStart(a0, reply);
  }

  /** The node at the head of the queue has not been visited: its object and its subtree
      are as parsed. */
  lemma ProgressHead(a0: ParsedTree, reply: Node -> string, unparse: Node -> string, content0: string, s: PassState)
    requires Progress(a0, reply, unparse, content0, s) == true
    requires s.todo != []
    ensures Ordered(s.cells) && s.todo[0] < |a0| <= |s.cells| && s.todo[0] !in s.done
    ensures s.cells[s.todo[0]] == a0[s.todo[0]] && Tree(s.cells, s.todo[0]) == Tree(a0, s.todo[0])
  {
    UnvisitedTree(a0, s.cells, s.todo, s.done, reply, s.todo[0]);
  }

  /** One turn of the loop keeps `Progress` and leaves less to walk. */
  lemma ProgressStep(a0: ParsedTree, reply: Node -> string, unparse: Node -> string, content0: string,
                     s: PassState, v: VisitResult, cells': seq<Cell>, content': string, pos': nat)
    requires Progress(a0, reply, unparse, content0, s) == true
    requires s.todo != []
    requires VisitOutcome(a0, s.todo[0], reply, unparse, s.cells, s.content, s.pos, v, cells', content', pos')
    ensures s.todo[0] < |a0|
    ensures var s' := Next(a0, s, v, cells', content', pos');
      && (forall k :: 0 <= k < |s'.todo| ==> s'.todo[k] < |a0|)
      && Progress(a0, reply, unparse, content0, s') == true
      && Weight(a0, s'.todo) < Weight(a0, s.todo)
  {
    var u := s.todo[0];
    WalkStep(a0, s.cells, s.todo, s.done, reply, cells');
    TallyStep(a0, reply, s.done, s.examined, s.sent, s.wrote, u, v);
    WrittenStep(a0, reply, unparse, content0, u, s.cells, s.wrote, s.content, s.pos, v, cells', content', pos');
  }

  /** Recording what the visit of `u` found keeps the tallies. */
  lemma TallyStep(a0: ParsedTree, reply: Node -> string, done: set<nat>, examined: seq<nat>, sent: seq<nat>,
                  wrote: bool, u: nat, v: VisitResult)
    requires Tallied(a0, reply, done, examined, sent, wrote) == true && u < |a0| && u !in done
    requires v.isUnit == IsUnitCell(a0[u]) && v.asked == NeedsDocstring(Tree(a0, u))
    requires v.inserted == Inserts(reply, Tree(a0, u))
    ensures Tallied(a0, reply, done + {u}, if v.isUnit then examined + [u] else examined,
                    if v.asked then sent + [u] else sent, wrote || v.inserted) == true
  {
    ExaminedStep(a0, done, examined, u, v.isUnit);
    SentStep(a0, done, sent, u, v.asked);
    WroteStep(a0, done, reply, wrote, u, v.inserted);
  }

  /** The visit of `u` keeps the file in step with the node objects. */
  lemma WrittenStep(a0: ParsedTree, reply: Node -> string, unparse: Node -> string, content0: string, u: nat,
                    cells: seq<Cell>, wrote: bool, content: string, pos: nat,
                    v: VisitResult, cells': seq<Cell>, content': string, pos': nat)
    requires Ordered(cells) && |a0| <= |cells| && Written(a0, unparse, content0, cells, wrote, content, pos)
    requires VisitOutcome(a0, u, reply, unparse, cells, content, pos, v, cells', content', pos')
    requires Ordered(cells') && |a0| <= |cells'|
    ensures Written(a0, unparse, content0, cells', wrote || v.inserted, content', pos')
  {
  }

  /** Recording the unit `u` as met keeps `examined` the distinct units yielded. */
  lemma ExaminedStep(a0: ParsedTree, done: set<nat>, examined: seq<nat>, u: nat, isUnit: bool)
    requires u < |a0| && u !in done && isUnit == IsUnitCell(a0[u])
    requires ExaminedAll(a0, done, examined)
    ensures ExaminedAll(a0, done + {u}, if isUnit then examined + [u] else examined)
  {
    if isUnit {
      AppendDistinct(examined, u);
    }
  }

  /** Appending a new element to a list without repetitions keeps it without repetitions. */
  lemma AppendDistinct(xs: seq<nat>, u: nat)
    requires forall k, l :: 0 <= k < l < |xs| ==> xs[k] != xs[l]
    requires u !in xs
    ensures var e := xs + [u]; forall k, l :: 0 <= k < l < |e| ==> e[k] != e[l]
  {
    var e := xs + [u];
    forall k, l | 0 <= k < l < |e| ensures e[k] != e[l] {
      if l == |xs| {
        assert e[k] == xs[k] && e[l] == u;
      }
    }
  }

  /** Recording `u` as sent keeps `sent` the distinct units yielded that lack a docstring. */
  lemma SentStep(a0: ParsedTree, done: set<nat>, sent: seq<nat>, u: nat, asked: bool)
    requires u < |a0| && u !in done && asked == NeedsDocstring(Tree(a0, u))
    requires SentAll(a0, done, sent)
    ensures SentAll(a0, done + {u}, if asked then sent + [u] else sent)
  {
    if asked {
      AppendDistinct(sent, u);
    }
  }

  /** `wrote` stays true exactly when some node yielded got a docstring. */
  lemma WroteStep(a0: ParsedTree, done: set<nat>, reply: Node -> string, wrote: bool, u: nat, inserted: bool)
    requires u < |a0| && inserted == Inserts(reply, Tree(a0, u))
    requires WroteAny(a0, reply, done, wrote)
    ensures WroteAny(a0, reply, done + {u}, wrote || inserted)
  {
    if wrote {
      var i :| i in done && i < |a0| && Inserts(reply, Tree(a0, i));
      assert i in done + {u};
    }
  }

  /** When the queue is empty, the file holds, up to its position, the text as read when
      no unit got a docstring and the unparsed documented tree otherwise; the units met
      and sent are those of the whole tree. */
  lemma ProgressEnd(a0: ParsedTree, reply: Node -> string, unparse: Node -> string, content0: string, s: PassState)
    requires Progress(a0, reply, unparse, content0, s) == true
    requires s.todo == []
    ensures var t0 := Tree(a0, 0); var t1 := Document(reply, t0);
      && s.pos <= |s.content|
      && s.content[..s.pos] == (if t1 == t0 then content0 else unparse(t1))
      && (forall i :: i in s.examined <==> i in Reach(a0, 0) && i < |a0| && IsUnitCell(a0[i]))
      && (forall k, l :: 0 <= k < l < |s.examined| ==> s.examined[k] != s.examined[l])
      && (forall i :: i in s.sent <==> i in s.examined && i < |a0| && !HasDocstring(Tree(a0, i)))
      && (forall k, l :: 0 <= k < l < |s.sent| ==> s.sent[k] != s.sent[l])
      && (s.sent == [] <==> Pending(t0) == 0)
  {
    WalkEnd(a0, s.cells, s.done, reply);
    UnitsEnd(a0, s.done, s.examined, s.sent);
    FileEnd(a0, reply, unparse, content0, s.cells, s.done, s.wrote, s.content, s.pos);
  }

  /** Once every node has been yielded, `examined` and `sent` are about the whole tree,
      and nothing was sent exactly when no unit of the tree lacked a docstring. */
  lemma UnitsEnd(a0: ParsedTree, done: set<nat>, examined: seq<nat>, sent: seq<nat>)
    requires done == Reach(a0, 0)
    requires forall i :: i in examined <==> i in done && i < |a0| && IsUnitCell(a0[i])
    requires forall i :: i in sent <==> i in done && i < |a0| && NeedsDocstring(Tree(a0, i))
    ensures forall i :: i in sent <==> i in examined && i < |a0| && !HasDocstring(Tree(a0, i))
    ensures sent == [] <==> Pending(Tree(a0, 0)) == 0
  {
    ExistsIffCount(a0, 0, NeedsDocstring);
    if sent != [] {
      assert sent[0] in sent;
    }
  }

  /** Once every node has been yielded, the file starts with the text as read when no
      unit got a docstring, and with the unparsed documented tree otherwise. */
  lemma FileEnd(a0: ParsedTree, reply: Node -> string, unparse: Node -> string, content0: string,
                cells: seq<Cell>, done: set<nat>, wrote: bool, content: string, pos: nat)
    requires done == Reach(a0, 0) && Ordered(cells) && |a0| <= |cells|
    requires Tree(cells, 0) == Document(reply, Tree(a0, 0))
    requires wrote <==> exists i :: i in done && i < |a0| && Inserts(reply, Tree(a0, i))
    requires !wrote ==> cells == a0 && content == content0 && pos == |content|
    requires wrote ==> var w := unparse(Tree(cells, 0)); pos == |w| <= |content| && content[..pos] == w
    ensures var t0 := Tree(a0, 0); var t1 := Document(reply, t0);
      pos <= |content| && content[..pos] == (if t1 == t0 then content0 else unparse(t1))
  {
    ExistsIffCount(a0, 0, InsertsBy(reply));
    DocumentUnchangedIff(reply, Tree(a0, 0));
    if !wrote {
      assert content[..pos] == content0;
    }
  }
}
