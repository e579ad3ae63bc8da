/**
  The list of message receivers of the data service, and the handles that point into it.
  A handle keeps an iterator: the node its receiver was put into. Removal swaps the contents of that
  node with the front node's and pops the front, so what a handle points to can change under it.
 */
module Handlers {

  type Node = nat
  // A receiver, named by the handle that registered it.
  type Id = nat

  datatype Service = Service(buffer: seq<Node>, content: map<Node, Id>, it: map<Id, Node>)

  /** The receivers in list order. */
  function Receivers(s: Service): (r: seq<Id>)
    requires Linked(s)
    ensures |r| == |s.buffer|
  {
    seq(|s.buffer|, i requires 0 <= i < |s.buffer| => s.content[s.buffer[i]])
  }

  ghost predicate Distinct(q: seq<Node>) {
    forall i, j :: 0 <= i < j < |q| ==> q[i] != q[j]
  }

  // A list of distinct nodes, each with a content, and no other node.
  ghost predicate Linked(s: Service) {
    Distinct(s.buffer) && forall n: Node :: n in s.buffer <==> n in s.content
  }

  datatype Op = Register(id: Id, node: Node) | Remove(id: Id)

  // A registration allocates a node that is not in use; a removal goes through a live handle whose node still exists.
  predicate Enabled(s: Service, op: Op) {
    match op
    case Register(id, node) => id !in s.it && node !in s.buffer
    case Remove(id) => id in s.it && s.it[id] in s.buffer
  }

  /** emplace_after(before_begin()), and swap with the front followed by pop_front. */
  function Apply(s: Service, op: Op): Service
    requires Linked(s) && Enabled(s, op)
  {
    match op
    case Register(id, node) => Service([node] + s.buffer, s.content[node := id], s.it[id := node])
    case Remove(id) =>
      var front := s.buffer[0];
      var swapped := s.content[s.it[id] := s.content[front]];
      Service(s.buffer[1..], swapped - {front}, s.it - {id})
  }

  /** Every live handle points to a node of the list, and the node holds the handle's own receiver. */
  ghost predicate AllOwn(s: Service) {
    && Linked(s)
    && (forall id: Id :: id in s.it ==> s.it[id] in s.content && s.content[s.it[id]] == id)
    && (forall n: Node :: n in s.content ==> s.content[n] in s.it && s.it[s.content[n]] == n)
  }

  predicate Lifo(s: Service, op: Op)
    requires Enabled(s, op)
  {
    op.Remove? ==> s.it[op.id] == s.buffer[0]
  }

  lemma InTail(q: seq<Node>, n: Node)
    requires |q| > 0 && Distinct(q)
    ensures n in q[1..] <==> n in q && n != q[0]
    ensures Distinct(q[1..])
  {
    if n in q && n != q[0] {
      var i :| 0 <= i < |q| && q[i] == n;
      assert q[1..][i - 1] == n;
    }
  }

  lemma RegisterLinked(s: Service, id: Id, node: Node)
    requires Linked(s) && Enabled(s, Register(id, node))
    ensures Linked(Apply(s, Register(id, node)))
  {
    var q := Apply(s, Register(id, node)).buffer;
    assert q[1..] == s.buffer;
    forall n: Node ensures n in q <==> n == node || n in s.buffer {
      if n in s.buffer { assert n in q[1..]; }
      assert q[0] == node;
    }
  }

  lemma RemoveLinked(s: Service, id: Id)
    requires Linked(s) && Enabled(s, Remove(id))
    ensures Linked(Apply(s, Remove(id)))
  {
    forall n: Node ensures n in s.buffer[1..] <==> n in s.buffer && n != s.buffer[0] {
      InTail(s.buffer, n);
    }
    InTail(s.buffer, 0);
  }

  lemma ApplyLinked(s: Service, op: Op)
    requires Linked(s) && Enabled(s, op)
    ensures Linked(Apply(s, op))
  {
    match op
    case Register(id, node) => RegisterLinked(s, id, node);
    case Remove(id) => RemoveLinked(s, id);
  }

  // ---------------------------------------------------- removal, as a multiset

  // The list of receivers after a removal at position k.
  function SwapPop(r: seq<Id>, k: nat): seq<Id>
    requires k < |r|
  {
    r[k := r[0]][1..]
  }

  lemma SwapPopMultiset(r: seq<Id>, k: nat)
    requires k < |r|
    ensures multiset(SwapPop(r, k)) == multiset(r) - multiset{r[k]}
  {
    var t := r[k := r[0]];
    assert t[0] == r[0] && t == [t[0]] + t[1..];
    assert multiset(t) == multiset{t[0]} + multiset(t[1..]);
    assert multiset(t) == multiset(r) - multiset{r[k]} + multiset{r[0]};
    var left, right := multiset(SwapPop(r, k)), multiset(r) - multiset{r[k]};
    forall x: Id ensures left[x] == right[x] {
      assert multiset(t)[x] == multiset{t[0]}[x] + left[x];
    }
  }

  lemma RemoveReceivers(s: Service, id: Id, k: nat)
    requires Linked(s) && Enabled(s, Remove(id)) && k < |s.buffer| && s.buffer[k] == s.it[id]
    ensures Linked(Apply(s, Remove(id))) && Receivers(Apply(s, Remove(id))) == SwapPop(Receivers(s), k)
  {
    RemoveLinked(s, id);
  }

  /** A removal takes exactly the receiver its node holds out of the list, whatever the order of removals. */
  lemma RemoveTakesHeld(s: Service, id: Id)
    requires Linked(s) && Enabled(s, Remove(id))
    ensures Linked(Apply(s, Remove(id)))
    ensures multiset(Receivers(Apply(s, Remove(id)))) == multiset(Receivers(s)) - multiset{s.content[s.it[id]]}
  {
    var k :| 0 <= k < |s.buffer| && s.buffer[k] == s.it[id];
    RemoveReceivers(s, id, k);
    SwapPopMultiset(Receivers(s), k);
  }

  // ---------------------------------------------------------- whose removal is safe

  lemma RegisterKeeps(s: Service, id: Id, node: Node)
    requires AllOwn(s) && Enabled(s, Register(id, node))
    ensures AllOwn(Apply(s, Register(id, node)))
  {
    RegisterLinked(s, id, node);
  }

  lemma FrontRemovalKeeps(s: Service, id: Id)
    requires AllOwn(s) && Enabled(s, Remove(id)) && s.it[id] == s.buffer[0]
    ensures AllOwn(Apply(s, Remove(id)))
  {
    RemoveLinked(s, id);
  }

  /** A removal from behind the front pops the node of the front's receiver: its handle dangles. */
  lemma OtherRemovalDangles(s: Service, id: Id)
    requires AllOwn(s) && Enabled(s, Remove(id)) && s.it[id] != s.buffer[0]
    ensures
      var front, s' := s.content[s.buffer[0]], Apply(s, Remove(id));
      && front in s'.it && front != id
      && s'.it[front] !in s'.buffer
      && s.it[id] in s'.content && s'.content[s.it[id]] == front
  {
    RemoveLinked(s, id);
    assert s.buffer[0] in s.buffer;
  }

  /**
    An operation keeps every handle pointing at its own receiver exactly if it is a registration or removes the front.
   */
  lemma KeepsIff(s: Service, op: Op)
    requires AllOwn(s) && Enabled(s, op)
    ensures AllOwn(Apply(s, op)) <==> Lifo(s, op)
  {
    match op
    case Register(id, node) => RegisterKeeps(s, id, node);
    case Remove(id) =>
      if s.it[id] == s.buffer[0] { FrontRemovalKeeps(s, id); } else { OtherRemovalDangles(s, id); }
  }

  // ------------------------------------------------------------------------ runs

  // The states of a run; `None` behind an operation that was not possible.
  predicate Runs(s: Service, ops: seq<Op>)
    requires Linked(s)
    decreases |ops|
  {
    ops == [] || (Enabled(s, ops[0]) && (ApplyLinked(s, ops[0]); Runs(Apply(s, ops[0]), ops[1..])))
  }

  predicate LifoRun(s: Service, ops: seq<Op>)
    requires Linked(s) && Runs(s, ops)
    decreases |ops|
  {
    ops == [] || (Lifo(s, ops[0]) && (ApplyLinked(s, ops[0]); LifoRun(Apply(s, ops[0]), ops[1..])))
  }

  ghost predicate AlwaysOwn(s: Service, ops: seq<Op>)
    requires Linked(s) && Runs(s, ops)
    decreases |ops|
  {
    AllOwn(s) && (ops == [] || (ApplyLinked(s, ops[0]); AlwaysOwn(Apply(s, ops[0]), ops[1..])))
  }

  /**
    Over any run of registrations and removals: every live handle keeps its own receiver all along, exactly if each
    removal was of the newest live handle.
   */
  lemma OwnIffLifo(s: Service, ops: seq<Op>)
    requires AllOwn(s) && Runs(s, ops)
    ensures AlwaysOwn(s, ops) <==> NewestFirst(Receivers(s), ops)
  {
    OwnIffFront(s, ops);
    LifoIsNewest(s, ops);
  }

  lemma {:induction false} OwnIffFront(s: Service, ops: seq<Op>)
    requires AllOwn(s) && Runs(s, ops)
    ensures AlwaysOwn(s, ops) <==> LifoRun(s, ops)
    decreases |ops|
  {
    if ops != [] {
      ApplyLinked(s, ops[0]);
      KeepsIff(s, ops[0]);
      if Lifo(s, ops[0]) {
        OwnIffFront(Apply(s, ops[0]), ops[1..]);
      } else {
        NotOwn(Apply(s, ops[0]), ops[1..]);
      }
    }
  }

  // Each removal names the live receiver registered last; `live` lists them with the newest first.
  predicate NewestFirst(live: seq<Id>, ops: seq<Op>)
    decreases |ops|
  {
    ops == [] ||
    match ops[0]
    case Register(id, _) => NewestFirst([id] + live, ops[1..])
    case Remove(id) => live != [] && live[0] == id && NewestFirst(live[1..], ops[1..])
  }

  lemma RegisterInFront(s: Service, id: Id, node: Node)
    requires Linked(s) && Enabled(s, Register(id, node))
    ensures Linked(Apply(s, Register(id, node)))
    ensures Receivers(Apply(s, Register(id, node))) == [id] + Receivers(s)
  {
    RegisterLinked(s, id, node);
    var t := Apply(s, Register(id, node));
    forall k | 0 <= k < |t.buffer| ensures Receivers(t)[k] == ([id] + Receivers(s))[k] {
      if k > 0 { assert t.buffer[k] == s.buffer[k - 1] && s.buffer[k - 1] in s.buffer; }
    }
  }

  lemma RemoveFront(s: Service, id: Id)
    requires AllOwn(s) && Enabled(s, Remove(id)) && s.it[id] == s.buffer[0]
    ensures Linked(Apply(s, Remove(id)))
    ensures Receivers(s)[0] == id && Receivers(Apply(s, Remove(id))) == Receivers(s)[1..]
  {
    RemoveReceivers(s, id, 0);
  }

  /** The handle at the front of the list is the newest live one: the runs above are those that remove the newest. */
  lemma {:induction false} LifoIsNewest(s: Service, ops: seq<Op>)
    requires AllOwn(s) && Runs(s, ops)
    ensures LifoRun(s, ops) <==> NewestFirst(Receivers(s), ops)
    decreases |ops|
  {
    if ops != [] {
      ApplyLinked(s, ops[0]);
      KeepsIff(s, ops[0]);
      match ops[0]
      case Register(id, node) =>
        RegisterInFront(s, id, node);
        LifoIsNewest(Apply(s, ops[0]), ops[1..]);
      case Remove(id) =>
        if Lifo(s, ops[0]) {
          RemoveFront(s, id);
          LifoIsNewest(Apply(s, ops[0]), ops[1..]);
        }
    }
  }

  lemma NotOwn(s: Service, ops: seq<Op>)
    requires Linked(s) && Runs(s, ops) && !AllOwn(s)
    ensures !AlwaysOwn(s, ops)
  {}

  /**
    Two overlapping requests, of which the older finishes first: the newer handle's node is gone, and its receiver
    sits in the older one's.
   */
  lemma OverlapDangles(a: Id, b: Id, m: Node, n: Node)
    requires a != b && m != n
    ensures
      var s := Service([n, m], map[m := a, n := b], map[a := m, b := n]);
      && AllOwn(s) && Enabled(s, Remove(a))
      && Apply(s, Remove(a)) == Service([m], map[m := b], map[b := n])
      && !Enabled(Apply(s, Remove(a)), Remove(b))
  {
    var s := Service([n, m], map[m := a, n := b], map[a := m, b := n]);
    var s' := Apply(s, Remove(a));
    assert s'.buffer == [m];
    assert s'.content.Keys == {m};
    assert s'.it.Keys == {b};
  }

  // ------------------------------------------------------------------ the class

  lemma SwapThenPop(content: map<Node, Id>, node: Node, front: Node)
    requires node in content && front in content
    ensures content[node := content[front]][front := content[node]] - {front} ==
            content[node := content[front]] - {front}
  {}

  /** The list as the source keeps it: linked nodes whose contents a removal swaps. */
  class HandlerBuffer {
    var buffer: seq<Node>
    var content: map<Node, Id>
    var it: map<Id, Node>

    function Abs(): Service
      reads this
    {
      Service(buffer, content, it)
    }

    ghost predicate Valid()
      reads this
    {
      Linked(Abs())
    }

    constructor ()
      ensures Valid() && AllOwn(Abs()) && buffer == []
    {
      buffer, content, it := [], map[], map[];
    }

    // The constructor of TxHandle; the allocator chose the node.
    method Register(id: Id, node: Node)
      requires Valid() && id !in it && node !in buffer
      modifies this
      ensures Valid() && Abs() == Apply(old(Abs()), Op.Register(id, node))
      ensures old(AllOwn(Abs())) ==> AllOwn(Abs())
    {
      ApplyLinked(Abs(), Op.Register(id, node));
      if AllOwn(Abs()) { RegisterKeeps(Abs(), id, node); }
      buffer := [node] + buffer;
      content := content[node := id];
      it := it[id := node];
    }

    method Remove(id: Id)
      requires Valid() && id in it && it[id] in buffer
      modifies this
      ensures Valid() && Abs() == Apply(old(Abs()), Op.Remove(id))
    {
      RemoveLinked(Abs(), id);
      var node, front := it[id], buffer[0];
      SwapThenPop(content, node, front);
      var held := content[node];
      content := content[node := content[front]];
      content := content[front := held];
      content := content - {front};
      buffer := buffer[1..];
      it := it - {id};
    }
  }
}
