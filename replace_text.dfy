/** The per-element body of `$.fn.replaceText`: one walk over the direct
    children of an element that rewrites text nodes, inserts markup before the
    ones whose new value holds a `<`, and removes those afterwards in a batch. */
module ReplaceText {
  import opened Entities

  type NodeId = nat

  /** A child node. Text and other (element, comment, ...) nodes have an
      identity; markup inserted by the walk is one opaque node. */
  datatype Node = Text(id: NodeId, value: string) | Other(id: NodeId) | Markup(html: string)

  predicate HasId(n: Node)
  {
    !n.Markup?
  }

  /** The identities present among the nodes. */
  function IdSet(c: seq<Node>): set<NodeId>
  {
    set n | n in c && HasId(n) :: n.id
  }

  /** No two nodes share an identity: each is a distinct DOM object. */
  ghost predicate DistinctIds(c: seq<Node>)
  {
    forall i, j :: 0 <= i < j < |c| && HasId(c[i]) && HasId(c[j]) ==> c[i].id != c[j].id
  }

  /** The element and comment nodes among the children, in order. */
  function Others(c: seq<Node>): seq<Node>
  {
    if c == [] then [] else (if c[0].Other? then [c[0]] else []) + Others(c[1..])
  }

  /** `new_val`: the replacement applied to the escaped value of a text node. */
  function NewValue(value: string, f: string -> string): string
  {
    f(EscapeHtml(value))
  }

  /** `new_val !== val`. */
  predicate Changed(value: string, f: string -> string)
  {
    NewValue(value, f) != EscapeHtml(value)
  }

  /** The slow path is taken: the value changed, markup is allowed and the new value holds a `<`. */
  predicate AsMarkup(value: string, f: string -> string, textOnly: bool)
  {
    Changed(value, f) && !textOnly && '<' in NewValue(value, f)
  }

  /** What one loop iteration leaves in place of a node: the node itself, the
      node with its value rewritten, or inserted markup followed by the node. */
  function Visit(n: Node, f: string -> string, textOnly: bool): seq<Node>
  {
    match n
    case Text(id, value) =>
      if !Changed(value, f) then [n]
      else if AsMarkup(value, f, textOnly) then [Markup(NewValue(value, f)), n]
      else [Text(id, UnescapeHtml(NewValue(value, f)))]
    case _ => [n]
  }

  /** The children after the walk and before the removal. */
  function Walked(c: seq<Node>, f: string -> string, textOnly: bool): seq<Node>
  {
    if c == [] then [] else Visit(c[0], f, textOnly) + Walked(c[1..], f, textOnly)
  }

  /** What one loop iteration pushes onto `remove`. */
  function Pushed(n: Node, f: string -> string, textOnly: bool): seq<NodeId>
  {
    if n.Text? && AsMarkup(n.value, f, textOnly) then [n.id] else []
  }

  /** The `remove` list the walk builds. */
  function Queued(c: seq<Node>, f: string -> string, textOnly: bool): seq<NodeId>
  {
    if c == [] then [] else Pushed(c[0], f, textOnly) + Queued(c[1..], f, textOnly)
  }

  /** The nodes left once those whose identity is in `ids` are removed. */
  function Without(c: seq<Node>, ids: seq<NodeId>): seq<Node>
  {
    if c == [] then []
    else (if HasId(c[0]) && c[0].id in ids then [] else [c[0]]) + Without(c[1..], ids)
  }

  /** The children `replaceText` leaves: the walk followed by the batch removal. */
  function ReplaceChildren(c: seq<Node>, f: string -> string, textOnly: bool): seq<Node>
  {
    Without(Walked(c, f, textOnly), Queued(c, f, textOnly))
  }

  /** What one child turns into: an unchanged text node or a non-text node
      stays, a text node on the slow path is replaced by its markup, any other
      changed text node keeps its identity and takes the unescaped value. */
  function Piece(n: Node, f: string -> string, textOnly: bool): seq<Node>
  {
    if !n.Text? || !Changed(n.value, f) then [n]
    else if AsMarkup(n.value, f, textOnly) then [Markup(NewValue(n.value, f))]
    else [Text(n.id, UnescapeHtml(NewValue(n.value, f)))]
  }

  /** The children node by node, each replaced by what it turns into. */
  function Rewritten(c: seq<Node>, f: string -> string, textOnly: bool): seq<Node>
  {
    if c == [] then [] else Piece(c[0], f, textOnly) + Rewritten(c[1..], f, textOnly)
  }

  lemma {:induction false} WalkedConcat(a: seq<Node>, b: seq<Node>, f: string -> string, textOnly: bool)
    ensures Walked(a + b, f, textOnly) == Walked(a, f, textOnly) + Walked(b, f, textOnly)
  {
    if a == [] {
      assert a + b == b;
    } else {
      assert (a + b)[0] == a[0] && (a + b)[1..] == a[1..] + b;
      WalkedConcat(a[1..], b, f, textOnly);
      assert Walked(a + b, f, textOnly) == Visit(a[0], f, textOnly) + Walked(a[1..] + b, f, textOnly);
    }
  }

  lemma {:induction false} QueuedConcat(a: seq<Node>, b: seq<Node>, f: string -> string, textOnly: bool)
    ensures Queued(a + b, f, textOnly) == Queued(a, f, textOnly) + Queued(b, f, textOnly)
  {
    if a == [] {
      assert a + b == b;
    } else {
      assert (a + b)[0] == a[0] && (a + b)[1..] == a[1..] + b;
      QueuedConcat(a[1..], b, f, textOnly);
      assert Queued(a + b, f, textOnly) == Pushed(a[0], f, textOnly) + Queued(a[1..] + b, f, textOnly);
    }
  }

  lemma {:induction false} WithoutConcat(a: seq<Node>, b: seq<Node>, ids: seq<NodeId>)
    ensures Without(a + b, ids) == Without(a, ids) + Without(b, ids)
  {
    if a == [] {
      assert a + b == b;
    } else {
      assert (a + b)[0] == a[0] && (a + b)[1..] == a[1..] + b;
      WithoutConcat(a[1..], b, ids);
      var head := if HasId(a[0]) && a[0].id in ids then [] else [a[0]];
      assert Without(a + b, ids) == head + Without(a[1..] + b, ids);
      assert Without(a, ids) == head + Without(a[1..], ids);
    }
  }

  /** Removal only looks at the identities actually present. */
  lemma {:induction false} WithoutSameIds(c: seq<Node>, ids: seq<NodeId>, other: seq<NodeId>)
    requires forall x :: x in IdSet(c) ==> (x in ids <==> x in other)
    ensures Without(c, ids) == Without(c, other)
  {
    if c != [] {
      assert forall x :: x in IdSet(c[1..]) ==> x in IdSet(c) by {
        forall x | x in IdSet(c[1..]) ensures x in IdSet(c) {
          var n :| n in c[1..] && HasId(n) && n.id == x;
          assert n in c;
        }
      }
      WithoutSameIds(c[1..], ids, other);
    }
  }

  lemma {:induction false} WalkIds(c: seq<Node>, f: string -> string, textOnly: bool)
    ensures IdSet(Walked(c, f, textOnly)) <= IdSet(c)
    ensures forall x :: x in Queued(c, f, textOnly) ==> x in IdSet(c)
  {
    if c != [] {
      WalkIds(c[1..], f, textOnly);
      assert c == [c[0]] + c[1..];
      forall n | n in Walked(c, f, textOnly) && HasId(n) ensures n.id in IdSet(c) {
        if n in Walked(c[1..], f, textOnly) {
          assert n.id in IdSet(c[1..]);
          var m :| m in c[1..] && HasId(m) && m.id == n.id;
          assert m in c;
        } else {
          assert n in Visit(c[0], f, textOnly);
          assert c[0] in c;
        }
      }
      forall x | x in Queued(c, f, textOnly) ensures x in IdSet(c) {
        if x in Queued(c[1..], f, textOnly) {
          var m :| m in c[1..] && HasId(m) && m.id == x;
          assert m in c;
        } else {
          assert c[0] in c;
        }
      }
    }
  }

  lemma {:induction false} RewrittenIds(c: seq<Node>, f: string -> string, textOnly: bool)
    ensures IdSet(Rewritten(c, f, textOnly)) <= IdSet(c)
  {
    if c != [] {
      RewrittenIds(c[1..], f, textOnly);
      IdSetConcat(Piece(c[0], f, textOnly), Rewritten(c[1..], f, textOnly));
      assert c == [c[0]] + c[1..];
      IdSetConcat([c[0]], c[1..]);
      PieceIds(c[0], f, textOnly);
    }
  }

  lemma {:induction false} RewrittenDistinct(c: seq<Node>, f: string -> string, textOnly: bool)
    requires DistinctIds(c)
    ensures DistinctIds(Rewritten(c, f, textOnly))
  {
    if c != [] {
      var rest := Rewritten(c[1..], f, textOnly);
      var here := Piece(c[0], f, textOnly);
      var r := Rewritten(c, f, textOnly);
      DistinctTail(c);
      RewrittenDistinct(c[1..], f, textOnly);
      RewrittenIds(c[1..], f, textOnly);
      PieceIds(c[0], f, textOnly);
      assert r == here + rest && |here| == 1;
      forall i, j | 0 <= i < j < |r| && HasId(r[i]) && HasId(r[j]) ensures r[i].id != r[j].id {
        if i == 0 {
          assert r[j] == rest[j - 1];
          assert r[j].id in IdSet(rest);
        } else {
          assert r[i] == rest[i - 1] && r[j] == rest[j - 1];
        }
      }
    }
  }

  /** Two distinct lists with no identity in common are distinct together. */
  lemma DistinctConcat(a: seq<Node>, b: seq<Node>)
    requires DistinctIds(a) && DistinctIds(b) && IdSet(a) !! IdSet(b)
    ensures DistinctIds(a + b)
  {
    var r := a + b;
    forall i, j | 0 <= i < j < |r| && HasId(r[i]) && HasId(r[j]) ensures r[i].id != r[j].id {
      if j < |a| {
        assert r[i] == a[i] && r[j] == a[j];
      } else if i >= |a| {
        assert r[i] == b[i - |a|] && r[j] == b[j - |a|];
      } else {
        assert r[i] == a[i] && a[i] in a;
        assert r[j] == b[j - |a|] && b[j - |a|] in b;
        assert r[i].id in IdSet(a) && r[j].id in IdSet(b);
      }
    }
  }

  /** The batch removal keeps distinct nodes distinct and brings in no identity. */
  lemma {:induction false} WithoutDistinct(c: seq<Node>, ids: seq<NodeId>)
    requires DistinctIds(c)
    ensures DistinctIds(Without(c, ids)) && IdSet(Without(c, ids)) <= IdSet(c)
  {
    if c != [] {
      var head := if HasId(c[0]) && c[0].id in ids then [] else [c[0]];
      DistinctTail(c);
      WithoutDistinct(c[1..], ids);
      assert c == [c[0]] + c[1..];
      assert forall m :: m in [c[0]] <==> m == c[0];
      IdSetConcat([c[0]], c[1..]);
      IdSetConcat(head, Without(c[1..], ids));
      DistinctConcat(head, Without(c[1..], ids));
    }
  }

  /** The walk keeps distinct nodes distinct: inserted markup carries no identity. */
  lemma {:induction false} WalkedDistinct(c: seq<Node>, f: string -> string, textOnly: bool)
    requires DistinctIds(c)
    ensures DistinctIds(Walked(c, f, textOnly))
  {
    if c != [] {
      DistinctTail(c);
      WalkedDistinct(c[1..], f, textOnly);
      WalkIds(c[1..], f, textOnly);
      VisitIds(c[0], f, textOnly);
      DistinctConcat(Visit(c[0], f, textOnly), Walked(c[1..], f, textOnly));
    }
  }

  /** The first node's identity is not among the others, and the others are distinct. */
  lemma DistinctTail(c: seq<Node>)
    requires c != []
    ensures DistinctIds(c) ==> DistinctIds(c[1..])
    ensures DistinctIds(c) && HasId(c[0]) ==> c[0].id !in IdSet(c[1..])
  {
    if DistinctIds(c) && HasId(c[0]) {
      forall n | n in c[1..] && HasId(n) ensures n.id != c[0].id {
        var k :| 0 <= k < |c[1..]| && c[1..][k] == n;
        assert c[k + 1] == n;
      }
    }
  }

  /** The walk with deferred removal has the node-by-node effect: removing
      the queued nodes after the walk takes away exactly the text nodes whose
      markup was inserted, and nothing else. */
  lemma {:induction false} RemovalAfterWalk(c: seq<Node>, f: string -> string, textOnly: bool)
    requires DistinctIds(c)
    ensures ReplaceChildren(c, f, textOnly) == Rewritten(c, f, textOnly)
  {
    if c != [] {
      var n, rest := c[0], c[1..];
      var q := Queued(c, f, textOnly);
      var v, w := Visit(n, f, textOnly), Walked(rest, f, textOnly);
      assert q == Pushed(n, f, textOnly) + Queued(rest, f, textOnly);
      DistinctTail(c);
      WalkIds(rest, f, textOnly);
      RemovalAfterWalk(rest, f, textOnly);
      WithoutConcat(v, w, q);
      WithoutSameIds(w, q, Queued(rest, f, textOnly));
      VisitIds(n, f, textOnly);
      WithoutSameIds(v, q, Pushed(n, f, textOnly));
      VisitThenRemove(n, f, textOnly);
    }
  }

  lemma VisitIds(n: Node, f: string -> string, textOnly: bool)
    ensures IdSet(Visit(n, f, textOnly)) <= if HasId(n) then {n.id} else {}
  {
  }

  /** One node: removing what its iteration pushed from what it left gives its piece. */
  lemma VisitThenRemove(n: Node, f: string -> string, textOnly: bool)
    ensures Without(Visit(n, f, textOnly), Pushed(n, f, textOnly)) == Piece(n, f, textOnly)
  {
    var v := Visit(n, f, textOnly);
    if n.Text? && AsMarkup(n.value, f, textOnly) {
      assert v[1..] == [n] && v[1..][1..] == [];
      assert Without([n], [n.id]) == [] + Without([], [n.id]);
    } else {
      assert v[1..] == [];
    }
  }

  /** Element and comment nodes are never modified, and keep their relative order. */
  lemma {:induction false} OthersPreserved(c: seq<Node>, f: string -> string, textOnly: bool)
    ensures Others(Rewritten(c, f, textOnly)) == Others(c)
  {
    if c != [] {
      OthersConcat(Piece(c[0], f, textOnly), Rewritten(c[1..], f, textOnly));
      OthersPreserved(c[1..], f, textOnly);
    }
  }

  lemma {:induction false} OthersConcat(a: seq<Node>, b: seq<Node>)
    ensures Others(a + b) == Others(a) + Others(b)
  {
    if a == [] {
      assert a + b == b;
    } else {
      assert (a + b)[0] == a[0] && (a + b)[1..] == a[1..] + b;
      OthersConcat(a[1..], b);
      var head := if a[0].Other? then [a[0]] else [];
      assert Others(a + b) == head + Others(a[1..] + b);
      assert Others(a) == head + Others(a[1..]);
      assert head + (Others(a[1..]) + Others(b)) == (head + Others(a[1..])) + Others(b);
    }
  }

  lemma {:induction false} WithoutNothing(c: seq<Node>)
    ensures Without(c, []) == c
  {
    if c != [] {
      WithoutNothing(c[1..]);
    }
  }

  /** A replacement that changes no escaped text value leaves the children
      identical: no node is rewritten, none is queued for removal. */
  lemma {:induction false} NoMatchNoChange(c: seq<Node>, f: string -> string, textOnly: bool)
    requires forall i :: 0 <= i < |c| && c[i].Text? ==> !Changed(c[i].value, f)
    ensures Walked(c, f, textOnly) == c
    ensures Queued(c, f, textOnly) == []
    ensures ReplaceChildren(c, f, textOnly) == c
  {
    if c != [] {
      NoMatchNoChange(c[1..], f, textOnly);
      WithoutNothing(c);
    }
  }

  /** Without the slow path (text only, or no `<` in any new value) every node
      keeps its identity and position, and each text node's value becomes the
      unescaped new value; for an unchanged node that is its old value again. */
  lemma {:induction false} InPlaceRewrite(c: seq<Node>, f: string -> string, textOnly: bool)
    requires forall i :: 0 <= i < |c| && c[i].Text? ==> textOnly || '<' !in NewValue(c[i].value, f)
    ensures Queued(c, f, textOnly) == []
    ensures |Rewritten(c, f, textOnly)| == |c|
    ensures forall i :: 0 <= i < |c| ==>
      Rewritten(c, f, textOnly)[i] == (if c[i].Text? then Text(c[i].id, UnescapeHtml(NewValue(c[i].value, f))) else c[i])
  {
    if c != [] {
      InPlaceRewrite(c[1..], f, textOnly);
      if c[0].Text? && !Changed(c[0].value, f) {
        RoundTrip(c[0].value);
      }
      var r := Rewritten(c, f, textOnly);
      forall i | 0 <= i < |c| ensures r[i] == (if c[i].Text? then Text(c[i].id, UnescapeHtml(NewValue(c[i].value, f))) else c[i]) {
        if i > 0 {
          assert r[i] == Rewritten(c[1..], f, textOnly)[i - 1];
          assert c[i] == c[1..][i - 1];
        }
      }
    }
  }

  /** A text node on the slow path: the walk leaves its markup immediately
      before it and queues it. */
  lemma MarkupBeforeNode(p: seq<Node>, n: Node, s: seq<Node>, f: string -> string, textOnly: bool)
    requires n.Text? && AsMarkup(n.value, f, textOnly)
    ensures Walked(p + [n] + s, f, textOnly) == Walked(p, f, textOnly) + [Markup(NewValue(n.value, f)), n] + Walked(s, f, textOnly)
    ensures Queued(p + [n] + s, f, textOnly) == Queued(p, f, textOnly) + [n.id] + Queued(s, f, textOnly)
  {
    var ns := [n] + s;
    assert p + [n] + s == p + ns;
    assert ns[0] == n && ns[1..] == s;
    WalkedConcat(p, ns, f, textOnly);
    QueuedConcat(p, ns, f, textOnly);
    assert Walked(ns, f, textOnly) == Visit(n, f, textOnly) + Walked(s, f, textOnly);
    assert Queued(ns, f, textOnly) == Pushed(n, f, textOnly) + Queued(s, f, textOnly);
  }

  /** After the removal the markup of a slow-path text node stands in its
      place and the node itself is gone. */
  lemma MarkupReplacesNode(p: seq<Node>, n: Node, s: seq<Node>, f: string -> string, textOnly: bool)
    requires n.Text? && AsMarkup(n.value, f, textOnly)
    requires DistinctIds(p + [n] + s)
    ensures ReplaceChildren(p + [n] + s, f, textOnly)
      == Rewritten(p, f, textOnly) + [Markup(NewValue(n.value, f))] + Rewritten(s, f, textOnly)
    ensures n.id !in IdSet(ReplaceChildren(p + [n] + s, f, textOnly))
  {
    var c, ns := p + [n] + s, [n] + s;
    assert c == p + ns;
    assert ns[0] == n && ns[1..] == s;
    MarkupBeforeNode(p, n, s, f, textOnly);
    RemovalAfterWalk(c, f, textOnly);
    RewrittenConcat(p, ns, f, textOnly);
    assert Rewritten(ns, f, textOnly) == Piece(n, f, textOnly) + Rewritten(s, f, textOnly);
    RemovesExactlyQueued(c, f, textOnly);
    assert n.id in Queued(c, f, textOnly);
  }

  lemma {:induction false} RewrittenConcat(a: seq<Node>, b: seq<Node>, f: string -> string, textOnly: bool)
    ensures Rewritten(a + b, f, textOnly) == Rewritten(a, f, textOnly) + Rewritten(b, f, textOnly)
  {
    if a == [] {
      assert a + b == b;
    } else {
      assert (a + b)[0] == a[0] && (a + b)[1..] == a[1..] + b;
      RewrittenConcat(a[1..], b, f, textOnly);
      assert Rewritten(a + b, f, textOnly) == Piece(a[0], f, textOnly) + Rewritten(a[1..] + b, f, textOnly);
    }
  }

  /** Exactly the queued nodes are removed: the identities left are the old
      ones minus the queued ones. */
  lemma {:induction false} RemovesExactlyQueued(c: seq<Node>, f: string -> string, textOnly: bool)
    requires DistinctIds(c)
    ensures forall x :: x in IdSet(ReplaceChildren(c, f, textOnly)) <==> x in IdSet(c) && x !in Queued(c, f, textOnly)
  {
    RemovalAfterWalk(c, f, textOnly);
    RewrittenIdSet(c, f, textOnly);
  }

  lemma {:induction false} RewrittenIdSet(c: seq<Node>, f: string -> string, textOnly: bool)
    requires DistinctIds(c)
    ensures forall x :: x in IdSet(Rewritten(c, f, textOnly)) <==> x in IdSet(c) && x !in Queued(c, f, textOnly)
  {
    if c != [] {
      var n, rest := c[0], c[1..];
      DistinctTail(c);
      RewrittenIdSet(rest, f, textOnly);
      WalkIds(rest, f, textOnly);
      IdSetConcat(Piece(n, f, textOnly), Rewritten(rest, f, textOnly));
      assert c == [n] + rest;
      IdSetConcat([n], rest);
      PieceIds(n, f, textOnly);
    }
  }

  lemma PieceIds(n: Node, f: string -> string, textOnly: bool)
    ensures IdSet(Piece(n, f, textOnly)) == if HasId(n) && !(n.Text? && AsMarkup(n.value, f, textOnly)) then {n.id} else {}
    ensures IdSet([n]) == if HasId(n) then {n.id} else {}
  {
    assert forall m :: m in [n] <==> m == n;
  }

  lemma IdSetConcat(a: seq<Node>, b: seq<Node>)
    ensures IdSet(a + b) == IdSet(a) + IdSet(b)
  {
    assert forall n :: n in a + b <==> n in a || n in b;
  }

  /** Escaped values hold no `<`, so the slow path is taken only when the
      replacement itself brought one in. */
  lemma SlowPathNeedsNewLt(value: string, f: string -> string, textOnly: bool)
    requires AsMarkup(value, f, textOnly)
    ensures '<' !in EscapeHtml(value) && '<' in NewValue(value, f)
  {
    EscapedIsSafe(value);
  }

  /** A DOM element whose direct children the replacement walks. */
  class Element {
    var children: seq<Node>

    ghost predicate Valid()
      reads this
    {
      DistinctIds(children)
    }

    constructor (children: seq<Node>)
      requires DistinctIds(children)
      ensures Valid() && this.children == children
    {
      this.children := children;
    }

    /** `$(remove).remove()`: takes the nodes with the given identities out of the children. */
    method RemoveNodes(ids: seq<NodeId>)
      modifies this
      ensures children == Without(old(children), ids)
      ensures DistinctIds(old(children)) ==> DistinctIds(children)
    {
      if DistinctIds(children) {
        WithoutDistinct(children, ids);
      }
      var nodes, kept := children, [];
      for i := 0 to |nodes|
        invariant kept == Without(nodes[..i], ids)
      {
        var n := nodes[i];
        WithoutConcat(nodes[..i], [n], ids);
        assert nodes[..i + 1] == nodes[..i] + [n];
        if !(HasId(n) && n.id in ids) {
          kept := kept + [n];
        }
      }
      assert nodes[..|nodes|] == nodes;
      children := kept;
    }

    /** The body `replaceText` runs for one element: walk the children once,
        rewrite changed text nodes in place or insert their markup before them
        and queue them, then remove the queued nodes in one batch. */
    method ReplaceText(f: string -> string, textOnly: bool)
      requires Valid()
      modifies this
      ensures Valid()
      ensures children == ReplaceChildren(old(children), f, textOnly)
      ensures children == Rewritten(old(children), f, textOnly)
    {
      ghost var c0 := children;
      var remove := Walk(f, textOnly);
      WalkThenRemove(c0, f, textOnly);
      if |remove| > 0 {
        RemoveNodes(remove);
      }
    }

    /** The `do ... while (node = node.nextSibling)` loop: visits each original
        child once, in order; inserted markup is stepped over, never visited. */
    method Walk(f: string -> string, textOnly: bool) returns (remove: seq<NodeId>)
      modifies this
      ensures children == Walked(old(children), f, textOnly)
      ensures remove == Queued(old(children), f, textOnly)
      ensures DistinctIds(old(children)) ==> DistinctIds(children)
    {
      ghost var c0 := children;
      ghost var k := 0;
      var i := 0;
      remove := [];
      while i < |children|
        invariant 0 <= k <= |c0|
        invariant children == Walked(c0[..k], f, textOnly) + c0[k..]
        invariant i == |Walked(c0[..k], f, textOnly)|
        invariant remove == Queued(c0[..k], f, textOnly)
        decreases |c0| - k
      {
        ghost var before := children;
        var next, pushed := VisitChild(i, f, textOnly);
        WalkAdvances(c0, k, before, children, i, next, remove, pushed, f, textOnly);
        remove := remove + pushed;
        i := next;
        k := k + 1;
      }
      assert c0[..k] == c0;
      if DistinctIds(c0) {
        WalkedDistinct(c0, f, textOnly);
      }
    }

    /** The body of the loop for the child at position `i`: a text node whose
        escaped value the replacement changes is either rewritten in place or
        gets its markup inserted before it and is reported for removal.
        Returns the position of the next original child. An internal step of
        `Walk`, specified by the whole new state it leaves. */
    method VisitChild(i: nat, f: string -> string, textOnly: bool) returns (next: nat, pushed: seq<NodeId>)
      requires i < |children|
      modifies this
      ensures children == old(children[..i]) + Visit(old(children[i]), f, textOnly) + old(children[i + 1..])
      ensures next == i + |Visit(old(children[i]), f, textOnly)|
      ensures pushed == Pushed(old(children[i]), f, textOnly)
    {
      var node := children[i];
      VisitShape(node, f, textOnly);
      next, pushed := i + 1, [];
      if node.Text? {
        var val := EscapeHtml(node.value);
        var newVal := f(val);
        if newVal != val {
          if !textOnly && '<' in newVal {
            assert children[i..] == [node] + children[i + 1..];
            children := children[..i] + [Markup(newVal)] + children[i..];
            pushed := [node.id];
            next := i + 2;
          } else {
            children := children[..i] + [Text(node.id, UnescapeHtml(newVal))] + children[i + 1..];
          }
        } else {
          assert children == children[..i] + [node] + children[i + 1..];
        }
      } else {
        assert children == children[..i] + [node] + children[i + 1..];
      }
    }
  }

  /** One iteration of the walk, spelled out in the loop's own terms. */
  lemma VisitShape(n: Node, f: string -> string, textOnly: bool)
    ensures !n.Text? ==> Visit(n, f, textOnly) == [n] && Pushed(n, f, textOnly) == []
    ensures n.Text? ==>
      var val := EscapeHtml(n.value);
      var newVal := f(val);
      && (newVal == val ==> Visit(n, f, textOnly) == [n] && Pushed(n, f, textOnly) == [])
      && (newVal != val && !textOnly && '<' in newVal ==>
            Visit(n, f, textOnly) == [Markup(newVal), n] && Pushed(n, f, textOnly) == [n.id])
      && (newVal != val && !(!textOnly && '<' in newVal) ==>
            Visit(n, f, textOnly) == [Text(n.id, UnescapeHtml(newVal))] && Pushed(n, f, textOnly) == [])
  {
  }

  /** The loop invariant of the walk is kept by one visit. */
  lemma WalkAdvances(c: seq<Node>, k: nat, before: seq<Node>, after: seq<Node>, i: nat, next: nat,
                     remove: seq<NodeId>, pushed: seq<NodeId>, f: string -> string, textOnly: bool)
    requires k < |c| && before == Walked(c[..k], f, textOnly) + c[k..] && i == |Walked(c[..k], f, textOnly)|
    requires remove == Queued(c[..k], f, textOnly)
    requires i < |before| && after == before[..i] + Visit(before[i], f, textOnly) + before[i + 1..]
    requires next == i + |Visit(before[i], f, textOnly)| && pushed == Pushed(before[i], f, textOnly)
    ensures after == Walked(c[..k + 1], f, textOnly) + c[k + 1..]
    ensures next == |Walked(c[..k + 1], f, textOnly)|
    ensures remove + pushed == Queued(c[..k + 1], f, textOnly)
  {
    WalkStep(c, k, f, textOnly);
    var done := Walked(c[..k], f, textOnly);
    assert before == done + [c[k]] + c[k + 1..];
    assert before[..i] == done && before[i] == c[k] && before[i + 1..] == c[k + 1..];
  }

  /** One iteration extends the walked prefix by the visit of the next node. */
  lemma WalkStep(c: seq<Node>, k: nat, f: string -> string, textOnly: bool)
    requires k < |c|
    ensures Walked(c[..k + 1], f, textOnly) == Walked(c[..k], f, textOnly) + Visit(c[k], f, textOnly)
    ensures Queued(c[..k + 1], f, textOnly) == Queued(c[..k], f, textOnly) + Pushed(c[k], f, textOnly)
    ensures c[k..] == [c[k]] + c[k + 1..]
  {
    assert c[..k + 1] == c[..k] + [c[k]];
    WalkedConcat(c[..k], [c[k]], f, textOnly);
    QueuedConcat(c[..k], [c[k]], f, textOnly);
    assert [c[k]][1..] == [];
    assert Walked([c[k]], f, textOnly) == Visit(c[k], f, textOnly) + Walked([], f, textOnly);
    assert Queued([c[k]], f, textOnly) == Pushed(c[k], f, textOnly) + Queued([], f, textOnly);
  }

  /** What the method needs after its loop. */
  lemma WalkThenRemove(c: seq<Node>, f: string -> string, textOnly: bool)
    requires DistinctIds(c)
    ensures ReplaceChildren(c, f, textOnly) == Rewritten(c, f, textOnly)
    ensures DistinctIds(Rewritten(c, f, textOnly))
    ensures Queued(c, f, textOnly) == [] ==> Walked(c, f, textOnly) == ReplaceChildren(c, f, textOnly)
  {
    RemovalAfterWalk(c, f, textOnly);
    RewrittenDistinct(c, f, textOnly);
    WithoutNothing(Walked(c, f, textOnly));
  }
}
