/** `Context`: the cancellation tree.

    A `Context` is a shared handle: every clone sees the same stop flag, and a
    child holds its parent. The model keeps all contexts in one `Forest`, a
    sequence of nodes addressed by index, where a parent is always created
    before its child and so has a smaller index. The wall clock
    (`SystemTime::now()`) becomes an explicit `now`, in nanoseconds. */
module Context {
  import opened Base

  /** One context: its parent, its stop flag, the instant it was created and
      its optional timeout. */
  datatype Node = Node(parent: Option<nat>, stopped: bool, created: int, timeout: Option<nat>)

  datatype Forest = Forest(nodes: seq<Node>)

  /** Every parent index points to an earlier node. */
  predicate Valid(f: Forest)
  {
    forall id | 0 <= id < |f.nodes| ::
      f.nodes[id].parent.Some? ==> f.nodes[id].parent.value < id
  }

  predicate Exists(f: Forest, id: nat)
  {
    id < |f.nodes|
  }

  predicate ParentOk(f: Forest, parent: Option<nat>)
  {
    parent.Some? ==> Exists(f, parent.value)
  }

  /** The node's own deadline: a timeout is set and strictly more than it has
      elapsed since creation. A clock reading before the creation instant has
      no elapsed time (`duration_since` fails) and never trips it. */
  predicate Expired(n: Node, now: int)
  {
    n.timeout.Some? && now >= n.created && now - n.created > n.timeout.value
  }

  /** `done`: the parent is done, or the deadline has passed, or the context
      was stopped. */
  predicate Done(f: Forest, id: nat, now: int)
    requires Valid(f) && Exists(f, id)
    decreases id
  {
    var n := f.nodes[id];
    (n.parent.Some? && Done(f, n.parent.value, now)) || Expired(n, now) || n.stopped
  }

  /** `a` is `d` or one of its ancestors. */
  predicate AncestorOrSelf(f: Forest, a: nat, d: nat)
    requires Valid(f) && Exists(f, d)
    decreases d
  {
    a == d || (f.nodes[d].parent.Some? && AncestorOrSelf(f, a, f.nodes[d].parent.value))
  }

  /** Appending nodes leaves the verdict of every existing context alone. */
  lemma {:induction false} DoneExtends(f: Forest, g: Forest, id: nat, now: int)
    requires Valid(f) && Valid(g) && Exists(f, id)
    requires |f.nodes| <= |g.nodes| && g.nodes[..|f.nodes|] == f.nodes
    ensures Done(g, id, now) == Done(f, id, now)
    decreases id
  {
    assert g.nodes[id] == f.nodes[id];
    var n := f.nodes[id];
    if n.parent.Some? {
      DoneExtends(f, g, n.parent.value, now);
    }
  }

  /** `background(parent)`: a new context, not stopped, without deadline. */
  function Background(f: Forest, parent: Option<nat>, now: int): (r: (Forest, nat))
    requires Valid(f) && ParentOk(f, parent)
    ensures Valid(r.0) && r.1 == |f.nodes| && Exists(r.0, r.1)
    ensures r.0.nodes[..|f.nodes|] == f.nodes
  {
    (Forest(f.nodes + [Node(parent, false, now, None)]), |f.nodes|)
  }

  /** `with_timeout(parent, d)`: `background(parent)` with timeout `d`. */
  function WithTimeout(f: Forest, parent: Option<nat>, d: nat, now: int): (r: (Forest, nat))
    requires Valid(f) && ParentOk(f, parent)
    ensures Valid(r.0) && r.1 == |f.nodes| && Exists(r.0, r.1)
    ensures r.0.nodes[..|f.nodes|] == f.nodes
  {
    (Forest(f.nodes + [Node(parent, false, now, Some(d))]), |f.nodes|)
  }

  /** `stop`: sets the shared flag of this one context and reports success;
      no other node changes (descendants see it through `done`). */
  function Stop(f: Forest, id: nat): (r: (Forest, bool))
    requires Valid(f) && Exists(f, id)
    ensures Valid(r.0) && |r.0.nodes| == |f.nodes| && r.1
    ensures r.0.nodes[id] == f.nodes[id].(stopped := true)
    ensures forall j | 0 <= j < |f.nodes| && j != id :: r.0.nodes[j] == f.nodes[j]
    ensures forall now :: Done(r.0, id, now)
  {
    var g := Forest(f.nodes[id := f.nodes[id].(stopped := true)]);
    (g, true)
  }

  // ---------------------------------------------------------------- properties

  /** A background context is done exactly when its parent is, at every
      instant; without a parent it is never done until stopped. Older
      contexts are unaffected by its creation. */
  lemma BackgroundFollowsParent(f: Forest, parent: Option<nat>, created: int, now: int)
    requires Valid(f) && ParentOk(f, parent)
    ensures var (g, id) := Background(f, parent, created);
            && Done(g, id, now) == (parent.Some? && Done(f, parent.value, now))
            && forall c | 0 <= c < |f.nodes| :: Done(g, c, now) == Done(f, c, now)
  {
    var (g, id) := Background(f, parent, created);
    forall c | 0 <= c < |f.nodes|
      ensures Done(g, c, now) == Done(f, c, now)
    {
      DoneExtends(f, g, c, now);
    }
    if parent.Some? {
      DoneExtends(f, g, parent.value, now);
    }
  }

  /** A context with timeout `d` is not done at its creation instant unless
      its parent is, becomes done once more than `d` has elapsed even if no
      one stops anything, and ignores its deadline for clock readings before
      its creation. */
  lemma WithTimeoutDeadline(f: Forest, parent: Option<nat>, d: nat, created: int, now: int)
    requires Valid(f) && ParentOk(f, parent)
    ensures var (g, id) := WithTimeout(f, parent, d, created);
            && (Done(g, id, created) == (parent.Some? && Done(f, parent.value, created)))
            && (now > created + d ==> Done(g, id, now))
            && (now < created ==> Done(g, id, now) == (parent.Some? && Done(f, parent.value, now)))
  {
    var (g, id) := WithTimeout(f, parent, d, created);
    if parent.Some? {
      DoneExtends(f, g, parent.value, created);
      DoneExtends(f, g, parent.value, now);
    }
  }

  /** Stopping never un-does a context, and stopping twice changes nothing. */
  lemma {:induction false} StopMonotone(f: Forest, a: nat, id: nat, now: int)
    requires Valid(f) && Exists(f, a) && Exists(f, id)
    ensures Done(f, id, now) ==> Done(Stop(f, a).0, id, now)
    ensures Stop(Stop(f, a).0, a).0 == Stop(f, a).0
    decreases id
  {
    var g := Stop(f, a).0;
    var n := f.nodes[id];
    if n.parent.Some? {
      StopMonotone(f, a, n.parent.value, now);
    }
    assert g.nodes[id].parent == n.parent && g.nodes[id].created == n.created;
    assert g.nodes[id].timeout == n.timeout;
  }

  /** Stopping a context makes every descendant done, at any depth and any
      instant. */
  lemma {:induction false} StopReachesDescendants(f: Forest, a: nat, d: nat, now: int)
    requires Valid(f) && Exists(f, a) && Exists(f, d) && AncestorOrSelf(f, a, d)
    ensures Done(Stop(f, a).0, d, now)
    decreases d
  {
    var g := Stop(f, a).0;
    if a != d {
      var p := f.nodes[d].parent.value;
      StopReachesDescendants(f, a, p, now);
      assert g.nodes[d].parent == Some(p);
    }
  }

  /** After `stop(a)` a context is done exactly when it was done before or
      descends from `a`: contexts outside `a`'s subtree keep their verdict. */
  lemma {:induction false} StopExact(f: Forest, a: nat, d: nat, now: int)
    requires Valid(f) && Exists(f, a) && Exists(f, d)
    ensures Done(Stop(f, a).0, d, now) <==> Done(f, d, now) || AncestorOrSelf(f, a, d)
    decreases d
  {
    var g := Stop(f, a).0;
    var n := f.nodes[d];
    assert g.nodes[d] == n.(stopped := n.stopped || d == a);
    if n.parent.Some? {
      StopExact(f, a, n.parent.value, now);
    }
  }

  /** `done` walks up the chain of parents: a context is done exactly when
      it or one of its ancestors was stopped or is past its own deadline. */
  lemma {:induction false} DoneAncestor(f: Forest, id: nat, now: int)
    requires Valid(f) && Exists(f, id)
    ensures Done(f, id, now) <==>
            exists a | 0 <= a < |f.nodes| ::
              AncestorOrSelf(f, a, id) && (f.nodes[a].stopped || Expired(f.nodes[a], now))
    decreases id
  {
    var n := f.nodes[id];
    if n.stopped || Expired(n, now) {
      assert AncestorOrSelf(f, id, id);
    } else if n.parent.Some? {
      var p := n.parent.value;
      DoneAncestor(f, p, now);
      if Done(f, p, now) {
        var a :| 0 <= a < |f.nodes| && AncestorOrSelf(f, a, p) && (f.nodes[a].stopped || Expired(f.nodes[a], now));
        assert AncestorOrSelf(f, a, id);
      }
      if exists a | 0 <= a < |f.nodes| ::
           AncestorOrSelf(f, a, id) && (f.nodes[a].stopped || Expired(f.nodes[a], now)) {
        var a :| 0 <= a < |f.nodes| && AncestorOrSelf(f, a, id) && (f.nodes[a].stopped || Expired(f.nodes[a], now));
        assert a != id && AncestorOrSelf(f, a, p);
      }
    }
  }

  /** Once done, a context stays done as the clock moves forward. */
  lemma {:induction false} DoneLater(f: Forest, id: nat, now: int, later: int)
    requires Valid(f) && Exists(f, id) && now <= later
    ensures Done(f, id, now) ==> Done(f, id, later)
    decreases id
  {
    var n := f.nodes[id];
    if n.parent.Some? {
      DoneLater(f, n.parent.value, now, later);
    }
  }
}
