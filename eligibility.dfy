/**
  A reference definition of which methods the rewrite makes static, stated
  on paths through the tree rather than on the walk, and the lemmas that
  tie the walk to it.
 */
module Eligibility {
  import opened JavaTree
  import opened PrivateFinalStatic

  /** The identifier that path q leads to from n when the path enters no
      method declaration, n itself included.  For an identifier below the
      body of a method m, ScopeLeaf(child of m, rest of path) is Some exactly
      when m is the identifier's first enclosing method declaration. */
  function ScopeLeaf(n: Node, q: Path): (leaf: Option<Node>)
    ensures leaf.Some? ==> leaf.value.Ident? && At(n, q) == leaf
    decreases |q|
  {
    if n.Method? then None
    else if q == [] then (if n.Ident? then Some(n) else None)
    else if q[0] < |Children(n)| then ScopeLeaf(Children(n)[q[0]], q[1..])
    else None
  }

  /** Path q from n reaches, without entering a method declaration, an
      identifier that the classifier counts as an instance access. */
  ghost predicate Reaches(n: Node, q: Path)
  {
    var leaf := ScopeLeaf(n, q);
    leaf.Some? && IsInstanceAccess(leaf.value.fieldType)
  }

  /** The identifier at path q below method m posts the "nonstatic" signal
      to m: m is its first enclosing method declaration. */
  ghost predicate SignalsTo(m: Node, q: Path)
    requires m.Method?
  {
    |q| > 0 && q[0] < |m.body| && Reaches(m.body[q[0]], q[1..])
  }

  /** Some identifier whose first enclosing method is m is an instance access. */
  ghost predicate Blocked(m: Node)
    requires m.Method?
  {
    exists q :: SignalsTo(m, q)
  }

  /** Method m, whose enclosing class is Serializable when `serializable`
      holds, gains `static`. */
  ghost predicate Eligible(policy: Policy, m: Node, serializable: bool)
    requires m.Method?
  {
    && Static !in m.mods
    && (Private in m.mods || Final in m.mods)
    && !IsSerializationHook(policy, m.name, serializable)
    && !Blocked(m)
  }

  /** Whether the class enclosing the node at path p of n is Serializable,
      when n sits in a context where that answer is `serializable`. */
  function ContextAt(n: Node, p: Path, serializable: bool): bool
    decreases |p|
  {
    if p == [] then serializable
    else if p[0] < |Children(n)| then ContextAt(Children(n)[p[0]], p[1..], MemberContext(n, serializable))
    else serializable
  }

  /** A signal that leaves n comes from an identifier that n reaches. */
  lemma {:induction false} SignalWitness(policy: Policy, n: Node, serializable: bool) returns (q: Path)
    requires Visit(policy, n, serializable).1
    ensures Reaches(n, q)
    decreases n
  {
    match n
    case Ident(_, _) =>
      q := [];
    case Method(_, _, _) =>
    case Other(cs) =>
      var i :| 0 <= i < |cs| && Visit(policy, cs[i], serializable).1;
      var q' := SignalWitness(policy, cs[i], serializable);
      q := [i] + q';
      assert q[1..] == q';
    case Class(_, _, ms) =>
      var i :| 0 <= i < |ms| && Visit(policy, ms[i], MemberContext(n, serializable)).1;
      var q' := SignalWitness(policy, ms[i], MemberContext(n, serializable));
      q := [i] + q';
      assert q[1..] == q';
  }

  /** Every identifier that n reaches sends its signal out of n. */
  lemma {:induction false} ReachesSignals(policy: Policy, n: Node, q: Path, serializable: bool)
    requires Reaches(n, q)
    ensures Visit(policy, n, serializable).1
    decreases |q|
  {
    if q != [] {
      var i := q[0];
      var c := Children(n)[i];
      ReachesSignals(policy, c, q[1..], MemberContext(n, serializable));
      assert Visit(policy, Children(n)[i], MemberContext(n, serializable)).1;
    }
  }

  /** The body of a method posts a signal exactly when the method is Blocked. */
  lemma {:induction false} BodySignalIffBlocked(policy: Policy, m: Node, serializable: bool)
    requires m.Method?
    ensures VisitAll(policy, m.body, serializable).1 <==> Blocked(m)
  {
    if VisitAll(policy, m.body, serializable).1 {
      var i :| 0 <= i < |m.body| && Visit(policy, m.body[i], serializable).1;
      var q := SignalWitness(policy, m.body[i], serializable);
      assert ([i] + q)[1..] == q;
      assert SignalsTo(m, [i] + q);
    }
    if Blocked(m) {
      var q :| SignalsTo(m, q);
      ReachesSignals(policy, m.body[q[0]], q[1..], serializable);
    }
  }

  /** The decider's outcome: after its body is visited, a method gains one
      trailing `static` exactly when it is Eligible; otherwise only its body
      changes.  It claims its body's signal and posts none. */
  lemma MethodDecision(policy: Policy, name: string, mods: seq<Modifier>, body: seq<Node>, serializable: bool)
    ensures var m := Method(name, mods, body);
            Visit(policy, m, serializable)
            == (Method(name, if Eligible(policy, m, serializable) then mods + [Static] else mods,
                       VisitAll(policy, body, serializable).0),
                false)
  {
    BodySignalIffBlocked(policy, Method(name, mods, body), serializable);
  }

  /** The children of a visited node are its visited children. */
  lemma ChildrenOfVisit(policy: Policy, n: Node, serializable: bool)
    ensures Children(Visit(policy, n, serializable).0)
            == VisitAll(policy, Children(n), MemberContext(n, serializable)).0
  {
  }

  /** Rewriting a whole tree rewrites each node as if that node were visited
      on its own in the context of its enclosing class: no signal crosses
      into a node from outside it. */
  lemma {:induction false} VisitAt(policy: Policy, n: Node, p: Path, serializable: bool)
    requires At(n, p).Some?
    ensures At(Visit(policy, n, serializable).0, p)
            == Some(Visit(policy, At(n, p).value, ContextAt(n, p, serializable)).0)
    decreases |p|
  {
    if p != [] {
      var ctx := MemberContext(n, serializable);
      ChildrenOfVisit(policy, n, serializable);
      VisitAt(policy, Children(n)[p[0]], p[1..], ctx);
    }
  }

  /** The outcome for every method declaration of a compilation unit, in the
      terms of the reference definition. */
  lemma MethodOutcomeAt(policy: Policy, cu: Node, p: Path)
    requires At(cu, p).Some? && At(cu, p).value.Method?
    ensures var m := At(cu, p).value;
            var ctx := ContextAt(cu, p, false);
            At(Apply(policy, cu), p)
            == Some(Method(m.name, if Eligible(policy, m, ctx) then m.mods + [Static] else m.mods,
                           VisitAll(policy, m.body, ctx).0))
  {
    var m := At(cu, p).value;
    VisitAt(policy, cu, p, false);
    MethodDecision(policy, m.name, m.mods, m.body, ContextAt(cu, p, false));
  }
}
