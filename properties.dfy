/**
  What the rewrite guarantees about each method declaration and about the
  tree as a whole.
 */
module RecipeProperties {
  import opened JavaTree
  import opened PrivateFinalStatic
  import opened Eligibility

  /** A method that is already static keeps its modifiers, whatever its body holds. */
  lemma AlreadyStaticUnchanged(policy: Policy, name: string, mods: seq<Modifier>, body: seq<Node>, serializable: bool)
    requires Static in mods
    ensures Visit(policy, Method(name, mods, body), serializable).0
            == Method(name, mods, VisitAll(policy, body, serializable).0)
  {
    MethodDecision(policy, name, mods, body, serializable);
  }

  /** A method that is neither private nor final keeps its modifiers, even
      when it touches static state only. */
  lemma NeitherPrivateNorFinalUnchanged(policy: Policy, name: string, mods: seq<Modifier>, body: seq<Node>, serializable: bool)
    requires Private !in mods && Final !in mods
    ensures Visit(policy, Method(name, mods, body), serializable).0
            == Method(name, mods, VisitAll(policy, body, serializable).0)
  {
    MethodDecision(policy, name, mods, body, serializable);
  }

  /** An instance access whose first enclosing method is m keeps m's
      modifiers as they are. */
  lemma InstanceAccessBlocks(policy: Policy, name: string, mods: seq<Modifier>, body: seq<Node>, serializable: bool, q: Path)
    requires SignalsTo(Method(name, mods, body), q)
    ensures Visit(policy, Method(name, mods, body), serializable).0
            == Method(name, mods, VisitAll(policy, body, serializable).0)
  {
    MethodDecision(policy, name, mods, body, serializable);
  }

  /** Identifiers that are not fields, fields flagged static and fields of a
      non-class owner never block: a private or final method whose own
      identifiers are all of these kinds becomes static (under the
      extension, unless it is a serialization hook of a Serializable class). */
  lemma OnlyStaticReferencesRewrite(policy: Policy, name: string, mods: seq<Modifier>, body: seq<Node>, serializable: bool)
    requires Static !in mods
    requires Private in mods || Final in mods
    requires !IsSerializationHook(policy, name, serializable)
    requires forall q: Path :: 0 < |q| && q[0] < |body| && ScopeLeaf(body[q[0]], q[1..]).Some? ==>
               var ft := ScopeLeaf(body[q[0]], q[1..]).value.fieldType;
               ft.None? || ft.value.isStatic || ft.value.owner == OtherOwner
    ensures Visit(policy, Method(name, mods, body), serializable).0
            == Method(name, mods + [Static], VisitAll(policy, body, serializable).0)
  {
    MethodDecision(policy, name, mods, body, serializable);
  }

  /** The only change the decider makes to a method is one `static`
      appended after its existing modifiers; name, body and the order of the
      modifiers it had are kept.  The result holds `static` exactly once. */
  lemma RewriteAppendsOneStatic(policy: Policy, name: string, mods: seq<Modifier>, body: seq<Node>, serializable: bool)
    ensures var r := Visit(policy, Method(name, mods, body), serializable).0;
            && r.Method? && r.name == name
            && r.body == VisitAll(policy, body, serializable).0
            && (r.mods == mods || (r.mods == mods + [Static] && multiset(r.mods)[Static] == 1))
  {
    var r := Visit(policy, Method(name, mods, body), serializable).0;
    if r.mods != mods {
      assert Static !in mods;
      assert multiset(mods)[Static] == 0;
    }
  }

  /** No path that passes through a method declaration ends at an
      identifier in the scope of the node it starts from. */
  lemma {:induction false} ThroughMethodReachesNothing(n: Node, p: Path, r: Path)
    requires At(n, p).Some? && At(n, p).value.Method?
    ensures ScopeLeaf(n, p + r).None?
    decreases |p|
  {
    if p != [] && !n.Method? {
      assert (p + r)[0] == p[0];
      assert (p + r)[1..] == p[1..] + r;
      ThroughMethodReachesNothing(Children(n)[p[0]], p[1..], r);
    }
  }

  /** A method declaration claims the signals of its own body: no identifier
      below a method declaration nested anywhere in m's body (at path p from
      m's i-th body element) signals to m, whatever it accesses. */
  lemma NestedMethodsDoNotBlock(m: Node, i: nat, p: Path, r: Path)
    requires m.Method? && i < |m.body|
    requires At(m.body[i], p).Some? && At(m.body[i], p).value.Method?
    ensures !SignalsTo(m, [i] + p + r)
  {
    var q := [i] + p + r;
    assert q[1..] == p + r;
    ThroughMethodReachesNothing(m.body[i], p, r);
  }

  /** Siblings are rewritten independently of each other and of their order:
      each method's outcome depends on its own subtree only. */
  lemma {:induction false} SiblingsIndependent(policy: Policy, a: seq<Node>, b: seq<Node>, serializable: bool)
    ensures VisitAll(policy, a + b, serializable)
            == (VisitAll(policy, a, serializable).0 + VisitAll(policy, b, serializable).0,
                VisitAll(policy, a, serializable).1 || VisitAll(policy, b, serializable).1)
  {
    var ab := VisitAll(policy, a + b, serializable);
    var ra := VisitAll(policy, a, serializable);
    var rb := VisitAll(policy, b, serializable);
    assert forall i :: 0 <= i < |a| ==> (a + b)[i] == a[i];
    assert forall i :: 0 <= i < |b| ==> (a + b)[|a| + i] == b[i];
    assert ab.0 == ra.0 + rb.0;
    if ab.1 {
      var i :| 0 <= i < |a + b| && Visit(policy, (a + b)[i], serializable).1;
      if i >= |a| {
        assert Visit(policy, b[i - |a|], serializable).1;
      }
    }
    if rb.1 {
      var i :| 0 <= i < |b| && Visit(policy, b[i], serializable).1;
      assert Visit(policy, (a + b)[|a| + i], serializable).1;
    }
  }

  /** An identifier with no enclosing method declaration affects nothing:
      its signal is dropped at the root. */
  lemma TopLevelIdentifierInert(policy: Policy, cs: seq<Node>, x: string, ft: Option<FieldInfo>)
    ensures Apply(policy, Other(cs + [Ident(x, ft)]))
            == Other(Apply(policy, Other(cs)).children + [Ident(x, ft)])
  {
    SiblingsIndependent(policy, cs, [Ident(x, ft)], false);
  }

  /** A class or other node is rebuilt around its visited children. */
  lemma VisitRebuilds(policy: Policy, n: Node, serializable: bool)
    requires n.Class? || n.Other?
    ensures Visit(policy, n, serializable).0
            == WithChildren(n, VisitAll(policy, Children(n), MemberContext(n, serializable)).0)
  {
  }

  /** Updating one element of a list updates that element of the result only. */
  lemma VisitAllUpdate(policy: Policy, cs: seq<Node>, i: nat, c: Node, serializable: bool)
    requires i < |cs|
    ensures VisitAll(policy, cs[i := c], serializable).0
            == VisitAll(policy, cs, serializable).0[i := Visit(policy, c, serializable).0]
  {
    var vs := VisitAll(policy, cs, serializable).0;
    var vs' := VisitAll(policy, cs[i := c], serializable).0;
    assert |vs'| == |vs[i := Visit(policy, c, serializable).0]|;
    forall k | 0 <= k < |vs'|
      ensures vs'[k] == vs[i := Visit(policy, c, serializable).0][k]
    {
    }
  }

  /** Whatever identifier sits at a path that enters no method declaration
      from n, the rest of n is rewritten alike: replacing it by any other
      identifier changes the output at that path only.  At the root of a
      compilation unit these are the identifiers with no enclosing method. */
  lemma {:induction false} IdentifierOutsideMethodsInert(policy: Policy, n: Node, p: Path, x: Node, serializable: bool)
    requires ScopeLeaf(n, p).Some? && x.Ident?
    ensures Visit(policy, Replace(n, p, x), serializable).0
            == Replace(Visit(policy, n, serializable).0, p, x)
    decreases |p|
  {
    if p != [] {
      var i := p[0];
      var cs := Children(n);
      var ctx := MemberContext(n, serializable);
      var c' := Replace(cs[i], p[1..], x);
      var n' := WithChildren(n, cs[i := c']);
      assert Replace(n, p, x) == n';
      assert MemberContext(n', serializable) == ctx;
      var vs := VisitAll(policy, cs, ctx).0;
      IdentifierOutsideMethodsInert(policy, cs[i], p[1..], x, ctx);
      VisitAllUpdate(policy, cs, i, c', ctx);
      VisitRebuilds(policy, n', serializable);
      VisitRebuilds(policy, n, serializable);
      var v := WithChildren(n, vs);
      assert Visit(policy, n', serializable).0 == WithChildren(n, vs[i := Visit(policy, c', ctx).0]);
      assert Replace(v, p, x) == WithChildren(v, vs[i := Replace(vs[i], p[1..], x)]);
    }
  }

  /** Visiting the output again changes nothing and posts the same signal:
      a rewritten method now holds `static` and stops at the first test; any
      other method meets the same tests with the same body signal. */
  lemma {:induction false} VisitIdempotent(policy: Policy, n: Node, serializable: bool)
    ensures Visit(policy, Visit(policy, n, serializable).0, serializable) == Visit(policy, n, serializable)
    decreases n, 1
  {
    match n
    case Ident(_, _) =>
    case Other(cs) =>
      VisitAllIdempotent(policy, cs, serializable);
    case Class(_, _, ms) =>
      VisitAllIdempotent(policy, ms, MemberContext(n, serializable));
    case Method(name, mods, body) =>
      VisitAllIdempotent(policy, body, serializable);
  }

  lemma {:induction false} VisitAllIdempotent(policy: Policy, cs: seq<Node>, serializable: bool)
    ensures VisitAll(policy, VisitAll(policy, cs, serializable).0, serializable) == VisitAll(policy, cs, serializable)
    decreases cs, 0
  {
    if cs != [] {
      var r := VisitAll(policy, cs, serializable);
      VisitIdempotent(policy, cs[0], serializable);
      VisitAllIdempotent(policy, cs[1..], serializable);
      assert r.0 == [r.0[0]] + r.0[1..];
      assert r.0[1..] == VisitAll(policy, cs[1..], serializable).0;
    }
  }

  /** Running the rewrite on its own output changes nothing. */
  lemma ApplyIdempotent(policy: Policy, cu: Node)
    ensures Apply(policy, Apply(policy, cu)) == Apply(policy, cu)
  {
    VisitIdempotent(policy, cu, false);
  }

  /** Under the extended policy the serialization hooks of a Serializable
      class keep their modifiers, whatever they access. */
  lemma ExclusionKeepsSerializationHooks(name: string, mods: seq<Modifier>, body: seq<Node>)
    requires name in SerializationHooks
    ensures Visit(ExcludeSerializationHooks, Method(name, mods, body), true).0
            == Method(name, mods, VisitAll(ExcludeSerializationHooks, body, true).0)
  {
    MethodDecision(ExcludeSerializationHooks, name, mods, body, true);
  }

  /** The two policies decide alike for every method that is not a hook of
      a Serializable class. */
  lemma PoliciesAgreeOffHooks(name: string, mods: seq<Modifier>, body: seq<Node>, serializable: bool)
    requires !(serializable && name in SerializationHooks)
    ensures Visit(ExcludeSerializationHooks, Method(name, mods, body), serializable).0.mods
            == Visit(AsWritten, Method(name, mods, body), serializable).0.mods
  {
    var m := Method(name, mods, body);
    MethodDecision(ExcludeSerializationHooks, name, mods, body, serializable);
    MethodDecision(AsWritten, name, mods, body, serializable);
  }
}
