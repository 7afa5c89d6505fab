/**
  The rewrite PrivateFinalStaticDemo: a post-order walk that adds `static` to
  every private or final method that touches no instance field.

  The host framework passes a "nonstatic" message from an identifier to the
  first enclosing method declaration.  Here that message is an explicit
  result: visiting a node yields the rewritten node and whether an instance
  access was seen below it that no method declaration has claimed yet.  A
  method declaration claims the flag of its own body and reports `false`
  upwards, so the signal reaches the nearest enclosing method only.
 */
module PrivateFinalStatic {
  import opened JavaTree

  /** AsWritten is the rule as the source implements it.
      ExcludeSerializationHooks adds the exclusion that the project's tests
      expect and the source lacks: the serialization hooks of a class that
      implements java.io.Serializable are never made static. */
  datatype Policy = AsWritten | ExcludeSerializationHooks

  /** The classifier: the identifier resolves to a field, the field is not
      static, and its owner is a class type. */
  predicate IsInstanceAccess(ft: Option<FieldInfo>)
  {
    ft.Some? && !ft.value.isStatic && ft.value.owner == ClassOwner
  }

  /** Whether the members of n belong to a Serializable class, given that n
      itself sits in a context where that answer is `serializable`. */
  function MemberContext(n: Node, serializable: bool): bool
  {
    if n.Class? then SerializableInterface in n.interfaces else serializable
  }

  /** Under the extended policy, whether a method of this name must be kept
      as it is. */
  predicate IsSerializationHook(policy: Policy, name: string, serializable: bool)
  {
    policy == ExcludeSerializationHooks && serializable && name in SerializationHooks
  }

  /** The decider, applied to a method whose body has been visited already.
      `nonstatic` is the signal its body posted. */
  function Decide(policy: Policy, m: Node, nonstatic: bool, serializable: bool): (r: Node)
    requires m.Method?
    ensures r.Method? && r.name == m.name && r.body == m.body
    ensures r.mods == m.mods || r.mods == m.mods + [Static]
    ensures Static in m.mods ==> r == m
  {
    if Static in m.mods then m
    else if Private !in m.mods && Final !in m.mods then m
    else if IsSerializationHook(policy, m.name, serializable) then m
    else if nonstatic then m
    else m.(mods := m.mods + [Static])
  }

  /** n' is n with `static` appended to the modifiers of some of its method
      declarations, and nothing else changed. */
  ghost predicate OnlyAddsStatic(n: Node, n': Node)
    decreases n, 1
  {
    match n
    case Ident(_, _) => n' == n
    case Other(cs) => n'.Other? && AllOnlyAddStatic(cs, n'.children)
    case Class(name, ifs, ms) =>
      n'.Class? && n'.name == name && n'.interfaces == ifs && AllOnlyAddStatic(ms, n'.members)
    case Method(name, mods, body) =>
      && n'.Method? && n'.name == name
      && (n'.mods == mods || n'.mods == mods + [Static])
      && AllOnlyAddStatic(body, n'.body)
  }

  ghost predicate AllOnlyAddStatic(cs: seq<Node>, cs': seq<Node>)
    decreases cs, 0
  {
    |cs| == |cs'| && forall i :: 0 <= i < |cs| ==> OnlyAddsStatic(cs[i], cs'[i])
  }

  /** Visits n and everything below it.  The first component is the
      rewritten node, the second whether an instance access below n still
      waits for an enclosing method declaration. */
  function Visit(policy: Policy, n: Node, serializable: bool): (r: (Node, bool))
    ensures OnlyAddsStatic(n, r.0)
    ensures n.Method? ==> !r.1
    ensures n.Ident? ==> r == (n, IsInstanceAccess(n.fieldType))
    decreases n, 1
  {
    match n
    case Ident(_, ft) => (n, IsInstanceAccess(ft))
    case Other(cs) =>
      var (cs', seen) := VisitAll(policy, cs, serializable);
      (Other(cs'), seen)
    case Class(name, ifs, ms) =>
      var (ms', seen) := VisitAll(policy, ms, MemberContext(n, serializable));
      (Class(name, ifs, ms'), seen)
    case Method(name, mods, body) =>
      var (body', seen) := VisitAll(policy, body, serializable);
      (Decide(policy, Method(name, mods, body'), seen, serializable), false)
  }

  /** Visits a list of siblings in order. */
  function VisitAll(policy: Policy, cs: seq<Node>, serializable: bool): (r: (seq<Node>, bool))
    ensures AllOnlyAddStatic(cs, r.0)
    ensures forall i :: 0 <= i < |cs| ==> r.0[i] == Visit(policy, cs[i], serializable).0
    ensures r.1 <==> exists i :: 0 <= i < |cs| && Visit(policy, cs[i], serializable).1
    decreases cs, 0
  {
    if cs == [] then ([], false)
    else
      var (h, seenHead) := Visit(policy, cs[0], serializable);
      var (t, seenTail) := VisitAll(policy, cs[1..], serializable);
      assert forall i :: 1 <= i < |cs| ==> cs[i] == cs[1..][i - 1];
      ([h] + t, seenHead || seenTail)
  }

  /** Runs the rewrite over a compilation unit.  A signal that reaches the
      root has no enclosing method declaration and is dropped. */
  function Apply(policy: Policy, cu: Node): (r: Node)
    ensures OnlyAddsStatic(cu, r)
  {
    Visit(policy, cu, false).0
  }
}
