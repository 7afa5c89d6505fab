/**
  The part of a type-attributed Java syntax tree that the "private or final
  methods become static" rewrite looks at.  Parsing and type attribution
  belong to the host framework; a tree here arrives already resolved.
 */
module JavaTree {

  datatype Option<+T> = None | Some(value: T)

  /** The kind of type that owns a resolved variable.  The rewrite only asks
      whether the owner is a class type (JavaType.Class); every other owner
      (a method, for parameters and locals, or any other JavaType shape) is
      OtherOwner. */
  datatype OwnerKind = ClassOwner | OtherOwner

  /** What type attribution says about the variable an identifier names.
      The owner is always present: a resolved variable without an owner,
      on which the classifier would fail with a null dereference, is not
      represented. */
  datatype FieldInfo = FieldInfo(owner: OwnerKind, isStatic: bool)

  /** The modifier keywords a method declaration can carry. */
  datatype Modifier =
    | Default | Public | Protected | Private | Abstract | Static | Final
    | Sealed | NonSealed | Transient | Volatile | Synchronized | Native | Strictfp

  /** A path from a node to one of its descendants: child indexes, outermost first. */
  type Path = seq<nat>

  /** A tree node.  Ident carries the resolved field type, or None when the
      identifier does not resolve to a variable (a type or method name).
      Every node kind the rewrite does not single out is Other. */
  datatype Node =
    | Class(name: string, interfaces: seq<string>, members: seq<Node>)
    | Method(name: string, mods: seq<Modifier>, body: seq<Node>)
    | Ident(name: string, fieldType: Option<FieldInfo>)
    | Other(children: seq<Node>)

  /** The fully qualified name of the serialization marker interface. */
  const SerializableInterface: string := "java.io.Serializable"

  /** The methods Java serialization calls reflectively on a Serializable class. */
  const SerializationHooks: set<string> := {"writeObject", "readObject", "readObjectNoData"}

  /** The direct children of a node, in source order. */
  function Children(n: Node): (cs: seq<Node>)
    ensures forall c :: c in cs ==> c < n
    ensures n.Ident? ==> cs == []
  {
    match n
    case Class(_, _, members) => members
    case Method(_, _, body) => body
    case Ident(_, _) => []
    case Other(children) => children
  }

  /** The node that path p leads to from n, if p is a path of n. */
  function At(n: Node, p: Path): Option<Node>
    decreases |p|
  {
    if p == [] then Some(n)
    else if p[0] < |Children(n)| then At(Children(n)[p[0]], p[1..])
    else None
  }

  /** n with its children replaced by cs; an identifier has none to replace. */
  function WithChildren(n: Node, cs: seq<Node>): (r: Node)
    ensures !n.Ident? ==> Children(r) == cs
  {
    match n
    case Class(name, ifs, _) => Class(name, ifs, cs)
    case Method(name, mods, _) => Method(name, mods, cs)
    case Ident(_, _) => n
    case Other(_) => Other(cs)
  }

  /** n with the node at path p replaced by x; n itself when p is not a path of n. */
  function Replace(n: Node, p: Path, x: Node): (r: Node)
    ensures At(n, p).Some? ==> At(r, p) == Some(x)
    decreases |p|
  {
    if p == [] then x
    else if p[0] < |Children(n)| then
      WithChildren(n, Children(n)[p[0] := Replace(Children(n)[p[0]], p[1..], x)])
    else n
  }
}
