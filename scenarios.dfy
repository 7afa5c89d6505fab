/**
  The classes of the project's own tests, as resolved trees, with what the
  rewrite makes of them.  Field declarations are Other nodes holding the
  declared name; a parameter's identifier resolves to a variable owned by its
  method (OtherOwner); a type name resolves to no variable at all.
 */
module Scenarios {
  import opened JavaTree
  import opened PrivateFinalStatic
  import opened Eligibility
  import opened RecipeProperties

  const StringType: Node := Ident("String", None)
  const ValueParam: Node := Ident("value", Some(FieldInfo(OtherOwner, false)))
  const MagicWord: Node := Ident("magicWord", Some(FieldInfo(ClassOwner, true)))
  const Magic: Node := Ident("magic", Some(FieldInfo(ClassOwner, true)))
  const InstanceVariable: Node := Ident("instanceVariable", Some(FieldInfo(ClassOwner, false)))

  /** A getter `<mods> String <name>() { return <field>; }`. */
  function Getter(name: string, mods: seq<Modifier>, field: Node): Node
  {
    Method(name, mods, [StringType, Other([field])])
  }

  /** A setter `<mods> void <name>(String value) { <field> = value; }`. */
  function Setter(name: string, mods: seq<Modifier>, field: Node): Node
  {
    Method(name, mods, [Other([StringType, ValueParam]), Other([field, ValueParam])])
  }

  function Utilities(interfaces: seq<string>, field: Node, getter: Node, setter: Node, rest: seq<Node>): Node
  {
    Other([Class("Utilities", interfaces, [Other([StringType, field]), getter, setter] + rest)])
  }

  /** A list is replaced by the results of its elements. */
  lemma VisitAllResults(policy: Policy, cs: seq<Node>, serializable: bool, cs': seq<Node>)
    requires |cs'| == |cs|
    requires forall i :: 0 <= i < |cs| ==> Visit(policy, cs[i], serializable).0 == cs'[i]
    ensures VisitAll(policy, cs, serializable).0 == cs'
  {
    var r := VisitAll(policy, cs, serializable);
    assert |r.0| == |cs|;
    assert r.0 == cs';
  }

  /** A list whose elements each post no signal posts none either. */
  lemma VisitAllQuiet(policy: Policy, cs: seq<Node>, serializable: bool, cs': seq<Node>)
    requires |cs'| == |cs|
    requires forall i :: 0 <= i < |cs| ==> Visit(policy, cs[i], serializable) == (cs'[i], false)
    ensures VisitAll(policy, cs, serializable) == (cs', false)
  {
    VisitAllResults(policy, cs, serializable, cs');
  }

  /** A compilation unit holding one class; a signal from the class body has
      no enclosing method and is dropped. */
  lemma UnitOfClass(policy: Policy, name: string, ifs: seq<string>, ms: seq<Node>, ms': seq<Node>)
    requires VisitAll(policy, ms, SerializableInterface in ifs).0 == ms'
    ensures Apply(policy, Other([Class(name, ifs, ms)])) == Other([Class(name, ifs, ms')])
  {
    VisitAllResults(policy, [Class(name, ifs, ms)], false, [Class(name, ifs, ms')]);
  }

  /** A field declaration `String <field>;` outside any method. */
  lemma FieldDeclarationKept(policy: Policy, field: Node, serializable: bool)
    requires field.Ident?
    ensures Visit(policy, Other([StringType, field]), serializable).0 == Other([StringType, field])
  {
    var r := VisitAll(policy, [StringType, field], serializable);
    assert |r.0| == 2;
    assert r.0 == [StringType, field];
  }

  /** A getter or setter posts its field's classification to itself. */
  lemma AccessorOutcome(policy: Policy, name: string, mods: seq<Modifier>, field: Node, getter: bool, serializable: bool)
    requires field.Ident?
    ensures var m := if getter then Getter(name, mods, field) else Setter(name, mods, field);
            Visit(policy, m, serializable)
            == (Decide(policy, m, IsInstanceAccess(field.fieldType), serializable), false)
  {
    var f := IsInstanceAccess(field.fieldType);
    var m := if getter then Getter(name, mods, field) else Setter(name, mods, field);
    if getter {
      var r := VisitAll(policy, [field], serializable);
      assert |r.0| == 1 && r.0 == [field];
      assert Visit(policy, Other([field]), serializable) == (Other([field]), f);
      var b := VisitAll(policy, m.body, serializable);
      assert |b.0| == 2 && b.0 == m.body;
      assert b.1 == f by {
        assert Visit(policy, m.body[1], serializable).1 == f;
      }
    } else {
      var r := VisitAll(policy, [StringType, ValueParam], serializable);
      assert |r.0| == 2 && r.0 == [StringType, ValueParam] && !r.1;
      var r' := VisitAll(policy, [field, ValueParam], serializable);
      assert |r'.0| == 2 && r'.0 == [field, ValueParam];
      assert r'.1 == f by {
        assert Visit(policy, [field, ValueParam][0], serializable).1 == f;
      }
      var b := VisitAll(policy, m.body, serializable);
      assert |b.0| == 2 && b.0 == m.body;
      assert b.1 == f by {
        assert Visit(policy, m.body[1], serializable).1 == f;
      }
    }
  }

  /** A private getter and setter of a static field both become static. */
  lemma StaticFieldAccessorsBecomeStatic()
    ensures Apply(AsWritten,
                  Utilities([], MagicWord, Getter("getMagicWord", [Private], MagicWord),
                            Setter("setMagicWord", [Private], MagicWord), []))
            == Utilities([], MagicWord, Getter("getMagicWord", [Private, Static], MagicWord),
                         Setter("setMagicWord", [Private, Static], MagicWord), [])
  {
    var g := Getter("getMagicWord", [Private], MagicWord);
    var st := Setter("setMagicWord", [Private], MagicWord);
    var g' := Getter("getMagicWord", [Private, Static], MagicWord);
    var st' := Setter("setMagicWord", [Private, Static], MagicWord);
    assert [Private] + [Static] == [Private, Static];
    FieldDeclarationKept(AsWritten, MagicWord, false);
    AccessorOutcome(AsWritten, g.name, g.mods, MagicWord, true, false);
    AccessorOutcome(AsWritten, st.name, st.mods, MagicWord, false, false);
    var field := Other([StringType, MagicWord]);
    VisitAllResults(AsWritten, [field, g, st] + [], false, [field, g', st'] + []);
    UnitOfClass(AsWritten, "Utilities", [], [field, g, st] + [], [field, g', st'] + []);
  }

  /** Accessors of an instance field are left alone. */
  lemma InstanceFieldAccessorsUnchanged()
    ensures var cu := Utilities([], InstanceVariable,
                                Getter("getInstanceVariable", [Private], InstanceVariable),
                                Setter("setInstanceVariable", [Private], InstanceVariable), []);
            Apply(AsWritten, cu) == cu
  {
    var g := Getter("getInstanceVariable", [Private], InstanceVariable);
    var st := Setter("setInstanceVariable", [Private], InstanceVariable);
    FieldDeclarationKept(AsWritten, InstanceVariable, false);
    AccessorOutcome(AsWritten, g.name, g.mods, InstanceVariable, true, false);
    AccessorOutcome(AsWritten, st.name, st.mods, InstanceVariable, false, false);
    var field := Other([StringType, InstanceVariable]);
    VisitAllResults(AsWritten, [field, g, st] + [], false, [field, g, st] + []);
    UnitOfClass(AsWritten, "Utilities", [], [field, g, st] + [], [field, g, st] + []);
  }

  /** Package-private and public methods are left alone, even when they
      touch static state only. */
  lemma NonPrivateNonFinalUnchanged()
    ensures var cu := Utilities([], Magic, Getter("getInstanceVariable", [], Magic),
                                Setter("setInstanceVariable", [Public], Magic), []);
            Apply(AsWritten, cu) == cu
  {
    var g := Getter("getInstanceVariable", [], Magic);
    var st := Setter("setInstanceVariable", [Public], Magic);
    FieldDeclarationKept(AsWritten, Magic, false);
    AccessorOutcome(AsWritten, g.name, g.mods, Magic, true, false);
    AccessorOutcome(AsWritten, st.name, st.mods, Magic, false, false);
    var field := Other([StringType, Magic]);
    VisitAllResults(AsWritten, [field, g, st] + [], false, [field, g, st] + []);
    UnitOfClass(AsWritten, "Utilities", [], [field, g, st] + [], [field, g, st] + []);
  }

  const CountField: Node := Ident("count", Some(FieldInfo(ClassOwner, false)))

  /** `private Runnable task() { return new Runnable() { public void run() { use(count); } }; }`:
      the instance access inside `run` is claimed by `run`, so `task` becomes
      static while `run`, being public, stays as it is. */
  function Task(mods: seq<Modifier>): Node
  {
    Method("task", mods, [Ident("Runnable", None), Other([AnonymousRunnable])])
  }

  /** The body of the anonymous class, a class declaration of its own. */
  const AnonymousRunnable: Node := Class("", ["java.lang.Runnable"], [Method("run", [Public], [Other([CountField])])])

  lemma NestedMethodClaimsSignal()
    ensures Apply(AsWritten, Other([Class("Counter", [], [Other([CountField]), Task([Private])])]))
            == Other([Class("Counter", [], [Other([CountField]), Task([Private, Static])])])
  {
    var run := Method("run", [Public], [Other([CountField])]);
    VisitAllResults(AsWritten, [CountField], false, [CountField]);
    VisitAllResults(AsWritten, [Other([CountField])], false, [Other([CountField])]);
    assert Visit(AsWritten, run, false) == (run, false);
    VisitAllQuiet(AsWritten, [run], false, [run]);
    assert MemberContext(AnonymousRunnable, false) == false;
    assert Visit(AsWritten, AnonymousRunnable, false) == (AnonymousRunnable, false);
    VisitAllQuiet(AsWritten, [AnonymousRunnable], false, [AnonymousRunnable]);
    VisitAllQuiet(AsWritten, Task([Private]).body, false, Task([Private]).body);
    assert [Private] + [Static] == [Private, Static];
    assert Visit(AsWritten, Task([Private]), false) == (Task([Private, Static]), false);
    VisitAllResults(AsWritten, [CountField], false, [CountField]);
    VisitAllResults(AsWritten, [Other([CountField]), Task([Private])], false, [Other([CountField]), Task([Private, Static])]);
    UnitOfClass(AsWritten, "Counter", [], [Other([CountField]), Task([Private])], [Other([CountField]), Task([Private, Static])]);
  }

  /** The serialization hooks of the Serializable test class. */
  function Hooks(): seq<Node>
  {
    [ Method("writeObject", [Private], [Other([Ident("ObjectOutputStream", None), Ident("out", Some(FieldInfo(OtherOwner, false)))])]),
      Method("readObject", [Private], [Other([Ident("ObjectInputStream", None), Ident("in", Some(FieldInfo(OtherOwner, false)))])]),
      Method("readObjectNoData", [Private], []) ]
  }

  function HooksWithStatic(): seq<Node>
  {
    [ Method("writeObject", [Private, Static], Hooks()[0].body),
      Method("readObject", [Private, Static], Hooks()[1].body),
      Method("readObjectNoData", [Private, Static], []) ]
  }

  function SerializableUtilities(getterMods: seq<Modifier>, setterMods: seq<Modifier>, hooks: seq<Node>): Node
  {
    Utilities([SerializableInterface], MagicWord, Getter("getMagicWord", getterMods, MagicWord),
              Setter("setMagicWord", setterMods, MagicWord), hooks)
  }

  /** Each hook, visited as a member of a Serializable class. */
  lemma HookOutcome(policy: Policy, i: nat)
    requires i < 3
    ensures Visit(policy, Hooks()[i], true)
            == (if policy == AsWritten then HooksWithStatic()[i] else Hooks()[i], false)
  {
    var h := Hooks()[i];
    if i < 2 {
      var decl := h.body[0];
      VisitAllQuiet(policy, decl.children, true, decl.children);
      VisitAllQuiet(policy, h.body, true, h.body);
    }
    assert [Private] + [Static] == [Private, Static];
    assert h.name in SerializationHooks;
  }

  /** The hooks of the Serializable test class, visited under `policy`. */
  lemma HooksOutcome(policy: Policy)
    ensures VisitAll(policy, Hooks(), true).0
            == if policy == AsWritten then HooksWithStatic() else Hooks()
  {
    HookOutcome(policy, 0);
    HookOutcome(policy, 1);
    HookOutcome(policy, 2);
    VisitAllResults(policy, Hooks(), true, if policy == AsWritten then HooksWithStatic() else Hooks());
  }

  /** The field and accessors of the Serializable test class, visited under `policy`. */
  lemma SerializableAccessorsOutcome(policy: Policy)
    ensures VisitAll(policy, [Other([StringType, MagicWord]), Getter("getMagicWord", [Private], MagicWord),
                              Setter("setMagicWord", [Private], MagicWord)], true).0
            == [Other([StringType, MagicWord]), Getter("getMagicWord", [Private, Static], MagicWord),
                Setter("setMagicWord", [Private, Static], MagicWord)]
  {
    assert [Private] + [Static] == [Private, Static];
    FieldDeclarationKept(policy, MagicWord, true);
    AccessorOutcome(policy, "getMagicWord", [Private], MagicWord, true, true);
    AccessorOutcome(policy, "setMagicWord", [Private], MagicWord, false, true);
    VisitAllResults(policy,
                    [Other([StringType, MagicWord]), Getter("getMagicWord", [Private], MagicWord),
                     Setter("setMagicWord", [Private], MagicWord)], true,
                    [Other([StringType, MagicWord]), Getter("getMagicWord", [Private, Static], MagicWord),
                     Setter("setMagicWord", [Private, Static], MagicWord)]);
  }

  /** The Serializable test class, visited under `policy`. */
  lemma SerializableMembers(policy: Policy)
    ensures Apply(policy, SerializableUtilities([Private], [Private], Hooks()))
            == SerializableUtilities([Private, Static], [Private, Static],
                                     if policy == AsWritten then HooksWithStatic() else Hooks())
  {
    var head := [Other([StringType, MagicWord]), Getter("getMagicWord", [Private], MagicWord),
                 Setter("setMagicWord", [Private], MagicWord)];
    var head' := [Other([StringType, MagicWord]), Getter("getMagicWord", [Private, Static], MagicWord),
                  Setter("setMagicWord", [Private, Static], MagicWord)];
    SerializableAccessorsOutcome(policy);
    HooksOutcome(policy);
    SiblingsIndependent(policy, head, Hooks(), true);
    UnitOfClass(policy, "Utilities", [SerializableInterface], head + Hooks(),
                head' + if policy == AsWritten then HooksWithStatic() else Hooks());
  }

  /** As written, the rule also makes the three serialization hooks static,
      which the test for Serializable classes does not expect. */
  lemma AsWrittenRewritesSerializationHooks()
    ensures Apply(AsWritten, SerializableUtilities([Private], [Private], Hooks()))
            == SerializableUtilities([Private, Static], [Private, Static], HooksWithStatic())
    ensures Apply(AsWritten, SerializableUtilities([Private], [Private], Hooks()))
            != SerializableUtilities([Private, Static], [Private, Static], Hooks())
  {
    SerializableMembers(AsWritten);
    var withStatic := SerializableUtilities([Private, Static], [Private, Static], HooksWithStatic());
    var expected := SerializableUtilities([Private, Static], [Private, Static], Hooks());
    assert withStatic.children[0].members[3] != expected.children[0].members[3];
  }

  /** With the exclusion the result is what the test expects: the accessors
      become static and the hooks are kept. */
  lemma ExclusionMatchesSerializableTest()
    ensures Apply(ExcludeSerializationHooks, SerializableUtilities([Private], [Private], Hooks()))
            == SerializableUtilities([Private, Static], [Private, Static], Hooks())
  {
    SerializableMembers(ExcludeSerializationHooks);
  }
}
