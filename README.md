# PrivateFinalStatic: a verified model of the "make non-overridable methods static" rewrite

The repository ships one OpenRewrite recipe, `PrivateFinalStaticDemo`. Its
visitor walks a type-attributed Java tree in post-order and does two things:

- **Reference classifier** (`visitIdentifier`). An identifier is an *instance
  access* when three things hold: it resolves to a field, the field lacks the
  `Static` flag, and the field's owner is a class type. For such an identifier,
  the classifier posts a `"nonstatic"` message to the first enclosing method
  declaration.
- **Eligibility decider** (`visitMethodDeclaration`). It runs after the
  method's descendants have been visited. A method keeps its modifiers in
  three cases: it is already `static`; it is neither `private` nor `final`; or
  it received `"nonstatic"`. Otherwise one `static` modifier is appended to
  its modifier list.

The model lives in five modules:

- `JavaTree` (java_tree.dfy) holds the tree. It has class, method and
  identifier nodes, plus `Other` for every other node kind. It also defines
  paths into the tree (`At`).
- `PrivateFinalStatic` (private_final_static.dfy) holds the rewrite itself:
  `IsInstanceAccess`, `Decide`, `Visit`, `VisitAll` and `Apply`. The cursor
  message becomes an explicit result. `Visit` returns the rewritten node and
  whether an instance access below it has not yet been claimed by a method.
  A method declaration claims its body's signal and reports `false` upwards,
  so the signal reaches the nearest enclosing method only. At the root, a
  signal has no enclosing method and is dropped.
- `Eligibility` (eligibility.dfy) is a reference definition that does not
  mention the walk. A method is `Blocked` when some path from it reaches an
  instance-access identifier without entering another method declaration.
  `Eligible` combines that with the modifier tests. `MethodDecision` and
  `MethodOutcomeAt` prove that the walk makes a method static exactly when it
  is `Eligible`.
- `RecipeProperties` (properties.dfy) holds the guarantees. Each short-circuit
  test is proved to keep a method as it is. The only rewrite is one trailing
  `static`. Nested methods claim their own signals, at any depth. Siblings are
  independent. Identifiers outside every method are inert. The rewrite is idempotent.
- `Scenarios` (scenarios.dfy) rebuilds the classes of the project's tests as
  trees and proves what the rewrite makes of them.

The project's test at
src/test/java/com/m0smith/PrivateFinalStaticDemoTest.java:76-115 expects an
exclusion. The serialization hooks `writeObject`, `readObject` and
`readObjectNoData` of a class implementing `java.io.Serializable` should never
be made static. The recipe's code has no such check. The model follows the
code, so `Policy.AsWritten` is the source's behaviour. The exclusion is a
separate, clearly marked policy, `ExcludeSerializationHooks`. It looks only at
the nearest enclosing class's declared interfaces and matches the interface
name exactly, so it does not follow inheritance. Every lemma of `Eligibility`
and `RecipeProperties` takes the policy as a parameter, except
`ExclusionKeepsSerializationHooks` (about the extension alone) and
`PoliciesAgreeOffHooks` (which compares the two). See "## Findings".

Every class body is a `Class` node, the body of an anonymous class included
(`Scenarios.AnonymousRunnable`, with an empty name). The serialization
context is reset at each `Class` node; the recipe as written never looks at
it.

A consequence of "nearest enclosing method only", shown by
`Scenarios.NestedMethodClaimsSignal`: take a private method that returns an
anonymous class. If the anonymous class's method reads an instance field of
the outer class, the outer method still becomes static. The output then no
longer compiles, since a static method cannot create an inner class that
uses the outer instance. This is what the code does, and the model keeps it.

## Model

| member | source | states |
|---|---|---|
| `PrivateFinalStatic.Decide` | src/main/java/com/m0smith/PrivateFinalStaticDemo.java:81-105 | The decider keeps the method's name and body. The modifiers either stay as they are or gain exactly one trailing `Static`. A method that already has `Static` comes back as it is. |
| `PrivateFinalStatic.Visit` | src/main/java/com/m0smith/PrivateFinalStaticDemo.java:49-107 | The visit changes nothing except appending `Static` to some methods' modifiers (`OnlyAddsStatic`). An identifier is returned untouched, with the classifier's verdict as its signal. A method declaration never passes a signal further up. |
| `PrivateFinalStatic.VisitAll` | src/main/java/com/m0smith/PrivateFinalStaticDemo.java:78 | Children are visited one by one: each result is that child's own visit. The list signals exactly when some child signals. |
| `PrivateFinalStatic.Apply` | src/main/java/com/m0smith/PrivateFinalStaticDemo.java:48-107 | Running the recipe on a compilation unit only appends `Static` to method modifier lists. |
| `Eligibility.SignalWitness` | src/main/java/com/m0smith/PrivateFinalStaticDemo.java:65-72 | Any signal leaving a node comes from an identifier that the classifier counts as an instance access. A path reaches that identifier without entering a method declaration. |
| `Eligibility.ReachesSignals` | src/main/java/com/m0smith/PrivateFinalStaticDemo.java:65-72 | Every instance-access identifier whose path enters no method declaration sends its signal out of the node. |
| `Eligibility.BodySignalIffBlocked` | src/main/java/com/m0smith/PrivateFinalStaticDemo.java:72-95 | A method's body posts `"nonstatic"` exactly when the method is the first enclosing method of some instance access. Both directions are proved. |
| `Eligibility.MethodDecision` | src/main/java/com/m0smith/PrivateFinalStaticDemo.java:77-106 | After its whole body is visited, a method gains one trailing `Static` exactly when it is `Eligible`. Eligible means: not static, private or final, not blocked by its own instance accesses (and, under the extension, not a serialization hook). Otherwise only its body changes. The method posts no signal. |
| `Eligibility.ChildrenOfVisit` | src/main/java/com/m0smith/PrivateFinalStaticDemo.java:78 | The children of a visited node are its children visited in order. |
| `Eligibility.VisitAt` | src/main/java/com/m0smith/PrivateFinalStaticDemo.java:72 | Rewriting a whole tree rewrites every node at every path as if that node were visited alone. No signal enters a node from outside it. |
| `Eligibility.MethodOutcomeAt` | src/main/java/com/m0smith/PrivateFinalStaticDemo.java:48-107 | For every method declaration anywhere in a compilation unit, the recipe's output at that path is the method with `Static` appended exactly when it is `Eligible`. |
| `RecipeProperties.AlreadyStaticUnchanged` | src/main/java/com/m0smith/PrivateFinalStaticDemo.java:81-83 | A method that already has `Static` keeps its name and modifiers, whatever its body accesses. |
| `RecipeProperties.NeitherPrivateNorFinalUnchanged` | src/main/java/com/m0smith/PrivateFinalStaticDemo.java:87-89 | A method with neither `Private` nor `Final` keeps its modifiers, even if it touches only static state. |
| `RecipeProperties.InstanceAccessBlocks` | src/main/java/com/m0smith/PrivateFinalStaticDemo.java:65-95 | If an identifier under a method resolves to a non-static field with a class owner, and that method is its first enclosing method, the method keeps its modifiers. |
| `RecipeProperties.OnlyStaticReferencesRewrite` | src/main/java/com/m0smith/PrivateFinalStaticDemo.java:65-104 | Take a private or final method that is not static (and, under the extension, not a serialization hook of a Serializable class). If each of its own identifiers is a non-field, a static field, or a field of a non-class owner, the method gains `Static`. Proved for both policies. |
| `RecipeProperties.RewriteAppendsOneStatic` | src/main/java/com/m0smith/PrivateFinalStaticDemo.java:103-104 | The decider changes a method only by appending `Static` after its existing modifiers, whose order is kept. Name and visited body are preserved. The result holds `Static` exactly once. |
| `RecipeProperties.ThroughMethodReachesNothing` | src/main/java/com/m0smith/PrivateFinalStaticDemo.java:72 | A path that passes through a method declaration never ends at an identifier in the scope of the node it starts from: that declaration is nearer. |
| `RecipeProperties.NestedMethodsDoNotBlock` | src/main/java/com/m0smith/PrivateFinalStaticDemo.java:72 | No identifier below a method declaration nested at any depth in a method's body signals to that method, whatever the identifier accesses and whatever else the body holds. |
| `RecipeProperties.SiblingsIndependent` | src/main/java/com/m0smith/PrivateFinalStaticDemo.java:78 | Visiting a concatenation of siblings equals visiting each part: the results concatenate and the signals combine with "or". |
| `RecipeProperties.TopLevelIdentifierInert` | src/main/java/com/m0smith/PrivateFinalStaticDemo.java:72 | An identifier appended at the top level of a compilation unit changes nothing else in the output. |
| `RecipeProperties.IdentifierOutsideMethodsInert` | src/main/java/com/m0smith/PrivateFinalStaticDemo.java:65-72 | An identifier at any path that enters no method declaration (at the root: one with no enclosing method, inside class bodies or fields at any depth) can be replaced by any other identifier, instance access or not, and the output changes at that path only. |
| `RecipeProperties.VisitIdempotent` | src/main/java/com/m0smith/PrivateFinalStaticDemo.java:81-104 | Visiting a node's output again gives the same output and the same signal. |
| `RecipeProperties.VisitAllIdempotent` | src/main/java/com/m0smith/PrivateFinalStaticDemo.java:78 | Visiting a visited list again gives the same list and the same signal. |
| `RecipeProperties.ApplyIdempotent` | src/main/java/com/m0smith/PrivateFinalStaticDemo.java:48-107 | Running the recipe on its own output changes nothing. |
| `RecipeProperties.ExclusionKeepsSerializationHooks` | src/test/java/com/m0smith/PrivateFinalStaticDemoTest.java:76-115 | Extension: under `ExcludeSerializationHooks`, a serialization hook of a Serializable class keeps its modifiers, whatever it accesses. |
| `RecipeProperties.PoliciesAgreeOffHooks` | src/main/java/com/m0smith/PrivateFinalStaticDemo.java:86-104 | Both policies give every other method the same modifiers. |
| `Scenarios.StaticFieldAccessorsBecomeStatic` | src/test/java/com/m0smith/PrivateFinalStaticDemoTest.java:41-72 | The private getter and setter of a static field both gain `static`. |
| `Scenarios.InstanceFieldAccessorsUnchanged` | src/test/java/com/m0smith/PrivateFinalStaticDemoTest.java:151-169 | The private getter and setter of an instance field are left unchanged. |
| `Scenarios.NonPrivateNonFinalUnchanged` | src/test/java/com/m0smith/PrivateFinalStaticDemoTest.java:170-188 | Package-private and public accessors of a static field are left unchanged. |
| `Scenarios.NestedMethodClaimsSignal` | src/main/java/com/m0smith/PrivateFinalStaticDemo.java:72 | An instance access inside an anonymous class's method does not block the private method around it. That outer method gains `static`. |
| `Scenarios.AsWrittenRewritesSerializationHooks` | src/main/java/com/m0smith/PrivateFinalStaticDemo.java:86-104 | As written, the Serializable test class's three hooks also gain `static`. The output differs from the output the test expects. |
| `Scenarios.ExclusionMatchesSerializableTest` | src/test/java/com/m0smith/PrivateFinalStaticDemoTest.java:76-115 | Under the exclusion, the Serializable test class comes out as the test expects. |

## Left out

- `autoFormat` (:104): whitespace normalisation by the host framework. The new modifier is the plain value `Static`.
- `Tree.randomId()`, `Space.EMPTY`, `Markers.EMPTY` and the modifier's annotation list (:103): node identity and formatting, which carry no behaviour here.
- The `System.out.println` calls (:91, :93): console output only.
- `getDisplayName` and `getDescription` (:37-45): recipe metadata strings.
- The `Cursor` message map itself (`putMessageOnFirstEnclosing`, `getMessage`). It is replaced by the explicit bottom-up flag. `Eligibility` states the "first enclosing method declaration" meaning on paths.
- A resolved variable whose owner is missing. At :69 the classifier calls `ft.getOwner().getClass()` without a null check, so such a variable would make it fail with a null dereference. `FieldInfo` always carries an owner, so the model assumes this does not occur.
- Java parsing and type attribution. Each identifier arrives with its resolution (`FieldInfo`, or `None` for `getFieldType() == null`). The string comparison at :69 becomes `OwnerKind`. Which host types count as `ClassOwner` is for the type attribution to say.
- The commented-out code (:56-63, :96-100, :110-113): it is never compiled.
- The test at src/test/java/com/m0smith/PrivateFinalStaticDemoTest.java:117-149. Its input refers to an undeclared class `Outer`, so its resolution depends on the host's error recovery, which is not part of this model.
- The test harness (`RewriteTest`, `RecipeSpec`): its scenarios appear in `Scenarios` only as trees.

## Findings

| source | as written | input that shows it | evidently intended | confidence | as-written member | corrected member |
|---|---|---|---|---|---|---|
| src/main/java/com/m0smith/PrivateFinalStaticDemo.java:86-104 | No check looks at the enclosing class's interfaces or the method's name. A private `writeObject`, `readObject` or `readObjectNoData` of a `Serializable` class that reads no instance field gains `static`, and serialization then no longer calls it. | The `Utilities implements Serializable` class of src/test/java/com/m0smith/PrivateFinalStaticDemoTest.java:78-94 | The three hooks stay unchanged (src/test/java/com/m0smith/PrivateFinalStaticDemoTest.java:96-112) | high; not executed | `Scenarios.AsWrittenRewritesSerializationHooks` | `RecipeProperties.ExclusionKeepsSerializationHooks` |
