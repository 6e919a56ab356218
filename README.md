# Kotlin synthetics to view binding: a verified model of the refactor

This project models the core of the IntelliJ/Android Studio action that migrates an Android
activity from Kotlin synthetic view accessors (`kotlinx.android.synthetic`) to view binding.
The action walks a Kotlin file for calls whose text starts with `setContentView` and that have
one argument in parentheses. For the first such call whose argument resolves to a field, it
runs one write command. That command:

1. adds the import of `<package>.databinding.<Name>Binding` after the last kept import, or else
   after the package directive, or else after the first child of the file;
2. adds `private lateinit var binding: <Name>Binding` after the last property of the class body,
   or else after its opening brace;
3. inserts `binding = <Name>Binding.inflate(layoutInflater)`, spacing and
   `setContentView(this.binding.root)` before the original call;
4. replaces every call of the class body whose text starts with `findViewById` and whose parent
   is not a dot-qualified expression by `binding.<id in camel case>` (a chained call such as
   `findViewById<Button>(R.id.b).setOnClickListener { }` is left as it is);
5. replaces every synthetic accessor of the class by `binding.<accessor in camel case>`;
6. deletes every import whose text starts with `import kotlinx.android.synthetic`;
7. deletes the original call.

Every call the walk reaches before that one takes the error branch instead: it creates an
error notification (line 181), which the model records as one entry of the returned `errors`.

The files follow the program's structure:

- `tree.dfy` (`PsiTree`) holds the syntax tree. An element is identified by its path of child
  indices. One edit function covers `addAfter`, `addBefore`, `replace` and `delete`, and
  frame lemmas say where every other element is afterwards.
- `naming.dfy` (`Naming`) derives the names and the texts of the created elements.
- `scan.dfy` (`Scan`) covers the three visitor walks. They are one pre-order collection,
  parameterised by the test and by where the walk descends. The collection is proved sound,
  complete and ordered against an independent description of a hit. The imperative visitor
  `Walk` is proved equal to it.
- `imports.dfy` (`Imports`) covers the import anchor and the synthetic imports.
- `stages.dfy` (`Stages`) has the seven steps of the write command as functions over a
  `Stage`. A `Stage` is the tree plus where the call, its class and the class body are. Each
  step keeps the invariant `Located`.
- `migration.dfy` (`Migration`) has the file as a class `SourceFile`. Its `root` is
  replaced by every edit. Each step is a method proved equal to its step function. The write
  command (`Rewrite`) and `actionPerformed` (`ActionPerformed`) are built from these methods.

Two behaviours of the source are worth stating plainly:

- A `findViewById` call whose argument does not resolve to a field fails the cast
  `as PsiField` (line 156) and aborts the write command. The model makes the resolution a
  precondition (`ViewLookupsResolve`).
- The inserted `setContentView(this.binding.root)` starts with `setContentView` and has one
  argument, so a later run of the action reaches it as a target. Its last name `root` is not a
  field, so that run takes the layout-error branch of line 181 for it (`Stages.NewCallIsTarget`).

## Model

| member | source | states |
|---|---|---|
| Naming.PackageName | src/main/kotlin/com/github/dallasgutauckis/kotlinsyntheticsmigrator/actions/SetContentViewConvertToViewBindingAction.kt:114 | the package is the `R` class's qualified name with its last two characters dropped: two characters shorter, and a prefix of it |
| Naming.PackageOfRClass | src/main/kotlin/com/github/dallasgutauckis/kotlinsyntheticsmigrator/actions/SetContentViewConvertToViewBindingAction.kt:113-114 | for an `R` class named `<package>.R`, dropping two characters gives back exactly `<package>` |
| Naming.BindingClassName | src/main/kotlin/com/github/dallasgutauckis/kotlinsyntheticsmigrator/actions/SetContentViewConvertToViewBindingAction.kt:115 | the binding class name is the camel-cased layout name followed by exactly `Binding` |
| Naming.QualifiedBinding | src/main/kotlin/com/github/dallasgutauckis/kotlinsyntheticsmigrator/actions/SetContentViewConvertToViewBindingAction.kt:116 | the qualified binding starts with `<package>.databinding.` and continues with exactly the binding class name |
| Naming.QualifiedBindingImportsClass | src/main/kotlin/com/github/dallasgutauckis/kotlinsyntheticsmigrator/actions/SetContentViewConvertToViewBindingAction.kt:115-130 | when the camel-cased layout name has no dot, importing the qualified binding brings exactly the binding class into scope |
| Naming.ImportText | src/main/kotlin/com/github/dallasgutauckis/kotlinsyntheticsmigrator/actions/SetContentViewConvertToViewBindingAction.kt:129-130 | the created import directive reads `import ` followed by the qualified name |
| Naming.ImportTextSynthetic | src/main/kotlin/com/github/dallasgutauckis/kotlinsyntheticsmigrator/actions/SetContentViewConvertToViewBindingAction.kt:129-132 | the created import starts with the synthetic import prefix if and only if the qualified name lies in the synthetic package |
| Naming.PropertyText | src/main/kotlin/com/github/dallasgutauckis/kotlinsyntheticsmigrator/actions/SetContentViewConvertToViewBindingAction.kt:138 | the created property reads `private lateinit var binding: ` followed by exactly the binding class |
| Naming.InitializerText | src/main/kotlin/com/github/dallasgutauckis/kotlinsyntheticsmigrator/actions/SetContentViewConvertToViewBindingAction.kt:45-47 | the initializer reads `binding = `, then exactly the binding class, then exactly `.inflate(layoutInflater)` |
| Naming.InflatedClass | src/main/kotlin/com/github/dallasgutauckis/kotlinsyntheticsmigrator/actions/SetContentViewConvertToViewBindingAction.kt:46 | inverse of `InitializerText`: any text with the initializer's head and tail is the initializer of the class read between them |
| Naming.InitializerInflates | src/main/kotlin/com/github/dallasgutauckis/kotlinsyntheticsmigrator/actions/SetContentViewConvertToViewBindingAction.kt:45-47 | round trip: the initializer created for a binding class inflates exactly that class |
| Naming.AccessorText | src/main/kotlin/com/github/dallasgutauckis/kotlinsyntheticsmigrator/actions/SetContentViewConvertToViewBindingAction.kt:157 | a replacement accessor starts with `binding.` and continues with exactly the property name |
| Naming.AccessorTextInjective | src/main/kotlin/com/github/dallasgutauckis/kotlinsyntheticsmigrator/actions/SetContentViewConvertToViewBindingAction.kt:157-167 | two accessors are equal if and only if they name the same binding property |
| Scan.LastWhere | src/main/kotlin/com/github/dallasgutauckis/kotlinsyntheticsmigrator/actions/SetContentViewConvertToViewBindingAction.kt:124 | `lastOrNull`: the index found satisfies the test and no later index does; none is found only when no index satisfies it |
| Scan.FirstWhere | src/main/kotlin/com/github/dallasgutauckis/kotlinsyntheticsmigrator/actions/SetContentViewConvertToViewBindingAction.kt:121 | the index found satisfies the test and no earlier index does; none is found only when no index satisfies it |
| Scan.CollectSound | src/main/kotlin/com/github/dallasgutauckis/kotlinsyntheticsmigrator/actions/SetContentViewConvertToViewBindingAction.kt:52-61 | every element a walk collects lies in the tree, passes the visitor's test and has every ancestor entered by the walk |
| Scan.CollectComplete | src/main/kotlin/com/github/dallasgutauckis/kotlinsyntheticsmigrator/actions/SetContentViewConvertToViewBindingAction.kt:69-78 | every element that passes the visitor's test, below ancestors the walk enters, is collected |
| Scan.CollectOrdered | src/main/kotlin/com/github/dallasgutauckis/kotlinsyntheticsmigrator/actions/SetContentViewConvertToViewBindingAction.kt:56-59 | elements are collected in pre-order, each before its descendants and before later siblings' subtrees, because an element is tested before `super.visitElement` visits its children |
| Scan.AccessorsDisjoint | src/main/kotlin/com/github/dallasgutauckis/kotlinsyntheticsmigrator/actions/SetContentViewConvertToViewBindingAction.kt:66-81 | no synthetic accessor lies inside another, since name references have no children |
| Scan.Walk | src/main/kotlin/com/github/dallasgutauckis/kotlinsyntheticsmigrator/actions/SetContentViewConvertToViewBindingAction.kt:49-64 | the visitor that appends every passing element to a list returns exactly the pre-order collection |
| Imports.ImportAnchor | src/main/kotlin/com/github/dallasgutauckis/kotlinsyntheticsmigrator/actions/SetContentViewConvertToViewBindingAction.kt:128-136 | the anchor is the last import not starting with the synthetic prefix; else the first package directive; else the first child; no kept import follows it |
| Imports.SyntheticImports | src/main/kotlin/com/github/dallasgutauckis/kotlinsyntheticsmigrator/actions/SetContentViewConvertToViewBindingAction.kt:83-87 | every position returned holds an import directive whose text starts with `import kotlinx.android.synthetic`, and the positions increase strictly, in file order |
| Imports.SyntheticImportsComplete | src/main/kotlin/com/github/dallasgutauckis/kotlinsyntheticsmigrator/actions/SetContentViewConvertToViewBindingAction.kt:83-87 | no such import directive is missed: every one of them is among the positions returned |
| Imports.NonSyntheticSpec | src/main/kotlin/com/github/dallasgutauckis/kotlinsyntheticsmigrator/actions/SetContentViewConvertToViewBindingAction.kt:84-86 | the filtered import texts are exactly those of the input that do not start with the synthetic prefix |
| Imports.WithoutSyntheticImportsTexts | src/main/kotlin/com/github/dallasgutauckis/kotlinsyntheticsmigrator/actions/SetContentViewConvertToViewBindingAction.kt:173-175 | after the deletions, the file's import texts are its former ones without the synthetic ones, in order |
| Imports.WithoutSyntheticImportsSpec | src/main/kotlin/com/github/dallasgutauckis/kotlinsyntheticsmigrator/actions/SetContentViewConvertToViewBindingAction.kt:173-175 | after the deletions, no synthetic import is left and every other file child is still there |
| Imports.WithoutSyntheticImportsLength | src/main/kotlin/com/github/dallasgutauckis/kotlinsyntheticsmigrator/actions/SetContentViewConvertToViewBindingAction.kt:173-175 | each synthetic import is deleted once: the children left plus the synthetic positions account for every child |
| Stages.NearestClass | src/main/kotlin/com/github/dallasgutauckis/kotlinsyntheticsmigrator/actions/SetContentViewConvertToViewBindingAction.kt:120 | `parentOfType<KtClass>()` is the deepest strict ancestor of class kind, and there is none only when no ancestor is a class |
| Stages.Start | src/main/kotlin/com/github/dallasgutauckis/kotlinsyntheticsmigrator/actions/SetContentViewConvertToViewBindingAction.kt:120-121 | the write command starts with the call inside its nearest class; the tracked body is a class-body child of that class with no class-body child before it, i.e. the first |
| Stages.ImportStep | src/main/kotlin/com/github/dallasgutauckis/kotlinsyntheticsmigrator/actions/SetContentViewConvertToViewBindingAction.kt:128-136 | exactly one import is inserted among the file children, right after the anchor, and the call and the class body are unchanged |
| Stages.ImportStepImports | src/main/kotlin/com/github/dallasgutauckis/kotlinsyntheticsmigrator/actions/SetContentViewConvertToViewBindingAction.kt:128-136 | the import list gains exactly the new import's text, right after the anchor's |
| Stages.PropertyAnchor | src/main/kotlin/com/github/dallasgutauckis/kotlinsyntheticsmigrator/actions/SetContentViewConvertToViewBindingAction.kt:124 | the property anchor is the last property of the body, else its first opening brace |
| Stages.PropertyStep | src/main/kotlin/com/github/dallasgutauckis/kotlinsyntheticsmigrator/actions/SetContentViewConvertToViewBindingAction.kt:138 | exactly one property is inserted into the class body, right after the anchor, and every other member keeps its order |
| Stages.PropertyStepKeepsImports | src/main/kotlin/com/github/dallasgutauckis/kotlinsyntheticsmigrator/actions/SetContentViewConvertToViewBindingAction.kt:138 | adding the property leaves the import list unchanged |
| Stages.StatementStep | src/main/kotlin/com/github/dallasgutauckis/kotlinsyntheticsmigrator/actions/SetContentViewConvertToViewBindingAction.kt:141-151 | the initializer, a space, two newlines, a space and the new call are inserted in this order right before the call, which moves five places on and is unchanged |
| Stages.StatementStepKeepsImports | src/main/kotlin/com/github/dallasgutauckis/kotlinsyntheticsmigrator/actions/SetContentViewConvertToViewBindingAction.kt:141-151 | adding the statements leaves the import list unchanged |
| Stages.NewCallIsTarget | src/main/kotlin/com/github/dallasgutauckis/kotlinsyntheticsmigrator/actions/SetContentViewConvertToViewBindingAction.kt:150 | the inserted `setContentView(this.binding.root)` is a target of the walk whose layout argument does not resolve to a field |
| Stages.ViewStep | src/main/kotlin/com/github/dallasgutauckis/kotlinsyntheticsmigrator/actions/SetContentViewConvertToViewBindingAction.kt:154-160 | replacing the `findViewById` calls keeps the call, the class and the body where they were |
| Stages.ViewStepReplaces | src/main/kotlin/com/github/dallasgutauckis/kotlinsyntheticsmigrator/actions/SetContentViewConvertToViewBindingAction.kt:154-160 | each `findViewById` call of the body becomes `binding.<camel-cased id>`, and every element disjoint from all of them is unchanged |
| Stages.ViewStepKeepsImports | src/main/kotlin/com/github/dallasgutauckis/kotlinsyntheticsmigrator/actions/SetContentViewConvertToViewBindingAction.kt:154-160 | replacing the `findViewById` calls leaves the import list unchanged |
| Stages.AccessorStep | src/main/kotlin/com/github/dallasgutauckis/kotlinsyntheticsmigrator/actions/SetContentViewConvertToViewBindingAction.kt:163-170 | replacing the accessors keeps the call, the class and the body where they were |
| Stages.AccessorStepReplaces | src/main/kotlin/com/github/dallasgutauckis/kotlinsyntheticsmigrator/actions/SetContentViewConvertToViewBindingAction.kt:163-170 | each synthetic accessor of the class becomes `binding.<camel-cased text>`, and every element disjoint from all of them is unchanged |
| Stages.AccessorStepKeepsImports | src/main/kotlin/com/github/dallasgutauckis/kotlinsyntheticsmigrator/actions/SetContentViewConvertToViewBindingAction.kt:163-170 | replacing the accessors leaves the import list unchanged |
| Stages.CleanupStep | src/main/kotlin/com/github/dallasgutauckis/kotlinsyntheticsmigrator/actions/SetContentViewConvertToViewBindingAction.kt:173-175 | the file's children become the former ones without the synthetic imports, and the call keeps its parent and its place in it |
| Stages.RemoveCall | src/main/kotlin/com/github/dallasgutauckis/kotlinsyntheticsmigrator/actions/SetContentViewConvertToViewBindingAction.kt:178 | the call is removed from its parent and every other sibling keeps its order |
| Stages.RemoveCallKeepsImports | src/main/kotlin/com/github/dallasgutauckis/kotlinsyntheticsmigrator/actions/SetContentViewConvertToViewBindingAction.kt:178 | removing the call leaves the import list unchanged |
| Migration.Staged | src/main/kotlin/com/github/dallasgutauckis/kotlinsyntheticsmigrator/actions/SetContentViewConvertToViewBindingAction.kt:120-151 | after steps 1 to 3 the tracked call is still the original call, and still a target of the walk |
| Migration.MigratedImports | src/main/kotlin/com/github/dallasgutauckis/kotlinsyntheticsmigrator/actions/SetContentViewConvertToViewBindingAction.kt:128-175 | after the rewrite, the imports are the former imports without the synthetic ones, followed by the binding import unless it lies in the synthetic package |
| Migration.Reached | src/main/kotlin/com/github/dallasgutauckis/kotlinsyntheticsmigrator/actions/SetContentViewConvertToViewBindingAction.kt:106-108 | the number of targets before the first whose layout resolves to a field; none before it resolves |
| Migration.SourceFile.AddAfter | src/main/kotlin/com/github/dallasgutauckis/kotlinsyntheticsmigrator/actions/SetContentViewConvertToViewBindingAction.kt:128-138 | `addAfter` inserts the element right after the anchor child |
| Migration.SourceFile.AddBefore | src/main/kotlin/com/github/dallasgutauckis/kotlinsyntheticsmigrator/actions/SetContentViewConvertToViewBindingAction.kt:142-151 | `addBefore` inserts the element right before the anchor child |
| Migration.SourceFile.Replace | src/main/kotlin/com/github/dallasgutauckis/kotlinsyntheticsmigrator/actions/SetContentViewConvertToViewBindingAction.kt:159 | `replace` puts the new element where the old one was |
| Migration.SourceFile.Delete | src/main/kotlin/com/github/dallasgutauckis/kotlinsyntheticsmigrator/actions/SetContentViewConvertToViewBindingAction.kt:174-178 | `delete` removes the child from its parent |
| Migration.SourceFile.AddBindingImport | src/main/kotlin/com/github/dallasgutauckis/kotlinsyntheticsmigrator/actions/SetContentViewConvertToViewBindingAction.kt:127-136 | the in-place import insertion yields the tree of `Stages.ImportStep` |
| Migration.SourceFile.AddBindingProperty | src/main/kotlin/com/github/dallasgutauckis/kotlinsyntheticsmigrator/actions/SetContentViewConvertToViewBindingAction.kt:123-138 | the in-place property insertion yields the tree of `Stages.PropertyStep` |
| Migration.SourceFile.AddStatements | src/main/kotlin/com/github/dallasgutauckis/kotlinsyntheticsmigrator/actions/SetContentViewConvertToViewBindingAction.kt:140-151 | the five in-place `addBefore` calls yield the tree of `Stages.StatementStep` |
| Migration.SourceFile.ReplaceAll | src/main/kotlin/com/github/dallasgutauckis/kotlinsyntheticsmigrator/actions/SetContentViewConvertToViewBindingAction.kt:154-170 | replacing one element after another yields the replacements applied in order |
| Migration.SourceFile.ReplaceViewLookups | src/main/kotlin/com/github/dallasgutauckis/kotlinsyntheticsmigrator/actions/SetContentViewConvertToViewBindingAction.kt:153-160 | the in-place replacement of the `findViewById` calls yields the tree of `Stages.ViewStep` |
| Migration.SourceFile.ReplaceSyntheticAccessors | src/main/kotlin/com/github/dallasgutauckis/kotlinsyntheticsmigrator/actions/SetContentViewConvertToViewBindingAction.kt:162-170 | the in-place replacement of the accessors yields the tree of `Stages.AccessorStep` |
| Migration.SourceFile.DeleteImports | src/main/kotlin/com/github/dallasgutauckis/kotlinsyntheticsmigrator/actions/SetContentViewConvertToViewBindingAction.kt:173-175 | deleting the synthetic imports one by one leaves exactly the file children that are not synthetic imports |
| Migration.SourceFile.DeleteImport | src/main/kotlin/com/github/dallasgutauckis/kotlinsyntheticsmigrator/actions/SetContentViewConvertToViewBindingAction.kt:174 | the `k`-th deletion removes the `k`-th synthetic import, which the earlier deletions moved `k` places forward |
| Migration.SourceFile.DeleteSyntheticImports | src/main/kotlin/com/github/dallasgutauckis/kotlinsyntheticsmigrator/actions/SetContentViewConvertToViewBindingAction.kt:172-175 | the in-place deletion yields the tree of `Stages.CleanupStep` |
| Migration.SourceFile.RemoveOriginalCall | src/main/kotlin/com/github/dallasgutauckis/kotlinsyntheticsmigrator/actions/SetContentViewConvertToViewBindingAction.kt:177-178 | the in-place deletion of the call yields the tree of `Stages.RemoveCall` |
| Migration.SourceFile.Rewrite | src/main/kotlin/com/github/dallasgutauckis/kotlinsyntheticsmigrator/actions/SetContentViewConvertToViewBindingAction.kt:109-179 | the write command turns the file into the seven steps applied in order |
| Migration.SourceFile.ActionPerformed | src/main/kotlin/com/github/dallasgutauckis/kotlinsyntheticsmigrator/actions/SetContentViewConvertToViewBindingAction.kt:89-195 | one layout error is reported per target before the first whose layout resolves; if none resolves the file is unchanged; otherwise that target is rewritten, and the walk ends there |

## Left out

- The Java branch (lines 187-190) only collects `setContentView` method calls for the dialog and never edits the file. The model has its `Enters` effect: the walk does not descend into Java calls. It leaves out the collected list.
- `MyDialogWrapper`, the notification group and `showErrorNotification` are user-interface I/O. An error is the message text appended to the returned `errors`.
- Migration.SourceFile.ActionPerformed: `errors` records the notifications that `showErrorNotification` (lines 200-202) creates. The source never calls `notify` on them, so none is displayed. The model does not capture that difference.
- The project services, the project manager listener and the `log` value are not part of this model.
- `WriteCommandAction` (undo grouping, write lock) is not modelled. The write command is one sequential method.
- `KtPsiFactory` parsing and code-style formatting are not modelled. A created element is a leaf carrying its text and kind.
- `toCamelCase` and `toCamelCaseAsVar` come from the Android data-binding library, which is not part of this model. They are uninterpreted `string -> string` parameters.
- Name resolution (`resolve()`, `resolveMainReferenceToDescriptors`, `getValueArgumentsInParentheses`, `children[0].children[1]`) is not modelled. Its results are recorded in the call's kind (`Call(argCount, firstArg)`) and in the `synthetic` flag of a name reference.
- Migration.SourceFile.ActionPerformed: the failing casts and `!!` are preconditions (`Walkable`, `Ready`), so the exceptions they throw are not modelled. These are: the cast `as KtNameReferenceExpression` of line 106, which throws before the `field != null` test for a reached target whose argument is not a qualified name such as `R.layout.x` (for example `setContentView(view)` or `setContentView(layoutId)`; `Walkable` asks for `LayoutArgIsName` at every reached target); the missing enclosing class or body; the missing property anchor; a non-`R` layout owner; and a `findViewById` argument that is not a field.
- Migration.SourceFile.ActionPerformed: the walk ends after the first rewrite. The deleted call has no next sibling or parent for the visitor to continue from. Later targets are not modelled.
- Stages.ViewStep: nested `findViewById` calls are excluded by precondition (`ViewLookupsResolve` asks for pairwise disjoint hits). Replacing the outer call first would leave the inner replacement acting on a detached element.
- Import and package directives are modelled as direct children of the file rather than children of the import list element. The anchor's fallbacks are kept.
- Stages.PropertyStep: the property is inserted into the class body after the anchor. The source calls `addAfter` on the class with a body child as anchor, which the host's PSI places in that body.
- Stages.NewCallIsTarget: this is proved on the tree right after step 3, not on the final file. That the argument does not resolve to a field is not derived: `this.binding.root` resolves to the binding class's `getRoot()`, or to nothing before the binding class is generated, and the model encodes the created call's argument as `NameReference(NotAField)`.
- Import aliases (the TODO at line 164) are not handled by the source either.
