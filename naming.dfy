/** The names and texts the refactor derives and creates: the binding class name, the package
    taken from the `R` class, the qualified binding class, and the text of every element it adds. */
module Naming {

  const ImportHead: string := "import "
  const SyntheticPackage: string := "kotlinx.android.synthetic"
  /** Every import of a Kotlin synthetic view accessor begins with this text. */
  const SyntheticImportPrefix: string := ImportHead + SyntheticPackage
  const SetContentViewName: string := "setContentView"
  const FindViewByIdName: string := "findViewById"
  const BindingSuffix: string := "Binding"
  const DataBindingSegment: string := ".databinding."
  const BindingAccess: string := "binding."
  const InitializerHead: string := "binding = "
  const InitializerTail: string := ".inflate(layoutInflater)"
  const PropertyHead: string := "private lateinit var binding: "
  /** The statement that replaces the original call. */
  const NewSetContentViewText: string := "setContentView(this.binding.root)"
  /** The text of the one error notification the action creates. */
  const LayoutErrorMessage: string :=
    "Couldn't resolve the layout we'll be using as the value inside setContentView isn't an R.layout field"

  predicate StartsWith(s: string, prefix: string) {
    |prefix| <= |s| && s[..|prefix|] == prefix
  }

  /** The package of an `R` class: its qualified name without the trailing `.R`
      (the last two characters, whatever they are). */
  function PackageName(rClassName: string): (pkg: string)
    requires |rClassName| >= 2
    ensures |pkg| + 2 == |rClassName| && StartsWith(rClassName, pkg)
  {
    rClassName[..|rClassName| - 2]
  }

  /** Dropping two characters recovers the package of an `R` class named `<package>.R`. */
  lemma PackageOfRClass(pkg: string)
    ensures PackageName(pkg + ".R") == pkg
  {
    assert (pkg + ".R")[..|pkg|] == pkg;
  }

  /** `<Camel>Binding`, where `camel` is the host's `toCamelCase`. */
  function BindingClassName(camel: string -> string, layoutName: string): (cls: string)
    ensures StartsWith(cls, camel(layoutName)) && cls[|camel(layoutName)|..] == BindingSuffix
  {
    camel(layoutName) + BindingSuffix
  }

  /** `<package>.databinding.<BindingClass>`. */
  function QualifiedBinding(pkg: string, cls: string): (q: string)
    ensures StartsWith(q, pkg + DataBindingSegment)
    ensures q[|pkg + DataBindingSegment|..] == cls
  {
    assert (pkg + DataBindingSegment + cls)[..|pkg + DataBindingSegment|] == pkg + DataBindingSegment;
    pkg + DataBindingSegment + cls
  }

  /** The simple name an import of a qualified name brings into scope: the text after its last dot. */
  function SimpleName(q: string): (name: string)
    ensures '.' !in name
    ensures |name| <= |q| && q[|q| - |name|..] == name
    decreases |q|
  {
    if q == [] then []
    else if q[|q| - 1] == '.' then []
    else SimpleName(q[..|q| - 1]) + [q[|q| - 1]]
  }

  lemma SimpleNameSnoc(q: string, c: char)
    ensures SimpleName(q + [c]) == if c == '.' then [] else SimpleName(q) + [c]
  {
    assert (q + [c])[..|q|] == q;
  }

  lemma SimpleNameAfterDot(prefix: string, name: string)
    requires '.' !in name
    ensures SimpleName(prefix + ['.'] + name) == name
    decreases |name|
  {
    var q := prefix + ['.'] + name;
    if name == [] {
      assert q == prefix + ['.'];
    } else {
      var init := name[..|name| - 1];
      var c := name[|name| - 1];
      assert name == init + [c];
      assert c != '.';
      assert '.' !in init;
      SimpleNameAfterDot(prefix, init);
      assert q == (prefix + ['.'] + init) + [c];
      SimpleNameSnoc(prefix + ['.'] + init, c);
    }
  }

  /** The import of the qualified binding class brings exactly the binding class into scope,
      as long as the camel-cased layout name holds no dot. */
  lemma QualifiedBindingImportsClass(pkg: string, camel: string -> string, layoutName: string)
    requires '.' !in camel(layoutName)
    ensures SimpleName(QualifiedBinding(pkg, BindingClassName(camel, layoutName))) == BindingClassName(camel, layoutName)
  {
    var cls := BindingClassName(camel, layoutName);
    assert '.' !in BindingSuffix;
    assert forall k :: 0 <= k < |cls| ==> cls[k] != '.' by {
      forall k | 0 <= k < |cls|
        ensures cls[k] != '.'
      {
        if k < |camel(layoutName)| {
          assert cls[k] == camel(layoutName)[k];
        } else {
          assert cls[k] == BindingSuffix[k - |camel(layoutName)|];
        }
      }
    }
    assert pkg + DataBindingSegment + cls == (pkg + ".databinding") + ['.'] + cls;
    SimpleNameAfterDot(pkg + ".databinding", cls);
  }

  /** The text of the import directive created for a qualified name. */
  function ImportText(q: string): (s: string)
    ensures StartsWith(s, ImportHead) && s[|ImportHead|..] == q
  {
    ImportHead + q
  }

  /** The new import is itself a synthetic import exactly when the imported name lies in the
      synthetic package. */
  lemma ImportTextSynthetic(q: string)
    ensures StartsWith(ImportText(q), SyntheticImportPrefix) <==> StartsWith(q, SyntheticPackage)
  {
    StartsWithCancel(ImportHead, q, SyntheticPackage);
  }

  /** A common head does not change whether one text starts with another. */
  lemma StartsWithCancel(h: string, q: string, p: string)
    ensures StartsWith(h + q, h + p) <==> StartsWith(q, p)
  {
    if StartsWith(q, p) {
      assert (h + q)[..|h + p|] == h + q[..|p|];
    }
    if StartsWith(h + q, h + p) {
      assert q[..|p|] == (h + q)[..|h + p|][|h|..];
      assert (h + p)[|h|..] == p;
    }
  }

  /** The created `private lateinit var binding: <BindingClass>` property. */
  function PropertyText(cls: string): (s: string)
    ensures StartsWith(s, PropertyHead) && s[|PropertyHead|..] == cls
  {
    PropertyHead + cls
  }

  /** `createBindingInitializer`: `binding = <BindingClass>.inflate(layoutInflater)`. */
  function InitializerText(cls: string): (s: string)
    ensures |s| == |InitializerHead| + |cls| + |InitializerTail|
    ensures StartsWith(s, InitializerHead)
    ensures s[|InitializerHead|..|InitializerHead| + |cls|] == cls
    ensures s[|InitializerHead| + |cls|..] == InitializerTail
  {
    InitializerHead + cls + InitializerTail
  }

  /** The class an initializer inflates: the text between its head and its tail. */
  function InflatedClass(s: string): (cls: string)
    requires |s| >= |InitializerHead| + |InitializerTail|
    ensures |cls| + |InitializerHead| + |InitializerTail| == |s|
    ensures StartsWith(s, InitializerHead) && s[|s| - |InitializerTail|..] == InitializerTail
      ==> InitializerText(cls) == s
  {
    s[|InitializerHead|..|s| - |InitializerTail|]
  }

  /** The initializer inflates exactly the binding class it was created for. */
  lemma InitializerInflates(cls: string)
    ensures InflatedClass(InitializerText(cls)) == cls
  {
    var s := InitializerText(cls);
    assert s[|InitializerHead|..|s| - |InitializerTail|] == cls;
  }

  /** `binding.<name>`: the accessor that replaces a view lookup. */
  function AccessorText(name: string): (s: string)
    ensures StartsWith(s, BindingAccess) && s[|BindingAccess|..] == name
  {
    BindingAccess + name
  }

  /** Two accessors are equal exactly when they name the same binding property. */
  lemma AccessorTextInjective(a: string, b: string)
    ensures AccessorText(a) == AccessorText(b) <==> a == b
  {
    if AccessorText(a) == AccessorText(b) {
      assert a == AccessorText(a)[|BindingAccess|..];
    }
  }
}
