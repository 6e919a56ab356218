/** `actionPerformed` (lines 89-198): the walk over the file for `setContentView(R.layout.x)`
    calls, the layout check, and the write command that rewrites the first call whose layout
    resolves.  The file is a `SourceFile` whose root each PSI edit replaces in place; every
    step of the write command is a method proved equal to the step function of `Stages`. */
module Migration {
  import opened PsiTree
  import opened Naming
  import opened Scan
  import opened Imports
  import opened Stages

  // ---------------------------------------------------------------------------------------
  // What the write command needs, and what it produces

  /** The `!!`, the casts and the anchor lookup before the first edit succeed for the call at `p`. */
  predicate Prepared(t: Node, p: Path) {
    Placed(t, p) && LayoutInRClass(At(t, p)) && HasPropertyAnchor(At(t, Start(t, p).body).children)
  }

  /** The file once the import, the property and the new statements are in (steps 1-3). */
  function Staged(t: Node, p: Path, camel: string -> string): (s: Stage)
    requires Prepared(t, p)
    ensures Located(s) && At(s.tree, s.call) == At(t, p) && IsSetContentViewCall(At(s.tree, s.call))
  {
    var n := At(t, p);
    var cls := BindingClassOf(n, camel);
    Inserted(Start(t, p), QualifiedBindingOf(n, camel), cls)
  }

  /** Steps 1 to 3 from a stage: the import, the property and the statements. */
  function Inserted(s: Stage, q: string, cls: string): (r: Stage)
    requires Located(s) && HasPropertyAnchor(At(s.tree, s.body).children)
    ensures Located(r) && At(r.tree, r.call) == At(s.tree, s.call)
  {
    var s1 := ImportStep(s, q);
    assert At(s1.tree, s1.body) == At(s.tree, s.body);
    StatementStep(PropertyStep(s1, cls), cls)
  }

  /** Besides, every view lookup of the class body resolves (the casts of line 156). */
  predicate Ready(t: Node, p: Path, camel: string -> string) {
    Prepared(t, p) && ViewLookupsResolve(At(Staged(t, p, camel).tree, Staged(t, p, camel).body))
  }

  /** The file once the write command for the call at `p` has run. */
  function Migrated(t: Node, p: Path, camel: string -> string, camelAsVar: string -> string): Node
    requires Ready(t, p, camel)
  {
    RemoveCall(CleanupStep(AccessorStep(ViewStep(Staged(t, p, camel), camelAsVar), camelAsVar)))
  }

  /** After the rewrite the file's imports are its former imports without the synthetic
      ones, followed by the binding import, which is itself dropped only when it names a class
      of the synthetic package. */
  lemma MigratedImports(t: Node, p: Path, camel: string -> string, camelAsVar: string -> string)
    requires Ready(t, p, camel)
    ensures Migrated(t, p, camel, camelAsVar).Tree?
    ensures var q := QualifiedBindingOf(At(t, p), camel);
      ImportTexts(Migrated(t, p, camel, camelAsVar).children)
        == NonSynthetic(ImportTexts(t.children)) + (if StartsWith(q, SyntheticPackage) then [] else [ImportText(q)])
  {
    var n := At(t, p);
    var cls := BindingClassOf(n, camel);
    var q := QualifiedBindingOf(n, camel);
    var s0 := Start(t, p);
    EditsAndCleanupImports(Staged(t, p, camel), camelAsVar);
    InsertionImports(s0, q, cls);
  }

  /** Steps 1 to 3, filtered. */
  lemma InsertionImports(s: Stage, q: string, cls: string)
    requires Located(s) && HasPropertyAnchor(At(s.tree, s.body).children)
    ensures NonSynthetic(ImportTexts(Inserted(s, q, cls).tree.children))
      == NonSynthetic(ImportTexts(s.tree.children)) + (if StartsWith(q, SyntheticPackage) then [] else [ImportText(q)])
  {
    var cs := s.tree.children;
    var texts := ImportTexts(Inserted(s, q, cls).tree.children);
    InsertionTexts(s, q, cls);
    FirstImports(cs, q);
    assert texts == ImportTexts(cs[..ImportAnchor(cs) + 1]) + [ImportText(q)] + ImportTexts(cs[ImportAnchor(cs) + 1..]);
  }

  /** Steps 1 to 3: the import list gains the binding import right after the anchor. */
  lemma InsertionTexts(s: Stage, q: string, cls: string)
    requires Located(s) && HasPropertyAnchor(At(s.tree, s.body).children)
    ensures s.tree.children != []
    ensures var cs := s.tree.children;
      var a := ImportAnchor(cs);
      ImportTexts(Inserted(s, q, cls).tree.children)
        == ImportTexts(cs[..a + 1]) + [ImportText(q)] + ImportTexts(cs[a + 1..])
  {
    var s1 := ImportStep(s, q);
    assert At(s1.tree, s1.body) == At(s.tree, s.body);
    InsertionsKeepImports(s1, cls);
    ImportStepImports(s, q);
  }

  /** Steps 2 and 3 leave the import list as it is. */
  lemma InsertionsKeepImports(s: Stage, cls: string)
    requires Located(s) && HasPropertyAnchor(At(s.tree, s.body).children)
    ensures ImportTexts(StatementStep(PropertyStep(s, cls), cls).tree.children) == ImportTexts(s.tree.children)
  {
    PropertyStepKeepsImports(s, cls);
    StatementStepKeepsImports(PropertyStep(s, cls), cls);
  }

  /** Steps 4 to 7 keep exactly the imports that are not synthetic. */
  lemma EditsAndCleanupImports(s: Stage, camelAsVar: string -> string)
    requires Located(s) && IsSetContentViewCall(At(s.tree, s.call)) && ViewLookupsResolve(At(s.tree, s.body))
    ensures RemoveCall(CleanupStep(AccessorStep(ViewStep(s, camelAsVar), camelAsVar))).Tree?
    ensures ImportTexts(RemoveCall(CleanupStep(AccessorStep(ViewStep(s, camelAsVar), camelAsVar))).children)
      == NonSynthetic(ImportTexts(s.tree.children))
  {
    var s4 := ViewStep(s, camelAsVar);
    var s5 := AccessorStep(s4, camelAsVar);
    ViewStepKeepsImports(s, camelAsVar);
    AccessorStepKeepsImports(s4, camelAsVar);
    WithoutSyntheticImportsTexts(s5.tree.children);
    RemoveCallKeepsImports(CleanupStep(s5));
  }

  /** No import after the anchor survives the filter. */
  lemma AfterAnchor(cs: seq<Node>)
    requires cs != []
    ensures NoKeptImport(cs[ImportAnchor(cs) + 1..])
  {
    var tail := cs[ImportAnchor(cs) + 1..];
    forall j | 0 <= j < |tail|
      ensures !IsKeptImport(tail[j])
    {
      assert tail[j] == cs[ImportAnchor(cs) + 1 + j];
    }
  }

  /** The import list after step 1, filtered. */
  lemma FirstImports(cs: seq<Node>, q: string)
    requires cs != []
    ensures var a := ImportAnchor(cs);
      NonSynthetic(ImportTexts(cs[..a + 1]) + [ImportText(q)] + ImportTexts(cs[a + 1..]))
        == NonSynthetic(ImportTexts(cs)) + (if StartsWith(q, SyntheticPackage) then [] else [ImportText(q)])
  {
    AfterAnchor(cs);
    InsertFiltered(cs, ImportAnchor(cs) + 1, q);
  }

  /** Inserting the binding import at `m`, where no kept import follows, and filtering. */
  lemma InsertFiltered(cs: seq<Node>, m: nat, q: string)
    requires m <= |cs| && NoKeptImport(cs[m..])
    ensures NonSynthetic(ImportTexts(cs[..m]) + [ImportText(q)] + ImportTexts(cs[m..]))
      == NonSynthetic(ImportTexts(cs)) + (if StartsWith(q, SyntheticPackage) then [] else [ImportText(q)])
  {
    ImportTextsSplit(cs, m);
    NoKeptImportTexts(cs[m..]);
    InsertFilteredTexts(ImportTexts(cs[..m]), ImportTexts(cs[m..]), q);
  }

  lemma InsertFilteredTexts(before: seq<string>, after: seq<string>, q: string)
    requires NonSynthetic(after) == []
    ensures NonSynthetic(before + [ImportText(q)] + after)
      == NonSynthetic(before + after) + (if StartsWith(q, SyntheticPackage) then [] else [ImportText(q)])
  {
    FilterAround(before, [ImportText(q)], after);
    BindingImportFiltered(q);
    FilterTail(before, after);
  }

  /** Filtering a list whose tail the filter drops entirely. */
  lemma FilterAround(before: seq<string>, mid: seq<string>, after: seq<string>)
    requires NonSynthetic(after) == []
    ensures NonSynthetic(before + mid + after) == NonSynthetic(before) + NonSynthetic(mid)
  {
    NonSyntheticConcat(before + mid, after);
    NonSyntheticConcat(before, mid);
  }

  lemma FilterTail(before: seq<string>, after: seq<string>)
    requires NonSynthetic(after) == []
    ensures NonSynthetic(before + after) == NonSynthetic(before)
  {
    NonSyntheticConcat(before, after);
  }

  /** The binding import survives the filter unless it names a class of the synthetic package. */
  lemma BindingImportFiltered(q: string)
    ensures NonSynthetic([ImportText(q)]) == if StartsWith(q, SyntheticPackage) then [] else [ImportText(q)]
  {
    NonSyntheticOne(ImportText(q));
    ImportTextSynthetic(q);
  }

  /** The layout argument of a target resolves to a field (`field != null`, line 108). */
  predicate Resolves(h: Hit) {
    LayoutArgIsName(h.node) && LayoutField(h.node).ToField?
  }

  /** How many targets the walk takes the error branch for before one resolves. */
  function Reached(ts: seq<Hit>): (k: nat)
    ensures k <= |ts|
    ensures forall j :: 0 <= j < k ==> !Resolves(ts[j])
    ensures k < |ts| ==> Resolves(ts[k])
  {
    match FirstWhere(ts, Resolves)
    case None => |ts|
    case Some(k) => k
  }

  /** What `actionPerformed` needs of the file: every target up to the first that resolves
      passes the cast of line 106, and the first that resolves is ready to be rewritten. */
  predicate Walkable(t: Node, camel: string -> string) {
    var ts := Collect(SetContentViewCall, t, false);
    (forall j :: 0 <= j < |ts| && j <= Reached(ts) ==> LayoutArgIsName(ts[j].node))
    && (Reached(ts) < |ts| ==> Ready(t, ts[Reached(ts)].path, camel))
  }

  /** What `Walkable` gives the walk at a target it reaches: the cast of line 106 succeeds, and
      either the layout resolves, the target is the first to, and it is ready to be rewritten,
      or the walk reaches the next target too. */
  lemma WalkableAt(t: Node, camel: string -> string, ts: seq<Hit>, i: nat)
    requires Walkable(t, camel) && ts == Collect(SetContentViewCall, t, false)
    requires i < |ts| && i <= Reached(ts)
    ensures LayoutArgIsName(ts[i].node)
    ensures LayoutField(ts[i].node).ToField? ==> i == Reached(ts) && Ready(t, ts[i].path, camel)
    ensures !LayoutField(ts[i].node).ToField? ==> i + 1 <= Reached(ts)
  {
  }

  lemma CutChild(kind: Kind, cs: seq<Node>, i: nat)
    requires i < |cs|
    ensures CanEdit(Tree(kind, cs), [], Cut(i))
    ensures EditAt(Tree(kind, cs), [], Cut(i)) == Tree(kind, cs[..i] + cs[i + 1..])
  {
  }

  // ---------------------------------------------------------------------------------------
  // The file and its edits

  class SourceFile {
    /** The file element; every PSI edit replaces it with the edited tree. */
    var root: Node

    constructor (t: Node)
      ensures root == t
    {
      root := t;
    }

    /** `parent.addAfter(x, anchor)`, the anchor being child `anchor` of the node at `parent`. */
    method AddAfter(parent: Path, anchor: nat, x: Node)
      requires CanEdit(root, parent, Splice(anchor + 1, [x]))
      modifies this
      ensures root == EditAt(old(root), parent, Splice(anchor + 1, [x]))
    {
      root := EditAt(root, parent, Splice(anchor + 1, [x]));
    }

    /** `parent.addBefore(x, anchor)`. */
    method AddBefore(parent: Path, anchor: nat, x: Node)
      requires CanEdit(root, parent, Splice(anchor, [x]))
      modifies this
      ensures root == EditAt(old(root), parent, Splice(anchor, [x]))
    {
      root := EditAt(root, parent, Splice(anchor, [x]));
    }

    /** `element.replace(x)`. */
    method Replace(p: Path, x: Node)
      requires ValidPath(root, p)
      modifies this
      ensures root == EditAt(old(root), p, Put(x))
    {
      root := EditAt(root, p, Put(x));
    }

    /** `element.delete()` for child `i` of the node at `parent`. */
    method Delete(parent: Path, i: nat)
      requires CanEdit(root, parent, Cut(i))
      modifies this
      ensures root == EditAt(old(root), parent, Cut(i))
    {
      root := EditAt(root, parent, Cut(i));
    }

    /** Step 1 (lines 128-136). */
    method AddBindingImport(s: Stage, q: string) returns (r: Stage)
      requires Located(s) && s.tree == root
      modifies this
      ensures r == ImportStep(s, q) && root == r.tree
    {
      var a := ImportAnchor(root.children);
      AddAfter([], a, ImportLeaf(q));
      r := Move(s, [], Splice(a + 1, [ImportLeaf(q)]));
    }

    /** Step 2 (lines 124, 138). */
    method AddBindingProperty(s: Stage, cls: string) returns (r: Stage)
      requires Located(s) && s.tree == root && HasPropertyAnchor(At(s.tree, s.body).children)
      modifies this
      ensures r == PropertyStep(s, cls) && root == r.tree
    {
      var a := PropertyAnchor(At(root, s.body).children);
      AddAfter(s.body, a, PropertyLeaf(cls));
      r := Move(s, s.body, Splice(a + 1, [PropertyLeaf(cls)]));
    }

    /** Step 3 (lines 141-151): five `addBefore` calls, each before the original call. */
    method AddStatements(s: Stage, cls: string) returns (r: Stage)
      requires Located(s) && s.tree == root
      modifies this
      ensures r == StatementStep(s, cls) && root == r.tree
    {
      var parent := Parent(s.call);
      var i := Last(s.call);
      var initializer := Leaf(Other, InitializerText(cls));
      ParentHolds(root, s.call);
      AddBefore(parent, i, initializer);
      var done := [initializer];
      AddBeforeCall(s.tree, parent, i, done, WhiteSpace);
      done := done + [WhiteSpace];
      AddBeforeCall(s.tree, parent, i, done, DoubleNewLine);
      done := done + [DoubleNewLine];
      AddBeforeCall(s.tree, parent, i, done, WhiteSpace);
      done := done + [WhiteSpace];
      AddBeforeCall(s.tree, parent, i, done, NewSetContentView);
      assert done + [NewSetContentView] == NewStatements(cls);
      r := Move(s, parent, Splice(i, NewStatements(cls)));
    }

    /** `element.parent.addBefore(x, element)` once `done` is already in before the element,
        which now sits `|done|` places further on. */
    method AddBeforeCall(ghost t: Node, parent: Path, i: nat, done: seq<Node>, x: Node)
      requires CanEdit(t, parent, Splice(i, done)) && root == EditAt(t, parent, Splice(i, done))
      modifies this
      ensures root == EditAt(t, parent, Splice(i, done + [x]))
    {
      SpliceTwice(t, parent, i, done, [x]);
      AddBefore(parent, i + |done|, x);
    }

    /** `forEach { it.replace(..) }`: the replacements made one after another. */
    method ReplaceAll(ps: seq<Path>, xs: seq<Node>)
      requires |ps| == |xs| && PairwiseDisjoint(ps)
      requires forall j :: 0 <= j < |ps| ==> ValidPath(root, ps[j])
      modifies this
      ensures root == PutEach(old(root), ps, xs)
    {
      var j := 0;
      while j < |ps|
        invariant 0 <= j <= |ps|
        invariant root == PutEach(old(root), ps[..j], xs[..j])
      {
        assert PairwiseDisjoint(ps[..j]);
        PutEachFrame(old(root), ps[..j], xs[..j], ps[j]);
        Replace(ps[j], xs[j]);
        assert ps[..j + 1][..j] == ps[..j] && xs[..j + 1][..j] == xs[..j];
        j := j + 1;
      }
      assert ps[..j] == ps && xs[..j] == xs;
    }

    /** Step 4 (lines 154-160). */
    method ReplaceViewLookups(s: Stage, camelAsVar: string -> string) returns (r: Stage)
      requires Located(s) && s.tree == root
      requires IsSetContentViewCall(At(s.tree, s.call)) && ViewLookupsResolve(At(s.tree, s.body))
      modifies this
      ensures r == ViewStep(s, camelAsVar) && root == r.tree
    {
      var hs := Walk(FindViewByIdCall, At(root, s.body), false);
      HitsAside(s, s.body, FindViewByIdCall, hs);
      ReplaceAll(Absolute(s.body, hs), ViewReplacements(hs, camelAsVar));
      r := Stage(root, s.call, s.cls, s.body);
    }

    /** Step 5 (lines 163-170). */
    method ReplaceSyntheticAccessors(s: Stage, camelAsVar: string -> string) returns (r: Stage)
      requires Located(s) && s.tree == root
      modifies this
      ensures r == AccessorStep(s, camelAsVar) && root == r.tree
    {
      ClassValid(s);
      var hs := Walk(SyntheticAccessor, At(root, s.cls), false);
      AccessorsDisjoint(At(root, s.cls), false);
      HitsAside(s, s.cls, SyntheticAccessor, hs);
      ReplaceAll(Absolute(s.cls, hs), AccessorReplacements(hs, camelAsVar));
      r := Stage(root, s.call, s.cls, s.body);
    }

    /** `getKotlinSyntheticsImports(file).forEach { it.delete() }`: the synthetic imports
        deleted in file order. */
    method DeleteImports()
      requires root.Tree?
      modifies this
      ensures root == Tree(old(root).kind, WithoutSyntheticImports(old(root).children))
    {
      var kind := root.kind;
      var cs := root.children;
      var n := |SyntheticImports(cs)|;
      var k := 0;
      DeleteNone(cs);
      while k < n
        invariant 0 <= k <= n
        invariant root == Tree(kind, Deleted(cs, k))
      {
        DeleteImport(kind, cs, k);
        k := k + 1;
      }
      DeleteDone(cs);
    }

    /** The `k`-th deletion: every earlier one has moved it `k` places to the front. */
    method DeleteImport(kind: Kind, cs: seq<Node>, k: nat)
      requires k < |SyntheticImports(cs)| && root == Tree(kind, Deleted(cs, k))
      modifies this
      ensures root == Tree(kind, Deleted(cs, k + 1))
    {
      DeleteNext(cs, k);
      var i := SyntheticImports(cs)[k] - k;
      CutChild(kind, Deleted(cs, k), i);
      Delete([], i);
    }

    /** Step 6 (lines 173-175). */
    method DeleteSyntheticImports(s: Stage) returns (r: Stage)
      requires Located(s) && s.tree == root
      modifies this
      ensures r == CleanupStep(s) && root == r.tree
    {
      var cs := root.children;
      DeleteImports();
      r := Stage(root, Reindex(cs, s.call), Reindex(cs, s.cls), Reindex(cs, s.body));
    }

    /** Step 7 (line 178). */
    method RemoveOriginalCall(s: Stage)
      requires Located(s) && s.tree == root
      modifies this
      ensures root == RemoveCall(s)
    {
      ParentHolds(root, s.call);
      Delete(Parent(s.call), Last(s.call));
    }

    /** The write command of lines 109-179 for the call at `p`. */
    method Rewrite(p: Path, camel: string -> string, camelAsVar: string -> string)
      requires Ready(root, p, camel)
      modifies this
      ensures root == Migrated(old(root), p, camel, camelAsVar)
    {
      var n := At(root, p);
      var cls := BindingClassOf(n, camel);
      var s := Start(root, p);
      s := AddBindingImport(s, QualifiedBindingOf(n, camel));
      s := AddBindingProperty(s, cls);
      s := AddStatements(s, cls);
      s := ReplaceViewLookups(s, camelAsVar);
      s := ReplaceSyntheticAccessors(s, camelAsVar);
      s := DeleteSyntheticImports(s);
      RemoveOriginalCall(s);
    }

    /** `actionPerformed`: every `setContentView` target the walk reaches whose layout does
        not resolve creates the error notification, recorded in `errors`; the first whose
        layout resolves is rewritten, and the walk ends with it, since the deleted call has no
        next sibling and no parent. */
    method ActionPerformed(camel: string -> string, camelAsVar: string -> string)
      returns (errors: seq<string>, rewritten: Option<Path>)
      requires Walkable(root, camel)
      modifies this
      ensures var ts := Collect(SetContentViewCall, old(root), false);
        |errors| == Reached(ts) && (forall j :: 0 <= j < |errors| ==> errors[j] == LayoutErrorMessage)
        && (Reached(ts) == |ts| ==> rewritten == None && root == old(root))
        && (Reached(ts) < |ts| ==> rewritten == Some(ts[Reached(ts)].path)
                                   && root == Migrated(old(root), ts[Reached(ts)].path, camel, camelAsVar))
    {
      var ts := Walk(SetContentViewCall, root, false);
      errors := [];
      rewritten := None;
      var i := 0;
      while i < |ts|
        invariant 0 <= i <= Reached(ts)
        invariant |errors| == i && forall j :: 0 <= j < i ==> errors[j] == LayoutErrorMessage
        invariant rewritten == None && root == old(root)
      {
        WalkableAt(root, camel, ts, i);
        if LayoutField(ts[i].node).ToField? {
          Rewrite(ts[i].path, camel, camelAsVar);
          rewritten := Some(ts[i].path);
          break;
        }
        errors := errors + [LayoutErrorMessage];
        i := i + 1;
      }
    }
  }
}
