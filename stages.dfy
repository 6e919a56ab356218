/** The write-command block of `actionPerformed` (lines 109-179) as seven steps over a `Stage`:
    the file tree together with where the `setContentView` call, its enclosing class and that
    class's body currently are.  Each step is a function; `Located` is the invariant every step
    keeps, which is what makes the next step's edit land where the source's element reference
    points.  The steps, in source order:
      1. `ImportStep`     the binding import after the import anchor        (lines 128-136)
      2. `PropertyStep`   `private lateinit var binding` after the anchor   (lines 124, 138)
      3. `StatementStep`  initializer, spacing and new call before the call (lines 141-151)
      4. `ViewStep`       every `findViewById` call replaced                (lines 154-160)
      5. `AccessorStep`   every synthetic accessor replaced                 (lines 163-170)
      6. `CleanupStep`    the synthetic imports deleted                     (lines 173-175)
      7. `RemoveCall`     the original call deleted                         (line 178) */
module Stages {
  import opened PsiTree
  import opened Naming
  import opened Scan
  import opened Imports

  // ---------------------------------------------------------------------------------------
  // Elements the rewrite creates (the host's factory builds them from this text)

  function ImportLeaf(q: string): Node {
    Leaf(ImportDirective, ImportText(q))
  }

  function PropertyLeaf(cls: string): Node {
    Leaf(Property, PropertyText(cls))
  }

  /** `createWhiteSpace()` */
  const WhiteSpace: Node := Leaf(Other, " ")
  /** `createNewLine(2)` */
  const DoubleNewLine: Node := Leaf(Other, "\n\n")
  /** `setContentView(this.binding.root)`: one argument, whose last name `root` is the binding's
      getter, not a field. */
  const NewSetContentView: Node := Leaf(Call(1, NameReference(NotAField)), NewSetContentViewText)

  /** What is inserted before the original call, in insertion order. */
  function NewStatements(cls: string): seq<Node> {
    [Leaf(Other, InitializerText(cls)), WhiteSpace, DoubleNewLine, WhiteSpace, NewSetContentView]
  }

  /** `binding.<name>` as an expression. */
  function AccessorLeaf(name: string): Node {
    Leaf(DotQualified, AccessorText(name))
  }

  // ---------------------------------------------------------------------------------------
  // Resolution of call arguments

  /** The cast `as KtNameReferenceExpression` of line 106 succeeds. */
  predicate LayoutArgIsName(n: Node) {
    KindOf(n).Call? && KindOf(n).firstArg.NameReference?
  }

  /** `resolve() as? PsiField` of line 106. */
  function LayoutField(n: Node): Resolution
    requires LayoutArgIsName(n)
  {
    KindOf(n).firstArg.res
  }

  /** The layout argument is a field of an inner class of a module `R` class whose name has at
      least two characters: the casts of lines 112-113 and the `substring` of line 114 succeed. */
  predicate LayoutInRClass(n: Node) {
    LayoutArgIsName(n) && LayoutField(n).ToField? && LayoutField(n).owner.ModuleRInnerClass?
    && |LayoutField(n).owner.rClassName| >= 2
  }

  /** `bindingClassName` (line 115). */
  function BindingClassOf(n: Node, camel: string -> string): string
    requires LayoutInRClass(n)
  {
    BindingClassName(camel, LayoutField(n).fieldName)
  }

  /** `qualifiedBinding` (lines 114-116). */
  function QualifiedBindingOf(n: Node, camel: string -> string): string
    requires LayoutInRClass(n)
  {
    QualifiedBinding(PackageName(LayoutField(n).owner.rClassName), BindingClassOf(n, camel))
  }

  /** The casts of line 156 succeed: the call has an argument whose reference resolves to a field. */
  predicate ViewIdResolves(n: Node) {
    KindOf(n).Call? && KindOf(n).argCount >= 1
    && (KindOf(n).firstArg.NameReference? || KindOf(n).firstArg.OtherReference?)
    && KindOf(n).firstArg.res.ToField?
  }

  function ViewIdName(n: Node): string
    requires ViewIdResolves(n)
  {
    KindOf(n).firstArg.res.fieldName
  }

  // ---------------------------------------------------------------------------------------
  // Where things are

  datatype Stage = Stage(tree: Node, call: Path, cls: Path, body: Path)

  /** The tracked paths point at what the source's references point at: the call (still a call,
      still outside every call) inside the class, the class's body (a composite class body)
      directly below the class, and the file child holding them is not an import directive. */
  predicate Located(s: Stage) {
    s.tree.Tree?
    && ValidPath(s.tree, s.call)
    && IsPrefix(s.cls, s.call) && 1 <= |s.cls| < |s.call|
    && IsPrefix(s.cls, s.body) && |s.body| == |s.cls| + 1
    && ValidPath(s.tree, s.body) && At(s.tree, s.body).Tree? && KindOf(At(s.tree, s.body)) == ClassBody
    && KindOf(At(s.tree, s.call)).Call?
    && (forall k :: 0 <= k < |s.call| ==> Enters(SetContentViewCall, Spine(s.tree, s.call)[k]))
    && !IsImport(s.tree.children[s.call[0]])
  }

  function Move(s: Stage, p: Path, e: Edit): Stage {
    Stage(EditAt(s.tree, p, e), ShiftPath(s.call, p, e), ShiftPath(s.cls, p, e), ShiftPath(s.body, p, e))
  }

  lemma SpliceNeverDetaches(s: Path, p: Path, i: nat, xs: seq<Node>)
    ensures !Detached(s, p, Splice(i, xs))
    decreases |p|
  {
    if p != [] && s != [] {
      SpliceNeverDetaches(s[1..], p[1..], i, xs);
    }
  }

  /** A splice or a cut that removes neither the call nor the body keeps everything located. */
  lemma Relocate(s: Stage, p: Path, e: Edit)
    requires Located(s) && CanEdit(s.tree, p, e) && !e.Put?
    requires !Detached(s.call, p, e) && !Detached(s.body, p, e)
    ensures Located(Move(s, p, e))
    ensures !IsPrefix(s.call, p) ==> At(Move(s, p, e).tree, Move(s, p, e).call) == At(s.tree, s.call)
    ensures !IsPrefix(s.body, p) ==> At(Move(s, p, e).tree, Move(s, p, e).body) == At(s.tree, s.body)
  {
    var t := s.tree;
    var r := Move(s, p, e);
    Track(t, p, e, s.call);
    Track(t, p, e, s.body);
    assert !Detached([], p, e);
    Track(t, p, e, []);
    ShiftLength(s.cls, p, e);
    ShiftKeepsPrefix(s.cls, s.call, p, e);
    ShiftKeepsPrefix(s.cls, s.body, p, e);
    var top := s.call[..1];
    PrefixTake(s.call, 1);
    if Detached(top, p, e) {
      DetachedPrefix(top, s.call, p, e);
    }
    Track(t, p, e, top);
    ShiftKeepsPrefix(top, s.call, p, e);
    var top' := ShiftPath(top, p, e);
    assert top' == [r.call[0]];
    assert At(r.tree, top') == r.tree.children[r.call[0]];
    assert At(t, top) == t.children[s.call[0]];
    LocatedLike(s, r);
  }

  // ---------------------------------------------------------------------------------------
  // Where the call sits when the walk finds it

  predicate IsClassKind(k: Kind) {
    k == Class
  }

  predicate IsClassBody(n: Node) {
    KindOf(n) == ClassBody
  }

  /** `parentOfType<KtClass>()`: the nearest strict ancestor of kind class. */
  function NearestClass(t: Node, p: Path): (c: Option<Path>)
    requires ValidPath(t, p)
    ensures c.Some? ==> IsPrefix(c.value, p) && |c.value| < |p| && ValidPath(t, c.value)
                        && KindOf(At(t, c.value)) == Class
                        && forall k :: |c.value| < k < |p| ==> Spine(t, p)[k] != Class
    ensures c.None? ==> forall k :: 0 <= k < |p| ==> Spine(t, p)[k] != Class
  {
    match LastWhere(Spine(t, p), IsClassKind)
    case None => None
    case Some(i) =>
      SpineAt(t, p, i);
      PrefixTake(p, i);
      Some(p[..i])
  }

  /** The call has an enclosing class, and that class has a body (the `!!` of lines 120-121). */
  predicate Enclosed(t: Node, p: Path) {
    ValidPath(t, p) && NearestClass(t, p).Some?
    && FirstWhere(Kids(At(t, NearestClass(t, p).value)), IsClassBody).Some?
  }

  /** A call the walk found, inside a file whose child holding it is not an import directive,
      with an enclosing class whose body is a composite element. */
  predicate Placed(t: Node, p: Path) {
    t.Tree? && KindOf(t) == File && p != []
    && MatchesAt(SetContentViewCall, t, p, false)
    && !IsImport(t.children[p[0]])
    && Enclosed(t, p)
    && Kids(At(t, NearestClass(t, p).value))[FirstWhere(Kids(At(t, NearestClass(t, p).value)), IsClassBody).value].Tree?
  }

  /** The stage the write command starts from. */
  function Start(t: Node, p: Path): (s: Stage)
    requires Placed(t, p)
    ensures Located(s) && s.tree == t && s.call == p
    ensures s.cls == NearestClass(t, p).value && KindOf(At(t, s.cls)) == Class
    ensures s.body == s.cls + [s.body[|s.cls|]] && s.body[|s.cls|] < |Kids(At(t, s.cls))|
    ensures forall j :: 0 <= j < s.body[|s.cls|] ==> !IsClassBody(Kids(At(t, s.cls))[j])
  {
    var c := NearestClass(t, p).value;
    var bi := FirstWhere(Kids(At(t, c)), IsClassBody).value;
    var s := Stage(t, p, c, c + [bi]);
    StartLocated(t, p, c, bi);
    s
  }

  lemma StartLocated(t: Node, p: Path, c: Path, bi: nat)
    requires Placed(t, p) && c == NearestClass(t, p).value
    requires bi == FirstWhere(Kids(At(t, c)), IsClassBody).value
    ensures Located(Stage(t, p, c, c + [bi]))
  {
    AtConcat(t, c, [bi]);
    PrefixAppend(c, [bi]);
  }

  // ---------------------------------------------------------------------------------------
  // Step 1: the binding import

  function ImportStep(s: Stage, q: string): (r: Stage)
    requires Located(s)
    ensures Located(r)
    ensures r.tree.children == s.tree.children[..ImportAnchor(s.tree.children) + 1] + [ImportLeaf(q)]
                               + s.tree.children[ImportAnchor(s.tree.children) + 1..]
    ensures At(r.tree, r.call) == At(s.tree, s.call) && At(r.tree, r.body) == At(s.tree, s.body)
  {
    var e := Splice(ImportAnchor(s.tree.children) + 1, [ImportLeaf(q)]);
    SpliceNeverDetaches(s.call, [], e.i, e.xs);
    SpliceNeverDetaches(s.body, [], e.i, e.xs);
    Relocate(s, [], e);
    Move(s, [], e)
  }

  // ---------------------------------------------------------------------------------------
  // Step 2: the binding property

  predicate IsProperty(n: Node) {
    KindOf(n) == Property
  }

  predicate IsLBrace(n: Node) {
    KindOf(n) == LBrace
  }

  /** `properties.lastOrNull() ?: lBrace` exists. */
  predicate HasPropertyAnchor(cs: seq<Node>) {
    (exists j :: 0 <= j < |cs| && IsProperty(cs[j])) || (exists j :: 0 <= j < |cs| && IsLBrace(cs[j]))
  }

  /** The body child after which the property goes: the last property, else the opening brace. */
  function PropertyAnchor(cs: seq<Node>): (a: nat)
    requires HasPropertyAnchor(cs)
    ensures a < |cs|
    ensures forall j :: a < j < |cs| ==> !IsProperty(cs[j])
    ensures (exists j :: 0 <= j < |cs| && IsProperty(cs[j])) ==> IsProperty(cs[a])
    ensures (forall j :: 0 <= j < |cs| ==> !IsProperty(cs[j])) ==>
      IsLBrace(cs[a]) && forall j :: 0 <= j < a ==> !IsLBrace(cs[j])
  {
    match LastWhere(cs, IsProperty)
    case Some(i) => i
    case None => FirstWhere(cs, IsLBrace).value
  }

  function PropertyStep(s: Stage, cls: string): (r: Stage)
    requires Located(s) && HasPropertyAnchor(At(s.tree, s.body).children)
    ensures Located(r) && r.body == s.body && r.cls == s.cls
    ensures At(r.tree, r.body).children ==
      At(s.tree, s.body).children[..PropertyAnchor(At(s.tree, s.body).children) + 1] + [PropertyLeaf(cls)]
      + At(s.tree, s.body).children[PropertyAnchor(At(s.tree, s.body).children) + 1..]
    ensures At(r.tree, r.call) == At(s.tree, s.call)
  {
    var e := Splice(PropertyAnchor(At(s.tree, s.body).children) + 1, [PropertyLeaf(cls)]);
    SpliceNeverDetaches(s.call, s.body, e.i, e.xs);
    SpliceNeverDetaches(s.body, s.body, e.i, e.xs);
    CallNotAboveBody(s);
    Relocate(s, s.body, e);
    EditHit(s.tree, s.body, e);
    PrefixAncestor(s.body, e);
    PrefixAncestorCls(s);
    Move(s, s.body, e)
  }

  lemma PrefixAncestor(p: Path, e: Edit)
    ensures ShiftPath(p, p, e) == p
  {
    IsPrefixRefl(p);
    ShiftAncestor(p, p, e);
  }

  lemma IsPrefixRefl(p: Path)
    ensures IsPrefix(p, p)
    decreases |p|
  {
    if p != [] {
      IsPrefixRefl(p[1..]);
    }
  }

  lemma PrefixAncestorCls(s: Stage)
    requires Located(s)
    ensures forall e :: ShiftPath(s.cls, s.body, e) == s.cls
  {
    forall e: Edit
      ensures ShiftPath(s.cls, s.body, e) == s.cls
    {
      ShiftAncestor(s.cls, s.body, e);
    }
  }

  /** The call is neither the body nor above it: it lies strictly below the class, and it is a call. */
  lemma CallNotAboveBody(s: Stage)
    requires Located(s)
    ensures !IsPrefix(s.call, s.body)
  {
    if IsPrefix(s.call, s.body) {
      PrefixLength(s.call, s.body);
    }
  }

  // ---------------------------------------------------------------------------------------
  // Step 3: the statements before the call

  function StatementStep(s: Stage, cls: string): (r: Stage)
    requires Located(s)
    ensures Located(r) && r.cls == s.cls
    ensures ValidPath(s.tree, Parent(s.call)) && ValidPath(r.tree, Parent(r.call))
    ensures Parent(r.call) == Parent(s.call) && Last(r.call) == Last(s.call) + |NewStatements(cls)|
    ensures At(s.tree, Parent(s.call)).Tree? && Last(s.call) < |At(s.tree, Parent(s.call)).children|
    ensures At(r.tree, Parent(r.call)).Tree?
    ensures At(r.tree, Parent(r.call)).children ==
      At(s.tree, Parent(s.call)).children[..Last(s.call)] + NewStatements(cls)
      + At(s.tree, Parent(s.call)).children[Last(s.call)..]
    ensures At(r.tree, r.call) == At(s.tree, s.call)
  {
    var e := Splice(Last(s.call), NewStatements(cls));
    ParentHolds(s.tree, s.call);
    StatementMove(s, NewStatements(cls));
    Move(s, Parent(s.call), e)
  }

  lemma StatementMove(s: Stage, xs: seq<Node>)
    requires Located(s)
    ensures var e := Splice(Last(s.call), xs);
      var r := Move(s, Parent(s.call), e);
      ValidPath(s.tree, Parent(s.call)) && CanEdit(s.tree, Parent(s.call), e)
      && Located(r) && r.cls == s.cls
      && r.call == Parent(s.call) + [Last(s.call) + |xs|]
      && At(r.tree, r.call) == At(s.tree, s.call)
      && ValidPath(r.tree, Parent(s.call))
      && At(r.tree, Parent(s.call)) == Apply(At(s.tree, Parent(s.call)), e)
  {
    var e := Splice(Last(s.call), xs);
    ParentHolds(s.tree, s.call);
    SpliceNeverDetaches(s.call, Parent(s.call), e.i, e.xs);
    SpliceNeverDetaches(s.body, Parent(s.call), e.i, e.xs);
    NotAboveParent(s.call);
    Relocate(s, Parent(s.call), e);
    EditHit(s.tree, Parent(s.call), e);
    ShiftToSibling(s.call, e);
    ClsAboveParent(s, e);
  }

  lemma NotAboveParent(p: Path)
    requires p != []
    ensures !IsPrefix(p, Parent(p))
  {
    if IsPrefix(p, Parent(p)) {
      PrefixLength(p, Parent(p));
    }
  }

  /** A splice at the parent moves the node to its new index among the same siblings. */
  lemma ShiftToSibling(p: Path, e: Edit)
    requires p != []
    ensures ShiftPath(p, Parent(p), e) == Parent(p) + [ShiftIndex(Last(p), e)]
    decreases |p|
  {
    if |p| > 1 {
      ShiftToSibling(p[1..], e);
      assert Parent(p)[1..] == Parent(p[1..]);
      assert p[1..][|p| - 2] == Last(p);
    }
  }

  lemma ClsAboveParent(s: Stage, e: Edit)
    requires Located(s)
    ensures ShiftPath(s.cls, Parent(s.call), e) == s.cls
  {
    PrefixIsTake(s.cls, s.call);
    assert Parent(s.call)[..|s.cls|] == s.cls;
    PrefixTake(Parent(s.call), |s.cls|);
    ShiftAncestor(s.cls, Parent(s.call), e);
  }

  // ---------------------------------------------------------------------------------------
  // Steps 4 and 5: replacements

  /** Paths of hits of a walk started at `base`, seen from the root. */
  function Absolute(base: Path, hs: seq<Hit>): (ps: seq<Path>)
    ensures |ps| == |hs| && forall j :: 0 <= j < |hs| ==> ps[j] == base + hs[j].path
  {
    seq(|hs|, j requires 0 <= j < |hs| => base + hs[j].path)
  }

  /** The `findViewById` calls of a body resolve and none lies inside another. */
  predicate ViewLookupsResolve(body: Node) {
    var hs := Collect(FindViewByIdCall, body, false);
    (forall j :: 0 <= j < |hs| ==> ViewIdResolves(hs[j].node)) && PairwiseDisjoint(Paths(hs))
  }

  /** `binding.<camelAsVar(id)>` for each `findViewById(R.id.<id>)`. */
  function ViewReplacements(hs: seq<Hit>, camelAsVar: string -> string): (xs: seq<Node>)
    requires forall j :: 0 <= j < |hs| ==> ViewIdResolves(hs[j].node)
    ensures |xs| == |hs| && forall j :: 0 <= j < |hs| ==> xs[j] == AccessorLeaf(camelAsVar(ViewIdName(hs[j].node)))
  {
    seq(|hs|, j requires 0 <= j < |hs| => AccessorLeaf(camelAsVar(ViewIdName(hs[j].node))))
  }

  /** `binding.<camelAsVar(text)>` for each synthetic accessor. */
  function AccessorReplacements(hs: seq<Hit>, camelAsVar: string -> string): (xs: seq<Node>)
    ensures |xs| == |hs| && forall j :: 0 <= j < |hs| ==> xs[j] == AccessorLeaf(camelAsVar(Text(hs[j].node)))
  {
    seq(|hs|, j requires 0 <= j < |hs| => AccessorLeaf(camelAsVar(Text(hs[j].node))))
  }

  /** The hits of the `findViewById` walk from the body, or of the accessor walk from the class,
      seen from the root, are valid and pairwise disjoint, and none of them is the call, the body
      or above either of them. */
  lemma HitsAside(s: Stage, base: Path, pat: Pattern, hs: seq<Hit>)
    requires Located(s) && (base == s.body || base == s.cls) && pat != SetContentViewCall
    requires pat == FindViewByIdCall ==> base == s.body && IsSetContentViewCall(At(s.tree, s.call))
    requires ValidPath(s.tree, base) && hs == Collect(pat, At(s.tree, base), false) && PairwiseDisjoint(Paths(hs))
    ensures forall j :: 0 <= j < |hs| ==> ValidPath(s.tree, Absolute(base, hs)[j])
    ensures forall j :: 0 <= j < |hs| ==> At(s.tree, Absolute(base, hs)[j]) == hs[j].node
    ensures PairwiseDisjoint(Absolute(base, hs))
    ensures forall j :: 0 <= j < |hs| ==> !IsPrefix(Absolute(base, hs)[j], s.call)
    ensures forall j :: 0 <= j < |hs| ==> !IsPrefix(Absolute(base, hs)[j], s.body)
    ensures forall j :: 0 <= j < |hs| ==> |Absolute(base, hs)[j]| >= 2 && Absolute(base, hs)[j][0] == s.call[0]
  {
    var t := s.tree;
    var ps := Absolute(base, hs);
    CollectSound(pat, At(t, base), false);
    PrefixIsTake(s.cls, s.call);
    PrefixIsTake(s.cls, s.body);
    forall j | 0 <= j < |hs|
      ensures ValidPath(t, ps[j]) && At(t, ps[j]) == hs[j].node
      ensures !IsPrefix(ps[j], s.call) && !IsPrefix(ps[j], s.body)
      ensures |ps[j]| >= 2 && ps[j][0] == s.call[0]
    {
      assert hs[j] in hs;
      var r := hs[j].path;
      AtConcat(t, base, r);
      var x := hs[j].node;
      PrefixAppend(base, r);
      assert Matches(pat, x, if r == [] then false else Spine(At(t, base), r)[|r| - 1] == DotQualified);
      assert ps[j][0] == base[0];
      HitNotOnPath(s, ps[j], pat, x, s.call);
      HitNotOnPath(s, ps[j], pat, x, s.body);
      if pat == SyntheticAccessor && r == [] {
        assert x == At(t, s.cls);
        AncestorIsTree(t, s.cls, s.call);
      }
    }
    forall j, k | 0 <= j < k < |hs|
      ensures Disjoint(ps[j], ps[k])
    {
      PrefixUnderBase(base, hs[j].path, hs[k].path);
      PrefixUnderBase(base, hs[k].path, hs[j].path);
      assert Disjoint(Paths(hs)[j], Paths(hs)[k]);
    }
  }

  /** No text starts with both call names. */
  lemma NamesDiffer(x: string)
    ensures StartsWith(x, FindViewByIdName) ==> !StartsWith(x, SetContentViewName)
  {
    if StartsWith(x, FindViewByIdName) {
      assert x[0] == FindViewByIdName[0] == 'f';
      assert SetContentViewName[0] == 's';
    }
  }

  /** A hit (a view-lookup call, or a name reference) is neither the call nor the body nor above them. */
  lemma HitNotOnPath(s: Stage, h: Path, pat: Pattern, x: Node, target: Path)
    requires Located(s) && (target == s.call || target == s.body) && pat != SetContentViewCall
    requires ValidPath(s.tree, h) && At(s.tree, h) == x
    requires pat == SyntheticAccessor ==> x.Ref?
    requires pat == FindViewByIdCall ==> KindOf(x).Call? && StartsWith(Text(x), FindViewByIdName)
    requires pat == FindViewByIdCall ==> IsPrefix(s.body, h) && IsSetContentViewCall(At(s.tree, s.call))
    ensures !IsPrefix(h, target)
  {
    NamesDiffer(Text(x));
    if IsPrefix(h, target) {
      if h == target {
        assert false;
      } else if pat == SyntheticAccessor {
        AncestorIsTree(s.tree, h, target);
        assert false;
      } else if target == s.call {
        PrefixIsTake(h, s.call);
        PrefixLength(h, s.call);
        SpineAt(s.tree, s.call, |h|);
        assert false;
      } else {
        PrefixLength(h, s.body);
        PrefixLength(s.body, h);
        assert false;
      }
    }
  }

  /** Replacing at the hits keeps everything located. */
  lemma PutsLocated(s: Stage, base: Path, pat: Pattern, hs: seq<Hit>, xs: seq<Node>)
    requires Located(s) && (base == s.body || base == s.cls) && pat != SetContentViewCall
    requires pat == FindViewByIdCall ==> base == s.body && IsSetContentViewCall(At(s.tree, s.call))
    requires ValidPath(s.tree, base) && hs == Collect(pat, At(s.tree, base), false) && PairwiseDisjoint(Paths(hs))
    requires |xs| == |hs|
    ensures Located(Stage(PutEach(s.tree, Absolute(base, hs), xs), s.call, s.cls, s.body))
  {
    HitsAside(s, base, pat, hs);
    PutsKeepKinds(s, Absolute(base, hs), xs);
  }

  /** Replacing at disjoint paths none of which is on the way to the call or the body. */
  lemma PutsKeepKinds(s: Stage, ps: seq<Path>, xs: seq<Node>)
    requires Located(s) && |ps| == |xs| && PairwiseDisjoint(ps)
    requires forall j :: 0 <= j < |ps| ==> ValidPath(s.tree, ps[j])
    requires forall j :: 0 <= j < |ps| ==> !IsPrefix(ps[j], s.call) && !IsPrefix(ps[j], s.body)
    ensures Located(Stage(PutEach(s.tree, ps, xs), s.call, s.cls, s.body))
  {
    var t := s.tree;
    var top := s.call[..1];
    PrefixTake(s.call, 1);
    forall j | 0 <= j < |ps|
      ensures !IsPrefix(ps[j], top) && ps[j] != [] && ps[j][0] < |t.children|
    {
      if IsPrefix(ps[j], top) {
        PrefixLength(ps[j], top);
      }
    }
    PutEachTrack(t, ps, xs, s.call);
    PutEachTrack(t, ps, xs, s.body);
    PutEachTrack(t, ps, xs, top);
    PutEachRoot(t, ps, xs);
    var t' := PutEach(t, ps, xs);
    assert At(t', top) == t'.children[s.call[0]];
    assert At(t, top) == t.children[s.call[0]];
    LocatedLike(s, Stage(t', s.call, s.cls, s.body));
  }

  /** A stage is located when its paths nest like those of a located stage and the nodes
      along them have the same kinds. */
  lemma LocatedLike(s: Stage, r: Stage)
    requires Located(s) && r.tree.Tree?
    requires |r.cls| == |s.cls| && |r.call| == |s.call| && |r.body| == |s.body|
    requires IsPrefix(r.cls, r.call) && IsPrefix(r.cls, r.body)
    requires ValidPath(r.tree, r.call) && KindOf(At(r.tree, r.call)) == KindOf(At(s.tree, s.call))
    requires Spine(r.tree, r.call) == Spine(s.tree, s.call)
    requires ValidPath(r.tree, r.body) && At(r.tree, r.body).Tree? && KindOf(At(r.tree, r.body)) == KindOf(At(s.tree, s.body))
    requires r.call[0] < |r.tree.children| && KindOf(r.tree.children[r.call[0]]) == KindOf(s.tree.children[s.call[0]])
    ensures Located(r)
  {
  }

  function ViewStep(s: Stage, camelAsVar: string -> string): (r: Stage)
    requires Located(s) && IsSetContentViewCall(At(s.tree, s.call)) && ViewLookupsResolve(At(s.tree, s.body))
    ensures Located(r) && r.call == s.call && r.cls == s.cls && r.body == s.body
  {
    var hs := Collect(FindViewByIdCall, At(s.tree, s.body), false);
    var xs := ViewReplacements(hs, camelAsVar);
    PutsLocated(s, s.body, FindViewByIdCall, hs, xs);
    Stage(PutEach(s.tree, Absolute(s.body, hs), xs), s.call, s.cls, s.body)
  }

  lemma ClassValid(s: Stage)
    requires Located(s)
    ensures ValidPath(s.tree, s.cls)
  {
    PrefixIsTake(s.cls, s.call);
    assert s.call == s.cls + s.call[|s.cls|..];
    AtConcat(s.tree, s.cls, s.call[|s.cls|..]);
  }

  function AccessorStep(s: Stage, camelAsVar: string -> string): (r: Stage)
    requires Located(s)
    ensures Located(r) && r.call == s.call && r.cls == s.cls && r.body == s.body
  {
    ClassValid(s);
    var hs := Collect(SyntheticAccessor, At(s.tree, s.cls), false);
    var xs := AccessorReplacements(hs, camelAsVar);
    AccessorsDisjoint(At(s.tree, s.cls), false);
    PutsLocated(s, s.cls, SyntheticAccessor, hs, xs);
    Stage(PutEach(s.tree, Absolute(s.cls, hs), xs), s.call, s.cls, s.body)
  }

  // ---------------------------------------------------------------------------------------
  // Step 6: the synthetic imports

  /** Where a file child is once the synthetic imports before it are gone. */
  function Reindex(cs: seq<Node>, p: Path): Path
    requires p != [] && p[0] <= |cs|
  {
    WithoutSyntheticImportsLength(cs[..p[0]]);
    [p[0] - |SyntheticImports(cs[..p[0]])|] + p[1..]
  }

  lemma {:induction false} WithoutSyntheticImportsConcat(a: seq<Node>, b: seq<Node>)
    ensures WithoutSyntheticImports(a + b) == WithoutSyntheticImports(a) + WithoutSyntheticImports(b)
    decreases |b|
  {
    if b == [] {
      assert a + b == a;
    } else {
      var init := b[..|b| - 1];
      assert (a + b)[..|a + b| - 1] == a + init;
      WithoutSyntheticImportsConcat(a, init);
    }
  }

  /** A child that is not a synthetic import keeps its place among the remaining children. */
  lemma CleanupKeeps(cs: seq<Node>, j: nat)
    requires j < |cs| && !IsSyntheticImport(cs[j])
    ensures |SyntheticImports(cs[..j])| <= j
    ensures j - |SyntheticImports(cs[..j])| < |WithoutSyntheticImports(cs)|
    ensures WithoutSyntheticImports(cs)[j - |SyntheticImports(cs[..j])|] == cs[j]
  {
    assert cs == cs[..j] + [cs[j]] + cs[j + 1..];
    WithoutSyntheticImportsConcat(cs[..j] + [cs[j]], cs[j + 1..]);
    WithoutSyntheticImportsConcat(cs[..j], [cs[j]]);
    assert WithoutSyntheticImports([cs[j]]) == [cs[j]] by {
      assert [cs[j]][..0] == [];
    }
    WithoutSyntheticImportsLength(cs[..j]);
  }

  /** A path through a child that stays is still valid, to the same node, once re-indexed. */
  lemma CleanupPath(t: Node, p: Path)
    requires t.Tree? && ValidPath(t, p) && p != [] && !IsSyntheticImport(t.children[p[0]])
    ensures p[0] <= |t.children|
    ensures ValidPath(Tree(t.kind, WithoutSyntheticImports(t.children)), Reindex(t.children, p))
    ensures At(Tree(t.kind, WithoutSyntheticImports(t.children)), Reindex(t.children, p)) == At(t, p)
    ensures Spine(Tree(t.kind, WithoutSyntheticImports(t.children)), Reindex(t.children, p)) == Spine(t, p)
  {
    CleanupKeeps(t.children, p[0]);
    var q := Reindex(t.children, p);
    assert q[0] == p[0] - |SyntheticImports(t.children[..p[0]])| && q[1..] == p[1..];
  }

  function CleanupStep(s: Stage): (r: Stage)
    requires Located(s)
    ensures Located(r)
    ensures r.tree == Tree(s.tree.kind, WithoutSyntheticImports(s.tree.children))
    ensures ValidPath(r.tree, Parent(r.call)) && ValidPath(s.tree, Parent(s.call))
    ensures At(r.tree, Parent(r.call)) == At(s.tree, Parent(s.call)) && Last(r.call) == Last(s.call)
  {
    CleanupLocated(s);
    CleanupParent(s);
    Reindexed(s)
  }

  /** The call, its class and the body all lie in the same file child. */
  lemma SameTop(s: Stage)
    requires Located(s)
    ensures s.call[0] < |s.tree.children| && s.cls[0] == s.call[0] && s.body[0] == s.call[0]
  {
    PrefixIsTake(s.cls, s.call);
    PrefixIsTake(s.cls, s.body);
  }

  /** The stage once the synthetic imports are gone, every tracked path re-indexed. */
  function Reindexed(s: Stage): Stage
    requires Located(s)
  {
    SameTop(s);
    var cs := s.tree.children;
    Stage(Tree(s.tree.kind, WithoutSyntheticImports(cs)), Reindex(cs, s.call), Reindex(cs, s.cls), Reindex(cs, s.body))
  }

  lemma CleanupLocated(s: Stage)
    requires Located(s)
    ensures Located(Reindexed(s))
  {
    SameTop(s);
    var t := s.tree;
    var cs := t.children;
    var r := Reindexed(s);
    CleanupPath(t, s.call);
    CleanupPath(t, s.body);
    CleanupPath(t, s.call[..1]);
    PrefixReindex(cs, s.cls, s.call);
    PrefixReindex(cs, s.cls, s.body);
    assert Reindex(cs, s.call[..1]) == [r.call[0]];
    LocatedLike(s, r);
  }

  lemma CleanupParent(s: Stage)
    requires Located(s)
    ensures ValidPath(Reindexed(s).tree, Parent(Reindexed(s).call)) && ValidPath(s.tree, Parent(s.call))
    ensures At(Reindexed(s).tree, Parent(Reindexed(s).call)) == At(s.tree, Parent(s.call))
    ensures Last(Reindexed(s).call) == Last(s.call)
  {
    SameTop(s);
    var r := Reindexed(s);
    ParentHolds(s.tree, s.call);
    CleanupPath(s.tree, Parent(s.call));
    assert Parent(r.call) == Reindex(s.tree.children, Parent(s.call));
  }

  lemma PrefixReindex(cs: seq<Node>, a: Path, b: Path)
    requires a != [] && IsPrefix(a, b) && a[0] <= |cs|
    ensures b != [] && b[0] == a[0]
    ensures IsPrefix(Reindex(cs, a), Reindex(cs, b))
  {
    var ra := Reindex(cs, a);
    var rb := Reindex(cs, b);
    assert ra[1..] == a[1..] && rb[1..] == b[1..];
  }

  // ---------------------------------------------------------------------------------------
  // Step 7: the original call

  function RemoveCall(s: Stage): (t: Node)
    requires Located(s)
    ensures ValidPath(s.tree, Parent(s.call)) && At(s.tree, Parent(s.call)).Tree?
    ensures Last(s.call) < |At(s.tree, Parent(s.call)).children|
    ensures ValidPath(t, Parent(s.call)) && At(t, Parent(s.call)).Tree?
    ensures At(t, Parent(s.call)).children ==
      At(s.tree, Parent(s.call)).children[..Last(s.call)] + At(s.tree, Parent(s.call)).children[Last(s.call) + 1..]
  {
    ParentHolds(s.tree, s.call);
    EditHit(s.tree, Parent(s.call), Cut(Last(s.call)));
    EditAt(s.tree, Parent(s.call), Cut(Last(s.call)))
  }

  // ---------------------------------------------------------------------------------------
  // What the steps do to the import list and to the hits

  /** An edit inside a file child that is not an import (and that does not replace the child
      itself) leaves the file's import list as it was. */
  lemma EditKeepsImports(t: Node, p: Path, e: Edit)
    requires t.Tree? && p != [] && p[0] < |t.children| && !IsImport(t.children[p[0]])
    requires |p| >= 2 || !e.Put?
    ensures EditAt(t, p, e).Tree? && |EditAt(t, p, e).children| == |t.children|
    ensures !IsImport(EditAt(t, p, e).children[p[0]])
    ensures ImportTexts(EditAt(t, p, e).children) == ImportTexts(t.children)
  {
    var c := t.children[p[0]];
    var c' := EditAt(c, p[1..], e);
    assert KindOf(c') == KindOf(c);
    ImportTextsUpdate(t.children, p[0], c');
  }

  /** The same for replacements strictly inside one file child. */
  lemma {:induction false} PutEachKeepsImports(t: Node, ps: seq<Path>, xs: seq<Node>, j: nat)
    requires |ps| == |xs| && t.Tree? && j < |t.children| && !IsImport(t.children[j])
    requires forall k :: 0 <= k < |ps| ==> |ps[k]| >= 2 && ps[k][0] == j
    ensures PutEach(t, ps, xs).Tree? && |PutEach(t, ps, xs).children| == |t.children|
    ensures !IsImport(PutEach(t, ps, xs).children[j])
    ensures ImportTexts(PutEach(t, ps, xs).children) == ImportTexts(t.children)
    decreases |ps|
  {
    if ps != [] {
      var n := |ps| - 1;
      PutEachKeepsImports(t, ps[..n], xs[..n], j);
      EditKeepsImports(PutEach(t, ps[..n], xs[..n]), ps[n], Put(xs[n]));
    }
  }

  /** Step 1 adds the binding import's text right after the anchor's in the import list. */
  lemma ImportStepImports(s: Stage, q: string)
    requires Located(s)
    ensures var cs := s.tree.children;
      var a := ImportAnchor(cs);
      ImportTexts(ImportStep(s, q).tree.children)
        == ImportTexts(cs[..a + 1]) + [ImportText(q)] + ImportTexts(cs[a + 1..])
  {
    var cs := s.tree.children;
    var a := ImportAnchor(cs);
    var leaf := [ImportLeaf(q)];
    ImportTextsConcat(cs[..a + 1] + leaf, cs[a + 1..]);
    ImportTextsConcat(cs[..a + 1], leaf);
    assert leaf[..0] == [];
  }

  /** Steps 2 to 5 and 7 edit only inside the file child that holds the call, so none of
      them changes the import list. */
  lemma PropertyStepKeepsImports(s: Stage, cls: string)
    requires Located(s) && HasPropertyAnchor(At(s.tree, s.body).children)
    ensures ImportTexts(PropertyStep(s, cls).tree.children) == ImportTexts(s.tree.children)
  {
    PrefixIsTake(s.cls, s.call);
    PrefixIsTake(s.cls, s.body);
    var e := Splice(PropertyAnchor(At(s.tree, s.body).children) + 1, [PropertyLeaf(cls)]);
    EditKeepsImports(s.tree, s.body, e);
  }

  lemma StatementStepKeepsImports(s: Stage, cls: string)
    requires Located(s)
    ensures ImportTexts(StatementStep(s, cls).tree.children) == ImportTexts(s.tree.children)
  {
    EditKeepsImports(s.tree, Parent(s.call), Splice(Last(s.call), NewStatements(cls)));
  }

  lemma RemoveCallKeepsImports(s: Stage)
    requires Located(s)
    ensures RemoveCall(s).Tree? && ImportTexts(RemoveCall(s).children) == ImportTexts(s.tree.children)
  {
    EditKeepsImports(s.tree, Parent(s.call), Cut(Last(s.call)));
  }

  lemma AccessorStepKeepsImports(s: Stage, camelAsVar: string -> string)
    requires Located(s)
    ensures ImportTexts(AccessorStep(s, camelAsVar).tree.children) == ImportTexts(s.tree.children)
  {
    ClassValid(s);
    var hs := Collect(SyntheticAccessor, At(s.tree, s.cls), false);
    AccessorsDisjoint(At(s.tree, s.cls), false);
    HitsAside(s, s.cls, SyntheticAccessor, hs);
    PutEachKeepsImports(s.tree, Absolute(s.cls, hs), AccessorReplacements(hs, camelAsVar), s.call[0]);
  }

  /** Step 4 too. */
  lemma ViewStepKeepsImports(s: Stage, camelAsVar: string -> string)
    requires Located(s) && IsSetContentViewCall(At(s.tree, s.call)) && ViewLookupsResolve(At(s.tree, s.body))
    ensures ImportTexts(ViewStep(s, camelAsVar).tree.children) == ImportTexts(s.tree.children)
  {
    var hs := Collect(FindViewByIdCall, At(s.tree, s.body), false);
    HitsAside(s, s.body, FindViewByIdCall, hs);
    PutEachKeepsImports(s.tree, Absolute(s.body, hs), ViewReplacements(hs, camelAsVar), s.call[0]);
  }

  /** Step 4 puts `binding.<id>` at every view lookup of the body and changes nothing that
      lies outside all of them. */
  lemma ViewStepReplaces(s: Stage, camelAsVar: string -> string)
    requires Located(s) && IsSetContentViewCall(At(s.tree, s.call)) && ViewLookupsResolve(At(s.tree, s.body))
    ensures var hs := Collect(FindViewByIdCall, At(s.tree, s.body), false);
      var t' := ViewStep(s, camelAsVar).tree;
      (forall j :: 0 <= j < |hs| ==>
         ValidPath(t', s.body + hs[j].path)
         && At(t', s.body + hs[j].path) == AccessorLeaf(camelAsVar(ViewIdName(hs[j].node))))
      && (forall x :: ValidPath(s.tree, x) && (forall j :: 0 <= j < |hs| ==> Disjoint(s.body + hs[j].path, x))
           ==> ValidPath(t', x) && At(t', x) == At(s.tree, x))
  {
    var hs := Collect(FindViewByIdCall, At(s.tree, s.body), false);
    var ps := Absolute(s.body, hs);
    var xs := ViewReplacements(hs, camelAsVar);
    HitsAside(s, s.body, FindViewByIdCall, hs);
    PutEachReplaces(s.tree, ps, xs);
  }

  /** Step 5 puts `binding.<name>` at every synthetic accessor of the class and changes
      nothing that lies outside all of them. */
  lemma AccessorStepReplaces(s: Stage, camelAsVar: string -> string)
    requires Located(s)
    ensures ValidPath(s.tree, s.cls)
    ensures var hs := Collect(SyntheticAccessor, At(s.tree, s.cls), false);
      var t' := AccessorStep(s, camelAsVar).tree;
      (forall j :: 0 <= j < |hs| ==>
         ValidPath(t', s.cls + hs[j].path)
         && At(t', s.cls + hs[j].path) == AccessorLeaf(camelAsVar(Text(hs[j].node))))
      && (forall x :: ValidPath(s.tree, x) && (forall j :: 0 <= j < |hs| ==> Disjoint(s.cls + hs[j].path, x))
           ==> ValidPath(t', x) && At(t', x) == At(s.tree, x))
  {
    ClassValid(s);
    var hs := Collect(SyntheticAccessor, At(s.tree, s.cls), false);
    var ps := Absolute(s.cls, hs);
    var xs := AccessorReplacements(hs, camelAsVar);
    AccessorsDisjoint(At(s.tree, s.cls), false);
    HitsAside(s, s.cls, SyntheticAccessor, hs);
    PutEachReplaces(s.tree, ps, xs);
  }

  /** The `setContentView(this.binding.root)` statement of step 3 is itself a call the walk
      finds, and its argument does not resolve to a field: run again, the action takes the
      layout-error branch for it. */
  lemma NewCallIsTarget(s: Stage, cls: string)
    requires Located(s)
    ensures var r := StatementStep(s, cls);
      var p := Parent(r.call) + [Last(r.call) - 1];
      MatchesAt(SetContentViewCall, r.tree, p, false) && At(r.tree, p) == NewSetContentView
      && LayoutArgIsName(At(r.tree, p)) && !LayoutField(At(r.tree, p)).ToField?
  {
    var r := StatementStep(s, cls);
    var par := Parent(r.call);
    var p := par + [Last(r.call) - 1];
    ParentHolds(r.tree, r.call);
    AtConcat(r.tree, par, [Last(r.call) - 1]);
    assert At(r.tree, par).children[Last(r.call) - 1] == NewSetContentView;
    assert Spine(r.tree, p) == Spine(r.tree, r.call);
    assert StartsWith(Text(NewSetContentView), SetContentViewName);
  }
}
