/** The host's syntax tree of a Kotlin file, abstracted to what the refactor reads and edits.

    A PSI element is identified by its position: a path of child indices from the file node.
    The four tree edits the refactor uses (`addBefore`, `addAfter`, `replace`, `delete`) are one
    function, `EditAt`, applied at the parent (or the node itself, for `replace`).  Because a
    path, unlike a PSI reference, does not follow its node when earlier siblings are inserted or
    deleted, `ShiftPath` says where a node is after an edit and `EditShift` proves it is the same
    node. */
module PsiTree {

  /** Where a resolved field lives: only a field of an inner class of a module `R` class
      (`R.layout`, `R.id`) carries the qualified name of that `R` class. */
  datatype FieldOwner = ModuleRInnerClass(rClassName: string) | OtherOwner

  /** What a reference resolves to: a field (`PsiField`) or anything else, or nothing. */
  datatype Resolution = ToField(fieldName: string, owner: FieldOwner) | NotAField

  /** The element `args[0].children[0].children[1]` of a call (the `x` of `R.layout.x`):
      a simple name reference, another kind of reference, or no reference at all. */
  datatype ArgShape =
    | NoReference
    | NameReference(res: Resolution)
    | OtherReference(res: Resolution)

  /** Element types the refactor distinguishes.  A call records how many arguments it has in
      parentheses and the shape of its first argument (what name resolution would say). */
  datatype Kind =
    | File | PackageDirective | ImportDirective | Class | ClassBody | LBrace | Property
    | Call(argCount: nat, firstArg: ArgShape)
    | JavaCall | DotQualified | NameReferenceKind | Other

  /** A token or created element kept as its text; a name reference (`synthetic` when it
      resolves to a Kotlin synthetic view accessor); or a composite element. */
  datatype Node =
    | Leaf(kind: Kind, text: string)
    | Ref(name: string, synthetic: bool)
    | Tree(kind: Kind, children: seq<Node>)

  type Path = seq<nat>

  function Kids(n: Node): seq<Node> {
    if n.Tree? then n.children else []
  }

  function KindOf(n: Node): Kind {
    if n.Ref? then NameReferenceKind else n.kind
  }

  /** The source text of an element: the concatenation of its tokens. */
  function Text(n: Node): string
    decreases n, 1
  {
    match n
    case Leaf(_, s) => s
    case Ref(name, _) => name
    case Tree(_, cs) => TextUpTo(n, |cs|)
  }

  function TextUpTo(n: Node, k: nat): string
    requires n.Tree? && k <= |n.children|
    decreases n, 0, k
  {
    if k == 0 then "" else TextUpTo(n, k - 1) + Text(n.children[k - 1])
  }

  predicate IsPrefix(a: Path, b: Path)
    decreases |a|
  {
    a == [] || (b != [] && a[0] == b[0] && IsPrefix(a[1..], b[1..]))
  }

  /** Neither node lies inside the other. */
  predicate Disjoint(a: Path, b: Path) {
    !IsPrefix(a, b) && !IsPrefix(b, a)
  }

  predicate PairwiseDisjoint(ps: seq<Path>) {
    forall j, k :: 0 <= j < k < |ps| ==> Disjoint(ps[j], ps[k])
  }

  predicate ValidPath(t: Node, p: Path)
    decreases |p|
  {
    p == [] || (p[0] < |Kids(t)| && ValidPath(Kids(t)[p[0]], p[1..]))
  }

  function At(t: Node, p: Path): Node
    requires ValidPath(t, p)
    decreases |p|
  {
    if p == [] then t else At(Kids(t)[p[0]], p[1..])
  }

  /** The kinds of the strict ancestors of the node at `p`, from the root down. */
  function Spine(t: Node, p: Path): (s: seq<Kind>)
    requires ValidPath(t, p)
    ensures |s| == |p|
    decreases |p|
  {
    if p == [] then [] else [KindOf(t)] + Spine(Kids(t)[p[0]], p[1..])
  }

  function Parent(p: Path): Path
    requires p != []
  {
    p[..|p| - 1]
  }

  function Last(p: Path): nat
    requires p != []
  {
    p[|p| - 1]
  }

  /** An edit of one node: replace it, insert a run of children at index `i`, or remove child `i`. */
  datatype Edit = Put(x: Node) | Splice(i: nat, xs: seq<Node>) | Cut(i: nat)

  predicate Applicable(n: Node, e: Edit) {
    match e
    case Put(_) => true
    case Splice(i, _) => n.Tree? && i <= |n.children|
    case Cut(i) => n.Tree? && i < |n.children|
  }

  function Apply(n: Node, e: Edit): Node
    requires Applicable(n, e)
  {
    match e
    case Put(x) => x
    case Splice(i, xs) => Tree(n.kind, n.children[..i] + xs + n.children[i..])
    case Cut(i) => Tree(n.kind, n.children[..i] + n.children[i + 1..])
  }

  /** The tree after editing the node at `p` (never applied where `p` is not in the tree or
      the edit does not fit; there it changes nothing). */
  function EditAt(t: Node, p: Path, e: Edit): Node
    decreases |p|
  {
    if p == [] then (if Applicable(t, e) then Apply(t, e) else t)
    else if p[0] < |Kids(t)| then Tree(t.kind, t.children[p[0] := EditAt(t.children[p[0]], p[1..], e)])
    else t
  }

  predicate CanEdit(t: Node, p: Path, e: Edit) {
    ValidPath(t, p) && Applicable(At(t, p), e)
  }

  function ShiftIndex(j: nat, e: Edit): nat {
    match e
    case Put(_) => j
    case Splice(i, xs) => if j >= i then j + |xs| else j
    case Cut(i) => if j > i then j - 1 else j
  }

  /** Where the node at `s` sits after `e` is applied at `p`. */
  function ShiftPath(s: Path, p: Path, e: Edit): Path
    decreases |s|
  {
    if s == [] then []
    else if p == [] then [ShiftIndex(s[0], e)] + s[1..]
    else if s[0] == p[0] then [s[0]] + ShiftPath(s[1..], p[1..], e)
    else s
  }

  /** The node at `s` is removed from the tree by `e` applied at `p`. */
  predicate Detached(s: Path, p: Path, e: Edit)
    decreases |p|
  {
    if p == [] then e.Put? || (e.Cut? && s != [] && s[0] == e.i)
    else s != [] && s[0] == p[0] && Detached(s[1..], p[1..], e)
  }

  /** Splitting a path: the node at `a + b` is the node at `b` below the node at `a`. */
  lemma AtConcat(t: Node, a: Path, b: Path)
    ensures ValidPath(t, a + b) <==> ValidPath(t, a) && ValidPath(At(t, a), b)
    ensures ValidPath(t, a + b) ==> At(t, a + b) == At(At(t, a), b)
    ensures ValidPath(t, a + b) ==> Spine(t, a + b) == Spine(t, a) + Spine(At(t, a), b)
    decreases |a|
  {
    if a == [] {
      assert a + b == b;
    } else {
      assert (a + b)[0] == a[0];
      assert (a + b)[1..] == a[1..] + b;
      if a[0] < |Kids(t)| {
        AtConcat(Kids(t)[a[0]], a[1..], b);
      }
    }
  }

  /** The parent of a node is a composite element holding it at index `Last(p)`. */
  lemma ParentHolds(t: Node, p: Path)
    requires ValidPath(t, p) && p != []
    ensures ValidPath(t, Parent(p)) && At(t, Parent(p)).Tree?
    ensures Last(p) < |At(t, Parent(p)).children|
    ensures At(t, p) == At(t, Parent(p)).children[Last(p)]
    ensures Spine(t, p) == Spine(t, Parent(p)) + [KindOf(At(t, Parent(p)))]
  {
    assert p == Parent(p) + [Last(p)];
    AtConcat(t, Parent(p), [Last(p)]);
  }

  lemma PrefixTake(p: Path, k: nat)
    requires k <= |p|
    ensures IsPrefix(p[..k], p)
    decreases k
  {
    if k > 0 {
      assert p[..k][1..] == p[1..][..k - 1];
      PrefixTake(p[1..], k - 1);
    }
  }

  lemma PrefixIsTake(a: Path, b: Path)
    requires IsPrefix(a, b)
    ensures |a| <= |b| && b[..|a|] == a
    decreases |a|
  {
    if a != [] {
      PrefixIsTake(a[1..], b[1..]);
      assert b[..|a|] == [b[0]] + b[1..][..|a| - 1];
    }
  }

  lemma PrefixAppend(a: Path, b: Path)
    ensures IsPrefix(a, a + b)
    decreases |a|
  {
    if a != [] {
      assert (a + b)[1..] == a[1..] + b;
      PrefixAppend(a[1..], b);
    }
  }

  lemma PrefixTrans(a: Path, b: Path, c: Path)
    requires IsPrefix(a, b) && IsPrefix(b, c)
    ensures IsPrefix(a, c)
    decreases |a|
  {
    if a != [] {
      PrefixTrans(a[1..], b[1..], c[1..]);
    }
  }

  /** Two prefixes of one path are ordered by length. */
  lemma PrefixesOrdered(a: Path, b: Path, c: Path)
    requires IsPrefix(a, c) && IsPrefix(b, c) && |a| <= |b|
    ensures IsPrefix(a, b)
    decreases |a|
  {
    if a != [] {
      PrefixesOrdered(a[1..], b[1..], c[1..]);
    }
  }

  lemma PrefixLength(a: Path, b: Path)
    requires IsPrefix(a, b)
    ensures |a| <= |b| && (|a| == |b| ==> a == b)
  {
    PrefixIsTake(a, b);
  }

  /** A common prefix does not change how two paths relate. */
  lemma PrefixUnderBase(base: Path, a: Path, b: Path)
    ensures IsPrefix(base + a, base + b) <==> IsPrefix(a, b)
    decreases |base|
  {
    if base != [] {
      assert (base + a)[1..] == base[1..] + a;
      assert (base + b)[1..] == base[1..] + b;
      PrefixUnderBase(base[1..], a, b);
    } else {
      assert base + a == a && base + b == b;
    }
  }

  /** The kind of the `k`-th ancestor on a path is the kind of the node at the path's first `k` steps. */
  lemma SpineAt(t: Node, p: Path, k: nat)
    requires ValidPath(t, p) && k < |p|
    ensures ValidPath(t, p[..k]) && Spine(t, p)[k] == KindOf(At(t, p[..k]))
  {
    assert p == p[..k] + p[k..];
    AtConcat(t, p[..k], p[k..]);
  }

  /** Every node on the way to a valid path is a composite element. */
  lemma AncestorIsTree(t: Node, a: Path, p: Path)
    requires ValidPath(t, p) && IsPrefix(a, p) && a != p
    ensures ValidPath(t, a) && At(t, a).Tree? && |a| < |p| && p[|a|] < |At(t, a).children|
    decreases |a|
  {
    PrefixLength(a, p);
    if a != [] {
      AncestorIsTree(Kids(t)[p[0]], a[1..], p[1..]);
    }
  }

  /** The edited node is the old node with the edit applied. */
  lemma EditHit(t: Node, p: Path, e: Edit)
    requires CanEdit(t, p, e)
    ensures ValidPath(EditAt(t, p, e), p)
    ensures At(EditAt(t, p, e), p) == Apply(At(t, p), e)
    ensures Spine(EditAt(t, p, e), p) == Spine(t, p)
    decreases |p|
  {
    if p != [] {
      EditHit(t.children[p[0]], p[1..], e);
    }
  }

  /** An ancestor of the edited node stays where it is, with the edit applied below it. */
  lemma EditUnder(t: Node, s: Path, r: Path, e: Edit)
    requires ValidPath(t, s + r)
    ensures ValidPath(t, s) && ValidPath(EditAt(t, s + r, e), s)
    ensures At(EditAt(t, s + r, e), s) == EditAt(At(t, s), r, e)
    ensures Spine(EditAt(t, s + r, e), s) == Spine(t, s)
    decreases |s|
  {
    AtConcat(t, s, r);
    if s == [] {
      assert s + r == r;
    } else {
      assert (s + r)[0] == s[0];
      assert (s + r)[1..] == s[1..] + r;
      EditUnder(t.children[s[0]], s[1..], r, e);
    }
  }

  /** Editing below the root keeps the root's kind, and a composite stays composite. */
  lemma EditKeepsKind(t: Node, p: Path, e: Edit)
    requires ValidPath(t, p) && p != []
    ensures KindOf(EditAt(t, p, e)) == KindOf(t) && EditAt(t, p, e).Tree?
    ensures |Kids(EditAt(t, p, e))| == |Kids(t)|
    ensures forall j :: 0 <= j < |Kids(t)| && j != p[0] ==> Kids(EditAt(t, p, e))[j] == Kids(t)[j]
    ensures Kids(EditAt(t, p, e))[p[0]] == EditAt(Kids(t)[p[0]], p[1..], e)
  {
  }

  /** A child the edit of its parent does not remove is the same child at its shifted index. */
  lemma ShiftedChild(t: Node, e: Edit, j: nat)
    requires Applicable(t, e) && !e.Put? && t.Tree? && j < |t.children| && !(e.Cut? && j == e.i)
    ensures Apply(t, e).Tree? && Apply(t, e).kind == t.kind
    ensures ShiftIndex(j, e) < |Apply(t, e).children| && Apply(t, e).children[ShiftIndex(j, e)] == t.children[j]
  {
    match e {
      case Splice(i, xs) =>
        assert Apply(t, e).children == t.children[..i] + xs + t.children[i..];
      case Cut(i) =>
        assert Apply(t, e).children == t.children[..i] + t.children[i + 1..];
    }
  }

  /** Every node that is not an ancestor of the edit and is not removed by it is the same node
      afterwards, at its shifted path, with the same ancestors' kinds. */
  lemma EditShift(t: Node, p: Path, e: Edit, s: Path)
    requires CanEdit(t, p, e) && ValidPath(t, s)
    requires !IsPrefix(s, p) && !Detached(s, p, e)
    ensures ValidPath(EditAt(t, p, e), ShiftPath(s, p, e))
    ensures At(EditAt(t, p, e), ShiftPath(s, p, e)) == At(t, s)
    ensures Spine(EditAt(t, p, e), ShiftPath(s, p, e)) == Spine(t, s)
    decreases |p|
  {
    var t' := EditAt(t, p, e);
    var s' := ShiftPath(s, p, e);
    assert s != [];
    if p == [] {
      ShiftedChild(t, e, s[0]);
      assert s' == [ShiftIndex(s[0], e)] + s[1..];
      assert s'[1..] == s[1..];
    } else if s[0] == p[0] {
      EditShift(t.children[p[0]], p[1..], e, s[1..]);
      assert s'[0] == s[0] && s'[1..] == ShiftPath(s[1..], p[1..], e);
    } else {
      assert s' == s;
    }
  }

  /** Fact about `ShiftPath` used by callers: a path outside the edited subtree keeps its length. */
  lemma ShiftLength(s: Path, p: Path, e: Edit)
    ensures |ShiftPath(s, p, e)| == |s|
    decreases |s|
  {
    if s != [] && p != [] && s[0] == p[0] {
      ShiftLength(s[1..], p[1..], e);
    }
  }

  /** Applying `Put` edits one after another, at the given paths in order. */
  function PutEach(t: Node, ps: seq<Path>, xs: seq<Node>): Node
    requires |ps| == |xs|
    decreases |ps|
  {
    if ps == [] then t
    else EditAt(PutEach(t, ps[..|ps| - 1], xs[..|xs| - 1]), ps[|ps| - 1], Put(xs[|xs| - 1]))
  }

  /** Replacing at paths that are pairwise disjoint: each replaced path holds its new node,
      and every node that is disjoint from all of them is untouched. */
  lemma PutEachFrame(t: Node, ps: seq<Path>, xs: seq<Node>, s: Path)
    requires |ps| == |xs| && PairwiseDisjoint(ps)
    requires forall j :: 0 <= j < |ps| ==> ValidPath(t, ps[j])
    requires ValidPath(t, s) && forall j :: 0 <= j < |ps| ==> Disjoint(ps[j], s)
    ensures ValidPath(PutEach(t, ps, xs), s) && At(PutEach(t, ps, xs), s) == At(t, s)
    ensures Spine(PutEach(t, ps, xs), s) == Spine(t, s)
    decreases |ps|
  {
    if ps != [] {
      var n := |ps| - 1;
      var u := PutEach(t, ps[..n], xs[..n]);
      PutEachFrame(t, ps[..n], xs[..n], s);
      PutEachFrame(t, ps[..n], xs[..n], ps[n]);
      PutDetached(s, ps[n], xs[n]);
      EditShift(u, ps[n], Put(xs[n]), s);
      ShiftLength(s, ps[n], Put(xs[n]));
      ShiftIdentity(s, ps[n], Put(xs[n]));
    }
  }

  /** What `Put` removes is exactly the subtree at its path. */
  lemma PutDetached(s: Path, p: Path, x: Node)
    ensures Detached(s, p, Put(x)) <==> IsPrefix(p, s)
    decreases |p|
  {
    if p != [] && s != [] && s[0] == p[0] {
      PutDetached(s[1..], p[1..], x);
    }
  }

  /** `Put` moves no other node. */
  lemma ShiftIdentity(s: Path, p: Path, e: Edit)
    requires e.Put?
    ensures ShiftPath(s, p, e) == s
    decreases |s|
  {
    if s != [] && p != [] && s[0] == p[0] {
      ShiftIdentity(s[1..], p[1..], e);
    }
  }

  /** Replacing at pairwise disjoint valid paths: each holds its new node, and every path
      disjoint from all of them is untouched. */
  lemma PutEachReplaces(t: Node, ps: seq<Path>, xs: seq<Node>)
    requires |ps| == |xs| && PairwiseDisjoint(ps)
    requires forall j :: 0 <= j < |ps| ==> ValidPath(t, ps[j])
    ensures forall j :: 0 <= j < |ps| ==> ValidPath(PutEach(t, ps, xs), ps[j]) && At(PutEach(t, ps, xs), ps[j]) == xs[j]
    ensures forall x :: (ValidPath(t, x) && (forall j :: 0 <= j < |ps| ==> Disjoint(ps[j], x)))
                     ==> ValidPath(PutEach(t, ps, xs), x) && At(PutEach(t, ps, xs), x) == At(t, x)
  {
    forall j | 0 <= j < |ps|
      ensures ValidPath(PutEach(t, ps, xs), ps[j]) && At(PutEach(t, ps, xs), ps[j]) == xs[j]
    {
      PutEachHit(t, ps, xs, j);
    }
    forall x | ValidPath(t, x) && (forall j :: 0 <= j < |ps| ==> Disjoint(ps[j], x))
      ensures ValidPath(PutEach(t, ps, xs), x) && At(PutEach(t, ps, xs), x) == At(t, x)
    {
      PutEachFrame(t, ps, xs, x);
    }
  }

  /** After all replacements, the node at each replaced path is its replacement. */
  lemma PutEachHit(t: Node, ps: seq<Path>, xs: seq<Node>, k: nat)
    requires |ps| == |xs| && PairwiseDisjoint(ps) && k < |ps|
    requires forall j :: 0 <= j < |ps| ==> ValidPath(t, ps[j])
    ensures ValidPath(PutEach(t, ps, xs), ps[k]) && At(PutEach(t, ps, xs), ps[k]) == xs[k]
    decreases |ps|
  {
    var n := |ps| - 1;
    var u := PutEach(t, ps[..n], xs[..n]);
    PutEachFrame(t, ps[..n], xs[..n], ps[n]);
    if k == n {
      EditHit(u, ps[n], Put(xs[n]));
    } else {
      PutEachHit(t, ps[..n], xs[..n], k);
      PutDetached(ps[k], ps[n], xs[n]);
      EditShift(u, ps[n], Put(xs[n]), ps[k]);
      ShiftIdentity(ps[k], ps[n], Put(xs[n]));
    }
  }

  /** An ancestor of an edit is not moved by it. */
  lemma ShiftAncestor(s: Path, p: Path, e: Edit)
    requires IsPrefix(s, p)
    ensures ShiftPath(s, p, e) == s
    decreases |s|
  {
    if s != [] {
      ShiftAncestor(s[1..], p[1..], e);
    }
  }

  /** An edit moves a node and its descendants alike. */
  lemma ShiftKeepsPrefix(a: Path, b: Path, p: Path, e: Edit)
    requires IsPrefix(a, b)
    ensures IsPrefix(ShiftPath(a, p, e), ShiftPath(b, p, e))
    decreases |a|
  {
    if a != [] && p != [] && a[0] == p[0] {
      ShiftKeepsPrefix(a[1..], b[1..], p[1..], e);
    }
  }

  /** What removes a node removes its descendants. */
  lemma DetachedPrefix(a: Path, b: Path, p: Path, e: Edit)
    requires IsPrefix(a, b) && Detached(a, p, e)
    ensures Detached(b, p, e)
    decreases |p|
  {
    if p != [] {
      DetachedPrefix(a[1..], b[1..], p[1..], e);
    }
  }

  /** Any node an edit does not remove is still in the tree afterwards, at its shifted path,
      with its kind and its ancestors' kinds; it is the same node unless the edit lies below it. */
  lemma Track(t: Node, p: Path, e: Edit, s: Path)
    requires CanEdit(t, p, e) && ValidPath(t, s) && !Detached(s, p, e)
    ensures ValidPath(EditAt(t, p, e), ShiftPath(s, p, e))
    ensures KindOf(At(EditAt(t, p, e), ShiftPath(s, p, e))) == KindOf(At(t, s))
    ensures At(t, s).Tree? ==> At(EditAt(t, p, e), ShiftPath(s, p, e)).Tree?
    ensures Spine(EditAt(t, p, e), ShiftPath(s, p, e)) == Spine(t, s)
    ensures |ShiftPath(s, p, e)| == |s|
    ensures IsPrefix(s, p) ==> ShiftPath(s, p, e) == s
    ensures !IsPrefix(s, p) ==> At(EditAt(t, p, e), ShiftPath(s, p, e)) == At(t, s)
  {
    ShiftLength(s, p, e);
    if IsPrefix(s, p) {
      ShiftAncestor(s, p, e);
      PrefixIsTake(s, p);
      var r := p[|s|..];
      assert p == s + r;
      EditUnder(t, s, r, e);
      AtConcat(t, s, r);
      if r == [] {
        assert s == p;
        PutNotAtSelf(s, e);
      } else {
        EditKeepsKind(At(t, s), r, e);
      }
    } else {
      EditShift(t, p, e, s);
    }
  }

  /** Only `Put` removes the node it is applied at. */
  lemma PutNotAtSelf(s: Path, e: Edit)
    ensures Detached(s, s, e) <==> e.Put?
    decreases |s|
  {
    if s != [] {
      PutNotAtSelf(s[1..], e);
    }
  }

  /** Replacing at pairwise disjoint paths, none of them at or above `s`: the node at `s` stays in
      the tree with its kind and its ancestors' kinds (it changes only if a replacement is below it). */
  lemma PutEachTrack(t: Node, ps: seq<Path>, xs: seq<Node>, s: Path)
    requires |ps| == |xs| && PairwiseDisjoint(ps)
    requires forall j :: 0 <= j < |ps| ==> ValidPath(t, ps[j])
    requires ValidPath(t, s) && forall j :: 0 <= j < |ps| ==> !IsPrefix(ps[j], s)
    ensures ValidPath(PutEach(t, ps, xs), s)
    ensures KindOf(At(PutEach(t, ps, xs), s)) == KindOf(At(t, s))
    ensures At(t, s).Tree? ==> At(PutEach(t, ps, xs), s).Tree?
    ensures Spine(PutEach(t, ps, xs), s) == Spine(t, s)
    decreases |ps|
  {
    if ps != [] {
      var n := |ps| - 1;
      var u := PutEach(t, ps[..n], xs[..n]);
      PutEachTrack(t, ps[..n], xs[..n], s);
      PutEachFrame(t, ps[..n], xs[..n], ps[n]);
      PutDetached(s, ps[n], xs[n]);
      Track(u, ps[n], Put(xs[n]), s);
      ShiftIdentity(s, ps[n], Put(xs[n]));
    }
  }

  /** `Put` edits below the root keep the root a composite of the same kind with as many children. */
  lemma PutEachRoot(t: Node, ps: seq<Path>, xs: seq<Node>)
    requires |ps| == |xs| && t.Tree?
    requires forall j :: 0 <= j < |ps| ==> ps[j] != [] && ps[j][0] < |t.children|
    ensures PutEach(t, ps, xs).Tree? && PutEach(t, ps, xs).kind == t.kind
    ensures |PutEach(t, ps, xs).children| == |t.children|
    decreases |ps|
  {
    if ps != [] {
      PutEachRoot(t, ps[..|ps| - 1], xs[..|xs| - 1]);
    }
  }

  /** Splicing a run after a run is splicing both runs at once. */
  lemma SpliceTwice(t: Node, p: Path, i: nat, xs: seq<Node>, ys: seq<Node>)
    requires CanEdit(t, p, Splice(i, xs))
    ensures CanEdit(EditAt(t, p, Splice(i, xs)), p, Splice(i + |xs|, ys))
    ensures EditAt(EditAt(t, p, Splice(i, xs)), p, Splice(i + |xs|, ys)) == EditAt(t, p, Splice(i, xs + ys))
    decreases |p|
  {
    EditHit(t, p, Splice(i, xs));
    if p == [] {
      var cs := t.children;
      var once := cs[..i] + xs + cs[i..];
      assert once[..i + |xs|] == cs[..i] + xs;
      assert once[i + |xs|..] == cs[i..];
      assert cs[..i] + xs + ys + cs[i..] == cs[..i] + (xs + ys) + cs[i..];
    } else {
      SpliceTwice(t.children[p[0]], p[1..], i, xs, ys);
    }
  }

}
