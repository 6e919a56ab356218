/** The three tree walks of the refactor, as one pre-order collection parameterised by what it
    looks for and where it descends:
    - `getFindViewByIdCalls` over a class body (always descends);
    - `getKotlinSyntheticsAccessors` over a class (always descends);
    - the walk of `actionPerformed` over the file, which never descends into a call.
    `Collect` is the specification, `MatchesAt` the independent description of one hit, and
    `Walk` the visitor that accumulates hits into a list. */
module Scan {
  import opened PsiTree
  import opened Naming

  datatype Option<T> = None | Some(value: T)

  /** The last index whose element satisfies `f`. */
  function LastWhere<T>(s: seq<T>, f: T -> bool): (r: Option<nat>)
    ensures r.Some? ==> r.value < |s| && f(s[r.value]) && forall j :: r.value < j < |s| ==> !f(s[j])
    ensures r.None? ==> forall j :: 0 <= j < |s| ==> !f(s[j])
    decreases |s|
  {
    if s == [] then None
    else if f(s[|s| - 1]) then Some(|s| - 1)
    else LastWhere(s[..|s| - 1], f)
  }

  /** The first index whose element satisfies `f`. */
  function FirstWhere<T>(s: seq<T>, f: T -> bool): (r: Option<nat>)
    ensures r.Some? ==> r.value < |s| && f(s[r.value]) && forall j :: 0 <= j < r.value ==> !f(s[j])
    ensures r.None? ==> forall j :: 0 <= j < |s| ==> !f(s[j])
    decreases |s|
  {
    if s == [] then None
    else if f(s[0]) then Some(0)
    else match FirstWhere(s[1..], f)
      case None => None
      case Some(i) => Some(i + 1)
  }

  /** What a walk looks for. */
  datatype Pattern =
    | FindViewByIdCall    // `getFindViewByIdCalls`
    | SyntheticAccessor   // `getKotlinSyntheticsAccessors`
    | SetContentViewCall  // the migration targets of `actionPerformed`

  /** One element a walk found: where it is, relative to the walk's root, and the element. */
  datatype Hit = Hit(path: Path, node: Node)

  /** `setContentView(...)` with exactly one argument in parentheses. */
  predicate IsSetContentViewCall(n: Node) {
    KindOf(n).Call? && StartsWith(Text(n), SetContentViewName) && KindOf(n).argCount == 1
  }

  /** The test a visitor applies to an element, given whether its parent is a dot-qualified
      expression (`findViewById(..).x`, `a.findViewById(..)` are not view lookups). */
  predicate Matches(pat: Pattern, n: Node, parentIsDot: bool) {
    match pat
    case FindViewByIdCall => KindOf(n).Call? && !parentIsDot && StartsWith(Text(n), FindViewByIdName)
    case SyntheticAccessor => n.Ref? && n.synthetic
    case SetContentViewCall => IsSetContentViewCall(n)
  }

  /** Whether the visitor goes on into the children of an element of this kind: the walk of
      `actionPerformed` stops at every Kotlin call and every Java method call. */
  predicate Enters(pat: Pattern, k: Kind) {
    pat != SetContentViewCall || (!k.Call? && k != JavaCall)
  }

  /** The hits of a walk started at `n`, in visiting (pre-)order. */
  function Collect(pat: Pattern, n: Node, parentIsDot: bool): seq<Hit>
    decreases n, 1
  {
    (if Matches(pat, n, parentIsDot) then [Hit([], n)] else [])
    + (if n.Tree? && Enters(pat, KindOf(n)) then CollectKids(pat, n, |n.children|) else [])
  }

  /** The hits below the first `k` children of `n`. */
  function CollectKids(pat: Pattern, n: Node, k: nat): seq<Hit>
    requires n.Tree? && k <= |n.children|
    decreases n, 0, k
  {
    if k == 0 then []
    else CollectKids(pat, n, k - 1) + Under(k - 1, Collect(pat, n.children[k - 1], KindOf(n) == DotQualified))
  }

  /** Hits of child `i`, seen from its parent. */
  function Under(i: nat, hs: seq<Hit>): (r: seq<Hit>)
    ensures |r| == |hs|
    ensures forall j :: 0 <= j < |hs| ==> r[j] == Hit([i] + hs[j].path, hs[j].node)
  {
    seq(|hs|, j requires 0 <= j < |hs| => Hit([i] + hs[j].path, hs[j].node))
  }

  /** The element at `r` is one the walk from `n` reports: the visitor's test holds there, and
      the walk entered every ancestor on the way. */
  predicate MatchesAt(pat: Pattern, n: Node, r: Path, parentIsDot: bool) {
    ValidPath(n, r)
    && Matches(pat, At(n, r), if r == [] then parentIsDot else Spine(n, r)[|r| - 1] == DotQualified)
    && forall k :: 0 <= k < |r| ==> Enters(pat, Spine(n, r)[k])
  }

  /** Pre-order: an ancestor before its descendants, an earlier sibling's subtree before a later one's. */
  predicate Before(a: Path, b: Path)
    decreases |a|
  {
    b != [] && (a == [] || a[0] < b[0] || (a[0] == b[0] && Before(a[1..], b[1..])))
  }

  predicate PreOrdered(hs: seq<Hit>) {
    forall j, k :: 0 <= j < k < |hs| ==> Before(hs[j].path, hs[k].path)
  }

  /** One step down: matching below child `i` of `n` is matching from `n` along `[i] + r`. */
  lemma MatchesStep(pat: Pattern, n: Node, i: nat, r: Path, parentIsDot: bool)
    requires n.Tree? && i < |n.children|
    ensures MatchesAt(pat, n, [i] + r, parentIsDot)
        <==> Enters(pat, KindOf(n)) && MatchesAt(pat, n.children[i], r, KindOf(n) == DotQualified)
  {
    var p := [i] + r;
    assert p[0] == i && p[1..] == r;
    if ValidPath(n, p) {
      assert Spine(n, p) == [KindOf(n)] + Spine(n.children[i], r);
      assert forall k :: 0 < k < |p| ==> Spine(n, p)[k] == Spine(n.children[i], r)[k - 1];
      if r != [] {
        assert Spine(n, p)[|p| - 1] == Spine(n.children[i], r)[|r| - 1];
      }
      if Enters(pat, KindOf(n)) && MatchesAt(pat, n.children[i], r, KindOf(n) == DotQualified) {
        forall k | 0 <= k < |p|
          ensures Enters(pat, Spine(n, p)[k])
        {
          if k > 0 {
            assert Spine(n, p)[k] == Spine(n.children[i], r)[k - 1];
          }
        }
      }
      if MatchesAt(pat, n, p, parentIsDot) {
        assert Enters(pat, Spine(n, p)[0]);
        forall k | 0 <= k < |r|
          ensures Enters(pat, Spine(n.children[i], r)[k])
        {
          assert Spine(n, p)[k + 1] == Spine(n.children[i], r)[k];
        }
      }
    }
  }

  /** Every hit is an element the walk reports, and the hit carries that element. */
  lemma {:induction false} CollectSound(pat: Pattern, n: Node, parentIsDot: bool)
    ensures forall h :: h in Collect(pat, n, parentIsDot) ==>
      MatchesAt(pat, n, h.path, parentIsDot) && At(n, h.path) == h.node
    decreases n, 1
  {
    if n.Tree? && Enters(pat, KindOf(n)) {
      CollectKidsSound(pat, n, |n.children|, parentIsDot);
    }
  }

  lemma {:induction false} CollectKidsSound(pat: Pattern, n: Node, k: nat, parentIsDot: bool)
    requires n.Tree? && k <= |n.children| && Enters(pat, KindOf(n))
    ensures forall h :: h in CollectKids(pat, n, k) ==>
      MatchesAt(pat, n, h.path, parentIsDot) && At(n, h.path) == h.node
    decreases n, 0, k
  {
    if k > 0 {
      var front := CollectKids(pat, n, k - 1);
      var c := n.children[k - 1];
      var sub := Collect(pat, c, KindOf(n) == DotQualified);
      CollectKidsSound(pat, n, k - 1, parentIsDot);
      CollectSound(pat, c, KindOf(n) == DotQualified);
      UnderSound(pat, n, k - 1, sub, parentIsDot);
      assert CollectKids(pat, n, k) == front + Under(k - 1, sub);
    }
  }

  /** The sound hits below child `i` stay sound once seen from its parent. */
  lemma UnderSound(pat: Pattern, n: Node, i: nat, sub: seq<Hit>, parentIsDot: bool)
    requires n.Tree? && i < |n.children| && Enters(pat, KindOf(n))
    requires forall h :: h in sub ==>
      MatchesAt(pat, n.children[i], h.path, KindOf(n) == DotQualified) && At(n.children[i], h.path) == h.node
    ensures forall h :: h in Under(i, sub) ==>
      MatchesAt(pat, n, h.path, parentIsDot) && At(n, h.path) == h.node
  {
    forall h | h in Under(i, sub)
      ensures MatchesAt(pat, n, h.path, parentIsDot) && At(n, h.path) == h.node
    {
      var j :| 0 <= j < |sub| && Under(i, sub)[j] == h;
      var q := sub[j].path;
      assert sub[j] in sub;
      MatchesStep(pat, n, i, q, parentIsDot);
      assert h.path[0] == i && h.path[1..] == q;
    }
  }

  /** Every element the walk reports is a hit. */
  lemma {:induction false} CollectComplete(pat: Pattern, n: Node, r: Path, parentIsDot: bool)
    requires MatchesAt(pat, n, r, parentIsDot)
    ensures Hit(r, At(n, r)) in Collect(pat, n, parentIsDot)
    decreases n, 1
  {
    if r != [] {
      var i := r[0];
      assert r == [i] + r[1..];
      MatchesStep(pat, n, i, r[1..], parentIsDot);
      CollectKidsComplete(pat, n, |n.children|, r, parentIsDot);
    }
  }

  lemma {:induction false} CollectKidsComplete(pat: Pattern, n: Node, k: nat, r: Path, parentIsDot: bool)
    requires n.Tree? && k <= |n.children| && r != [] && r[0] < k
    requires Enters(pat, KindOf(n)) && MatchesAt(pat, n.children[r[0]], r[1..], KindOf(n) == DotQualified)
    ensures ValidPath(n, r) && Hit(r, At(n, r)) in CollectKids(pat, n, k)
    decreases n, 0, k
  {
    var front := CollectKids(pat, n, k - 1);
    var sub := Collect(pat, n.children[k - 1], KindOf(n) == DotQualified);
    assert CollectKids(pat, n, k) == front + Under(k - 1, sub);
    if r[0] < k - 1 {
      CollectKidsComplete(pat, n, k - 1, r, parentIsDot);
    } else {
      CollectComplete(pat, n.children[k - 1], r[1..], KindOf(n) == DotQualified);
      UnderComplete(n, k - 1, r, sub);
    }
  }

  /** A hit of child `i` at `r[1..]` is, seen from the parent, a hit at `r`. */
  lemma UnderComplete(n: Node, i: nat, r: Path, sub: seq<Hit>)
    requires n.Tree? && i < |n.children| && r != [] && r[0] == i
    requires ValidPath(n.children[i], r[1..]) && Hit(r[1..], At(n.children[i], r[1..])) in sub
    ensures ValidPath(n, r) && Hit(r, At(n, r)) in Under(i, sub)
  {
    var j :| 0 <= j < |sub| && sub[j] == Hit(r[1..], At(n.children[i], r[1..]));
    assert r == [i] + r[1..];
    assert Under(i, sub)[j] == Hit(r, At(n, r));
  }

  lemma BeforePrepend(i: nat, a: Path, b: Path)
    requires Before(a, b)
    ensures Before([i] + a, [i] + b)
  {
    assert ([i] + a)[1..] == a && ([i] + b)[1..] == b;
  }

  /** Hits come in the visitor's pre-order. */
  lemma {:induction false} CollectOrdered(pat: Pattern, n: Node, parentIsDot: bool)
    ensures PreOrdered(Collect(pat, n, parentIsDot))
    decreases n, 1
  {
    if n.Tree? && Enters(pat, KindOf(n)) {
      CollectKidsOrdered(pat, n, |n.children|);
      var kids := CollectKids(pat, n, |n.children|);
      forall h | h in kids
        ensures Before([], h.path)
      {
      }
    }
  }

  lemma {:induction false} CollectKidsOrdered(pat: Pattern, n: Node, k: nat)
    requires n.Tree? && k <= |n.children|
    ensures PreOrdered(CollectKids(pat, n, k))
    ensures forall h :: h in CollectKids(pat, n, k) ==> h.path != [] && h.path[0] < k
    decreases n, 0, k
  {
    if k > 0 {
      var front := CollectKids(pat, n, k - 1);
      var sub := Collect(pat, n.children[k - 1], KindOf(n) == DotQualified);
      CollectKidsOrdered(pat, n, k - 1);
      CollectOrdered(pat, n.children[k - 1], KindOf(n) == DotQualified);
      var back := Under(k - 1, sub);
      UnderOrdered(k - 1, sub);
      OrderedConcat(front, back, k - 1);
      assert CollectKids(pat, n, k) == front + back;
    }
  }

  /** Prefixing every path with the same index keeps the order. */
  lemma UnderOrdered(i: nat, sub: seq<Hit>)
    requires PreOrdered(sub)
    ensures PreOrdered(Under(i, sub))
    ensures forall h :: h in Under(i, sub) ==> h.path != [] && h.path[0] == i
  {
    var back := Under(i, sub);
    forall j, m | 0 <= j < m < |back|
      ensures Before(back[j].path, back[m].path)
    {
      BeforePrepend(i, sub[j].path, sub[m].path);
    }
  }

  /** Hits below earlier children, then hits below child `i`, are in pre-order. */
  lemma OrderedConcat(front: seq<Hit>, back: seq<Hit>, i: nat)
    requires PreOrdered(front) && PreOrdered(back)
    requires forall h :: h in front ==> h.path != [] && h.path[0] < i
    requires forall h :: h in back ==> h.path != [] && h.path[0] == i
    ensures PreOrdered(front + back)
    ensures forall h :: h in front + back ==> h.path != [] && h.path[0] < i + 1
  {
    var all := front + back;
    forall j, m | 0 <= j < m < |all|
      ensures Before(all[j].path, all[m].path)
    {
      if m < |front| {
        assert all[j] == front[j] && all[m] == front[m];
      } else if j >= |front| {
        assert all[j] == back[j - |front|] && all[m] == back[m - |front|];
      } else {
        assert all[j] == front[j] && front[j] in front;
        assert all[m] == back[m - |front|] && back[m - |front|] in back;
      }
    }
  }

  /** Pre-order is a strict order: no path comes before itself. */
  lemma BeforeIrreflexive(a: Path)
    ensures !Before(a, a)
    decreases |a|
  {
    if a != [] {
      BeforeIrreflexive(a[1..]);
    }
  }

  /** Accessors are name references, which have no children, so no accessor lies inside another. */
  lemma AccessorsDisjoint(n: Node, parentIsDot: bool)
    ensures PairwiseDisjoint(Paths(Collect(SyntheticAccessor, n, parentIsDot)))
  {
    var hs := Collect(SyntheticAccessor, n, parentIsDot);
    CollectSound(SyntheticAccessor, n, parentIsDot);
    CollectOrdered(SyntheticAccessor, n, parentIsDot);
    var ps := Paths(hs);
    forall j, k | 0 <= j < k < |ps|
      ensures Disjoint(ps[j], ps[k])
    {
      assert hs[j] in hs && hs[k] in hs;
      if ps[j] == ps[k] {
        BeforeIrreflexive(ps[j]);
      }
      if IsPrefix(ps[j], ps[k]) && ps[j] != ps[k] {
        AncestorIsTree(n, ps[j], ps[k]);
      }
      if IsPrefix(ps[k], ps[j]) && ps[j] != ps[k] {
        AncestorIsTree(n, ps[k], ps[j]);
      }
    }
  }

  function Paths(hs: seq<Hit>): (ps: seq<Path>)
    ensures |ps| == |hs| && forall j :: 0 <= j < |hs| ==> ps[j] == hs[j].path
  {
    seq(|hs|, j requires 0 <= j < |hs| => hs[j].path)
  }

  /** The visitor: walks the tree from `n` in pre-order and appends every element that passes
      the test to the list it returns. */
  method Walk(pat: Pattern, n: Node, parentIsDot: bool) returns (found: seq<Hit>)
    ensures found == Collect(pat, n, parentIsDot)
    decreases n
  {
    found := if Matches(pat, n, parentIsDot) then [Hit([], n)] else [];
    if n.Tree? && Enters(pat, KindOf(n)) {
      var kids := n.children;
      var dot := KindOf(n) == DotQualified;
      var below: seq<Hit> := [];
      var i := 0;
      while i < |kids|
        invariant 0 <= i <= |kids|
        invariant below == CollectKids(pat, n, i)
      {
        var sub := Walk(pat, kids[i], dot);
        below := below + Under(i, sub);
        i := i + 1;
      }
      found := found + below;
    }
  }
}
