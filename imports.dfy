/** The file's import directives: where the binding import goes (`addAfter` with the fallback
    chain of lines 128-136) and which imports are Kotlin synthetic imports
    (`getKotlinSyntheticsImports`).  Import and package directives are children of the file node. */
module Imports {
  import opened PsiTree
  import opened Naming
  import opened Scan

  predicate IsImport(n: Node) {
    KindOf(n) == ImportDirective
  }

  predicate IsSyntheticImport(n: Node) {
    IsImport(n) && StartsWith(Text(n), SyntheticImportPrefix)
  }

  /** An import the refactor keeps. */
  predicate IsKeptImport(n: Node) {
    IsImport(n) && !StartsWith(Text(n), SyntheticImportPrefix)
  }

  predicate IsPackageDirective(n: Node) {
    KindOf(n) == PackageDirective
  }

  predicate NoKeptImport(cs: seq<Node>) {
    forall j :: 0 <= j < |cs| ==> !IsKeptImport(cs[j])
  }

  /** The index of the file child after which the binding import is added: the last kept
      import, else the package directive, else the first child. */
  function ImportAnchor(cs: seq<Node>): (a: nat)
    requires cs != []
    ensures a < |cs|
    ensures forall j :: a < j < |cs| ==> !IsKeptImport(cs[j])
    ensures !NoKeptImport(cs) ==> IsKeptImport(cs[a])
    ensures NoKeptImport(cs) && (exists j :: 0 <= j < |cs| && IsPackageDirective(cs[j])) ==>
      IsPackageDirective(cs[a]) && forall j :: 0 <= j < a ==> !IsPackageDirective(cs[j])
    ensures NoKeptImport(cs) && (forall j :: 0 <= j < |cs| ==> !IsPackageDirective(cs[j])) ==> a == 0
  {
    match LastWhere(cs, IsKeptImport)
    case Some(i) => i
    case None =>
      match FirstWhere(cs, IsPackageDirective)
      case Some(i) => i
      case None => 0
  }

  /** `getKotlinSyntheticsImports`: the positions, in file order, of the synthetic imports. */
  function SyntheticImports(cs: seq<Node>): (idx: seq<nat>)
    ensures forall j :: 0 <= j < |idx| ==> idx[j] < |cs| && IsSyntheticImport(cs[idx[j]])
    ensures forall j, k :: 0 <= j < k < |idx| ==> idx[j] < idx[k]
    decreases |cs|
  {
    if cs == [] then []
    else
      var init := cs[..|cs| - 1];
      var r := SyntheticImports(init) + (if IsSyntheticImport(cs[|cs| - 1]) then [|cs| - 1] else []);
      assert forall i :: 0 <= i < |init| ==> init[i] == cs[i];
      r
  }

  /** Every synthetic import is among the positions `getKotlinSyntheticsImports` returns. */
  lemma {:induction false} SyntheticImportsComplete(cs: seq<Node>)
    ensures forall i :: 0 <= i < |cs| && IsSyntheticImport(cs[i]) ==> i in SyntheticImports(cs)
    decreases |cs|
  {
    if cs != [] {
      var init := cs[..|cs| - 1];
      SyntheticImportsComplete(init);
      assert forall i :: 0 <= i < |init| ==> init[i] == cs[i];
    }
  }

  /** The file children once every synthetic import is deleted. */
  function WithoutSyntheticImports(cs: seq<Node>): seq<Node>
    decreases |cs|
  {
    if cs == [] then []
    else WithoutSyntheticImports(cs[..|cs| - 1]) + (if IsSyntheticImport(cs[|cs| - 1]) then [] else [cs[|cs| - 1]])
  }

  /** The texts of the import directives among the file children, in order. */
  function ImportTexts(cs: seq<Node>): seq<string>
    decreases |cs|
  {
    if cs == [] then []
    else ImportTexts(cs[..|cs| - 1]) + (if IsImport(cs[|cs| - 1]) then [Text(cs[|cs| - 1])] else [])
  }

  /** The import texts that do not start with the synthetic prefix, in order. */
  function NonSynthetic(ts: seq<string>): seq<string>
    decreases |ts|
  {
    if ts == [] then []
    else NonSynthetic(ts[..|ts| - 1]) + (if StartsWith(ts[|ts| - 1], SyntheticImportPrefix) then [] else [ts[|ts| - 1]])
  }

  /** The filter keeps exactly the texts that do not start with the prefix. */
  lemma {:induction false} NonSyntheticSpec(ts: seq<string>)
    ensures forall t :: t in NonSynthetic(ts) ==> t in ts && !StartsWith(t, SyntheticImportPrefix)
    ensures forall t :: t in ts && !StartsWith(t, SyntheticImportPrefix) ==> t in NonSynthetic(ts)
    decreases |ts|
  {
    if ts != [] {
      var init := ts[..|ts| - 1];
      NonSyntheticSpec(init);
      assert ts == init + [ts[|ts| - 1]];
    }
  }

  lemma {:induction false} NonSyntheticConcat(a: seq<string>, b: seq<string>)
    ensures NonSynthetic(a + b) == NonSynthetic(a) + NonSynthetic(b)
    decreases |b|
  {
    if b == [] {
      assert a + b == a;
    } else {
      var init := b[..|b| - 1];
      assert (a + b)[..|a + b| - 1] == a + init;
      NonSyntheticConcat(a, init);
    }
  }

  /** A single import text survives the filter exactly when it does not start with the prefix. */
  lemma NonSyntheticOne(x: string)
    ensures NonSynthetic([x]) == if StartsWith(x, SyntheticImportPrefix) then [] else [x]
  {
    assert [x][..0] == [];
  }

  lemma {:induction false} ImportTextsConcat(a: seq<Node>, b: seq<Node>)
    ensures ImportTexts(a + b) == ImportTexts(a) + ImportTexts(b)
    decreases |b|
  {
    if b == [] {
      assert a + b == a;
    } else {
      var init := b[..|b| - 1];
      assert (a + b)[..|a + b| - 1] == a + init;
      ImportTextsConcat(a, init);
    }
  }

  /** The import list of the children is that of a prefix followed by that of the rest. */
  lemma ImportTextsSplit(cs: seq<Node>, m: nat)
    requires m <= |cs|
    ensures ImportTexts(cs) == ImportTexts(cs[..m]) + ImportTexts(cs[m..])
  {
    ImportTextsConcat(cs[..m], cs[m..]);
    assert cs[..m] + cs[m..] == cs;
  }

  /** Changing a file child that is not an import into another that is not an import leaves
      the import list as it was. */
  lemma ImportTextsUpdate(cs: seq<Node>, j: nat, x: Node)
    requires j < |cs| && !IsImport(cs[j]) && !IsImport(x)
    ensures ImportTexts(cs[j := x]) == ImportTexts(cs)
  {
    assert cs == cs[..j] + [cs[j]] + cs[j + 1..];
    assert cs[j := x] == cs[..j] + [x] + cs[j + 1..];
    ImportTextsConcat(cs[..j] + [cs[j]], cs[j + 1..]);
    ImportTextsConcat(cs[..j], [cs[j]]);
    ImportTextsConcat(cs[..j] + [x], cs[j + 1..]);
    ImportTextsConcat(cs[..j], [x]);
    assert ImportTexts([cs[j]]) == [] && ImportTexts([x]) == [] by {
      assert [cs[j]][..0] == [] && [x][..0] == [];
    }
  }

  /** Where no kept import exists, none of the import texts survives the filter. */
  lemma {:induction false} NoKeptImportTexts(cs: seq<Node>)
    requires NoKeptImport(cs)
    ensures NonSynthetic(ImportTexts(cs)) == []
    decreases |cs|
  {
    if cs != [] {
      var init := cs[..|cs| - 1];
      assert NoKeptImport(init) by {
        forall j | 0 <= j < |init| ensures !IsKeptImport(init[j]) {
          assert init[j] == cs[j];
        }
      }
      NoKeptImportTexts(init);
      var tail := if IsImport(cs[|cs| - 1]) then [Text(cs[|cs| - 1])] else [];
      NonSyntheticConcat(ImportTexts(init), tail);
      assert !IsKeptImport(cs[|cs| - 1]);
      if tail != [] {
        assert tail == ImportTexts(init + [cs[|cs| - 1]])[|ImportTexts(init)|..];
        assert NonSynthetic(tail) == NonSynthetic([])  + [] by {
          assert tail[..0] == [];
        }
      }
    }
  }

  /** Deleting the synthetic imports keeps exactly the import texts without the synthetic prefix. */
  lemma {:induction false} WithoutSyntheticImportsTexts(cs: seq<Node>)
    ensures ImportTexts(WithoutSyntheticImports(cs)) == NonSynthetic(ImportTexts(cs))
    decreases |cs|
  {
    if cs != [] {
      var init := cs[..|cs| - 1];
      var last := cs[|cs| - 1];
      WithoutSyntheticImportsTexts(init);
      var kept := if IsSyntheticImport(last) then [] else [last];
      ImportTextsConcat(WithoutSyntheticImports(init), kept);
      var tail := if IsImport(last) then [Text(last)] else [];
      NonSyntheticConcat(ImportTexts(init), tail);
      assert ImportTexts([last]) == tail by {
        assert [last][..0] == [];
      }
      assert NonSynthetic(tail) == ImportTexts(kept) by {
        assert tail == [] || tail[..0] == [];
      }
    }
  }

  /** No synthetic import remains once they are deleted, and every other child stays. */
  lemma {:induction false} WithoutSyntheticImportsSpec(cs: seq<Node>)
    ensures forall n :: n in WithoutSyntheticImports(cs) ==> n in cs && !IsSyntheticImport(n)
    ensures forall n :: n in cs && !IsSyntheticImport(n) ==> n in WithoutSyntheticImports(cs)
    decreases |cs|
  {
    if cs != [] {
      var init := cs[..|cs| - 1];
      WithoutSyntheticImportsSpec(init);
      assert cs == init + [cs[|cs| - 1]];
    }
  }

  /** Every synthetic import counts once: the kept children and the synthetic positions
      together account for all children. */
  lemma {:induction false} WithoutSyntheticImportsLength(cs: seq<Node>)
    ensures |WithoutSyntheticImports(cs)| + |SyntheticImports(cs)| == |cs|
    decreases |cs|
  {
    if cs != [] {
      WithoutSyntheticImportsLength(cs[..|cs| - 1]);
    }
  }

  /** The synthetic imports of a prefix of the children are a prefix of the list, and the
      rest of the list lies beyond that prefix. */
  lemma {:induction false} SyntheticImportsPrefix(cs: seq<Node>, m: nat)
    requires m <= |cs|
    ensures |SyntheticImports(cs[..m])| <= |SyntheticImports(cs)|
    ensures SyntheticImports(cs[..m]) == SyntheticImports(cs)[..|SyntheticImports(cs[..m])|]
    ensures forall j :: |SyntheticImports(cs[..m])| <= j < |SyntheticImports(cs)| ==> SyntheticImports(cs)[j] >= m
    decreases |cs| - m
  {
    if m == |cs| {
      assert cs[..m] == cs;
    } else {
      var init := cs[..|cs| - 1];
      assert init[..m] == cs[..m];
      SyntheticImportsPrefix(init, m);
    }
  }

  /** Before the `k`-th synthetic import lie exactly the first `k` synthetic imports. */
  lemma SyntheticImportsBefore(cs: seq<Node>, k: nat)
    requires k < |SyntheticImports(cs)|
    ensures SyntheticImports(cs[..SyntheticImports(cs)[k]]) == SyntheticImports(cs)[..k]
  {
    var idx := SyntheticImports(cs);
    var m := idx[k];
    SyntheticImportsPrefix(cs, m);
    var pre := SyntheticImports(cs[..m]);
    var l := |pre|;
    if l > k {
      assert false;
    }
    assert k > 0 ==> idx[k - 1] < m;
  }

  /** Extending a prefix of the children by children that are not synthetic imports keeps them all. */
  lemma {:induction false} WithoutSyntheticImportsGap(cs: seq<Node>, e: nat, m: nat)
    requires e <= m <= |cs|
    requires forall j :: e <= j < m ==> !IsSyntheticImport(cs[j])
    ensures WithoutSyntheticImports(cs[..m]) == WithoutSyntheticImports(cs[..e]) + cs[e..m]
    decreases m - e
  {
    if m > e {
      WithoutSyntheticImportsGap(cs, e, m - 1);
      assert cs[..m][..m - 1] == cs[..m - 1];
      assert cs[e..m] == cs[e..m - 1] + [cs[m - 1]];
    }
  }

  /** Adding one more synthetic import to the prefix drops it. */
  lemma WithoutSyntheticImportsSkip(cs: seq<Node>, m: nat)
    requires m < |cs| && IsSyntheticImport(cs[m])
    ensures WithoutSyntheticImports(cs[..m + 1]) == WithoutSyntheticImports(cs[..m])
  {
    assert cs[..m + 1][..m] == cs[..m];
  }

  /** Where the `k`-th deletion starts: just after the previous synthetic import. */
  function GapStart(cs: seq<Node>, k: nat): nat
    requires k <= |SyntheticImports(cs)|
  {
    if k == 0 then 0 else SyntheticImports(cs)[k - 1] + 1
  }

  /** Where it ends: at the next synthetic import, or at the end of the children. */
  function GapEnd(cs: seq<Node>, k: nat): nat
    requires k <= |SyntheticImports(cs)|
  {
    if k < |SyntheticImports(cs)| then SyntheticImports(cs)[k] else |cs|
  }

  /** Between two consecutive synthetic imports lies none. */
  lemma SyntheticGap(cs: seq<Node>, k: nat)
    requires k <= |SyntheticImports(cs)|
    ensures GapStart(cs, k) <= GapEnd(cs, k) <= |cs|
    ensures forall j :: GapStart(cs, k) <= j < GapEnd(cs, k) ==> !IsSyntheticImport(cs[j])
  {
  }

  /** The children once the first `k` synthetic imports are deleted. */
  function Deleted(cs: seq<Node>, k: nat): seq<Node>
    requires k <= |SyntheticImports(cs)|
  {
    WithoutSyntheticImports(cs[..GapStart(cs, k)]) + cs[GapStart(cs, k)..]
  }

  /** Moving the boundary of the deleted prefix over children that are not synthetic imports
      changes nothing. */
  lemma GapShift(cs: seq<Node>, g: nat, m: nat)
    requires g <= m <= |cs|
    requires forall j :: g <= j < m ==> !IsSyntheticImport(cs[j])
    ensures WithoutSyntheticImports(cs[..g]) + cs[g..] == WithoutSyntheticImports(cs[..m]) + cs[m..]
  {
    WithoutSyntheticImportsGap(cs, g, m);
    var w := WithoutSyntheticImports(cs[..g]);
    calc {
      w + cs[g..];
      { assert cs[g..] == cs[g..m] + cs[m..]; }
      w + (cs[g..m] + cs[m..]);
    }
  }

  /** Before the `k`-th synthetic import, exactly `k` children are dropped. */
  lemma KeptBefore(cs: seq<Node>, k: nat)
    requires k < |SyntheticImports(cs)|
    ensures k <= SyntheticImports(cs)[k]
    ensures |WithoutSyntheticImports(cs[..SyntheticImports(cs)[k]])| == SyntheticImports(cs)[k] - k
  {
    var m := SyntheticImports(cs)[k];
    SyntheticImportsBefore(cs, k);
    WithoutSyntheticImportsLength(cs[..m]);
  }

  /** With `k` synthetic imports deleted, the next one sits at `idx[k] - k`, and deleting it
      leaves `k + 1` deleted. */
  lemma DeleteNext(cs: seq<Node>, k: nat)
    requires k < |SyntheticImports(cs)|
    ensures k <= SyntheticImports(cs)[k] && SyntheticImports(cs)[k] - k < |Deleted(cs, k)|
      && Deleted(cs, k)[..SyntheticImports(cs)[k] - k] + Deleted(cs, k)[SyntheticImports(cs)[k] - k + 1..]
         == Deleted(cs, k + 1)
  {
    var m := SyntheticImports(cs)[k];
    DeletedAt(cs, k);
    DeletedAfter(cs, k);
    KeptBefore(cs, k);
    CutOne(WithoutSyntheticImports(cs[..m]), cs[m], cs[m + 1..]);
  }

  /** Before the `k`-th deletion, the children up to the `k`-th synthetic import have lost
      their synthetic imports and the rest are as they were. */
  lemma DeletedAt(cs: seq<Node>, k: nat)
    requires k < |SyntheticImports(cs)|
    ensures SyntheticImports(cs)[k] < |cs|
    ensures Deleted(cs, k) == WithoutSyntheticImports(cs[..SyntheticImports(cs)[k]])
                              + ([cs[SyntheticImports(cs)[k]]] + cs[SyntheticImports(cs)[k] + 1..])
  {
    var m := SyntheticImports(cs)[k];
    SyntheticGap(cs, k);
    GapShift(cs, GapStart(cs, k), m);
    assert cs[m..] == [cs[m]] + cs[m + 1..];
  }

  /** After it, the `k`-th synthetic import is gone too. */
  lemma DeletedAfter(cs: seq<Node>, k: nat)
    requires k < |SyntheticImports(cs)|
    ensures SyntheticImports(cs)[k] < |cs|
    ensures Deleted(cs, k + 1) == WithoutSyntheticImports(cs[..SyntheticImports(cs)[k]]) + cs[SyntheticImports(cs)[k] + 1..]
  {
    WithoutSyntheticImportsSkip(cs, SyntheticImports(cs)[k]);
  }

  /** Removing the element between two runs leaves the two runs. */
  lemma CutOne(a: seq<Node>, x: Node, b: seq<Node>)
    ensures (a + ([x] + b))[..|a|] + (a + ([x] + b))[|a| + 1..] == a + b
  {
    var s := a + ([x] + b);
    assert s[..|a|] == a;
    assert s[|a| + 1..] == b;
  }

  /** With every synthetic import deleted, what is left is `WithoutSyntheticImports`. */
  lemma DeleteDone(cs: seq<Node>)
    ensures Deleted(cs, |SyntheticImports(cs)|) == WithoutSyntheticImports(cs)
  {
    var k := |SyntheticImports(cs)|;
    SyntheticGap(cs, k);
    WithoutSyntheticImportsGap(cs, GapStart(cs, k), |cs|);
    assert cs[..|cs|] == cs;
  }

  lemma DeleteNone(cs: seq<Node>)
    ensures Deleted(cs, 0) == cs
  {
    assert cs[..0] == [];
  }
}
