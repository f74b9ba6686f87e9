/** What the linking passes of scripts/ncov-tools.py guarantee, and where
    they go wrong, stated over the specification functions of `Linking`. */
module LinkingFacts {
  import opened Text
  import opened Paths
  import opened Fasta
  import opened FileStore
  import opened Linking

  /** Every input path exists. */
  predicate AllPresent(s: Snapshot, srcs: seq<Path>)
  {
    forall k | 0 <= k < |srcs| :: srcs[k] in s.files
  }

  lemma {:induction false} AllPresentKept(s: Snapshot, t: Snapshot, srcs: seq<Path>)
    requires AllPresent(s, srcs)
    requires forall p | p in s.files :: p in t.files
    ensures AllPresent(t, srcs)
    ensures srcs != [] ==> AllPresent(t, srcs[1..])
  {
    if srcs != [] {
      forall k | 0 <= k < |srcs[1..]| ensures srcs[1..][k] in t.files {
        TailAt(srcs, k + 1);
      }
    }
  }

  /** A successful pass leaves a file at every one of its link paths. */
  lemma {:induction false} LinkPassLinksAll(s: Snapshot, root: Path, srcs: seq<Path>, suffix: string, replace: Replace)
    requires LinkPass(s, root, srcs, suffix, replace).failure.None?
    ensures forall k | 0 <= k < |srcs| :: LinkTarget(root, srcs[k], suffix) in LinkPass(s, root, srcs, suffix, replace).snap.files
    decreases |srcs|
  {
    if srcs != [] {
      var r := LinkUnlessPresent(s, srcs[0], LinkTarget(root, srcs[0], suffix), replace);
      var last := LinkPass(r.snap, root, srcs[1..], suffix, replace);
      LinkPassLinksAll(r.snap, root, srcs[1..], suffix, replace);
      forall k | 0 <= k < |srcs| ensures LinkTarget(root, srcs[k], suffix) in last.snap.files {
        if k > 0 {
          TailAt(srcs, k);
        }
      }
    }
  }

  /** With every input present, a pass can only fail on an existing link
      path: `replace=True` makes `os.link` refuse it, the undefined
      `replace` raises when it is looked at, and `replace=False` never
      fails. */
  lemma {:induction false} LinkPassFailure(s: Snapshot, root: Path, srcs: seq<Path>, suffix: string, replace: Replace)
    requires AllPresent(s, srcs)
    ensures var r := LinkPass(s, root, srcs, suffix, replace);
      r.failure.Some? ==>
        (replace == Given(true) && r.failure.value.AlreadyExists?) ||
        (replace == Undefined && r.failure == Some(UndefinedReplace))
    decreases |srcs|
  {
    if srcs != [] {
      var r := LinkUnlessPresent(s, srcs[0], LinkTarget(root, srcs[0], suffix), replace);
      if r.failure.None? {
        AllPresentKept(s, r.snap, srcs);
        LinkPassFailure(r.snap, root, srcs[1..], suffix, replace);
      }
    }
  }

  /** The same for link_ivar's consensus loop: the header rewrite never
      fails, since the link path exists by then. */
  lemma {:induction false} ConsensusPassFailure(s: Snapshot, root: Path, srcs: seq<Path>, replace: Replace)
    requires AllPresent(s, srcs)
    ensures var r := ConsensusPass(s, root, srcs, replace);
      r.failure.Some? ==>
        (replace == Given(true) && r.failure.value.AlreadyExists?) ||
        (replace == Undefined && r.failure == Some(UndefinedReplace))
    decreases |srcs|
  {
    if srcs != [] {
      var r := ConsensusStep(s, root, srcs[0], replace);
      if r.failure.None? {
        AllPresentKept(s, r.snap, srcs);
        ConsensusPassFailure(r.snap, root, srcs[1..], replace);
      }
    }
  }

  /** `link_ivar` over present inputs: without `replace` it always
      succeeds; with `replace=True` it can only fail on an existing link
      path. */
  lemma LinkIvarFailure(s: Snapshot, root: Path, variants: seq<Path>, consensus: seq<Path>, replace: Replace)
    requires AllPresent(s, variants) && AllPresent(s, consensus)
    ensures var r := LinkIvar(s, root, variants, consensus, replace);
      r.failure.Some? ==>
        (replace == Given(true) && r.failure.value.AlreadyExists?) ||
        (replace == Undefined && r.failure == Some(UndefinedReplace))
  {
    LinkPassFailure(s, root, variants, VariantsTsv, replace);
    var r := LinkPass(s, root, variants, VariantsTsv, replace);
    if r.failure.None? {
      AllPresentKept(s, r.snap, consensus);
      ConsensusPassFailure(r.snap, root, consensus, replace);
    }
  }

  /** After a successful `link_ivar` every variants link path exists. */
  lemma LinkIvarLinksVariants(s: Snapshot, root: Path, variants: seq<Path>, consensus: seq<Path>, replace: Replace)
    requires LinkIvar(s, root, variants, consensus, replace).failure.None?
    ensures forall k | 0 <= k < |variants| ::
      LinkTarget(root, variants[k], VariantsTsv) in LinkIvar(s, root, variants, consensus, replace).snap.files
  {
    LinkPassLinksAll(s, root, variants, VariantsTsv, replace);
  }

  /** No two inputs name the same sample. */
  predicate DistinctSamples(srcs: seq<Path>)
  {
    forall i, j | 0 <= i < j < |srcs| :: SampleName(srcs[i]) != SampleName(srcs[j])
  }

  /** None of the link paths of a pass exists yet. */
  predicate TargetsFree(s: Snapshot, root: Path, srcs: seq<Path>, suffix: string)
  {
    forall k | 0 <= k < |srcs| :: LinkTarget(root, srcs[k], suffix) !in s.files
  }

  lemma DistinctSamplesCons(srcs: seq<Path>)
    requires srcs != []
    ensures DistinctSamples(srcs) <==>
      DistinctSamples(srcs[1..]) && forall k | 1 <= k < |srcs| :: SampleName(srcs[k]) != SampleName(srcs[0])
  {
    if DistinctSamples(srcs[1..]) && forall k | 1 <= k < |srcs| :: SampleName(srcs[k]) != SampleName(srcs[0]) {
      forall i, j | 0 <= i < j < |srcs| ensures SampleName(srcs[i]) != SampleName(srcs[j]) {
        if i > 0 {
          TailAt(srcs, i);
          TailAt(srcs, j);
        }
      }
    }
    if DistinctSamples(srcs) {
      forall i, j | 0 <= i < j < |srcs[1..]| ensures SampleName(srcs[1..][i]) != SampleName(srcs[1..][j]) {
        TailAt(srcs, i + 1);
        TailAt(srcs, j + 1);
      }
    }
  }

  /** After the first link of a pass, the remaining link paths are free
      exactly when they were free before and differ from the first. */
  lemma TargetsFreeCons(s: Snapshot, root: Path, srcs: seq<Path>, suffix: string)
    requires srcs != []
    ensures TargetsFree(s, root, srcs, suffix) <==>
      LinkTarget(root, srcs[0], suffix) !in s.files && TargetsFree(s, root, srcs[1..], suffix)
  {
    if TargetsFree(s, root, srcs, suffix) {
      forall k | 0 <= k < |srcs[1..]| ensures LinkTarget(root, srcs[1..][k], suffix) !in s.files {
        TailAt(srcs, k + 1);
      }
    }
    if LinkTarget(root, srcs[0], suffix) !in s.files && TargetsFree(s, root, srcs[1..], suffix) {
      forall k | 1 <= k < |srcs| ensures LinkTarget(root, srcs[k], suffix) !in s.files {
        TailAt(srcs, k);
      }
    }
  }

  lemma TargetsFreeStep(s: Snapshot, t: Snapshot, root: Path, srcs: seq<Path>, suffix: string)
    requires srcs != []
    requires t.files.Keys == s.files.Keys + {LinkTarget(root, srcs[0], suffix)}
    ensures TargetsFree(t, root, srcs[1..], suffix) <==>
      TargetsFree(s, root, srcs[1..], suffix) && forall k | 1 <= k < |srcs| :: SampleName(srcs[k]) != SampleName(srcs[0])
  {
    forall k | 1 <= k < |srcs|
      ensures LinkTarget(root, srcs[k], suffix) == LinkTarget(root, srcs[0], suffix) <==> SampleName(srcs[k]) == SampleName(srcs[0])
    {
      if LinkTarget(root, srcs[k], suffix) == LinkTarget(root, srcs[0], suffix) {
        LinkPathInjective(root, SampleName(srcs[k]), SampleName(srcs[0]), suffix);
      }
    }
    if TargetsFree(t, root, srcs[1..], suffix) {
      forall k | 1 <= k < |srcs| ensures LinkTarget(root, srcs[k], suffix) !in t.files {
        TailAt(srcs, k);
      }
    }
    if TargetsFree(s, root, srcs[1..], suffix) && forall k | 1 <= k < |srcs| :: SampleName(srcs[k]) != SampleName(srcs[0]) {
      forall k | 0 <= k < |srcs[1..]| ensures LinkTarget(root, srcs[1..][k], suffix) !in t.files {
        TailAt(srcs, k + 1);
        assert LinkTarget(root, srcs[k + 1], suffix) !in s.files;
      }
    }
  }

  /** The BAM loops of set_up use a `replace` that does not exist. Over
      present inputs, such a pass succeeds exactly when none of its link
      paths exists yet and no two inputs name the same sample; otherwise
      it raises on that name. */
  lemma {:induction false} UndefinedReplacePass(s: Snapshot, root: Path, srcs: seq<Path>, suffix: string)
    requires AllPresent(s, srcs)
    ensures var r := LinkPass(s, root, srcs, suffix, Undefined);
      (r.failure.None? <==> TargetsFree(s, root, srcs, suffix) && DistinctSamples(srcs)) &&
      (r.failure.Some? ==> r.failure == Some(UndefinedReplace))
    decreases |srcs|
  {
    if srcs != [] {
      var t0 := LinkTarget(root, srcs[0], suffix);
      var r := LinkUnlessPresent(s, srcs[0], t0, Undefined);
      DistinctSamplesCons(srcs);
      if t0 in s.files {
        assert !TargetsFree(s, root, srcs, suffix);
      } else {
        assert r.failure.None?;
        AllPresentKept(s, r.snap, srcs);
        UndefinedReplacePass(r.snap, root, srcs[1..], suffix);
        TargetsFreeStep(s, r.snap, root, srcs, suffix);
        TargetsFreeCons(s, root, srcs, suffix);
      }
    }
  }

  // The FreeBayes passes.

  predicate Absolute(root: Path)
  {
    root != [] && root[0] == '/'
  }

  /** A relative path that is missing stays missing while only paths inside
      an absolute directory are added. */
  lemma RelativeStaysMissing(s: Snapshot, t: Snapshot, root: Path, p: Path)
    requires Absolute(root) && p != [] && p[0] != '/'
    requires AddsOnlyUnder(s, t, root)
    requires p !in s.files
    ensures p !in t.files
  {
    RelativeNotUnder(p, root);
  }

  /** The index of the first input whose FreeBayes output is missing, or the
      number of inputs when none is. */
  function FirstMissing(s: Snapshot, srcs: seq<Path>, suffix: string): (k: nat)
    requires suffix != [] && suffix[0] != '/'
    ensures k <= |srcs|
  {
    if srcs == [] || FreebayesOutput(srcs[0], suffix) !in s.files then 0
    else 1 + FirstMissing(s, srcs[1..], suffix)
  }

  /** Every input before that index has its FreeBayes output, and the input
      at that index does not. */
  lemma FirstMissingSpec(s: Snapshot, srcs: seq<Path>, suffix: string)
    requires suffix != [] && suffix[0] != '/'
    ensures var k := FirstMissing(s, srcs, suffix);
      (forall j | 0 <= j < k :: FreebayesOutput(srcs[j], suffix) in s.files) &&
      (k < |srcs| ==> FreebayesOutput(srcs[k], suffix) !in s.files)
  {
    FirstMissingBefore(s, srcs, suffix);
    FirstMissingAt(s, srcs, suffix);
  }

  lemma {:induction false} FirstMissingBefore(s: Snapshot, srcs: seq<Path>, suffix: string)
    requires suffix != [] && suffix[0] != '/'
    ensures forall j | 0 <= j < FirstMissing(s, srcs, suffix) :: FreebayesOutput(srcs[j], suffix) in s.files
  {
    if srcs != [] && FreebayesOutput(srcs[0], suffix) in s.files {
      var k := FirstMissing(s, srcs, suffix);
      assert k == 1 + FirstMissing(s, srcs[1..], suffix);
      FirstMissingBefore(s, srcs[1..], suffix);
      forall j | 0 <= j < k ensures FreebayesOutput(srcs[j], suffix) in s.files {
        if j > 0 {
          TailAt(srcs, j);
        }
      }
    }
  }

  lemma {:induction false} FirstMissingAt(s: Snapshot, srcs: seq<Path>, suffix: string)
    requires suffix != [] && suffix[0] != '/'
    ensures var k := FirstMissing(s, srcs, suffix);
      k < |srcs| ==> FreebayesOutput(srcs[k], suffix) !in s.files
  {
    if srcs != [] && FreebayesOutput(srcs[0], suffix) in s.files {
      var k := FirstMissing(s, srcs, suffix);
      var k1 := FirstMissing(s, srcs[1..], suffix);
      assert k == 1 + k1;
      FirstMissingAt(s, srcs[1..], suffix);
      if k < |srcs| {
        TailAt(srcs, k);
      }
    }
  }

  /** Adding paths inside an absolute directory does not move the first
      missing FreeBayes output, which is a relative path. */
  lemma {:induction false} FirstMissingStable(s: Snapshot, t: Snapshot, root: Path, srcs: seq<Path>, suffix: string)
    requires suffix != [] && suffix[0] != '/'
    requires Absolute(root)
    requires AddsOnlyUnder(s, t, root) && forall p | p in s.files :: p in t.files
    ensures FirstMissing(t, srcs, suffix) == FirstMissing(s, srcs, suffix)
    decreases |srcs|
  {
    if srcs != [] {
      var p := FreebayesOutput(srcs[0], suffix);
      if p !in s.files {
        RelativeStaysMissing(s, t, root, p);
      }
      FirstMissingStable(s, t, root, srcs[1..], suffix);
    }
  }

  /** Reference for the `.variants.vcf` links: each input's link path is
      linked to its FreeBayes variants file unless it exists. */
  function VcfLinkPass(s: Snapshot, root: Path, srcs: seq<Path>): Run
    decreases |srcs|
  {
    if srcs == [] then Ok(s)
    else
      var r := LinkUnlessPresent(s, FreebayesOutput(srcs[0], FreebayesVariants), LinkTarget(root, srcs[0], VariantsVcf), Given(false));
      if r.failure.Some? then r else VcfLinkPass(r.snap, root, srcs[1..])
  }

  /** Reference for link_freebayes's variants loop: the inputs before the
      first one without FreeBayes variants get their `.variants.vcf` links;
      if there is such an input, `link_ivar(root, True)` then runs over all
      inputs. */
  function FbVariantsRef(s: Snapshot, root: Path, rest: seq<Path>, variants: seq<Path>, consensus: seq<Path>): Run
  {
    var k := FirstMissing(s, rest, FreebayesVariants);
    var r := VcfLinkPass(s, root, rest[..k]);
    if r.failure.Some? || k == |rest| then r else LinkIvar(r.snap, root, variants, consensus, Given(true))
  }

  lemma TakeTail<T>(xs: seq<T>, k: nat)
    requires 1 <= k <= |xs|
    ensures xs[..k] != [] && xs[..k][0] == xs[0] && xs[..k][1..] == xs[1..][..k - 1]
  {
  }

  /** One step of the reference when the first input has its FreeBayes
      variants: link it, then the reference over the rest. */
  lemma FbVariantsRefStep(s: Snapshot, root: Path, rest: seq<Path>, variants: seq<Path>, consensus: seq<Path>)
    requires Absolute(root)
    requires rest != [] && FreebayesOutput(rest[0], FreebayesVariants) in s.files
    ensures var r := LinkUnlessPresent(s, FreebayesOutput(rest[0], FreebayesVariants), LinkTarget(root, rest[0], VariantsVcf), Given(false));
      r.failure.None? &&
      FbVariantsRef(s, root, rest, variants, consensus) == FbVariantsRef(r.snap, root, rest[1..], variants, consensus)
  {
    var r := LinkUnlessPresent(s, FreebayesOutput(rest[0], FreebayesVariants), LinkTarget(root, rest[0], VariantsVcf), Given(false));
    var k := FirstMissing(s, rest, FreebayesVariants);
    var k1 := FirstMissing(s, rest[1..], FreebayesVariants);
    assert k == 1 + k1;
    var pre := rest[..k];
    TakeTail(rest, k);
    var v := VcfLinkPass(s, root, pre);
    FirstMissingStable(s, r.snap, root, rest[1..], FreebayesVariants);
    var v1 := VcfLinkPass(r.snap, root, rest[1..][..k1]);
    assert v == v1;
    assert FbVariantsRef(r.snap, root, rest[1..], variants, consensus) ==
      if v1.failure.Some? || k1 == |rest[1..]| then v1 else LinkIvar(v1.snap, root, variants, consensus, Given(true));
  }

  /** The variants loop, with its `break`, is the reference. */
  lemma {:induction false} FbVariantsIsRef(s: Snapshot, root: Path, rest: seq<Path>, variants: seq<Path>, consensus: seq<Path>)
    requires Absolute(root)
    ensures FbVariantsPass(s, root, rest, variants, consensus) == FbVariantsRef(s, root, rest, variants, consensus)
    decreases |rest|
  {
    if rest != [] {
      var output := FreebayesOutput(rest[0], FreebayesVariants);
      if output in s.files {
        var dst := LinkTarget(root, rest[0], VariantsVcf);
        var r := LinkUnlessPresent(s, output, dst, Given(false));
        assert r == if dst !in s.files then LinkSpec(s, output, dst) else Ok(s);
        FbVariantsRefStep(s, root, rest, variants, consensus);
        FbVariantsIsRef(r.snap, root, rest[1..], variants, consensus);
      } else {
        assert rest[..0] == [];
      }
    }
  }

  /** With the FreeBayes variants of every input present, the reference
      links all of them and never fails. */
  lemma {:induction false} VcfLinkPassLinksAll(s: Snapshot, root: Path, srcs: seq<Path>)
    requires Absolute(root)
    requires forall j | 0 <= j < |srcs| :: FreebayesOutput(srcs[j], FreebayesVariants) in s.files
    ensures VcfLinkPass(s, root, srcs).failure.None?
    ensures forall j | 0 <= j < |srcs| :: LinkTarget(root, srcs[j], VariantsVcf) in VcfLinkPass(s, root, srcs).snap.files
    ensures Grows(s, VcfLinkPass(s, root, srcs).snap)
    ensures AddsOnlyUnder(s, VcfLinkPass(s, root, srcs).snap, root)
    ensures Consistent(s) ==> Consistent(VcfLinkPass(s, root, srcs).snap) && Keeps(s, VcfLinkPass(s, root, srcs).snap)
    decreases |srcs|
  {
    if srcs != [] {
      var r := LinkUnlessPresent(s, FreebayesOutput(srcs[0], FreebayesVariants), LinkTarget(root, srcs[0], VariantsVcf), Given(false));
      forall j | 0 <= j < |srcs[1..]| ensures FreebayesOutput(srcs[1..][j], FreebayesVariants) in r.snap.files {
        TailAt(srcs, j + 1);
      }
      VcfLinkPassLinksAll(r.snap, root, srcs[1..]);
      forall j | 0 <= j < |srcs| ensures LinkTarget(root, srcs[j], VariantsVcf) in VcfLinkPass(s, root, srcs).snap.files {
        if j > 0 {
          TailAt(srcs, j);
        }
      }
    }
  }

  lemma RefLinksPrefix(s: Snapshot, root: Path, variants: seq<Path>, consensus: seq<Path>)
    requires Absolute(root) && Consistent(s)
    ensures var k := FirstMissing(s, variants, FreebayesVariants);
      var r := FbVariantsRef(s, root, variants, variants, consensus);
      (forall j | 0 <= j < k :: LinkTarget(root, variants[j], VariantsVcf) in r.snap.files) &&
      (k == |variants| ==> r.failure.None?) &&
      Keeps(s, r.snap)
  {
    var k := FirstMissing(s, variants, FreebayesVariants);
    var rv := PresentPrefixLinked(s, root, variants);
    if k < |variants| {
      var r1 := LinkIvar(rv, root, variants, consensus, Given(true));
      KeepsTrans(s, rv, r1.snap);
    }
  }

  /** The reference's `.variants.vcf` pass over the inputs before the first
      missing FreeBayes variants succeeds and links each of them. */
  lemma PresentPrefixLinked(s: Snapshot, root: Path, variants: seq<Path>) returns (rv: Snapshot)
    requires Absolute(root)
    ensures var k := FirstMissing(s, variants, FreebayesVariants);
      var r := VcfLinkPass(s, root, variants[..k]);
      r.failure.None? && r.snap == rv &&
      (forall j | 0 <= j < k :: LinkTarget(root, variants[j], VariantsVcf) in rv.files) &&
      (Consistent(s) ==> Consistent(rv) && Keeps(s, rv)) && Grows(s, rv)
  {
    var k := FirstMissing(s, variants, FreebayesVariants);
    FirstMissingBefore(s, variants, FreebayesVariants);
    var pre := variants[..k];
    forall j | 0 <= j < |pre| ensures FreebayesOutput(pre[j], FreebayesVariants) in s.files {
      TakeAt(variants, k, j);
    }
    VcfLinkPassLinksAll(s, root, pre);
    rv := VcfLinkPass(s, root, pre).snap;
    forall j | 0 <= j < k ensures LinkTarget(root, variants[j], VariantsVcf) in rv.files {
      TakeAt(variants, k, j);
    }
  }

  /** The inputs of link_freebayes's variants loop up to the first one
      without FreeBayes variants, in order, each get a `.variants.vcf` link,
      and those links stay whatever follows; when no input lacks its
      FreeBayes variants the loop succeeds. */
  lemma FbVariantsLinksPrefix(s: Snapshot, root: Path, variants: seq<Path>, consensus: seq<Path>)
    requires Absolute(root) && Consistent(s)
    ensures var k := FirstMissing(s, variants, FreebayesVariants);
      var r := FbVariantsPass(s, root, variants, variants, consensus);
      (forall j | 0 <= j < k :: LinkTarget(root, variants[j], VariantsVcf) in r.snap.files) &&
      (k == |variants| ==> r.failure.None?) &&
      Keeps(s, r.snap)
  {
    FbVariantsIsRef(s, root, variants, variants, consensus);
    RefLinksPrefix(s, root, variants, consensus);
  }

  /** `link_ivar(root, True)` is bound to hit an existing link path: the
      first variants input is there and so is its `.variants.tsv` link, or
      every input is there and the first consensus input's
      `.consensus.fasta` link exists. */
  predicate IvarRefuses(s: Snapshot, root: Path, variants: seq<Path>, consensus: seq<Path>)
  {
    (variants != [] && variants[0] in s.files && LinkTarget(root, variants[0], VariantsTsv) in s.files) ||
    (AllPresent(s, variants) && AllPresent(s, consensus) &&
     consensus != [] && LinkTarget(root, consensus[0], ConsensusFasta) in s.files)
  }

  lemma IvarRefusesKept(s: Snapshot, t: Snapshot, root: Path, variants: seq<Path>, consensus: seq<Path>)
    requires IvarRefuses(s, root, variants, consensus)
    requires forall p | p in s.files :: p in t.files
    ensures IvarRefuses(t, root, variants, consensus)
  {
    if AllPresent(s, variants) && AllPresent(s, consensus) {
      AllPresentKept(s, t, variants);
      AllPresentKept(s, t, consensus);
    }
  }

  /** The consensus loop of link_freebayes, reaching an input without its
      FreeBayes consensus when `link_ivar(root, True)` is bound to hit an
      existing link path, ends in `FileExistsError`. */
  lemma {:induction false} FbConsensusFallbackFails(s: Snapshot, root: Path, rest: seq<Path>, variants: seq<Path>, consensus: seq<Path>)
    requires Absolute(root)
    requires IvarRefuses(s, root, variants, consensus)
    requires exists j | 0 <= j < |rest| :: FreebayesOutput(rest[j], FreebayesConsensus) !in s.files
    ensures var r := FbConsensusPass(s, root, rest, variants, consensus);
      r.failure.Some? && r.failure.value.AlreadyExists?
    decreases |rest|
  {
    var output := FreebayesOutput(rest[0], FreebayesConsensus);
    if output !in s.files {
      IvarRefusesFails(s, root, variants, consensus);
    } else {
      var j :| 0 <= j < |rest| && FreebayesOutput(rest[j], FreebayesConsensus) !in s.files;
      var t := FbConsensusStepOk(s, root, rest, variants, consensus);
      RelativeStaysMissing(s, t, root, FreebayesOutput(rest[j], FreebayesConsensus));
      TailAt(rest, j);
      IvarRefusesKept(s, t, root, variants, consensus);
      FbConsensusFallbackFails(t, root, rest[1..], variants, consensus);
    }
  }

  /** `link_ivar(root, True)` stops at once when the first variants link
      already exists. */
  lemma IvarRefusesExisting(s: Snapshot, root: Path, variants: seq<Path>, consensus: seq<Path>)
    requires variants != [] && variants[0] in s.files
    requires LinkTarget(root, variants[0], VariantsTsv) in s.files
    ensures LinkIvar(s, root, variants, consensus, Given(true)).failure == Some(AlreadyExists(LinkTarget(root, variants[0], VariantsTsv)))
  {
    var t0 := LinkTarget(root, variants[0], VariantsTsv);
    var r0 := LinkUnlessPresent(s, variants[0], t0, Given(true));
    assert r0.failure == Some(AlreadyExists(t0));
    assert LinkPass(s, root, variants, VariantsTsv, Given(true)) == r0;
  }

  /** Over present inputs, `link_ivar(root, True)` fails when the first
      consensus link already exists: its variants loop can only fail with
      `FileExistsError`, and otherwise its consensus loop starts on that
      existing path. */
  lemma IvarRefusesConsensus(s: Snapshot, root: Path, variants: seq<Path>, consensus: seq<Path>)
    requires AllPresent(s, variants) && AllPresent(s, consensus)
    requires consensus != [] && LinkTarget(root, consensus[0], ConsensusFasta) in s.files
    ensures var r := LinkIvar(s, root, variants, consensus, Given(true));
      r.failure.Some? && r.failure.value.AlreadyExists?
  {
    LinkIvarFailure(s, root, variants, consensus, Given(true));
    var r1 := LinkPass(s, root, variants, VariantsTsv, Given(true));
    if r1.failure.None? {
      var r2 := ConsensusStep(r1.snap, root, consensus[0], Given(true));
      assert r2.failure.Some?;
    }
  }

  lemma IvarRefusesFails(s: Snapshot, root: Path, variants: seq<Path>, consensus: seq<Path>)
    requires IvarRefuses(s, root, variants, consensus)
    ensures var r := LinkIvar(s, root, variants, consensus, Given(true));
      r.failure.Some? && r.failure.value.AlreadyExists?
  {
    if variants != [] && variants[0] in s.files && LinkTarget(root, variants[0], VariantsTsv) in s.files {
      IvarRefusesExisting(s, root, variants, consensus);
    } else {
      IvarRefusesConsensus(s, root, variants, consensus);
    }
  }

  /** A turn of link_freebayes's consensus loop on an input with its
      FreeBayes consensus succeeds and leaves the rest to the loop. */
  lemma FbConsensusStepOk(s: Snapshot, root: Path, rest: seq<Path>, variants: seq<Path>, consensus: seq<Path>) returns (t: Snapshot)
    requires Absolute(root)
    requires rest != [] && FreebayesOutput(rest[0], FreebayesConsensus) in s.files
    ensures FbConsensusPass(s, root, rest, variants, consensus) == FbConsensusPass(t, root, rest[1..], variants, consensus)
    ensures forall p | p in s.files :: p in t.files
    ensures AddsOnlyUnder(s, t, root)
    ensures LinkTarget(root, rest[0], ConsensusFasta) in t.files
  {
    var output := FreebayesOutput(rest[0], FreebayesConsensus);
    var dst := LinkTarget(root, rest[0], ConsensusFasta);
    var r := if dst !in s.files then LinkSpec(s, output, dst) else Ok(s);
    assert r.failure.None?;
    var r2 := RewriteSpec(r.snap, dst, SampleName(rest[0]));
    assert r2.failure.None?;
    t := r2.snap;
  }

  /** link_freebayes over present inputs in a fresh run: when some input
      lacks its FreeBayes variants and some input lacks its FreeBayes
      consensus, the run ends with `FileExistsError`. The first fall-back
      links every variants file; the second fall-back, in the consensus
      loop, links them again with `replace=True`, and `os.link` refuses the
      first one. */
  lemma FallbackTwiceFails(s: Snapshot, root: Path, variants: seq<Path>, consensus: seq<Path>)
    requires Absolute(root)
    requires variants != [] && AllPresent(s, variants) && AllPresent(s, consensus)
    requires exists k | 0 <= k < |variants| :: FreebayesOutput(variants[k], FreebayesVariants) !in s.files
    requires exists j | 0 <= j < |consensus| :: FreebayesOutput(consensus[j], FreebayesConsensus) !in s.files
    ensures LinkFreebayes(s, root, variants, consensus).failure.Some?
    ensures LinkFreebayes(s, root, variants, consensus).failure.value.AlreadyExists?
  {
    var rv := FirstFallback(s, root, variants, consensus);
    var r1 := LinkIvar(rv, root, variants, consensus, Given(true));
    LinkIvarFailure(rv, root, variants, consensus, Given(true));
    if r1.failure.None? {
      LinkIvarLinksVariants(rv, root, variants, consensus, Given(true));
      var j :| 0 <= j < |consensus| && FreebayesOutput(consensus[j], FreebayesConsensus) !in s.files;
      RelativeStaysMissing(s, r1.snap, root, FreebayesOutput(consensus[j], FreebayesConsensus));
      assert variants[0] in r1.snap.files;
      FbConsensusFallbackFails(r1.snap, root, consensus, variants, consensus);
    }
  }

  /** When some input lacks its FreeBayes variants, the variants loop ends
      in `link_ivar(root, True)` run on a state that still holds every
      input. */
  lemma FirstFallback(s: Snapshot, root: Path, variants: seq<Path>, consensus: seq<Path>) returns (rv: Snapshot)
    requires Absolute(root)
    requires AllPresent(s, variants) && AllPresent(s, consensus)
    requires exists k | 0 <= k < |variants| :: FreebayesOutput(variants[k], FreebayesVariants) !in s.files
    ensures FbVariantsPass(s, root, variants, variants, consensus) == LinkIvar(rv, root, variants, consensus, Given(true))
    ensures AllPresent(rv, variants) && AllPresent(rv, consensus)
  {
    var k := FirstMissing(s, variants, FreebayesVariants);
    var k0 :| 0 <= k0 < |variants| && FreebayesOutput(variants[k0], FreebayesVariants) !in s.files;
    FirstMissingBefore(s, variants, FreebayesVariants);
    assert k <= k0;
    rv := PresentPrefixLinked(s, root, variants);
    AllPresentKept(s, rv, variants);
    AllPresentKept(s, rv, consensus);
    FbVariantsIsRef(s, root, variants, variants, consensus);
  }

  /** Each input's link path exists in `t`, holds the input's text in `s`,
      and is recorded as a link to the input. */
  predicate LinkedFrom(s: Snapshot, t: Snapshot, root: Path, srcs: seq<Path>, suffix: string)
  {
    forall k | 0 <= k < |srcs| ::
      srcs[k] in s.files &&
      LinkTarget(root, srcs[k], suffix) in t.files &&
      t.files[LinkTarget(root, srcs[k], suffix)] == s.files[srcs[k]] &&
      LinkTarget(root, srcs[k], suffix) in t.links &&
      t.links[LinkTarget(root, srcs[k], suffix)] == srcs[k]
  }

  /** Each consensus input's link path exists in `t` and holds the input's
      text in `s` with every header renamed to the sample. */
  predicate RenamedFrom(s: Snapshot, t: Snapshot, root: Path, srcs: seq<Path>)
  {
    forall k | 0 <= k < |srcs| ::
      srcs[k] in s.files &&
      LinkTarget(root, srcs[k], ConsensusFasta) in t.files &&
      t.files[LinkTarget(root, srcs[k], ConsensusFasta)] == RewriteText(s.files[srcs[k]], SampleName(srcs[k]))
  }

  /** Distinct samples: the first link path is none of the later ones. */
  lemma FirstTargetNotLater(root: Path, srcs: seq<Path>, suffix: string)
    requires srcs != [] && DistinctSamples(srcs)
    ensures LinkTarget(root, srcs[0], suffix) !in Targets(root, srcs[1..], suffix)
  {
    var t := LinkTarget(root, srcs[0], suffix);
    TargetsAt(root, srcs[1..], suffix, t);
    if t in Targets(root, srcs[1..], suffix) {
      var k :| 0 <= k < |srcs[1..]| && t == LinkTarget(root, srcs[1..][k], suffix);
      TailAt(srcs, k + 1);
      LinkPathInjective(root, SampleName(srcs[0]), SampleName(srcs[k + 1]), suffix);
    }
  }

  /** A link loop over present inputs whose link paths are free and apart
      succeeds, whatever `replace` is, and leaves at each link path the
      text of its input, recorded as a link to it; every file that was
      there keeps its text. */
  lemma {:induction false} LinkPassContents(s: Snapshot, root: Path, srcs: seq<Path>, suffix: string, replace: Replace)
    requires Consistent(s)
    requires AllPresent(s, srcs) && TargetsFree(s, root, srcs, suffix) && DistinctSamples(srcs)
    ensures var r := LinkPass(s, root, srcs, suffix, replace);
      r.failure.None? && LinkedFrom(s, r.snap, root, srcs, suffix)
    decreases |srcs|
  {
    if srcs != [] {
      var dst := LinkTarget(root, srcs[0], suffix);
      var r := LinkUnlessPresent(s, srcs[0], dst, replace);
      assert srcs[0] in s.files && dst !in s.files;
      TargetsFreeStep(s, r.snap, root, srcs, suffix);
      DistinctSamplesCons(srcs);
      AllPresentKept(s, r.snap, srcs);
      LinkPassContents(r.snap, root, srcs[1..], suffix, replace);
      var r2 := LinkPass(r.snap, root, srcs[1..], suffix, replace);
      forall k | 0 <= k < |srcs|
        ensures LinkTarget(root, srcs[k], suffix) in r2.snap.files &&
          r2.snap.files[LinkTarget(root, srcs[k], suffix)] == s.files[srcs[k]] &&
          LinkTarget(root, srcs[k], suffix) in r2.snap.links &&
          r2.snap.links[LinkTarget(root, srcs[k], suffix)] == srcs[k]
      {
        if k > 0 {
          TailAt(srcs, k);
        }
      }
    }
  }

  /** link_ivar's consensus loop over present inputs whose link paths are
      free and apart succeeds, whatever `replace` is, and leaves at each
      link path its input's text with every header renamed to the sample;
      the inputs themselves, and every other file that was there, keep
      their text (the rewrite breaks the fresh hard link). */
  lemma ConsensusPassContents(s: Snapshot, root: Path, srcs: seq<Path>, replace: Replace)
    requires AllPresent(s, srcs) && TargetsFree(s, root, srcs, ConsensusFasta) && DistinctSamples(srcs)
    ensures var r := ConsensusPass(s, root, srcs, replace);
      r.failure.None? &&
      (forall p | p in s.files :: p in r.snap.files && r.snap.files[p] == s.files[p]) &&
      RenamedFrom(s, r.snap, root, srcs)
  {
    ConsensusPassKeepsFiles(s, root, srcs, replace);
    ConsensusPassRenames(s, root, srcs, replace);
  }

  /** A consensus loop whose link paths are all free touches no file that
      was there. */
  lemma ConsensusPassKeepsFiles(s: Snapshot, root: Path, srcs: seq<Path>, replace: Replace)
    requires TargetsFree(s, root, srcs, ConsensusFasta)
    ensures var r := ConsensusPass(s, root, srcs, replace);
      forall p | p in s.files :: p in r.snap.files && r.snap.files[p] == s.files[p]
  {
    forall p | p in s.files ensures p !in Targets(root, srcs, ConsensusFasta) {
      TargetsAt(root, srcs, ConsensusFasta, p);
    }
  }

  lemma {:induction false} ConsensusPassRenames(s: Snapshot, root: Path, srcs: seq<Path>, replace: Replace)
    requires AllPresent(s, srcs) && TargetsFree(s, root, srcs, ConsensusFasta) && DistinctSamples(srcs)
    ensures var r := ConsensusPass(s, root, srcs, replace);
      r.failure.None? && RenamedFrom(s, r.snap, root, srcs)
    decreases |srcs|
  {
    if srcs != [] {
      var dst := LinkTarget(root, srcs[0], ConsensusFasta);
      var r := ConsensusStep(s, root, srcs[0], replace);
      assert srcs[0] in s.files && dst !in s.files;
      assert r.failure.None?;
      TargetsFreeStep(s, r.snap, root, srcs, ConsensusFasta);
      DistinctSamplesCons(srcs);
      AllPresentKept(s, r.snap, srcs);
      ConsensusPassRenames(r.snap, root, srcs[1..], replace);
      ConsensusPassKeepsFiles(r.snap, root, srcs[1..], replace);
      var r2 := ConsensusPass(r.snap, root, srcs[1..], replace);
      forall k | 0 <= k < |srcs|
        ensures LinkTarget(root, srcs[k], ConsensusFasta) in r2.snap.files &&
          r2.snap.files[LinkTarget(root, srcs[k], ConsensusFasta)] == RewriteText(s.files[srcs[k]], SampleName(srcs[k]))
      {
        if k > 0 {
          TailAt(srcs, k);
          assert srcs[k] != dst;
        }
      }
    }
  }

  /** `link_ivar` into a directory where none of its link paths exists,
      with present inputs and no sample named twice in a list, succeeds:
      each `.variants.tsv` link holds its input's text and is recorded as a
      link to it, and each `.consensus.fasta` link holds its input's text
      with the headers renamed to the sample. */
  lemma LinkIvarContents(s: Snapshot, root: Path, variants: seq<Path>, consensus: seq<Path>, replace: Replace)
    requires Consistent(s)
    requires AllPresent(s, variants) && TargetsFree(s, root, variants, VariantsTsv) && DistinctSamples(variants)
    requires AllPresent(s, consensus) && TargetsFree(s, root, consensus, ConsensusFasta) && DistinctSamples(consensus)
    ensures var r := LinkIvar(s, root, variants, consensus, replace);
      r.failure.None? &&
      LinkedFrom(s, r.snap, root, variants, VariantsTsv) &&
      RenamedFrom(s, r.snap, root, consensus)
  {
    LinkPassContents(s, root, variants, VariantsTsv, replace);
    var r1 := LinkPass(s, root, variants, VariantsTsv, replace);
    AllPresentKept(s, r1.snap, consensus);
    assert TargetsFree(r1.snap, root, consensus, ConsensusFasta) by {
      forall k | 0 <= k < |consensus| ensures LinkTarget(root, consensus[k], ConsensusFasta) !in r1.snap.files {
        var t := LinkTarget(root, consensus[k], ConsensusFasta);
        TargetsAt(root, variants, VariantsTsv, t);
        forall j | 0 <= j < |variants| ensures t != LinkTarget(root, variants[j], VariantsTsv) {
          LinkKindsApart(root, SampleName(consensus[k]), SampleName(variants[j]), ConsensusFasta, VariantsTsv);
        }
      }
    }
    ConsensusPassContents(r1.snap, root, consensus, replace);
  }

  /** A link path of one kind is never a link path of a kind whose suffix
      ends in another character. */
  lemma OtherKindNotTarget(root: Path, srcs: seq<Path>, suffix: string, src: Path, suffix2: string)
    requires suffix != [] && suffix2 != [] && suffix[|suffix| - 1] != suffix2[|suffix2| - 1]
    ensures LinkTarget(root, src, suffix2) !in Targets(root, srcs, suffix)
  {
    TargetsAt(root, srcs, suffix, LinkTarget(root, src, suffix2));
    forall k | 0 <= k < |srcs| ensures LinkTarget(root, src, suffix2) != LinkTarget(root, srcs[k], suffix) {
      LinkKindsApart(root, SampleName(src), SampleName(srcs[k]), suffix2, suffix);
    }
  }

  // What link_freebayes leaves behind.

  /** Every input has its FreeBayes output with the given suffix. */
  predicate FbAllPresent(s: Snapshot, srcs: seq<Path>, suffix: string)
    requires suffix != [] && suffix[0] != '/'
  {
    forall j | 0 <= j < |srcs| :: FreebayesOutput(srcs[j], suffix) in s.files
  }

  lemma FirstMissingAll(s: Snapshot, srcs: seq<Path>, suffix: string)
    requires suffix != [] && suffix[0] != '/'
    requires FbAllPresent(s, srcs, suffix)
    ensures FirstMissing(s, srcs, suffix) == |srcs|
  {
    FirstMissingAt(s, srcs, suffix);
  }

  lemma FbAllPresentKept(s: Snapshot, t: Snapshot, srcs: seq<Path>, suffix: string)
    requires suffix != [] && suffix[0] != '/'
    requires FbAllPresent(s, srcs, suffix)
    requires forall p | p in s.files :: p in t.files
    ensures FbAllPresent(t, srcs, suffix)
    ensures srcs != [] ==> FbAllPresent(t, srcs[1..], suffix)
  {
    if srcs != [] {
      forall j | 0 <= j < |srcs[1..]| ensures FreebayesOutput(srcs[1..][j], suffix) in t.files {
        TailAt(srcs, j + 1);
      }
    }
  }

  /** Each input's `.variants.vcf` link exists in `t`, holds the text its
      FreeBayes variants file has in `s`, and is recorded as a link to it. */
  predicate FbLinkedFrom(s: Snapshot, t: Snapshot, root: Path, srcs: seq<Path>)
  {
    forall j | 0 <= j < |srcs| ::
      FreebayesOutput(srcs[j], FreebayesVariants) in s.files &&
      LinkTarget(root, srcs[j], VariantsVcf) in t.files &&
      t.files[LinkTarget(root, srcs[j], VariantsVcf)] == s.files[FreebayesOutput(srcs[j], FreebayesVariants)] &&
      LinkTarget(root, srcs[j], VariantsVcf) in t.links &&
      t.links[LinkTarget(root, srcs[j], VariantsVcf)] == FreebayesOutput(srcs[j], FreebayesVariants)
  }

  /** Each of the first `n` inputs' `.consensus.fasta` link exists in `t`
      and holds the text its FreeBayes consensus has in `s`, with every
      header renamed to the sample. */
  predicate FbRenamedFrom(s: Snapshot, t: Snapshot, root: Path, srcs: seq<Path>, n: nat)
    requires n <= |srcs|
  {
    forall j | 0 <= j < n ::
      FreebayesOutput(srcs[j], FreebayesConsensus) in s.files &&
      LinkTarget(root, srcs[j], ConsensusFasta) in t.files &&
      t.files[LinkTarget(root, srcs[j], ConsensusFasta)] ==
        RewriteText(s.files[FreebayesOutput(srcs[j], FreebayesConsensus)], SampleName(srcs[j]))
  }

  /** With every FreeBayes variants file present, link_freebayes's variants
      loop never falls back and never fails. */
  lemma {:induction false} FbVariantsNoFallback(s: Snapshot, root: Path, rest: seq<Path>, variants: seq<Path>, consensus: seq<Path>)
    requires FbAllPresent(s, rest, FreebayesVariants)
    ensures FbVariantsPass(s, root, rest, variants, consensus).failure.None?
    decreases |rest|
  {
    if rest != [] {
      var output := FreebayesOutput(rest[0], FreebayesVariants);
      var dst := LinkTarget(root, rest[0], VariantsVcf);
      var r := if dst !in s.files then LinkSpec(s, output, dst) else Ok(s);
      assert r.failure.None?;
      FbAllPresentKept(s, r.snap, rest, FreebayesVariants);
      FbVariantsNoFallback(r.snap, root, rest[1..], variants, consensus);
    }
  }

  /** With every FreeBayes variants file present and the `.variants.vcf`
      link paths free and apart, the variants loop links each input's
      FreeBayes variants, adds nothing else and changes no file. */
  lemma {:induction false} FbVariantsPassContents(s: Snapshot, root: Path, rest: seq<Path>, variants: seq<Path>, consensus: seq<Path>)
    requires Consistent(s)
    requires FbAllPresent(s, rest, FreebayesVariants)
    requires TargetsFree(s, root, rest, VariantsVcf) && DistinctSamples(rest)
    ensures var r := FbVariantsPass(s, root, rest, variants, consensus);
      r.failure.None? && Grows(s, r.snap) && FbLinkedFrom(s, r.snap, root, rest) &&
      forall p | p in r.snap.files && p !in s.files :: p in Targets(root, rest, VariantsVcf)
    decreases |rest|
  {
    if rest != [] {
      var output := FreebayesOutput(rest[0], FreebayesVariants);
      var dst := LinkTarget(root, rest[0], VariantsVcf);
      assert output in s.files && dst !in s.files;
      var t := LinkSpec(s, output, dst).snap;
      TargetsFreeCons(s, root, rest, VariantsVcf);
      TargetsFreeStep(s, t, root, rest, VariantsVcf);
      DistinctSamplesCons(rest);
      FbAllPresentKept(s, t, rest, FreebayesVariants);
      FbVariantsPassContents(t, root, rest[1..], variants, consensus);
      var r := FbVariantsPass(t, root, rest[1..], variants, consensus);
      forall j | 0 <= j < |rest|
        ensures LinkTarget(root, rest[j], VariantsVcf) in r.snap.files &&
          r.snap.files[LinkTarget(root, rest[j], VariantsVcf)] == s.files[FreebayesOutput(rest[j], FreebayesVariants)] &&
          LinkTarget(root, rest[j], VariantsVcf) in r.snap.links &&
          r.snap.links[LinkTarget(root, rest[j], VariantsVcf)] == FreebayesOutput(rest[j], FreebayesVariants)
      {
        if j > 0 {
          TailAt(rest, j);
        }
      }
    }
  }

  /** `link_ivar(root, True)` changes no file that exists: on an existing
      link path `os.link` raises before any rewrite. */
  lemma {:induction false} ConsensusPassReplaceGrows(s: Snapshot, root: Path, srcs: seq<Path>)
    ensures Grows(s, ConsensusPass(s, root, srcs, Given(true)).snap)
    decreases |srcs|
  {
    if srcs != [] {
      var r := ConsensusStep(s, root, srcs[0], Given(true));
      if r.failure.None? {
        ConsensusPassReplaceGrows(r.snap, root, srcs[1..]);
      }
    }
  }

  lemma IvarReplaceGrows(s: Snapshot, root: Path, variants: seq<Path>, consensus: seq<Path>)
    ensures Grows(s, LinkIvar(s, root, variants, consensus, Given(true)).snap)
  {
    var r := LinkPass(s, root, variants, VariantsTsv, Given(true));
    if r.failure.None? {
      ConsensusPassReplaceGrows(r.snap, root, consensus);
    }
  }

  /** A turn of link_freebayes's consensus loop on a fresh link path: the
      path gets the FreeBayes consensus with renamed headers, and nothing
      else changes. */
  lemma FbConsensusStepFresh(s: Snapshot, root: Path, rest: seq<Path>, variants: seq<Path>, consensus: seq<Path>) returns (t: Snapshot)
    requires rest != [] && FreebayesOutput(rest[0], FreebayesConsensus) in s.files
    requires LinkTarget(root, rest[0], ConsensusFasta) !in s.files
    ensures FbConsensusPass(s, root, rest, variants, consensus) == FbConsensusPass(t, root, rest[1..], variants, consensus)
    ensures t.files.Keys == s.files.Keys + {LinkTarget(root, rest[0], ConsensusFasta)}
    ensures Grows(s, t)
    ensures t.files[LinkTarget(root, rest[0], ConsensusFasta)] ==
      RewriteText(s.files[FreebayesOutput(rest[0], FreebayesConsensus)], SampleName(rest[0]))
  {
    var output := FreebayesOutput(rest[0], FreebayesConsensus);
    var dst := LinkTarget(root, rest[0], ConsensusFasta);
    var r := LinkSpec(s, output, dst);
    var r2 := RewriteSpec(r.snap, dst, SampleName(rest[0]));
    t := r2.snap;
  }

  /** The inputs of link_freebayes's consensus loop up to the first one
      without its FreeBayes consensus, in order, each get a
      `.consensus.fasta` link holding that FreeBayes consensus with its
      headers renamed, and those links keep their text whatever follows;
      when no input lacks its FreeBayes consensus the loop succeeds. */
  lemma {:induction false} FbConsensusLinksPrefix(s: Snapshot, root: Path, rest: seq<Path>, variants: seq<Path>, consensus: seq<Path>)
    requires Absolute(root)
    requires TargetsFree(s, root, rest, ConsensusFasta) && DistinctSamples(rest)
    ensures var k := FirstMissing(s, rest, FreebayesConsensus);
      var r := FbConsensusPass(s, root, rest, variants, consensus);
      Grows(s, r.snap) && FbRenamedFrom(s, r.snap, root, rest, k) &&
      (k == |rest| ==> r.failure.None?)
    decreases |rest|
  {
    if rest != [] {
      var output := FreebayesOutput(rest[0], FreebayesConsensus);
      if output !in s.files {
        IvarReplaceGrows(s, root, variants, consensus);
      } else {
        var t := FbConsensusStepFresh(s, root, rest, variants, consensus);
        FbConsensusRest(s, t, root, rest, variants, consensus);
      }
    }
  }

  /** The inductive step of `FbConsensusLinksPrefix`. */
  lemma {:induction false} FbConsensusRest(s: Snapshot, t: Snapshot, root: Path, rest: seq<Path>, variants: seq<Path>, consensus: seq<Path>)
    requires Absolute(root)
    requires TargetsFree(s, root, rest, ConsensusFasta) && DistinctSamples(rest)
    requires rest != [] && FreebayesOutput(rest[0], FreebayesConsensus) in s.files
    requires FbConsensusPass(s, root, rest, variants, consensus) == FbConsensusPass(t, root, rest[1..], variants, consensus)
    requires t.files.Keys == s.files.Keys + {LinkTarget(root, rest[0], ConsensusFasta)}
    requires Grows(s, t)
    requires t.files[LinkTarget(root, rest[0], ConsensusFasta)] ==
      RewriteText(s.files[FreebayesOutput(rest[0], FreebayesConsensus)], SampleName(rest[0]))
    ensures var k := FirstMissing(s, rest, FreebayesConsensus);
      var r := FbConsensusPass(s, root, rest, variants, consensus);
      Grows(s, r.snap) && FbRenamedFrom(s, r.snap, root, rest, k) &&
      (k == |rest| ==> r.failure.None?)
    decreases |rest|, 0
  {
    var k := FirstMissing(s, rest, FreebayesConsensus);
    var k1 := FirstMissing(s, rest[1..], FreebayesConsensus);
    assert k == 1 + k1;
    FirstMissingBefore(s, rest, FreebayesConsensus);
    FirstMissingStable(s, t, root, rest[1..], FreebayesConsensus);
    TargetsFreeCons(s, root, rest, ConsensusFasta);
    TargetsFreeStep(s, t, root, rest, ConsensusFasta);
    DistinctSamplesCons(rest);
    FbConsensusLinksPrefix(t, root, rest[1..], variants, consensus);
    var r := FbConsensusPass(t, root, rest[1..], variants, consensus);
    forall j | 0 <= j < k
      ensures LinkTarget(root, rest[j], ConsensusFasta) in r.snap.files &&
        r.snap.files[LinkTarget(root, rest[j], ConsensusFasta)] ==
          RewriteText(s.files[FreebayesOutput(rest[j], FreebayesConsensus)], SampleName(rest[j]))
    {
      if j > 0 {
        TailAt(rest, j);
      }
    }
  }

  /** Reference for the turns of link_freebayes's consensus loop that do
      not fall back: each input's link path is linked to its FreeBayes
      consensus unless it exists, and then has its headers renamed. */
  function FbFastaPass(s: Snapshot, root: Path, srcs: seq<Path>): Run
    decreases |srcs|
  {
    if srcs == [] then Ok(s)
    else
      var dst := LinkTarget(root, srcs[0], ConsensusFasta);
      var r := LinkUnlessPresent(s, FreebayesOutput(srcs[0], FreebayesConsensus), dst, Given(false));
      var r2 := if r.failure.Some? then r else RewriteSpec(r.snap, dst, SampleName(srcs[0]));
      if r2.failure.Some? then r2 else FbFastaPass(r2.snap, root, srcs[1..])
  }

  /** Reference for link_freebayes's consensus loop: the inputs before the
      first one without its FreeBayes consensus get their turns; if there is
      such an input, `link_ivar(root, True)` then runs over all inputs. */
  function FbConsensusRef(s: Snapshot, root: Path, rest: seq<Path>, variants: seq<Path>, consensus: seq<Path>): Run
  {
    var k := FirstMissing(s, rest, FreebayesConsensus);
    var r := FbFastaPass(s, root, rest[..k]);
    if r.failure.Some? || k == |rest| then r else LinkIvar(r.snap, root, variants, consensus, Given(true))
  }

  /** One step of both the loop and its reference when the first input has
      its FreeBayes consensus: the same turn, then the rest. */
  lemma FbConsensusRefStep(s: Snapshot, root: Path, rest: seq<Path>, variants: seq<Path>, consensus: seq<Path>) returns (t: Snapshot)
    requires Absolute(root)
    requires rest != [] && FreebayesOutput(rest[0], FreebayesConsensus) in s.files
    ensures FbConsensusPass(s, root, rest, variants, consensus) == FbConsensusPass(t, root, rest[1..], variants, consensus)
    ensures FbConsensusRef(s, root, rest, variants, consensus) == FbConsensusRef(t, root, rest[1..], variants, consensus)
  {
    var output := FreebayesOutput(rest[0], FreebayesConsensus);
    var dst := LinkTarget(root, rest[0], ConsensusFasta);
    var r := LinkUnlessPresent(s, output, dst, Given(false));
    assert r == if dst !in s.files then LinkSpec(s, output, dst) else Ok(s);
    var r2 := RewriteSpec(r.snap, dst, SampleName(rest[0]));
    assert r2.failure.None?;
    t := r2.snap;
    var k := FirstMissing(s, rest, FreebayesConsensus);
    var k1 := FirstMissing(s, rest[1..], FreebayesConsensus);
    assert k == 1 + k1;
    TakeTail(rest, k);
    FirstMissingStable(s, t, root, rest[1..], FreebayesConsensus);
    var v := FbFastaPass(s, root, rest[..k]);
    var v1 := FbFastaPass(t, root, rest[1..][..k1]);
    assert v == v1;
    assert FbConsensusRef(t, root, rest[1..], variants, consensus) ==
      if v1.failure.Some? || k1 == |rest[1..]| then v1 else LinkIvar(v1.snap, root, variants, consensus, Given(true));
  }

  /** The consensus loop, with its `break`, is the reference. */
  lemma {:induction false} FbConsensusIsRef(s: Snapshot, root: Path, rest: seq<Path>, variants: seq<Path>, consensus: seq<Path>)
    requires Absolute(root)
    ensures FbConsensusPass(s, root, rest, variants, consensus) == FbConsensusRef(s, root, rest, variants, consensus)
    decreases |rest|
  {
    if rest != [] {
      if FreebayesOutput(rest[0], FreebayesConsensus) in s.files {
        var t := FbConsensusRefStep(s, root, rest, variants, consensus);
        FbConsensusIsRef(t, root, rest[1..], variants, consensus);
      } else {
        assert rest[..0] == [];
      }
    }
  }

  /** link_freebayes in a directory where none of its link paths exists,
      with every FreeBayes output present and no sample named twice in a
      list, succeeds: each `.variants.vcf` link holds its FreeBayes variants
      and is recorded as a link to it, each `.consensus.fasta` link holds
      its FreeBayes consensus with the headers renamed, and every file that
      was there keeps its text. */
  lemma LinkFreebayesContents(s: Snapshot, root: Path, variants: seq<Path>, consensus: seq<Path>)
    requires Absolute(root) && Consistent(s)
    requires FbAllPresent(s, variants, FreebayesVariants) && FbAllPresent(s, consensus, FreebayesConsensus)
    requires TargetsFree(s, root, variants, VariantsVcf) && DistinctSamples(variants)
    requires TargetsFree(s, root, consensus, ConsensusFasta) && DistinctSamples(consensus)
    ensures var r := LinkFreebayes(s, root, variants, consensus);
      r.failure.None? && Grows(s, r.snap) &&
      FbLinkedFrom(s, r.snap, root, variants) &&
      FbRenamedFrom(s, r.snap, root, consensus, |consensus|)
  {
    FbVariantsPassContents(s, root, variants, variants, consensus);
    var r1 := FbVariantsPass(s, root, variants, variants, consensus);
    forall k | 0 <= k < |consensus| ensures LinkTarget(root, consensus[k], ConsensusFasta) !in r1.snap.files {
      OtherKindNotTarget(root, variants, VariantsVcf, consensus[k], ConsensusFasta);
    }
    FbAllPresentKept(s, r1.snap, consensus, FreebayesConsensus);
    FirstMissingAll(r1.snap, consensus, FreebayesConsensus);
    FbConsensusLinksPrefix(r1.snap, root, consensus, variants, consensus);
    var r := FbConsensusPass(r1.snap, root, consensus, variants, consensus);
    assert LinkFreebayes(s, root, variants, consensus) == r;
    FbLinkedFromLater(s, r1.snap, r.snap, root, variants);
    FbRenamedFromEarlier(s, r1.snap, r.snap, root, consensus);
  }

  /** Links made survive a later step that keeps files and link records. */
  lemma LinkedFromLater(s: Snapshot, t: Snapshot, u: Snapshot, root: Path, srcs: seq<Path>, suffix: string)
    requires LinkedFrom(s, t, root, srcs, suffix) && Grows(t, u) && Keeps(t, u)
    ensures LinkedFrom(s, u, root, srcs, suffix)
  {
  }

  /** Links made from sources an earlier step left alone hold the sources'
      earlier text. */
  lemma LinkedFromEarlier(s: Snapshot, t: Snapshot, u: Snapshot, root: Path, srcs: seq<Path>, suffix: string)
    requires Grows(s, t) && AllPresent(s, srcs) && LinkedFrom(t, u, root, srcs, suffix)
    ensures LinkedFrom(s, u, root, srcs, suffix)
  {
  }

  lemma FbLinkedFromLater(s: Snapshot, t: Snapshot, u: Snapshot, root: Path, srcs: seq<Path>)
    requires FbLinkedFrom(s, t, root, srcs) && Grows(t, u) && Keeps(t, u)
    ensures FbLinkedFrom(s, u, root, srcs)
  {
  }

  lemma FbLinkedFromEarlier(s: Snapshot, t: Snapshot, u: Snapshot, root: Path, srcs: seq<Path>)
    requires Grows(s, t) && FbAllPresent(s, srcs, FreebayesVariants)
    requires FbLinkedFrom(t, u, root, srcs)
    ensures FbLinkedFrom(s, u, root, srcs)
  {
  }

  lemma FbRenamedFromEarlier(s: Snapshot, t: Snapshot, u: Snapshot, root: Path, srcs: seq<Path>)
    requires Grows(s, t) && FbAllPresent(s, srcs, FreebayesConsensus)
    requires FbRenamedFrom(t, u, root, srcs, |srcs|)
    ensures FbRenamedFrom(s, u, root, srcs, |srcs|)
  {
  }

  /** The consensus loop over present inputs, when the first input's
      FreeBayes consensus is there but a later one is missing, ends in
      `FileExistsError`: it has made the first `.consensus.fasta` link by
      the time it falls back, and `link_ivar(root, True)` links that path
      again. */
  lemma LaterMissingConsensusPassFails(s: Snapshot, root: Path, variants: seq<Path>, consensus: seq<Path>)
    requires Absolute(root)
    requires AllPresent(s, variants) && AllPresent(s, consensus)
    requires consensus != [] && FreebayesOutput(consensus[0], FreebayesConsensus) in s.files
    requires exists j | 1 <= j < |consensus| :: FreebayesOutput(consensus[j], FreebayesConsensus) !in s.files
    ensures var r := FbConsensusPass(s, root, consensus, variants, consensus);
      r.failure.Some? && r.failure.value.AlreadyExists?
  {
    var j :| 1 <= j < |consensus| && FreebayesOutput(consensus[j], FreebayesConsensus) !in s.files;
    var t := FbConsensusStepOk(s, root, consensus, variants, consensus);
    RelativeStaysMissing(s, t, root, FreebayesOutput(consensus[j], FreebayesConsensus));
    AllPresentKept(s, t, variants);
    AllPresentKept(s, t, consensus);
    MissingAfterFirstFails(t, root, variants, consensus, j);
  }

  /** The rest of the consensus loop, once the first `.consensus.fasta`
      link exists and input `j` lacks its FreeBayes consensus. */
  lemma MissingAfterFirstFails(t: Snapshot, root: Path, variants: seq<Path>, consensus: seq<Path>, j: nat)
    requires Absolute(root)
    requires AllPresent(t, variants) && AllPresent(t, consensus)
    requires 1 <= j < |consensus| && LinkTarget(root, consensus[0], ConsensusFasta) in t.files
    requires FreebayesOutput(consensus[j], FreebayesConsensus) !in t.files
    ensures var r := FbConsensusPass(t, root, consensus[1..], variants, consensus);
      r.failure.Some? && r.failure.value.AlreadyExists?
  {
    TailAt(consensus, j);
    assert IvarRefuses(t, root, variants, consensus);
    FbConsensusFallbackFails(t, root, consensus[1..], variants, consensus);
  }

  /** With every FreeBayes variants file present, when the first input's
      FreeBayes consensus is there but a later one is missing, link_freebayes
      over present inputs ends in `FileExistsError`: the variants loop
      succeeds without falling back and the consensus loop then fails. */
  lemma LaterMissingConsensusFails(s: Snapshot, root: Path, variants: seq<Path>, consensus: seq<Path>)
    requires Absolute(root)
    requires AllPresent(s, variants) && AllPresent(s, consensus)
    requires FbAllPresent(s, variants, FreebayesVariants)
    requires consensus != [] && FreebayesOutput(consensus[0], FreebayesConsensus) in s.files
    requires exists j | 1 <= j < |consensus| :: FreebayesOutput(consensus[j], FreebayesConsensus) !in s.files
    ensures var r := LinkFreebayes(s, root, variants, consensus);
      r.failure.Some? && r.failure.value.AlreadyExists?
  {
    FbVariantsNoFallback(s, root, variants, variants, consensus);
    var s1 := FbVariantsPass(s, root, variants, variants, consensus).snap;
    assert LinkFreebayes(s, root, variants, consensus) == FbConsensusPass(s1, root, consensus, variants, consensus);
    var j :| 1 <= j < |consensus| && FreebayesOutput(consensus[j], FreebayesConsensus) !in s.files;
    RelativeStaysMissing(s, s1, root, FreebayesOutput(consensus[j], FreebayesConsensus));
    AllPresentKept(s, s1, variants);
    AllPresentKept(s, s1, consensus);
    LaterMissingConsensusPassFails(s1, root, variants, consensus);
  }

  // The two fall-backs of link_freebayes that succeed.

  lemma RenamedFromEarlier(s: Snapshot, t: Snapshot, u: Snapshot, root: Path, srcs: seq<Path>)
    requires Grows(s, t) && AllPresent(s, srcs) && RenamedFrom(t, u, root, srcs)
    ensures RenamedFrom(s, u, root, srcs)
  {
  }

  /** link_freebayes when every FreeBayes variants file is there but the
      first input's FreeBayes consensus is not, over present inputs whose
      link paths are free and apart, succeeds: the variants loop links
      every FreeBayes variants file, and the consensus loop falls back at
      once to `link_ivar(root, True)`, which adds the `.variants.tsv` links
      and copies of the iVar consensus files with renamed headers beside
      them. Every file that was there keeps its text. */
  lemma LinkFreebayesConsensusFallback(s: Snapshot, root: Path, variants: seq<Path>, consensus: seq<Path>)
    requires Absolute(root) && Consistent(s)
    requires AllPresent(s, variants) && AllPresent(s, consensus)
    requires FbAllPresent(s, variants, FreebayesVariants)
    requires consensus != [] && FreebayesOutput(consensus[0], FreebayesConsensus) !in s.files
    requires TargetsFree(s, root, variants, VariantsVcf) && TargetsFree(s, root, variants, VariantsTsv)
    requires TargetsFree(s, root, consensus, ConsensusFasta)
    requires DistinctSamples(variants) && DistinctSamples(consensus)
    ensures var r := LinkFreebayes(s, root, variants, consensus);
      r.failure.None? && Grows(s, r.snap) &&
      FbLinkedFrom(s, r.snap, root, variants) &&
      LinkedFrom(s, r.snap, root, variants, VariantsTsv) &&
      RenamedFrom(s, r.snap, root, consensus)
  {
    FbVariantsPassContents(s, root, variants, variants, consensus);
    var r1 := FbVariantsPass(s, root, variants, variants, consensus);
    RelativeStaysMissing(s, r1.snap, root, FreebayesOutput(consensus[0], FreebayesConsensus));
    assert LinkFreebayes(s, root, variants, consensus) == LinkIvar(r1.snap, root, variants, consensus, Given(true));
    AllPresentKept(s, r1.snap, variants);
    AllPresentKept(s, r1.snap, consensus);
    forall k | 0 <= k < |variants| ensures LinkTarget(root, variants[k], VariantsTsv) !in r1.snap.files {
      OtherKindNotTarget(root, variants, VariantsVcf, variants[k], VariantsTsv);
    }
    forall k | 0 <= k < |consensus| ensures LinkTarget(root, consensus[k], ConsensusFasta) !in r1.snap.files {
      OtherKindNotTarget(root, variants, VariantsVcf, consensus[k], ConsensusFasta);
    }
    LinkIvarContents(r1.snap, root, variants, consensus, Given(true));
    IvarReplaceGrows(r1.snap, root, variants, consensus);
    var r := LinkIvar(r1.snap, root, variants, consensus, Given(true));
    FbLinkedFromLater(s, r1.snap, r.snap, root, variants);
    LinkedFromEarlier(s, r1.snap, r.snap, root, variants, VariantsTsv);
    RenamedFromEarlier(s, r1.snap, r.snap, root, consensus);
  }

  /** A turn of link_freebayes's consensus loop on an existing link path
      only renames its headers. */
  lemma FbConsensusRewriteStep(t: Snapshot, root: Path, rest: seq<Path>, variants: seq<Path>, consensus: seq<Path>) returns (u: Snapshot)
    requires rest != [] && FreebayesOutput(rest[0], FreebayesConsensus) in t.files
    requires LinkTarget(root, rest[0], ConsensusFasta) in t.files
    ensures FbConsensusPass(t, root, rest, variants, consensus) == FbConsensusPass(u, root, rest[1..], variants, consensus)
    ensures var dst := LinkTarget(root, rest[0], ConsensusFasta);
      u.files == t.files[dst := RewriteText(t.files[dst], SampleName(rest[0]))] && u.links == t.links
    ensures u.files.Keys == t.files.Keys
  {
    u := RewriteSpec(t, LinkTarget(root, rest[0], ConsensusFasta), SampleName(rest[0])).snap;
  }

  /** Each input's `.consensus.fasta` link path exists in `t` and in `u`,
      and its text in `u` is its text in `t` with every header renamed to
      the sample. */
  predicate RewrittenAgain(t: Snapshot, u: Snapshot, root: Path, srcs: seq<Path>)
  {
    forall j | 0 <= j < |srcs| ::
      LinkTarget(root, srcs[j], ConsensusFasta) in t.files &&
      LinkTarget(root, srcs[j], ConsensusFasta) in u.files &&
      u.files[LinkTarget(root, srcs[j], ConsensusFasta)] ==
        RewriteText(t.files[LinkTarget(root, srcs[j], ConsensusFasta)], SampleName(srcs[j]))
  }

  /** link_freebayes's consensus loop when every FreeBayes consensus and
      every `.consensus.fasta` link path is there: it links nothing, leaves
      every other file alone, and renames the headers of each link path
      once more. */
  lemma {:induction false} FbConsensusRewritesAgain(t: Snapshot, root: Path, rest: seq<Path>, variants: seq<Path>, consensus: seq<Path>)
    requires FbAllPresent(t, rest, FreebayesConsensus) && DistinctSamples(rest)
    requires forall j | 0 <= j < |rest| :: LinkTarget(root, rest[j], ConsensusFasta) in t.files
    ensures var r := FbConsensusPass(t, root, rest, variants, consensus);
      r.failure.None? && r.snap.files.Keys == t.files.Keys && r.snap.links == t.links &&
      (forall p | p in t.files && p !in Targets(root, rest, ConsensusFasta) :: r.snap.files[p] == t.files[p]) &&
      RewrittenAgain(t, r.snap, root, rest)
    decreases |rest|
  {
    if rest != [] {
      var u := FbConsensusRewriteStep(t, root, rest, variants, consensus);
      FbAllPresentKept(t, u, rest, FreebayesConsensus);
      DistinctSamplesCons(rest);
      forall j | 0 <= j < |rest[1..]| ensures LinkTarget(root, rest[1..][j], ConsensusFasta) in u.files {
        TailAt(rest, j + 1);
      }
      FbConsensusRewritesAgain(u, root, rest[1..], variants, consensus);
      FirstTargetNotLater(root, rest, ConsensusFasta);
      RewrittenAgainCons(t, u, FbConsensusPass(u, root, rest[1..], variants, consensus).snap, root, rest);
    }
  }

  /** The inductive step of `FbConsensusRewritesAgain`. */
  lemma RewrittenAgainCons(t: Snapshot, u: Snapshot, v: Snapshot, root: Path, rest: seq<Path>)
    requires rest != []
    requires var dst := LinkTarget(root, rest[0], ConsensusFasta);
      dst in t.files && u.files == t.files[dst := RewriteText(t.files[dst], SampleName(rest[0]))] &&
      dst !in Targets(root, rest[1..], ConsensusFasta)
    requires RewrittenAgain(u, v, root, rest[1..])
    requires forall p | p in u.files && p !in Targets(root, rest[1..], ConsensusFasta) :: p in v.files && v.files[p] == u.files[p]
    ensures RewrittenAgain(t, v, root, rest)
  {
    forall j | 1 <= j < |rest|
      ensures LinkTarget(root, rest[j], ConsensusFasta) in t.files &&
        LinkTarget(root, rest[j], ConsensusFasta) in v.files &&
        v.files[LinkTarget(root, rest[j], ConsensusFasta)] ==
          RewriteText(t.files[LinkTarget(root, rest[j], ConsensusFasta)], SampleName(rest[j]))
    {
      TailAt(rest, j);
      TargetsAt(root, rest[1..], ConsensusFasta, LinkTarget(root, rest[j], ConsensusFasta));
    }
  }

  /** The state the variants loop of link_freebayes leaves when it falls
      back, over present inputs whose link paths are free and apart: the
      inputs before the first one without FreeBayes variants have their
      `.variants.vcf` links, and `link_ivar(root, True)` has succeeded. */
  lemma VariantsFallbackState(s: Snapshot, root: Path, variants: seq<Path>, consensus: seq<Path>) returns (ri: Snapshot)
    requires Absolute(root) && Consistent(s)
    requires AllPresent(s, variants) && AllPresent(s, consensus)
    requires exists k | 0 <= k < |variants| :: FreebayesOutput(variants[k], FreebayesVariants) !in s.files
    requires TargetsFree(s, root, variants, VariantsVcf) && TargetsFree(s, root, variants, VariantsTsv)
    requires TargetsFree(s, root, consensus, ConsensusFasta)
    requires DistinctSamples(variants) && DistinctSamples(consensus)
    ensures var k := FirstMissing(s, variants, FreebayesVariants);
      k <= |variants| &&
      FbVariantsPass(s, root, variants, variants, consensus) == Ok(ri) &&
      Grows(s, ri) && AddsOnlyUnder(s, ri, root) &&
      FbLinkedFrom(s, ri, root, variants[..k]) &&
      LinkedFrom(s, ri, root, variants, VariantsTsv) &&
      RenamedFrom(s, ri, root, consensus)
  {
    var k := FirstMissing(s, variants, FreebayesVariants);
    FirstMissingSpec(s, variants, FreebayesVariants);
    var pre := variants[..k];
    forall j | 0 <= j < |pre|
      ensures FreebayesOutput(pre[j], FreebayesVariants) in s.files && LinkTarget(root, pre[j], VariantsVcf) !in s.files
    {
      TakeAt(variants, k, j);
    }
    forall i, j | 0 <= i < j < |pre| ensures SampleName(pre[i]) != SampleName(pre[j]) {
      TakeAt(variants, k, i);
      TakeAt(variants, k, j);
    }
    FbVariantsPassContents(s, root, pre, variants, consensus);
    FbVariantsIsRef(s, root, pre, variants, consensus);
    FirstMissingAll(s, pre, FreebayesVariants);
    TakeAll(pre);
    var rv := VcfLinkPass(s, root, pre);
    assert rv == FbVariantsPass(s, root, pre, variants, consensus);
    FbVariantsIsRef(s, root, variants, variants, consensus);
    assert FbVariantsPass(s, root, variants, variants, consensus) == LinkIvar(rv.snap, root, variants, consensus, Given(true));
    AllPresentKept(s, rv.snap, variants);
    AllPresentKept(s, rv.snap, consensus);
    forall j | 0 <= j < |variants| ensures LinkTarget(root, variants[j], VariantsTsv) !in rv.snap.files {
      OtherKindNotTarget(root, pre, VariantsVcf, variants[j], VariantsTsv);
    }
    forall j | 0 <= j < |consensus| ensures LinkTarget(root, consensus[j], ConsensusFasta) !in rv.snap.files {
      OtherKindNotTarget(root, pre, VariantsVcf, consensus[j], ConsensusFasta);
    }
    LinkIvarContents(rv.snap, root, variants, consensus, Given(true));
    IvarReplaceGrows(rv.snap, root, variants, consensus);
    var r := LinkIvar(rv.snap, root, variants, consensus, Given(true));
    ri := r.snap;
    FbLinkedFromLater(s, rv.snap, ri, root, pre);
    LinkedFromEarlier(s, rv.snap, ri, root, variants, VariantsTsv);
    RenamedFromEarlier(s, rv.snap, ri, root, consensus);
  }

  /** link_freebayes when some input lacks its FreeBayes variants but every
      FreeBayes consensus is there, over present inputs whose link paths
      are free and apart, succeeds: the inputs before the first one without
      FreeBayes variants keep their `.variants.vcf` links, `link_ivar(root,
      True)` adds the `.variants.tsv` links and the iVar consensus copies,
      and the consensus loop then finds each `.consensus.fasta` already
      there, so it never links a FreeBayes consensus and renames the
      headers of the iVar copy a second time. Every file that was there
      keeps its text. */
  lemma LinkFreebayesVariantsFallback(s: Snapshot, root: Path, variants: seq<Path>, consensus: seq<Path>)
    requires Absolute(root) && Consistent(s)
    requires AllPresent(s, variants) && AllPresent(s, consensus)
    requires exists k | 0 <= k < |variants| :: FreebayesOutput(variants[k], FreebayesVariants) !in s.files
    requires FbAllPresent(s, consensus, FreebayesConsensus)
    requires TargetsFree(s, root, variants, VariantsVcf) && TargetsFree(s, root, variants, VariantsTsv)
    requires TargetsFree(s, root, consensus, ConsensusFasta)
    requires DistinctSamples(variants) && DistinctSamples(consensus)
    ensures var k := FirstMissing(s, variants, FreebayesVariants);
      var r := LinkFreebayes(s, root, variants, consensus);
      k <= |variants| &&
      r.failure.None? && Grows(s, r.snap) &&
      FbLinkedFrom(s, r.snap, root, variants[..k]) &&
      LinkedFrom(s, r.snap, root, variants, VariantsTsv) &&
      forall j | 0 <= j < |consensus| ::
        LinkTarget(root, consensus[j], ConsensusFasta) in r.snap.files &&
        r.snap.files[LinkTarget(root, consensus[j], ConsensusFasta)] ==
          RewriteText(RewriteText(s.files[consensus[j]], SampleName(consensus[j])), SampleName(consensus[j]))
  {
    var k := FirstMissing(s, variants, FreebayesVariants);
    var ri := VariantsFallbackState(s, root, variants, consensus);
    assert LinkFreebayes(s, root, variants, consensus) == FbConsensusPass(ri, root, consensus, variants, consensus);
    FbAllPresentKept(s, ri, consensus, FreebayesConsensus);
    FbConsensusRewritesAgain(ri, root, consensus, variants, consensus);
    var r := FbConsensusPass(ri, root, consensus, variants, consensus);
    forall p | p in s.files ensures p !in Targets(root, consensus, ConsensusFasta) {
      TargetsAt(root, consensus, ConsensusFasta, p);
    }
    forall j | 0 <= j < k
      ensures LinkTarget(root, variants[..k][j], VariantsVcf) !in Targets(root, consensus, ConsensusFasta)
    {
      OtherKindNotTarget(root, consensus, ConsensusFasta, variants[..k][j], VariantsVcf);
    }
    forall j | 0 <= j < |variants|
      ensures LinkTarget(root, variants[j], VariantsTsv) !in Targets(root, consensus, ConsensusFasta)
    {
      OtherKindNotTarget(root, consensus, ConsensusFasta, variants[j], VariantsTsv);
    }
  }
}
