/** The hard-linking passes of scripts/ncov-tools.py: `link_ivar`, the
    FreeBayes variant with its fall-back to iVar, and the BAM loops of
    `set_up`. Each pass is a specification function over a `Snapshot`,
    recursive over the inputs still to be processed, and a method with the
    source's loop over a `Disk`, proved to end in the state the function
    describes. A pass stops at the first exception. */
module Linking {
  import opened Paths
  import opened Fasta
  import opened FileStore

  /** The `replace` argument: a Python boolean, or (in set_up, where no
      variable of that name exists) a name whose lookup raises. */
  datatype Replace = Given(b: bool) | Undefined

  /** The link path made for an input path. */
  function LinkTarget(root: Path, src: Path, suffix: string): (p: Path)
    ensures Under(p, root)
  {
    LinkPath(root, SampleName(src), suffix)
  }

  /** The link paths a pass may make. */
  function Targets(root: Path, srcs: seq<Path>, suffix: string): (ts: set<Path>)
    ensures forall p | p in ts :: Under(p, root)
  {
    if srcs == [] then {} else {LinkTarget(root, srcs[0], suffix)} + Targets(root, srcs[1..], suffix)
  }

  lemma {:induction false} TargetsAt(root: Path, srcs: seq<Path>, suffix: string, p: Path)
    ensures p in Targets(root, srcs, suffix) <==> exists k | 0 <= k < |srcs| :: p == LinkTarget(root, srcs[k], suffix)
  {
    if srcs != [] {
      TargetsAt(root, srcs[1..], suffix, p);
      if exists k | 0 <= k < |srcs[1..]| :: p == LinkTarget(root, srcs[1..][k], suffix) {
        var k :| 0 <= k < |srcs[1..]| && p == LinkTarget(root, srcs[1..][k], suffix);
        assert p == LinkTarget(root, srcs[k + 1], suffix);
      }
      if exists k | 0 <= k < |srcs| :: p == LinkTarget(root, srcs[k], suffix) {
        var k :| 0 <= k < |srcs| && p == LinkTarget(root, srcs[k], suffix);
        if k > 0 {
          assert p == LinkTarget(root, srcs[1..][k - 1], suffix);
        }
      }
    }
  }

  /** Every file of `s` is still there in `t` with the same text. */
  predicate Grows(s: Snapshot, t: Snapshot)
  {
    forall p | p in s.files :: p in t.files && t.files[p] == s.files[p]
  }

  /** `if (not os.path.exists(dst)) or (replace is True): os.link(src, dst)`.
      `replace` is looked at only when the target exists; `replace=True`
      then still calls `os.link`, which refuses the existing target. */
  function LinkUnlessPresent(s: Snapshot, src: Path, dst: Path, replace: Replace): (r: Run)
    ensures Grows(s, r.snap)
    ensures forall p | p in r.snap.files && p !in s.files :: p == dst
    ensures Consistent(s) ==> Consistent(r.snap) && Keeps(s, r.snap)
    ensures r.failure.None? <==> (src in s.files && dst !in s.files) || (dst in s.files && replace == Given(false))
    ensures r.failure.None? ==> dst in r.snap.files
    ensures r.failure.Some? ==> r.snap == s
    ensures r.failure == Some(UndefinedReplace) <==> dst in s.files && replace == Undefined
    ensures r.failure.Some? ==> r.failure.value in {NotFound(src), AlreadyExists(dst), UndefinedReplace}
    ensures src in s.files ==> r.failure != Some(NotFound(src))
  {
    if dst !in s.files then LinkSpec(s, src, dst)
    else match replace
      case Given(b) => if b then LinkSpec(s, src, dst) else Ok(s)
      case Undefined => Fail(s, UndefinedReplace)
  }

  /** A loop `for src in srcs: ... link to {root}/{sample}{suffix} ...`. */
  function LinkPass(s: Snapshot, root: Path, srcs: seq<Path>, suffix: string, replace: Replace): (r: Run)
    ensures Grows(s, r.snap)
    ensures forall p | p in r.snap.files && p !in s.files :: p in Targets(root, srcs, suffix)
    ensures Consistent(s) ==> Consistent(r.snap) && Keeps(s, r.snap)
    ensures replace.Given? ==> r.failure != Some(UndefinedReplace)
    decreases |srcs|
  {
    if srcs == [] then Ok(s)
    else
      var r := LinkUnlessPresent(s, srcs[0], LinkTarget(root, srcs[0], suffix), replace);
      if r.failure.Some? then r else LinkPass(r.snap, root, srcs[1..], suffix, replace)
  }

  /** One turn of link_ivar's consensus loop: link unless present, then
      rewrite the headers of the link path, whether or not it was just
      made. */
  function ConsensusStep(s: Snapshot, root: Path, src: Path, replace: Replace): (r: Run)
    ensures var dst := LinkTarget(root, src, ConsensusFasta);
      forall p | p in s.files && p != dst :: p in r.snap.files && r.snap.files[p] == s.files[p]
    ensures forall p | p in r.snap.files && p !in s.files :: p == LinkTarget(root, src, ConsensusFasta)
    ensures var dst := LinkTarget(root, src, ConsensusFasta);
      r.failure.None? && dst in s.files ==>
        dst in r.snap.files && r.snap.files[dst] == RewriteText(s.files[dst], SampleName(src))
    ensures var dst := LinkTarget(root, src, ConsensusFasta);
      r.failure.None? && dst !in s.files ==>
        src in s.files && dst in r.snap.files && r.snap.files[dst] == RewriteText(s.files[src], SampleName(src))
    ensures r.failure.Some? ==> r.snap == s
    ensures r.failure.Some? ==>
      r.failure.value in {NotFound(src), AlreadyExists(LinkTarget(root, src, ConsensusFasta)), UndefinedReplace}
    ensures LinkTarget(root, src, ConsensusFasta) in s.files && replace != Given(false) ==> r.failure.Some?
    ensures Consistent(s) ==> Consistent(r.snap) && Keeps(s, r.snap)
    ensures src in s.files ==> r.failure != Some(NotFound(src))
    ensures replace.Given? ==> r.failure != Some(UndefinedReplace)
  {
    var sample := SampleName(src);
    var dst := LinkPath(root, sample, ConsensusFasta);
    var r := LinkUnlessPresent(s, src, dst, replace);
    if r.failure.Some? then r else RewriteSpec(r.snap, dst, sample)
  }

  /** link_ivar's consensus loop. */
  function ConsensusPass(s: Snapshot, root: Path, srcs: seq<Path>, replace: Replace): (r: Run)
    ensures forall p | p in s.files && p !in Targets(root, srcs, ConsensusFasta) ::
      p in r.snap.files && r.snap.files[p] == s.files[p]
    ensures forall p | p in s.files :: p in r.snap.files
    ensures forall p | p in r.snap.files && p !in s.files :: p in Targets(root, srcs, ConsensusFasta)
    ensures Consistent(s) ==> Consistent(r.snap) && Keeps(s, r.snap)
    ensures replace.Given? ==> r.failure != Some(UndefinedReplace)
    decreases |srcs|
  {
    if srcs == [] then Ok(s)
    else
      var r := ConsensusStep(s, root, srcs[0], replace);
      if r.failure.Some? then r else ConsensusPass(r.snap, root, srcs[1..], replace)
  }

  /** `link_ivar(root, replace)`. */
  function LinkIvar(s: Snapshot, root: Path, variants: seq<Path>, consensus: seq<Path>, replace: Replace): (r: Run)
    ensures forall p | p in s.files && p !in Targets(root, consensus, ConsensusFasta) ::
      p in r.snap.files && r.snap.files[p] == s.files[p]
    ensures forall p | p in s.files :: p in r.snap.files
    ensures AddsOnlyUnder(s, r.snap, root)
    ensures SameOutside(s, r.snap, root)
    ensures Consistent(s) ==> Consistent(r.snap) && Keeps(s, r.snap)
    ensures replace.Given? ==> r.failure != Some(UndefinedReplace)
  {
    var r := LinkPass(s, root, variants, VariantsTsv, replace);
    if r.failure.Some? then r else ConsensusPass(r.snap, root, consensus, replace)
  }

  /** The FreeBayes output a sample should have. */
  function FreebayesOutput(src: Path, suffix: string): (p: Path)
    requires suffix != [] && suffix[0] != '/'
    ensures p != [] && p[0] != '/'
  {
    FreebayesFile(SampleName(src), suffix)
  }

  /** link_freebayes's variants loop over the inputs `rest` still to go; on
      the first sample without its FreeBayes variants it runs
      `link_ivar(root, True)` over all inputs and stops. */
  function FbVariantsPass(s: Snapshot, root: Path, rest: seq<Path>, variants: seq<Path>, consensus: seq<Path>): (r: Run)
    ensures forall p | p in s.files :: p in r.snap.files
    ensures AddsOnlyUnder(s, r.snap, root)
    ensures SameOutside(s, r.snap, root)
    ensures Consistent(s) ==> Consistent(r.snap) && Keeps(s, r.snap)
    ensures r.failure != Some(UndefinedReplace)
    decreases |rest|
  {
    if rest == [] then Ok(s)
    else
      var output := FreebayesOutput(rest[0], FreebayesVariants);
      if output !in s.files then LinkIvar(s, root, variants, consensus, Given(true))
      else
        var dst := LinkTarget(root, rest[0], VariantsVcf);
        var r := if dst !in s.files then LinkSpec(s, output, dst) else Ok(s);
        if r.failure.Some? then r else FbVariantsPass(r.snap, root, rest[1..], variants, consensus)
  }

  /** link_freebayes's consensus loop, with the same fall-back. */
  function FbConsensusPass(s: Snapshot, root: Path, rest: seq<Path>, variants: seq<Path>, consensus: seq<Path>): (r: Run)
    ensures forall p | p in s.files :: p in r.snap.files
    ensures AddsOnlyUnder(s, r.snap, root)
    ensures SameOutside(s, r.snap, root)
    ensures Consistent(s) ==> Consistent(r.snap) && Keeps(s, r.snap)
    ensures r.failure != Some(UndefinedReplace)
    decreases |rest|
  {
    if rest == [] then Ok(s)
    else
      var output := FreebayesOutput(rest[0], FreebayesConsensus);
      if output !in s.files then LinkIvar(s, root, variants, consensus, Given(true))
      else
        var dst := LinkTarget(root, rest[0], ConsensusFasta);
        var r := if dst !in s.files then LinkSpec(s, output, dst) else Ok(s);
        if r.failure.Some? then r
        else
          var r2 := RewriteSpec(r.snap, dst, SampleName(rest[0]));
          if r2.failure.Some? then r2 else FbConsensusPass(r2.snap, root, rest[1..], variants, consensus)
  }

  /** `link_freebayes(root)`: the consensus loop runs after the variants
      loop, whether or not that loop fell back to iVar. */
  function LinkFreebayes(s: Snapshot, root: Path, variants: seq<Path>, consensus: seq<Path>): (r: Run)
    ensures forall p | p in s.files :: p in r.snap.files
    ensures AddsOnlyUnder(s, r.snap, root)
    ensures SameOutside(s, r.snap, root)
    ensures Consistent(s) ==> Consistent(r.snap) && Keeps(s, r.snap)
    ensures r.failure != Some(UndefinedReplace)
  {
    var r := FbVariantsPass(s, root, variants, variants, consensus);
    if r.failure.Some? then r else FbConsensusPass(r.snap, root, consensus, variants, consensus)
  }

  // The passes as the source runs them, on the disk.

  method LinkUnlessPresentOn(disk: Disk, src: Path, dst: Path, replace: Replace) returns (failure: Option<Failure>)
    modifies disk
    ensures Run(disk.View(), failure) == LinkUnlessPresent(old(disk.View()), src, dst, replace)
  {
    if !disk.Exists(dst) {
      failure := disk.Link(src, dst);
      return;
    }
    match replace
    case Undefined =>
      failure := Some(UndefinedReplace);
    case Given(b) =>
      if b {
        failure := disk.Link(src, dst);
      } else {
        failure := None;
      }
  }

  lemma LinkPassUnfold(s: Snapshot, root: Path, srcs: seq<Path>, i: nat, suffix: string, replace: Replace)
    requires i < |srcs|
    ensures LinkPass(s, root, srcs[i..], suffix, replace) ==
      var r := LinkUnlessPresent(s, srcs[i], LinkTarget(root, srcs[i], suffix), replace);
      if r.failure.Some? then r else LinkPass(r.snap, root, srcs[i + 1..], suffix, replace)
  {
    assert srcs[i..][0] == srcs[i] && srcs[i..][1..] == srcs[i + 1..];
  }

  method LinkPassOn(disk: Disk, root: Path, srcs: seq<Path>, suffix: string, replace: Replace) returns (failure: Option<Failure>)
    modifies disk
    ensures Run(disk.View(), failure) == LinkPass(old(disk.View()), root, srcs, suffix, replace)
  {
    var i := 0;
    while i < |srcs|
      invariant 0 <= i <= |srcs|
      invariant LinkPass(disk.View(), root, srcs[i..], suffix, replace) == LinkPass(old(disk.View()), root, srcs, suffix, replace)
    {
      LinkPassUnfold(disk.View(), root, srcs, i, suffix, replace);
      failure := LinkUnlessPresentOn(disk, srcs[i], LinkTarget(root, srcs[i], suffix), replace);
      if failure.Some? {
        return;
      }
      i := i + 1;
    }
    failure := None;
  }

  /** One turn of link_ivar's consensus loop. */
  method ConsensusStepOn(disk: Disk, root: Path, src: Path, replace: Replace) returns (failure: Option<Failure>)
    modifies disk
    ensures Run(disk.View(), failure) == ConsensusStep(old(disk.View()), root, src, replace)
  {
    var sample := SampleName(src);
    var lnPath := LinkPath(root, sample, ConsensusFasta);
    failure := LinkUnlessPresentOn(disk, src, lnPath, replace);
    if failure.Some? {
      return;
    }
    failure := disk.RewriteHeaders(lnPath, sample);
  }

  lemma ConsensusPassUnfold(s: Snapshot, root: Path, srcs: seq<Path>, i: nat, replace: Replace)
    requires i < |srcs|
    ensures ConsensusPass(s, root, srcs[i..], replace) ==
      var r := ConsensusStep(s, root, srcs[i], replace);
      if r.failure.Some? then r else ConsensusPass(r.snap, root, srcs[i + 1..], replace)
  {
    assert srcs[i..][0] == srcs[i] && srcs[i..][1..] == srcs[i + 1..];
  }

  method ConsensusPassOn(disk: Disk, root: Path, srcs: seq<Path>, replace: Replace) returns (failure: Option<Failure>)
    modifies disk
    ensures Run(disk.View(), failure) == ConsensusPass(old(disk.View()), root, srcs, replace)
  {
    var i := 0;
    while i < |srcs|
      invariant 0 <= i <= |srcs|
      invariant ConsensusPass(disk.View(), root, srcs[i..], replace) == ConsensusPass(old(disk.View()), root, srcs, replace)
    {
      ConsensusPassUnfold(disk.View(), root, srcs, i, replace);
      failure := ConsensusStepOn(disk, root, srcs[i], replace);
      if failure.Some? {
        return;
      }
      i := i + 1;
    }
    failure := None;
  }

  /** `link_ivar(root, replace)`. */
  method LinkIvarOn(disk: Disk, root: Path, variants: seq<Path>, consensus: seq<Path>, replace: Replace) returns (failure: Option<Failure>)
    modifies disk
    ensures Run(disk.View(), failure) == LinkIvar(old(disk.View()), root, variants, consensus, replace)
  {
    failure := LinkPassOn(disk, root, variants, VariantsTsv, replace);
    if failure.Some? {
      return;
    }
    failure := ConsensusPassOn(disk, root, consensus, replace);
  }

  method FbVariantsOn(disk: Disk, root: Path, variants: seq<Path>, consensus: seq<Path>) returns (failure: Option<Failure>)
    modifies disk
    ensures Run(disk.View(), failure) == FbVariantsPass(old(disk.View()), root, variants, variants, consensus)
  {
    var i := 0;
    while i < |variants|
      invariant 0 <= i <= |variants|
      invariant FbVariantsPass(disk.View(), root, variants[i..], variants, consensus) ==
        FbVariantsPass(old(disk.View()), root, variants, variants, consensus)
    {
      var sample := SampleName(variants[i]);
      var expectedPath := FreebayesFile(sample, FreebayesVariants);
      assert variants[i..][0] == variants[i] && variants[i..][1..] == variants[i + 1..];
      if !disk.Exists(expectedPath) {
        failure := LinkIvarOn(disk, root, variants, consensus, Given(true));
        return;
      }
      var lnPath := LinkPath(root, sample, VariantsVcf);
      if !disk.Exists(lnPath) {
        failure := disk.Link(expectedPath, lnPath);
        if failure.Some? {
          return;
        }
      }
      i := i + 1;
    }
    failure := None;
  }

  method FbConsensusOn(disk: Disk, root: Path, variants: seq<Path>, consensus: seq<Path>) returns (failure: Option<Failure>)
    modifies disk
    ensures Run(disk.View(), failure) == FbConsensusPass(old(disk.View()), root, consensus, variants, consensus)
  {
    var i := 0;
    while i < |consensus|
      invariant 0 <= i <= |consensus|
      invariant FbConsensusPass(disk.View(), root, consensus[i..], variants, consensus) ==
        FbConsensusPass(old(disk.View()), root, consensus, variants, consensus)
    {
      var sample := SampleName(consensus[i]);
      var expectedPath := FreebayesFile(sample, FreebayesConsensus);
      assert consensus[i..][0] == consensus[i] && consensus[i..][1..] == consensus[i + 1..];
      if !disk.Exists(expectedPath) {
        failure := LinkIvarOn(disk, root, variants, consensus, Given(true));
        return;
      }
      var lnPath := LinkPath(root, sample, ConsensusFasta);
      if !disk.Exists(lnPath) {
        failure := disk.Link(expectedPath, lnPath);
        if failure.Some? {
          return;
        }
      }
      failure := disk.RewriteHeaders(lnPath, sample);
      if failure.Some? {
        return;
      }
      i := i + 1;
    }
    failure := None;
  }

  /** `link_freebayes(root)`. */
  method LinkFreebayesOn(disk: Disk, root: Path, variants: seq<Path>, consensus: seq<Path>) returns (failure: Option<Failure>)
    modifies disk
    ensures Run(disk.View(), failure) == LinkFreebayes(old(disk.View()), root, variants, consensus)
  {
    failure := FbVariantsOn(disk, root, variants, consensus);
    if failure.Some? {
      return;
    }
    failure := FbConsensusOn(disk, root, variants, consensus);
  }
}
