/** `set_up` of scripts/ncov-tools.py: it resolves the pangolin version,
    recreates the data directory, collects the negative controls from the
    sample table, builds the configuration, links the BAM files and the
    variant and consensus files, and writes `config.yaml` line by line. The
    snakemake params and inputs are parameters; the URL of the latest
    pangolin release, fetched from the network, is an input too. */
module Setup {
  import opened Text
  import opened Paths
  import opened Pangolin
  import opened NegativeControls
  import opened Config
  import opened FileStore
  import opened Linking
  import opened LinkingFacts

  /** The `snakemake.params` entries set_up reads. */
  datatype Params = Params(
    execDir: Path,
    resultDir: Path,
    pangolin: string,
    ampliconBed: string,
    referenceGenome: string,
    primerBed: string,
    phyloIncludeSeqs: string,
    negativePrefixes: seq<string>,
    sampleCsv: Path,
    freebayesRun: bool)

  /** The `snakemake.input` lists. */
  datatype Inputs = Inputs(bams: seq<Path>, trimmedBams: seq<Path>, variants: seq<Path>, consensus: seq<Path>)

  /** `neg_list`: each negative control once. */
  predicate ListsSet(ids: seq<string>, neg: set<string>)
  {
    |ids| == |neg| && (forall id | id in ids :: id in neg) && (forall id | id in neg :: id in ids) &&
    forall i, j | 0 <= i < j < |ids| :: ids[i] != ids[j]
  }

  function SettingsOf(p: Params, root: Path, negList: seq<string>, latestUrl: string): Settings
  {
    Settings(root, Basename(p.resultDir), p.ampliconBed, p.referenceGenome, p.primerBed,
      p.phyloIncludeSeqs, negList, ResolveVersion(p.pangolin, latestUrl))
  }

  /** The dictionary written: the FreeBayes one when `freebayes_run`. */
  function ConfigOf(p: Params, settings: Settings): (cfg: Config)
    ensures Keys(cfg) == ConfigKeys
  {
    if p.freebayesRun then FreebayesConfig(settings) else BuildConfig(settings)
  }

  /** The linking part of set_up: the two BAM loops (with the undefined
      `replace`), then link_freebayes or `link_ivar(data_root)`. */
  function LinkAll(s: Snapshot, root: Path, p: Params, inp: Inputs): (r: Run)
    ensures forall q | q in s.files :: q in r.snap.files
    ensures AddsOnlyUnder(s, r.snap, root)
    ensures SameOutside(s, r.snap, root)
  {
    var r1 := LinkPass(s, root, inp.bams, Bam, Undefined);
    if r1.failure.Some? then r1
    else
      var r2 := LinkPass(r1.snap, root, inp.trimmedBams, TrimmedBam, Undefined);
      if r2.failure.Some? then r2
      else if p.freebayesRun then LinkFreebayes(r2.snap, root, inp.variants, inp.consensus)
      else LinkIvar(r2.snap, root, inp.variants, inp.consensus, Given(false))
  }

  /** set_up from start to end; `negList` is the order in which
      `list(neg_samples)` happened to give the negative controls. */
  function SetUpSpec(s: Snapshot, p: Params, inp: Inputs, latestUrl: string, negList: seq<string>): (r: Run)
    ensures var root := DataRoot(p.execDir, p.resultDir);
      p.sampleCsv !in s.files || Under(p.sampleCsv, root) ==> r.failure == Some(NotFound(p.sampleCsv))
    ensures var root := DataRoot(p.execDir, p.resultDir);
      forall q | q in s.files && !Under(q, root) && q != ConfigPath(p.execDir) ::
        q in r.snap.files && r.snap.files[q] == s.files[q]
    ensures r.failure.None? ==> ConfigPath(p.execDir) in r.snap.files
  {
    var root := DataRoot(p.execDir, p.resultDir);
    var s1 := ClearSpec(s, root);
    if p.sampleCsv !in s1.files then Fail(s1, NotFound(p.sampleCsv))
    else
      var r := LinkAll(s1, root, p, inp);
      if r.failure.Some? then r
      else
        var cfg := ConfigOf(p, SettingsOf(p, root, negList, latestUrl));
        Ok(WriteSpec(r.snap, ConfigPath(p.execDir), Serialise(cfg)))
  }

  /** `with open(path, 'w') as fh: for key, value in config.items():
      fh.write(...)`. */
  method WriteConfig(disk: Disk, path: Path, cfg: Config)
    modifies disk
    ensures disk.View() == WriteSpec(old(disk.View()), path, Serialise(cfg))
  {
    ghost var s0 := old(disk.View());
    disk.Create(path);
    var i := 0;
    while i < |cfg|
      invariant 0 <= i <= |cfg|
      invariant disk.View() == WriteSpec(s0, path, Concat(ConfigLines(cfg[..i])))
    {
      var line := ConfigLine(cfg[i].0, cfg[i].1);
      ConfigLinesSnoc(cfg, i);
      ConcatAppend(ConfigLines(cfg[..i]), line);
      WriteTwice(s0, path, Concat(ConfigLines(cfg[..i])), Concat(ConfigLines(cfg[..i + 1])));
      disk.Append(path, line);
      i := i + 1;
    }
    TakeAll(cfg);
  }

  /** set_up. It returns `neg_list` beside the outcome, since which order
      `list` gave is not determined by the inputs. */
  method SetUp(disk: Disk, p: Params, inp: Inputs, latestUrl: string) returns (negList: seq<string>, failure: Option<Failure>)
    modifies disk
    ensures Run(disk.View(), failure) == SetUpSpec(old(disk.View()), p, inp, latestUrl, negList)
    ensures var s1 := ClearSpec(old(disk.View()), DataRoot(p.execDir, p.resultDir));
      p.sampleCsv in s1.files ==> ListsSet(negList, NegativeSet(s1.files[p.sampleCsv], p.negativePrefixes))
  {
    var resultDir := Basename(p.resultDir);
    var pangolin := ResolveVersion(p.pangolin, latestUrl);
    var dataRoot := DataRoot(p.execDir, p.resultDir);
    disk.Clear(dataRoot);
    var csv, readFailure := disk.Read(p.sampleCsv);
    if readFailure.Some? {
      return [], readFailure;
    }
    var negSamples := CollectNegatives(csv, p.negativePrefixes);
    negList := ToList(negSamples);
    var settings := Settings(dataRoot, resultDir, p.ampliconBed, p.referenceGenome, p.primerBed,
      p.phyloIncludeSeqs, negList, pangolin);
    var config := BuildConfig(settings);
    failure := LinkPassOn(disk, dataRoot, inp.bams, Bam, Undefined);
    if failure.Some? {
      return;
    }
    failure := LinkPassOn(disk, dataRoot, inp.trimmedBams, TrimmedBam, Undefined);
    if failure.Some? {
      return;
    }
    if p.freebayesRun {
      failure := LinkFreebayesOn(disk, dataRoot, inp.variants, inp.consensus);
      if failure.Some? {
        return;
      }
      config := Assign(config, "variants_pattern", "'{data_root}/{sample}.variants.vcf'");
    } else {
      failure := LinkIvarOn(disk, dataRoot, inp.variants, inp.consensus, Given(false));
      if failure.Some? {
        return;
      }
    }
    WriteConfig(disk, ConfigPath(p.execDir), config);
    failure := None;
  }

  /** With no line break in the settings, the text written for the chosen
      configuration reads back as one `key: value` line per key, in the
      fixed key order, with the `.variants.vcf` pattern in a FreeBayes run
      and the `.variants.tsv` one otherwise. */
  lemma ConfigFileLines(p: Params, settings: Settings)
    requires SettingsSingleLine(settings)
    ensures var cfg := ConfigOf(p, settings);
      var lines := SplitLines(Serialise(cfg));
      |lines| == |ConfigKeys| &&
      (forall i | 0 <= i < |ConfigKeys| :: lines[i] == ConfigLine(ConfigKeys[i], cfg[i].1)) &&
      lines[VariantsPatternIndex] ==
        ConfigLine("variants_pattern", if p.freebayesRun then Pattern(VariantsVcf) else Pattern(VariantsTsv))
  {
    var cfg := ConfigOf(p, settings);
    BuiltConfigSingleLine(settings);
    if !p.freebayesRun {
      PatternsMatchLinks(settings);
    }
    SerialiseLines(cfg);
    forall i | 0 <= i < |ConfigKeys| ensures cfg[i].0 == ConfigKeys[i] {
      assert Keys(cfg)[i] == cfg[i].0;
    }
  }

  /** A successful set_up leaves `config.yaml` holding the chosen
      configuration, serialised. */
  lemma SetUpWritesConfig(s: Snapshot, p: Params, inp: Inputs, latestUrl: string, negList: seq<string>)
    requires SetUpSpec(s, p, inp, latestUrl, negList).failure.None?
    ensures var r := SetUpSpec(s, p, inp, latestUrl, negList);
      ConfigPath(p.execDir) in r.snap.files &&
      r.snap.files[ConfigPath(p.execDir)] ==
        Serialise(ConfigOf(p, SettingsOf(p, DataRoot(p.execDir, p.resultDir), negList, latestUrl)))
  {
    var root := DataRoot(p.execDir, p.resultDir);
    var r := LinkAll(ClearSpec(s, root), root, p, inp);
    var cfg := ConfigOf(p, SettingsOf(p, root, negList, latestUrl));
    assert SetUpSpec(s, p, inp, latestUrl, negList) == Ok(WriteSpec(r.snap, ConfigPath(p.execDir), Serialise(cfg)));
  }

  /** Every input path exists and lies outside the data directory, so
      recreating that directory leaves it. */
  predicate Available(s: Snapshot, root: Path, srcs: seq<Path>)
  {
    forall k | 0 <= k < |srcs| :: srcs[k] in s.files && !Under(srcs[k], root)
  }

  /** No BAM link path is also a primer-trimmed BAM link path. */
  predicate NoBamCollision(root: Path, bams: seq<Path>, trimmed: seq<Path>)
  {
    forall i, j | 0 <= i < |bams| && 0 <= j < |trimmed| ::
      LinkTarget(root, trimmed[j], TrimmedBam) != LinkTarget(root, bams[i], Bam)
  }

  /** The BAM loops pass their undefined `replace` exactly when no two
      BAMs, no two primer-trimmed BAMs, and no BAM and primer-trimmed BAM
      share a link path. */
  predicate BamLinksApart(root: Path, inp: Inputs)
  {
    DistinctSamples(inp.bams) && DistinctSamples(inp.trimmedBams) &&
    NoBamCollision(root, inp.bams, inp.trimmedBams)
  }

  /** After a successful BAM loop into an empty data directory, a
      primer-trimmed link path is taken exactly when it is a BAM link path. */
  lemma TrimmedTargetsFree(s: Snapshot, t: Snapshot, root: Path, bams: seq<Path>, trimmed: seq<Path>)
    requires forall q | q in s.files :: !Under(q, root)
    requires t == LinkPass(s, root, bams, Bam, Undefined).snap
    requires LinkPass(s, root, bams, Bam, Undefined).failure.None?
    ensures TargetsFree(t, root, trimmed, TrimmedBam) <==> NoBamCollision(root, bams, trimmed)
  {
    LinkPassLinksAll(s, root, bams, Bam, Undefined);
    forall j | 0 <= j < |trimmed|
      ensures LinkTarget(root, trimmed[j], TrimmedBam) in t.files <==>
        exists i | 0 <= i < |bams| :: LinkTarget(root, trimmed[j], TrimmedBam) == LinkTarget(root, bams[i], Bam)
    {
      var q := LinkTarget(root, trimmed[j], TrimmedBam);
      TargetsAt(root, bams, Bam, q);
    }
  }

  /** On a data directory set_up has just emptied, with every BAM present,
      the BAM loops raise `NameError` exactly when two of their link paths
      coincide; whatever follows never raises it. */
  lemma {:induction false} LinkAllUndefinedReplace(s: Snapshot, root: Path, p: Params, inp: Inputs)
    requires forall q | q in s.files :: !Under(q, root)
    requires AllPresent(s, inp.bams) && AllPresent(s, inp.trimmedBams)
    ensures LinkAll(s, root, p, inp).failure == Some(UndefinedReplace) <==> !BamLinksApart(root, inp)
  {
    UndefinedReplacePass(s, root, inp.bams, Bam);
    var r1 := LinkPass(s, root, inp.bams, Bam, Undefined);
    if r1.failure.None? {
      AllPresentKept(s, r1.snap, inp.trimmedBams);
      UndefinedReplacePass(r1.snap, root, inp.trimmedBams, TrimmedBam);
      TrimmedTargetsFree(s, r1.snap, root, inp.bams, inp.trimmedBams);
    }
  }

  lemma FreshTargetsFree(s: Snapshot, root: Path, srcs: seq<Path>, suffix: string)
    requires forall q | q in s.files :: !Under(q, root)
    ensures TargetsFree(s, root, srcs, suffix)
  {
  }

  /** The two BAM loops on a data directory set_up has just emptied, with
      every BAM present and the link paths apart: each BAM and each
      primer-trimmed BAM is linked, and nothing else changes. */
  lemma BamLinksContents(s: Snapshot, root: Path, inp: Inputs)
    requires Consistent(s)
    requires forall q | q in s.files :: !Under(q, root)
    requires AllPresent(s, inp.bams) && AllPresent(s, inp.trimmedBams)
    requires BamLinksApart(root, inp)
    ensures var r1 := LinkPass(s, root, inp.bams, Bam, Undefined);
      var r2 := LinkPass(r1.snap, root, inp.trimmedBams, TrimmedBam, Undefined);
      r1.failure.None? && r2.failure.None? &&
      LinkedFrom(s, r2.snap, root, inp.bams, Bam) &&
      LinkedFrom(s, r2.snap, root, inp.trimmedBams, TrimmedBam) &&
      Grows(s, r2.snap) && Consistent(r2.snap) &&
      forall q | q in r2.snap.files && q !in s.files ::
        q in Targets(root, inp.bams, Bam) || q in Targets(root, inp.trimmedBams, TrimmedBam)
  {
    FreshTargetsFree(s, root, inp.bams, Bam);
    LinkPassContents(s, root, inp.bams, Bam, Undefined);
    var r1 := LinkPass(s, root, inp.bams, Bam, Undefined);
    AllPresentKept(s, r1.snap, inp.trimmedBams);
    TrimmedTargetsFree(s, r1.snap, root, inp.bams, inp.trimmedBams);
    LinkPassContents(r1.snap, root, inp.trimmedBams, TrimmedBam, Undefined);
    var r2 := LinkPass(r1.snap, root, inp.trimmedBams, TrimmedBam, Undefined);
    LinkedFromLater(s, r1.snap, r2.snap, root, inp.bams, Bam);
    LinkedFromEarlier(s, r1.snap, r2.snap, root, inp.trimmedBams, TrimmedBam);
  }

  /** After the BAM loops on an emptied data directory, the iVar link paths
      are still free. */
  lemma IvarTargetsFree(s: Snapshot, t: Snapshot, root: Path, inp: Inputs)
    requires forall q | q in s.files :: !Under(q, root)
    requires forall q | q in t.files && q !in s.files ::
      q in Targets(root, inp.bams, Bam) || q in Targets(root, inp.trimmedBams, TrimmedBam)
    ensures TargetsFree(t, root, inp.variants, VariantsTsv)
    ensures TargetsFree(t, root, inp.consensus, ConsensusFasta)
  {
    forall k | 0 <= k < |inp.variants| ensures LinkTarget(root, inp.variants[k], VariantsTsv) !in t.files {
      OtherKindNotTarget(root, inp.bams, Bam, inp.variants[k], VariantsTsv);
      OtherKindNotTarget(root, inp.trimmedBams, TrimmedBam, inp.variants[k], VariantsTsv);
    }
    forall k | 0 <= k < |inp.consensus| ensures LinkTarget(root, inp.consensus[k], ConsensusFasta) !in t.files {
      OtherKindNotTarget(root, inp.bams, Bam, inp.consensus[k], ConsensusFasta);
      OtherKindNotTarget(root, inp.trimmedBams, TrimmedBam, inp.consensus[k], ConsensusFasta);
    }
  }

  /** link_ivar leaves the BAM links alone: it rewrites only consensus link
      paths. */
  lemma LinkIvarKeepsBamLinks(s: Snapshot, t: Snapshot, root: Path, inp: Inputs)
    requires Consistent(t)
    requires LinkedFrom(s, t, root, inp.bams, Bam) && LinkedFrom(s, t, root, inp.trimmedBams, TrimmedBam)
    ensures var r := LinkIvar(t, root, inp.variants, inp.consensus, Given(false));
      LinkedFrom(s, r.snap, root, inp.bams, Bam) && LinkedFrom(s, r.snap, root, inp.trimmedBams, TrimmedBam)
  {
    forall k | 0 <= k < |inp.bams| ensures LinkTarget(root, inp.bams[k], Bam) !in Targets(root, inp.consensus, ConsensusFasta) {
      OtherKindNotTarget(root, inp.consensus, ConsensusFasta, inp.bams[k], Bam);
    }
    forall k | 0 <= k < |inp.trimmedBams|
      ensures LinkTarget(root, inp.trimmedBams[k], TrimmedBam) !in Targets(root, inp.consensus, ConsensusFasta)
    {
      OtherKindNotTarget(root, inp.consensus, ConsensusFasta, inp.trimmedBams[k], TrimmedBam);
    }
  }

  /** Without FreeBayes, on a data directory set_up has just emptied, with
      every input present, the BAM link paths apart and no sample named
      twice among the variants or among the consensus files, the linking
      part of set_up succeeds: every BAM, primer-trimmed BAM and variants
      file is linked under its sample's name, and every consensus file is
      copied there with its headers renamed to the sample. */
  lemma IvarLinkAllContents(s: Snapshot, root: Path, p: Params, inp: Inputs)
    requires !p.freebayesRun
    requires Consistent(s)
    requires forall q | q in s.files :: !Under(q, root)
    requires AllPresent(s, inp.bams) && AllPresent(s, inp.trimmedBams)
    requires AllPresent(s, inp.variants) && AllPresent(s, inp.consensus)
    requires BamLinksApart(root, inp) && DistinctSamples(inp.variants) && DistinctSamples(inp.consensus)
    ensures var r := LinkAll(s, root, p, inp);
      r.failure.None? &&
      LinkedFrom(s, r.snap, root, inp.bams, Bam) &&
      LinkedFrom(s, r.snap, root, inp.trimmedBams, TrimmedBam) &&
      LinkedFrom(s, r.snap, root, inp.variants, VariantsTsv) &&
      RenamedFrom(s, r.snap, root, inp.consensus)
  {
    BamLinksContents(s, root, inp);
    var r1 := LinkPass(s, root, inp.bams, Bam, Undefined);
    var t := LinkPass(r1.snap, root, inp.trimmedBams, TrimmedBam, Undefined).snap;
    AllPresentKept(s, t, inp.variants);
    AllPresentKept(s, t, inp.consensus);
    IvarTargetsFree(s, t, root, inp);
    LinkIvarContents(t, root, inp.variants, inp.consensus, Given(false));
    LinkIvarKeepsBamLinks(s, t, root, inp);
    var r := LinkIvar(t, root, inp.variants, inp.consensus, Given(false));
    assert LinkedFrom(s, r.snap, root, inp.variants, VariantsTsv) by {
      assert LinkedFrom(t, r.snap, root, inp.variants, VariantsTsv);
    }
    assert RenamedFrom(s, r.snap, root, inp.consensus) by {
      assert RenamedFrom(t, r.snap, root, inp.consensus);
    }
  }

  /** Recreating the data directory keeps the inputs that lie outside it. */
  lemma AvailableAfterClear(s: Snapshot, root: Path, srcs: seq<Path>)
    requires Available(s, root, srcs)
    ensures AllPresent(ClearSpec(s, root), srcs)
  {
  }

  /** With a result directory given with a trailing `/`, set_up's
      `rmtree` empties the whole `ncov-tools` directory, `config.yaml`
      included. */
  lemma TrailingSlashClearsTools(s: Snapshot, p: Params)
    requires p.resultDir != [] && p.resultDir[|p.resultDir| - 1] == '/'
    ensures forall q | Under(q, Join(p.execDir, "ncov-tools")) :: q !in ClearSpec(s, DataRoot(p.execDir, p.resultDir)).files
    ensures ConfigPath(p.execDir) !in ClearSpec(s, DataRoot(p.execDir, p.resultDir)).files
  {
    TrailingSlashRoot(p.execDir, p.resultDir);
  }

  /** set_up fails as its sample-table read or its linking part does. */
  lemma SetUpFailure(s: Snapshot, p: Params, inp: Inputs, latestUrl: string, negList: seq<string>)
    ensures var root := DataRoot(p.execDir, p.resultDir);
      var s1 := ClearSpec(s, root);
      SetUpSpec(s, p, inp, latestUrl, negList).failure ==
        if p.sampleCsv !in s1.files then Some(NotFound(p.sampleCsv)) else LinkAll(s1, root, p, inp).failure
  {
  }

  /** After the BAM loops on an emptied data directory, the FreeBayes link
      paths are still free. */
  lemma FreebayesTargetsFree(s: Snapshot, t: Snapshot, root: Path, inp: Inputs)
    requires forall q | q in s.files :: !Under(q, root)
    requires forall q | q in t.files && q !in s.files ::
      q in Targets(root, inp.bams, Bam) || q in Targets(root, inp.trimmedBams, TrimmedBam)
    ensures TargetsFree(t, root, inp.variants, VariantsVcf)
    ensures TargetsFree(t, root, inp.consensus, ConsensusFasta)
  {
    forall k | 0 <= k < |inp.variants| ensures LinkTarget(root, inp.variants[k], VariantsVcf) !in t.files {
      OtherKindNotTarget(root, inp.bams, Bam, inp.variants[k], VariantsVcf);
      OtherKindNotTarget(root, inp.trimmedBams, TrimmedBam, inp.variants[k], VariantsVcf);
    }
    forall k | 0 <= k < |inp.consensus| ensures LinkTarget(root, inp.consensus[k], ConsensusFasta) !in t.files {
      OtherKindNotTarget(root, inp.bams, Bam, inp.consensus[k], ConsensusFasta);
      OtherKindNotTarget(root, inp.trimmedBams, TrimmedBam, inp.consensus[k], ConsensusFasta);
    }
  }

  /** With FreeBayes, on a data directory set_up has just emptied, with
      every BAM and every FreeBayes output present, the BAM link paths apart
      and no sample named twice among the variants or among the consensus
      files, the linking part of set_up succeeds: every BAM and
      primer-trimmed BAM is linked under its sample's name, every FreeBayes
      variants file is linked as the sample's `.variants.vcf`, and every
      FreeBayes consensus is copied to the sample's `.consensus.fasta` with
      its headers renamed. */
  lemma FreebayesLinkAllContents(s: Snapshot, root: Path, p: Params, inp: Inputs)
    requires p.freebayesRun
    requires Absolute(root) && Consistent(s)
    requires forall q | q in s.files :: !Under(q, root)
    requires AllPresent(s, inp.bams) && AllPresent(s, inp.trimmedBams)
    requires FbAllPresent(s, inp.variants, FreebayesVariants) && FbAllPresent(s, inp.consensus, FreebayesConsensus)
    requires BamLinksApart(root, inp) && DistinctSamples(inp.variants) && DistinctSamples(inp.consensus)
    ensures var r := LinkAll(s, root, p, inp);
      r.failure.None? &&
      LinkedFrom(s, r.snap, root, inp.bams, Bam) &&
      LinkedFrom(s, r.snap, root, inp.trimmedBams, TrimmedBam) &&
      FbLinkedFrom(s, r.snap, root, inp.variants) &&
      FbRenamedFrom(s, r.snap, root, inp.consensus, |inp.consensus|)
  {
    BamLinksContents(s, root, inp);
    var r1 := LinkPass(s, root, inp.bams, Bam, Undefined);
    var t := LinkPass(r1.snap, root, inp.trimmedBams, TrimmedBam, Undefined).snap;
    FbAllPresentKept(s, t, inp.variants, FreebayesVariants);
    FbAllPresentKept(s, t, inp.consensus, FreebayesConsensus);
    FreebayesTargetsFree(s, t, root, inp);
    LinkFreebayesContents(t, root, inp.variants, inp.consensus);
    var r := LinkFreebayes(t, root, inp.variants, inp.consensus);
    LinkedFromLater(s, t, r.snap, root, inp.bams, Bam);
    LinkedFromLater(s, t, r.snap, root, inp.trimmedBams, TrimmedBam);
    FbLinkedFromEarlier(s, t, r.snap, root, inp.variants);
    FbRenamedFromEarlier(s, t, r.snap, root, inp.consensus);
  }

  /** The same for the whole of set_up, whose sample table must exist for
      the BAM loops to be reached. */
  lemma SetUpUndefinedReplace(s: Snapshot, p: Params, inp: Inputs, latestUrl: string, negList: seq<string>)
    requires Available(s, DataRoot(p.execDir, p.resultDir), inp.bams)
    requires Available(s, DataRoot(p.execDir, p.resultDir), inp.trimmedBams)
    ensures SetUpSpec(s, p, inp, latestUrl, negList).failure == Some(UndefinedReplace) <==>
      p.sampleCsv in ClearSpec(s, DataRoot(p.execDir, p.resultDir)).files &&
      !BamLinksApart(DataRoot(p.execDir, p.resultDir), inp)
  {
    var root := DataRoot(p.execDir, p.resultDir);
    SetUpFailure(s, p, inp, latestUrl, negList);
    AvailableAfterClear(s, root, inp.bams);
    AvailableAfterClear(s, root, inp.trimmedBams);
    ClearedUndefinedReplace(ClearSpec(s, root), root, p, inp, SetUpSpec(s, p, inp, latestUrl, negList).failure);
  }

  /** `SetUpUndefinedReplace` on the emptied directory, whatever its name. */
  lemma ClearedUndefinedReplace(s1: Snapshot, root: Path, p: Params, inp: Inputs, failure: Option<Failure>)
    requires forall q | q in s1.files :: !Under(q, root)
    requires AllPresent(s1, inp.bams) && AllPresent(s1, inp.trimmedBams)
    requires failure == if p.sampleCsv !in s1.files then Some(NotFound(p.sampleCsv)) else LinkAll(s1, root, p, inp).failure
    ensures failure == Some(UndefinedReplace) <==> p.sampleCsv in s1.files && !BamLinksApart(root, inp)
  {
    LinkAllUndefinedReplace(s1, root, p, inp);
  }

  /** Without FreeBayes, on a data directory set_up has just emptied, with
      every input present, the linking part of set_up succeeds exactly when
      the BAM link paths are apart. */
  lemma IvarLinkAllSucceeds(s: Snapshot, root: Path, p: Params, inp: Inputs)
    requires !p.freebayesRun
    requires forall q | q in s.files :: !Under(q, root)
    requires AllPresent(s, inp.bams) && AllPresent(s, inp.trimmedBams)
    requires AllPresent(s, inp.variants) && AllPresent(s, inp.consensus)
    ensures LinkAll(s, root, p, inp).failure.None? <==> BamLinksApart(root, inp)
  {
    LinkAllUndefinedReplace(s, root, p, inp);
    UndefinedReplacePass(s, root, inp.bams, Bam);
    var r1 := LinkPass(s, root, inp.bams, Bam, Undefined);
    if r1.failure.None? {
      AllPresentKept(s, r1.snap, inp.trimmedBams);
      UndefinedReplacePass(r1.snap, root, inp.trimmedBams, TrimmedBam);
      var r2 := LinkPass(r1.snap, root, inp.trimmedBams, TrimmedBam, Undefined);
      if r2.failure.None? {
        assert forall q | q in s.files :: q in r2.snap.files;
        AllPresentKept(s, r2.snap, inp.variants);
        AllPresentKept(s, r2.snap, inp.consensus);
        LinkIvarFailure(r2.snap, root, inp.variants, inp.consensus, Given(false));
      }
    }
  }

  /** Without FreeBayes and with every input available, set_up succeeds
      exactly when its sample table exists and the BAM link paths are
      apart. */
  lemma IvarSetUpSucceeds(s: Snapshot, p: Params, inp: Inputs, latestUrl: string, negList: seq<string>)
    requires !p.freebayesRun
    requires var root := DataRoot(p.execDir, p.resultDir);
      Available(s, root, inp.bams) && Available(s, root, inp.trimmedBams) &&
      Available(s, root, inp.variants) && Available(s, root, inp.consensus)
    ensures SetUpSpec(s, p, inp, latestUrl, negList).failure.None? <==>
      p.sampleCsv in ClearSpec(s, DataRoot(p.execDir, p.resultDir)).files &&
      BamLinksApart(DataRoot(p.execDir, p.resultDir), inp)
  {
    var root := DataRoot(p.execDir, p.resultDir);
    SetUpFailure(s, p, inp, latestUrl, negList);
    AvailableAfterClear(s, root, inp.bams);
    AvailableAfterClear(s, root, inp.trimmedBams);
    AvailableAfterClear(s, root, inp.variants);
    AvailableAfterClear(s, root, inp.consensus);
    IvarLinkAllSucceeds(ClearSpec(s, root), root, p, inp);
  }

  lemma BamLinksCollide(root: Path, sample: string, bamFile: Path, trimmedFile: Path)
    requires '/' !in sample
    ensures LinkTarget(root, sample + ".mapped.primertrimmed.sorted" + "/" + bamFile, Bam) ==
      LinkTarget(root, sample + "/" + trimmedFile, TrimmedBam)
  {
    var stem := ".mapped.primertrimmed.sorted";
    assert '/' !in stem;
    assert TrimmedBam == stem + Bam;
    SampleNameOfNested(sample + stem, bamFile);
    SampleNameOfNested(sample, trimmedFile);
  }

  /** Distinct sample ids do not keep the BAM links apart: the BAM of a
      sample named `S.mapped.primertrimmed.sorted` is linked to the path
      the primer-trimmed BAM of sample `S` needs, so set_up raises
      `NameError`. */
  lemma CollidingBamLinksRaise(s: Snapshot, root: Path, p: Params, inp: Inputs,
                               sample: string, bamFile: Path, trimmedFile: Path)
    requires '/' !in sample
    requires inp.bams == [sample + ".mapped.primertrimmed.sorted" + "/" + bamFile]
    requires inp.trimmedBams == [sample + "/" + trimmedFile]
    requires forall q | q in s.files :: !Under(q, root)
    requires AllPresent(s, inp.bams) && AllPresent(s, inp.trimmedBams)
    ensures DistinctSamples(inp.bams) && DistinctSamples(inp.trimmedBams)
    ensures LinkAll(s, root, p, inp).failure == Some(UndefinedReplace)
  {
    BamLinksCollide(root, sample, bamFile, trimmedFile);
    assert LinkTarget(root, inp.trimmedBams[0], TrimmedBam) == LinkTarget(root, inp.bams[0], Bam);
    LinkAllUndefinedReplace(s, root, p, inp);
  }
}
