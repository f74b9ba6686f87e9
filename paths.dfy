/** Path rules of scripts/ncov-tools.py: the sample id taken from an input
    path, the names of the links made in the ncov-tools data directory, the
    FreeBayes output files a sample should have, and POSIX `os.path.join`. */
module Paths {
  import opened Text

  type Path = string

  /** `os.path.join(a, b)` on POSIX: an absolute `b` replaces `a`; otherwise a
      separator is inserted unless `a` is empty or already ends with one. */
  function Join(a: Path, b: Path): (r: Path)
    ensures |b| <= |r| && r[|r| - |b|..] == b
    ensures (b == [] || b[0] != '/') ==> a <= r
  {
    if b != [] && b[0] == '/' then b
    else if a == [] || a[|a| - 1] == '/' then a + b
    else a + "/" + b
  }

  /** The sample id of an input path such as `S1/core/S1.consensus.fa`:
      `path.split('/')[0]`. */
  function SampleName(path: Path): (sample: string)
    ensures '/' !in sample
    ensures sample <= path
    ensures sample == path || path[|sample|] == '/'
  {
    FirstField(path, '/')
  }

  /** Any path that starts with `sample/` names that sample. */
  lemma SampleNameOfNested(sample: string, within: Path)
    requires '/' !in sample
    ensures SampleName(sample + "/" + within) == sample
  {
    FirstFieldOfSplit(sample, '/', within);
  }

  /** `os.path.basename(path)`: the text after the last `/`. */
  function Basename(path: Path): (name: string)
    ensures '/' !in name
    ensures |name| <= |path| && path[|path| - |name|..] == name
    ensures name == path || path[|path| - |name| - 1] == '/'
  {
    LastField(path, '/')
  }

  // Name suffixes of the links made in the data directory.
  const VariantsTsv := ".variants.tsv"
  const VariantsVcf := ".variants.vcf"
  const ConsensusFasta := ".consensus.fasta"
  const Bam := ".bam"
  const TrimmedBam := ".mapped.primertrimmed.sorted.bam"

  // Name suffixes of the FreeBayes outputs looked for under `{sample}/freebayes/`.
  const FreebayesVariants := ".variants.norm.vcf"
  const FreebayesConsensus := ".consensus.fasta"

  /** The per-sample directory FreeBayes writes to. */
  const FreebayesDir := "freebayes"

  /** `f"{root}/{sample}{suffix}"`: the link made for one sample. */
  function LinkPath(root: Path, sample: string, suffix: string): (p: Path)
    ensures root + "/" <= p
    ensures |p| == |root| + 1 + |sample| + |suffix|
  {
    root + "/" + sample + suffix
  }

  /** `p` lies inside directory `root`. */
  predicate Under(p: Path, root: Path)
  {
    root + "/" <= p
  }

  /** Within one kind of link, different samples get different link paths. */
  lemma LinkPathInjective(root: Path, s1: string, s2: string, suffix: string)
    requires LinkPath(root, s1, suffix) == LinkPath(root, s2, suffix)
    ensures s1 == s2
  {
    var p := LinkPath(root, s1, suffix);
    assert |s1| == |s2|;
    assert s1 == p[|root| + 1..|root| + 1 + |s1|];
    assert s2 == p[|root| + 1..|root| + 1 + |s2|];
  }

  /** Link paths whose suffixes end in different characters never meet,
      whatever the samples: `.variants.tsv`, `.consensus.fasta` and the BAM
      links stay apart from one another (the two BAM kinds both end in `m`,
      so this says nothing about them). */
  lemma LinkKindsApart(root: Path, s1: string, s2: string, suffix1: string, suffix2: string)
    requires suffix1 != [] && suffix2 != [] && suffix1[|suffix1| - 1] != suffix2[|suffix2| - 1]
    ensures LinkPath(root, s1, suffix1) != LinkPath(root, s2, suffix2)
  {
    var p1 := LinkPath(root, s1, suffix1);
    var p2 := LinkPath(root, s2, suffix2);
    assert p1[|p1| - 1] == suffix1[|suffix1| - 1];
    assert p2[|p2| - 1] == suffix2[|suffix2| - 1];
  }

  /** The BAM link of one sample can be the primer-trimmed BAM link of
      another: nothing keeps `.`-laden sample ids apart. */
  lemma BamLinksCanCollide(root: Path)
    ensures LinkPath(root, "S.mapped.primertrimmed.sorted", Bam) == LinkPath(root, "S", TrimmedBam)
  {
  }

  /** `os.path.join(sample, 'freebayes', sample + suffix)`. */
  function FreebayesFile(sample: string, suffix: string): (p: Path)
    requires '/' !in sample
    requires suffix != [] && suffix[0] != '/'
    ensures p != [] && p[0] != '/'
  {
    if sample == [] then
      FreebayesFileTop(suffix);
      Join(Join(sample, FreebayesDir), sample + suffix)
    else
      FreebayesFileNested(sample, suffix);
      Join(Join(sample, FreebayesDir), sample + suffix)
  }

  /** The FreeBayes output of a sample lies in the sample's own
      `freebayes` directory and is named after the sample. */
  lemma FreebayesFileShape(sample: string, suffix: string)
    requires '/' !in sample
    requires suffix != [] && suffix[0] != '/'
    ensures sample != [] ==> FreebayesFile(sample, suffix) == sample + "/" + FreebayesDir + "/" + sample + suffix
    ensures sample == [] ==> FreebayesFile(sample, suffix) == FreebayesDir + "/" + suffix
  {
    if sample == [] {
      FreebayesFileTop(suffix);
    } else {
      FreebayesFileNested(sample, suffix);
    }
  }

  lemma FreebayesFileTop(suffix: string)
    requires suffix != [] && suffix[0] != '/'
    ensures Join(Join([], FreebayesDir), [] + suffix) == FreebayesDir + "/" + suffix
  {
    assert Join([], FreebayesDir) == FreebayesDir;
    assert [] + suffix == suffix;
  }

  lemma FreebayesFileNested(sample: string, suffix: string)
    requires sample != [] && '/' !in sample
    requires suffix != [] && suffix[0] != '/'
    ensures var p := Join(Join(sample, FreebayesDir), sample + suffix);
      p == sample + "/" + FreebayesDir + "/" + sample + suffix && p[0] == sample[0] != '/'
  {
    var name := sample + suffix;
    var dir := sample + "/" + FreebayesDir;
    assert Join(sample, FreebayesDir) == dir by {
      assert sample[|sample| - 1] in sample;
    }
    assert Join(dir, name) == dir + "/" + name by {
      assert sample[0] in sample;
      assert dir[|dir| - 1] == 's';
    }
    assert dir + "/" + name == sample + "/" + FreebayesDir + "/" + sample + suffix;
  }

  /** A relative path never lies inside an absolute directory. */
  lemma RelativeNotUnder(p: Path, root: Path)
    requires p != [] && p[0] != '/'
    requires root != [] && root[0] == '/'
    ensures !Under(p, root)
  {
    assert (root + "/")[0] == '/';
  }

  /** `os.path.abspath(os.path.join(exec_dir, 'ncov-tools', result_dir))`
      with `result_dir` the basename of the run's result directory. When
      that basename is empty (a result directory given with a trailing
      `/`), `abspath` drops the separator the join leaves, and the data
      root is the `ncov-tools` directory itself. */
  function DataRoot(execDir: Path, resultDir: Path): (root: Path)
    ensures execDir != [] && execDir[0] == '/' ==> root != [] && root[0] == '/'
    ensures Join(execDir, "ncov-tools") <= root
    ensures root != [] && root[|root| - 1] != '/'
  {
    var tools := Join(execDir, "ncov-tools");
    ToolsDir(execDir);
    var name := Basename(resultDir);
    if name == [] then tools
    else
      JoinName(tools, name);
      Join(tools, name)
  }

  /** The data directory is named after the run's result directory, or,
      when that name is empty, is the `ncov-tools` directory itself. */
  lemma DataRootName(execDir: Path, resultDir: Path)
    ensures Basename(DataRoot(execDir, resultDir)) ==
      if Basename(resultDir) == [] then "ncov-tools" else Basename(resultDir)
    ensures Basename(resultDir) == [] ==> DataRoot(execDir, resultDir) == Join(execDir, "ncov-tools")
  {
    ToolsDir(execDir);
    if Basename(resultDir) != [] {
      JoinName(Join(execDir, "ncov-tools"), Basename(resultDir));
    }
  }

  /** A result directory given with a trailing `/` has an empty basename,
      so the data root is the `ncov-tools` directory, and `config.yaml`
      lies inside it. */
  lemma TrailingSlashRoot(execDir: Path, resultDir: Path)
    requires resultDir != [] && resultDir[|resultDir| - 1] == '/'
    ensures DataRoot(execDir, resultDir) == Join(execDir, "ncov-tools")
    ensures Under(ConfigPath(execDir), DataRoot(execDir, resultDir))
  {
    assert Basename(resultDir) == [];
    var tools := Join(execDir, "ncov-tools");
    ToolsDir(execDir);
    JoinName(tools, "config.yaml");
  }

  /** Joining a name to a directory puts it after one separator. */
  lemma JoinName(dir: Path, name: string)
    requires dir != [] && dir[|dir| - 1] != '/'
    requires name != [] && '/' !in name
    ensures var p := Join(dir, name);
      p == dir + "/" + name && p[0] == dir[0] && p[|p| - 1] != '/' && Basename(p) == name
  {
    assert name[0] in name && name[|name| - 1] in name;
    assert Join(dir, name) == dir + ['/'] + name;
    LastFieldOfSplit(dir, '/', name);
  }

  /** Joining a name to a directory that ends in a separator appends it. */
  lemma SlashJoinName(dir: Path, name: string)
    requires dir != [] && dir[|dir| - 1] == '/'
    requires name != [] && '/' !in name
    ensures Join(dir, name) == dir + name && Basename(dir + name) == name
  {
    assert name[0] in name;
    var init := dir[..|dir| - 1];
    assert dir + name == init + ['/'] + name;
    LastFieldOfSplit(init, '/', name);
  }

  /** `os.path.join(exec_dir, 'ncov-tools')` is named `ncov-tools`. */
  lemma ToolsDir(execDir: Path)
    ensures var tools := Join(execDir, "ncov-tools");
      execDir <= tools && tools != [] && tools[|tools| - 1] == 's' && Basename(tools) == "ncov-tools"
  {
    var name := "ncov-tools";
    assert '/' !in name;
    var tools := Join(execDir, name);
    assert tools[|tools| - |name|..] == name;
    if execDir == [] {
      LastFieldOfSplit([], '/', name);
    } else if execDir[|execDir| - 1] == '/' {
      SlashJoinName(execDir, name);
    } else {
      JoinName(execDir, name);
    }
  }

  /** `os.path.join(exec_dir, 'ncov-tools', 'config.yaml')`. */
  function ConfigPath(execDir: Path): (p: Path)
    ensures |p| >= |"config.yaml"| && p[|p| - |"config.yaml"|..] == "config.yaml"
  {
    Join(Join(execDir, "ncov-tools"), "config.yaml")
  }
}
