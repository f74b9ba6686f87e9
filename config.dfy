/** The ncov-tools `config.yaml` that scripts/ncov-tools.py writes: an
    insertion-ordered dictionary of key to text, emitted as one `key: value`
    line per key. String-valued entries are written with single quotes
    around them; the negative-control list is written as Python prints a
    list of strings. */
module Config {
  import opened Text
  import opened Paths

  /** An insertion-ordered dictionary, as a list of (key, value) pairs. */
  type Config = seq<(string, string)>

  function Keys(cfg: Config): (ks: seq<string>)
    ensures |ks| == |cfg|
    ensures forall i | 0 <= i < |cfg| :: ks[i] == cfg[i].0
  {
    seq(|cfg|, i requires 0 <= i < |cfg| => cfg[i].0)
  }

  predicate DistinctKeys(cfg: Config)
  {
    forall i, j | 0 <= i < j < |cfg| :: cfg[i].0 != cfg[j].0
  }

  /** `cfg[key] = value` on a Python dict: an existing key keeps its position
      and only its value changes; a new key goes last. */
  function Assign(cfg: Config, key: string, value: string): (r: Config)
    ensures key in Keys(cfg) ==> Keys(r) == Keys(cfg)
    ensures key !in Keys(cfg) ==> r == cfg + [(key, value)]
    ensures forall i | 0 <= i < |cfg| && cfg[i].0 != key :: r[i] == cfg[i]
    ensures forall i | 0 <= i < |r| && r[i].0 == key :: r[i].1 == value
  {
    if key !in Keys(cfg) then cfg + [(key, value)]
    else AssignPresent(cfg, key, value)
  }

  function AssignPresent(cfg: Config, key: string, value: string): (r: Config)
    ensures Keys(r) == Keys(cfg)
    ensures forall i | 0 <= i < |cfg| :: r[i] == if cfg[i].0 == key then (key, value) else cfg[i]
  {
    seq(|cfg|, i requires 0 <= i < |cfg| => if cfg[i].0 == key then (key, value) else cfg[i])
  }

  /** Assignment keeps the keys of a dictionary distinct. */
  lemma AssignKeepsKeysDistinct(cfg: Config, key: string, value: string)
    requires DistinctKeys(cfg)
    ensures DistinctKeys(Assign(cfg, key, value))
  {
    if key !in Keys(cfg) {
      var r := Assign(cfg, key, value);
      forall i | 0 <= i < |cfg| ensures r[i].0 != key {
        assert Keys(cfg)[i] == cfg[i].0;
      }
    }
  }

  function Quoted(s: string): string
  {
    "'" + s + "'"
  }

  /** One character as Python's `repr` of a string writes it inside quote
      character `q`. */
  function EscapeChar(c: char, q: char): (r: string)
    requires q != '\n'
    ensures r != [] && '\n' !in r
  {
    if c == '\\' then "\\\\"
    else if c == q then ['\\', q]
    else if c == '\n' then "\\n"
    else if c == '\r' then "\\r"
    else if c == '\t' then "\\t"
    else [c]
  }

  function Escape(s: string, q: char): (r: string)
    requires q != '\n'
    ensures '\n' !in r
  {
    if s == [] then [] else EscapeChar(s[0], q) + Escape(s[1..], q)
  }

  /** Reads back one escape sequence, or one plain character. */
  function Unescape(t: string, q: char): string
  {
    if t == [] then []
    else if t[0] == '\\' && |t| >= 2 then
      var c := t[1];
      [if c == 'n' then '\n' else if c == 'r' then '\r' else if c == 't' then '\t' else c] + Unescape(t[2..], q)
    else [t[0]] + Unescape(t[1..], q)
  }

  /** One escape sequence reads back as its character. */
  lemma UnescapeOne(c: char, q: char, rest: string)
    requires q == '\'' || q == '"'
    ensures Unescape(EscapeChar(c, q) + rest, q) == [c] + Unescape(rest, q)
  {
    var e := EscapeChar(c, q);
    if |e| == 2 {
      assert (e + rest)[2..] == rest;
    } else {
      assert (e + rest)[1..] == rest;
    }
  }

  /** Round trip: the escaped text reads back as the original string, so
      `repr` loses nothing of an id. */
  lemma {:induction false} UnescapeEscape(s: string, q: char)
    requires q == '\'' || q == '"'
    ensures Unescape(Escape(s, q), q) == s
  {
    if s != [] {
      UnescapeEscape(s[1..], q);
      UnescapeOne(s[0], q, Escape(s[1..], q));
      assert [s[0]] + s[1..] == s;
    }
  }

  /** Python's quote choice for `repr` of a string. */
  function QuoteFor(s: string): char
  {
    if '\'' in s && '"' !in s then '"' else '\''
  }

  /** `repr(s)` of a Python string (printable text). */
  function ReprStr(s: string): (r: string)
    ensures '\n' !in r
  {
    var q := QuoteFor(s);
    [q] + Escape(s, q) + [q]
  }

  /** Reading a string literal back: drop the quotes, undo the escapes. */
  function ReadRepr(r: string): string
  {
    if |r| < 2 then [] else Unescape(r[1..|r| - 1], r[0])
  }

  lemma ReprRoundTrip(s: string)
    ensures ReadRepr(ReprStr(s)) == s
  {
    var q := QuoteFor(s);
    var r := ReprStr(s);
    assert r[1..|r| - 1] == Escape(s, q);
    UnescapeEscape(s, q);
  }

  function JoinReprs(ids: seq<string>): (r: string)
    ensures '\n' !in r
  {
    if ids == [] then []
    else if |ids| == 1 then ReprStr(ids[0])
    else ReprStr(ids[0]) + ", " + JoinReprs(ids[1..])
  }

  /** `f"{neg_list}"`: `str` of a Python list of strings. */
  function ReprList(ids: seq<string>): (r: string)
    ensures '\n' !in r
    ensures ids == [] ==> r == "[]"
  {
    "[" + JoinReprs(ids) + "]"
  }

  /** A file-name pattern as ncov-tools reads it: the link path of a sample
      with the placeholders `{data_root}` and `{sample}` in place of the data
      directory and the sample id, in single quotes. */
  function Pattern(suffix: string): string
  {
    Quoted(LinkPath("{data_root}", "{sample}", suffix))
  }

  /** The values set_up computes before it builds the dictionary. */
  datatype Settings = Settings(
    dataRoot: Path,
    resultDir: string,
    ampliconBed: string,
    referenceGenome: string,
    primerBed: string,
    phyloIncludeSeqs: string,
    negativeControls: seq<string>,
    pangolinVersion: string)

  const ConfigKeys: seq<string> := [
    "data_root", "run_name", "amplicon_bed", "reference_genome", "platform",
    "primer_bed", "bed_type", "offset", "completeness_threshold", "bam_pattern",
    "primer_trimmed_bam_pattern", "consensus_pattern", "variants_pattern",
    "assign_lineages", "tree_include_consensus", "negative_control_samples",
    "mutation_set", "output_directory", "pangolin_version"]

  /** The values of the dictionary literal of set_up, in key order, each as
      the text `f"{value}"` writes (`0` and `0.9` are written as those
      digits). */
  function ConfigValues(s: Settings): (vs: seq<string>)
    ensures |vs| == |ConfigKeys|
  {
    [Quoted(s.dataRoot),
     Quoted(s.resultDir),
     Quoted(s.ampliconBed),
     Quoted(s.referenceGenome),
     "illumina",
     Quoted(s.primerBed),
     "unique_amplicons",
     "0",
     "0.9",
     "'{data_root}/{sample}.bam'",
     "'{data_root}/{sample}.mapped.primertrimmed.sorted.bam'",
     "'{data_root}/{sample}.consensus.fasta'",
     "'{data_root}/{sample}.variants.tsv'",
     "true",
     Quoted(s.phyloIncludeSeqs),
     ReprList(s.negativeControls),
     "spike_mutations",
     s.resultDir + "_ncovresults",
     Quoted(s.pangolinVersion)]
  }

  /** The dictionary literal of set_up. */
  function BuildConfig(s: Settings): (cfg: Config)
    ensures Keys(cfg) == ConfigKeys
  {
    var vs := ConfigValues(s);
    seq(|ConfigKeys|, i requires 0 <= i < |ConfigKeys| => (ConfigKeys[i], vs[i]))
  }

  lemma ConfigKeysDistinct()
    ensures forall i, j | 0 <= i < j < |ConfigKeys| :: ConfigKeys[i] != ConfigKeys[j]
  {
  }

  /** Index of `variants_pattern` in the fixed key order. */
  const VariantsPatternIndex := 12

  /** A pattern spelled out: the placeholders joined as a link path. */
  lemma PatternText(suffix: string)
    ensures Pattern(suffix) == "'{data_root}/{sample}" + suffix + "'"
  {
    assert "'" + ("{data_root}" + "/" + "{sample}" + suffix) + "'" ==
      ("'" + "{data_root}" + "/" + "{sample}") + suffix + "'";
  }

  // The pattern texts written in the configuration are the patterns of the
  // link suffixes.

  lemma BamPatternText()
    ensures "'{data_root}/{sample}.bam'" == Pattern(Bam)
  {
    PatternText(Bam);
  }

  lemma TrimmedBamPatternText()
    ensures "'{data_root}/{sample}.mapped.primertrimmed.sorted.bam'" == Pattern(TrimmedBam)
  {
    PatternText(TrimmedBam);
    assert "'{data_root}/{sample}.mapped.primertrimmed.sorted.bam'" ==
      "'{data_root}/{sample}" + ".mapped.primertrimmed" + ".sorted.bam" + "'";
  }

  lemma ConsensusPatternText()
    ensures "'{data_root}/{sample}.consensus.fasta'" == Pattern(ConsensusFasta)
  {
    PatternText(ConsensusFasta);
    assert "'{data_root}/{sample}.consensus.fasta'" == "'{data_root}/{sample}" + ".consensus" + ".fasta" + "'";
  }

  lemma VariantsPatternText()
    ensures "'{data_root}/{sample}.variants.tsv'" == Pattern(VariantsTsv)
    ensures "'{data_root}/{sample}.variants.vcf'" == Pattern(VariantsVcf)
  {
    PatternText(VariantsTsv);
    PatternText(VariantsVcf);
  }

  /** The configuration written for a FreeBayes run: only the variants
      pattern changes, to the `.variants.vcf` links, and it keeps its place. */
  function FreebayesConfig(s: Settings): (cfg: Config)
    ensures Keys(cfg) == ConfigKeys
    ensures cfg[VariantsPatternIndex] == ("variants_pattern", Pattern(VariantsVcf))
    ensures forall i | 0 <= i < |cfg| && i != VariantsPatternIndex :: cfg[i] == BuildConfig(s)[i]
  {
    ConfigKeysDistinct();
    VariantsPatternText();
    var base := BuildConfig(s);
    assert ConfigKeys[VariantsPatternIndex] == "variants_pattern";
    Assign(base, "variants_pattern", "'{data_root}/{sample}.variants.vcf'")
  }

  /** Every file-name pattern handed to ncov-tools names exactly the links
      that are made in the data directory. */
  lemma PatternsMatchLinks(s: Settings)
    ensures BuildConfig(s)[9] == ("bam_pattern", Pattern(Bam))
    ensures BuildConfig(s)[10] == ("primer_trimmed_bam_pattern", Pattern(TrimmedBam))
    ensures BuildConfig(s)[11] == ("consensus_pattern", Pattern(ConsensusFasta))
    ensures BuildConfig(s)[12] == ("variants_pattern", Pattern(VariantsTsv))
  {
    BamPatternText();
    TrimmedBamPatternText();
    ConsensusPatternText();
    VariantsPatternText();
  }

  /** `f"{key}: {value}\n"` */
  function ConfigLine(key: string, value: string): (line: string)
    ensures key + ": " <= line && Terminated(line)
    ensures line[|key| + 2..|line| - 1] == value
  {
    key + ": " + value + "\n"
  }

  function ConfigLines(cfg: Config): (ls: seq<string>)
    ensures |ls| == |cfg|
  {
    seq(|cfg|, i requires 0 <= i < |cfg| => ConfigLine(cfg[i].0, cfg[i].1))
  }

  /** Serialising one more entry appends its line. */
  lemma ConfigLinesSnoc(cfg: Config, i: nat)
    requires i < |cfg|
    ensures ConfigLines(cfg[..i + 1]) == ConfigLines(cfg[..i]) + [ConfigLine(cfg[i].0, cfg[i].1)]
  {
  }

  /** The text of the written file. */
  function Serialise(cfg: Config): string
  {
    Concat(ConfigLines(cfg))
  }

  predicate SingleLine(cfg: Config)
  {
    forall i | 0 <= i < |cfg| :: '\n' !in cfg[i].0 && '\n' !in cfg[i].1
  }

  /** Read back line by line, the file holds exactly one `key: value` line
      per entry, in insertion order. */
  lemma SerialiseLines(cfg: Config)
    requires SingleLine(cfg)
    ensures SplitLines(Serialise(cfg)) == ConfigLines(cfg)
  {
    var ls := ConfigLines(cfg);
    forall i | 0 <= i < |ls| ensures IsLine(ls[i]) && Terminated(ls[i]) {
      var body := cfg[i].0 + ": " + cfg[i].1;
      assert ls[i] == body + "\n";
      assert ls[i][..|ls[i]| - 1] == body;
      assert '\n' !in ": ";
      assert '\n' !in body;
    }
    SplitConcat(ls);
  }

  lemma KeysSingleLine()
    ensures forall i | 0 <= i < |ConfigKeys| :: '\n' !in ConfigKeys[i]
  {
    forall i | 0 <= i < |ConfigKeys| ensures '\n' !in ConfigKeys[i] {
      if i < 5 {} else if i < 10 {} else if i < 15 {} else {}
    }
  }

  lemma LiteralValuesSingleLine()
    ensures '\n' !in "illumina" && '\n' !in "unique_amplicons" && '\n' !in "0" && '\n' !in "0.9"
    ensures '\n' !in "'{data_root}/{sample}.bam'"
    ensures '\n' !in "'{data_root}/{sample}.mapped.primertrimmed.sorted.bam'"
    ensures '\n' !in "'{data_root}/{sample}.consensus.fasta'"
    ensures '\n' !in "'{data_root}/{sample}.variants.tsv'"
    ensures '\n' !in "true" && '\n' !in "spike_mutations" && '\n' !in "_ncovresults"
  {
    TrimmedBamPatternSingleLine();
    ConsensusPatternSingleLine();
  }

  lemma TrimmedBamPatternSingleLine()
    ensures '\n' !in "'{data_root}/{sample}.mapped.primertrimmed.sorted.bam'"
  {
    PatternText(TrimmedBam);
    TrimmedBamPatternText();
    assert '\n' !in TrimmedBam by {
      assert TrimmedBam == ".mapped" + ".primertrimmed" + ".sorted" + ".bam";
    }
  }

  lemma ConsensusPatternSingleLine()
    ensures '\n' !in "'{data_root}/{sample}.consensus.fasta'"
  {
    assert "'{data_root}/{sample}.consensus.fasta'" == "'{data_root}/{sample}" + ".consensus" + ".fasta" + "'";
  }

  /** No text given to set_up holds a line break (the negative-control list
      is written through `repr`, which escapes them). */
  predicate SettingsSingleLine(s: Settings)
  {
    '\n' !in s.dataRoot && '\n' !in s.resultDir && '\n' !in s.ampliconBed &&
    '\n' !in s.referenceGenome && '\n' !in s.primerBed &&
    '\n' !in s.phyloIncludeSeqs && '\n' !in s.pangolinVersion
  }

  lemma ValuesSingleLine(s: Settings)
    requires SettingsSingleLine(s)
    ensures forall i | 0 <= i < |ConfigKeys| :: '\n' !in ConfigValues(s)[i]
  {
    LiteralValuesSingleLine();
    var vs := ConfigValues(s);
    forall i | 0 <= i < |vs| ensures '\n' !in vs[i] {
      if i < 5 {} else if i < 10 {} else if i < 15 {} else {}
    }
  }

  /** When the given settings carry no line breaks, every entry of the built
      configuration (the FreeBayes one too) fits on its line. */
  lemma BuiltConfigSingleLine(s: Settings)
    requires SettingsSingleLine(s)
    ensures SingleLine(BuildConfig(s))
    ensures SingleLine(FreebayesConfig(s))
  {
    KeysSingleLine();
    ValuesSingleLine(s);
    var fb := FreebayesConfig(s);
    assert '\n' !in fb[VariantsPatternIndex].1;
  }
}
