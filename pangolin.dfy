/** The pangolin major-version rule of scripts/ncov-tools.py: the configured
    version is cut at its first `.`, lower-cased and stripped of `v` at both
    ends; only `"3"` and `"4"` are used as they are, any other value is
    replaced by the same normalisation of the latest release URL's last path
    component. The URL is fetched from the network; here it is an input. */
module Pangolin {
  import opened Text

  predicate IsUpper(c: char)
  {
    'A' <= c <= 'Z'
  }

  /** `str.lower()` on ASCII letters. */
  function Lower(s: string): (r: string)
    ensures |r| == |s|
    ensures forall i | 0 <= i < |s| :: !IsUpper(r[i])
    ensures forall i | 0 <= i < |s| :: (s[i] == '.') == (r[i] == '.')
    ensures forall i | 0 <= i < |s| && !IsUpper(s[i]) :: r[i] == s[i]
    ensures forall i | 0 <= i < |s| && IsUpper(s[i]) :: r[i] as int == s[i] as int + 32
  {
    seq(|s|, i requires 0 <= i < |s| =>
      if IsUpper(s[i]) then (s[i] as int - 'A' as int + 'a' as int) as char else s[i])
  }

  /** `s.lstrip(c)` */
  function TrimStart(s: string, c: char): (r: string)
    ensures |r| <= |s| && r == s[|s| - |r|..]
    ensures r == [] || r[0] != c
  {
    if s != [] && s[0] == c then TrimStart(s[1..], c) else s
  }

  /** `s.rstrip(c)` */
  function TrimEnd(s: string, c: char): (r: string)
    ensures |r| <= |s| && r == s[..|r|]
    ensures r == [] || r[|r| - 1] != c
  {
    if s != [] && s[|s| - 1] == c then TrimEnd(s[..|s| - 1], c) else s
  }

  /** `lstrip` removes nothing but `c`. */
  lemma {:induction false} TrimStartRemovesOnly(s: string, c: char)
    ensures forall i | 0 <= i < |s| - |TrimStart(s, c)| :: s[i] == c
  {
    if s != [] && s[0] == c {
      TrimStartRemovesOnly(s[1..], c);
      forall i | 1 <= i < |s| - |TrimStart(s, c)| ensures s[i] == c {
        assert s[1..][i - 1] == s[i];
      }
    }
  }

  /** `rstrip` removes nothing but `c`. */
  lemma {:induction false} TrimEndRemovesOnly(s: string, c: char)
    ensures forall i | |TrimEnd(s, c)| <= i < |s| :: s[i] == c
  {
    if s != [] && s[|s| - 1] == c {
      TrimEndRemovesOnly(s[..|s| - 1], c);
      forall i | |TrimEnd(s, c)| <= i < |s| - 1 ensures s[i] == c {
        assert s[..|s| - 1][i] == s[i];
      }
    }
  }

  /** No dot and no upper-case letter. */
  predicate PlainChars(s: string)
  {
    forall i | 0 <= i < |s| :: s[i] != '.' && !IsUpper(s[i])
  }

  lemma LowerPlain(field: string)
    requires '.' !in field
    ensures PlainChars(Lower(field))
  {
    forall i | 0 <= i < |field| ensures field[i] != '.' {
      assert field[i] in field;
    }
  }

  lemma PlainSlice(s: string, lo: nat, hi: nat)
    requires PlainChars(s) && lo <= hi <= |s|
    ensures PlainChars(s[lo..hi])
  {
    forall i | 0 <= i < hi - lo ensures s[lo..hi][i] == s[lo + i] {
    }
  }

  lemma TrimPlain(s: string)
    requires PlainChars(s)
    ensures PlainChars(TrimEnd(TrimStart(s, 'v'), 'v'))
  {
    var t := TrimStart(s, 'v');
    PlainSlice(s, |s| - |t|, |s|);
    assert s[|s| - |t|..|s|] == t;
    var r := TrimEnd(t, 'v');
    PlainSlice(t, 0, |r|);
    assert t[0..|r|] == r;
  }

  lemma PlainHasNoDot(s: string)
    requires PlainChars(s)
    ensures '.' !in s
  {
  }

  /** `str(v).split(".")[0].lower().strip("v")` */
  function Normalise(version: string): (r: string)
    ensures '.' !in r
    ensures forall i | 0 <= i < |r| :: !IsUpper(r[i])
    ensures r == [] || (r[0] != 'v' && r[|r| - 1] != 'v')
  {
    var field := FirstField(version, '.');
    LowerPlain(field);
    var major := Lower(field);
    TrimPlain(major);
    var r := TrimEnd(TrimStart(major, 'v'), 'v');
    PlainHasNoDot(r);
    r
  }

  /** The versions ncov-tools supports directly. */
  predicate Supported(v: string)
  {
    v == "3" || v == "4"
  }

  /** The version written to the configuration: the normalised requested
      version when it is supported, otherwise the normalised last path
      component of the latest release URL. */
  function ResolveVersion(requested: string, latestReleaseUrl: string): (r: string)
    ensures '.' !in r && (r == [] || (r[0] != 'v' && r[|r| - 1] != 'v'))
    ensures Supported(Normalise(requested)) ==> r == Normalise(requested)
  {
    var v := Normalise(requested);
    if Supported(v) then v else Normalise(LastField(latestReleaseUrl, '/'))
  }

  /** A version whose part before the first `.` is its first `k`
      characters. */
  lemma NormaliseOf(version: string, k: nat)
    requires k <= |version| && '.' !in version[..k]
    requires k == |version| || version[k] == '.'
    ensures Normalise(version) == TrimEnd(TrimStart(Lower(version[..k]), 'v'), 'v')
  {
    if k == |version| {
      assert version[..k] == version;
      FirstFieldOfSplit(version, '.', []);
    } else {
      assert version == version[..k] + ['.'] + version[k + 1..];
      FirstFieldOfSplit(version[..k], '.', version[k + 1..]);
    }
  }

  lemma TrimDigit(d: char)
    requires d != 'v'
    ensures TrimEnd(TrimStart([d], 'v'), 'v') == [d]
    ensures TrimEnd(TrimStart(['v', d], 'v'), 'v') == [d]
  {
    var one := [d];
    assert TrimStart(one, 'v') == one;
    assert TrimEnd(one, 'v') == one;
    var two := ['v', d];
    assert two[1..] == one;
    assert TrimStart(two, 'v') == TrimStart(one, 'v');
  }

  lemma LowerDigit(c: char, d: char)
    requires c == 'v' || c == 'V'
    requires !IsUpper(d)
    ensures Lower([d]) == [d]
    ensures Lower([c, d]) == ['v', d]
  {
  }

  /** A one-character major version `d` after a `v` or `V`. */
  lemma NormalisePrefixedDigit(version: string, d: char)
    requires |version| >= 2 && (version[0] == 'v' || version[0] == 'V') && version[1] == d
    requires |version| == 2 || version[2] == '.'
    requires d != 'v' && d != '.' && !IsUpper(d)
    ensures Normalise(version) == [d]
  {
    assert version[..2] == [version[0], d];
    NormaliseOf(version, 2);
    LowerDigit(version[0], d);
    TrimDigit(d);
  }

  /** A one-character major version `d` with no prefix. */
  lemma NormalisePlainDigit(version: string, d: char)
    requires |version| >= 1 && version[0] == d
    requires |version| == 1 || version[1] == '.'
    requires d != 'v' && d != '.' && !IsUpper(d)
    ensures Normalise(version) == [d]
  {
    assert version[..1] == [d];
    NormaliseOf(version, 1);
    LowerDigit('v', d);
    TrimDigit(d);
  }

  lemma NormaliseExamples()
    ensures Normalise("v4.1.2") == "4"
    ensures Normalise("V4") == "4"
    ensures Normalise("3.1.20") == "3"
  {
    NormalisePrefixedDigit("v4.1.2", '4');
    NormalisePrefixedDigit("V4", '4');
    NormalisePlainDigit("3.1.20", '3');
  }

  /** A supported requested version never consults the release URL. */
  lemma SupportedIgnoresUrl(requested: string, url1: string, url2: string)
    requires Supported(Normalise(requested))
    ensures ResolveVersion(requested, url1) == ResolveVersion(requested, url2)
  {
  }

  /** Any other requested version is decided by the release URL alone. */
  lemma UnsupportedFollowsUrl(requested: string, url: string, tag: string)
    requires !Supported(Normalise(requested))
    requires '/' !in tag
    ensures ResolveVersion(requested, url + "/" + tag) == Normalise(tag)
  {
    LastFieldOfSplit(url, '/', tag);
  }

  lemma NormaliseFallbackExamples()
    ensures Normalise("2.1") == "2"
    ensures Normalise("v5.0.1") == "5"
  {
    NormalisePlainDigit("2.1", '2');
    NormalisePrefixedDigit("v5.0.1", '5');
  }

  /** So the fallback can yield a value that is not supported either: a
      requested `2.1` with a latest release tagged `v5.0.1` gives `5`. */
  lemma FallbackNeedNotBeSupported(requested: string, url: string, tag: string)
    requires requested == "2.1" && tag == "v5.0.1"
    ensures ResolveVersion(requested, url + "/" + tag) == "5"
  {
    NoSlashInTag(tag);
    NormalisePlainDigit(requested, '2');
    NormalisePrefixedDigit(tag, '5');
    assert !Supported(['2']) by {
      assert "3"[0] == '3' && "4"[0] == '4';
    }
    UnsupportedFollowsUrl(requested, url, tag);
  }

  lemma NoSlashInTag(tag: string)
    requires tag == "v5.0.1"
    ensures '/' !in tag
  {
    assert |tag| == 6;
    forall i | 0 <= i < |tag| ensures tag[i] != '/' {
      if i < 3 {
        assert i == 0 || i == 1 || i == 2;
      } else {
        assert i == 3 || i == 4 || i == 5;
      }
    }
  }
}
