/** The part of the filesystem that scripts/ncov-tools.py touches, as a map
    from existing file paths to their text, plus the record of every hard
    link made (link path to the path it was linked from). Operations that
    Python would abort with an exception report a `Failure`; the state they
    leave is the state at the moment of the exception. */
module FileStore {
  import opened Text
  import opened Paths
  import opened Fasta

  datatype Option<T> = None | Some(value: T)

  /** The exceptions the modelled code can raise: `FileNotFoundError`,
      `FileExistsError`, and the `NameError` of the undefined `replace` in
      set_up. */
  datatype Failure = NotFound(path: Path) | AlreadyExists(path: Path) | UndefinedReplace

  datatype Snapshot = Snapshot(files: map<Path, string>, links: map<Path, Path>)

  /** The state after an operation, and the exception that ended it, if any. */
  datatype Run = Run(snap: Snapshot, failure: Option<Failure>)

  function Ok(s: Snapshot): Run
  {
    Run(s, None)
  }

  function Fail(s: Snapshot, f: Failure): Run
  {
    Run(s, Some(f))
  }

  /** Every recorded link path still exists (it may have been rewritten
      since). */
  predicate Consistent(s: Snapshot)
  {
    forall p | p in s.links :: p in s.files
  }

  /** `t` keeps every file of `s` (possibly with new text) and every link
      record of `s` unchanged. */
  predicate Keeps(s: Snapshot, t: Snapshot)
  {
    (forall p | p in s.files :: p in t.files) &&
    (forall p | p in s.links :: p in t.links && t.links[p] == s.links[p])
  }

  /** Every path that is new in `t` lies inside `root`. */
  predicate AddsOnlyUnder(s: Snapshot, t: Snapshot, root: Path)
  {
    forall p | p in t.files && p !in s.files :: Under(p, root)
  }

  /** Files outside `root` have the same text in `t` as in `s`. */
  predicate SameOutside(s: Snapshot, t: Snapshot, root: Path)
  {
    forall p | p in s.files && !Under(p, root) :: p in t.files && t.files[p] == s.files[p]
  }

  lemma KeepsTrans(s: Snapshot, t: Snapshot, u: Snapshot)
    requires Keeps(s, t) && Keeps(t, u)
    ensures Keeps(s, u)
  {
  }

  /** `os.link(src, dst)`: the source must exist (checked first) and the
      target must not; the new path has the source's text. */
  function LinkSpec(s: Snapshot, src: Path, dst: Path): (r: Run)
    ensures r.failure.None? <==> src in s.files && dst !in s.files
    ensures src !in s.files ==> r.failure == Some(NotFound(src))
    ensures src in s.files && dst in s.files ==> r.failure == Some(AlreadyExists(dst))
    ensures r.failure.Some? ==> r.snap == s
    ensures r.failure.None? ==>
      r.snap.files.Keys == s.files.Keys + {dst} && r.snap.files[dst] == s.files[src] &&
      r.snap.links.Keys == s.links.Keys + {dst} && r.snap.links[dst] == src
    ensures Consistent(s) ==> Consistent(r.snap) && Keeps(s, r.snap)
    ensures forall p | p in s.files :: r.snap.files[p] == s.files[p]
  {
    if src !in s.files then Fail(s, NotFound(src))
    else if dst in s.files then Fail(s, AlreadyExists(dst))
    else Ok(Snapshot(s.files[dst := s.files[src]], s.links[dst := src]))
  }

  /** `fileinput.input(path, inplace=True)` with the header-rewriting loop
      body: the file is replaced by a new one holding the printed text (a
      hard link to it is thereby broken, so its source keeps its text). */
  function RewriteSpec(s: Snapshot, path: Path, sample: string): (r: Run)
    ensures r.failure.None? <==> path in s.files
    ensures r.failure.Some? ==> r == Fail(s, NotFound(path))
    ensures r.failure.None? ==>
      r.snap.files == s.files[path := RewriteText(s.files[path], sample)] && r.snap.links == s.links
    ensures Keeps(s, r.snap)
    ensures Consistent(s) ==> Consistent(r.snap)
  {
    if path !in s.files then Fail(s, NotFound(path))
    else Ok(Snapshot(s.files[path := RewriteText(s.files[path], sample)], s.links))
  }

  /** `shutil.rmtree(root)` followed by `os.mkdir(root)`: nothing is left
      inside `root`, everything outside stays. */
  function ClearSpec(s: Snapshot, root: Path): (t: Snapshot)
    ensures forall p :: p in t.files <==> p in s.files && !Under(p, root)
    ensures forall p :: p in t.links <==> p in s.links && !Under(p, root)
    ensures SameOutside(s, t, root)
    ensures forall p | p in t.links :: t.links[p] == s.links[p]
    ensures Consistent(s) ==> Consistent(t)
  {
    Snapshot(
      map p | p in s.files && !Under(p, root) :: s.files[p],
      map p | p in s.links && !Under(p, root) :: s.links[p])
  }

  /** `open(path, 'w')` followed by writing `text`. */
  function WriteSpec(s: Snapshot, path: Path, text: string): (t: Snapshot)
    ensures t.files.Keys == s.files.Keys + {path} && t.files[path] == text
    ensures forall p | p in s.files && p != path :: t.files[p] == s.files[p]
    ensures t.links == s.links
    ensures Keeps(s, t)
    ensures Consistent(s) ==> Consistent(t)
  {
    Snapshot(s.files[path := text], s.links)
  }

  /** The printing loop of the header rewrite: one chunk per input line,
      in order. */
  method RenderRewrite(text: string, sample: string) returns (out: string)
    ensures out == RewriteText(text, sample)
  {
    var lines := SplitLines(text);
    out := "";
    var i := 0;
    while i < |lines|
      invariant 0 <= i <= |lines|
      invariant out == Concat(RewriteLines(lines[..i], sample))
    {
      RewriteLinesSnoc(lines, i, sample);
      ConcatAppend(RewriteLines(lines[..i], sample), RewriteLine(lines[i], sample));
      out := out + RewriteLine(lines[i], sample);
      i := i + 1;
    }
    TakeAll(lines);
  }

  /** A second write to the same path overrides the first. */
  lemma WriteTwice(s: Snapshot, path: Path, first: string, second: string)
    ensures WriteSpec(WriteSpec(s, path, first), path, second) == WriteSpec(s, path, second)
  {
    assert s.files[path := first][path := second] == s.files[path := second];
  }

  /** The filesystem as the script sees it while it runs. */
  class Disk {
    var files: map<Path, string>
    var links: map<Path, Path>

    function View(): Snapshot
      reads this
    {
      Snapshot(files, links)
    }

    constructor (s: Snapshot)
      ensures View() == s
    {
      files := s.files;
      links := s.links;
    }

    /** `os.path.exists(p)` */
    function Exists(p: Path): (b: bool)
      reads this
      ensures b <==> p in View().files
    {
      p in files
    }

    method Link(src: Path, dst: Path) returns (failure: Option<Failure>)
      modifies this
      ensures Run(View(), failure) == LinkSpec(old(View()), src, dst)
    {
      if src !in files {
        return Some(NotFound(src));
      }
      if dst in files {
        return Some(AlreadyExists(dst));
      }
      files := files[dst := files[src]];
      links := links[dst := src];
      failure := None;
    }

    /** The in-place header rewrite: the new text replaces the file. */
    method RewriteHeaders(path: Path, sample: string) returns (failure: Option<Failure>)
      modifies this
      ensures Run(View(), failure) == RewriteSpec(old(View()), path, sample)
    {
      if path !in files {
        return Some(NotFound(path));
      }
      var out := RenderRewrite(files[path], sample);
      files := files[path := out];
      failure := None;
    }

    method Clear(root: Path)
      modifies this
      ensures View() == ClearSpec(old(View()), root)
    {
      files := map p | p in files && !Under(p, root) :: files[p];
      links := map p | p in links && !Under(p, root) :: links[p];
    }

    /** `open(path, 'w')`: the file exists and is empty. */
    method Create(path: Path)
      modifies this
      ensures View() == WriteSpec(old(View()), path, "")
    {
      files := files[path := ""];
    }

    /** `fh.write(text)` on a file opened for writing. */
    method Append(path: Path, text: string)
      requires path in files
      modifies this
      ensures View() == WriteSpec(old(View()), path, old(files[path]) + text)
    {
      files := files[path := files[path] + text];
    }

    /** `open(path).read()`: the text of an existing file. */
    method Read(path: Path) returns (text: string, failure: Option<Failure>)
      ensures failure.None? <==> path in View().files
      ensures failure.None? ==> text == View().files[path]
      ensures failure.Some? ==> failure == Some(NotFound(path))
    {
      if path !in files {
        return "", Some(NotFound(path));
      }
      text := files[path];
      failure := None;
    }
  }
}
