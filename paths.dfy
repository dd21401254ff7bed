/** Filesystem paths and the relative-path computation the collector relies on.

    A path is the sequence of its components from the filesystem root, so
    `/repo/src/Foo.java` is `["repo", "src", "Foo.java"]`.  A relative path is
    rendered as its components joined with `/`, the separator used both by the
    path resolver and (on the platforms this model fixes) by `File.separator`. */
module Paths {

  type Path = seq<string>

  const SeparatorChar: char := '/'
  const Separator: string := [SeparatorChar]

  /** A component never contains the separator. */
  predicate NoSeparator(c: string) {
    forall i :: 0 <= i < |c| ==> c[i] != SeparatorChar
  }

  /** Every component is non-empty and free of the separator. */
  predicate WellFormed(p: Path) {
    forall i :: 0 <= i < |p| ==> |p[i]| > 0 && NoSeparator(p[i])
  }

  /** The components joined with the separator; `[]` joins to "". */
  function Join(cs: seq<string>): string
  {
    if |cs| == 0 then ""
    else if |cs| == 1 then cs[0]
    else cs[0] + Separator + Join(cs[1..])
  }

  /** The pieces of `s` between separators; always at least one piece. */
  function Split(s: string): (cs: seq<string>)
    ensures |cs| >= 1
  {
    if s == [] then [""]
    else if s[0] == SeparatorChar then [""] + Split(s[1..])
    else
      var rest := Split(s[1..]);
      [[s[0]] + rest[0]] + rest[1..]
  }

  lemma {:induction false} SplitComponent(c: string)
    requires NoSeparator(c)
    ensures Split(c) == [c]
  {
    if c != [] {
      SplitComponent(c[1..]);
      assert [c[0]] + c[1..] == c;
    }
  }

  lemma {:induction false} SplitCons(c: string, rest: string)
    requires NoSeparator(c)
    ensures Split(c + Separator + rest) == [c] + Split(rest)
  {
    var s := c + Separator + rest;
    if c == [] {
      assert s[1..] == rest;
    } else {
      SplitCons(c[1..], rest);
      assert s[1..] == c[1..] + Separator + rest;
      assert [c[0]] + c[1..] == c;
    }
  }

  /** Splitting a joined, non-empty list of components gives it back. */
  lemma {:induction false} SplitJoin(cs: seq<string>)
    requires |cs| >= 1 && WellFormed(cs)
    ensures Split(Join(cs)) == cs
  {
    if |cs| == 1 {
      SplitComponent(cs[0]);
    } else {
      assert WellFormed(cs[1..]);
      SplitJoin(cs[1..]);
      SplitCons(cs[0], Join(cs[1..]));
    }
  }

  /** Path of `file` relative to `dir`, for a file at or below `dir`: the
      components that follow the directory's, joined with the separator.  For
      a well-formed file it is empty exactly for the directory itself. */
  function RelativePath(dir: Path, file: Path): (r: string)
    requires dir <= file
    ensures WellFormed(file) ==> (r == "" <==> |file| == |dir|)
    ensures r == "" <==> (|file| == |dir| || (|file| == |dir| + 1 && file[|dir|] == ""))
  {
    Join(file[|dir|..])
  }

  /** Resolving a relative path against its directory gives the file back. */
  lemma RelativePathRoundTrip(dir: Path, file: Path)
    requires dir <= file && |dir| < |file| && WellFormed(file)
    ensures dir + Split(RelativePath(dir, file)) == file
  {
    var suffix := file[|dir|..];
    assert WellFormed(suffix);
    SplitJoin(suffix);
    assert dir + suffix == file;
  }

  /** `/repo` and `/repo/src/Foo.java` give `src/Foo.java`. */
  lemma RelativePathExample()
    ensures RelativePath(["repo"], ["repo", "src", "Foo.java"]) == "src/Foo.java"
  {
    var file: Path := ["repo", "src", "Foo.java"];
    assert file[1..] == ["src", "Foo.java"];
    assert Join(["Foo.java"]) == "Foo.java";
  }
}
