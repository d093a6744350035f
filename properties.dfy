/**
 * What the generator promises, stated against reference definitions that do
 * not mention how the result is computed, and proved about the model.
 */
module Properties {
  import opened Types
  import opened Generator

  // ---------------------------------------------------------------------
  // Output placement
  // ---------------------------------------------------------------------

  /** One path component: non-empty, not `.` or `..`, and free of `/`. */
  ghost predicate Segment(s: string)
  {
    |s| > 0 && s != "." && s != ".." && '/' !in s
  }

  /** A relative directory: one or more segments joined by `/`, so no empty, `.` or `..` component. */
  ghost predicate RelativeDir(d: string)
    decreases |d|
  {
    || Segment(d)
    || exists i :: 0 < i < |d| - 1 && d[i] == '/' && Segment(d[..i]) && RelativeDir(d[i + 1..])
  }

  /**
   * The join keeps well-formed segments apart: for a relative directory and a
   * file name without `/`, different pairs give different paths. Normalising
   * joins such as `path.resolve` collapse only inputs outside this domain
   * (`"pkg/."` is not a relative directory, see `DotComponentIsNotRelativeDir`).
   */
  ghost predicate JoinInjectiveOnSegments(join: (string, string, string) -> string)
  {
    forall root, dir1, file1, dir2, file2 ::
      RelativeDir(dir1) && RelativeDir(dir2) && Segment(file1) && Segment(file2)
      && join(root, dir1, file1) == join(root, dir2, file2)
      ==> dir1 == dir2 && file1 == file2
  }

  /** The root followed by exactly one separator: `/` is added only when the root does not end in one. */
  function RootPrefix(root: string): (r: string)
    ensures |r| == |root| || |r| == |root| + 1
    ensures r[..|root|] == root && |r| > 0 && r[|r| - 1] == '/'
  {
    if |root| > 0 && root[|root| - 1] == '/' then root else root + "/"
  }

  /** What `path.resolve` yields for an absolute, normalised root (with or without a trailing `/`, `/` included) and well-formed segments. */
  function SlashJoin(root: string, dir: string, file: string): (r: string)
    ensures |r| == |RootPrefix(root)| + |dir| + 1 + |file|
    ensures r[..|RootPrefix(root)|] == RootPrefix(root)
    ensures r[|RootPrefix(root)|..] == dir + "/" + file
  {
    RootPrefix(root) + dir + "/" + file
  }

  /** The join places one separator after the root, whether or not the root ends in `/`. */
  lemma SlashJoinExamples()
    ensures SlashJoin("/out", "pkg", Filename("a")) == "/out/pkg/a.ts"
    ensures SlashJoin("/out/", "pkg", Filename("a")) == "/out/pkg/a.ts"
    ensures SlashJoin("/", "pkg", Filename("a")) == "/pkg/a.ts"
  {
  }

  /** The collision of a normalising join lies outside the domain of the hypothesis. */
  lemma DotComponentIsNotRelativeDir()
    ensures !RelativeDir("pkg/.")
  {
    assert !Segment(".");
    assert !RelativeDir(".");
    assert !Segment("pkg/.") by { assert "pkg/."[3] == '/'; }
    forall i | 0 < i < |"pkg/."| - 1 && "pkg/."[i] == '/'
      ensures !(Segment("pkg/."[..i]) && RelativeDir("pkg/."[i + 1..]))
    {
      assert i == 3;
      assert "pkg/."[i + 1..] == ".";
    }
  }

  /** A path whose last component has no `/` splits at its last `/` in one way only. */
  lemma {:induction false} SplitAtLastSlash(dir1: string, file1: string, dir2: string, file2: string)
    requires '/' !in file1 && '/' !in file2
    requires dir1 + "/" + file1 == dir2 + "/" + file2
    ensures dir1 == dir2 && file1 == file2
  {
    var s := dir1 + "/" + file1;
    assert s == dir2 + "/" + file2;
    assert s[|dir1|] == '/' && s[|dir2|] == '/';
    assert forall i :: |dir1| < i < |s| ==> s[i] == file1[i - |dir1| - 1];
    assert forall i :: |dir2| < i < |s| ==> s[i] == file2[i - |dir2| - 1];
    assert |dir1| == |dir2|;
    assert dir1 == s[..|dir1|];
    assert file1 == s[|dir1| + 1..];
  }

  /** The hypothesis is met by the join `path.resolve` performs on well-formed input. */
  lemma SlashJoinInjectiveOnSegments()
    ensures JoinInjectiveOnSegments(SlashJoin)
  {
    forall root, dir1, file1, dir2, file2 |
      RelativeDir(dir1) && RelativeDir(dir2) && Segment(file1) && Segment(file2)
      && SlashJoin(root, dir1, file1) == SlashJoin(root, dir2, file2)
      ensures dir1 == dir2 && file1 == file2
    {
      var n := |RootPrefix(root)|;
      assert SlashJoin(root, dir1, file1)[n..] == dir1 + "/" + file1;
      assert SlashJoin(root, dir2, file2)[n..] == dir2 + "/" + file2;
      SplitAtLastSlash(dir1, file1, dir2, file2);
    }
  }

  /** Two files with the same namespace path and name are placed at the same output path. */
  lemma OutPathDeterministic(c: Collaborators, outDir: string, f1: ResolvedFile, f2: ResolvedFile)
    requires f1.namespace.path == f2.namespace.path && f1.name == f2.name
    ensures OutPathForFile(c, outDir, f1) == OutPathForFile(c, outDir, f2)
  {
  }

  /** Appending `.ts` loses nothing: the name is recovered from the file name. */
  lemma FilenameInjective(name1: string, name2: string)
    ensures Filename(name1) == Filename(name2) <==> name1 == name2
  {
  }

  /** A name without `/` gives a file name that is a single path component. */
  lemma FilenameIsSegment(name: string)
    requires '/' !in name
    ensures Segment(Filename(name))
  {
    var r := Filename(name);
    assert r[|r| - 1] == 's';
    forall i | 0 <= i < |r|
      ensures r[i] != '/'
    {
      if i < |name| {
        assert r[i] == name[i];
      } else {
        assert r[i] == ".ts"[i - |name|];
      }
    }
  }

  /**
   * For files whose namespace path is a relative directory and whose name has
   * no `/`, and a join that keeps such segments apart, two files share an
   * output path if and only if they have the same namespace path and name.
   */
  lemma OutPathInjective(c: Collaborators, outDir: string, f1: ResolvedFile, f2: ResolvedFile)
    requires JoinInjectiveOnSegments(c.resolve)
    requires RelativeDir(f1.namespace.path) && RelativeDir(f2.namespace.path)
    requires '/' !in f1.name && '/' !in f2.name
    ensures OutPathForFile(c, outDir, f1) == OutPathForFile(c, outDir, f2)
            <==> f1.namespace.path == f2.namespace.path && f1.name == f2.name
  {
    FilenameIsSegment(f1.name);
    FilenameIsSegment(f2.name);
    if OutPathForFile(c, outDir, f1) == OutPathForFile(c, outDir, f2) {
      FilenameInjective(f1.name, f2.name);
    }
  }

  // ---------------------------------------------------------------------
  // Statement order
  // ---------------------------------------------------------------------

  /** The statements of `r` are the runtime import, then the include imports, then the rendered body. */
  ghost predicate StatementsInOrder(c: Collaborators, f: ResolvedFile, r: RenderedFile)
  {
    var imports := c.importsForIncludes(r.outPath, r.includes, f.includes);
    var body := c.render(f.body, f.identifiers);
    && |r.statements| == 1 + |imports| + |body|
    && r.statements[0] == c.thriftImports
    && r.statements[1..1 + |imports|] == imports
    && r.statements[1 + |imports|..] == body
  }

  /** The import helper yields exactly one import per include-map entry. */
  ghost predicate OneImportPerInclude(c: Collaborators)
  {
    forall outPath, rendered, includes :: |c.importsForIncludes(outPath, rendered, includes)| == |includes|
  }

  /** With one import per include, a file has 1 + (number of includes) + (body statements) statements. */
  lemma StatementCount(c: Collaborators, outDir: string, f: ResolvedFile)
    requires OneImportPerInclude(c)
    ensures |CreateRenderedFile(c, outDir, f).statements| == 1 + |f.includes| + |c.render(f.body, f.identifiers)|
  {
  }

  // ---------------------------------------------------------------------
  // The rendered tree, characterised
  // ---------------------------------------------------------------------

  /**
   * `r` is a rendering of `f`: at every level of the include tree the echoed
   * fields are copied, the output path is the placement of the file, the
   * statements are in order, and the aliases are exactly the source's.
   */
  ghost predicate IsRenderingOf(c: Collaborators, outDir: string, f: ResolvedFile, r: RenderedFile)
    decreases f
  {
    && Echoes(f, r)
    && r.outPath == OutPathForFile(c, outDir, f)
    && StatementsInOrder(c, f, r)
    && r.includes.Keys == f.includes.Keys
    && forall k :: k in f.includes ==> IsRenderingOf(c, outDir, f.includes[k].file, r.includes[k])
  }

  /** A list of statements split into its three sections is that list. */
  lemma SectionsJoin(s: seq<Statement>, head: Statement, imports: seq<Statement>, body: seq<Statement>)
    requires |s| == 1 + |imports| + |body|
    requires s[0] == head && s[1..1 + |imports|] == imports && s[1 + |imports|..] == body
    ensures s == [head] + imports + body
  {
  }

  /** The generator's output is a rendering of its input. */
  lemma {:induction false} CreateRenderedFileIsRendering(c: Collaborators, outDir: string, f: ResolvedFile)
    ensures IsRenderingOf(c, outDir, f, CreateRenderedFile(c, outDir, f))
    decreases f
  {
    var r := CreateRenderedFile(c, outDir, f);
    forall k | k in f.includes
      ensures IsRenderingOf(c, outDir, f.includes[k].file, r.includes[k])
    {
      CreateRenderedFileIsRendering(c, outDir, f.includes[k].file);
      IncludeRendered(c, outDir, f, k);
    }
  }

  /** A file that meets the top level of the description and has the generator's includes is the generator's result. */
  lemma SameIncludesSameRendering(c: Collaborators, outDir: string, f: ResolvedFile, r: RenderedFile)
    requires Echoes(f, r) && r.outPath == OutPathForFile(c, outDir, f) && StatementsInOrder(c, f, r)
    requires r.includes == CreateRenderedFile(c, outDir, f).includes
    ensures r == CreateRenderedFile(c, outDir, f)
  {
    var g := CreateRenderedFile(c, outDir, f);
    var imports := c.importsForIncludes(r.outPath, r.includes, f.includes);
    var body := c.render(f.body, f.identifiers);
    SectionsJoin(r.statements, c.thriftImports, imports, body);
    assert r.statements == g.statements;
  }

  /** A rendering of `f` is unique: it is the generator's output. */
  lemma {:induction false} RenderingIsUnique(c: Collaborators, outDir: string, f: ResolvedFile, r: RenderedFile)
    requires IsRenderingOf(c, outDir, f, r)
    ensures r == CreateRenderedFile(c, outDir, f)
    decreases f
  {
    var g := CreateRenderedFile(c, outDir, f);
    forall k | k in f.includes
      ensures r.includes[k] == g.includes[k]
    {
      RenderingIsUnique(c, outDir, f.includes[k].file, r.includes[k]);
      IncludeRendered(c, outDir, f, k);
    }
    assert r.includes == g.includes;
    SameIncludesSameRendering(c, outDir, f, r);
  }

  /** The rendered file is exactly the one value that renders `f`. */
  lemma RenderingCharacterized(c: Collaborators, outDir: string, f: ResolvedFile, r: RenderedFile)
    ensures IsRenderingOf(c, outDir, f, r) <==> r == CreateRenderedFile(c, outDir, f)
  {
    if IsRenderingOf(c, outDir, f, r) {
      RenderingIsUnique(c, outDir, f, r);
    } else {
      CreateRenderedFileIsRendering(c, outDir, f);
    }
  }

  // ---------------------------------------------------------------------
  // Include paths: the rendered tree mirrors the include tree
  // ---------------------------------------------------------------------

  /** `aliases` leads from `f` down its include tree, one alias per level. */
  ghost predicate ResolvedHasPath(f: ResolvedFile, aliases: seq<string>)
    decreases aliases
  {
    aliases == [] || (aliases[0] in f.includes && ResolvedHasPath(f.includes[aliases[0]].file, aliases[1..]))
  }

  /** The file reached from `f` along `aliases`. */
  ghost function ResolvedAt(f: ResolvedFile, aliases: seq<string>): ResolvedFile
    requires ResolvedHasPath(f, aliases)
    decreases aliases
  {
    if aliases == [] then f else ResolvedAt(f.includes[aliases[0]].file, aliases[1..])
  }

  /** `aliases` leads from `r` down its rendered include tree. */
  ghost predicate RenderedHasPath(r: RenderedFile, aliases: seq<string>)
    decreases aliases
  {
    aliases == [] || (aliases[0] in r.includes && RenderedHasPath(r.includes[aliases[0]], aliases[1..]))
  }

  /** The rendered file reached from `r` along `aliases`. */
  ghost function RenderedAt(r: RenderedFile, aliases: seq<string>): RenderedFile
    requires RenderedHasPath(r, aliases)
    decreases aliases
  {
    if aliases == [] then r else RenderedAt(r.includes[aliases[0]], aliases[1..])
  }

  /**
   * Every alias path of the source exists in the rendering and no other does,
   * and the rendered file found there is the rendering of the source file
   * found there: the two trees have the same shape and depth.
   */
  lemma {:induction false} RenderedAtPath(c: Collaborators, outDir: string, f: ResolvedFile, aliases: seq<string>)
    ensures ResolvedHasPath(f, aliases) <==> RenderedHasPath(CreateRenderedFile(c, outDir, f), aliases)
    ensures ResolvedHasPath(f, aliases) ==>
              RenderedAt(CreateRenderedFile(c, outDir, f), aliases) == CreateRenderedFile(c, outDir, ResolvedAt(f, aliases))
    decreases aliases
  {
    if aliases != [] && aliases[0] in f.includes {
      RenderedAtPath(c, outDir, f.includes[aliases[0]].file, aliases[1..]);
    }
  }

  /**
   * Rendering an included file depends on that file alone, not on who
   * includes it: wherever the same file sits in two include trees, the two
   * renderings hold the same rendered file there.
   */
  lemma {:induction false} SharedIncludeRendersAlike(
    c: Collaborators, outDir: string,
    f1: ResolvedFile, aliases1: seq<string>, f2: ResolvedFile, aliases2: seq<string>)
    requires ResolvedHasPath(f1, aliases1) && ResolvedHasPath(f2, aliases2)
    requires ResolvedAt(f1, aliases1) == ResolvedAt(f2, aliases2)
    ensures RenderedHasPath(CreateRenderedFile(c, outDir, f1), aliases1)
    ensures RenderedHasPath(CreateRenderedFile(c, outDir, f2), aliases2)
    ensures RenderedAt(CreateRenderedFile(c, outDir, f1), aliases1) == RenderedAt(CreateRenderedFile(c, outDir, f2), aliases2)
  {
    RenderedAtPath(c, outDir, f1, aliases1);
    RenderedAtPath(c, outDir, f2, aliases2);
  }

  /** Under every alias of the source, the rendering holds exactly the rendering of the included file. */
  lemma IncludeRendered(c: Collaborators, outDir: string, f: ResolvedFile, alias: string)
    requires alias in f.includes
    ensures alias in CreateRenderedFile(c, outDir, f).includes
    ensures CreateRenderedFile(c, outDir, f).includes[alias] == CreateRenderedFile(c, outDir, f.includes[alias].file)
  {
  }

  /** The included file's output path is computed from that file alone, as for a top-level file. */
  lemma IncludedOutPath(c: Collaborators, outDir: string, f: ResolvedFile, alias: string)
    requires alias in f.includes
    ensures alias in CreateRenderedFile(c, outDir, f).includes
    ensures CreateRenderedFile(c, outDir, f).includes[alias].outPath == OutPathForFile(c, outDir, f.includes[alias].file)
  {
    IncludeRendered(c, outDir, f, alias);
  }

  /** The include map's rendering does not depend on the including file's path. */
  lemma RenderedIncludesIgnoresCurrentPath(
    c: Collaborators, outDir: string, path1: string, path2: string, owner: ResolvedFile)
    ensures RenderedIncludes(c, outDir, path1, owner.includes, owner)
            == RenderedIncludes(c, outDir, path2, owner.includes, owner)
  {
  }

  // ---------------------------------------------------------------------
  // The entry point
  // ---------------------------------------------------------------------

  /** The result does not depend on `rootDir` or `sourceDir`. */
  lemma GenerateFileIgnoresRootAndSourceDir(
    c: Collaborators, root1: string, root2: string, outDir: string, source1: string, source2: string,
    files: seq<ResolvedFile>)
    ensures GenerateFile(c, root1, outDir, source1, files) == GenerateFile(c, root2, outDir, source2, files)
  {
  }

  /** Each output depends only on its own input file: equal inputs at any two positions give equal outputs. */
  lemma GenerateFileIsPointwise(
    c: Collaborators, rootDir: string, outDir: string, sourceDir: string,
    files1: seq<ResolvedFile>, i: nat, files2: seq<ResolvedFile>, j: nat)
    requires i < |files1| && j < |files2| && files1[i] == files2[j]
    ensures GenerateFile(c, rootDir, outDir, sourceDir, files1)[i] == GenerateFile(c, rootDir, outDir, sourceDir, files2)[j]
  {
  }

  /** Generating a concatenation is concatenating the generations: the files are processed independently, in order. */
  lemma GenerateFileAppend(
    c: Collaborators, rootDir: string, outDir: string, sourceDir: string,
    files1: seq<ResolvedFile>, files2: seq<ResolvedFile>)
    ensures GenerateFile(c, rootDir, outDir, sourceDir, files1 + files2)
            == GenerateFile(c, rootDir, outDir, sourceDir, files1) + GenerateFile(c, rootDir, outDir, sourceDir, files2)
  {
  }

  /** Every element of the result is a rendering of the input file at the same position. */
  lemma GenerateFileRendersEach(
    c: Collaborators, rootDir: string, outDir: string, sourceDir: string, files: seq<ResolvedFile>, i: nat)
    requires i < |files|
    ensures IsRenderingOf(c, outDir, files[i], GenerateFile(c, rootDir, outDir, sourceDir, files)[i])
  {
    CreateRenderedFileIsRendering(c, outDir, files[i]);
  }

  // ---------------------------------------------------------------------
  // A worked case
  // ---------------------------------------------------------------------

  /** A file with no includes whose body and include imports render to nothing is just the runtime import. */
  lemma LeafFileIsRuntimeImportOnly(c: Collaborators, outDir: string, f: ResolvedFile)
    requires f.includes == map[]
    requires c.render(f.body, f.identifiers) == []
    requires c.importsForIncludes(OutPathForFile(c, outDir, f), map[], map[]) == []
    ensures CreateRenderedFile(c, outDir, f).statements == [c.thriftImports]
    ensures CreateRenderedFile(c, outDir, f).includes == map[]
  {
  }
}
