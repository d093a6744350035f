/**
 * The generator proper: output placement, include expansion, statement
 * assembly and the per-file driver.
 */
module Generator {
  import opened Types

  /** The name of a generated module: the Thrift file's name followed by `.ts`. */
  function Filename(name: string): (r: string)
    ensures |r| == |name| + 3
    ensures r[..|name|] == name && r[|name|..] == ".ts"
  {
    name + ".ts"
  }

  /** Where the module generated for `f` goes: the output directory, the namespace path, the file name. */
  function OutPathForFile(c: Collaborators, outDir: string, f: ResolvedFile): (r: string)
    ensures r == c.resolve(outDir, f.namespace.path, f.name + ".ts")
  {
    c.resolve(outDir, f.namespace.path, Filename(f.name))
  }

  /** The fields a rendered file copies unchanged from its source file. */
  ghost predicate Echoes(f: ResolvedFile, r: RenderedFile)
  {
    && r.name == f.name
    && r.path == f.path
    && r.namespace == f.namespace
    && r.identifiers == f.identifiers
  }

  /**
   * The include map of a file with every entry rendered under the same alias.
   * `owner` is the file the map belongs to; it is what makes the recursion
   * well founded. `currentPath` takes no part in the result.
   */
  function RenderedIncludes(
    c: Collaborators, outDir: string, currentPath: string,
    includes: map<string, ResolvedInclude>, ghost owner: ResolvedFile): (r: map<string, RenderedFile>)
    requires includes == owner.includes
    decreases owner, 0
    ensures r.Keys == includes.Keys
  {
    map k | k in includes :: CreateRenderedFile(c, outDir, includes[k].file)
  }

  /**
   * The rendered file for `f`: its includes rendered recursively, its output
   * path, and its statements in the order runtime import, include imports, body.
   */
  function CreateRenderedFile(c: Collaborators, outDir: string, f: ResolvedFile): (r: RenderedFile)
    decreases f, 1
    ensures Echoes(f, r)
    ensures r.includes.Keys == f.includes.Keys
    ensures |r.statements| >= 1 && r.statements[0] == c.thriftImports
  {
    var includes := RenderedIncludes(c, outDir, f.path, f.includes, f);
    var identifiers := f.identifiers;
    var outPath := OutPathForFile(c, outDir, f);
    var statements := [c.thriftImports]
                      + c.importsForIncludes(outPath, includes, f.includes)
                      + c.render(f.body, identifiers);
    RenderedFile(f.name, f.path, outPath, f.namespace, statements, includes, identifiers)
  }

  /**
   * Include expansion as the source performs it: one pass over the aliases,
   * storing each rendered include in an accumulator map. Whatever order the
   * aliases are visited in, the result is the map `RenderedIncludes` describes.
   */
  method CreateIncludes(
    c: Collaborators, outDir: string, currentPath: string,
    includes: map<string, ResolvedInclude>, ghost owner: ResolvedFile)
    returns (acc: map<string, RenderedFile>)
    requires includes == owner.includes
    ensures acc == RenderedIncludes(c, outDir, currentPath, includes, owner)
  {
    acc := map[];
    var pending := includes.Keys;
    while pending != {}
      invariant pending <= includes.Keys
      invariant acc.Keys == includes.Keys - pending
      invariant forall k :: k in acc ==> acc[k] == CreateRenderedFile(c, outDir, includes[k].file)
      decreases pending
    {
      var next :| next in pending;
      var included := includes[next].file;
      var renderedFile := CreateRenderedFile(c, outDir, included);
      acc := acc[next := renderedFile];
      pending := pending - {next};
    }
  }

  /** The entry point: every top-level file rendered, in order. `rootDir` and `sourceDir` are unused. */
  function GenerateFile(
    c: Collaborators, rootDir: string, outDir: string, sourceDir: string,
    files: seq<ResolvedFile>): (r: seq<RenderedFile>)
    ensures |r| == |files|
    ensures forall i :: 0 <= i < |files| ==> r[i] == CreateRenderedFile(c, outDir, files[i])
  {
    seq(|files|, i requires 0 <= i < |files| => CreateRenderedFile(c, outDir, files[i]))
  }
}
