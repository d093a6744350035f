/**
 * The values the generator consumes and produces, and the collaborators it
 * calls. The resolver's and the renderer's own structures are opaque here:
 * the generator only moves them around.
 */
module Types {

  /** A TypeScript AST statement produced by the renderer or the import helpers. */
  type Statement(!new)

  /** One declaration of a parsed Thrift file (struct, enum, service, const, ...). */
  type ThriftStatement(!new)

  /** The resolver's symbol table of a file; only the renderer looks inside. */
  type IdentifierMap(!new)

  /** Resolver metadata carried by an include (e.g. which of its identifiers are used). */
  type IncludeMetadata(!new)

  /** The namespace of a file; its `path` decides the output sub-directory. */
  datatype Namespace = Namespace(path: string)

  /** A parsed, symbol-resolved Thrift file. The include tree is inductive, so it has no cycles. */
  datatype ResolvedFile = ResolvedFile(
    name: string,
    path: string,
    namespace: Namespace,
    body: seq<ThriftStatement>,
    includes: map<string, ResolvedInclude>,
    identifiers: IdentifierMap)

  /** An entry of an include map: the included file plus resolver metadata. */
  datatype ResolvedInclude = ResolvedInclude(file: ResolvedFile, metadata: IncludeMetadata)

  /** What the generator produces for one file, with its includes rendered under the same aliases. */
  datatype RenderedFile = RenderedFile(
    name: string,
    path: string,
    outPath: string,
    namespace: Namespace,
    statements: seq<Statement>,
    includes: map<string, RenderedFile>,
    identifiers: IdentifierMap)

  /**
   * The functions the generator calls but does not define, as pure total functions:
   * `resolve` is Node's `path.resolve` on three segments, `thriftImports` the statement
   * `createThriftImports()` returns, `importsForIncludes` is `createImportsForIncludes`
   * and `render` is the statement renderer.
   */
  datatype Collaborators = Collaborators(
    resolve: (string, string, string) -> string,
    thriftImports: Statement,
    importsForIncludes: (string, map<string, RenderedFile>, map<string, ResolvedInclude>) -> seq<Statement>,
    render: (seq<ThriftStatement>, IdentifierMap) -> seq<Statement>)
}
