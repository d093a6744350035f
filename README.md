# Thrift-to-TypeScript generator: file orchestration

This project models the orchestration step of the thrift-typescript code
generator (`src/main/generator/index.ts`). Given resolved Thrift files, the
generator decides for each one:

- where its TypeScript module goes: the output directory, then the namespace
  path, then the file's name followed by `.ts`;
- its includes: every included file is rendered the same way, recursively,
  and stored under the same alias;
- its statements: one Thrift runtime import, then the imports for its
  includes, then the rendered body, in that order.

`generateFile` does this for each top-level file, in order.

The include tree is the inductive datatype `ResolvedFile`, so a cyclic include
graph cannot be written down, and the recursion terminates by structure. The
collaborators the generator calls but does not define are fields of
`Types.Collaborators`:

- `resolve`: Node's `path.resolve` on three segments;
- `thriftImports`: the statement `createThriftImports()` returns;
- `importsForIncludes`: `createImportsForIncludes`;
- `render`: the statement renderer.

All four are pure, total and otherwise unknown, so every proof is about the
orchestration alone. `Statement`, `ThriftStatement`, `IdentifierMap` and
`IncludeMetadata` are opaque types.

Files:

- `types.dfy`: the data model and the collaborators.
- `generator.dfy`: the operations. `CreateIncludes` is the accumulator loop of
  the source, proved equal to the function `RenderedIncludes`, which
  `CreateRenderedFile` uses.
- `properties.dfy`: reference definitions and the lemmas about the model.
  `IsRenderingOf` states, level by level, what a rendering must be. The alias
  paths `ResolvedHasPath`/`RenderedHasPath` describe the shape of the two
  trees.

`RenderedIncludes` and `CreateIncludes` take a ghost `owner`: the file whose
include map they expand. It plays no part in the result. It witnesses that the
include tree is finite, which the source relies on without checking. The
source only ever calls `createIncludes` with a file's own include map, so this
restricts nothing.

The output path is unique for each (namespace path, name) pair only for
well-formed pairs. `path.resolve` normalises its input, so `"pkg"` and
`"pkg/."` give the same directory. `OutPathInjective` therefore asks for a
namespace path made of `/`-separated components that are not empty, `.` or
`..` (`RelativeDir`), and a name without `/`. It also asks that the join keep
such segments apart (`JoinInjectiveOnSegments`). `SlashJoin` is what
`path.resolve` returns for an absolute, normalised output directory and
well-formed segments. It adds a `/` after the root only when the root does
not already end in one, so `/`, `/out` and `/out/` all get a single separator
(`SlashJoinExamples`). `SlashJoinInjectiveOnSegments` proves the hypothesis
for it. `DotComponentIsNotRelativeDir` shows that the `"pkg/."`
collision lies outside the hypothesis.

## Model

| member | source | states |
|---|---|---|
| Generator.Filename | src/main/generator/index.ts:32 | the file name is the Thrift name as its prefix, then exactly `.ts`, and nothing else |
| Properties.FilenameInjective | src/main/generator/index.ts:32 | two names give the same file name if and only if they are equal |
| Generator.OutPathForFile | src/main/generator/index.ts:31-40 | the output path is the join of the output directory, the namespace path and the name followed by `.ts`; its properties are proved in `OutPathDeterministic` and `OutPathInjective` |
| Properties.FilenameIsSegment | src/main/generator/index.ts:32 | a name without `/` gives a file name that is a single path component (not empty, `.` or `..`) |
| Properties.SlashJoinInjectiveOnSegments | src/main/generator/index.ts:33-37 | the join `path.resolve` performs for an absolute, normalised root, with or without a trailing `/` (including `/` itself), keeps relative directories and file names apart |
| Properties.SlashJoinExamples | src/main/generator/index.ts:33-37 | the roots `/out`, `/out/` and `/` with namespace path `pkg` and name `a` give `/out/pkg/a.ts`, `/out/pkg/a.ts` and `/pkg/a.ts`, as `path.resolve` does |
| Properties.OutPathDeterministic | src/main/generator/index.ts:31-40 | files with the same namespace path and name get the same output path, whatever else differs |
| Properties.OutPathInjective | src/main/generator/index.ts:31-40 | for files whose namespace path is a relative directory and whose name has no `/`, and a join that keeps such segments apart, two files share an output path if and only if they have the same namespace path and name |
| Generator.RenderedIncludes | src/main/generator/index.ts:42-49 | the rendered include map has exactly the aliases of the source include map |
| Generator.CreateIncludes | src/main/generator/index.ts:42-49 | the accumulator loop, whatever order it visits the aliases in, builds exactly the map `RenderedIncludes` gives: the source's aliases, each mapped to the rendering of its included file (see `IncludeRendered`) |
| Properties.RenderedIncludesIgnoresCurrentPath | src/main/generator/index.ts:42-49 | the rendered include map is the same whatever path the including file has |
| Properties.IncludeRendered | src/main/generator/index.ts:43-52 | under every alias of the source, the rendered file holds exactly the rendering of the included file |
| Properties.IncludedOutPath | src/main/generator/index.ts:44-54 | an included file's output path is the one computed for that file on its own |
| Generator.CreateRenderedFile | src/main/generator/index.ts:51-70 | the result copies name, path, namespace and identifiers from the source file, has exactly the source's include aliases, and starts with the runtime import |
| Properties.StatementCount | src/main/generator/index.ts:55-59 | with one import per include, a file has 1 + (number of includes) + (number of body statements) statements |
| Properties.CreateRenderedFileIsRendering | src/main/generator/index.ts:51-70 | at every level of the include tree, the result copies the echoed fields, has the file's output path, has the statements in the order runtime import, include imports, body, and has the source's aliases |
| Properties.RenderingIsUnique | src/main/generator/index.ts:51-70 | any value that meets that level-by-level description is the generator's result |
| Properties.RenderingCharacterized | src/main/generator/index.ts:51-70 | a value is a rendering of a file if and only if it is the generator's result for that file |
| Properties.RenderedAtPath | src/main/generator/index.ts:42-52 | an alias path exists in the rendered tree if and only if it exists in the include tree, and the rendered file found there is the rendering of the source file found there |
| Properties.SharedIncludeRendersAlike | src/main/generator/index.ts:44-51 | wherever the same file is included in two trees, at any depth, the two renderings hold the same rendered file there |
| Properties.LeafFileIsRuntimeImportOnly | src/main/generator/index.ts:51-69 | a file without includes, whose body and include imports render to nothing, consists of the runtime import alone |
| Generator.GenerateFile | src/main/generator/index.ts:72-74 | the result has the same length as the input, and element i is the rendering of input file i |
| Properties.GenerateFileIgnoresRootAndSourceDir | src/main/generator/index.ts:30 | the result is the same for any `rootDir` and any `sourceDir` |
| Properties.GenerateFileIsPointwise | src/main/generator/index.ts:72-74 | an output element depends only on the input file at its own position |
| Properties.GenerateFileAppend | src/main/generator/index.ts:72-74 | generating a concatenation of file lists gives the concatenation of the two results |
| Properties.GenerateFileRendersEach | src/main/generator/index.ts:72-74 | every output element meets the level-by-level rendering description for the input file at its position |

## Left out

- `path.resolve` semantics (absolute paths, `..` and `.` handling, the working directory): the join is an arbitrary pure function of its three segments.
- Properties.OutPathInjective: its hypothesis on the join is proved only for `SlashJoin`, which agrees with `path.resolve` when the output directory is absolute and normalised, whether or not it ends in `/`. A relative output directory resolves against the working directory, which is not modelled.
- The internals of `render`, `createThriftImports` and `createImportsForIncludes`, and the TypeScript AST: these come from modules that are not part of this model. They are pure functions over opaque statements here. The count of include imports is proved only under the hypothesis that the import helper yields one import per include (`OneImportPerInclude`).
- Namespace fields other than `path`: the namespace is copied whole into the result, so any further fields pass through unchanged.
- Object identity and sharing: the source passes `identifiers` by reference and builds a fresh object for each include that is included twice. Dafny values have no identity, so the model shows only equal values.
- `Object.keys` iteration order: the loop in `CreateIncludes` visits the aliases in any order, and the result map does not depend on it. Any dependence on order is inside the import helper, which is not modelled.
- Cycle detection and stack depth: the include tree is inductive, so a cyclic graph cannot be expressed and the recursion always terminates.
- Errors thrown by the collaborators: the collaborators are total here, so there is no error path to propagate.
- The include-search policy in the doc comment (src/main/generator/index.ts:24-26): it belongs to the resolver that runs before this code.
- Writing files to disk, command-line handling and logging: none of them happens in this code.
