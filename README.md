# REST Client document model, file variables and reference diagnostics

This project models the part of the vscode-restclient editor extension that reads `.http`
documents:

- **The document parser** of `src/utils/ast.ts` walks a document's lines with a cursor. It skips
  blank lines. At every other line it tries three recognisers in order:
  - an `@@include <path>` line,
  - a file-variable definition,
  - a request block, which runs up to the next line starting with `###` or `@`.

  The first recogniser that produces a node wins. A line that none of them accepts is skipped.
- **The include-following parser** of `src/utils/ir.ts` also walks a document's lines with a
  cursor, but differs from the document parser:
  - it tries only two recognisers, an `@@include <path>` line and then a file-variable
    definition; it has no request-block recogniser;
  - it does not skip blank lines: every line goes through the recognisers, and a line neither
    accepts is skipped;
  - its include node holds the relative path and the included document's parsed tree, with no
    path range and no absolute path;
  - it opens and parses every included document recursively;
  - a failure to open or parse one ends the whole parse.
- **The file-variable provider** of `src/utils/httpVariableProviders/fileVariableProvider.ts`
  parses a document and walks its children in order, collecting into one shared JavaScript `Map`:
  - an include collects the included document's variables first;
  - a file variable overwrites the entry of its name.

  `has`, `get` and `getAll` read that map.
- **The variable diagnostics provider** of `src/variableDiagnosticsProvider.ts` works in two steps.
  - It finds every `{{name...}}` reference with the global regular expression
    `\{\{(\w+)(\..*?)*\}\}` and groups the matches by name, keeping insertion order.
  - It then runs three passes over the groups, with at most one diagnostic per occurrence:
    - the name is not defined;
    - a request variable's request has not been sent;
    - a sent request variable's path does not resolve.

  The passes' diagnostics replace the document's entry in the diagnostic collection.

Each module has a part for each side of the code:

- **Pure functions.** The recognisers, the parse, the definitions a walk applies, the regular-expression
  matcher and the grouping are pure functions with proved properties.
- **Stateful classes.** The parts that update state in place are classes whose methods are proved
  against those functions:
  - the parsers' cursor and children list;
  - the provider's `Map`;
  - the diagnostic collection.
- **Loops.** The parser and reference loops are `while`/`for` loops with invariants:
  - the skip-blank and block-collecting loops;
  - the `exec` loop;
  - the per-line `forEach`;
  - the walk over the children.

  The early-return `for` loops of `either` (`src/utils/ast.ts:227-233`) and `tryMany`
  (`src/utils/ir.ts:140-146`) are recursive functions over the list of attempts instead
  (`Ast.Either`, `Ir.TryMany`).

Modules:

| module | file | what it holds |
|---|---|---|
| `Wrappers` | `wrappers.dfy` | `Option` and `Result` |
| `Text` | `text.dfy` | JavaScript's `\s` and `\w` classes, the characters `.` does not match, lines and ranges, `join`, `split(/\r?\n/)` |
| `Workspace` | `workspace.dfy` | documents and the collaborators the code calls (path functions, the document loader, the file-variable line grammar, the comment selector, the end-of-line sequence) |
| `IncludeSyntax` | `include_syntax.dfy` | the include regular expression with JavaScript's backtracking order, and the acyclic include ranking |
| `Ast` | `ast.dfy` | `src/utils/ast.ts` |
| `Ir` | `ir.dfy` | `src/utils/ir.ts` |
| `FileVariables` | `file_variables.dfy` | `src/utils/httpVariableProviders/fileVariableProvider.ts` |
| `References` | `references.dfy` | `findVariableReferences` and its `Variable` record |
| `Diagnostics` | `diagnostics.dfy` | `checkVariables`, `deleteDocumentFromDiagnosticCollection` |

Details of the code that the model keeps:

- **Include paths keep trailing whitespace.** In both parsers the greedy `(.+)` group runs to
  the end of the line, which leaves nothing for the following `\s*`. The relative path is
  therefore everything after the spacing, trailing blanks included (`IncludeSyntax.CommonForm`,
  `IncludeSyntax.MatchInclude`).
- **The path handed to the resolver keeps the variable name.** Pass 3 removes only the braces
  and the whitespace next to them. The path is therefore the variable name followed by the rest
  of the match (`Diagnostics.RequestPathKeepsName`).
- **A diagnostic spans the whole `{{...}}` match**, braces included.
- **`ir.ts` has no blank-line skipping.** Every line goes through the recognisers.

## Model

| member | source | states |
|---|---|---|
| IncludeSyntax.MatchInclude | src/utils/ast.ts:56 | the match JavaScript reports for the include pattern: the line matches the pattern iff a match is returned, and the match has the longest whitespace run and then the longest path among all ways the pattern accepts the line |
| IncludeSyntax.IncludedPath | src/utils/ast.ts:121-129 | a path is extracted exactly when the include pattern matches the line; it is non-empty, holds no line terminator, and the line starts with `@@include` |
| IncludeSyntax.CommonForm | src/utils/ir.ts:39 | on `@@include`, spacing and a path starting with a non-space, the captured relative path is the whole rest of the line, trailing whitespace included |
| Workspace.OpenDocument | src/utils/ir.ts:101 | opening a path succeeds exactly when the loader has the document, which then carries that path as its file name; otherwise it fails with `CannotOpen(path)` |
| Text.SplitLines | src/variableDiagnosticsProvider.ts:102 | `split(/\r?\n/g)`: one line more than the text has `\n` characters, no line holds a `\n`, and joining the lines with `\n` gives back the text with every `\r` that stands right before a `\n` removed |
| Text.Union | src/utils/ast.ts:201 | `Range.union`: the result starts no later than either range and ends no earlier than either, and it starts at one of the two starts and ends at one of the two ends, so it is the smallest such range |
| Ast.EitherFirst | src/utils/ast.ts:225-234 | `either` yields nothing iff every recogniser yields nothing, and otherwise the first defined result, with all earlier ones undefined |
| Ast.EitherOfThree | src/utils/ast.ts:113-119 | `either` over three recognisers is the first one that produces a node |
| Ast.Either | src/utils/ast.ts:225-234 | whatever `either` returns is one of the recognisers' results |
| Ast.IncludeAtShape | src/utils/ast.ts:121-148 | an include node is produced iff the line matches the include syntax; it spans its line, its path range is the match's path group, starting right after `@@include` and its non-empty spacing and covering exactly the path text, and the absolute path is the relative path resolved against the document's directory |
| Ast.IncludeAt | src/utils/ast.ts:121-148 | a produced node is an include node, and the cursor moves exactly one line |
| Ast.FileVariableAt | src/utils/ast.ts:150-167 | a file-variable node is produced iff the grammar accepts the line; it spans the line, carries the grammar's key and value, and advances the cursor by one |
| Ast.BlockEnd | src/utils/ast.ts:176-187 | the request block ends at the first line that starts with `###` or `@` (`RequestEndRegex`), or at the end of the document, and no line before that matches |
| Ast.RequestAtShape | src/utils/ast.ts:169-218 | no request node iff the first line is blank or every non-comment line of the block is; otherwise the range runs from the first to the last non-comment line, the cursor moves to the block's end, the text is the non-comment lines joined by the end-of-line sequence, and that text is never blank, so the `trim()` check at line 206 never fires |
| Ast.RequestAt | src/utils/ast.ts:169-218 | a produced node is a request node, and the cursor moves forward without leaving the document |
| Ast.RequestAtSome | src/utils/ast.ts:169-218 | a produced request node has the range, cursor and text that `RequestAtRange` and `RequestAtText` state |
| Ast.RequestAtRange | src/utils/ast.ts:176-202 | a request node spans whole lines from its block's first to last non-comment line, only comment lines of the block lie outside that span, and the cursor moves to the block's end |
| Ast.RequestAtText | src/utils/ast.ts:189-207 | a request node's text is its block's non-comment lines joined by the end-of-line sequence, and is never blank |
| Ast.KeptRange | src/utils/ast.ts:197-202 | the range of the first retained line, joined with that of the last when there are several, runs from the start of the first to the end of the last |
| Ast.RetainedEnds | src/utils/ast.ts:189-200 | the first and last retained lines lie inside the block in order, are not comments, and keep their text |
| Ast.RetainedBounds | src/utils/ast.ts:189-202 | the lines before the first and after the last retained line are comments, and the retained lines are all blank iff every non-comment line of the block is blank |
| Ast.RetainedSound | src/utils/ast.ts:189 | the filter keeps non-comment lines of the block with their own text, in increasing line order |
| Ast.RetainedComplete | src/utils/ast.ts:189 | every non-comment line of the block is kept by the filter |
| Ast.RecogniserPriority | src/utils/ast.ts:113-119 | the node at a line is the include node if there is one, else the file variable, else the request |
| Ast.NodeAtSound | src/utils/ast.ts:113-119 | a recognised node lies within the lines the cursor passed over, and an include node records the path written on its line |
| Ast.NodeAt | src/utils/ast.ts:113-119 | a recognised node moves the cursor forward without leaving the document |
| Ast.ChildrenOrdered | src/utils/ast.ts:87-111 | the children lie within the document, come in strictly increasing line order with disjoint ranges, and every include child records the path written on its line |
| Ast.ParseFrom | src/utils/ast.ts:87-111 | the parse from a line holds at most one child per remaining line |
| Ast.ParseStep | src/utils/ast.ts:91-107 | a blank line, or a line no recogniser accepts, adds nothing and parsing goes on at the next line; otherwise its node comes first and parsing goes on where the recogniser left the cursor |
| Ast.BlankLinesContributeNothing | src/utils/ast.ts:90-94 | a run of blank lines parses to the same children as what follows it |
| Ast.IncludeOnlyDocument | src/utils/ast.ts:121-148 | a document holding only `@@include <path>` parses to exactly one include node, for that path |
| Ast.FileVariableOnlyDocument | src/utils/ast.ts:150-167 | a document holding only `foo=bar` parses to one file variable spanning the line |
| Ast.ParseAdvance | src/utils/ast.ts:99-107 | after a recogniser call the parse continues from where the cursor was left, or from the next line when nothing was recognised |
| Ast.DocumentParser.constructor | src/utils/ast.ts:60-72 | a new parser holds the document, its cursor at line 0 and no children |
| Ast.DocumentParser.Parse | src/utils/ast.ts:87-111 | the loop ends at the end of the document, with the children found so far followed by the parse from the starting line |
| Ast.DocumentParser.TryParseNode | src/utils/ast.ts:113-119 | returns the node `either` picks and moves the cursor past it, or returns nothing and leaves the cursor |
| Ast.DocumentParser.TryParseIncludeNode | src/utils/ast.ts:121-148 | returns the include node of `IncludeAt` and moves the cursor past its line, or nothing |
| Ast.DocumentParser.TryParseFileVariableNode | src/utils/ast.ts:150-167 | returns the file-variable node of `FileVariableAt` and moves the cursor one line, or nothing |
| Ast.DocumentParser.TryParseRequestNode | src/utils/ast.ts:169-218 | the block-collecting loop finds the block end; returns the request node of `RequestAt` and moves the cursor to the block end, or nothing |
| Ast.ParseDocument | src/utils/ast.ts:236-238 | the exported `parse` returns the document node whose children are the parse from line 0 |
| Ir.TryManyFirst | src/utils/ir.ts:138-147 | `tryMany` yields nothing iff every attempt yields nothing, and otherwise the first attempt that fails or yields a node |
| Ir.TryManyOfTwo | src/utils/ir.ts:80-85 | `tryMany` over two recognisers is the first unless it yields nothing |
| Ir.TryMany | src/utils/ir.ts:138-147 | any result of `tryMany` other than "nothing" is one of the attempts |
| Ir.ParseDoc | src/utils/ir.ts:149-151 | a successful parse returns a node for the document that was parsed |
| Ir.FileVariableAt | src/utils/ir.ts:115-133 | a file-variable node is produced iff the grammar accepts the line; it spans the line and carries the grammar's key and value |
| Ir.IncludeAtMeaning | src/utils/ir.ts:87-113 | a non-include line yields nothing here; an include line fails with `CannotOpen` when its resolved target cannot be opened, with the nested parse's failure when that fails, and otherwise yields an include node spanning the line with the path as written and the parse of the opened document |
| Ir.IncludeAt | src/utils/ir.ts:87-113 | a produced node is an include node spanning its line |
| Ir.NodeAt | src/utils/ir.ts:80-85 | a produced node spans its line, and a failure is the include recogniser's failure |
| Ir.RecogniserPriority | src/utils/ir.ts:80-85 | on an include line the result, node or failure, is the include's even when the file-variable grammar also accepts the line; on any other line it is the file variable's |
| Ir.NodeOnLine | src/utils/ir.ts:63-85 | a line that does not fail yields a node iff it is an include or file-variable line, and the node spans that line |
| Ir.ChildrenFollowLines | src/utils/ir.ts:63-78 | a successful parse holds at most one node per line, each on a line that yields one and spanning just that line, in line order |
| Ir.NoLineLeftBehind | src/utils/ir.ts:63-78 | every line that yields a node has its node among the children of a successful parse |
| Ir.ParseFrom | src/utils/ir.ts:63-78 | a successful parse from a line holds at most one child per remaining line |
| Ir.ParseStep | src/utils/ir.ts:65-75 | a successful parse from a line is that line's node, if any, followed by the successful parse from the next line |
| Ir.ChildrenOnTheirLines | src/utils/ir.ts:63-78 | each child of a successful parse stands on a line, from the starting line on, that yields a node, and spans that line |
| Ir.ChildrenInLineOrder | src/utils/ir.ts:63-78 | the children of a successful parse stand on strictly increasing lines, from the starting line on |
| Ir.LoadFailurePropagates | src/utils/ir.ts:100-102 | a parse fails iff some include line fails (its target cannot be opened or its own parse fails), and then with the failure of the first such line |
| Ir.Continued | src/utils/ir.ts:63-78 | children found so far followed by those to come, or the failure to come |
| Ir.ParseAdvance | src/utils/ir.ts:65-75 | one turn of the loop: a failure at the line is the parse's failure; otherwise the line's node, if any, joins the children |
| Ir.DocumentParser.constructor | src/utils/ir.ts:41-53 | a new parser holds the document, its cursor at line 0 and no children |
| Ir.DocumentParser.Parse | src/utils/ir.ts:63-78 | succeeds iff the parse from the cursor does, then with the cursor at the end and the children appended; otherwise fails with the parse's failure |
| Ir.DocumentParser.TryParseNode | src/utils/ir.ts:80-85 | returns what `tryMany` gives for the line and advances the cursor exactly when a node was produced |
| Ir.DocumentParser.TryParseIncludeNode | src/utils/ir.ts:87-113 | returns the include result of the line, parsing the included document recursively, and advances the cursor exactly when a node was produced |
| Ir.DocumentParser.TryParseFileVariableNode | src/utils/ir.ts:115-133 | returns the file-variable node of the line and advances the cursor exactly when there is one |
| Ir.ParseDocument | src/utils/ir.ts:149-151 | the exported `parse` returns the parse of the whole document, failures included |
| FileVariables.IndexOf | src/utils/httpVariableProviders/fileVariableProvider.ts:40 | the first entry with the name, or none when no entry has it |
| FileVariables.AssignMeaning | src/utils/httpVariableProviders/fileVariableProvider.ts:68 | after `Map.set` the name maps to the new variable, every other name to what it did before, the keys keep their order with a new name last, and keys stay distinct |
| FileVariables.Assign | src/utils/httpVariableProviders/fileVariableProvider.ts:68 | after `Map.set` the new variable is in the map, every entry of another name is still there, and nothing else was added |
| FileVariables.LastValue | src/utils/httpVariableProviders/fileVariableProvider.ts:60-72 | the value of the last definition of a name, which no later definition of the name follows; none iff the name is never defined |
| FileVariables.FoldFind | src/utils/httpVariableProviders/fileVariableProvider.ts:60-72 | last write wins: after a run of definitions a name maps to its last definition, and an undefined name keeps its old entry |
| FileVariables.FoldAppend | src/utils/httpVariableProviders/fileVariableProvider.ts:62-66 | applying an included document's definitions and then the rest is applying their concatenation |
| FileVariables.LastDefinition | src/utils/httpVariableProviders/fileVariableProvider.ts:67-70 | a definition of a name that no later definition of the name follows supplies the name's last value |
| FileVariables.LaterDefinitionWins | src/utils/httpVariableProviders/fileVariableProvider.ts:67-70 | a definition that no later definition of the same name follows is the one the map keeps |
| FileVariables.Applied | src/utils/httpVariableProviders/fileVariableProvider.ts:52-73 | the map after the definitions to come, failing exactly when they fail |
| FileVariables.FileVariablesOf | src/utils/httpVariableProviders/fileVariableProvider.ts:48-50 | `getAll`: fails iff the walk fails; otherwise names are distinct, and a name is present iff it is defined somewhere the walk reaches, with its last definition's value |
| FileVariables.Has | src/utils/httpVariableProviders/fileVariableProvider.ts:33-36 | `has` is true iff the name is defined somewhere the walk reaches |
| FileVariables.Get | src/utils/httpVariableProviders/fileVariableProvider.ts:38-46 | `get` returns the variable with the last definition's value, or the name with `FileVariableNotExist` iff the name is not defined |
| FileVariables.DefinitionsStep | src/utils/httpVariableProviders/fileVariableProvider.ts:60-72 | one child of the walk: an include whose document cannot be opened or walked fails the walk; otherwise the include's definitions, the file variable's assignment, or nothing for a request, come before the rest |
| FileVariables.DefinitionsOf | src/utils/httpVariableProviders/fileVariableProvider.ts:52-73 | a successful walk of a document applies every file-variable definition among its own children |
| FileVariables.DefinitionsIn | src/utils/httpVariableProviders/fileVariableProvider.ts:60-72 | a successful walk of the children from one on applies every file-variable definition among them |
| FileVariables.VariableMap.constructor | src/utils/httpVariableProviders/fileVariableProvider.ts:75 | `new Map()` starts with no entries |
| FileVariables.VariableMap.Set | src/utils/httpVariableProviders/fileVariableProvider.ts:68 | `Map.set` replaces the entry of the name in place or appends a new one |
| FileVariables.VariableMap.Values | src/utils/httpVariableProviders/fileVariableProvider.ts:78 | the map's values in insertion order |
| FileVariables.AppendVariablesFromDocument | src/utils/httpVariableProviders/fileVariableProvider.ts:52-73 | succeeds iff the walk does, and then the map is the old map with every definition of the document and its includes applied in order; otherwise fails with the walk's failure |
| FileVariables.GetFileVariables | src/utils/httpVariableProviders/fileVariableProvider.ts:75-80 | returns the values `FileVariablesOf` describes |
| References.WordRunEnd | src/variableDiagnosticsProvider.ts:103 | the end of the maximal run of `\w` characters |
| References.CloseFrom | src/variableDiagnosticsProvider.ts:103 | the first `}}` not separated from the start by a line terminator, or none |
| References.MatchAt | src/variableDiagnosticsProvider.ts:103 | the pattern matches at a position iff a match end is returned, and the end returned is that of the shortest accepted text, as the lazy `.*?` makes it |
| References.NextMatch | src/variableDiagnosticsProvider.ts:106 | `exec` from `lastIndex` returns the leftmost position at or after it where the pattern matches, with that match's end; none iff no position matches |
| References.LineReferences | src/variableDiagnosticsProvider.ts:106-114 | every occurrence found on a line carries that line's number and lies in the line at or after where the search started, long enough for `{{`, a name character and `}}` |
| References.LineReferencesShape | src/variableDiagnosticsProvider.ts:106-114 | every occurrence recorded on a line is a match on that line, with its name, text and span |
| References.LineReferencesOrdered | src/variableDiagnosticsProvider.ts:106-114 | the occurrences of one line come left to right without overlapping |
| References.ReferencesAreMatches | src/variableDiagnosticsProvider.ts:102-121 | every occurrence is a match on the line it names, with the whole match as its text and span and the non-empty word run as its name, and occurrences come line by line, left to right, without overlapping |
| References.EveryMatchCovered | src/variableDiagnosticsProvider.ts:106-120 | `exec` misses no match: every position where the pattern matches lies inside the span of a recorded occurrence |
| References.EntryIndex | src/variableDiagnosticsProvider.ts:115-116 | `Map.has`/`Map.get`: the position of the name's binding, or none when no binding has the name |
| References.Add | src/variableDiagnosticsProvider.ts:115-119 | recording an occurrence keeps the existing keys in their places, adds at most one binding, and leaves the occurrence's name bound |
| References.Group | src/variableDiagnosticsProvider.ts:104-120 | the map has no more bindings than there are occurrences, and every name that occurs is bound |
| References.FirstSeen | src/variableDiagnosticsProvider.ts:115-119 | every name that occurs is listed, and only those |
| References.Occurrences | src/variableDiagnosticsProvider.ts:115-119 | the occurrences of one name, all carrying that name and all taken from the input |
| References.FirstSeenDistinct | src/variableDiagnosticsProvider.ts:115-119 | the map's keys are distinct |
| References.GroupMeaning | src/variableDiagnosticsProvider.ts:115-119 | the map's keys are the names seen, in order of first occurrence, and each is bound to all of its occurrences in the order they were found |
| References.OccurrencesInTextOrder | src/variableDiagnosticsProvider.ts:104-120 | each name's occurrences keep text order |
| References.FlattenAdd | src/variableDiagnosticsProvider.ts:115-119 | recording an occurrence inserts it into the flattened map and changes nothing else |
| References.GroupIsPermutation | src/variableDiagnosticsProvider.ts:115-119 | the map holds every occurrence exactly once |
| References.RecordLine | src/variableDiagnosticsProvider.ts:104-120 | the `exec` loop over one line leaves the map holding the earlier occurrences and then that line's matches, grouped |
| References.FindVariableReferences | src/variableDiagnosticsProvider.ts:100-124 | the map is the grouping of every line's matches, line by line, after splitting on `\r?\n` |
| Diagnostics.StripOpen | src/variableDiagnosticsProvider.ts:85 | `replace(/^\{{2}\s*/, '')` removes leading `{{` and the whitespace run after it, and nothing when the text does not start with `{{` |
| Diagnostics.StripClose | src/variableDiagnosticsProvider.ts:85 | `replace(/\s*\}{2}$/, '')` removes the trailing `}}` and the whole whitespace run before it, and nothing when the text does not end with `}}` |
| Diagnostics.Classify | src/variableDiagnosticsProvider.ts:47-95 | the diagnostic of one occurrence spans the match: not found when the name is undefined, not sent for an unsent request variable, the resolver's verdict on the cached response for a sent one, none for a defined name of another kind |
| Diagnostics.Resolution | src/variableDiagnosticsProvider.ts:83-93 | no diagnostic iff the resolver succeeds on the occurrence's path; otherwise one spanning the match with the resolver's message, an error iff the resolver reports an error |
| Diagnostics.NotFoundAll | src/variableDiagnosticsProvider.ts:50-57 | one not-found diagnostic per occurrence, in order |
| Diagnostics.NotSentAll | src/variableDiagnosticsProvider.ts:66-73 | one not-sent diagnostic per occurrence, in order |
| Diagnostics.NotFoundPass | src/variableDiagnosticsProvider.ts:47-58 | every diagnostic of the first pass is an error, and there are none when every name is defined |
| Diagnostics.NotSentPass | src/variableDiagnosticsProvider.ts:60-74 | every diagnostic of the second pass is an error, and there are none when every request variable's request has been sent |
| Diagnostics.ResolutionPass | src/variableDiagnosticsProvider.ts:76-95 | the third pass gives nothing when no name is a request variable whose request has been sent |
| Diagnostics.Diagnose | src/variableDiagnosticsProvider.ts:42-95 | the three passes give nothing when every name is defined and none is a request variable |
| Diagnostics.ClassifyAllConcat | src/variableDiagnosticsProvider.ts:47-95 | classifying occurrences distributes over concatenation |
| Diagnostics.EntryAgreesWithClassify | src/variableDiagnosticsProvider.ts:47-95 | on a binding whose occurrences carry its name, the three passes give each occurrence its `Classify` diagnostic |
| Diagnostics.PassesByEntry | src/variableDiagnosticsProvider.ts:47-95 | running the three passes one after another or binding by binding gives the same diagnostics |
| Diagnostics.EntriesAgreeWithClassify | src/variableDiagnosticsProvider.ts:47-95 | over all bindings, the passes agree with classifying the flattened map |
| Diagnostics.GroupedClassification | src/variableDiagnosticsProvider.ts:104-120 | classifying the grouped occurrences gives the same diagnostics as classifying them in text order |
| Diagnostics.GroupHomogeneous | src/variableDiagnosticsProvider.ts:115-119 | every binding holds only occurrences of its own name |
| Diagnostics.EachOccurrenceClassified | src/variableDiagnosticsProvider.ts:42-95 | each occurrence gets exactly its own diagnostic and no other: the passes' filters exclude one another, so nothing is reported twice or dropped |
| Diagnostics.OccurrenceText | src/variableDiagnosticsProvider.ts:107-110 | an occurrence's text is `{{`, its name, a rest that is empty or starts with a dot, and `}}`; the name starts and ends with word characters |
| Diagnostics.StripOpenBeforeName | src/variableDiagnosticsProvider.ts:85 | stripping the opening of `{{name...` leaves `name...` |
| Diagnostics.StripCloseAfterName | src/variableDiagnosticsProvider.ts:85 | stripping the closing of `name mid}}` leaves the name and the rest without trailing whitespace |
| Diagnostics.BracedPath | src/variableDiagnosticsProvider.ts:85 | the path of `{{name mid}}` is the name followed by the rest without trailing whitespace |
| Diagnostics.RequestPathKeepsName | src/variableDiagnosticsProvider.ts:85-86 | the path resolved for an occurrence is its variable name followed by the rest of the match, trimmed at the end, and that rest is empty or a non-empty text starting with a dot |
| Diagnostics.VariableDiagnosticsProvider.constructor | src/variableDiagnosticsProvider.ts:16-17 | the collection starts empty |
| Diagnostics.VariableDiagnosticsProvider.DeleteDocument | src/variableDiagnosticsProvider.ts:29-31 | the document's entry is removed and the others are kept |
| Diagnostics.VariableDiagnosticsProvider.CheckVariables | src/variableDiagnosticsProvider.ts:37-98 | a document in another language leaves the collection unchanged; an `http` document's entry becomes the three passes' diagnostics over its grouped references, and the other entries are kept |

## Left out

- **The request node's lazy `request` getter** (`src/utils/ast.ts:213-216`) is not modelled. It
  calls the request parser factory, whose code is not part of this model. A request node
  carries its range and its joined text.
- **Back-references are not modelled.** These are the `sourceDocument` fields of nodes and the
  request node's `textDocument`. A child is reached through its parent only.
- **Collaborators become parameters.** `path.dirname`, `path.resolve`,
  `workspace.openTextDocument`, `Constants.FileVariableDefinitionRegex`,
  `Selector.isCommentLine` and `os.EOL` are fields of `Workspace.Host`. These are total functions
  with no assumed properties. The diagnostics passes likewise take the definitions in scope, the
  request cache and `resolveRequestVariable` as a `Diagnostics.Context`.
- **`VariableProcessor.getAllVariablesDefinitions` is not part of this model.** Its result is an
  input. Two things about it matter to the passes: whether a name is defined at all (`has`,
  `src/variableDiagnosticsProvider.ts:49`), and whether its first kind is `Request`.
- **Asynchrony is not modelled.** `async`/`await` become plain calls. Nothing else runs between
  the awaited steps.
- **Include cycles.** The source recurses without end on a cycle. The model requires a ranking
  that every include edge decreases (`IncludeSyntax.Acyclic`). `Ir` and `FileVariables` are
  specified only for such include graphs.
- **`FileVariables.AppendVariablesFromDocument`: after a failed walk, the shared map's contents
  are not specified.** On success they are exactly stated.
- **`FileVariables.AppendVariablesFromDocument`: a throwing `Ast.parse` is not modelled.** The
  `try`/`catch` with `debugger` around it is therefore left out, because the modelled parser
  cannot throw.
- **Console logging is left out:** `console.log` in `ir.ts`.
- **Editor plumbing is left out.** This covers:
  - the file-variable provider's singleton `Instance` and its unused `escapee` table;
  - the diagnostics provider's event subscription, and the check of all open documents its constructor runs;
  - `dispose` and `checkVariablesInAllTextDocuments`, which iterate over `workspace.textDocuments`.

  VS Code's `DiagnosticCollection` itself is modelled, as the map
  `Diagnostics.VariableDiagnosticsProvider.collection` from document URI to diagnostics.
- **The diagnostic passes are functions, not loops.** The `filter`/`forEach`/`push` chains are
  functions over the grouped map, and `CheckVariables` concatenates them.
- **Nested references are not reported.** A `{{name}}` that starts inside an earlier reported
  match on the same line is not reported separately, as `exec` resumes after the earlier match
  (`References.EveryMatchCovered` states what is covered).
- **Positions count Unicode code points, not UTF-16 code units.** Line ranges, include path
  ranges and occurrence spans index a `string` of characters, while JavaScript indexes UTF-16
  code units. The two agree on text made only of Basic Multilingual Plane characters.
