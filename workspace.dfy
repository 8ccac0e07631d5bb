/**
 * The documents the parsers read and the collaborators they call but whose code is not
 * part of this model: path handling, the document loader, the file-variable line grammar,
 * the comment-line selector and the platform line terminator.
 */
module Workspace {

  import opened Wrappers

  /** A text document: its file name and its lines, without line breaks. */
  datatype Document = Document(fileName: string, lines: seq<string>)

  /** Why a document could not be opened. */
  datatype LoadError = CannotOpen(path: string)

  /**
   * The collaborators, each a total function:
   * - `dirname` and `resolve`: `path.dirname` and `path.resolve`;
   * - `open`: `workspace.openTextDocument`, the lines of the document at a path, or None when it cannot be opened;
   * - `fileVariable`: groups 1 and 2 of `Constants.FileVariableDefinitionRegex` on a line, or None when it does not match;
   * - `isComment`: `Selector.isCommentLine`;
   * - `eol`: `os.EOL`.
   */
  datatype Host = Host(
    dirname: string -> string,
    resolve: (string, string) -> string,
    open: string -> Option<seq<string>>,
    fileVariable: string -> Option<(string, string)>,
    isComment: string -> bool,
    eol: string)

  /** `workspace.openTextDocument(path)`: the document opened has the path as its file name. */
  function OpenDocument(host: Host, path: string): (r: Result<Document, LoadError>)
    ensures r.Ok? <==> host.open(path).Some?
    ensures r.Ok? ==> r.value.fileName == path && r.value.lines == host.open(path).value
    ensures r.Err? ==> r.error == CannotOpen(path)
  {
    match host.open(path)
    case None => Err(CannotOpen(path))
    case Some(lines) => Ok(Document(path, lines))
  }
}
