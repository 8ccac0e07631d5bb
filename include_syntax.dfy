/**
 * The include directive `@@include <path>`, shared by both parsers: ast.ts matches it with
 * `^(@@include\s+)(.+)\s*$` and ir.ts with `^@@include\s+(.+)\s*$`, which accept the same lines
 * and capture the same path. Also the include relation between documents and the ranking
 * that makes it acyclic.
 */
module IncludeSyntax {

  import opened Wrappers
  import opened Text
  import opened Workspace

  const Keyword: string := "@@include"

  /** Where a match puts the path group: `line[pathStart..pathEnd]`; the text before it is `@@include` and its spacing. */
  datatype IncludeMatch = IncludeMatch(pathStart: nat, pathEnd: nat)

  /**
   * The pattern accepts `line` with the path group at `[a, e)`: the keyword, a non-empty run of
   * whitespace up to `a`, at least one character `.` matches, then only whitespace to the end.
   */
  predicate Matches(line: string, a: nat, e: nat) {
    && |Keyword| < a < e <= |line|
    && line[..|Keyword|] == Keyword
    && (forall k :: |Keyword| <= k < a ==> IsWhitespace(line[k]))
    && (forall k :: a <= k < e ==> !IsLineTerminator(line[k]))
    && Blank(line[e..])
  }

  /** The end of the longest run from `p` of characters in the class. */
  function RunEnd(line: string, p: nat, inClass: char -> bool): (e: nat)
    requires p <= |line|
    ensures p <= e <= |line|
    ensures forall k :: p <= k < e ==> inClass(line[k])
    ensures e == |line| || !inClass(line[e])
    decreases |line| - p
  {
    if p < |line| && inClass(line[p]) then RunEnd(line, p + 1, inClass) else p
  }

  /** Greedy `.+` before `\s*$`: try the path ends `last`, `last - 1`, ... down to `a + 1`. */
  function PathEnd(line: string, a: nat, last: nat): (r: Option<nat>)
    requires a <= last <= |line|
    ensures r.Some? ==> a < r.value <= last && Blank(line[r.value..])
    ensures forall e :: a < e <= last && (r.None? || r.value < e) ==> !Blank(line[e..])
    decreases last
  {
    if last == a then None
    else if Blank(line[last..]) then Some(last)
    else PathEnd(line, a, last - 1)
  }

  /** Greedy `\s+`: try the path starts `a`, `a - 1`, ... down to one past the keyword; the first that lets the rest match wins. */
  function SearchFrom(line: string, a: nat): (r: Option<IncludeMatch>)
    requires |Keyword| <= a <= |line| && line[..|Keyword|] == Keyword
    requires forall k :: |Keyword| <= k < a ==> IsWhitespace(line[k])
    ensures r.Some? ==> Matches(line, r.value.pathStart, r.value.pathEnd) && r.value.pathStart <= a
    ensures forall a': nat, e: nat :: a' <= a && Matches(line, a', e) ==>
      r.Some? && (a' < r.value.pathStart || (a' == r.value.pathStart && e <= r.value.pathEnd))
    decreases a
  {
    if a == |Keyword| then None
    else
      var last := RunEnd(line, a, c => !IsLineTerminator(c));
      match PathEnd(line, a, last)
      case Some(e) => Some(IncludeMatch(a, e))
      case None => SearchFrom(line, a - 1)
  }

  /**
   * The match JavaScript reports: among all ways the pattern accepts the line, the one with the
   * longest whitespace run, and for it the longest path; None exactly when the pattern does not match.
   */
  function MatchInclude(line: string): (r: Option<IncludeMatch>)
    ensures r.Some? ==> Matches(line, r.value.pathStart, r.value.pathEnd)
    ensures forall a: nat, e: nat :: Matches(line, a, e) ==>
      r.Some? && (a < r.value.pathStart || (a == r.value.pathStart && e <= r.value.pathEnd))
  {
    if |line| < |Keyword| || line[..|Keyword|] != Keyword then None
    else
      var ws := RunEnd(line, |Keyword|, IsWhitespace);
      assert forall a: nat, e: nat :: Matches(line, a, e) ==> a <= ws;
      SearchFrom(line, ws)
  }

  /** The relative path an include line names (`match[2]` in ast.ts, `match[1]` in ir.ts). */
  function IncludedPath(line: string): (r: Option<string>)
    ensures r.Some? <==> MatchInclude(line).Some?
    ensures r.Some? ==> r.value != [] && Keyword <= line && forall k :: 0 <= k < |r.value| ==> !IsLineTerminator(r.value[k])
  {
    match MatchInclude(line)
    case None => None
    case Some(m) => Some(line[m.pathStart..m.pathEnd])
  }

  /** `path.resolve(path.dirname(fromFile), relativePath)`. */
  function Resolve(host: Host, fromFile: string, relativePath: string): string {
    host.resolve(host.dirname(fromFile), relativePath)
  }

  /**
   * The usual include line: keyword, spacing, then a path that starts with a non-space. The
   * relative path is everything after the spacing, trailing whitespace included, because the
   * greedy `(.+)` leaves nothing for `\s*`.
   */
  lemma CommonForm(line: string, spacing: string, path: string)
    requires line == Keyword + spacing + path
    requires spacing != [] && Blank(spacing)
    requires path != [] && !IsWhitespace(path[0])
    requires forall k :: 0 <= k < |path| ==> !IsLineTerminator(path[k])
    ensures IncludedPath(line) == Some(path)
  {
    var a := |Keyword| + |spacing|;
    assert line[..|Keyword|] == Keyword;
    assert line[a..] == path;
    assert Matches(line, a, |line|);
    var m := MatchInclude(line).value;
    assert m.pathStart == a;
    assert m.pathEnd == |line|;
    assert line[m.pathStart..m.pathEnd] == path;
  }

  /** Every include line of `doc` names a document ranked strictly below `doc`. */
  ghost predicate DescendsFrom(host: Host, rank: string -> nat, doc: Document) {
    forall k :: 0 <= k < |doc.lines| && IncludedPath(doc.lines[k]).Some? ==>
      rank(Resolve(host, doc.fileName, IncludedPath(doc.lines[k]).value)) < rank(doc.fileName)
  }

  /** The include relation among the documents the loader can open has no cycle: `rank` decreases along it. */
  ghost predicate Acyclic(host: Host, rank: string -> nat) {
    forall path :: host.open(path).Some? ==> DescendsFrom(host, rank, Document(path, host.open(path).value))
  }

  /** The include graph below `doc` is ranked, so following its includes terminates. */
  ghost predicate Loadable(host: Host, rank: string -> nat, doc: Document) {
    Acyclic(host, rank) && DescendsFrom(host, rank, doc)
  }

  /** A document the loader opens under an acyclic ranking is itself loadable. */
  lemma OpenedIsLoadable(host: Host, rank: string -> nat, path: string)
    requires Acyclic(host, rank) && OpenDocument(host, path).Ok?
    ensures Loadable(host, rank, OpenDocument(host, path).value)
  {
  }
}
