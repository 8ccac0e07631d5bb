/**
 * The document parser of src/utils/ast.ts. A forward cursor over the lines of one document
 * skips blank lines and, at each other line, tries the include recogniser, then the
 * file-variable recogniser, then the request-block recogniser; the first that produces a node
 * wins, and a line none of them accepts is skipped. Includes are recorded, not followed.
 *
 * The functions below specify each recogniser and the whole parse; class DocumentParser is the
 * parser itself, with the cursor and the children list it updates in place.
 */
module Ast {

  import opened Wrappers
  import opened Text
  import opened Workspace
  import IncludeSyntax

  /** The path an include names: where it stands on the line, as written, and resolved against the including document's directory. */
  datatype IncludePath = IncludePath(range: Range, relativePath: string, absolutePath: string)

  datatype Node =
    | Include(range: Range, path: IncludePath)
    | FileVariable(range: Range, key: string, value: string)
    | Request(range: Range, text: string)

  datatype DocumentNode = DocumentNode(document: Document, children: seq<Node>)

  /** A node a recogniser produced and the line the cursor stands on after it. */
  datatype Step = Step(node: Node, next: nat)

  /** The node's range lies within lines `lo` to `hi - 1`. */
  predicate Within(node: Node, lo: nat, hi: nat) {
    lo <= node.range.startLine <= node.range.endLine < hi
  }

  /** Each node's range ends on a line before the next node's range starts. */
  predicate Ordered(nodes: seq<Node>) {
    forall j, k :: 0 <= j < k < |nodes| ==> nodes[j].range.endLine < nodes[k].range.startLine
  }

  /** An include node records the path written on its own line, resolved against the document's directory. */
  predicate IncludeFaithful(host: Host, doc: Document, node: Node)
    requires node.Include?
  {
    && node.range.startLine < |doc.lines|
    && IncludeSyntax.IncludedPath(doc.lines[node.range.startLine]) == Some(node.path.relativePath)
    && node.path.absolutePath == IncludeSyntax.Resolve(host, doc.fileName, node.path.relativePath)
  }

  /** `RequestEndRegex`, `/^#{3,}|^@/`: a line that starts with three `#` or with `@`. */
  predicate IsRequestEnd(line: string) {
    (|line| >= 3 && line[..3] == "###") || (|line| >= 1 && line[0] == '@')
  }

  /** `either`: the first defined result, in the order the recognisers are listed. */
  function Either<T>(results: seq<Option<T>>): (r: Option<T>)
    ensures r.Some? ==> r in results
  {
    if |results| == 0 then None
    else if results[0].Some? then results[0]
    else Either(results[1..])
  }

  /** `either` yields nothing exactly when every result is undefined, and otherwise the first defined one. */
  lemma {:induction false} EitherFirst<T>(results: seq<Option<T>>)
    ensures Either(results).None? <==> forall k :: 0 <= k < |results| ==> results[k].None?
    ensures Either(results).Some? ==>
      exists k :: 0 <= k < |results| && results[k] == Either(results) && forall j :: 0 <= j < k ==> results[j].None?
  {
    if |results| > 0 && results[0].None? {
      EitherFirst(results[1..]);
      if Either(results).Some? {
        var k :| 0 <= k < |results[1..]| && results[1..][k] == Either(results) && forall j :: 0 <= j < k ==> results[1..][j].None?;
        assert results[k + 1] == Either(results);
      }
    }
  }

  /** `either` over three recognisers. */
  lemma EitherOfThree<T>(a: Option<T>, b: Option<T>, c: Option<T>)
    ensures Either([a, b, c]) == if a.Some? then a else if b.Some? then b else c
  {
    assert Either([c]) == c by {
      assert [c][1..] == [];
    }
    assert Either([b, c]) == if b.Some? then b else c by {
      assert [b, c][1..] == [c];
    }
    assert [a, b, c][1..] == [b, c];
  }

  /** `tryParseIncludeNode` at line `i`. */
  function IncludeAt(host: Host, doc: Document, i: nat): (r: Option<Step>)
    requires i < |doc.lines|
    ensures r.Some? ==> r.value.next == i + 1 && r.value.node.Include?
  {
    var line := TextLine(i, doc.lines[i]);
    match IncludeSyntax.MatchInclude(line.text)
    case None => None
    case Some(m) =>
      var prefix := line.text[..m.pathStart];
      var userIncludePath := line.text[m.pathStart..m.pathEnd];
      var absolutePath := IncludeSyntax.Resolve(host, doc.fileName, userIncludePath);
      var pathRange := Range(i, |prefix|, i, |prefix| + |userIncludePath|);
      Some(Step(Include(line.LineRange(), IncludePath(pathRange, userIncludePath, absolutePath)), i + 1))
  }

  /**
   * An include node is produced exactly when the line matches the include syntax; it spans its
   * line, its path range is the match's path group, right after `@@include` and its spacing,
   * and covers exactly the path text, and the path is resolved against the document's directory.
   */
  lemma IncludeAtShape(host: Host, doc: Document, i: nat)
    requires i < |doc.lines|
    ensures var r := IncludeAt(host, doc, i);
      && (r.Some? <==> IncludeSyntax.IncludedPath(doc.lines[i]).Some?)
      && (r.Some? ==>
        var line := doc.lines[i];
        var node := r.value.node;
        && node.range == TextLine(i, line).LineRange()
        && node.path.range.startLine == i == node.path.range.endLine
        && node.path.range.startCharacter < node.path.range.endCharacter <= |line|
        && line[node.path.range.startCharacter..node.path.range.endCharacter] == node.path.relativePath
        && node.path.range.startCharacter == IncludeSyntax.MatchInclude(line).value.pathStart
        && node.path.range.endCharacter == IncludeSyntax.MatchInclude(line).value.pathEnd
        && |IncludeSyntax.Keyword| < node.path.range.startCharacter
        && line[..|IncludeSyntax.Keyword|] == IncludeSyntax.Keyword
        && (forall k :: |IncludeSyntax.Keyword| <= k < node.path.range.startCharacter ==> IsWhitespace(line[k]))
        && IncludeFaithful(host, doc, node))
  {
  }

  /** `tryParseFileVariableNode` at line `i`. */
  function FileVariableAt(host: Host, doc: Document, i: nat): (r: Option<Step>)
    requires i < |doc.lines|
    ensures r.Some? <==> host.fileVariable(doc.lines[i]).Some?
    ensures r.Some? ==>
      && r.value.next == i + 1
      && r.value.node.FileVariable?
      && r.value.node.range == TextLine(i, doc.lines[i]).LineRange()
      && (r.value.node.key, r.value.node.value) == host.fileVariable(doc.lines[i]).value
  {
    var line := TextLine(i, doc.lines[i]);
    match host.fileVariable(line.text)
    case None => None
    case Some((key, value)) => Some(Step(FileVariable(line.LineRange(), key, value), i + 1))
  }

  /** Where the request block that starts at line `i` ends: the first line matching `RequestEndRegex`, or the end of the document. */
  function BlockEnd(lines: seq<string>, i: nat): (e: nat)
    requires i <= |lines|
    ensures i <= e <= |lines|
    ensures forall k :: i <= k < e ==> !IsRequestEnd(lines[k])
    ensures e == |lines| || IsRequestEnd(lines[e])
    decreases |lines| - i
  {
    if i == |lines| || IsRequestEnd(lines[i]) then i else BlockEnd(lines, i + 1)
  }

  /** `allLines.filter(line => !Selector.isCommentLine(line.text))`. */
  function NonCommentLines(isComment: string -> bool, ls: seq<TextLine>): seq<TextLine> {
    if |ls| == 0 then []
    else (if isComment(ls[0].text) then [] else [ls[0]]) + NonCommentLines(isComment, ls[1..])
  }

  /** `nonCommentLines.every(x => x.isEmptyOrWhitespace)`. */
  predicate AllBlank(ls: seq<TextLine>) {
    forall k :: 0 <= k < |ls| ==> Blank(ls[k].text)
  }

  /** The texts of the lines in `[lo, hi)` that are not comments, in order. */
  function KeptTexts(isComment: string -> bool, lines: seq<string>, lo: nat, hi: nat): seq<string>
    requires lo <= hi <= |lines|
    decreases hi - lo
  {
    if lo == hi then []
    else (if isComment(lines[lo]) then [] else [lines[lo]]) + KeptTexts(isComment, lines, lo + 1, hi)
  }

  /** The lines a block retains, from line `lo` on. */
  function Retained(isComment: string -> bool, lines: seq<string>, lo: nat, hi: nat): seq<TextLine>
    requires lo <= hi <= |lines|
  {
    NonCommentLines(isComment, LinesOf(lines, lo, hi))
  }

  /** Filtering the block's lines one line at a time. */
  lemma RetainedStep(isComment: string -> bool, lines: seq<string>, lo: nat, hi: nat)
    requires lo < hi <= |lines|
    ensures Retained(isComment, lines, lo, hi)
         == (if isComment(lines[lo]) then [] else [TextLine(lo, lines[lo])]) + Retained(isComment, lines, lo + 1, hi)
  {
    assert LinesOf(lines, lo, hi)[1..] == LinesOf(lines, lo + 1, hi);
  }

  /** The retained lines carry the texts KeptTexts lists. */
  lemma {:induction false} RetainedTexts(isComment: string -> bool, lines: seq<string>, lo: nat, hi: nat)
    requires lo <= hi <= |lines|
    ensures Texts(Retained(isComment, lines, lo, hi)) == KeptTexts(isComment, lines, lo, hi)
    decreases hi - lo
  {
    if lo < hi {
      RetainedStep(isComment, lines, lo, hi);
      RetainedTexts(isComment, lines, lo + 1, hi);
    }
  }

  /** Each retained line is a non-comment line of the block with its own text, and they come in increasing line order. */
  lemma {:induction false} RetainedSound(isComment: string -> bool, lines: seq<string>, lo: nat, hi: nat)
    requires lo <= hi <= |lines|
    ensures var kept := Retained(isComment, lines, lo, hi);
      && (forall k :: 0 <= k < |kept| ==>
            lo <= kept[k].lineNumber < hi && kept[k].text == lines[kept[k].lineNumber] && !isComment(kept[k].text))
      && (forall j, k :: 0 <= j < k < |kept| ==> kept[j].lineNumber < kept[k].lineNumber)
    decreases hi - lo
  {
    if lo < hi {
      RetainedStep(isComment, lines, lo, hi);
      RetainedSound(isComment, lines, lo + 1, hi);
    }
  }

  /** Every non-comment line of the block is retained. */
  lemma {:induction false} RetainedComplete(isComment: string -> bool, lines: seq<string>, lo: nat, hi: nat, n: nat)
    requires lo <= n < hi <= |lines| && !isComment(lines[n])
    ensures exists k :: 0 <= k < |Retained(isComment, lines, lo, hi)| && Retained(isComment, lines, lo, hi)[k].lineNumber == n
    decreases hi - lo
  {
    RetainedStep(isComment, lines, lo, hi);
    var kept := Retained(isComment, lines, lo, hi);
    if n == lo {
      assert kept[0].lineNumber == n;
    } else {
      RetainedComplete(isComment, lines, lo + 1, hi, n);
      var rest := Retained(isComment, lines, lo + 1, hi);
      var k :| 0 <= k < |rest| && rest[k].lineNumber == n;
      var offset := if isComment(lines[lo]) then 0 else 1;
      assert kept[k + offset] == rest[k];
    }
  }

  /** The first and last retained lines bound the block's non-comment lines, and the block is empty exactly when they are all blank. */
  lemma RetainedBounds(isComment: string -> bool, lines: seq<string>, lo: nat, hi: nat)
    requires lo <= hi <= |lines|
    ensures var kept := Retained(isComment, lines, lo, hi);
      && (|kept| > 0 ==> forall n :: lo <= n < hi && n < kept[0].lineNumber ==> isComment(lines[n]))
      && (|kept| > 0 ==> forall n :: lo <= n < hi && kept[|kept| - 1].lineNumber < n ==> isComment(lines[n]))
      && (AllBlank(kept) <==> forall n :: lo <= n < hi && !isComment(lines[n]) ==> Blank(lines[n]))
  {
    var kept := Retained(isComment, lines, lo, hi);
    RetainedSound(isComment, lines, lo, hi);
    forall n | lo <= n < hi && !isComment(lines[n])
      ensures exists k :: 0 <= k < |kept| && kept[k].lineNumber == n
    {
      RetainedComplete(isComment, lines, lo, hi, n);
    }
  }

  /** What a request node produced at line `i` satisfies. */
  ghost predicate RequestShape(host: Host, doc: Document, i: nat, s: Step)
    requires i < |doc.lines|
  {
    var lines := doc.lines;
    var rg := s.node.range;
    && s.node.Request?
    && i < s.next == BlockEnd(lines, i)
    && i <= rg.startLine <= rg.endLine < s.next
    && rg.startCharacter == 0 && rg.endCharacter == |lines[rg.endLine]|
    && !host.isComment(lines[rg.startLine]) && !host.isComment(lines[rg.endLine])
    && (forall n :: i <= n < rg.startLine ==> host.isComment(lines[n]))
    && (forall n :: rg.endLine < n < s.next ==> host.isComment(lines[n]))
    && s.node.text == Join(KeptTexts(host.isComment, lines, i, s.next), host.eol)
    && !Blank(s.node.text)
  }

  /** The non-comment lines of the block at `i` are all blank. */
  ghost predicate EmptyBlock(host: Host, doc: Document, i: nat)
    requires i < |doc.lines|
  {
    forall n :: i <= n < BlockEnd(doc.lines, i) && !host.isComment(doc.lines[n]) ==> Blank(doc.lines[n])
  }

  /** `tryParseRequestNode` at line `i`. */
  function RequestAt(host: Host, doc: Document, i: nat): (r: Option<Step>)
    requires i < |doc.lines|
    ensures r.Some? ==> i < r.value.next <= |doc.lines| && r.value.node.Request?
  {
    var lines := doc.lines;
    if Blank(lines[i]) then None
    else
      var end := BlockEnd(lines, i);
      var kept := Retained(host.isComment, lines, i, end);
      if AllBlank(kept) then None
      else
        var first := kept[0];
        var last := kept[|kept| - 1];
        var range := if |kept| > 1 then Union(first.LineRange(), last.LineRange()) else first.LineRange();
        Some(Step(Request(range, Join(Texts(kept), host.eol)), end))
  }

  /** The range a request node gets: from the start of its first retained line to the end of its last. */
  lemma KeptRange(kept: seq<TextLine>)
    requires |kept| > 0 && (|kept| > 1 ==> kept[0].lineNumber < kept[|kept| - 1].lineNumber)
    ensures var first, last := kept[0], kept[|kept| - 1];
      (if |kept| > 1 then Union(first.LineRange(), last.LineRange()) else first.LineRange())
      == Range(first.lineNumber, 0, last.lineNumber, |last.text|)
  {
  }

  /** What a produced request node satisfies. */
  lemma RequestAtSome(host: Host, doc: Document, i: nat)
    requires i < |doc.lines| && RequestAt(host, doc, i).Some?
    ensures RequestShape(host, doc, i, RequestAt(host, doc, i).value)
  {
    RequestAtRange(host, doc, i);
    RequestAtText(host, doc, i);
  }

  /** A request node spans its block's first to last non-comment line, whole lines, and the cursor moves to the block's end. */
  lemma RequestAtRange(host: Host, doc: Document, i: nat)
    requires i < |doc.lines| && RequestAt(host, doc, i).Some?
    ensures var lines, s := doc.lines, RequestAt(host, doc, i).value;
      var rg := s.node.range;
      && s.node.Request?
      && i < s.next == BlockEnd(lines, i)
      && i <= rg.startLine <= rg.endLine < s.next
      && rg.startCharacter == 0 && rg.endCharacter == |lines[rg.endLine]|
      && !host.isComment(lines[rg.startLine]) && !host.isComment(lines[rg.endLine])
      && (forall n :: i <= n < rg.startLine ==> host.isComment(lines[n]))
      && (forall n :: rg.endLine < n < s.next ==> host.isComment(lines[n]))
  {
    var lines := doc.lines;
    var end := BlockEnd(lines, i);
    var kept := Retained(host.isComment, lines, i, end);
    RetainedBounds(host.isComment, lines, i, end);
    RetainedEnds(host.isComment, lines, i, end);
    KeptRange(kept);
    var first, last := kept[0], kept[|kept| - 1];
    var range := if |kept| > 1 then Union(first.LineRange(), last.LineRange()) else first.LineRange();
    assert RequestAt(host, doc, i).value.node.range == range;
    hide RequestAt;
    hide Retained;
    hide Union;
  }

  /** A request node's text is its block's non-comment lines joined by the end-of-line sequence, and is never blank. */
  lemma RequestAtText(host: Host, doc: Document, i: nat)
    requires i < |doc.lines| && RequestAt(host, doc, i).Some?
    ensures var s := RequestAt(host, doc, i).value;
      && s.node.Request?
      && s.node.text == Join(KeptTexts(host.isComment, doc.lines, i, BlockEnd(doc.lines, i)), host.eol)
      && !Blank(s.node.text)
  {
    var lines := doc.lines;
    var end := BlockEnd(lines, i);
    var kept := Retained(host.isComment, lines, i, end);
    assert !AllBlank(kept);
    var k :| 0 <= k < |kept| && !Blank(kept[k].text);
    RetainedTexts(host.isComment, lines, i, end);
    JoinKeepsNonBlankPart(Texts(kept), host.eol, k);
    assert RequestAt(host, doc, i).value.node.text == Join(Texts(kept), host.eol);
    hide RequestAt;
    hide Retained;
  }

  /** The first and last lines a non-empty block retains lie inside the block, in order, are not comments, and keep their text. */
  lemma RetainedEnds(isComment: string -> bool, lines: seq<string>, lo: nat, hi: nat)
    requires lo <= hi <= |lines| && |Retained(isComment, lines, lo, hi)| > 0
    ensures var kept := Retained(isComment, lines, lo, hi);
      var first, last := kept[0], kept[|kept| - 1];
      && lo <= first.lineNumber <= last.lineNumber < hi
      && (|kept| > 1 ==> first.lineNumber < last.lineNumber)
      && first.text == lines[first.lineNumber] && last.text == lines[last.lineNumber]
      && !isComment(first.text) && !isComment(last.text)
  {
    RetainedSound(isComment, lines, lo, hi);
  }

  /**
   * A request block starting at a line that ends blocks is empty; no node is produced exactly
   * when the first line is blank or every non-comment line of the block is; otherwise the node
   * covers the block's first to last non-comment line, the cursor moves to the block's end,
   * and the text is the non-comment lines joined by the end-of-line sequence, never blank.
   */
  lemma RequestAtShape(host: Host, doc: Document, i: nat)
    requires i < |doc.lines|
    ensures IsRequestEnd(doc.lines[i]) ==> RequestAt(host, doc, i).None?
    ensures RequestAt(host, doc, i).None? <==> Blank(doc.lines[i]) || EmptyBlock(host, doc, i)
    ensures RequestAt(host, doc, i).Some? ==> RequestShape(host, doc, i, RequestAt(host, doc, i).value)
  {
    var lines := doc.lines;
    if !Blank(lines[i]) {
      var end := BlockEnd(lines, i);
      RetainedBounds(host.isComment, lines, i, end);
    }
    if RequestAt(host, doc, i).Some? {
      RequestAtSome(host, doc, i);
    }
  }

  /** `tryParseNode`: include, then file variable, then request; the first that produces a node wins. */
  function NodeAt(host: Host, doc: Document, i: nat): (r: Option<Step>)
    requires i < |doc.lines|
    ensures r.Some? ==> i < r.value.next <= |doc.lines|
  {
    EitherOfThree(IncludeAt(host, doc, i), FileVariableAt(host, doc, i), RequestAt(host, doc, i));
    Either([IncludeAt(host, doc, i), FileVariableAt(host, doc, i), RequestAt(host, doc, i)])
  }

  /** A recognised node lies within the lines the cursor passed over, and an include node records the path written on its line. */
  lemma NodeAtSound(host: Host, doc: Document, i: nat)
    requires i < |doc.lines|
    ensures var r := NodeAt(host, doc, i);
      && (r.Some? ==> Within(r.value.node, i, r.value.next))
      && (r.Some? && r.value.node.Include? ==> IncludeFaithful(host, doc, r.value.node))
  {
    RecogniserPriority(host, doc, i);
    IncludeAtShape(host, doc, i);
    RequestAtShape(host, doc, i);
  }

  /** The recognisers are tried in the order include, file variable, request, and the first that produces a node wins. */
  lemma RecogniserPriority(host: Host, doc: Document, i: nat)
    requires i < |doc.lines|
    ensures NodeAt(host, doc, i)
         == if IncludeAt(host, doc, i).Some? then IncludeAt(host, doc, i)
            else if FileVariableAt(host, doc, i).Some? then FileVariableAt(host, doc, i)
            else RequestAt(host, doc, i)
  {
    EitherOfThree(IncludeAt(host, doc, i), FileVariableAt(host, doc, i), RequestAt(host, doc, i));
  }

  /** `parse` from line `i`: the children the loop appends from there to the end of the document. */
  function ParseFrom(host: Host, doc: Document, i: nat): (nodes: seq<Node>)
    requires i <= |doc.lines|
    ensures |nodes| <= |doc.lines| - i
    decreases |doc.lines| - i
  {
    if i == |doc.lines| then []
    else if Blank(doc.lines[i]) then ParseFrom(host, doc, i + 1)
    else match NodeAt(host, doc, i)
      case Some(s) => [s.node] + ParseFrom(host, doc, s.next)
      case None => ParseFrom(host, doc, i + 1)
  }

  /** After a recogniser call at a non-blank line, the parse continues where the cursor was left, or one line further when nothing was recognised. */
  lemma ParseAdvance(host: Host, doc: Document, done: seq<Node>, all: seq<Node>, before: nat, node: Option<Node>, after: nat)
    requires before < |doc.lines| && !Blank(doc.lines[before])
    requires done + ParseFrom(host, doc, before) == all
    requires DocumentParser.Follows(NodeAt(host, doc, before), node, after, before)
    ensures node.Some? ==> before < after <= |doc.lines| && (done + [node.value]) + ParseFrom(host, doc, after) == all
    ensures node.None? ==> after == before && done + ParseFrom(host, doc, before + 1) == all
  {
    if node.Some? {
      assert (done + [node.value]) + ParseFrom(host, doc, after) == done + ([node.value] + ParseFrom(host, doc, after));
    }
  }

  /**
   * The children lie within the lines parsed, in strictly increasing line order with disjoint
   * ranges, and every include child records the path written on its own line.
   */
  lemma {:induction false} ChildrenOrdered(host: Host, doc: Document, i: nat)
    requires i <= |doc.lines|
    ensures var nodes := ParseFrom(host, doc, i);
      && (forall k :: 0 <= k < |nodes| ==> Within(nodes[k], i, |doc.lines|))
      && Ordered(nodes)
      && (forall k :: 0 <= k < |nodes| && nodes[k].Include? ==> IncludeFaithful(host, doc, nodes[k]))
    decreases |doc.lines| - i
  {
    if i < |doc.lines| {
      ParseStep(host, doc, i);
      hide ParseFrom;
      hide NodeAt;
      if Blank(doc.lines[i]) || NodeAt(host, doc, i).None? {
        ChildrenOrdered(host, doc, i + 1);
      } else {
        var s := NodeAt(host, doc, i).value;
        NodeAtSound(host, doc, i);
        ChildrenOrdered(host, doc, s.next);
        var nodes := ParseFrom(host, doc, i);
        var rest := ParseFrom(host, doc, s.next);
        assert nodes == [s.node] + rest;
        assert forall k :: 0 < k < |nodes| ==> nodes[k] == rest[k - 1];
      }
    }
  }

  /** One turn of the parse from line `i`: a blank line or a line no recogniser accepts is passed over; otherwise its node comes first. */
  lemma ParseStep(host: Host, doc: Document, i: nat)
    requires i < |doc.lines|
    ensures Blank(doc.lines[i]) || NodeAt(host, doc, i).None? ==> ParseFrom(host, doc, i) == ParseFrom(host, doc, i + 1)
    ensures !Blank(doc.lines[i]) && NodeAt(host, doc, i).Some? ==>
      ParseFrom(host, doc, i) == [NodeAt(host, doc, i).value.node] + ParseFrom(host, doc, NodeAt(host, doc, i).value.next)
  {
  }

  /** Blank lines start no node: a run of them parses to the same children as what follows it. */
  lemma {:induction false} BlankLinesContributeNothing(host: Host, doc: Document, i: nat, j: nat)
    requires i <= j <= |doc.lines|
    requires forall k :: i <= k < j ==> Blank(doc.lines[k])
    ensures ParseFrom(host, doc, i) == ParseFrom(host, doc, j)
    decreases j - i
  {
    if i < j {
      ParseStep(host, doc, i);
      hide *;
      BlankLinesContributeNothing(host, doc, i + 1, j);
    }
  }

  /** A document holding only `@@include <path>` parses to exactly one include node, for that path. */
  lemma IncludeOnlyDocument(host: Host, root: Document, path: string)
    requires root.lines == [IncludeSyntax.Keyword + " " + path]
    requires path != [] && !IsWhitespace(path[0])
    requires forall k :: 0 <= k < |path| ==> !IsLineTerminator(path[k])
    ensures var children := ParseFrom(host, root, 0);
      |children| == 1 && children[0].Include? && children[0].path.relativePath == path
  {
    IncludeSyntax.CommonForm(root.lines[0], " ", path);
    assert !Blank(root.lines[0]) by {
      assert root.lines[0][0] == '@';
    }
  }

  /** A document holding only `foo=bar`, where the file-variable grammar reads key `foo` and value `bar`, parses to that one file variable. */
  lemma FileVariableOnlyDocument(host: Host, doc: Document)
    requires doc.lines == ["foo=bar"]
    requires host.fileVariable("foo=bar") == Some(("foo", "bar"))
    ensures ParseFrom(host, doc, 0) == [FileVariable(Range(0, 0, 0, 7), "foo", "bar")]
  {
    assert !Blank(doc.lines[0]) by {
      assert doc.lines[0][0] == 'f';
    }
    assert IncludeSyntax.MatchInclude(doc.lines[0]).None?;
    RecogniserPriority(host, doc, 0);
  }

  /** The state of one `parse` call: the document, the cursor, and the children found so far. */
  class DocumentParser {
    const host: Host
    const document: Document
    var currentLine: nat
    var children: seq<Node>

    constructor (host: Host, document: Document)
      ensures this.host == host && this.document == document
      ensures currentLine == 0 && children == []
    {
      this.host := host;
      this.document := document;
      currentLine := 0;
      children := [];
    }

    /** The recogniser moved the cursor to the step's end and returned its node, or returned nothing and left the cursor alone. */
    static predicate Follows(spec: Option<Step>, node: Option<Node>, after: nat, before: nat) {
      match spec
      case None => node.None? && after == before
      case Some(s) => node == Some(s.node) && after == s.next
    }

    method Parse() returns (root: DocumentNode)
      requires currentLine <= |document.lines|
      modifies this
      ensures currentLine == |document.lines|
      ensures children == old(children) + ParseFrom(host, document, old(currentLine))
      ensures root == DocumentNode(document, children)
    {
      hide NodeAt;
      ghost var all := old(children) + ParseFrom(host, document, currentLine);
      while currentLine < |document.lines|
        invariant currentLine <= |document.lines|
        invariant children + ParseFrom(host, document, currentLine) == all
        decreases |document.lines| - currentLine
      {
        // skip empty lines
        while currentLine < |document.lines| && Blank(document.lines[currentLine])
          invariant currentLine <= |document.lines|
          invariant children + ParseFrom(host, document, currentLine) == all
          decreases |document.lines| - currentLine
        {
          BlankLinesContributeNothing(host, document, currentLine, currentLine + 1);
          currentLine := currentLine + 1;
        }
        if currentLine >= |document.lines| {
          break;
        }
        ghost var before := currentLine;
        var node := TryParseNode();
        ParseAdvance(host, document, children, all, before, node, currentLine);
        if node.Some? {
          children := children + [node.value];
        } else {
          currentLine := currentLine + 1;
        }
      }
      root := DocumentNode(document, children);
    }

    method TryParseNode() returns (node: Option<Node>)
      requires currentLine < |document.lines|
      modifies this`currentLine
      ensures Follows(NodeAt(host, document, old(currentLine)), node, currentLine, old(currentLine))
    {
      RecogniserPriority(host, document, currentLine);
      node := TryParseIncludeNode();
      if node.None? {
        node := TryParseFileVariableNode();
      }
      if node.None? {
        node := TryParseRequestNode();
      }
    }

    method TryParseIncludeNode() returns (node: Option<Node>)
      requires currentLine < |document.lines|
      modifies this`currentLine
      ensures Follows(IncludeAt(host, document, old(currentLine)), node, currentLine, old(currentLine))
    {
      var line := TextLine(currentLine, document.lines[currentLine]);
      var found := IncludeSyntax.MatchInclude(line.text);
      if found.None? {
        return None;
      }
      var prefix := line.text[..found.value.pathStart];
      var userIncludePath := line.text[found.value.pathStart..found.value.pathEnd];
      var absolutePath := IncludeSyntax.Resolve(host, document.fileName, userIncludePath);
      var pathRange := Range(line.lineNumber, |prefix|, line.lineNumber, |prefix| + |userIncludePath|);
      currentLine := currentLine + 1;
      node := Some(Include(line.LineRange(), IncludePath(pathRange, userIncludePath, absolutePath)));
    }

    method TryParseFileVariableNode() returns (node: Option<Node>)
      requires currentLine < |document.lines|
      modifies this`currentLine
      ensures Follows(FileVariableAt(host, document, old(currentLine)), node, currentLine, old(currentLine))
    {
      var line := TextLine(currentLine, document.lines[currentLine]);
      var found := host.fileVariable(line.text);
      if found.None? {
        return None;
      }
      var (key, value) := found.value;
      currentLine := currentLine + 1;
      node := Some(FileVariable(line.LineRange(), key, value));
    }

    method TryParseRequestNode() returns (node: Option<Node>)
      requires currentLine < |document.lines|
      modifies this`currentLine
      ensures Follows(RequestAt(host, document, old(currentLine)), node, currentLine, old(currentLine))
    {
      var lines := document.lines;
      var firstLine := TextLine(currentLine, lines[currentLine]);
      if Blank(firstLine.text) {
        return None;
      }
      var allLines: seq<TextLine> := [];
      var offset := 0;
      while currentLine + offset < |lines|
        invariant currentLine + offset <= |lines|
        invariant allLines == LinesOf(lines, currentLine, currentLine + offset)
        invariant forall k :: currentLine <= k < currentLine + offset ==> !IsRequestEnd(lines[k])
        decreases |lines| - currentLine - offset
      {
        var line := TextLine(currentLine + offset, lines[currentLine + offset]);
        if IsRequestEnd(line.text) {
          break;
        }
        allLines := allLines + [line];
        offset := offset + 1;
      }
      assert currentLine + offset == BlockEnd(lines, currentLine);
      var nonCommentLines := NonCommentLines(host.isComment, allLines);
      if AllBlank(nonCommentLines) {
        return None;
      }
      currentLine := currentLine + offset;
      var range := nonCommentLines[0].LineRange();
      if |nonCommentLines| > 1 {
        var lastLine := nonCommentLines[|nonCommentLines| - 1];
        range := Union(range, lastLine.LineRange());
      }
      var requestText := Join(Texts(nonCommentLines), host.eol);
      ghost var k :| 0 <= k < |nonCommentLines| && !Blank(nonCommentLines[k].text);
      JoinKeepsNonBlankPart(Texts(nonCommentLines), host.eol, k);
      if Blank(requestText) {
        // `requestText.trim().length == 0` never holds here: some retained line is not blank
        assert false;
      }
      node := Some(Request(range, requestText));
    }
  }

  /** The exported `parse`: a fresh parser run over the whole document. */
  method ParseDocument(host: Host, document: Document) returns (root: DocumentNode)
    ensures root == DocumentNode(document, ParseFrom(host, document, 0))
  {
    var parser := new DocumentParser(host, document);
    root := parser.Parse();
  }
}
