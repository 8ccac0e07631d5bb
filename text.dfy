/**
 * Characters, lines and ranges as the editor and JavaScript see them: the `\s` class,
 * the characters `.` does not match, word characters, a document line with its range,
 * `Array.prototype.join`, and `String.prototype.split(/\r?\n/)`.
 */
module Text {

  import opened Wrappers

  /** JavaScript's `\s` class: WhiteSpace and LineTerminator. `String.prototype.trim` strips exactly these. */
  predicate IsWhitespace(c: char) {
    c == '\t' || c == '\n' || c == '\U{000B}' || c == '\U{000C}' || c == '\r' || c == ' '
    || c == '\U{00A0}' || c == '\U{1680}' || ('\U{2000}' <= c <= '\U{200A}')
    || c == '\U{2028}' || c == '\U{2029}' || c == '\U{202F}' || c == '\U{205F}' || c == '\U{3000}'
    || c == '\U{FEFF}'
  }

  /** The characters that the regular-expression atom `.` does not match. */
  predicate IsLineTerminator(c: char) {
    c == '\n' || c == '\r' || c == '\U{2028}' || c == '\U{2029}'
  }

  /** JavaScript's `\w` class. */
  predicate IsWordChar(c: char) {
    ('a' <= c <= 'z') || ('A' <= c <= 'Z') || ('0' <= c <= '9') || c == '_'
  }

  /** `TextLine.isEmptyOrWhitespace`, and equally `s.trim().length == 0`. */
  predicate Blank(s: string) {
    forall k :: 0 <= k < |s| ==> IsWhitespace(s[k])
  }

  /** A position range in a document, as the editor's `Range`. */
  datatype Range = Range(startLine: nat, startCharacter: nat, endLine: nat, endCharacter: nat)

  /** Positions compare by line, then by character. */
  predicate Before(line1: nat, char1: nat, line2: nat, char2: nat) {
    line1 < line2 || (line1 == line2 && char1 <= char2)
  }

  /** `Range.union`: the smallest range that contains both. */
  function Union(a: Range, b: Range): (r: Range)
    ensures Before(r.startLine, r.startCharacter, a.startLine, a.startCharacter)
    ensures Before(r.startLine, r.startCharacter, b.startLine, b.startCharacter)
    ensures Before(a.endLine, a.endCharacter, r.endLine, r.endCharacter)
    ensures Before(b.endLine, b.endCharacter, r.endLine, r.endCharacter)
    // smallest: it starts at one of the two starts and ends at one of the two ends
    ensures (r.startLine, r.startCharacter) == (a.startLine, a.startCharacter)
         || (r.startLine, r.startCharacter) == (b.startLine, b.startCharacter)
    ensures (r.endLine, r.endCharacter) == (a.endLine, a.endCharacter)
         || (r.endLine, r.endCharacter) == (b.endLine, b.endCharacter)
  {
    var (sl, sc) :=
      if Before(a.startLine, a.startCharacter, b.startLine, b.startCharacter)
      then (a.startLine, a.startCharacter) else (b.startLine, b.startCharacter);
    var (el, ec) :=
      if Before(a.endLine, a.endCharacter, b.endLine, b.endCharacter)
      then (b.endLine, b.endCharacter) else (a.endLine, a.endCharacter);
    Range(sl, sc, el, ec)
  }

  /** One line of a document: its number and its text without the line break. */
  datatype TextLine = TextLine(lineNumber: nat, text: string) {
    /** `TextLine.range`: from the first character to the end of the line. */
    function LineRange(): Range {
      Range(lineNumber, 0, lineNumber, |text|)
    }
  }

  /** The `TextLine`s of lines `lo` to `hi - 1`, as `document.lineAt` returns them. */
  function LinesOf(lines: seq<string>, lo: nat, hi: nat): (r: seq<TextLine>)
    requires lo <= hi <= |lines|
    ensures |r| == hi - lo
    ensures forall k :: 0 <= k < |r| ==> r[k] == TextLine(lo + k, lines[lo + k])
  {
    seq(hi - lo, k requires 0 <= k < hi - lo => TextLine(lo + k, lines[lo + k]))
  }

  function Texts(ls: seq<TextLine>): (r: seq<string>)
    ensures |r| == |ls| && forall k :: 0 <= k < |ls| ==> r[k] == ls[k].text
  {
    seq(|ls|, k requires 0 <= k < |ls| => ls[k].text)
  }

  /** `parts.join(sep)`. */
  function Join(parts: seq<string>, sep: string): string {
    if |parts| == 0 then ""
    else if |parts| == 1 then parts[0]
    else parts[0] + sep + Join(parts[1..], sep)
  }

  /** A joined text is blank only if every part is: a non-blank part survives the join whatever the separator. */
  lemma {:induction false} JoinKeepsNonBlankPart(parts: seq<string>, sep: string, k: nat)
    requires k < |parts| && !Blank(parts[k])
    ensures !Blank(Join(parts, sep))
  {
    var c :| 0 <= c < |parts[k]| && !IsWhitespace(parts[k][c]);
    if k == 0 {
      assert Join(parts, sep)[c] == parts[0][c];
    } else {
      JoinKeepsNonBlankPart(parts[1..], sep, k - 1);
      var rest := Join(parts[1..], sep);
      var c' :| 0 <= c' < |rest| && !IsWhitespace(rest[c']);
      var prefix := parts[0] + sep;
      assert Join(parts, sep) == prefix + rest;
      assert Join(parts, sep)[|prefix| + c'] == rest[c'];
    }
  }

  /** The first `'\n'` at or after `from`, if any. */
  function NextNewline(text: string, from: nat): (r: Option<nat>)
    requires from <= |text|
    ensures r.Some? ==> from <= r.value < |text| && text[r.value] == '\n'
    ensures forall k :: from <= k < |text| && (r.None? || k < r.value) ==> text[k] != '\n'
    decreases |text| - from
  {
    if from == |text| then None
    else if text[from] == '\n' then Some(from)
    else NextNewline(text, from + 1)
  }

  /** The number of `'\n'` characters in `text`. */
  function Newlines(text: string): nat {
    if |text| == 0 then 0 else (if text[0] == '\n' then 1 else 0) + Newlines(text[1..])
  }

  /** `text` with every `'\r'` that stands right before a `'\n'` removed, read character by character. */
  function DropCarriageReturns(text: string): string {
    if |text| == 0 then ""
    else if |text| >= 2 && text[0] == '\r' && text[1] == '\n' then DropCarriageReturns(text[1..])
    else [text[0]] + DropCarriageReturns(text[1..])
  }

  /**
   * `text.split(/\r?\n/)`: the leftmost separator is a `'\n'` together with a `'\r'` right before it.
   * There is one line more than there are `'\n'` characters, no line keeps a `'\n'`, and joining
   * the lines with `'\n'` gives back the text without the `'\r'` of each `"\r\n"`: each line is
   * the text between two consecutive `'\n'`s, one `'\r'` before the second dropped.
   */
  function SplitLines(text: string): (lines: seq<string>)
    ensures |lines| == Newlines(text) + 1
    ensures forall k, c :: 0 <= k < |lines| && 0 <= c < |lines[k]| ==> lines[k][c] != '\n'
    ensures Join(lines, "\n") == DropCarriageReturns(text)
    decreases |text|
  {
    match NextNewline(text, 0)
    case None =>
      NoNewlines(text);
      NoNewlinesKept(text);
      [text]
    case Some(n) =>
      var cut := if n > 0 && text[n - 1] == '\r' then n - 1 else n;
      NewlinesSplit(text, n);
      DropAcrossNewline(text, n);
      var rest := SplitLines(text[n + 1..]);
      assert ([text[..cut]] + rest)[1..] == rest;
      [text[..cut]] + rest
  }

  /** Without a `'\n'` there is no `'\r'` to drop. */
  lemma {:induction false} NoNewlinesKept(text: string)
    requires forall k :: 0 <= k < |text| ==> text[k] != '\n'
    ensures DropCarriageReturns(text) == text
  {
    if |text| > 0 {
      NoNewlinesKept(text[1..]);
      assert text == [text[0]] + text[1..];
    }
  }

  /** Dropping carriage returns up to the first `'\n'`, at `n`, leaves the first line, the `'\n'`, and the rest dropped. */
  lemma {:induction false} DropAcrossNewline(text: string, n: nat)
    requires n < |text| && text[n] == '\n'
    requires forall k :: 0 <= k < n ==> text[k] != '\n'
    ensures var cut := if n > 0 && text[n - 1] == '\r' then n - 1 else n;
      DropCarriageReturns(text) == text[..cut] + "\n" + DropCarriageReturns(text[n + 1..])
  {
    if n == 0 {
      assert text[1..] == text[n + 1..];
    } else if n == 1 && text[0] == '\r' {
      var t := text[1..];
      assert t[0] == '\n' && t[1..] == text[2..];
      assert DropCarriageReturns(t) == "\n" + DropCarriageReturns(text[2..]);
    } else {
      var t := text[1..];
      DropKeepsFirst(text);
      hide DropCarriageReturns;
      assert t[n - 1] == '\n';
      assert forall k :: 0 <= k < n - 1 ==> t[k] == text[k + 1];
      DropAcrossNewline(t, n - 1);
      assert t[n..] == text[n + 1..];
      var cut := if n > 0 && text[n - 1] == '\r' then n - 1 else n;
      var cut' := if n - 1 > 0 && t[n - 2] == '\r' then n - 2 else n - 1;
      assert cut' == cut - 1;
      assert text[..cut] == [text[0]] + t[..cut'];
      calc {
        DropCarriageReturns(text);
        [text[0]] + DropCarriageReturns(t);
        [text[0]] + (t[..cut'] + "\n" + DropCarriageReturns(text[n + 1..]));
        ([text[0]] + t[..cut']) + "\n" + DropCarriageReturns(text[n + 1..]);
      }
    }
  }

  lemma DropKeepsFirst(text: string)
    requires |text| > 0 && !(|text| >= 2 && text[0] == '\r' && text[1] == '\n')
    ensures DropCarriageReturns(text) == [text[0]] + DropCarriageReturns(text[1..])
  {
  }

  lemma {:induction false} NoNewlines(text: string)
    requires forall k :: 0 <= k < |text| ==> text[k] != '\n'
    ensures Newlines(text) == 0
  {
    if |text| > 0 {
      NoNewlines(text[1..]);
    }
  }

  /** Counting the newlines across the first one. */
  lemma {:induction false} NewlinesSplit(text: string, n: nat)
    requires n < |text| && text[n] == '\n'
    requires forall k :: 0 <= k < n ==> text[k] != '\n'
    ensures Newlines(text) == 1 + Newlines(text[n + 1..])
  {
    if n > 0 {
      assert text[1..][n - 1] == '\n';
      assert text[1..][n..] == text[n + 1..];
      NewlinesSplit(text[1..], n - 1);
    } else {
      assert text[1..] == text[n + 1..];
    }
  }
}
