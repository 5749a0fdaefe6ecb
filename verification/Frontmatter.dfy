/** Splitting a document's frontmatter envelope off, and putting it back. */
module Frontmatter {
  import opened SourceEdits

  const FENCE := "---"
  const COMMENT_ENVELOPE_OPEN := "<!-- doc-lattice"
  const COMMENT_ENVELOPE_CLOSE := "-->"
  const BYTE_ORDER_MARK: char := '\U{FEFF}'

  // ---- lines -------------------------------------------------------------------------

  /** The pieces between line feeds, at least one. */
  function Split(s: string): (lines: seq<string>)
    ensures |lines| > 0
  {
    if s == "" then [""]
    else if s[0] == '\n' then [""] + Split(s[1..])
    else var rest := Split(s[1..]); [[s[0]] + rest[0]] + rest[1..]
  }

  function Join(lines: seq<string>): string
  {
    if lines == [] then "" else if |lines| == 1 then lines[0] else lines[0] + "\n" + Join(lines[1..])
  }

  lemma {:induction false} JoinSplit(s: string)
    ensures Join(Split(s)) == s
    ensures forall i :: 0 <= i < |Split(s)| ==> '\n' !in Split(s)[i]
  {
    if s != "" {
      JoinSplit(s[1..]);
      var rest := Split(s[1..]);
      if s[0] == '\n' {
        assert Split(s)[1..] == rest;
        assert s == "\n" + s[1..];
      } else {
        assert Split(s)[1..] == rest[1..];
        assert s == [s[0]] + s[1..];
      }
    }
  }

  lemma {:induction false} SplitLine(line: string)
    requires '\n' !in line
    ensures Split(line) == [line]
  {
    if line != "" {
      SplitLine(line[1..]);
      assert line == [line[0]] + line[1..];
    }
  }

  lemma {:induction false} SplitFirst(line: string, rest: string)
    requires '\n' !in line
    ensures Split(line + "\n" + rest) == [line] + Split(rest)
  {
    var s := line + "\n" + rest;
    if line == "" {
      assert s[1..] == rest;
    } else {
      SplitFirst(line[1..], rest);
      assert s[1..] == line[1..] + "\n" + rest;
      assert line == [line[0]] + line[1..];
    }
  }

  /** Two runs of lines, each ended by a line feed where another follows. */
  lemma {:induction false} JoinAppend(a: seq<string>, b: seq<string>)
    requires a != [] && b != []
    ensures Join(a + b) == Join(a) + "\n" + Join(b)
  {
    if |a| == 1 {
      assert (a + b)[1..] == b;
    } else {
      assert (a + b)[1..] == a[1..] + b;
      JoinAppend(a[1..], b);
    }
  }

  /** Text without the spaces around it. */
  function Strip(s: string, isSpace: char -> bool): string
    decreases |s|
  {
    if s == "" then ""
    else if isSpace(s[0]) then Strip(s[1..], isSpace)
    else if isSpace(s[|s| - 1]) then Strip(s[..|s| - 1], isSpace)
    else s
  }

  function LeadingMarks(s: string): (n: nat)
    ensures n <= |s|
  {
    if s != "" && s[0] == BYTE_ORDER_MARK then 1 + LeadingMarks(s[1..]) else 0
  }

  // ---- the envelope ------------------------------------------------------------------

  datatype EnvelopeKind = Fence | Comment

  datatype Parts = Parts(prefix: string, openFence: string, rawMeta: string, closeFence: string,
                         closeFenceNewline: string, body: string, kind: EnvelopeKind,
                         metaStart: nat, metaEnd: nat)

  datatype SplitResult =
    | Enveloped(parts: Parts)
    | NoEnvelope
    | MarkBeforeComment
    | NearMiss
    | Unclosed

  predicate Closes(line: string, kind: EnvelopeKind, isSpace: char -> bool) {
    if kind == Fence then Strip(line, isSpace) == FENCE else line == COMMENT_ENVELOPE_CLOSE
  }

  /** The first closing line from the k-th on, or the number of lines. */
  function ClosingIndex(lines: seq<string>, kind: EnvelopeKind, isSpace: char -> bool, k: nat): (c: nat)
    requires k <= |lines|
    ensures k <= c <= |lines| && (c < |lines| ==> Closes(lines[c], kind, isSpace))
    ensures forall i :: k <= i < c ==> !Closes(lines[i], kind, isSpace)
    decreases |lines| - k
  {
    if k == |lines| || Closes(lines[k], kind, isSpace) then k else ClosingIndex(lines, kind, isSpace, k + 1)
  }

  /** The pieces of an envelope that closes at line `c`. */
  function PartsAt(prefix: string, lines: seq<string>, kind: EnvelopeKind, c: nat): Parts
    requires 1 <= c < |lines|
  {
    var raw := Join(lines[1..c]);
    var metaStart := |prefix| + |lines[0]| + 1;
    Parts(
      prefix,
      lines[0],
      if raw != "" then raw + "\n" else "",
      lines[c],
      if c < |lines| - 1 then "\n" else "",
      Join(lines[c + 1..]),
      kind,
      metaStart,
      metaStart + if raw != "" then |raw| + 1 else 0)
  }

  function SplitEnvelope(prefix: string, lines: seq<string>, kind: EnvelopeKind, isSpace: char -> bool): SplitResult
    requires lines != []
  {
    var c := ClosingIndex(lines, kind, isSpace, 1);
    if c == |lines| then Unclosed else Enveloped(PartsAt(prefix, lines, kind, c))
  }

  function SplitParts(text: string, isSpace: char -> bool, nearMiss: string -> bool): SplitResult
  {
    var prefix := text[..LeadingMarks(text)];
    var lines := Split(text[LeadingMarks(text)..]);
    if Strip(lines[0], isSpace) == FENCE then SplitEnvelope(prefix, lines, Fence, isSpace)
    else if lines[0] == COMMENT_ENVELOPE_OPEN then
      if prefix != "" then MarkBeforeComment else SplitEnvelope(prefix, lines, Comment, isSpace)
    else if nearMiss(lines[0]) then NearMiss
    else NoEnvelope
  }

  // ---- which texts have an envelope ------------------------------------------------------

  /** The text starts with exactly `n` byte-order marks. */
  ghost predicate MarksAhead(text: string, n: nat)
  {
    && n <= |text| && (n < |text| ==> text[n] != BYTE_ORDER_MARK)
    && forall i :: 0 <= i < n ==> text[i] == BYTE_ORDER_MARK
  }

  /** The lines of a text: joined by line feeds they are the text, and none holds one. */
  ghost predicate AreLines(lines: seq<string>, s: string)
  {
    lines != [] && Join(lines) == s && forall i :: 0 <= i < |lines| ==> '\n' !in lines[i]
  }

  /** The line is `core` with spaces around it. */
  ghost predicate Surrounds(line: string, core: string, isSpace: char -> bool)
  {
    exists i, j :: 0 <= i <= j <= |line| && SpacedAt(line, core, isSpace, i, j)
  }

  ghost predicate SpacedAt(line: string, core: string, isSpace: char -> bool, i: nat, j: nat)
    requires i <= j <= |line|
  {
    && line[i..j] == core && (forall k :: 0 <= k < i ==> isSpace(line[k]))
    && (forall k :: j <= k < |line| ==> isSpace(line[k]))
    && (core != "" ==> !isSpace(core[0]) && !isSpace(core[|core| - 1]))
  }

  ghost predicate ClosesBlock(line: string, kind: EnvelopeKind, isSpace: char -> bool)
  {
    if kind == Fence then Surrounds(line, "---", isSpace) else line == "-->"
  }

  /** The first closing line after the opening one. */
  ghost predicate ClosedAt(lines: seq<string>, kind: EnvelopeKind, isSpace: char -> bool, c: nat)
  {
    && 1 <= c < |lines| && ClosesBlock(lines[c], kind, isSpace)
    && forall i :: 1 <= i < c ==> !ClosesBlock(lines[i], kind, isSpace)
  }

  /** A block opened by the first line: its pieces, or that no line closes it. */
  ghost predicate Opened(r: SplitResult, marks: string, lines: seq<string>, kind: EnvelopeKind,
                         isSpace: char -> bool)
    requires lines != []
  {
    match r
    case Enveloped(p) =>
      && p.kind == kind && p.prefix == marks && p.openFence == lines[0]
      && exists c: nat :: ClosedAt(lines, kind, isSpace, c)
           && p.closeFence == lines[c] && p.body == Join(lines[c + 1..])
           && p.closeFenceNewline == (if c + 1 < |lines| then "\n" else "")
           && p.rawMeta == (if Join(lines[1..c]) != "" then Join(lines[1..c]) + "\n" else "")
    case Unclosed => forall c: nat :: !ClosedAt(lines, kind, isSpace, c)
    case _ => false
  }

  lemma {:induction false} MarksAre(text: string, n: nat)
    requires MarksAhead(text, n)
    ensures LeadingMarks(text) == n
  {
    if n > 0 {
      MarksAre(text[1..], n - 1);
    }
  }

  lemma {:induction false} LinesAre(lines: seq<string>, s: string)
    requires AreLines(lines, s)
    ensures Split(s) == lines
  {
    if |lines| == 1 {
      SplitLine(lines[0]);
      assert lines == [lines[0]];
    } else {
      LinesAre(lines[1..], Join(lines[1..]));
      SplitFirst(lines[0], Join(lines[1..]));
      assert lines == [lines[0]] + lines[1..];
    }
  }

  lemma SliceTail(line: string, i: nat, j: nat)
    requires 0 < i <= j <= |line|
    ensures line[1..][i - 1..j - 1] == line[i..j]
  {
  }

  lemma {:induction false} StripSurrounds(line: string, isSpace: char -> bool)
    ensures Surrounds(line, Strip(line, isSpace), isSpace)
    decreases |line|
  {
    var core := Strip(line, isSpace);
    if line == "" {
      assert SpacedAt(line, core, isSpace, 0, 0);
    } else if isSpace(line[0]) {
      StripSurrounds(line[1..], isSpace);
      var i, j :| 0 <= i <= j <= |line[1..]| && SpacedAt(line[1..], core, isSpace, i, j);
      assert line[1..][i..j] == line[i + 1..j + 1];
      assert forall k :: 1 <= k < |line| ==> line[k] == line[1..][k - 1];
      assert SpacedAt(line, core, isSpace, i + 1, j + 1);
    } else if isSpace(line[|line| - 1]) {
      var front := line[..|line| - 1];
      StripSurrounds(front, isSpace);
      var i, j :| 0 <= i <= j <= |front| && SpacedAt(front, core, isSpace, i, j);
      assert front[i..j] == line[i..j];
      assert SpacedAt(line, core, isSpace, i, j);
    } else {
      assert SpacedAt(line, core, isSpace, 0, |line|);
    }
  }

  lemma {:induction false} SurroundsStrip(line: string, core: string, isSpace: char -> bool)
    requires Surrounds(line, core, isSpace) && core != ""
    ensures Strip(line, isSpace) == core
    decreases |line|
  {
    var i, j :| 0 <= i <= j <= |line| && SpacedAt(line, core, isSpace, i, j);
    assert line[i] == core[0] && line[j - 1] == core[|core| - 1];
    if isSpace(line[0]) {
      assert i > 0;
      SliceTail(line, i, j);
      assert forall k :: 0 <= k < |line| - 1 ==> line[1..][k] == line[k + 1];
      assert SpacedAt(line[1..], core, isSpace, i - 1, j - 1);
      SurroundsStrip(line[1..], core, isSpace);
    } else if isSpace(line[|line| - 1]) {
      assert j < |line| && line[..|line| - 1][i..j] == line[i..j];
      assert SpacedAt(line[..|line| - 1], core, isSpace, i, j);
      SurroundsStrip(line[..|line| - 1], core, isSpace);
    } else {
      assert i == 0 && j == |line|;
    }
  }

  lemma {:induction false} ClosesAsStated(line: string, kind: EnvelopeKind, isSpace: char -> bool)
    ensures Strip(line, isSpace) == FENCE <==> Surrounds(line, "---", isSpace)
    ensures Closes(line, kind, isSpace) <==> ClosesBlock(line, kind, isSpace)
  {
    StripSurrounds(line, isSpace);
    if Surrounds(line, "---", isSpace) {
      SurroundsStrip(line, "---", isSpace);
    }
  }

  lemma {:induction false} OpenedBlock(marks: string, lines: seq<string>, kind: EnvelopeKind, isSpace: char -> bool)
    requires lines != []
    ensures Opened(SplitEnvelope(marks, lines, kind, isSpace), marks, lines, kind, isSpace)
  {
    var c := ClosingIndex(lines, kind, isSpace, 1);
    forall i | 0 <= i < |lines| ensures Closes(lines[i], kind, isSpace) <==> ClosesBlock(lines[i], kind, isSpace) {
      ClosesAsStated(lines[i], kind, isSpace);
    }
    if c < |lines| {
      assert ClosedAt(lines, kind, isSpace, c);
    }
  }

  /** What a text is split into depends on its first line after any byte-order marks: a fence with
      spaces around it opens a fenced block, an exact comment opener a commented one, which no mark may
      precede; otherwise there is no envelope, or one was nearly written. */
  lemma SplitMeans(text: string, isSpace: char -> bool, nearMiss: string -> bool, n: nat, lines: seq<string>)
    requires MarksAhead(text, n) && AreLines(lines, text[n..])
    ensures var r := SplitParts(text, isSpace, nearMiss);
      if Surrounds(lines[0], "---", isSpace) then Opened(r, text[..n], lines, Fence, isSpace)
      else if lines[0] == "<!-- doc-lattice" then
        (if n > 0 then r == MarkBeforeComment else Opened(r, "", lines, Comment, isSpace))
      else r == if nearMiss(lines[0]) then NearMiss else NoEnvelope
  {
    MarksAre(text, n);
    LinesAre(lines, text[n..]);
    ClosesAsStated(lines[0], Fence, isSpace);
    OpenedBlock(text[..n], lines, Fence, isSpace);
    OpenedBlock(text[..n], lines, Comment, isSpace);
  }

  /** What stands before and after the metadata. */
  function Ahead(p: Parts): string { p.prefix + p.openFence + "\n" }

  function Behind(p: Parts): string { p.closeFence + p.closeFenceNewline + p.body }

  /** Everything around the metadata as it was written, with new metadata between. */
  function Reattach(p: Parts, newMeta: string): string
  {
    Ahead(p) + newMeta + Behind(p)
  }

  /** The block holds nothing but one blank line. */
  predicate OneBlankLine(text: string, p: Parts)
  {
    p.rawMeta == "" && p.metaStart < |text| && text[p.metaStart] == '\n'
  }

  // ---- the pieces against the text -------------------------------------------------------

  lemma StripNonempty(line: string, isSpace: char -> bool)
    requires Strip(line, isSpace) == FENCE
    ensures line != ""
  {
  }

  /** Joining the lines of an envelope spells its pieces. */
  lemma {:induction false} JoinEnvelope(lines: seq<string>, c: nat)
    requires 1 <= c < |lines|
    ensures Join(lines) == (lines[0] + "\n") + (if c > 1 then Join(lines[1..c]) + "\n" else "")
                           + (lines[c] + (if c < |lines| - 1 then "\n" else "") + Join(lines[c + 1..]))
  {
    var head, mid, tail := [lines[0]], lines[1..c], lines[c..];
    assert lines == head + (mid + tail) && tail[0] == lines[c] && tail[1..] == lines[c + 1..];
    JoinAppend(head, mid + tail);
    if c > 1 { JoinAppend(mid, tail); } else { assert mid + tail == tail; }
    assert Join(tail) == lines[c] + (if c < |lines| - 1 then "\n" else "") + Join(lines[c + 1..]);
  }

  /** Nothing joins to the empty text but no line, or one empty line. */
  lemma {:induction false} JoinEmpty(lines: seq<string>)
    ensures Join(lines) == "" <==> lines == [] || lines == [""]
  {
  }

  /** The text is what is before the metadata, the metadata or one blank line, and what is after. */
  ghost predicate Shaped(text: string, p: Parts, blank: bool)
  {
    && text == Ahead(p) + (if blank then "\n" else p.rawMeta) + Behind(p)
    && (blank ==> p.rawMeta == "") && p.closeFence != "" && p.closeFence[0] != '\n'
    && p.metaStart == |Ahead(p)| && p.metaEnd == p.metaStart + |p.rawMeta|
  }

  /** A joined envelope is what is before the metadata, the metadata or one blank line, and what
      is after it. */
  lemma {:induction false} EnvelopeShape(prefix: string, lines: seq<string>, kind: EnvelopeKind, c: nat)
    returns (blank: bool)
    requires 1 <= c < |lines| && lines[c] != "" && '\n' !in lines[c]
    ensures Shaped(prefix + Join(lines), PartsAt(prefix, lines, kind, c), blank)
  {
    var p := PartsAt(prefix, lines, kind, c);
    JoinEnvelope(lines, c);
    JoinEmpty(lines[1..c]);
    assert lines[c][0] in lines[c];
    blank := c > 1 && p.rawMeta == "";
    var between := if c > 1 then Join(lines[1..c]) + "\n" else "";
    assert between == if blank then "\n" else p.rawMeta;
    Regrouped(prefix, lines[0], between, Behind(p));
    assert Ahead(p) == prefix + lines[0] + "\n";
  }

  lemma Regrouped(a: string, b: string, c: string, d: string)
    ensures a + ((b + "\n") + c + d) == (a + b + "\n") + c + d
  {
  }

  /** The offsets delimit the metadata, and putting the pieces back gives the text exactly unless
      the block holds nothing but one blank line. */
  lemma ShapedPieces(text: string, p: Parts, blank: bool)
    requires Shaped(text, p, blank)
    ensures p.metaStart == |Ahead(p)| && p.metaStart <= p.metaEnd
    ensures p.metaEnd <= |text| && text[p.metaStart..p.metaEnd] == p.rawMeta
    ensures OneBlankLine(text, p) <==> blank
    ensures Reattach(p, p.rawMeta) == text <==> !blank
  {
    if blank {
      assert text[p.metaStart] == '\n';
    } else if p.rawMeta == "" {
      assert text[p.metaStart] == Behind(p)[0] == p.closeFence[0];
    }
  }

  /** The offsets of a split always delimit its metadata, and its pieces round-trip exactly
      unless the block holds nothing but one blank line. */
  lemma SplitPieces(text: string, isSpace: char -> bool, nearMiss: string -> bool)
    requires SplitParts(text, isSpace, nearMiss).Enveloped?
    ensures var p := SplitParts(text, isSpace, nearMiss).parts;
      && p.metaStart == |Ahead(p)| && p.metaStart <= p.metaEnd <= |text|
      && text[p.metaStart..p.metaEnd] == p.rawMeta
      && (Reattach(p, p.rawMeta) == text <==> !OneBlankLine(text, p))
  {
    var blank := SplitShape(text, isSpace, nearMiss);
    ShapedPieces(text, SplitParts(text, isSpace, nearMiss).parts, blank);
  }

  lemma SplitShape(text: string, isSpace: char -> bool, nearMiss: string -> bool) returns (blank: bool)
    requires SplitParts(text, isSpace, nearMiss).Enveloped?
    ensures Shaped(text, SplitParts(text, isSpace, nearMiss).parts, blank)
  {
    var p := SplitParts(text, isSpace, nearMiss).parts;
    var n := LeadingMarks(text);
    var prefix, lines := text[..n], Split(text[n..]);
    JoinSplit(text[n..]);
    assert text == prefix + Join(lines);
    var c := ClosingIndex(lines, p.kind, isSpace, 1);
    assert lines[c] != "" by { if p.kind == Fence { StripNonempty(lines[c], isSpace); } }
    blank := EnvelopeShape(prefix, lines, p.kind, c);
  }

  lemma SplitBlankBlock()
    ensures Split("---\n\n---") == ["---", "", "---"]
  {
    SplitLine("---");
    SplitFirst("", "---");
    SplitFirst("---", "\n---");
    assert "" + "\n" + "---" == "\n---" && "---\n\n---" == "---" + "\n" + "\n---";
  }

  lemma CloseBlankBlock(isSpace: char -> bool)
    requires !isSpace('-')
    ensures Strip("---", isSpace) == FENCE
    ensures ClosingIndex(["---", "", "---"], Fence, isSpace, 1) == 2
  {
    var lines := ["---", "", "---"];
    assert Strip("---", isSpace) == FENCE && Strip("", isSpace) == "";
    assert ClosingIndex(lines, Fence, isSpace, 2) == 2;
  }

  /** The exception is real: a fenced block of one blank line comes back without it. */
  lemma BlankLineIsLost(isSpace: char -> bool, nearMiss: string -> bool)
    requires !isSpace('-')
    ensures var r := SplitParts("---\n\n---", isSpace, nearMiss);
      r.Enveloped? && r.parts.rawMeta == "" && Reattach(r.parts, "") == "---\n---"
  {
    var text, lines := "---\n\n---", ["---", "", "---"];
    SplitBlankBlock();
    CloseBlankBlock(isSpace);
    assert LeadingMarks(text) == 0 && text[0..] == text;
    var p := PartsAt("", lines, Fence, 2);
    assert lines[1..2] == [""] && lines[3..] == [];
    assert SplitParts(text, isSpace, nearMiss) == Enveloped(p);
  }

  // ---- the rewritten file --------------------------------------------------------------

  datatype Rewriting = Rewritten(text: string) | Unsplit(why: SplitResult)

  /** Split the file, edit its metadata, and put everything else back as it was. `plan` gives the
      edits for some metadata: none for an empty block. */
  method RewriteFile(text: string, isSpace: char -> bool, nearMiss: string -> bool, plan: string -> seq<Edit>)
    returns (r: Rewriting)
    requires plan("") == []
    ensures r.Unsplit? <==> SplitParts(text, isSpace, nearMiss) in {MarkBeforeComment, NearMiss, Unclosed}
    ensures SplitParts(text, isSpace, nearMiss).NoEnvelope? ==> r == Rewritten(text)
    ensures SplitParts(text, isSpace, nearMiss).Enveloped? ==>
      EditedInPlace(text, SplitParts(text, isSpace, nearMiss).parts, plan, r)
  {
    match SplitParts(text, isSpace, nearMiss)
    case NoEnvelope => return Rewritten(text);
    case Enveloped(p) =>
      SplitPieces(text, isSpace, nearMiss);
      var edits := plan(p.rawMeta);
      if edits == [] {
        NoEdits(text, 0);
        return Rewritten(text);
      }
      var newMeta := ApplySourceEdits(p.rawMeta, edits);
      if WellListed(Unique(edits), |p.rawMeta|) { RewriteIsEdit(text, p, Unique(edits)); }
      if WellListed(edits, |p.rawMeta|) { RewriteIsEdit(text, p, edits); }
      return Rewritten(Reattach(p, newMeta));
    case other => return Unsplit(other);
  }

  /** Only the metadata is rewritten; where the edits are well listed, the result is the whole
      file with the planned spans replaced at once and nothing else changed. */
  ghost predicate EditedInPlace(text: string, p: Parts, plan: string -> seq<Edit>, r: Rewriting)
  {
    var unique := Unique(plan(p.rawMeta));
    && r.Rewritten?
    && (r.text == text || r.text == Reattach(p, ApplyInOrder(p.rawMeta, ByStart(unique))))
    && (WellListed(unique, |p.rawMeta|) ==>
          && WithinBounds(Shifted(unique, p.metaStart), |text|)
          && r.text == AllAtOnce(text, Shifted(unique, p.metaStart), 0))
    && (WellListed(plan(p.rawMeta), |p.rawMeta|) ==>
          && WithinBounds(Shifted(plan(p.rawMeta), p.metaStart), |text|)
          && r.text == AllAtOnce(text, Shifted(plan(p.rawMeta), p.metaStart), 0))
  }

  lemma {:induction false} NoEdits(text: string, p: nat)
    requires p <= |text|
    ensures AllAtOnce(text, [], p) == text[p..]
    decreases |text| - p
  {
    if p < |text| {
      NoEdits(text, p + 1);
      assert text[p..] == [text[p]] + text[p + 1..];
    }
  }

  lemma RewriteIsEdit(text: string, p: Parts, edits: seq<Edit>)
    requires WithinBounds(edits, |p.rawMeta|) && Reattach(p, p.rawMeta) == text && p.metaStart == |Ahead(p)|
    ensures WithinBounds(Shifted(edits, p.metaStart), |text|)
    ensures Reattach(p, AllAtOnce(p.rawMeta, edits, 0)) == AllAtOnce(text, Shifted(edits, p.metaStart), 0)
  {
    EditsOfAPart(Ahead(p), p.rawMeta, Behind(p), edits);
  }
}
