/** The notebook side of the translator (`process_jupyter_notebook`): the
    cells are an array updated in place; the collection loop gathers one
    unit per non-blank markdown cell and one per comment of each code cell;
    the write-back loop pairs units with translations (`zip`) and either
    overwrites a markdown cell or splices a translation into the CURRENT
    source of a code cell. */
module Notebook {
  import opened Wrappers
  import opened PyStr
  import opened CommentScan
  import opened DeepL
  import opened Batching
  import opened FileNames

  datatype CellType = Markdown | Code | Raw

  /** A cell as the translator sees it: its type and its source text. */
  datatype Cell = Cell(cellType: CellType, source: string)

  /** Where a translation goes (`text_refs`): over the whole source of
      cell `cell`, or over the span [start, end) of its source. */
  datatype TextRef = MarkdownRef(cell: nat) | CommentRef(cell: nat, start: nat, end: nat)

  // ---------------------------------------------------------------------
  // Collection
  // ---------------------------------------------------------------------

  /** The texts of the comments the loop keeps (`if comment_text.strip()`). */
  function CommentTexts(cs: seq<Comment>): seq<string>
  {
    if |cs| == 0 then []
    else CommentTexts(cs[..|cs| - 1]) + (if Strip(cs[|cs| - 1].text) != [] then [cs[|cs| - 1].text] else [])
  }

  /** The references of the same comments, in cell `i`. */
  function CommentRefs(i: nat, cs: seq<Comment>): seq<TextRef>
  {
    if |cs| == 0 then []
    else
      var c := cs[|cs| - 1];
      CommentRefs(i, cs[..|cs| - 1]) + (if Strip(c.text) != [] then [CommentRef(i, c.start, c.end)] else [])
  }

  /** The texts one cell contributes: a markdown cell its whole source when
      that is not empty after `strip()`, a non-empty code cell its
      comments, a raw cell nothing. */
  function CellTexts(c: Cell): seq<string>
  {
    match c.cellType
    case Markdown => if c.source != [] && Strip(c.source) != [] then [c.source] else []
    case Code => if c.source != [] then CommentTexts(CommentsOf(c.source)) else []
    case Raw => []
  }

  /** The references one cell, at index `i`, contributes. */
  function CellRefs(i: nat, c: Cell): seq<TextRef>
  {
    match c.cellType
    case Markdown => if c.source != [] && Strip(c.source) != [] then [MarkdownRef(i)] else []
    case Code => if c.source != [] then CommentRefs(i, CommentsOf(c.source)) else []
    case Raw => []
  }

  /** `texts_to_translate` after the loop over `cells`. */
  function NotebookTexts(cells: seq<Cell>): seq<string>
  {
    if |cells| == 0 then [] else NotebookTexts(cells[..|cells| - 1]) + CellTexts(cells[|cells| - 1])
  }

  /** `text_refs` after the loop over `cells`. */
  function NotebookRefs(cells: seq<Cell>): seq<TextRef>
  {
    if |cells| == 0 then [] else NotebookRefs(cells[..|cells| - 1]) + CellRefs(|cells| - 1, cells[|cells| - 1])
  }

  /** The collection loop over the cells, and the inner loop over the
      comments of a code cell: it ends with exactly the texts and
      references the functions above describe. */
  method CollectUnits(cells: array<Cell>) returns (texts: seq<string>, refs: seq<TextRef>)
    ensures texts == NotebookTexts(cells[..])
    ensures refs == NotebookRefs(cells[..])
  {
    texts, refs := [], [];
    for i := 0 to cells.Length
      invariant texts == NotebookTexts(cells[..i])
      invariant refs == NotebookRefs(cells[..i])
    {
      var cell := cells[i];
      assert cells[..i + 1][..i] == cells[..i];
      if cell.cellType == Markdown {
        if cell.source != [] && Strip(cell.source) != [] {
          texts := texts + [cell.source];
          refs := refs + [MarkdownRef(i)];
        }
      } else if cell.cellType == Code {
        if cell.source != [] {
          var comments := ExtractComments(cell.source);
          texts, refs := AppendComments(texts, refs, i, comments);
        }
      }
    }
    assert cells[..cells.Length] == cells[..];
  }

  /** The inner loop over the comments of code cell `i`: it appends the
      text and the reference of every comment whose text is not blank. */
  method AppendComments(texts0: seq<string>, refs0: seq<TextRef>, i: nat, comments: seq<Comment>)
    returns (texts: seq<string>, refs: seq<TextRef>)
    ensures texts == texts0 + CommentTexts(comments)
    ensures refs == refs0 + CommentRefs(i, comments)
  {
    texts, refs := texts0, refs0;
    for j := 0 to |comments|
      invariant texts == texts0 + CommentTexts(comments[..j])
      invariant refs == refs0 + CommentRefs(i, comments[..j])
    {
      var c := comments[j];
      ghost var pre := comments[..j + 1];
      assert pre[..|pre| - 1] == comments[..j] && pre[|pre| - 1] == c;
      if Strip(c.text) != [] {
        texts := texts + [c.text];
        refs := refs + [CommentRef(i, c.start, c.end)];
      }
    }
    assert comments[..|comments|] == comments;
  }

  lemma {:induction false} CommentUnitsAligned(i: nat, cs: seq<Comment>)
    ensures |CommentTexts(cs)| == |CommentRefs(i, cs)|
  {
    if |cs| > 0 {
      CommentUnitsAligned(i, cs[..|cs| - 1]);
    }
  }

  /** There is one reference per text. */
  lemma {:induction false} UnitsAligned(cells: seq<Cell>)
    ensures |NotebookTexts(cells)| == |NotebookRefs(cells)|
  {
    if |cells| > 0 {
      UnitsAligned(cells[..|cells| - 1]);
      var c := cells[|cells| - 1];
      if c.cellType == Code && c.source != [] {
        CommentUnitsAligned(|cells| - 1, CommentsOf(c.source));
      }
    }
  }

  /** A markdown cell gives a unit exactly when its source is not all
      whitespace (the empty source included), and that unit is the whole
      source; a raw cell never gives one. */
  lemma {:induction false} MarkdownUnit(c: Cell, i: nat)
    ensures c.cellType == Markdown ==>
      CellTexts(c) == (if AllSpace(c.source) then [] else [c.source]) &&
      CellRefs(i, c) == (if AllSpace(c.source) then [] else [MarkdownRef(i)])
    ensures c.cellType == Raw ==> CellTexts(c) == [] && CellRefs(i, c) == []
  {
    StripEmpty(c.source);
  }

  /** The second `strip()` filter keeps every comment whose text is not
      blank: such comments give one text each, in order ... */
  lemma {:induction false} CommentTextsAll(cs: seq<Comment>)
    requires forall k :: 0 <= k < |cs| ==> Strip(cs[k].text) != []
    ensures |CommentTexts(cs)| == |cs|
    ensures forall k :: 0 <= k < |cs| ==> CommentTexts(cs)[k] == cs[k].text
  {
    if |cs| > 0 {
      var n := |cs| - 1;
      var init := cs[..n];
      CommentTextsAll(init);
      var texts := CommentTexts(cs);
      assert texts == CommentTexts(init) + [cs[n].text];
      forall k | 0 <= k < n ensures texts[k] == cs[k].text {
        assert cs[k] == init[k] && texts[k] == CommentTexts(init)[k];
      }
    }
  }

  /** ... and one reference each, with the comment's span. */
  lemma {:induction false} CommentRefsAll(i: nat, cs: seq<Comment>)
    requires forall k :: 0 <= k < |cs| ==> Strip(cs[k].text) != []
    ensures |CommentRefs(i, cs)| == |cs|
    ensures forall k :: 0 <= k < |cs| ==> CommentRefs(i, cs)[k] == CommentRef(i, cs[k].start, cs[k].end)
  {
    if |cs| > 0 {
      var n := |cs| - 1;
      var init := cs[..n];
      CommentRefsAll(i, init);
      var refs := CommentRefs(i, cs);
      assert refs == CommentRefs(i, init) + [CommentRef(i, cs[n].start, cs[n].end)];
      forall k | 0 <= k < n ensures refs[k] == CommentRef(i, cs[k].start, cs[k].end) {
        assert cs[k] == init[k] && refs[k] == CommentRefs(i, init)[k];
      }
    }
  }

  /** The filter never drops a comment the scanner emits, since each is
      already stripped and non-empty: a non-empty code cell gives one unit
      per comment, in order, with that comment's text and span. */
  lemma {:induction false} CodeCellUnits(c: Cell, i: nat)
    requires c.cellType == Code && c.source != []
    ensures |CellTexts(c)| == |CellRefs(i, c)| == |CommentsOf(c.source)|
    ensures forall k :: 0 <= k < |CellTexts(c)| ==>
      CellTexts(c)[k] == CommentsOf(c.source)[k].text &&
      CellRefs(i, c)[k] == CommentRef(i, CommentsOf(c.source)[k].start, CommentsOf(c.source)[k].end)
  {
    var cs := CommentsOf(c.source);
    forall k | 0 <= k < |cs| ensures Strip(cs[k].text) != [] {
      CommentSpan(c.source, cs[k]);
    }
    CommentTextsAll(cs);
    CommentRefsAll(i, cs);
  }

  /** A reference the collection produces points at a cell of the right
      type: a markdown reference at a markdown cell, a comment reference at
      a code cell, with a span that lies inside that cell's source. */
  ghost predicate RefFits(cells: seq<Cell>, r: TextRef)
  {
    r.cell < |cells| &&
    match r
    case MarkdownRef(i) => cells[i].cellType == Markdown
    case CommentRef(i, s, e) => cells[i].cellType == Code && 0 < s <= e <= |cells[i].source|
  }

  lemma {:induction false} CommentRefsFit(cells: seq<Cell>, i: nat, cs: seq<Comment>)
    requires i < |cells| && cells[i].cellType == Code
    requires forall c :: c in cs ==> c in CommentsOf(cells[i].source)
    ensures forall r :: r in CommentRefs(i, cs) ==> RefFits(cells, r)
  {
    if |cs| > 0 {
      var c := cs[|cs| - 1];
      assert forall d :: d in cs[..|cs| - 1] ==> d in cs;
      CommentRefsFit(cells, i, cs[..|cs| - 1]);
      assert Strip(c.text) != [] && 0 < c.start <= c.end <= |cells[i].source| by {
        CommentSpan(cells[i].source, c);
      }
    }
  }

  /** Every reference of a notebook fits that notebook. */
  lemma {:induction false} RefsFit(cells: seq<Cell>)
    ensures forall r :: r in NotebookRefs(cells) ==> RefFits(cells, r)
  {
    if |cells| > 0 {
      var prev := cells[..|cells| - 1];
      var last := |cells| - 1;
      RefsFit(prev);
      forall r | r in NotebookRefs(prev)
        ensures RefFits(cells, r)
      {
        assert RefFits(prev, r);
        assert cells[r.cell] == prev[r.cell];
      }
      if cells[last].cellType == Code && cells[last].source != [] {
        CommentRefsFit(cells, last, CommentsOf(cells[last].source));
      }
    }
  }

  // ---------------------------------------------------------------------
  // Write-back
  // ---------------------------------------------------------------------

  /** `orig[:s] + t + orig[e:]`, with Python's clamping of slice bounds. */
  function Splice(orig: string, s: nat, e: nat, t: string): (r: string)
    ensures s <= |orig| ==> s + |t| <= |r|
    ensures s <= e <= |orig| ==> |r| == |orig| - (e - s) + |t|
    ensures s <= |orig| ==> r[..s] == orig[..s]
    ensures s <= |orig| ==> r[s..s + |t|] == t
    ensures e <= |orig| ==> |r| >= |orig| - e && r[|r| - (|orig| - e)..] == orig[e..]
    ensures |orig| < e ==> r == SliceTo(orig, s) + t
  {
    SliceTo(orig, s) + t + SliceFrom(orig, e)
  }

  /** One unit written back into the cells. A markdown unit overwrites
      the whole source; a comment unit splices into the source the cell
      has NOW, which earlier units may already have changed. */
  function ApplyOne(cells: seq<Cell>, r: TextRef, t: string): (out: seq<Cell>)
    requires r.cell < |cells|
    ensures |out| == |cells|
  {
    var c := cells[r.cell];
    match r
    case MarkdownRef(i) => cells[i := Cell(c.cellType, t)]
    case CommentRef(i, s, e) => cells[i := Cell(c.cellType, Splice(c.source, s, e, t))]
  }

  /** The cells after the first `n` pairs of `zip(refs, ts)`. */
  function Applied(cells: seq<Cell>, refs: seq<TextRef>, ts: seq<string>, n: nat): (out: seq<Cell>)
    requires n <= |refs| && n <= |ts|
    requires forall k :: 0 <= k < |refs| ==> refs[k].cell < |cells|
    ensures |out| == |cells|
  {
    if n == 0 then cells else ApplyOne(Applied(cells, refs, ts, n - 1), refs[n - 1], ts[n - 1])
  }

  /** The write-back loop: `for ref, t in zip(text_refs, translated)`
      stops at the shorter list; each step updates one cell of the array
      in place. */
  method ApplyTranslations(cells: array<Cell>, refs: seq<TextRef>, translated: seq<string>)
    requires forall k :: 0 <= k < |refs| ==> refs[k].cell < cells.Length
    modifies cells
    ensures cells[..] == Applied(old(cells[..]), refs, translated, Min(|refs|, |translated|))
  {
    var n := Min(|refs|, |translated|);
    for k := 0 to n
      invariant cells[..] == Applied(old(cells[..]), refs, translated, k)
    {
      var r := refs[k];
      var cell := cells[r.cell];
      match r
      case MarkdownRef(i) =>
        cells[i] := Cell(cell.cellType, translated[k]);
      case CommentRef(i, s, e) =>
        var newCode := Splice(cell.source, s, e, translated[k]);
        cells[i] := Cell(cell.cellType, newCode);
    }
  }

  /** Writing back changes no cell type, and leaves every cell that none
      of the first `n` references points at exactly as it was. */
  lemma {:induction false} AppliedUntouched(cells: seq<Cell>, refs: seq<TextRef>, ts: seq<string>, n: nat, j: nat)
    requires n <= |refs| && n <= |ts|
    requires forall k :: 0 <= k < |refs| ==> refs[k].cell < |cells|
    requires j < |cells|
    ensures Applied(cells, refs, ts, n)[j].cellType == cells[j].cellType
    ensures (forall k :: 0 <= k < n ==> refs[k].cell != j) ==> Applied(cells, refs, ts, n)[j] == cells[j]
  {
    if n > 0 {
      AppliedUntouched(cells, refs, ts, n - 1, j);
    }
  }

  /** The last of the first `n` references to point at cell `j` decides
      what a markdown cell ends with: the translation paired with it. */
  lemma {:induction false} AppliedMarkdown(cells: seq<Cell>, refs: seq<TextRef>, ts: seq<string>, n: nat, k: nat)
    requires n <= |refs| && n <= |ts|
    requires forall q :: 0 <= q < |refs| ==> refs[q].cell < |cells|
    requires k < n && refs[k].MarkdownRef?
    requires forall q :: k < q < n ==> refs[q].cell != refs[k].cell
    ensures Applied(cells, refs, ts, n)[refs[k].cell].source == ts[k]
  {
    if n - 1 > k {
      AppliedMarkdown(cells, refs, ts, n - 1, k);
      AppliedOtherCell(cells, refs, ts, n, refs[k].cell);
    } else {
      AppliedMarkdownStep(cells, refs, ts, n);
    }
  }

  /** A code cell that exactly one of the first `n` references points at
      ends with that one splice applied to its original source. */
  lemma {:induction false} AppliedSingleComment(cells: seq<Cell>, refs: seq<TextRef>, ts: seq<string>, n: nat, k: nat)
    requires n <= |refs| && n <= |ts|
    requires forall q :: 0 <= q < |refs| ==> refs[q].cell < |cells|
    requires k < n && refs[k].CommentRef?
    requires forall q :: 0 <= q < n && q != k ==> refs[q].cell != refs[k].cell
    ensures Applied(cells, refs, ts, n)[refs[k].cell].source
      == Splice(cells[refs[k].cell].source, refs[k].start, refs[k].end, ts[k])
  {
    var r := refs[k];
    if n - 1 > k {
      AppliedSingleComment(cells, refs, ts, n - 1, k);
      AppliedOtherCell(cells, refs, ts, n, r.cell);
    } else {
      AppliedUntouched(cells, refs, ts, k, r.cell);
      AppliedCommentStep(cells, refs, ts, n);
    }
  }

  /** Step `n` of the write-back loop leaves every other cell as it was. */
  lemma {:induction false} AppliedOtherCell(cells: seq<Cell>, refs: seq<TextRef>, ts: seq<string>, n: nat, j: nat)
    requires 0 < n <= |refs| && n <= |ts| && j < |cells|
    requires forall q :: 0 <= q < |refs| ==> refs[q].cell < |cells|
    requires refs[n - 1].cell != j
    ensures Applied(cells, refs, ts, n)[j] == Applied(cells, refs, ts, n - 1)[j]
  {
  }

  /** Step `n` of the write-back loop, for a markdown reference: its cell
      gets the translation as its whole source. */
  lemma {:induction false} AppliedMarkdownStep(cells: seq<Cell>, refs: seq<TextRef>, ts: seq<string>, n: nat)
    requires 0 < n <= |refs| && n <= |ts|
    requires forall q :: 0 <= q < |refs| ==> refs[q].cell < |cells|
    requires refs[n - 1].MarkdownRef?
    ensures Applied(cells, refs, ts, n)[refs[n - 1].cell].source == ts[n - 1]
  {
  }

  // ---------------------------------------------------------------------
  // The whole notebook
  // ---------------------------------------------------------------------

  /** How a notebook run ends: nothing to translate (the source warns and
      stops), a failed request (reported and re-raised), or the name the
      translated notebook is saved under. */
  datatype Outcome = NothingToTranslate | Failed(error: Error) | Saved(outName: string)

  /** `process_jupyter_notebook` from the loaded cells on: collect the
      units, translate them batch by batch, write them back, and name the
      output file. The cells change only when every batch succeeded. */
  method TranslateNotebook(cells: array<Cell>, name: string, account: Account, targetLang: string, service: Request -> Reply)
    returns (outcome: Outcome)
    modifies cells
    ensures NotebookTexts(old(cells[..])) == [] ==>
      outcome == NothingToTranslate && cells[..] == old(cells[..])
    ensures NotebookTexts(old(cells[..])) != [] ==>
      match TranslateFrom(account, targetLang, service, NotebookTexts(old(cells[..])), 0)
      case Failure(e) =>
        outcome == Failed(e) && cells[..] == old(cells[..])
      case Success(ts) =>
        outcome == Saved(OutputName(name, "ipynb")) &&
        (forall k :: 0 <= k < |NotebookRefs(old(cells[..]))| ==> NotebookRefs(old(cells[..]))[k].cell < cells.Length) &&
        cells[..] == Applied(old(cells[..]), NotebookRefs(old(cells[..])), ts, Min(|NotebookRefs(old(cells[..]))|, |ts|))
  {
    var texts, refs := CollectUnits(cells);
    if |texts| == 0 {
      return NothingToTranslate;
    }
    var translated := TranslateAll(account, targetLang, service, texts);
    if translated.Failure? {
      return Failed(translated.error);
    }
    RefsFit(cells[..]);
    forall k | 0 <= k < |refs|
      ensures refs[k].cell < cells.Length
    {
      assert refs[k] in refs;
    }
    ApplyTranslations(cells, refs, translated.value);
    outcome := Saved(OutputName(name, "ipynb"));
  }

  // ---------------------------------------------------------------------
  // Two discrepancies between the write-back and what it evidently means
  // ---------------------------------------------------------------------

  lemma {:induction false} StripSpaceOne(c: char)
    requires !IsSpace(c)
    ensures LeadingSpace([' ', c]) == 1
    ensures Strip([' ', c]) == [c]
  {
    var s := [' ', c];
    assert s[1..] == [c];
    assert LeadingSpace([c]) == 0;
    assert LStrip(s) == [c];
    assert TrailingSpace([c]) == 0;
  }

  lemma {:induction false} HashSpaceLine(c: char, lineStart: nat)
    requires !IsSpace(c)
    ensures LineComment(['#', ' ', c], lineStart) == Some(Comment([c], lineStart + 1, lineStart + 2))
    ensures ShiftedLineComment(['#', ' ', c], lineStart) == Some(Comment([c], lineStart + 2, lineStart + 3))
  {
    var line := ['#', ' ', c];
    assert '#' in line && Find(line, '#') == 0;
    assert line[1..] == [' ', c];
    StripSpaceOne(c);
  }

  lemma {:induction false} LineCommentSpaceX()
    ensures LineComment("# x", 0) == Some(Comment("x", 1, 2))
    ensures ShiftedLineComment("# x", 0) == Some(Comment("x", 2, 3))
  {
    HashSpaceLine('x', 0);
  }

  lemma {:induction false} CommentsOfSpaceX()
    ensures CommentsOf("# x") == [Comment("x", 1, 2)]
  {
    var code := "# x";
    assert Find(code, '\n') == -1 by {
      assert Find(code[1..][1..], '\n') == -1;
    }
    assert Lines(code) == [code];
    LineCommentSpaceX();
    assert Scan(Lines(code), 1) == Scan(Lines(code), 0) + [Comment("x", 1, 2)];
  }

  lemma {:induction false} SpliceSpaceX()
    ensures "# x"[1..2] != "x"
    ensures Splice("# x", 1, 2, "y") == "#yx"
    ensures Splice("# x", 2, 3, "y") == "# y"
  {
    var code := "# x";
    assert code[1..2] == [' '];
    assert SliceTo(code, 1) == ['#'] && SliceFrom(code, 2) == ['x'];
    assert ['#'] + "y" + ['x'] == "#yx";
    assert SliceTo(code, 2) == ['#', ' '] && SliceFrom(code, 3) == [];
    assert ['#', ' '] + "y" + [] == "# y";
  }

  /** In "# x" the recorded span [1, 2) holds the space after the '#', not
      the comment "x": writing back the translation "y" gives "#yx". With
      the span shifted past that space, [2, 3), it gives "# y". */
  lemma {:induction false} SpanStartsAtSpace()
    ensures CommentsOf("# x") == [Comment("x", 1, 2)]
    ensures "# x"[1..2] != "x"
    ensures Splice("# x", 1, 2, "y") == "#yx"
    ensures ShiftedLineComment("# x", 0) == Some(Comment("x", 2, 3))
    ensures Splice("# x", 2, 3, "y") == "# y"
  {
    CommentsOfSpaceX();
    LineCommentSpaceX();
    SpliceSpaceX();
  }

  /** A span [start, end) of a source. */
  datatype Span = Span(start: nat, end: nat)

  /** The spans lie inside a source of length `n` and in order, each
      ending before the next one starts, as the spans of one cell's
      comments do. */
  ghost predicate Ordered(spans: seq<Span>, n: nat)
  {
    && (forall k :: 0 <= k < |spans| ==> spans[k].start <= spans[k].end <= n)
    && (forall a, b :: 0 <= a < b < |spans| ==> spans[a].end <= spans[b].start)
  }

  /** What writing back the comments of one cell evidently means: the
      original source, cut at the spans, with each span's translation in
      its place. */
  ghost function Rebuilt(orig: string, spans: seq<Span>, ts: seq<string>): string
    requires |spans| == |ts| && Ordered(spans, |orig|)
    decreases |spans|
  {
    if |spans| == 0 then orig
    else
      var n := |spans|;
      var last := spans[n - 1];
      Rebuilt(orig[..last.start], spans[..n - 1], ts[..n - 1]) + ts[n - 1] + orig[last.end..]
  }

  /** The write-back loop on one cell, as written: the splices in the order
      of the spans, each on the source the previous one left. */
  function SpliceAscending(orig: string, spans: seq<Span>, ts: seq<string>): string
    requires |spans| == |ts|
    decreases |spans|
  {
    if |spans| == 0 then orig
    else
      var n := |spans|;
      Splice(SpliceAscending(orig, spans[..n - 1], ts[..n - 1]), spans[n - 1].start, spans[n - 1].end, ts[n - 1])
  }

  /** The same splices applied from the last span to the first, so that
      no splice moves a span that is still to be replaced. */
  function SpliceDescending(orig: string, spans: seq<Span>, ts: seq<string>): string
    requires |spans| == |ts|
    decreases |spans|
  {
    if |spans| == 0 then orig
    else
      var n := |spans|;
      SpliceDescending(Splice(orig, spans[n - 1].start, spans[n - 1].end, ts[n - 1]), spans[..n - 1], ts[..n - 1])
  }

  /** Splicing inside `x` leaves whatever follows `x` alone. */
  lemma {:induction false} SpliceAppend(x: string, y: string, s: nat, e: nat, t: string)
    requires s <= e <= |x|
    ensures Splice(x + y, s, e, t) == Splice(x, s, e, t) + y
  {
    assert (x + y)[..s] == x[..s];
    assert (x + y)[e..] == x[e..] + y;
  }

  lemma {:induction false} SpliceParts(orig: string, s: nat, e: nat, t: string)
    requires s <= e <= |orig|
    ensures Splice(orig, s, e, t) == orig[..s] + (t + orig[e..])
  {
  }

  /** Dropping the last of ordered spans leaves spans that end before the
      last one starts. */
  lemma {:induction false} OrderedInit(spans: seq<Span>, n: nat, m: nat)
    requires |spans| > 0 && Ordered(spans, n) && spans[|spans| - 1].start <= m
    ensures Ordered(spans[..|spans| - 1], m)
  {
    var k := |spans| - 1;
    forall a | 0 <= a < k
      ensures spans[a].end <= spans[k].start
    {
    }
  }

  lemma {:induction false} SpliceDescendingAppend(x: string, y: string, spans: seq<Span>, ts: seq<string>)
    requires |spans| == |ts| && Ordered(spans, |x|)
    ensures SpliceDescending(x + y, spans, ts) == SpliceDescending(x, spans, ts) + y
    decreases |spans|
  {
    if |spans| > 0 {
      var n := |spans|;
      var sp := spans[n - 1];
      var x' := Splice(x, sp.start, sp.end, ts[n - 1]);
      SpliceAppend(x, y, sp.start, sp.end, ts[n - 1]);
      OrderedInit(spans, |x|, |x'|);
      SpliceDescendingAppend(x', y, spans[..n - 1], ts[..n - 1]);
    }
  }

  /** Applying the splices of one cell from the last to the first replaces
      each span of the ORIGINAL source by its translation. */
  lemma {:induction false} SpliceDescendingRebuilds(orig: string, spans: seq<Span>, ts: seq<string>)
    requires |spans| == |ts| && Ordered(spans, |orig|)
    ensures SpliceDescending(orig, spans, ts) == Rebuilt(orig, spans, ts)
    decreases |spans|
  {
    if |spans| > 0 {
      var n := |spans|;
      var sp := spans[n - 1];
      var head := orig[..sp.start];
      var rest := ts[n - 1] + orig[sp.end..];
      SpliceParts(orig, sp.start, sp.end, ts[n - 1]);
      OrderedInit(spans, |orig|, |head|);
      SpliceDescendingAppend(head, rest, spans[..n - 1], ts[..n - 1]);
      SpliceDescendingRebuilds(head, spans[..n - 1], ts[..n - 1]);
    }
  }

  /** The spans of comment references, in order. */
  function SpansOf(refs: seq<TextRef>): (spans: seq<Span>)
    requires forall k :: 0 <= k < |refs| ==> refs[k].CommentRef?
    ensures |spans| == |refs|
    ensures forall k :: 0 <= k < |refs| ==> spans[k].start == refs[k].start && spans[k].end == refs[k].end
  {
    seq(|refs|, k requires 0 <= k < |refs| => Span(refs[k].start, refs[k].end))
  }

  /** Step `n` of the write-back loop, for a comment reference: its cell
      gets the splice into the source the first `n - 1` steps left. */
  lemma {:induction false} AppliedCommentStep(cells: seq<Cell>, refs: seq<TextRef>, ts: seq<string>, n: nat)
    requires 0 < n <= |refs| && n <= |ts|
    requires forall k :: 0 <= k < |refs| ==> refs[k].cell < |cells|
    requires refs[n - 1].CommentRef?
    ensures var prev := Applied(cells, refs, ts, n - 1)[refs[n - 1].cell];
      Applied(cells, refs, ts, n)[refs[n - 1].cell]
        == Cell(prev.cellType, Splice(prev.source, refs[n - 1].start, refs[n - 1].end, ts[n - 1]))
  {
  }

  /** The spans and translations of the first `n` pairs are those of the
      first `n - 1` and then those of pair `n`. */
  lemma {:induction false} SpansOfStep(refs: seq<TextRef>, ts: seq<string>, n: nat)
    requires 0 < n <= |refs| && n <= |ts|
    requires forall k :: 0 <= k < |refs| ==> refs[k].CommentRef?
    ensures SpansOf(refs[..n])[..n - 1] == SpansOf(refs[..n - 1])
    ensures SpansOf(refs[..n])[n - 1] == Span(refs[n - 1].start, refs[n - 1].end)
    ensures ts[..n][..n - 1] == ts[..n - 1] && ts[..n][n - 1] == ts[n - 1]
  {
    assert SpansOf(refs[..n])[..n - 1] == SpansOf(refs[..n - 1]);
  }

  /** When every reference is a comment of cell `j`, the write-back loop
      leaves in that cell the splices applied one after the other in the
      order of the references. */
  lemma {:induction false} AppliedSameCell(cells: seq<Cell>, refs: seq<TextRef>, ts: seq<string>, n: nat, j: nat)
    requires n <= |refs| && n <= |ts| && j < |cells|
    requires forall k :: 0 <= k < |refs| ==> refs[k].CommentRef? && refs[k].cell == j
    ensures Applied(cells, refs, ts, n)[j]
      == Cell(cells[j].cellType, SpliceAscending(cells[j].source, SpansOf(refs[..n]), ts[..n]))
  {
    if n > 0 {
      AppliedSameCell(cells, refs, ts, n - 1, j);
      AppliedCommentStep(cells, refs, ts, n);
      SpansOfStep(refs, ts, n);
    } else {
      assert SpansOf(refs[..0]) == [];
    }
  }

  lemma {:induction false} LinesTwoLines()
    ensures Lines("#a\n#b") == ["#a", "#b"]
  {
    var code := "#a\n#b";
    assert Find(code, '\n') == 2 by {
      assert code[0] != '\n' && code[1] != '\n' && code[2] == '\n';
    }
    assert code[3..] == "#b";
    assert Find("#b", '\n') == -1 by {
      assert Find("#b"[1..], '\n') == -1;
    }
    assert Split("#b", '\n') == ["#b"];
    assert code[..2] == "#a";
  }

  lemma {:induction false} StripOne(c: char)
    requires !IsSpace(c)
    ensures Strip([c]) == [c]
  {
    assert LeadingSpace([c]) == 0;
    assert LStrip([c]) == [c];
    assert TrailingSpace([c]) == 0;
  }

  lemma {:induction false} HashLine(c: char, lineStart: nat)
    requires !IsSpace(c)
    ensures LineComment(['#', c], lineStart) == Some(Comment([c], lineStart + 1, lineStart + 2))
  {
    var line := ['#', c];
    assert '#' in line && Find(line, '#') == 0;
    assert line[1..] == [c];
    StripOne(c);
  }

  lemma {:induction false} LineCommentsTwoLines()
    ensures LineComment("#a", 0) == Some(Comment("a", 1, 2))
    ensures LineComment("#b", 3) == Some(Comment("b", 4, 5))
    ensures Strip("a") == "a" && Strip("b") == "b"
  {
    HashLine('a', 0);
    HashLine('b', 3);
    StripOne('a');
    StripOne('b');
  }

  /** A cell of two lines, each emitting one comment, has those two
      comments. */
  lemma {:induction false} TwoCommentLines(code: string, l0: string, l1: string, s1: nat, c0: Comment, c1: Comment)
    requires Lines(code) == [l0, l1] && s1 == |l0| + 1
    requires LineComment(l0, 0) == Some(c0) && LineComment(l1, s1) == Some(c1)
    ensures CommentsOf(code) == [c0, c1]
  {
    var lines := Lines(code);
    assert LineStart(lines, 1) == s1;
    assert Scan(lines, 1) == [c0];
    assert Scan(lines, 2) == [c0] + [c1];
  }

  lemma {:induction false} CommentsOfTwoLines()
    ensures CommentsOf("#a\n#b") == [Comment("a", 1, 2), Comment("b", 4, 5)]
  {
    LinesTwoLines();
    LineCommentsTwoLines();
    TwoCommentLines("#a\n#b", "#a", "#b", 3, Comment("a", 1, 2), Comment("b", 4, 5));
  }

  lemma {:induction false} AscendingTwoLines()
    ensures SpliceAscending("#a\n#b", [Span(1, 2), Span(4, 5)], ["xy", "z"]) == "#xy\nzb"
  {
    var spans, ts := [Span(1, 2), Span(4, 5)], ["xy", "z"];
    assert spans[..1] == [Span(1, 2)] && ts[..1] == ["xy"];
    assert spans[..1][..0] == [] && ts[..1][..0] == [];
    assert Splice("#a\n#b", 1, 2, "xy") == "#xy\n#b" by {
      assert SliceTo("#a\n#b", 1) == ['#'] && SliceFrom("#a\n#b", 2) == ['\n', '#', 'b'];
      assert ['#'] + "xy" + ['\n', '#', 'b'] == "#xy\n#b";
    }
    assert Splice("#xy\n#b", 4, 5, "z") == "#xy\nzb" by {
      assert SliceTo("#xy\n#b", 4) == ['#', 'x', 'y', '\n'] && SliceFrom("#xy\n#b", 5) == ['b'];
      assert ['#', 'x', 'y', '\n'] + "z" + ['b'] == "#xy\nzb";
    }
  }

  lemma {:induction false} DescendingTwoLines()
    ensures SpliceDescending("#a\n#b", [Span(1, 2), Span(4, 5)], ["xy", "z"]) == "#xy\n#z"
  {
    var spans, ts := [Span(1, 2), Span(4, 5)], ["xy", "z"];
    assert spans[..1] == [Span(1, 2)] && ts[..1] == ["xy"];
    assert spans[..1][..0] == [] && ts[..1][..0] == [];
    assert Splice("#a\n#b", 4, 5, "z") == "#a\n#z" by {
      assert SliceTo("#a\n#b", 4) == ['#', 'a', '\n', '#'] && SliceFrom("#a\n#b", 5) == [];
      assert ['#', 'a', '\n', '#'] + "z" + [] == "#a\n#z";
    }
    assert Splice("#a\n#z", 1, 2, "xy") == "#xy\n#z" by {
      assert SliceTo("#a\n#z", 1) == ['#'] && SliceFrom("#a\n#z", 2) == ['\n', '#', 'z'];
      assert ['#'] + "xy" + ['\n', '#', 'z'] == "#xy\n#z";
    }
  }

  /** A notebook of one non-empty code cell refers to the comments of
      that cell that are kept. */
  lemma {:induction false} SingleCodeCellRefs(code: string)
    requires code != []
    ensures NotebookRefs([Cell(Code, code)]) == CommentRefs(0, CommentsOf(code))
  {
    assert [Cell(Code, code)][..0] == [];
  }

  lemma {:induction false} TwoCommentRefs(c0: Comment, c1: Comment)
    requires Strip(c0.text) != [] && Strip(c1.text) != []
    ensures CommentRefs(0, [c0, c1]) == [CommentRef(0, c0.start, c0.end), CommentRef(0, c1.start, c1.end)]
  {
    assert [c0, c1][..1] == [c0] && [c0][..0] == [];
    assert CommentRefs(0, [c0]) == [CommentRef(0, c0.start, c0.end)];
  }

  lemma {:induction false} RefsTwoLines()
    ensures NotebookRefs([Cell(Code, "#a\n#b")]) == [CommentRef(0, 1, 2), CommentRef(0, 4, 5)]
  {
    CommentsOfTwoLines();
    LineCommentsTwoLines();
    SingleCodeCellRefs("#a\n#b");
    TwoCommentRefs(Comment("a", 1, 2), Comment("b", 4, 5));
  }

  /** In a code cell "#a\n#b" the comments "a" and "b" are recorded at
      [1, 2) and [4, 5). Written back one after the other, the longer
      translation "xy" of the first moves the second comment one place on,
      so the second splice replaces the '#' instead of "b": the cell ends
      up as "#xy\nzb". Spliced from the last comment to the first, each
      span is replaced where it was recorded, giving "#xy\n#z"
      (`RefsTwoLines`, `RebuiltTwoLines`). */
  lemma {:induction false} AscendingSplicesDrift()
    ensures Applied([Cell(Code, "#a\n#b")], [CommentRef(0, 1, 2), CommentRef(0, 4, 5)], ["xy", "z"], 2)[0].source == "#xy\nzb"
  {
    var cells, refs, ts := [Cell(Code, "#a\n#b")], [CommentRef(0, 1, 2), CommentRef(0, 4, 5)], ["xy", "z"];
    AppliedSameCell(cells, refs, ts, 2, 0);
    assert refs[..2] == refs && ts[..2] == ts;
    assert SpansOf(refs) == [Span(1, 2), Span(4, 5)];
    AscendingTwoLines();
  }

  lemma {:induction false} RebuiltTwoLines()
    ensures Rebuilt("#a\n#b", [Span(1, 2), Span(4, 5)], ["xy", "z"]) == "#xy\n#z"
  {
    var spans := [Span(1, 2), Span(4, 5)];
    assert Ordered(spans, 5);
    SpliceDescendingRebuilds("#a\n#b", spans, ["xy", "z"]);
    DescendingTwoLines();
  }

  /** The spans of a cell's comments. */
  function CommentSpans(cs: seq<Comment>): (spans: seq<Span>)
    ensures |spans| == |cs|
    ensures forall k :: 0 <= k < |cs| ==> spans[k] == Span(cs[k].start, cs[k].end)
  {
    seq(|cs|, k requires 0 <= k < |cs| => Span(cs[k].start, cs[k].end))
  }

  /** The spans recorded for the comments of a cell lie in its source,
      in order and without overlap. */
  lemma {:induction false} CellSpansOrdered(code: string)
    ensures Ordered(CommentSpans(CommentsOf(code)), |code|)
  {
    var cs := CommentsOf(code);
    CommentsInOrder(code);
    forall k | 0 <= k < |cs|
      ensures cs[k].start <= cs[k].end <= |code|
    {
      CommentSpan(code, cs[k]);
    }
  }

  /** With the splices of a code cell applied from its last comment to its
      first, every recorded span of the original source is replaced by its
      own translation, however long the translations are. */
  lemma {:induction false} DescendingWriteBack(code: string, ts: seq<string>)
    requires |ts| == |CommentsOf(code)|
    ensures Ordered(CommentSpans(CommentsOf(code)), |code|)
    ensures SpliceDescending(code, CommentSpans(CommentsOf(code)), ts) == Rebuilt(code, CommentSpans(CommentsOf(code)), ts)
  {
    CellSpansOrdered(code);
    SpliceDescendingRebuilds(code, CommentSpans(CommentsOf(code)), ts);
  }
}
