/** The line-comment scanner used on notebook code cells
    (`extract_comments_from_code`). It splits the cell source on '\n',
    takes the text after the first '#' of each line, strips it, and records
    the span [start, end) of the cell source that the translation is later
    spliced into. `start` is the offset just after the '#': it is NOT moved
    past the whitespace that the strip removed, so the span covers the
    comment text only when no whitespace follows the '#'. A '#' inside a
    string literal counts as a comment marker too: the scan does not
    tokenize. */
module CommentScan {
  import opened Wrappers
  import opened PyStr

  /** A comment found in a code cell: its stripped text and the span
      [start, end) of the cell source recorded for it. */
  datatype Comment = Comment(text: string, start: nat, end: nat)

  /** The offset of line `i` in the source the lines were split from:
      the lengths of the lines before it, plus one separator after each. */
  function LineStart(lines: seq<string>, i: nat): nat
    requires i <= |lines|
  {
    if i == 0 then 0 else LineStart(lines, i - 1) + |lines[i - 1]| + 1
  }

  /** What the scanner emits for one line whose first character sits at
      offset `lineStart` of the cell source: nothing when the line has no
      '#' or only whitespace after its first '#', otherwise the stripped
      tail and a span that starts just after that '#'. */
  function LineComment(line: string, lineStart: nat): (c: Option<Comment>)
    ensures c.Some? ==> lineStart < c.value.start <= c.value.end <= lineStart + |line|
    ensures c.Some? ==> c.value.text != [] && c.value.end == c.value.start + |c.value.text|
  {
    if '#' in line then
      var k := Find(line, '#');
      var text := Strip(line[k + 1..]);
      if text != [] then Some(Comment(text, lineStart + k + 1, lineStart + k + 1 + |text|))
      else None
    else None
  }

  /** The zero or one comments an optional comment stands for. */
  function Emitted(c: Option<Comment>): seq<Comment>
  {
    if c.Some? then [c.value] else []
  }

  /** The comments of the first `n` lines, in line order: at most one
      per line. */
  function Scan(lines: seq<string>, n: nat): (cs: seq<Comment>)
    requires n <= |lines|
    ensures |cs| <= n
  {
    if n == 0 then []
    else Scan(lines, n - 1) + Emitted(LineComment(lines[n - 1], LineStart(lines, n - 1)))
  }

  /** The lines of a cell source, as `code_text.split('\n')` gives them. */
  function Lines(code: string): seq<string>
  {
    Split(code, '\n')
  }

  /** The comments of a whole cell source: at most one per line. */
  function CommentsOf(code: string): (cs: seq<Comment>)
    ensures |cs| <= |Lines(code)|
  {
    Scan(Lines(code), |Lines(code)|)
  }

  /** `extract_comments_from_code`: splits the source on '\n' and, line by
      line, appends the comment `LineComment` finds on that line (the body
      of the loop); it returns exactly the comments `CommentsOf` describes. */
  method ExtractComments(code: string) returns (comments: seq<Comment>)
    ensures comments == CommentsOf(code)
  {
    comments := [];
    var lines := Split(code, '\n');
    for i := 0 to |lines|
      invariant comments == Scan(lines, i)
    {
      var comment := LineComment(lines[i], LineStart(lines, i));
      if comment.Some? {
        comments := comments + [comment.value];
      }
    }
  }

  lemma {:induction false} LineStartShift(lines: seq<string>, i: nat)
    requires 1 <= i <= |lines|
    ensures LineStart(lines, i) == |lines[0]| + 1 + LineStart(lines[1..], i - 1)
  {
    if i > 1 {
      LineStartShift(lines, i - 1);
      assert lines[1..][i - 2] == lines[i - 1];
    }
  }

  /** Line `i` of lines joined by `sep` into `s` sits at offset
      `LineStart(lines, i)` of `s`; a separator follows it unless it is the
      last line, which ends where `s` ends. */
  lemma {:induction false} LineAt(lines: seq<string>, sep: char, s: string, i: nat)
    requires Join(lines, sep) == s && i < |lines|
    ensures LineStart(lines, i) + |lines[i]| <= |s|
    ensures s[LineStart(lines, i)..LineStart(lines, i) + |lines[i]|] == lines[i]
    ensures i + 1 < |lines| ==> LineStart(lines, i) + |lines[i]| < |s| && s[LineStart(lines, i) + |lines[i]|] == sep
    ensures i + 1 == |lines| ==> LineStart(lines, i) + |lines[i]| == |s|
  {
    if |lines| > 1 {
      var t := Join(lines[1..], sep);
      assert s == lines[0] + [sep] + t;
      if i > 0 {
        LineAt(lines[1..], sep, t, i - 1);
        LineStartShift(lines, i);
        var p := LineStart(lines[1..], i - 1);
        assert s[|lines[0]| + 1 + p..|lines[0]| + 1 + p + |lines[i]|] == t[p..p + |lines[i]|];
      }
    }
  }

  /** Line `i` of `lines` emits comment `c`. */
  ghost predicate EmitsAt(lines: seq<string>, i: int, c: Comment)
  {
    0 <= i < |lines| && LineComment(lines[i], LineStart(lines, i)) == Some(c)
  }

  /** Every comment in the scan of the first `n` lines is emitted by one of
      those lines ... */
  lemma {:induction false} ScanSound(lines: seq<string>, n: nat, c: Comment)
    requires n <= |lines| && c in Scan(lines, n)
    ensures exists i :: i < n && EmitsAt(lines, i, c)
  {
    var prev := Scan(lines, n - 1);
    var here := LineComment(lines[n - 1], LineStart(lines, n - 1));
    assert Scan(lines, n) == prev + Emitted(here);
    if c in prev {
      ScanSound(lines, n - 1, c);
      var i :| i < n - 1 && EmitsAt(lines, i, c);
      assert i < n && EmitsAt(lines, i, c);
    } else {
      assert EmitsAt(lines, n - 1, c);
    }
  }

  /** ... and every comment one of those lines emits is in the scan. */
  lemma {:induction false} ScanComplete(lines: seq<string>, n: nat, i: nat, c: Comment)
    requires i < n <= |lines| && EmitsAt(lines, i, c)
    ensures c in Scan(lines, n)
  {
    var prev := Scan(lines, n - 1);
    var here := LineComment(lines[n - 1], LineStart(lines, n - 1));
    assert Scan(lines, n) == prev + Emitted(here);
    if i < n - 1 {
      ScanComplete(lines, n - 1, i, c);
    } else {
      assert c in Emitted(here);
    }
  }

  /** A comment is in the scan of the first `n` lines exactly when one of
      those lines emits it. */
  lemma {:induction false} ScanFromLines(lines: seq<string>, n: nat)
    requires n <= |lines|
    ensures forall c :: c in Scan(lines, n) <==> exists i :: i < n && EmitsAt(lines, i, c)
  {
    forall c | c in Scan(lines, n)
      ensures exists i :: i < n && EmitsAt(lines, i, c)
    {
      ScanSound(lines, n, c);
    }
    forall c | exists i :: i < n && EmitsAt(lines, i, c)
      ensures c in Scan(lines, n)
    {
      var i :| i < n && EmitsAt(lines, i, c);
      ScanComplete(lines, n, i, c);
    }
  }

  /** The comments of the first `n` lines all end before line `n` starts,
      and each ends before the next one starts. */
  lemma {:induction false} ScanOrdered(lines: seq<string>, n: nat)
    requires n <= |lines|
    ensures forall c :: c in Scan(lines, n) ==> 0 < c.start && c.end < LineStart(lines, n)
    ensures forall a, b :: 0 <= a < b < |Scan(lines, n)| ==> Scan(lines, n)[a].end < Scan(lines, n)[b].start
  {
    if n > 0 {
      ScanOrdered(lines, n - 1);
      var prev := Scan(lines, n - 1);
      var all := Scan(lines, n);
      forall a, b | 0 <= a < b < |all|
        ensures all[a].end < all[b].start
      {
        if b >= |prev| {
          assert all[a] == prev[a];
          assert prev[a] in prev;
        }
      }
    }
  }

  /** Every comment of a cell comes from one of its lines, and every line
      that has non-whitespace text after its first '#' contributes one. */
  lemma {:induction false} CommentsFromLines(code: string)
    ensures forall c :: c in CommentsOf(code) <==> exists i :: EmitsAt(Lines(code), i, c)
  {
    ScanFromLines(Lines(code), |Lines(code)|);
  }

  /** The comments of a cell are in source order and their spans are
      disjoint: each one ends before the next one starts. */
  lemma {:induction false} CommentsInOrder(code: string)
    ensures forall a, b :: 0 <= a < b < |CommentsOf(code)| ==> CommentsOf(code)[a].end < CommentsOf(code)[b].start
  {
    ScanOrdered(Lines(code), |Lines(code)|);
  }

  /** A line emits a comment exactly when it has a '#' followed by
      something other than whitespace; the comment's text is the stripped
      rest of the line after the first '#', and its span starts just after
      that '#'. */
  lemma {:induction false} LineCommentShape(line: string, lineStart: nat)
    ensures LineComment(line, lineStart).Some? <==>
      '#' in line && !AllSpace(line[Find(line, '#') + 1..])
    ensures LineComment(line, lineStart).Some? ==>
      var c := LineComment(line, lineStart).value;
      && c.text == Strip(line[Find(line, '#') + 1..])
      && c.start == lineStart + Find(line, '#') + 1
      && c.end == c.start + |c.text|
  {
    StripEmpty(line[Find(line, '#') + 1..]);
  }

  /** A slice of a line that sits at offset `off` of `code` is the same
      slice of `code`, shifted by `off`. */
  lemma {:induction false} InLine(code: string, line: string, off: nat, i: nat, j: nat)
    requires off + |line| <= |code| && code[off..off + |line|] == line
    requires i <= j <= |line|
    ensures code[off + i..off + j] == line[i..j]
    ensures i < |line| ==> code[off + i] == line[i]
  {
    forall t | i <= t < |line|
      ensures code[off + t] == line[t]
    {
      assert code[off..off + |line|][t] == code[off + t];
    }
    assert code[off + i..off + j] == line[i..j];
  }

  /** The facts of `CommentSpan` for a comment found after the '#' at
      index `k` of a line that sits at offset `off` of the cell source. */
  lemma {:induction false} LineSpan(code: string, line: string, off: nat, k: nat, c: Comment)
    requires off + |line| <= |code| && code[off..off + |line|] == line && Lacks(line, '\n')
    requires k < |line| && line[k] == '#'
    requires c.text == Strip(line[k + 1..]) && c.text != []
    requires c.start == off + k + 1 && c.end == c.start + |c.text|
    ensures 0 < c.start <= c.end <= |code| && c.start < |code|
    ensures c.end == c.start + |c.text|
    ensures c.text != [] && Strip(c.text) == c.text
    ensures code[c.start - 1] == '#'
    ensures Lacks(code[c.start..c.end], '\n')
    ensures code[c.start..c.end] == c.text <==> !IsSpace(code[c.start])
  {
    var tail := line[k + 1..];
    var p := off + k + 1;
    assert code[p - 1] == '#' by {
      InLine(code, line, off, k, |line|);
    }
    assert code[p..p + |tail|] == tail by {
      InLine(code, line, off, k + 1, |line|);
    }
    assert Lacks(tail, '\n') by {
      forall t | 0 <= t < |tail| ensures tail[t] != '\n' {
        assert tail[t] == line[k + 1 + t];
      }
    }
    TailSpan(code, p, tail, c);
  }

  /** The same facts, for the rest `tail` of a line after its first '#',
      sitting at offset `p` of the cell source. */
  lemma {:induction false} TailSpan(code: string, p: nat, tail: string, c: Comment)
    requires 0 < p && p + |tail| <= |code| && code[p..p + |tail|] == tail
    requires code[p - 1] == '#' && Lacks(tail, '\n')
    requires c.text == Strip(tail) && c.text != [] && c.start == p && c.end == p + |c.text|
    ensures 0 < c.start <= c.end <= |code| && c.start < |code|
    ensures c.end == c.start + |c.text|
    ensures c.text != [] && Strip(c.text) == c.text
    ensures code[c.start - 1] == '#'
    ensures Lacks(code[c.start..c.end], '\n')
    ensures code[c.start..c.end] == c.text <==> !IsSpace(code[c.start])
  {
    StripIdempotent(tail);
    StripPrefixIff(tail);
    InLine(code, tail, p, 0, |c.text|);
  }

  /** The index of the line a comment of `CommentsOf(code)` comes from. */
  lemma {:induction false} CommentLineIndex(code: string, c: Comment) returns (i: nat)
    requires c in CommentsOf(code)
    ensures EmitsAt(Lines(code), i, c)
  {
    CommentsFromLines(code);
    var j :| EmitsAt(Lines(code), j, c);
    i := j;
  }

  /** A comment a line emits follows the first '#' of the line, at `k`. */
  lemma {:induction false} EmittedShape(line: string, lineStart: nat, c: Comment) returns (k: nat)
    requires LineComment(line, lineStart) == Some(c)
    ensures k == Find(line, '#')
    ensures k < |line| && line[k] == '#' && c.text == Strip(line[k + 1..]) && c.text != []
    ensures c.start == lineStart + k + 1 && c.end == c.start + |c.text|
  {
    k := Find(line, '#');
  }

  /** The line of the cell source a comment of `CommentsOf(code)` comes
      from: its offset, and the index of the '#' the comment follows. */
  lemma {:induction false} CommentLine(code: string, c: Comment) returns (line: string, off: nat, k: nat)
    requires c in CommentsOf(code)
    ensures exists i :: 0 <= i < |Lines(code)| && line == Lines(code)[i] && off == LineStart(Lines(code), i)
    ensures off + |line| <= |code| && code[off..off + |line|] == line && Lacks(line, '\n')
    ensures k == Find(line, '#')
    ensures k < |line| && line[k] == '#' && c.text == Strip(line[k + 1..]) && c.text != []
    ensures c.start == off + k + 1 && c.end == c.start + |c.text|
  {
    var i := CommentLineIndex(code, c);
    SplitJoin(code, '\n');
    line, off := LinePlaced(code, Lines(code), i);
    k := EmittedShape(line, off, c);
  }

  /** Line `i` of lines that join into the cell source sits in it at
      `LineStart(lines, i)`. */
  lemma {:induction false} LinePlaced(code: string, lines: seq<string>, i: nat) returns (line: string, off: nat)
    requires Join(lines, '\n') == code && i < |lines| && Lacks(lines[i], '\n')
    ensures line == lines[i] && off == LineStart(lines, i)
    ensures off + |line| <= |code| && code[off..off + |line|] == line && Lacks(line, '\n')
  {
    LineAt(lines, '\n', code, i);
    line, off := lines[i], LineStart(lines, i);
  }

  /** What every emitted span satisfies, stated against the cell source:
      it lies inside the source, right after a '#', on a single line; its
      length is that of the text; the text is stripped and non-empty; and
      the span holds exactly the text if and only if the character after
      the '#' is not whitespace (otherwise the span starts at that
      whitespace and is shifted left of the text). */
  lemma {:induction false} CommentSpan(code: string, c: Comment)
    requires c in CommentsOf(code)
    ensures 0 < c.start <= c.end <= |code| && c.start < |code|
    ensures c.end == c.start + |c.text|
    ensures c.text != [] && Strip(c.text) == c.text
    ensures code[c.start - 1] == '#'
    ensures Lacks(code[c.start..c.end], '\n')
    ensures code[c.start..c.end] == c.text <==> !IsSpace(code[c.start])
  {
    var line, off, k := CommentLine(code, c);
    LineSpan(code, line, off, k, c);
  }

  /** The stripped text after position `k` of a line sits in the line
      right after the whitespace that follows `k`. */
  lemma {:induction false} StrippedTailAt(line: string, k: nat)
    requires k < |line|
    ensures var tail := line[k + 1..];
      k + 1 + LeadingSpace(tail) + |Strip(tail)| <= |line| &&
      line[k + 1 + LeadingSpace(tail)..k + 1 + LeadingSpace(tail) + |Strip(tail)|] == Strip(tail)
  {
    var tail := line[k + 1..];
    StripSlice(tail);
    var a, b := LeadingSpace(tail), LeadingSpace(tail) + |Strip(tail)|;
    assert line[k + 1 + a..k + 1 + b] == tail[a..b];
  }

  /** The span the scanner evidently means to record: the same comment,
      but starting after the whitespace that `strip()` removed from the
      tail of the line, so that it covers the comment text and nothing
      else. */
  function ShiftedLineComment(line: string, lineStart: nat): (c: Option<Comment>)
    ensures c.Some? ==> lineStart < c.value.start <= c.value.end <= lineStart + |line|
    ensures c.Some? ==> line[c.value.start - lineStart..c.value.end - lineStart] == c.value.text
  {
    if '#' in line then
      var k := Find(line, '#');
      var tail := line[k + 1..];
      var text := Strip(tail);
      StrippedTailAt(line, k);
      if text != [] then
        Some(Comment(text, lineStart + k + 1 + LeadingSpace(tail), lineStart + k + 1 + LeadingSpace(tail) + |text|))
      else None
    else None
  }

  /** The shifted span differs from the recorded one only in where it
      starts and ends: the same lines emit a comment, with the same text,
      moved right by the whitespace that follows the '#'. */
  lemma {:induction false} ShiftedAgrees(line: string, lineStart: nat)
    ensures ShiftedLineComment(line, lineStart).Some? <==> LineComment(line, lineStart).Some?
    ensures LineComment(line, lineStart).Some? ==>
      var c, d := LineComment(line, lineStart).value, ShiftedLineComment(line, lineStart).value;
      && d.text == c.text
      && d.start == c.start + LeadingSpace(line[Find(line, '#') + 1..])
      && d.end - d.start == c.end - c.start
  {
  }
}
