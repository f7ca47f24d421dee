/** The PowerPoint side of the translator: the text frames a shape yields
    (`iter_text_frames`), the runs collected from the slides and, when
    asked for, from the speaker notes, and the batch loop that overwrites
    each run's text with its translation while leaving its formatting in
    place. */
module Slides {
  import opened Wrappers
  import opened PyStr
  import opened DeepL
  import opened Batching
  import opened FileNames

  /** A run of text with uniform formatting. Assigning `run.text` replaces
      the characters and keeps the run's character properties, which
      `format` stands for. */
  class Run {
    var text: string
    var format: string

    constructor (text: string, format: string)
      ensures this.text == text && this.format == format
    {
      this.text := text;
      this.format := format;
    }
  }

  datatype Paragraph = Paragraph(runs: seq<Run>)

  datatype TextFrame = TextFrame(paragraphs: seq<Paragraph>)

  /** What reading `shape.table` gives: the rows of cells (a cell's
      `text_frame` may be `None`), or an error (`ValueError` or
      `AttributeError`) raised after the cells in `before` were read. */
  datatype Table =
    | Rows(rows: seq<seq<Option<TextFrame>>>)
    | Unreadable(before: seq<Option<TextFrame>>)

  /** A group of shapes, or any other shape: `table` is present when
      `has_table` holds, and `frame` is the shape's own `text_frame` when it
      has one that is not `None`. */
  datatype Shape =
    | Group(members: seq<Shape>)
    | Single(table: Option<Table>, frame: Option<TextFrame>)

  /** A slide's shapes, and the shapes of its notes page (`None` when the
      slide has no notes slide). */
  datatype Slide = Slide(shapes: seq<Shape>, notes: Option<seq<Shape>>)

  // ---------------------------------------------------------------------
  // The text frames of a shape
  // ---------------------------------------------------------------------

  /** The frames among a row of table cells, skipping cells without one:
      a frame is yielded exactly when some cell holds it, and a row whose
      cells all have a frame yields them all, in cell order. */
  function CellFrames(cells: seq<Option<TextFrame>>): (fs: seq<TextFrame>)
    ensures |fs| <= |cells|
    ensures forall i :: 0 <= i < |fs| ==> Some(fs[i]) in cells
    ensures forall j :: 0 <= j < |cells| && cells[j].Some? ==> cells[j].value in fs
    ensures (forall i :: 0 <= i < |cells| ==> cells[i].Some?) ==>
      |fs| == |cells| && forall i :: 0 <= i < |cells| ==> fs[i] == cells[i].value
  {
    if |cells| == 0 then []
    else
      var init := cells[..|cells| - 1];
      assert cells == init + [cells[|cells| - 1]];
      CellFrames(init) + (if cells[|cells| - 1].Some? then [cells[|cells| - 1].value] else [])
  }

  /** The frames of two rows of cells side by side are those of the first
      row followed by those of the second: cell order is kept. */
  lemma {:induction false} CellFramesConcat(a: seq<Option<TextFrame>>, b: seq<Option<TextFrame>>)
    ensures CellFrames(a + b) == CellFrames(a) + CellFrames(b)
    decreases |b|
  {
    if |b| > 0 {
      var init := b[..|b| - 1];
      assert (a + b)[..|a + b| - 1] == a + init;
      CellFramesConcat(a, init);
    } else {
      assert a + b == a;
    }
  }

  /** The frames of a table's cells, row by row. */
  function RowFrames(rows: seq<seq<Option<TextFrame>>>): seq<TextFrame>
  {
    if |rows| == 0 then [] else RowFrames(rows[..|rows| - 1]) + CellFrames(rows[|rows| - 1])
  }

  /** `iter_text_frames(shape)`: a group yields the frames of its members,
      recursively; a readable table yields its cells' frames and nothing
      else; any other shape, and a table whose reading failed after some
      cells, yields its own frame if it has one. */
  function Frames(s: Shape): seq<TextFrame>
    decreases s, 1
  {
    match s
    case Group(members) => FramesOfAll(members)
    case Single(table, frame) =>
      var own := if frame.Some? then [frame.value] else [];
      if table.Some? then
        match table.value
        case Rows(rows) => RowFrames(rows)
        case Unreadable(before) => CellFrames(before) + own
      else own
  }

  /** The frames of a sequence of shapes, in order. */
  function FramesOfAll(ss: seq<Shape>): seq<TextFrame>
    decreases ss, 0
  {
    if |ss| == 0 then [] else Frames(ss[0]) + FramesOfAll(ss[1..])
  }

  /** The frame the notes loop reads from a notes shape: only its own
      `text_frame`; a group on the notes page is not looked into. */
  function NotesFrame(s: Shape): Option<TextFrame>
  {
    if s.Single? then s.frame else None
  }

  /** The frames of the notes page, in shape order: at most one per
      shape, since no shape is looked into. */
  function NotesFrames(ss: seq<Shape>): (fs: seq<TextFrame>)
    ensures |fs| <= |ss|
  {
    if |ss| == 0 then []
    else NotesFrames(ss[..|ss| - 1]) + (if NotesFrame(ss[|ss| - 1]).Some? then [NotesFrame(ss[|ss| - 1]).value] else [])
  }

  lemma {:induction false} FramesOfAllConcat(a: seq<Shape>, b: seq<Shape>)
    ensures FramesOfAll(a + b) == FramesOfAll(a) + FramesOfAll(b)
  {
    if |a| == 0 {
      assert a + b == b;
    } else {
      assert (a + b)[0] == a[0];
      assert (a + b)[1..] == a[1..] + b;
      FramesOfAllConcat(a[1..], b);
    }
  }

  /** Grouping is invisible: a group yields what its members yield, and a
      group inside a group changes nothing. */
  lemma {:induction false} GroupTransparent(ms: seq<Shape>, before: seq<Shape>, after: seq<Shape>)
    ensures Frames(Group(ms)) == FramesOfAll(ms)
    ensures FramesOfAll(before + [Group(ms)] + after) == FramesOfAll(before + ms + after)
  {
    FramesOfAllConcat(before + [Group(ms)], after);
    FramesOfAllConcat(before, [Group(ms)]);
    FramesOfAllConcat(before + ms, after);
    FramesOfAllConcat(before, ms);
    assert [Group(ms)][1..] == [];
  }

  /** A table that reads yields exactly its cells' frames: the table
      shape's own frame is not read. A table that fails part-way yields the
      cells read so far and then the shape's own frame. */
  lemma {:induction false} TableFrames(rows: seq<seq<Option<TextFrame>>>, before: seq<Option<TextFrame>>, frame: TextFrame)
    ensures Frames(Single(Some(Rows(rows)), Some(frame))) == RowFrames(rows)
    ensures Frames(Single(Some(Unreadable(before)), Some(frame))) == CellFrames(before) + [frame]
    ensures Frames(Single(None, Some(frame))) == [frame]
    ensures Frames(Single(None, None)) == []
  {
  }

  /** The notes page is read one level deep: a group of notes shapes
      contributes nothing, even when its members have text, and a table
      contributes its own frame only, never its cells' frames. */
  lemma {:induction false} NotesNotRecursive(ms: seq<Shape>, t: Table, f: Option<TextFrame>)
    ensures NotesFrames([Group(ms)]) == []
    ensures NotesFrames([Single(Some(t), f)]) == if f.Some? then [f.value] else []
  {
    assert [Group(ms)][..0] == [];
    assert [Single(Some(t), f)][..0] == [];
  }

  // ---------------------------------------------------------------------
  // The runs of a deck
  // ---------------------------------------------------------------------

  function ParagraphRuns(ps: seq<Paragraph>): seq<Run>
  {
    if |ps| == 0 then [] else ParagraphRuns(ps[..|ps| - 1]) + ps[|ps| - 1].runs
  }

  /** The runs of a sequence of frames, paragraph by paragraph. */
  function FrameRuns(fs: seq<TextFrame>): seq<Run>
  {
    if |fs| == 0 then [] else FrameRuns(fs[..|fs| - 1]) + ParagraphRuns(fs[|fs| - 1].paragraphs)
  }

  /** The runs of the slide's shapes, shape by shape. */
  function ShapeRuns(ss: seq<Shape>): seq<Run>
  {
    if |ss| == 0 then [] else ShapeRuns(ss[..|ss| - 1]) + FrameRuns(Frames(ss[|ss| - 1]))
  }

  /** The runs of one slide: its shapes, then, when notes are included and
      the slide has a notes page, the notes. */
  function SlideRuns(slide: Slide, includeNotes: bool): seq<Run>
  {
    ShapeRuns(slide.shapes)
      + (if includeNotes && slide.notes.Some? then FrameRuns(NotesFrames(slide.notes.value)) else [])
  }

  /** Every run the collection loop visits, slide by slide. */
  function DeckRuns(deck: seq<Slide>, includeNotes: bool): seq<Run>
  {
    if |deck| == 0 then [] else DeckRuns(deck[..|deck| - 1], includeNotes) + SlideRuns(deck[|deck| - 1], includeNotes)
  }

  /** The runs the loop keeps (`txt.strip() != ""`), in the order visited. */
  function Kept(rs: seq<Run>): seq<Run>
    reads rs
  {
    if |rs| == 0 then []
    else Kept(rs[..|rs| - 1]) + (if Strip(rs[|rs| - 1].text) != [] then [rs[|rs| - 1]] else [])
  }

  /** The shapes of a slide contribute the runs of their frames, in the
      order `iter_text_frames` yields them. */
  lemma {:induction false} ShapeRunsFrames(ss: seq<Shape>)
    ensures ShapeRuns(ss) == FrameRuns(FramesOfAll(ss))
  {
    if |ss| > 0 {
      var init := ss[..|ss| - 1];
      ShapeRunsFrames(init);
      assert ss == init + [ss[|ss| - 1]];
      FramesOfAllConcat(init, [ss[|ss| - 1]]);
      assert FramesOfAll([ss[|ss| - 1]]) == Frames(ss[|ss| - 1]) by {
        assert [ss[|ss| - 1]][1..] == [];
        assert Frames(ss[|ss| - 1]) + [] == Frames(ss[|ss| - 1]);
      }
      FrameRunsConcat(FramesOfAll(init), Frames(ss[|ss| - 1]));
    }
  }

  lemma {:induction false} FrameRunsConcat(a: seq<TextFrame>, b: seq<TextFrame>)
    ensures FrameRuns(a + b) == FrameRuns(a) + FrameRuns(b)
    decreases |b|
  {
    if |b| > 0 {
      var init := b[..|b| - 1];
      assert (a + b)[..|a + b| - 1] == a + init;
      FrameRunsConcat(a, init);
    } else {
      assert a + b == a;
    }
  }

  lemma {:induction false} KeptConcat(a: seq<Run>, b: seq<Run>)
    ensures Kept(a + b) == Kept(a) + Kept(b)
    decreases |b|
  {
    if |b| > 0 {
      var init := b[..|b| - 1];
      assert (a + b)[..|a + b| - 1] == a + init;
      KeptConcat(a, init);
    } else {
      assert a + b == a;
    }
  }

  /** The kept runs are exactly the visited runs whose text is not blank
      (`KeptConcat` gives their order). */
  lemma {:induction false} KeptExactly(rs: seq<Run>)
    ensures forall r :: r in Kept(rs) <==> r in rs && Strip(r.text) != []
    ensures |Kept(rs)| <= |rs|
  {
    if |rs| > 0 {
      KeptExactly(rs[..|rs| - 1]);
      assert rs == rs[..|rs| - 1] + [rs[|rs| - 1]];
    }
  }

  /** Distinct visited runs give distinct kept runs. */
  lemma {:induction false} KeptDistinct(rs: seq<Run>)
    requires Distinct(rs)
    ensures Distinct(Kept(rs))
  {
    if |rs| > 0 {
      var init := rs[..|rs| - 1];
      KeptDistinct(init);
      KeptExactly(init);
      assert rs[|rs| - 1] !in init;
    }
  }

  /** With notes excluded, a slide's runs are those of its shapes' frames,
      and its notes page is never read. */
  lemma {:induction false} NotesExcluded(slide: Slide, notes: seq<Shape>)
    ensures SlideRuns(slide, false) == FrameRuns(FramesOfAll(slide.shapes))
    ensures SlideRuns(slide.(notes := Some(notes)), false) == SlideRuns(slide.(notes := None), false)
  {
    ShapeRunsFrames(slide.shapes);
    assert ShapeRuns(slide.shapes) + [] == ShapeRuns(slide.shapes);
  }

  /** No two positions hold the same run. */
  ghost predicate Distinct(rs: seq<Run>)
  {
    forall i, j :: 0 <= i < j < |rs| ==> rs[i] != rs[j]
  }

  // ---------------------------------------------------------------------
  // Collection
  // ---------------------------------------------------------------------

  /** Each collected run is paired with the text it had when collected. */
  ghost predicate Paired(refs: seq<Run>, texts: seq<string>)
    reads refs
  {
    |texts| == |refs| && forall i :: 0 <= i < |refs| ==> texts[i] == refs[i].text
  }

  // ---------------------------------------------------------------------
  // Translation, batch by batch, in place
  // ---------------------------------------------------------------------

  /** The text a run ends with: its translation if it was given one,
      otherwise the text it had. */
  function NewText(before: string, update: Option<string>): string
  {
    if update.Some? then update.value else before
  }

  /** What the loop does to the collected runs: for each run, the
      translation it is given (`None` if it keeps its text), and the error
      that stopped the loop, if any. */
  datatype Plan = Plan(updates: seq<Option<string>>, error: Option<Error>)

  /** `zip(batch_refs, translated)` for a batch of `size` runs: run `k`
      gets translation `k`, and the runs past the last translation get
      nothing. */
  function Zipped(ts: seq<string>, size: nat): (u: seq<Option<string>>)
    ensures |u| == size
  {
    seq(size, k requires 0 <= k < size => if k < |ts| then Some(ts[k]) else None)
  }

  /** The plan for the batches from `from` on. A batch that fails stops
      everything: no later run is changed and the error is reported. */
  function PlanFrom(account: Account, targetLang: string, service: Request -> Reply, texts: seq<string>, from: nat): (p: Plan)
    ensures |p.updates| == if from < |texts| then |texts| - from else 0
    decreases |texts| - from
  {
    if from >= |texts| then Plan([], None)
    else
      var batch := Batch(texts, from);
      match TranslateBatch(account, targetLang, service, batch)
      case Failure(e) => Plan(seq(|texts| - from, _ => None), Some(e))
      case Success(ts) =>
        var rest := PlanFrom(account, targetLang, service, texts, from + BATCH_SIZE);
        Plan(Zipped(ts, |batch|) + rest.updates, rest.error)
  }

  /** The plan for the batches `bs`, sent one request each, in order: each
      batch's runs zipped with its translations, or, from the first batch
      that fails, no update and that batch's error. */
  function PlanOver(account: Account, targetLang: string, service: Request -> Reply, bs: seq<seq<string>>): Plan
  {
    if |bs| == 0 then Plan([], None)
    else
      match TranslateBatch(account, targetLang, service, bs[0])
      case Failure(e) => Plan(seq(|Concat(bs)|, _ => None), Some(e))
      case Success(ts) =>
        var rest := PlanOver(account, targetLang, service, bs[1..]);
        Plan(Zipped(ts, |bs[0]|) + rest.updates, rest.error)
  }

  /** The deck's loop sends exactly the batches `BatchesFrom` cuts, one
      request each, so every request carries 1 to `BATCH_SIZE` texts (see
      `BatchesSplit`). */
  lemma {:induction false} PlanFromBatches(account: Account, targetLang: string, service: Request -> Reply, texts: seq<string>, from: nat)
    ensures PlanFrom(account, targetLang, service, texts, from)
      == PlanOver(account, targetLang, service, BatchesFrom(texts, from))
    decreases |texts| - from
  {
    if from < |texts| {
      var bs := BatchesFrom(texts, from);
      assert bs[0] == Batch(texts, from);
      assert bs[1..] == BatchesFrom(texts, from + BATCH_SIZE);
      BatchesFromConcat(texts, from);
      PlanFromBatches(account, targetLang, service, texts, from + BATCH_SIZE);
      var p, q := PlanFrom(account, targetLang, service, texts, from), PlanOver(account, targetLang, service, bs);
      if TranslateBatch(account, targetLang, service, bs[0]).Failure? {
        assert p.updates == q.updates;
      }
    }
  }

  /** The runs hold the texts `olds` they started with, each of the first
      `|ups|` with its update applied. */
  ghost predicate Written(refs: seq<Run>, olds: seq<string>, ups: seq<Option<string>>)
    reads refs
  {
    && |olds| == |refs| && |ups| <= |refs|
    && forall i :: 0 <= i < |refs| ==> refs[i].text == if i < |ups| then NewText(olds[i], ups[i]) else olds[i]
  }

  /** The runs keep the formatting `formats`. */
  ghost predicate Formatted(refs: seq<Run>, formats: seq<string>)
    reads refs
  {
    |formats| == |refs| && forall i :: 0 <= i < |refs| ==> refs[i].format == formats[i]
  }

  /** Updates that give no translation change nothing. */
  lemma {:induction false} WrittenNone(refs: seq<Run>, olds: seq<string>, done: seq<Option<string>>, more: seq<Option<string>>)
    requires Written(refs, olds, done) && |done| + |more| <= |refs|
    requires forall i :: 0 <= i < |more| ==> more[i] == None
    ensures Written(refs, olds, done + more)
  {
    forall i | 0 <= i < |refs|
      ensures refs[i].text == if i < |done + more| then NewText(olds[i], (done + more)[i]) else olds[i]
    {
      if |done| <= i < |done + more| {
        assert (done + more)[i] == more[i - |done|];
      }
    }
  }

  /** Once every run has had its update, each holds its new text and its
      formatting. */
  lemma {:induction false} Finished(refs: seq<Run>, olds: seq<string>, formats: seq<string>, ups: seq<Option<string>>)
    requires Written(refs, olds, ups) && Formatted(refs, formats) && |ups| == |refs|
    ensures forall i :: 0 <= i < |refs| ==> refs[i].text == NewText(olds[i], ups[i]) && refs[i].format == formats[i]
  {
  }

  /** The zip of one batch of `size` runs from `start`: `run.text =
      new_txt` for the first `min(size, |ts|)` of them, nothing else. */
  method WriteBatch(refs: seq<Run>, start: nat, size: nat, ts: seq<string>,
                    ghost olds: seq<string>, ghost formats: seq<string>, ghost done: seq<Option<string>>)
    requires Distinct(refs) && |done| == start && start + size <= |refs|
    requires Written(refs, olds, done) && Formatted(refs, formats)
    modifies set r | r in refs
    ensures Written(refs, olds, done + Zipped(ts, size)) && Formatted(refs, formats)
  {
    var k := 0;
    while k < size && k < |ts|
      invariant 0 <= k <= size && k <= |ts|
      invariant Formatted(refs, formats)
      invariant forall i :: 0 <= i < |refs| ==>
        refs[i].text == if i < start then NewText(olds[i], done[i]) else if i < start + k then ts[i - start] else olds[i]
    {
      refs[start + k].text := ts[k];
      k := k + 1;
    }
    var ups := done + Zipped(ts, size);
    forall i | 0 <= i < |refs|
      ensures refs[i].text == if i < |ups| then NewText(olds[i], ups[i]) else olds[i]
    {
      if i < start {
        assert ups[i] == done[i];
      } else if i < start + size {
        assert ups[i] == Zipped(ts, size)[i - start];
      }
    }
  }

  /** One step of the plan: a failed batch leaves every remaining run
      alone and reports the error; a batch answered with `ts` zips it with
      the batch and goes on with the next batch. */
  lemma {:induction false} PlanStep(account: Account, targetLang: string, service: Request -> Reply, texts: seq<string>, start: nat)
    requires start < |texts|
    ensures var end := Min(start + BATCH_SIZE, |texts|);
      var p := PlanFrom(account, targetLang, service, texts, start);
      match TranslateBatch(account, targetLang, service, texts[start..end])
      case Failure(e) => p.error == Some(e) && forall i :: 0 <= i < |p.updates| ==> p.updates[i] == None
      case Success(ts) =>
        var rest := PlanFrom(account, targetLang, service, texts, end);
        p.updates == Zipped(ts, end - start) + rest.updates && p.error == rest.error
  {
    var end := Min(start + BATCH_SIZE, |texts|);
    if start + BATCH_SIZE > |texts| {
      assert PlanFrom(account, targetLang, service, texts, start + BATCH_SIZE) == Plan([], None);
    }
  }

  /** The deck's translation loop: `for start in range(0, n, BATCH_SIZE)`,
      one request per batch, then the zip that overwrites each run's text.
      It ends with each run's text as the plan says and every run's
      formatting as it was, and reports the error of a failed batch. */
  method TranslateRuns(refs: seq<Run>, texts: seq<string>, account: Account, targetLang: string, service: Request -> Reply)
    returns (error: Option<Error>)
    requires |texts| == |refs| && Distinct(refs)
    modifies set r | r in refs
    ensures error == PlanFrom(account, targetLang, service, texts, 0).error
    ensures forall i :: 0 <= i < |refs| ==> refs[i].format == old(refs[i].format)
    ensures forall i :: 0 <= i < |refs| ==>
      refs[i].text == NewText(old(refs[i].text), PlanFrom(account, targetLang, service, texts, 0).updates[i])
  {
    ghost var plan := PlanFrom(account, targetLang, service, texts, 0);
    ghost var olds := TextsOf(refs);
    ghost var formats := FormatsOf(refs);
    ghost var done: seq<Option<string>> := [];
    error := None;
    var start: nat := 0;
    while start < |texts|
      invariant start <= |texts| && |done| == start
      invariant forall i :: 0 <= i < |refs| ==> olds[i] == old(refs[i].text) && formats[i] == old(refs[i].format)
      invariant plan.updates == done + PlanFrom(account, targetLang, service, texts, start).updates
      invariant plan.error == PlanFrom(account, targetLang, service, texts, start).error && error == None
      invariant Written(refs, olds, done) && Formatted(refs, formats)
      decreases |texts| - start
    {
      var end := Min(start + BATCH_SIZE, |texts|);
      var batch := texts[start..end];
      PlanStep(account, targetLang, service, texts, start);
      var reply := TranslateBatch(account, targetLang, service, batch);
      if reply.Failure? {
        error := Some(reply.error);
        WrittenNone(refs, olds, done, PlanFrom(account, targetLang, service, texts, start).updates);
        done := plan.updates;
        break;
      }
      var ts := reply.value;
      ghost var rest := PlanFrom(account, targetLang, service, texts, end);
      assert plan.updates == (done + Zipped(ts, end - start)) + rest.updates;
      WriteBatch(refs, start, end - start, ts, olds, formats, done);
      done := done + Zipped(ts, end - start);
      start := end;
    }
    if error.None? {
      assert plan.updates == done + [];
    }
    Finished(refs, olds, formats, plan.updates);
  }

  /** Against a service that translates each text, every run is given
      the translation of its own text and nothing fails: batches and the
      zip keep runs and translations aligned. */
  lemma {:induction false} PlanFromEach(account: Account, targetLang: string, f: string -> string, texts: seq<string>, from: nat)
    requires from <= |texts|
    ensures PlanFrom(account, targetLang, Translator(f), texts, from).error == None
    ensures forall i :: 0 <= i < |texts| - from ==>
      PlanFrom(account, targetLang, Translator(f), texts, from).updates[i] == Some(f(texts[from + i]))
    decreases |texts| - from
  {
    if from < |texts| {
      var end := Min(from + BATCH_SIZE, |texts|);
      var b := texts[from..end];
      PlanStep(account, targetLang, Translator(f), texts, from);
      BatchAnswersEach(account, targetLang, f, b);
      PlanFromEach(account, targetLang, f, texts, end);
      var ts := TranslateBatch(account, targetLang, Translator(f), b).value;
      var z := Zipped(ts, end - from);
      var rest := PlanFrom(account, targetLang, Translator(f), texts, end);
      var all := PlanFrom(account, targetLang, Translator(f), texts, from);
      forall i | 0 <= i < |texts| - from
        ensures all.updates[i] == Some(f(texts[from + i]))
      {
        if i < end - from {
          assert all.updates[i] == z[i];
          assert b[i] == texts[from + i];
        } else {
          assert all.updates[i] == rest.updates[i - (end - from)];
        }
      }
    }
  }

  /** A service whose answers carry no `translations` list changes no
      run and reports no error: `js.get("translations", [])` gives nothing
      to zip. */
  lemma {:induction false} PlanFromMute(account: Account, targetLang: string, texts: seq<string>, from: nat)
    requires from <= |texts|
    ensures PlanFrom(account, targetLang, Mute(), texts, from).error == None
    ensures forall i :: 0 <= i < |texts| - from ==>
      PlanFrom(account, targetLang, Mute(), texts, from).updates[i] == None
    decreases |texts| - from
  {
    var service := Mute();
    if from < |texts| {
      var end := Min(from + BATCH_SIZE, |texts|);
      PlanStep(account, targetLang, service, texts, from);
      PlanFromMute(account, targetLang, texts, end);
      var all := PlanFrom(account, targetLang, service, texts, from);
      var rest := PlanFrom(account, targetLang, service, texts, end);
      forall i | 0 <= i < |texts| - from
        ensures all.updates[i] == None
      {
        if i >= end - from {
          assert all.updates[i] == rest.updates[i - (end - from)];
        }
      }
    }
  }

  /** A service that answers every request with an HTTP error stops the
      loop at the first batch: the error is reported and no run changes. */
  lemma {:induction false} PlanFromRejected(account: Account, targetLang: string, status: int, body: string, texts: seq<string>)
    requires texts != []
    ensures PlanFrom(account, targetLang, Rejecting(status, body), texts, 0).error == Some(ApiError(status, body))
    ensures forall i :: 0 <= i < |texts| ==>
      PlanFrom(account, targetLang, Rejecting(status, body), texts, 0).updates[i] == None
  {
    PlanStep(account, targetLang, Rejecting(status, body), texts, 0);
  }

  // ---------------------------------------------------------------------
  // The whole deck
  // ---------------------------------------------------------------------

  /** The texts the runs hold. */
  ghost function TextsOf(rs: seq<Run>): (ts: seq<string>)
    reads rs
    ensures |ts| == |rs| && forall i :: 0 <= i < |rs| ==> ts[i] == rs[i].text
  {
    seq(|rs|, i reads rs requires 0 <= i < |rs| => rs[i].text)
  }

  /** The formatting of each run. */
  ghost function FormatsOf(rs: seq<Run>): (fs: seq<string>)
    reads rs
    ensures |fs| == |rs| && forall i :: 0 <= i < |rs| ==> fs[i] == rs[i].format
  {
    seq(|rs|, i reads rs requires 0 <= i < |rs| => rs[i].format)
  }

  /** How translating a deck ends: the legacy conversion failed, there was
      no text (both stop the page), a batch failed (the error is shown and
      raised again), or the translated deck was saved under `outName`. */
  datatype DeckOutcome = ConversionFailed(reason: string) | NoText | Failed(error: Error) | Saved(outName: string)

  /** `process_powerpoint_file` on an uploaded deck called `name`. The
      LibreOffice conversion of a legacy deck is a parameter: `converted`
      is the converted file's name or the conversion's error, and `deck`
      is the presentation as loaded, after any conversion. Only the kept
      runs are written, each as the plan for their texts says; no run's
      formatting changes. */
  method TranslateDeck(deck: seq<Slide>, name: string, converted: Result<string, string>, includeNotes: bool,
                       account: Account, targetLang: string, service: Request -> Reply)
    returns (outcome: DeckOutcome)
    requires Distinct(DeckRuns(deck, includeNotes))
    modifies set r | r in Kept(DeckRuns(deck, includeNotes))
    ensures IsLegacyPpt(name) && converted.Failure? ==> outcome == ConversionFailed(converted.error)
    ensures outcome.ConversionFailed? ==> IsLegacyPpt(name) && converted.Failure?
    ensures !(IsLegacyPpt(name) && converted.Failure?) ==>
      (outcome == NoText <==> old(Kept(DeckRuns(deck, includeNotes))) == [])
    ensures outcome.Saved? ==> outcome.outName == OutputName(if IsLegacyPpt(name) then converted.value else name, "pptx")
    ensures var kept := old(Kept(DeckRuns(deck, includeNotes)));
      var plan := PlanFrom(account, targetLang, service, old(TextsOf(kept)), 0);
      && (outcome.Saved? || outcome.Failed? ==> (outcome.Failed? <==> plan.error.Some?))
      && (outcome.Failed? ==> outcome.error == plan.error.value)
      && (forall i :: 0 <= i < |kept| ==> kept[i].format == old(kept[i].format))
      && (forall i :: 0 <= i < |kept| ==>
            kept[i].text == if outcome.Saved? || outcome.Failed? then NewText(old(kept[i].text), plan.updates[i]) else old(kept[i].text))
  {
    var inName := name;
    if IsLegacyPpt(name) {
      if converted.Failure? {
        return ConversionFailed(converted.error);
      }
      inName := converted.value;
    }
    // The collection loop: visit the runs of the deck in the order
    // `DeckRuns` gives and keep, with its text, each run whose text is
    // not blank.
    var runs := DeckRuns(deck, includeNotes);
    var refs: seq<Run>, texts: seq<string> := [], [];
    for k := 0 to |runs|
      invariant refs == Kept(runs[..k])
      invariant Paired(refs, texts)
      modifies {}
    {
      assert runs[..k + 1][..k] == runs[..k];
      var txt := runs[k].text;
      if Strip(txt) != [] {
        refs, texts := refs + [runs[k]], texts + [txt];
      }
    }
    assert runs[..|runs|] == runs;
    assert texts == TextsOf(refs);
    if |refs| == 0 {
      return NoText;
    }
    KeptDistinct(runs);
    var error := TranslateRuns(refs, texts, account, targetLang, service);
    if error.Some? {
      outcome := Failed(error.value);
    } else {
      outcome := Saved(OutputName(inName, "pptx"));
    }
  }
}
