/**
 * The streaming line reader of the calendar parser: bytes arrive in pieces of any size, folded
 * lines (section 3.1 of RFC 5545) leave whole.
 */
module Unfolding {
  const MAX_LOGICAL_LINE: nat := 4096

  datatype State = State(lineBuf: string, logical: string, havePending: bool, lines: seq<string>)

  function Fresh(): State {
    State("", "", false, [])
  }

  // ----- What one byte, one physical line and the end of input do -----

  /** Empty logical lines are ignored by whoever receives them. */
  function Processed(s: State): State {
    if s.havePending && s.logical != "" then s.(lines := s.lines + [s.logical]) else s
  }

  function PhysicalLine(s: State): State {
    if s.lineBuf != "" && s.lineBuf[0] in {' ', '\t'} then
      if s.havePending && |s.logical| < MAX_LOGICAL_LINE then s.(logical := s.logical + s.lineBuf[1..]) else s
    else Processed(s).(logical := s.lineBuf, havePending := true)
  }

  function FedByte(s: State, c: char): State {
    if c == '\n' then PhysicalLine(s).(lineBuf := "")
    else if c != '\r' && |s.lineBuf| < MAX_LOGICAL_LINE then s.(lineBuf := s.lineBuf + [c])
    else s
  }

  function Fed(s: State, data: string): State
    decreases |data|
  {
    if data == "" then s else Fed(FedByte(s, data[0]), data[1..])
  }

  function Finished(s: State): State {
    var ended := PhysicalLine(s);
    Processed(ended).(havePending := false)
  }

  /** The parser's line-reading half, with every logical line it hands on. */
  class LineReader {
    var lineBuf: string
    var logical: string
    var havePending: bool
    var lines: seq<string>

    constructor ()
      ensures Now() == Fresh()
    {
      lineBuf, logical, havePending, lines := "", "", false, [];
    }

    function Now(): State
      reads this
    {
      State(lineBuf, logical, havePending, lines)
    }

    method ProcessLogicalLine(line: string)
      modifies this`lines
      ensures lines == old(lines) + (if line == "" then [] else [line])
    {
      if line == "" {
        return;
      }
      lines := lines + [line];
    }

    method HandlePhysicalLine()
      modifies this
      ensures Now() == PhysicalLine(old(Now()))
    {
      if lineBuf != "" && (lineBuf[0] == ' ' || lineBuf[0] == '\t') {
        if havePending && |logical| < MAX_LOGICAL_LINE {
          logical := logical + lineBuf[1..];
        }
        return;
      }
      if havePending {
        ProcessLogicalLine(logical);
      }
      logical := lineBuf;
      havePending := true;
    }

    method Feed(data: string)
      modifies this
      ensures Now() == Fed(old(Now()), data)
    {
      for i := 0 to |data|
        invariant Now() == Fed(old(Now()), data[..i])
      {
        var c := data[i];
        FedLast(old(Now()), data[..i], c);
        assert data[..i + 1] == data[..i] + [c];
        if c == '\n' {
          HandlePhysicalLine();
          lineBuf := "";
        } else if c != '\r' {
          if |lineBuf| < MAX_LOGICAL_LINE {
            lineBuf := lineBuf + [c];
          }
        }
      }
      assert data[..|data|] == data;
    }

    method Finish()
      modifies this
      ensures Now() == Finished(old(Now()))
    {
      HandlePhysicalLine();
      if havePending {
        ProcessLogicalLine(logical);
        havePending := false;
      }
    }
  }

  // ----- However the bytes are split -----

  /** Feeding two pieces is feeding them joined. */
  lemma {:induction false} FedInTwo(s: State, a: string, b: string)
    ensures Fed(s, a + b) == Fed(Fed(s, a), b)
    decreases |a|
  {
    hide FedByte;
    if a == "" {
      assert a + b == b;
    } else {
      assert (a + b)[0] == a[0] && (a + b)[1..] == a[1..] + b;
      FedInTwo(FedByte(s, a[0]), a[1..], b);
    }
  }

  lemma FedLast(s: State, a: string, c: char)
    ensures Fed(s, a + [c]) == FedByte(Fed(s, a), c)
  {
    hide FedByte;
    FedInTwo(s, a, [c]);
    FedOne(Fed(s, a), c);
  }

  lemma FedOne(s: State, c: char)
    ensures Fed(s, [c]) == FedByte(s, c)
  {
    hide FedByte;
    assert [c][1..] == "";
    assert Fed(FedByte(s, c), "") == FedByte(s, c);
  }

  function Joined(pieces: seq<string>): string {
    if pieces == [] then "" else pieces[0] + Joined(pieces[1..])
  }

  function FedPieces(s: State, pieces: seq<string>): State
    decreases |pieces|
  {
    if pieces == [] then s else FedPieces(Fed(s, pieces[0]), pieces[1..])
  }

  lemma {:induction false} SplitsDoNotMatter(s: State, pieces: seq<string>)
    ensures FedPieces(s, pieces) == Fed(s, Joined(pieces))
    decreases |pieces|
  {
    if pieces != [] {
      SplitsDoNotMatter(Fed(s, pieces[0]), pieces[1..]);
      FedInTwo(s, pieces[0], Joined(pieces[1..]));
    }
  }

  // ----- Folded text -----

  datatype Ending = CrLf | Lf

  /** A physical line. */
  datatype Chunk = Chunk(text: string, ending: Ending)

  /** A continuation: the white space it starts with, and the rest. */
  datatype Fold = Fold(tab: bool, chunk: Chunk)

  /** A logical line as folded. */
  datatype Folded = Folded(first: Chunk, folds: seq<Fold>)

  predicate PlainText(text: string) {
    '\r' !in text && '\n' !in text
  }

  predicate StartsWhite(text: string) {
    text != "" && text[0] in {' ', '\t'}
  }

  predicate WellFolded(f: Folded) {
    && PlainText(f.first.text) && !StartsWhite(f.first.text)
    && forall i :: 0 <= i < |f.folds| ==> PlainText(f.folds[i].chunk.text)
  }

  function Written(c: Chunk): string {
    c.text + if c.ending.CrLf? then "\r\n" else "\n"
  }

  function White(f: Fold): string {
    if f.tab then "\t" else " "
  }

  function WrittenFolds(folds: seq<Fold>): string {
    if folds == [] then "" else
      Written(folds[0].chunk.(text := White(folds[0]) + folds[0].chunk.text)) + WrittenFolds(folds[1..])
  }

  function WrittenLine(f: Folded): string {
    Written(f.first) + WrittenFolds(f.folds)
  }

  function WrittenLines(fs: seq<Folded>): string {
    if fs == [] then "" else WrittenLine(fs[0]) + WrittenLines(fs[1..])
  }

  function FoldTexts(folds: seq<Fold>): string {
    if folds == [] then "" else folds[0].chunk.text + FoldTexts(folds[1..])
  }

  /** The logical line that was folded. */
  function Unfolded(f: Folded): string {
    f.first.text + FoldTexts(f.folds)
  }

  /** The logical lines, without the empty ones. */
  function UnfoldedLines(fs: seq<Folded>): seq<string> {
    if fs == [] then [] else (if Unfolded(fs[0]) == "" then [] else [Unfolded(fs[0])]) + UnfoldedLines(fs[1..])
  }

  // ----- What the reader makes of it -----

  function Capped(text: string): string {
    if |text| <= MAX_LOGICAL_LINE then text else text[..MAX_LOGICAL_LINE]
  }

  /** One continuation added to what is there, within the reader's limits. */
  function Added(kept: string, text: string): string {
    if |kept| < MAX_LOGICAL_LINE then kept + (if |text| < MAX_LOGICAL_LINE then text else text[..MAX_LOGICAL_LINE - 1])
    else kept
  }

  function AllAdded(kept: string, folds: seq<Fold>): string
    decreases |folds|
  {
    if folds == [] then kept else AllAdded(Added(kept, folds[0].chunk.text), folds[1..])
  }

  /** The logical line as the reader keeps it. */
  function Kept(f: Folded): string {
    AllAdded(Capped(f.first.text), f.folds)
  }

  lemma {:induction false} FedText(s: State, text: string)
    requires PlainText(text) && |s.lineBuf| <= MAX_LOGICAL_LINE
    ensures Fed(s, text) == s.(lineBuf := Capped(s.lineBuf + text))
    decreases |text|
  {
    if text == "" {
      assert s.lineBuf + text == s.lineBuf;
    } else {
      assert PlainText(text[1..]);
      var next := FedByte(s, text[0]);
      FedText(next, text[1..]);
      assert s.lineBuf + text == (s.lineBuf + [text[0]]) + text[1..];
    }
  }

  lemma FedEnding(s: State, e: Ending)
    ensures Fed(s, if e.CrLf? then "\r\n" else "\n") == PhysicalLine(s).(lineBuf := "")
  {
    hide PhysicalLine;
    FedOne(s, '\n');
    if e.CrLf? {
      assert "\r\n"[1..] == "\n";
      assert FedByte(s, '\r') == s;
    }
  }

  /** A physical line, ended one way or the other. */
  lemma FedChunk(s: State, c: Chunk)
    requires PlainText(c.text) && s.lineBuf == ""
    ensures Fed(s, Written(c)) == PhysicalLine(s.(lineBuf := Capped(c.text))).(lineBuf := "")
  {
    hide PhysicalLine, Capped;
    FedText(s, c.text);
    assert s.lineBuf + c.text == c.text;
    FedInTwo(s, c.text, if c.ending.CrLf? then "\r\n" else "\n");
    FedEnding(s.(lineBuf := Capped(c.text)), c.ending);
  }

  lemma FedFold(s: State, f: Fold)
    requires PlainText(f.chunk.text) && s.lineBuf == "" && s.havePending
    ensures (Fed(s, Written(f.chunk.(text := White(f) + f.chunk.text)))
             == s.(logical := Added(s.logical, f.chunk.text)))
  {
    hide Fed;
    var line := White(f) + f.chunk.text;
    FedChunk(s, f.chunk.(text := line));
    assert Capped(line)[0] in {' ', '\t'};
    assert Capped(line)[1..] == if |f.chunk.text| < MAX_LOGICAL_LINE then f.chunk.text else f.chunk.text[..MAX_LOGICAL_LINE - 1];
  }

  lemma {:induction false} FedFolds(s: State, folds: seq<Fold>)
    requires s.lineBuf == "" && s.havePending
    requires forall i :: 0 <= i < |folds| ==> PlainText(folds[i].chunk.text)
    ensures Fed(s, WrittenFolds(folds)) == s.(logical := AllAdded(s.logical, folds))
    decreases |folds|
  {
    hide Added, Written, PlainText, White;
    if folds != [] {
      var line := Written(folds[0].chunk.(text := White(folds[0]) + folds[0].chunk.text));
      FedFold(s, folds[0]);
      FedInTwo(s, line, WrittenFolds(folds[1..]));
      FedFolds(s.(logical := Added(s.logical, folds[0].chunk.text)), folds[1..]);
    }
  }

  /** A whole folded line: the one before it is handed on, this one waits for more folds. */
  lemma FedLine(s: State, f: Folded)
    requires WellFolded(f) && s.lineBuf == ""
    ensures Fed(s, WrittenLine(f)) == Processed(s).(logical := Kept(f), havePending := true)
  {
    hide Fed, AllAdded, Written, WrittenFolds;
    FedChunk(s, f.first);
    var after := Processed(s).(logical := Capped(f.first.text), havePending := true);
    assert Fed(s, Written(f.first)) == after;
    FedInTwo(s, Written(f.first), WrittenFolds(f.folds));
    FedFolds(after, f.folds);
  }

  lemma FedNothing(s: State)
    ensures Fed(s, "") == s
  {
  }

  function KeptLines(fs: seq<Folded>): seq<string> {
    if fs == [] then [] else (if Kept(fs[0]) == "" then [] else [Kept(fs[0])]) + KeptLines(fs[1..])
  }

  lemma {:induction false} FedLines(s: State, fs: seq<Folded>)
    requires (forall i :: 0 <= i < |fs| ==> WellFolded(fs[i])) && s.lineBuf == ""
    ensures Finished(Fed(s, WrittenLines(fs))).lines == Processed(s).lines + KeptLines(fs)
    decreases |fs|
  {
    hide Fed, WrittenLine, Kept, WellFolded;
    if fs == [] {
      FedNothing(s);
    } else {
      var after := Processed(s).(logical := Kept(fs[0]), havePending := true);
      FedLine(s, fs[0]);
      FedInTwo(s, WrittenLine(fs[0]), WrittenLines(fs[1..]));
      FedLines(after, fs[1..]);
    }
  }

  /** A missing newline at the end of the feed changes nothing. */
  lemma LastNewlineOptional(s: State, text: string)
    ensures Finished(Fed(s, text)).lines == Finished(Fed(s, text + "\n")).lines
  {
    hide Fed;
    FedLast(s, text, '\n');
  }

  // ----- Which foldings come through whole -----

  /** Room for every continuation when its turn comes. */
  predicate FoldsFit(length: nat, folds: seq<Fold>)
    decreases |folds|
  {
    folds == [] || (
      && (folds[0].chunk.text == "" || (length < MAX_LOGICAL_LINE && |folds[0].chunk.text| < MAX_LOGICAL_LINE))
      && FoldsFit(length + |folds[0].chunk.text|, folds[1..]))
  }

  predicate Fits(f: Folded) {
    |f.first.text| <= MAX_LOGICAL_LINE && FoldsFit(|f.first.text|, f.folds)
  }

  lemma {:induction false} AllAddedLength(kept: string, folds: seq<Fold>)
    ensures |AllAdded(kept, folds)| <= |kept| + |FoldTexts(folds)|
    decreases |folds|
  {
    if folds != [] {
      AllAddedLength(Added(kept, folds[0].chunk.text), folds[1..]);
    }
  }

  lemma {:induction false} AddedWhole(kept: string, folds: seq<Fold>)
    ensures AllAdded(kept, folds) == kept + FoldTexts(folds) <==> FoldsFit(|kept|, folds)
    decreases |folds|
  {
    if folds == [] {
      assert kept + "" == kept;
    } else {
      var text := folds[0].chunk.text;
      var more := Added(kept, text);
      AddedWhole(more, folds[1..]);
      AllAddedLength(more, folds[1..]);
      assert kept + (text + FoldTexts(folds[1..])) == (kept + text) + FoldTexts(folds[1..]);
      if text == "" {
        assert more == kept == kept + text;
      }
    }
  }

  /** A folded line is kept whole exactly when each of its pieces fits when it is read. */
  lemma KeptWhole(f: Folded)
    ensures Kept(f) == Unfolded(f) <==> Fits(f)
  {
    AddedWhole(Capped(f.first.text), f.folds);
    AllAddedLength(Capped(f.first.text), f.folds);
    hide AllAdded, FoldTexts, FoldsFit;
  }

  lemma {:induction false} ShortFolds(length: nat, folds: seq<Fold>)
    requires length + |FoldTexts(folds)| < MAX_LOGICAL_LINE
    ensures FoldsFit(length, folds)
    decreases |folds|
  {
    if folds != [] {
      ShortFolds(length + |folds[0].chunk.text|, folds[1..]);
    }
  }

  /** Lines under the limit fit however they are folded. */
  lemma ShortLinesFit(f: Folded)
    requires |Unfolded(f)| < 4096
    ensures Fits(f)
  {
    ShortFolds(|f.first.text|, f.folds);
  }

  lemma {:induction false} KeptAll(fs: seq<Folded>)
    requires forall i :: 0 <= i < |fs| ==> |Unfolded(fs[i])| < 4096
    ensures KeptLines(fs) == UnfoldedLines(fs)
    decreases |fs|
  {
    hide Kept, Unfolded;
    if fs != [] {
      ShortLinesFit(fs[0]);
      KeptWhole(fs[0]);
      KeptAll(fs[1..]);
    }
  }

  /**
   * However the lines are folded and ended and however the bytes are split, a new reader hands on
   * the lines as they were before folding, in order.
   */
  lemma UnfoldsAnyFolding(fs: seq<Folded>, pieces: seq<string>)
    requires forall i :: 0 <= i < |fs| ==> WellFolded(fs[i]) && |Unfolded(fs[i])| < 4096
    requires Joined(pieces) == WrittenLines(fs) || Joined(pieces) + "\n" == WrittenLines(fs)
    ensures Finished(FedPieces(Fresh(), pieces)).lines == UnfoldedLines(fs)
  {
    hide Finished, Fed, FedPieces, KeptLines, UnfoldedLines, WrittenLines, Joined, WellFolded, Unfolded;
    SplitsDoNotMatter(Fresh(), pieces);
    LastNewlineOptional(Fresh(), Joined(pieces));
    FedLines(Fresh(), fs);
    KeptAll(fs);
  }
}
