/**
 The batch reader of a recorded log, and when the incremental follower agrees with it.

 The batch reader opens the file as text. It decodes a page of bytes at a time, before any line of that page is seen; a
 carriage return ends a line too; and it skips what `str.strip` empties. The follower decodes line by line, splits at
 line feeds only and skips what `bytes.strip` empties. `AgreesExactly` says on which logs they agree;
 `LoneReturnSplitsReaders` and `BytesAfterDoneSplitReaders` are logs on which they do not.
 */
module BatchStream {
  import opened Prelude
  import opened Follow
  import opened Utf8

  /** The lines of a text file: LF, CR and CRLF each end one and are read as LF. */
  function TextLines(cur: Bytes, b: Bytes): seq<Bytes>
    decreases |b|
  {
    if b == [] then (if cur == [] then [] else [cur])
    else if b[0] == LF then [cur + [LF]] + TextLines([], b[1..])
    else if b[0] == CR then [cur + [LF]] + TextLines([], if |b| > 1 && b[1] == LF then b[2..] else b[1..])
    else TextLines(cur + [b[0]], b[1..])
  }

  /** One line of `stream`, cut after `done`. */
  function StreamLine(c: Codec, run: Run, line: Bytes): Run {
    if run.status != Waiting || c.blank(line) then run
    else if c.decode(line).None? then run.(status := Raised)
    else Emit(run, c.decode(line).value)
  }

  function StreamLines(c: Codec, run: Run, lines: seq<Bytes>): Run
    decreases lines
  {
    if lines == [] then run else StreamLines(c, StreamLine(c, run, lines[0]), lines[1..])
  }

  /** The events of a reader that decodes as it goes, up to the first `done`. */
  function Linewise(c: Codec, log: Bytes): Run { StreamLines(c, Begin, TextLines([], log)) }

  /** The lines that are certain to be complete: a final CR may still turn out to be half of a CRLF. */
  function CompleteLines(cur: Bytes, b: Bytes): seq<Bytes>
    decreases |b|
  {
    if b == [] || b == [CR] then []
    else if b[0] == LF then [cur + [LF]] + CompleteLines([], b[1..])
    else if b[0] == CR then [cur + [LF]] + CompleteLines([], if b[1] == LF then b[2..] else b[1..])
    else CompleteLines(cur + [b[0]], b[1..])
  }

  /** How many pages, from the `n`-th on, the decoder takes without an error. */
  function Readable(pages: seq<Bytes>, n: nat): (m: nat)
    requires n <= |pages|
    ensures n <= m <= |pages|
    decreases |pages| - n
  {
    if n < |pages| && Decodes(Flatten(pages[..n + 1])) then Readable(pages, n + 1) else n
  }

  /** The lines a text handle yields, and whether it then fails to decode the file. */
  datatype Text = Text(lines: seq<Bytes>, broken: bool)

  /** `pages` are the reads of the handle, whatever their sizes. */
  function TextOf(pages: seq<Bytes>): Text {
    var log := Flatten(pages);
    if Valid(log) then Text(TextLines([], log), false)
    else Text(CompleteLines([], Decoded(Flatten(pages[..Readable(pages, 0)]))), true)
  }

  /** The events of the batch reader up to the first `done`. */
  function Batch(c: Codec, pages: seq<Bytes>): Run {
    var text := TextOf(pages);
    var run := StreamLines(c, Begin, text.lines);
    if run.status == Waiting && text.broken then run.(status := Raised) else run
  }

  /** `stream` as its consumer drives it: line by line, no further than the first `done`. */
  method Stream(c: Codec, pages: seq<Bytes>) returns (events: seq<Envelope>, status: Status)
    ensures Run(events, status) == Batch(c, pages)
  {
    hide TextOf;
    var text := TextOf(pages);
    var lines := text.lines;
    events, status := [], Waiting;
    var i := 0;
    while i < |lines| && status == Waiting
      invariant 0 <= i <= |lines|
      invariant StreamLines(c, Run(events, status), lines[i..]) == StreamLines(c, Begin, lines)
    {
      var line := lines[i];
      assert lines[i..][1..] == lines[i + 1..];
      i := i + 1;
      if !c.blank(line) {
        var envelope := c.decode(line);
        if envelope.None? {
          status := Raised;
        } else {
          events := events + [envelope.value];
          status := if envelope.value.isDone then Finished else Waiting;
        }
      }
    }
    StreamStopped(c, Run(events, status), lines[i..]);
    if status == Waiting && text.broken {
      status := Raised;
    }
  }

  lemma {:induction false} StreamStopped(c: Codec, run: Run, lines: seq<Bytes>)
    requires run.status != Waiting || lines == []
    ensures StreamLines(c, run, lines) == run
  {
    if lines != [] {
      StreamStopped(c, run, lines[1..]);
    }
  }

  // ---------------------------------------------------------------- by line feeds first

  /** The pieces of one LF-line, at its carriage returns, `cur` having been read already. */
  function Pieces(c: Codec, run: Run, cur: Bytes, line: Bytes): Run
    decreases |line|
  {
    if line == [] then StreamLine(c, run, cur)
    else if line[0] == CR then Pieces(c, StreamLine(c, run, cur), [], line[1..])
    else Pieces(c, run, cur + [line[0]], line[1..])
  }

  function PiecesOf(c: Codec, run: Run, lines: seq<Bytes>): Run {
    if lines == [] then run else Pieces(c, PiecesOf(c, run, lines[..|lines| - 1]), [], lines[|lines| - 1])
  }

  function PiecesFrom(c: Codec, run: Run, cur: Bytes, l: Lines): Run {
    if l.full == [] then Pieces(c, run, cur, l.tail)
    else Pieces(c, PiecesOf(c, Pieces(c, run, cur, l.full[0]), l.full[1..]), [], l.tail)
  }

  lemma TerminatorIsSpace(c: Codec, run: Run, cur: Bytes)
    requires Laws(c)
    ensures StreamLine(c, run, cur + [LF]) == StreamLine(c, run, cur) && StreamLine(c, run, []) == run
  {
    assert JsonSpace([LF]) && AsciiBlank([]);
  }

  lemma {:induction false} PiecesOfFront(c: Codec, run: Run, lines: seq<Bytes>)
    requires lines != []
    ensures PiecesOf(c, run, lines) == PiecesOf(c, Pieces(c, run, [], lines[0]), lines[1..])
  {
    if |lines| > 1 {
      var n := |lines| - 1;
      PiecesOfFront(c, run, lines[..n]);
      assert lines[..n][1..] == lines[1..][..n - 1];
    }
  }

  /** Universal newlines are line feeds first, carriage returns within them second. */
  lemma {:induction false} StreamByLines(c: Codec, run: Run, cur: Bytes, b: Bytes)
    requires Laws(c)
    ensures StreamLines(c, run, TextLines(cur, b)) == PiecesFrom(c, run, cur, Split(b))
    decreases |b|
  {
    hide Laws, StreamLine;
    TerminatorIsSpace(c, run, cur);
    if b == [] {
      if cur != [] {
        StreamOne(c, run, cur);
      }
    } else if b[0] == LF {
      var l := Split(b[1..]);
      StreamByLines(c, StreamLine(c, run, cur), [], b[1..]);
      StreamFront(c, run, cur + [LF], TextLines([], b[1..]));
      AfterBreak(c, StreamLine(c, run, cur), l);
      assert ([[]] + l.full)[1..] == l.full;
    } else if b[0] == CR {
      var after := if |b| > 1 && b[1] == LF then b[2..] else b[1..];
      StreamByLines(c, StreamLine(c, run, cur), [], after);
      StreamFront(c, run, cur + [LF], TextLines([], after));
      ReturnStep(c, run, cur, b);
    } else {
      StreamByLines(c, run, cur + [b[0]], b[1..]);
      FirstByte(c, run, cur, b);
    }
  }

  lemma StreamOne(c: Codec, run: Run, line: Bytes)
    ensures StreamLines(c, run, [line]) == StreamLine(c, run, line)
  {
    assert [line][1..] == [];
  }

  lemma StreamFront(c: Codec, run: Run, line: Bytes, lines: seq<Bytes>)
    ensures StreamLines(c, run, [line] + lines) == StreamLines(c, StreamLine(c, run, line), lines)
  {
    assert ([line] + lines)[1..] == lines;
  }

  /** Past a line feed nothing is pending. */
  lemma AfterBreak(c: Codec, run: Run, l: Lines)
    ensures PiecesFrom(c, run, [], l) == Pieces(c, PiecesOf(c, run, l.full), [], l.tail)
  {
    if l.full != [] {
      PiecesOfFront(c, run, l.full);
    }
  }

  lemma FirstByte(c: Codec, run: Run, cur: Bytes, b: Bytes)
    requires b != [] && b[0] != LF
    ensures b[0] != CR ==> PiecesFrom(c, run, cur, Split(b)) == PiecesFrom(c, run, cur + [b[0]], Split(b[1..]))
    ensures b[0] == CR ==>
      PiecesFrom(c, run, cur, Split(b)) == PiecesFrom(c, StreamLine(c, run, cur), [], Split(b[1..]))
  {
    hide StreamLine;
    var l := Split(b[1..]);
    if l.full == [] {
      assert ([b[0]] + l.tail)[1..] == l.tail;
    } else {
      assert ([b[0]] + l.full[0])[1..] == l.full[0];
    }
  }

  /** CRLF is one break for the batch reader; the empty piece between is blank. */
  lemma ReturnStep(c: Codec, run: Run, cur: Bytes, b: Bytes)
    requires Laws(c) && b != [] && b[0] == CR
    ensures var after := if |b| > 1 && b[1] == LF then b[2..] else b[1..];
            PiecesFrom(c, run, cur, Split(b)) == PiecesFrom(c, StreamLine(c, run, cur), [], Split(after))
  {
    hide Laws, StreamLine;
    var next := StreamLine(c, run, cur);
    FirstByte(c, run, cur, b);
    if |b| > 1 && b[1] == LF {
      assert b[1..][1..] == b[2..];
      var l := Split(b[2..]);
      TerminatorIsSpace(c, next, []);
      AfterBreak(c, next, l);
      assert ([[]] + l.full)[1..] == l.full;
    }
  }

  // ---------------------------------------------------------------- one line, two readers

  lemma {:induction false} PiecesStopped(c: Codec, run: Run, cur: Bytes, line: Bytes)
    requires run.status != Waiting
    ensures Pieces(c, run, cur, line) == run
    decreases |line|
  {
    if line != [] {
      PiecesStopped(c, run, if line[0] == CR then [] else cur + [line[0]], line[1..]);
    }
  }

  /** A blank line is blank in every piece. */
  lemma {:induction false} BlankPieces(c: Codec, run: Run, cur: Bytes, line: Bytes)
    requires Laws(c) && c.blank(cur + line)
    ensures Pieces(c, run, cur, line) == run
    decreases |line|
  {
    if line == [] {
      assert cur + line == cur;
    } else if line[0] == CR {
      assert cur + line == cur + [CR] + line[1..];
      assert [] + line[1..] == line[1..];
      BlankPieces(c, run, [], line[1..]);
    } else {
      assert cur + line == (cur + [line[0]]) + line[1..];
      BlankPieces(c, run, cur + [line[0]], line[1..]);
    }
  }

  /** Only events are added, and a line with nothing to skip adds one or raises. */
  lemma {:induction false} PiecesGrow(c: Codec, run: Run, cur: Bytes, line: Bytes)
    requires Laws(c) && run.status == Waiting
    ensures var out := Pieces(c, run, cur, line);
            |out.events| >= |run.events|
              && (!c.blank(cur + line) && out.status != Raised ==> |out.events| > |run.events|)
    decreases |line|
  {
    if line == [] {
      assert cur + line == cur;
    } else if line[0] == CR {
      assert cur + line == cur + [CR] + line[1..];
      assert [] + line[1..] == line[1..];
      var next := StreamLine(c, run, cur);
      if next.status == Waiting {
        PiecesGrow(c, next, [], line[1..]);
      } else {
        PiecesStopped(c, next, [], line[1..]);
      }
    } else {
      assert cur + line == (cur + [line[0]]) + line[1..];
      PiecesGrow(c, run, cur + [line[0]], line[1..]);
    }
  }

  /** Leading white space does not matter, and a valid text is not blank. */
  lemma ValidSuffix(c: Codec, pre: Bytes, text: Bytes)
    requires Laws(c) && JsonSpace(pre) && c.decode(pre + text).Some?
    ensures c.decode(text) == c.decode(pre + text) && !c.blank(text)
  {
    assert text + [] == text;
  }

  /** A blank piece in front of a carriage return in a valid text is white space. */
  lemma BlankFront(c: Codec, cur: Bytes, rest: Bytes)
    requires Laws(c) && c.blank(cur) && c.decode(cur + ([CR] + rest)).Some?
    ensures JsonSpace(cur + [CR])
  {
    assert JsonSpace(cur);
  }

  /** A valid piece in a valid text leaves white space only. */
  lemma ValidFront(c: Codec, cur: Bytes, rest: Bytes)
    requires Laws(c) && c.decode(cur).Some? && c.decode(cur + ([CR] + rest)).Some?
    ensures c.decode(cur) == c.decode(cur + ([CR] + rest)) && c.blank(rest)
  {
    var after := [CR] + rest;
    assert JsonSpace(after);
    assert forall i :: 0 <= i < |rest| ==> rest[i] == after[i + 1];
    assert AsciiBlank(rest);
  }

  /** A valid line that the batch reader survives yields its one event in both readers. */
  lemma {:induction false} ValidPieces(c: Codec, run: Run, pre: Bytes, cur: Bytes, line: Bytes)
    requires Laws(c) && run.status == Waiting && JsonSpace(pre)
    requires c.decode(pre + cur + line).Some? && Pieces(c, run, cur, line).status != Raised
    ensures Pieces(c, run, cur, line) == Emit(run, c.decode(pre + cur + line).value)
    decreases |line|
  {
    hide Laws, JsonSpace;
    assert pre + cur + line == pre + (cur + line);
    ValidSuffix(c, pre, cur + line);
    if line == [] {
      assert cur + line == cur;
    } else if line[0] == CR {
      var rest := line[1..];
      assert line == [CR] + rest;
      if c.blank(cur) {
        BlankFront(c, cur, rest);
        assert cur + [CR] + [] + rest == cur + line;
        ValidPieces(c, run, cur + [CR], [], rest);
      } else if c.decode(cur).Some? {
        ValidFront(c, cur, rest);
        assert [] + rest == rest;
        BlankPieces(c, StreamLine(c, run, cur), [], rest);
      } else {
        PiecesStopped(c, run.(status := Raised), [], rest);
      }
    } else {
      assert pre + cur + line == pre + (cur + [line[0]]) + line[1..];
      ValidPieces(c, run, pre, cur + [line[0]], line[1..]);
    }
  }

  /** On a good line that the batch reader survives, the two readers do the same. */
  lemma SameLine(c: Codec, run: Run, line: Bytes)
    requires Laws(c) && (run.status == Waiting ==> LineOk(c, line))
    requires Pieces(c, run, [], line).status != Raised
    ensures Pieces(c, run, [], line) == ProcessLine(c, run, line)
  {
    hide Pieces;
    assert [] + line == line && [] + [] + line == line;
    if run.status != Waiting {
      PiecesStopped(c, run, [], line);
    } else if AsciiBlank(line) {
      BlankPieces(c, run, [], line);
    } else {
      ValidPieces(c, run, [], [], line);
    }
  }

  // ---------------------------------------------------------------- whole logs

  lemma RaisedStays(c: Codec, run: Run, line: Bytes)
    ensures run.status == Raised ==> Pieces(c, run, [], line) == run
  {
    if run.status == Raised {
      PiecesStopped(c, run, [], line);
    }
  }

  lemma {:induction false} GoodLinesAgree(c: Codec, lines: seq<Bytes>)
    requires Laws(c) && GoodLines(c, lines) && PiecesOf(c, Begin, lines).status != Raised
    ensures PiecesOf(c, Begin, lines) == Process(c, Begin, lines)
  {
    hide Laws, Pieces, ProcessLine, LineOk;
    if lines != [] {
      var n := |lines| - 1;
      forall i | 0 <= i < n && Process(c, Begin, lines[..n][..i]).status == Waiting ensures LineOk(c, lines[..n][i]) {
        assert lines[..n][..i] == lines[..i];
      }
      RaisedStays(c, PiecesOf(c, Begin, lines[..n]), lines[n]);
      GoodLinesAgree(c, lines[..n]);
      SameLine(c, Process(c, Begin, lines[..n]), lines[n]);
    }
  }

  /** A bad line that is reached makes the follower raise. */
  lemma BadLineRaises(c: Codec, lines: seq<Bytes>)
    requires !GoodLines(c, lines)
    ensures Process(c, Begin, lines).status == Raised
  {
    var i :| 0 <= i < |lines| && Process(c, Begin, lines[..i]).status == Waiting && !LineOk(c, lines[i]);
    assert lines[..i + 1][..i] == lines[..i];
    StoppedStays(c, Begin, lines, i + 1);
  }

  lemma BatchByLines(c: Codec, log: Bytes)
    requires Laws(c)
    ensures Linewise(c, log) == Pieces(c, PiecesOf(c, Begin, Split(log).full), [], Split(log).tail)
  {
    hide Laws, Pieces, PiecesOf, StreamLines, TextLines, Split;
    StreamByLines(c, Begin, [], log);
    AfterBreak(c, Begin, Split(log));
  }

  /** The last, unterminated line: the readers agree on it exactly if it is blank or valid. */
  lemma TailAgrees(c: Codec, run: Run, tail: Bytes)
    requires Laws(c) && Pieces(c, run, [], tail).status != Raised
    ensures var taken := if tail != [] && c.decode(tail).Some? then ProcessLine(c, run, tail) else run;
            Pieces(c, run, [], tail) == taken <==> (run.status == Waiting ==> c.blank(tail) || c.decode(tail).Some?)
  {
    hide Pieces, AsciiBlank;
    assert [] + tail == tail && tail + [] == tail;
    if run.status != Waiting {
      PiecesStopped(c, run, [], tail);
    } else if c.blank(tail) {
      BlankPieces(c, run, [], tail);
    } else if c.decode(tail).Some? {
      EmptyDecodesNot(c);
      SameLine(c, run, tail);
    } else {
      PiecesGrow(c, run, [], tail);
    }
  }

  lemma EmptyDecodesNot(c: Codec)
    requires Laws(c)
    ensures c.decode([]).None?
  {
    var nothing: Bytes := [];
    assert AsciiBlank(nothing) && c.blank(nothing + nothing);
  }

  /** Line by line: given that such a reader can read a log, reading it whole agrees exactly if every line is good. */
  lemma LinewiseAgreesExactly(c: Codec, log: Bytes)
    requires Laws(c) && Linewise(c, log).status != Raised
    ensures Whole(c, log) == Linewise(c, log) <==> GoodLog(c, log)
  {
    hide Laws, Pieces, PiecesOf, Process, Split, Linewise, GoodLines, LineOk;
    var l := Split(log);
    BatchByLines(c, log);
    RaisedStays(c, PiecesOf(c, Begin, l.full), l.tail);
    if GoodLines(c, l.full) {
      GoodLinesAgree(c, l.full);
      TailAgrees(c, Process(c, Begin, l.full), l.tail);
    } else {
      BadLineRaises(c, l.full);
    }
  }

  // ---------------------------------------------------------------- page by page

  /** Complete lines stay what they are when more bytes follow. */
  lemma {:induction false} CompleteIsPrefix(cur: Bytes, b: Bytes, rest: Bytes)
    ensures CompleteLines(cur, b) <= TextLines(cur, b + rest)
    decreases |b|
  {
    if b != [] && b != [CR] {
      assert (b + rest)[0] == b[0] && (b + rest)[1..] == b[1..] + rest;
      if b[0] == LF {
        CompleteIsPrefix([], b[1..], rest);
      } else if b[0] == CR {
        assert (b + rest)[1] == b[1] && (b + rest)[2..] == b[2..] + rest;
        CompleteIsPrefix([], if b[1] == LF then b[2..] else b[1..], rest);
      } else {
        CompleteIsPrefix(cur + [b[0]], b[1..], rest);
      }
    }
  }

  lemma {:induction false} FlattenPrefix(pages: seq<Bytes>, n: nat)
    requires n <= |pages|
    ensures Flatten(pages[..n]) <= Flatten(pages)
  {
    if n == |pages| {
      assert pages[..n] == pages;
    } else {
      var front := pages[..|pages| - 1];
      assert front[..n] == pages[..n];
      FlattenPrefix(front, n);
    }
  }

  lemma {:induction false} StreamPrefix(c: Codec, run: Run, a: seq<Bytes>, b: seq<Bytes>)
    requires StreamLines(c, run, a).status != Waiting
    ensures StreamLines(c, run, a + b) == StreamLines(c, run, a)
    decreases a
  {
    hide StreamLine;
    if a == [] {
      assert a + b == b;
      StreamStopped(c, run, b);
    } else {
      assert (a + b)[1..] == a[1..] + b && (a + b)[0] == a[0];
      StreamPrefix(c, StreamLine(c, run, a[0]), a[1..], b);
    }
  }

  lemma DecodedPrefix(b: Bytes, log: Bytes)
    requires b <= log
    ensures Decoded(b) <= log
  {
    var d := Decoded(b);
    hide Decoded;
    assert d == b[..|d|] == log[..|d|];
  }

  lemma CompletePrefix(got: Bytes, log: Bytes)
    requires got <= log
    ensures CompleteLines([], got) <= TextLines([], log)
  {
    hide TextLines, CompleteLines;
    assert log == got + log[|got|..];
    CompleteIsPrefix([], got, log[|got|..]);
  }

  /** What is delivered before a failure is the beginning of the lines of the whole file. */
  lemma DeliveredIsPrefix(pages: seq<Bytes>)
    requires !Valid(Flatten(pages))
    ensures TextOf(pages).lines <= TextLines([], Flatten(pages)) && TextOf(pages).broken
  {
    hide TextLines, CompleteLines, Flatten, Valid, Decoded, Readable;
    var n := Readable(pages, 0);
    FlattenPrefix(pages, n);
    DecodedPrefix(Flatten(pages[..n]), Flatten(pages));
    CompletePrefix(Decoded(Flatten(pages[..n])), Flatten(pages));
  }

  /** A batch reader that does not raise has read what a reader line by line would have. */
  lemma SurvivorIsLinewise(c: Codec, pages: seq<Bytes>)
    requires Batch(c, pages).status != Raised
    ensures Batch(c, pages) == Linewise(c, Flatten(pages))
  {
    hide StreamLines, TextLines, Flatten, TextOf, Valid;
    if Valid(Flatten(pages)) {
      ValidIsLinewise(c, pages);
    } else {
      DeliveredIsPrefix(pages);
      var lines, all := TextOf(pages).lines, TextLines([], Flatten(pages));
      assert all == lines + all[|lines|..];
      StreamPrefix(c, Begin, lines, all[|lines|..]);
    }
  }

  /**
   When the batch reader can read a log up to its end or to `done`, reading it whole agrees exactly if every line
   reached is good.
   */
  lemma AgreesExactly(c: Codec, pages: seq<Bytes>)
    requires Laws(c) && Batch(c, pages).status != Raised
    ensures Whole(c, Flatten(pages)) == Batch(c, pages) <==> GoodLog(c, Flatten(pages))
  {
    hide *;
    SurvivorIsLinewise(c, pages);
    LinewiseAgreesExactly(c, Flatten(pages));
  }

  /**
   The follower, however it reads, sends what the batch reader, however it pages, yields after `afterId` up to the first
   `done`.
   */
  lemma FollowerMatchesBatch(c: Codec, chunks: seq<Bytes>, pages: seq<Bytes>, afterId: nat)
    requires Laws(c) && Flatten(chunks) == Flatten(pages) && GoodLog(c, Flatten(pages))
             && Batch(c, pages).status != Raised
    ensures var run := FollowChunks(c, Follower([], Begin), chunks).run;
            run == Batch(c, pages) && Messages(run.events, afterId) == Messages(Batch(c, pages).events, afterId)
  {
    hide *;
    ChunkIndependent(c, chunks);
    AgreesExactly(c, pages);
  }

  // ---------------------------------------------------------------- logs without carriage returns

  lemma {:induction false} PlainPieces(c: Codec, run: Run, cur: Bytes, line: Bytes)
    requires CR !in line
    ensures Pieces(c, run, cur, line) == StreamLine(c, run, cur + line)
    decreases |line|
  {
    if line == [] {
      assert cur + line == cur;
    } else {
      assert line[0] in line && cur + line == (cur + [line[0]]) + line[1..];
      PlainPieces(c, run, cur + [line[0]], line[1..]);
    }
  }

  lemma {:induction false} SplitKeepsOut(b: Bytes, x: byte)
    requires x !in b
    ensures x !in Split(b).tail && forall i :: 0 <= i < |Split(b).full| ==> x !in Split(b).full[i]
  {
    if b != [] {
      assert b[0] in b;
      SplitKeepsOut(b[1..], x);
    }
  }

  lemma {:induction false} PlainLines(c: Codec, lines: seq<Bytes>)
    requires Laws(c) && GoodLines(c, lines) && forall i :: 0 <= i < |lines| ==> CR !in lines[i]
    ensures PiecesOf(c, Begin, lines).status != Raised
  {
    hide Laws, Pieces, Process, ProcessLine, StreamLine;
    if lines != [] {
      var n := |lines| - 1;
      forall i | 0 <= i < n && Process(c, Begin, lines[..n][..i]).status == Waiting ensures LineOk(c, lines[..n][i]) {
        assert lines[..n][..i] == lines[..i];
      }
      PlainLines(c, lines[..n]);
      GoodLinesAgree(c, lines[..n]);
      var run := PiecesOf(c, Begin, lines[..n]);
      PlainPieces(c, run, [], lines[n]);
      assert [] + lines[n] == lines[n];
      OkLineSurvives(c, run, lines[n]);
    }
  }

  lemma OkLineSurvives(c: Codec, run: Run, line: Bytes)
    requires Laws(c) && run.status != Raised && (run.status == Waiting ==> c.blank(line) || LineOk(c, line))
    ensures StreamLine(c, run, line).status != Raised
  {
  }

  /** On a good log without carriage returns a reader line by line never raises, and neither does the follower. */
  lemma PlainLogSurvives(c: Codec, log: Bytes)
    requires Laws(c) && CR !in log && GoodLog(c, log)
    ensures Linewise(c, log).status != Raised && Whole(c, log) == Linewise(c, log)
  {
    hide Laws, Pieces, PiecesOf, Process, Split, Linewise, GoodLines, StreamLine;
    var l := Split(log);
    SplitKeepsOut(log, CR);
    PlainLines(c, l.full);
    GoodLinesAgree(c, l.full);
    var run := PiecesOf(c, Begin, l.full);
    PlainPieces(c, run, [], l.tail);
    assert [] + l.tail == l.tail;
    OkLineSurvives(c, run, l.tail);
    BatchByLines(c, log);
    LinewiseAgreesExactly(c, log);
  }

  /** `done` is among the lines that the handle yields before it fails. */
  ghost predicate DoneInTime(c: Codec, pages: seq<Bytes>) {
    StreamLines(c, Begin, TextOf(pages).lines).status == Finished
  }

  /**
   The recorder writes compact JSON, which holds no carriage return. On a good log of that kind follower and batch
   reader agree exactly if the whole file is UTF-8, or `done` comes before the page that is not.
   */
  lemma RecordedLogsAgree(c: Codec, chunks: seq<Bytes>, pages: seq<Bytes>)
    requires Laws(c) && Flatten(chunks) == Flatten(pages) && CR !in Flatten(pages) && GoodLog(c, Flatten(pages))
    ensures FollowChunks(c, Follower([], Begin), chunks).run == Batch(c, pages)
       <==> Valid(Flatten(pages)) || DoneInTime(c, pages)
  {
    hide Laws, GoodLog, Linewise, FollowChunks, Flatten, StreamLines, Whole, Valid, CompleteLines, Decoded;
    PlainLogSurvives(c, Flatten(pages));
    ChunkIndependent(c, chunks);
    if Batch(c, pages).status != Raised {
      SurvivorIsLinewise(c, pages);
    }
    if Valid(Flatten(pages)) {
      ValidIsLinewise(c, pages);
    }
  }

  lemma ValidIsLinewise(c: Codec, pages: seq<Bytes>)
    requires Valid(Flatten(pages))
    ensures Batch(c, pages) == Linewise(c, Flatten(pages))
  {
    hide StreamLines, TextLines, Flatten;
  }

  // ---------------------------------------------------------------- a log that divides the readers

  const Letter: byte := 65
  const Last: byte := 68

  predicate Space(x: byte) { x == 32 || x == 9 || x == LF || x == CR }

  predicate Single(b: Bytes, i: nat)
    requires i < |b|
  {
    (b[i] == Letter || b[i] == Last) && forall j :: 0 <= j < |b| && j != i ==> Space(b[j])
  }

  predicate OneLetter(b: Bytes) { exists i :: 0 <= i < |b| && Single(b, i) }

  /** A lawful codec with two valid texts: one of two letters between white space. */
  const Toy := Codec(b => if OneLetter(b) then Some(Envelope(Last in b, [])) else None, b => AsciiBlank(b))

  lemma SpaceAround(p: Bytes, w: Bytes)
    requires JsonSpace(w)
    ensures Last in p + w <==> Last in p
    ensures Last in w + p <==> Last in p
  {
  }

  lemma SpaceBehind(p: Bytes, w: Bytes)
    requires JsonSpace(w)
    ensures OneLetter(p + w) <==> OneLetter(p)
  {
    if i :| 0 <= i < |p| && Single(p, i) {
      assert Single(p + w, i);
    }
    if i :| 0 <= i < |p + w| && Single(p + w, i) {
      assert i < |p|;
      assert forall j :: 0 <= j < |p| ==> p[j] == (p + w)[j];
      assert Single(p, i);
    }
  }

  lemma SpaceInFront(p: Bytes, w: Bytes)
    requires JsonSpace(w)
    ensures OneLetter(w + p) <==> OneLetter(p)
  {
    var n := |w|;
    if i :| 0 <= i < |p| && Single(p, i) {
      assert Single(w + p, n + i);
    }
    if i :| 0 <= i < |w + p| && Single(w + p, i) {
      assert i >= n;
      assert forall j :: 0 <= j < |p| ==> p[j] == (w + p)[n + j];
      assert Single(p, i - n);
    }
  }

  lemma ToyTrims(p: Bytes, w: Bytes)
    requires JsonSpace(w)
    ensures Toy.decode(p + w) == Toy.decode(p) == Toy.decode(w + p)
  {
    SpaceAround(p, w);
    SpaceBehind(p, w);
    SpaceInFront(p, w);
    hide OneLetter;
  }

  lemma ToyStops(p: Bytes, s: Bytes)
    ensures Toy.decode(p).Some? && Toy.decode(p + s).Some? ==> JsonSpace(s)
    ensures Toy.blank(p) && Toy.decode(p + s).Some? ==> JsonSpace(p)
    ensures Toy.blank(p + s) ==> Toy.decode(p).None?
  {
    assert forall j :: 0 <= j < |p| ==> p[j] == (p + s)[j];
    assert forall j :: 0 <= j < |s| ==> s[j] == (p + s)[|p| + j];
  }

  lemma ToyBlanks(a: Bytes, b: Bytes)
    ensures Toy.blank(a + [CR] + b) <==> Toy.blank(a) && Toy.blank(b)
    ensures Toy.blank(a + [LF]) <==> Toy.blank(a)
  {
    var whole := a + [CR] + b;
    assert forall j :: 0 <= j < |a| ==> a[j] == whole[j] == (a + [LF])[j];
    assert forall j :: 0 <= j < |b| ==> b[j] == whole[|a| + 1 + j];
  }

  lemma ToyLawful()
    ensures Laws(Toy)
  {
    forall p: Bytes, w: Bytes | JsonSpace(w) ensures Toy.decode(p + w) == Toy.decode(p) == Toy.decode(w + p) {
      ToyTrims(p, w);
    }
    forall p: Bytes, s: Bytes
      ensures Toy.decode(p).Some? && Toy.decode(p + s).Some? ==> JsonSpace(s)
      ensures Toy.blank(p) && Toy.decode(p + s).Some? ==> JsonSpace(p)
      ensures Toy.blank(p + s) ==> Toy.decode(p).None?
    {
      ToyStops(p, s);
    }
    forall a: Bytes, b: Bytes ensures Toy.blank(a + [CR] + b) <==> Toy.blank(a) && Toy.blank(b) {
      ToyBlanks(a, b);
    }
    forall a: Bytes ensures Toy.blank(a + [LF]) <==> Toy.blank(a) {
      ToyBlanks(a, []);
    }
    hide AsciiBlank, JsonSpace, Single;
  }

  lemma ToyTexts()
    ensures Toy.decode([Letter]) == Toy.decode([Letter, LF]) == Toy.decode([CR, Letter]) == Some(Envelope(false, []))
    ensures Toy.decode([Letter, CR, Letter]) == None
    ensures !AsciiBlank([Letter]) && !AsciiBlank([CR, Letter]) && !AsciiBlank([Letter, CR, Letter])
            && !AsciiBlank([Letter, LF])
  {
    assert Single([Letter], 0) && Single([Letter, LF], 0) && Single([CR, Letter], 1);
    var two := [Letter, CR, Letter];
    assert two[0] == two[2] == Letter;
  }

  lemma ToySplits()
    ensures Split([Letter, CR, Letter, LF]) == Lines([[Letter, CR, Letter]], [])
    ensures Split([CR, Letter, LF]) == Lines([[CR, Letter]], []) && Split([Letter]) == Lines([], [Letter])
  {
    hide Split;
    var e: Bytes := [];
    TerminatedLine([Letter, CR, Letter]);
    TerminatedLine([CR, Letter]);
    SplitPlain([Letter], e);
    assert Split(e) == Lines([], []) by { SplitNothing(); }
    assert [Letter] + e == [Letter] && [Letter, CR, Letter] + [LF] == [Letter, CR, Letter, LF];
    assert [CR, Letter] + [LF] == [CR, Letter, LF];
  }

  lemma SplitNothing()
    ensures Split([]) == Lines([], [])
  {
  }

  lemma ToyLines()
    ensures TextLines([], [Letter, CR, Letter, LF]) == [[Letter, LF], [Letter, LF]]
  {
    var e: Bytes := [];
    assert e + [Letter] == [Letter] && [Letter] + [LF] == [Letter, LF];
    assert [LF][1..] == e && [Letter, LF][1..] == [LF] && [CR, Letter, LF][1..] == [Letter, LF];
    assert TextLines(e, e) == [];
    assert TextLines([Letter], [LF]) == [[Letter, LF]];
    assert TextLines(e, [Letter, LF]) == [[Letter, LF]];
    assert TextLines([Letter], [CR, Letter, LF]) == [[Letter, LF], [Letter, LF]];
    assert [Letter, CR, Letter, LF][1..] == [CR, Letter, LF];
  }

  lemma TerminatedLine(line: Bytes)
    requires LF !in line
    ensures Split(line + [LF]) == Lines([line], [])
  {
    SplitPlain(line, [LF]);
    assert Split([LF][1..]) == Lines([], []);
    assert line + [] == line;
  }

  lemma ProcessOne(c: Codec, run: Run, line: Bytes)
    ensures Process(c, run, [line]) == ProcessLine(c, run, line) && Process(c, run, []) == run
  {
    assert [line][..0] == [];
  }

  /**
   Two valid texts with a lone carriage return between them: the batch reader yields both, the follower raises when
   it reads them at once, and yields both when its first read ends after the first text.
   */
  lemma LoneReturnSplitsReaders()
    ensures Laws(Toy)
    ensures Batch(Toy, [[Letter, CR, Letter, LF]]) == Run([Envelope(false, []), Envelope(false, [])], Waiting)
    ensures FollowChunk(Toy, Follower([], Begin), [Letter, CR, Letter, LF]).run == Run([], Raised)
    ensures FollowChunk(Toy, FollowChunk(Toy, Follower([], Begin), [Letter]), [CR, Letter, LF]).run
         == Run([Envelope(false, []), Envelope(false, [])], Waiting)
  {
    hide Laws, Split, TextLines, AsciiBlank, Process, Decoded;
    ToyLawful();
    ToyTexts();
    ToySplits();
    ToyLines();
    OnePage([Letter, CR, Letter, LF]);
    AsciiIsValid([Letter, CR, Letter, LF]);
    var one := Run([Envelope(false, [])], Waiting);
    assert one.events + [Envelope(false, [])] == [Envelope(false, []), Envelope(false, [])];
    StreamFront(Toy, Begin, [Letter, LF], [[Letter, LF]]);
    assert [[Letter, LF]] + [[Letter, LF]] == [[Letter, LF], [Letter, LF]];
    StreamOne(Toy, one, [Letter, LF]);
    ProcessOne(Toy, Begin, [Letter, CR, Letter]);
    ProcessOne(Toy, one, [CR, Letter]);
    ProcessNone(Toy, Begin);
    assert Begin.events + [Envelope(false, [])] == one.events;
    var e: Bytes := [];
    assert e + [Letter, CR, Letter, LF] == [Letter, CR, Letter, LF] && e + [CR, Letter, LF] == [CR, Letter, LF]
      && e + [Letter] == [Letter];
  }

  lemma OnePage(page: Bytes)
    ensures Flatten([page]) == page && Flatten([]) == []
  {
    assert [page][..0] == [];
  }

  const AfterDone: Bytes := [Last, LF, 255, LF]

  lemma DoneTexts()
    ensures Toy.decode([Last]) == Toy.decode([Last, LF]) == Some(Envelope(true, []))
    ensures !AsciiBlank([Last]) && !AsciiBlank([Last, LF])
    ensures Split(AfterDone) == Lines([[Last], [255]], [])
  {
    assert Single([Last], 0) && Single([Last, LF], 0) && Last in [Last] && Last in [Last, LF];
    TerminatedLine([Last]);
    TerminatedLine([255]);
    SplitAppend([Last, LF], [255, LF]);
    var e: Bytes := [];
    assert [Last] + [LF] == [Last, LF] && [255] + [LF] == [255, LF] && e + [255, LF] == [255, LF];
    assert AfterDone == [Last, LF] + [255, LF];
    assert [[Last]] + [[255]] == [[Last], [255]];
  }

  /** How far the bytes decode: the page with the bad line not at all past `done`, the first half completely. */
  lemma AfterDoneDecodes()
    ensures Decoded(AfterDone) == Decoded([Last, LF]) == [Last, LF] && Decodes([Last, LF]) && !Decodes(AfterDone)
  {
    var first, second: Bytes := [Last, LF], [255, LF];
    assert Decoded(second) == [] && AfterDone[1..][1..] == second && first[1..][1..] == [];
    assert Decoded(AfterDone[1..]) == [LF] && Decoded(AfterDone) == first;
    assert Decoded(first[1..]) == [LF] && Decoded(first) == first;
    assert AfterDone[2..] == second && !Unfinished(second);
  }

  lemma DoneLine()
    ensures CompleteLines([], []) == [] && CompleteLines([], [Last, LF]) == [[Last, LF]]
  {
    var first: Bytes := [Last, LF];
    assert [] + [Last] == [Last] && [Last] + [LF] == first && first[1..] == [LF] && [LF][1..] == [];
    assert CompleteLines([Last], [LF]) == [[Last, LF]] + CompleteLines([], []);
  }

  lemma AfterDonePages()
    ensures Flatten([AfterDone]) == AfterDone && Flatten([[Last, LF]]) == [Last, LF]
    ensures Flatten([[Last, LF], [255, LF]]) == AfterDone
  {
    var pages: seq<Bytes> := [[Last, LF], [255, LF]];
    OnePage(AfterDone);
    OnePage(pages[0]);
    assert pages[..1] == [pages[0]];
    assert pages[0] + pages[1] == AfterDone;
  }

  lemma PagesOfAfterDone()
    ensures TextOf([AfterDone]) == Text([], true)
    ensures TextOf([[Last, LF], [255, LF]]) == Text([[Last, LF]], true)
  {
    AfterDoneDecodes();
    AfterDonePages();
    DoneLine();
    assert Flatten([]) == [] && Decoded([]) == [];
    hide Decoded, Decodes, Flatten, CompleteLines;
    var pages: seq<Bytes> := [[Last, LF], [255, LF]];
    assert [AfterDone][..1] == [AfterDone] && [AfterDone][..0] == [] && pages[..1] == [pages[0]] && pages[..2] == pages;
    assert Readable([AfterDone], 0) == 0;
    assert Readable(pages, 1) == 1 && Readable(pages, 0) == 1;
  }

  /**
   A good log, `done` and then a line that is not UTF-8. The follower sends `done` and stops; the batch reader does so
   too if the page ends before the bad line, and otherwise raises before it yields anything.
   */
  lemma BytesAfterDoneSplitReaders()
    ensures Laws(Toy) && GoodLog(Toy, AfterDone) && CR !in AfterDone
    ensures FollowChunk(Toy, Follower([], Begin), AfterDone).run == Run([Envelope(true, [])], Finished)
    ensures Batch(Toy, [[Last, LF], [255, LF]]) == Run([Envelope(true, [])], Finished)
    ensures Batch(Toy, [AfterDone]) == Run([], Raised)
  {
    hide Laws, Split, AsciiBlank, Process, TextOf, Decoded;
    ToyLawful();
    DoneTexts();
    PagesOfAfterDone();
    var e: Bytes, done := [], Run([Envelope(true, [])], Finished);
    assert Begin.events + [Envelope(true, [])] == done.events && e + AfterDone == AfterDone;
    StreamOne(Toy, Begin, [Last, LF]);
    var lines: seq<Bytes> := [[Last], [255]];
    ProcessNone(Toy, Begin);
    ProcessOne(Toy, Begin, [Last]);
    ProcessSnoc(Toy, Begin, [[Last]], [255]);
    assert [[Last]] + [[255]] == lines && lines[..0] == [] && lines[..1] == [[Last]];
  }
}
