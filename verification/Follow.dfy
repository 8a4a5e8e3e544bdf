/**
 The incremental log follower, over any sequence of reads of an append-only file.

 A codec stands for UTF-8 decoding plus JSON validation of one line; its laws are those of JSON texts whose root is
 an object. `ChunkIndependent`: on every good log the follower emits the same events however the bytes are split
 into reads, although it takes an unterminated last line as soon as it decodes.
 */
module Follow {
  import opened Prelude

  const LF: byte := 10
  const CR: byte := 13

  datatype Envelope = Envelope(isDone: bool, data: Bytes)

  datatype Codec = Codec(decode: Bytes -> Option<Envelope>, blank: Bytes -> bool)

  /** bytes.strip() leaves nothing. */
  predicate AsciiBlank(b: Bytes) { forall i :: 0 <= i < |b| ==> b[i] == 32 || 9 <= b[i] <= 13 }

  /** Tab, line feed, vertical tab, form feed, carriage return and space, and no other byte. */
  lemma AsciiBlankExactly(b: Bytes)
    ensures AsciiBlank(b) <==> forall x :: x in b ==> x in {9, 10, 11, 12, 13, 32}
  {
    if forall x :: x in b ==> x in {9, 10, 11, 12, 13, 32} {
      forall i | 0 <= i < |b|
        ensures b[i] == 32 || 9 <= b[i] <= 13
      {
        assert b[i] in b;
      }
    }
  }

  /** JSON insignificant whitespace. */
  predicate JsonSpace(b: Bytes) { forall i :: 0 <= i < |b| ==> b[i] == 32 || b[i] == 9 || b[i] == LF || b[i] == CR }

  ghost predicate Laws(c: Codec) {
    && (forall w :: AsciiBlank(w) ==> c.blank(w))
    && (forall u, s :: c.blank(u + s) ==> c.decode(u).None?)
    && (forall a, b :: c.blank(a + [CR] + b) <==> c.blank(a) && c.blank(b))
    && (forall a :: c.blank(a + [LF]) <==> c.blank(a))
    && (forall p, w :: JsonSpace(w) ==> c.decode(p + w) == c.decode(p))
    && (forall p, w :: JsonSpace(w) ==> c.decode(w + p) == c.decode(p))
    && (forall p, s :: c.decode(p).Some? && c.decode(p + s).Some? ==> JsonSpace(s))
    && (forall w, x :: c.blank(w) && c.decode(w + x).Some? ==> JsonSpace(w))
  }

  // ---------------------------------------------------------------- lines

  datatype Lines = Lines(full: seq<Bytes>, tail: Bytes)

  /** buffer.split(b"\\n"), with the last piece apart. */
  function Split(b: Bytes): Lines {
    if b == [] then Lines([], [])
    else
      var rest := Split(b[1..]);
      if b[0] == LF then Lines([[]] + rest.full, rest.tail)
      else if rest.full == [] then Lines([], [b[0]] + rest.tail)
      else Lines([[b[0]] + rest.full[0]] + rest.full[1..], rest.tail)
  }

  /** `u` in front of a first line. */
  function Prefixed(u: Bytes, l: Lines): Lines {
    if l.full == [] then Lines([], u + l.tail) else Lines([u + l.full[0]] + l.full[1..], l.tail)
  }

  lemma {:induction false} SplitPlain(u: Bytes, z: Bytes)
    requires LF !in u
    ensures Split(u + z) == Prefixed(u, Split(z))
  {
    if u == [] {
      var l := Split(z);
      assert u + z == z && u + l.tail == l.tail;
      if l.full != [] {
        assert u + l.full[0] == l.full[0];
        assert [l.full[0]] + l.full[1..] == l.full;
      }
    } else {
      assert u[0] in u && (u + z)[1..] == u[1..] + z;
      SplitPlain(u[1..], z);
      var l := Split(z);
      assert [u[0]] + (u[1..] + l.tail) == u + l.tail;
      if l.full != [] {
        assert [u[0]] + (u[1..] + l.full[0]) == u + l.full[0];
        assert Prefixed(u[1..], l).full[1..] == l.full[1..];
      }
    }
  }

  lemma {:induction false} TailPlain(b: Bytes)
    ensures LF !in Split(b).tail && forall i :: 0 <= i < |Split(b).full| ==> LF !in Split(b).full[i]
  {
    if b != [] {
      TailPlain(b[1..]);
    }
  }

  lemma SplitFront(b: Bytes)
    requires b != []
    ensures var rest := Split(b[1..]);
            Split(b) == if b[0] == LF then Lines([[]] + rest.full, rest.tail) else Prefixed([b[0]], rest)
  {
  }

  /** The lines of a text that goes on with the lines `m` after the unfinished last line of `l`. */
  function Glue(l: Lines, m: Lines): Lines { Lines(l.full + m.full, m.tail) }

  lemma GlueFront(x: byte, rest: Lines, m: Lines)
    ensures Lines([[]] + Glue(rest, m).full, m.tail) == Glue(Lines([[]] + rest.full, rest.tail), m)
    ensures rest.full != [] ==> Prefixed([x], Glue(rest, m)) == Glue(Prefixed([x], rest), m)
  {
    Regroup([], rest.full, m.full);
    if rest.full != [] {
      Regroup([x] + rest.full[0], rest.full, m.full);
    }
  }

  lemma GlueNone(x: byte, rest: Lines, m: Lines)
    requires rest.full == []
    ensures Glue(rest, m) == m && Prefixed([x], rest) == Lines([], [x] + rest.tail)
    ensures Glue(Prefixed([x], rest), m) == m
  {
    assert [] + m.full == m.full;
  }

  /** Splitting can be resumed from the unfinished last line. */
  lemma {:induction false} SplitAppend(a: Bytes, b: Bytes)
    ensures Split(a + b) == Glue(Split(a), Split(Split(a).tail + b))
  {
    if a == [] {
      assert a + b == b && Split(a).tail + b == b;
    } else {
      hide Split, Glue, Prefixed;
      assert (a + b)[1..] == a[1..] + b && (a + b)[0] == a[0];
      SplitAppend(a[1..], b);
      SplitFront(a);
      SplitFront(a + b);
      var rest := Split(a[1..]);
      var m := Split(rest.tail + b);
      GlueTail(rest, m);
      if a[0] == LF || rest.full != [] {
        GlueFront(a[0], rest, m);
        PrefixedTail(a[0], rest);
      } else {
        GlueNone(a[0], rest, m);
        GlueNone(a[0], rest, Split([a[0]] + rest.tail + b));
        assert ([a[0]] + rest.tail) + b == [a[0]] + (rest.tail + b);
        SplitPlain([a[0]], rest.tail + b);
      }
    }
  }

  lemma GlueTail(l: Lines, m: Lines)
    ensures Glue(l, m).tail == m.tail
  {
  }

  lemma PrefixedTail(x: byte, l: Lines)
    ensures l.full != [] ==> Prefixed([x], l).tail == l.tail
  {
  }

  // ---------------------------------------------------------------- the follower

  datatype Status = Waiting | Finished | Raised

  datatype Run = Run(events: seq<Envelope>, status: Status)

  const Begin := Run([], Waiting)

  function Emit(run: Run, e: Envelope): Run { Run(run.events + [e], if e.isDone then Finished else Waiting) }

  /** One raw line of the follower: skip blanks, raise on anything undecodable, stop after `done`. */
  function ProcessLine(c: Codec, run: Run, line: Bytes): Run {
    if run.status != Waiting || AsciiBlank(line) then run
    else if c.decode(line).None? then run.(status := Raised)
    else Emit(run, c.decode(line).value)
  }

  function Process(c: Codec, run: Run, lines: seq<Bytes>): Run {
    if lines == [] then run else ProcessLine(c, Process(c, run, lines[..|lines| - 1]), lines[|lines| - 1])
  }

  datatype Follower = Follower(buffer: Bytes, run: Run)

  /** One read: append, split, and take an unterminated last line if it already decodes. */
  function FollowChunk(c: Codec, f: Follower, chunk: Bytes): Follower {
    if f.run.status != Waiting then f
    else
      var split := Split(f.buffer + chunk);
      var run := Process(c, f.run, split.full);
      if split.tail != [] && c.decode(split.tail).Some? then Follower([], ProcessLine(c, run, split.tail))
      else Follower(split.tail, run)
  }

  function FollowChunks(c: Codec, f: Follower, chunks: seq<Bytes>): Follower {
    if chunks == [] then f else FollowChunk(c, FollowChunks(c, f, chunks[..|chunks| - 1]), chunks[|chunks| - 1])
  }

  function Flatten(chunks: seq<Bytes>): Bytes {
    if chunks == [] then [] else Flatten(chunks[..|chunks| - 1]) + chunks[|chunks| - 1]
  }

  /** The messages a client with `afterId` receives: numbered from 1, the ones it has seen left out. */
  function Messages(events: seq<Envelope>, afterId: nat): seq<(nat, Envelope)> {
    if |events| <= afterId then []
    else Messages(events[..|events| - 1], afterId) + [(|events|, events[|events| - 1])]
  }

  /** The loop over the raw lines of one read, from the event number reached before it. */
  method FollowLines(c: Codec, rawLines: seq<Bytes>, afterId: nat, ghost run: Run, sent: seq<(nat, Envelope)>,
      reached: nat)
    returns (messages: seq<(nat, Envelope)>, eventId: nat, status: Status)
    requires run.status == Waiting && reached == |run.events| && sent == Messages(run.events, afterId)
    ensures var after := Process(c, run, rawLines);
            eventId == |after.events| && status == after.status && messages == Messages(after.events, afterId)
  {
    messages, eventId, status := sent, reached, Waiting;
    ghost var now := run;
    var j := 0;
    while j < |rawLines| && status == Waiting
      invariant 0 <= j <= |rawLines| && now == Process(c, run, rawLines[..j])
      invariant eventId == |now.events| && status == now.status && messages == Messages(now.events, afterId)
    {
      var line := rawLines[j];
      assert rawLines[..j + 1][..j] == rawLines[..j];
      now := ProcessLine(c, now, line);
      if !AsciiBlank(line) {
        var envelope := c.decode(line);
        if envelope.None? {
          status := Raised;
        } else {
          eventId := eventId + 1;
          assert now.events[..|now.events| - 1] == Process(c, run, rawLines[..j]).events;
          if eventId > afterId {
            messages := messages + [(eventId, envelope.value)];
          } else {
            MessagesSeen(now.events, afterId);
          }
          if envelope.value.isDone {
            status := Finished;
          }
        }
      }
      j := j + 1;
    }
    StoppedStays(c, run, rawLines, j);
  }

  lemma {:induction false} MessagesSeen(events: seq<Envelope>, afterId: nat)
    requires |events| <= afterId
    ensures Messages(events, afterId) == [] && (events != [] ==> Messages(events[..|events| - 1], afterId) == [])
  {
  }

  /** The client gets exactly the events after its last one, numbered by their position in the log. */
  lemma {:induction false} MessagesExactly(events: seq<Envelope>, afterId: nat)
    ensures |Messages(events, afterId)| == if |events| <= afterId then 0 else |events| - afterId
    ensures forall i :: 0 <= i < |Messages(events, afterId)| ==>
      Messages(events, afterId)[i] == (afterId + 1 + i, events[afterId + i])
  {
    if |events| > afterId {
      var n := |events| - 1;
      var earlier, all := Messages(events[..n], afterId), Messages(events, afterId);
      MessagesExactly(events[..n], afterId);
      assert all == earlier + [(n + 1, events[n])];
      hide Messages;
      forall i | 0 <= i < |all|
        ensures all[i] == (afterId + 1 + i, events[afterId + i])
      {
        if i < |earlier| {
          assert all[i] == earlier[i] && events[..n][afterId + i] == events[afterId + i];
        }
      }
    }
  }

  /** `_follow` over a finite sequence of reads of an append-only file. */
  method FollowLog(c: Codec, chunks: seq<Bytes>, afterId: nat) returns (messages: seq<(nat, Envelope)>, status: Status)
    ensures var run := FollowChunks(c, Follower([], Begin), chunks).run;
            messages == Messages(run.events, afterId) && status == run.status
  {
    hide Process, Split, Messages, AsciiBlank;
    var buffer: Bytes, eventId := [], 0;
    ghost var f := Follower([], Begin);
    MessagesSeen([], afterId);
    messages, status := [], Waiting;
    var i := 0;
    while i < |chunks| && status == Waiting
      invariant 0 <= i <= |chunks| && f == FollowChunks(c, Follower([], Begin), chunks[..i])
      invariant eventId == |f.run.events| && messages == Messages(f.run.events, afterId) && status == f.run.status
      invariant status == Waiting ==> f.buffer == buffer
    {
      assert chunks[..i + 1][..i] == chunks[..i];
      var split := Split(buffer + chunks[i]);
      var rawLines := split.full;
      buffer := split.tail;
      if buffer != [] && c.decode(buffer).Some? {
        rawLines := rawLines + [buffer];
        ProcessSnoc(c, f.run, split.full, buffer);
        buffer := [];
      }
      messages, eventId, status := FollowLines(c, rawLines, afterId, f.run, messages, eventId);
      f := FollowChunk(c, f, chunks[i]);
      i := i + 1;
    }
    ChunksStay(c, chunks, i);
  }

  lemma ProcessSnoc(c: Codec, run: Run, lines: seq<Bytes>, line: Bytes)
    ensures Process(c, run, lines + [line]) == ProcessLine(c, Process(c, run, lines), line)
  {
    assert (lines + [line])[..|lines|] == lines;
  }

  /** Lines after the end change nothing. */
  lemma {:induction false} StoppedStays(c: Codec, run: Run, lines: seq<Bytes>, j: nat)
    requires j <= |lines| && (j == |lines| || Process(c, run, lines[..j]).status != Waiting)
    ensures Process(c, run, lines) == Process(c, run, lines[..j])
  {
    if j == |lines| {
      assert lines[..j] == lines;
    } else {
      var n := |lines| - 1;
      assert lines[..n][..j] == lines[..j];
      StoppedStays(c, run, lines[..n], j);
    }
  }

  lemma {:induction false} ChunksStay(c: Codec, chunks: seq<Bytes>, i: nat)
    requires i <= |chunks| && (i == |chunks| || FollowChunks(c, Follower([], Begin), chunks[..i]).run.status != Waiting)
    ensures FollowChunks(c, Follower([], Begin), chunks).run == FollowChunks(c, Follower([], Begin), chunks[..i]).run
  {
    if i == |chunks| {
      assert chunks[..i] == chunks;
    } else {
      var n := |chunks| - 1;
      assert chunks[..n][..i] == chunks[..i];
      ChunksStay(c, chunks[..n], i);
    }
  }

  // ---------------------------------------------------------------- chunk independence

  lemma {:induction false} ProcessConcat(c: Codec, run: Run, a: seq<Bytes>, b: seq<Bytes>)
    ensures Process(c, run, a + b) == Process(c, Process(c, run, a), b)
  {
    if b == [] {
      assert a + b == a;
    } else {
      var n := |b| - 1;
      assert (a + b)[..|a + b| - 1] == a + b[..n];
      ProcessConcat(c, run, a, b[..n]);
    }
  }

  predicate LineOk(c: Codec, line: Bytes) { AsciiBlank(line) || c.decode(line).Some? }

  /** Every line that is reached is blank or valid. */
  predicate GoodLines(c: Codec, lines: seq<Bytes>) {
    forall i | 0 <= i < |lines| :: Process(c, Begin, lines[..i]).status == Waiting ==> LineOk(c, lines[i])
  }

  /** ... and so is an unterminated last line, if it is reached. */
  predicate GoodLog(c: Codec, log: Bytes) {
    var l := Split(log);
    && GoodLines(c, l.full)
    && (Process(c, Begin, l.full).status == Waiting ==> c.blank(l.tail) || c.decode(l.tail).Some?)
  }

  /** The whole log in one go: the terminated lines, then the last one if it decodes. */
  function Whole(c: Codec, log: Bytes): Run {
    var l := Split(log);
    var run := Process(c, Begin, l.full);
    if l.tail != [] && c.decode(l.tail).Some? then ProcessLine(c, run, l.tail) else run
  }

  /** The last line can still become a good one. */
  ghost predicate Viable(c: Codec, tail: Bytes) { exists x: Bytes :: c.blank(tail + x) || c.decode(tail + x).Some? }

  ghost predicate GoodSoFar(c: Codec, l: Lines) {
    && GoodLines(c, l.full)
    && (Process(c, Begin, l.full).status == Waiting ==> Viable(c, l.tail))
  }

  lemma {:induction false} NoBreak(z: Bytes)
    requires Split(z).full == []
    ensures Split(z).tail == z
  {
    if z != [] {
      NoBreak(z[1..]);
    }
  }

  lemma GoodPrefix(c: Codec, p: Bytes, r: Bytes)
    requires Laws(c) && GoodLog(c, p + r)
    ensures GoodSoFar(c, Split(p))
  {
    hide Process, Split, AsciiBlank;
    var l, m, all := Split(p), Split(Split(p).tail + r), Split(p + r);
    SplitAppend(p, r);
    assert all.full == l.full + m.full;
    forall i | 0 <= i < |l.full| && Process(c, Begin, l.full[..i]).status == Waiting ensures LineOk(c, l.full[i]) {
      assert all.full[..i] == l.full[..i] && all.full[i] == l.full[i];
    }
    if Process(c, Begin, l.full).status == Waiting {
      TailPlain(p);
      SplitPlain(l.tail, r);
      if m.full == [] {
        NoBreak(l.tail + r);
        assert all.full == l.full;
      } else {
        var n := |l.full|;
        assert all.full[..n] == l.full && all.full[n] == m.full[0] == l.tail + Split(r).full[0];
        assert LineOk(c, all.full[n]);
      }
    }
  }

  /** What the follower has done with the bytes `p` that it has read. */
  ghost predicate Follows(c: Codec, l: Lines, f: Follower) {
    || CaughtUp(c, l, f)
    || exists n :: 0 < n <= |l.tail| && Eager(c, l, f, n)
  }

  /** The last line is still in the buffer. */
  predicate CaughtUp(c: Codec, l: Lines, f: Follower) {
    && f.run == Process(c, Begin, l.full)
    && (f.run.status == Waiting ==> f.buffer == l.tail && (l.tail == [] || c.decode(l.tail).None?))
  }

  /** The first `n` bytes of the last line have been emitted already. */
  predicate Eager(c: Codec, l: Lines, f: Follower, n: nat)
    requires n <= |l.tail|
  {
    && c.decode(l.tail[..n]).Some?
    && f.run == ProcessLine(c, Process(c, Begin, l.full), l.tail[..n])
    && (f.run.status == Waiting ==> f.buffer == l.tail[n..])
  }

  /** A valid object followed by anything that keeps the line good was followed by white space only. */
  lemma RestIsSpace(c: Codec, t: Bytes, s: Bytes)
    requires Laws(c) && c.decode(t).Some? && Viable(c, t + s)
    ensures JsonSpace(s) && c.decode(s).None? && c.decode(t + s) == c.decode(t)
    ensures !AsciiBlank(t) && !AsciiBlank(t + s)
  {
    var x: Bytes :| c.blank(t + s + x) || c.decode(t + s + x).Some?;
    assert t + s + x == t + (s + x);
    assert JsonSpace(s + x);
    assert forall i :: 0 <= i < |s| ==> s[i] == (s + x)[i];
    assert JsonSpace(s);
    assert [] + s == s && c.blank([] + []) && c.decode([]).None? && c.decode([] + s) == c.decode([]);
    assert t + [] == t && t + s + [] == t + s;
  }

  /** The line that `t` was the beginning of, once complete, is the event already emitted. */
  lemma EagerLine(c: Codec, run: Run, t: Bytes, s: Bytes)
    requires Laws(c) && c.decode(t).Some? && (run.status == Waiting ==> LineOk(c, t + s))
    ensures ProcessLine(c, run, t + s) == ProcessLine(c, run, t)
    ensures run.status == Waiting ==> AsciiBlank(s)
  {
    if run.status == Waiting {
      assert t + s + [] == t + s;
      assert Viable(c, t + s);
      RestIsSpace(c, t, s);
    }
  }

  /** The split after one more chunk, seen from the unread part `s` of the last line `t + s`. */
  lemma SplitMore(l: Lines, p: Bytes, t: Bytes, s: Bytes, chunk: Bytes) returns (m: Lines)
    requires l == Split(p) && l.tail == t + s
    ensures m == Split(s + chunk)
    ensures m.full == [] ==> Split(p + chunk) == Lines(l.full, t + m.tail)
    ensures m.full != [] ==> Split(p + chunk) == Lines(l.full + [t + m.full[0]] + m.full[1..], m.tail)
  {
    hide Split;
    m := Split(s + chunk);
    SplitAppend(p, chunk);
    TailPlain(p);
    assert forall b :: b in t ==> b in l.tail;
    assert l.tail + chunk == t + (s + chunk);
    SplitPlain(t, s + chunk);
    if m.full == [] {
      assert l.full + [] == l.full;
    } else {
      assert l.full + ([t + m.full[0]] + m.full[1..]) == l.full + [t + m.full[0]] + m.full[1..];
    }
  }

  lemma StepCaughtUp(c: Codec, p: Bytes, f: Follower, chunk: Bytes)
    requires CaughtUp(c, Split(p), f)
    ensures Follows(c, Split(p + chunk), FollowChunk(c, f, chunk))
  {
    hide Process, Split;
    var l := Split(p);
    assert [] + l.tail == l.tail;
    SplitAppend(p, chunk);
    var all, m := Split(p + chunk), Split(l.tail + chunk);
    ProcessConcat(c, Begin, l.full, m.full);
    var g := FollowChunk(c, f, chunk);
    if f.run.status != Waiting {
      assert all.full[..|l.full|] == l.full;
      StoppedStays(c, Begin, all.full, |l.full|);
      assert CaughtUp(c, all, g);
    } else if m.tail != [] && c.decode(m.tail).Some? {
      assert m.tail[..|m.tail|] == m.tail && m.tail[|m.tail|..] == [];
      assert Eager(c, all, g, |m.tail|);
    } else {
      assert CaughtUp(c, all, g);
    }
  }

  lemma StepEager(c: Codec, p: Bytes, f: Follower, chunk: Bytes, n: nat)
    requires Laws(c) && GoodSoFar(c, Split(p + chunk))
    requires 0 < n <= |Split(p).tail| && Eager(c, Split(p), f, n)
    ensures Follows(c, Split(p + chunk), FollowChunk(c, f, chunk))
  {
    hide Process, Split, Laws, AsciiBlank;
    var l := Split(p);
    var t, s := l.tail[..n], l.tail[n..];
    assert l.tail == t + s;
    var m := SplitMore(l, p, t, s, chunk);
    var all, before := Split(p + chunk), Process(c, Begin, l.full);
    if m.full == [] {
      EagerNoBreak(c, l, f, chunk, n, m);
    } else {
      var line := t + m.full[0];
      assert all.full[..|l.full|] == l.full && all.full[|l.full|] == line;
      EagerLine(c, before, t, m.full[0]);
      ProcessSnoc(c, Begin, l.full, line);
      ProcessConcat(c, Begin, l.full + [line], m.full[1..]);
      assert Process(c, Begin, all.full) == Process(c, f.run, m.full[1..]);
      EagerBreak(c, f, chunk, m, all);
    }
  }

  lemma EagerNoBreak(c: Codec, l: Lines, f: Follower, chunk: Bytes, n: nat, m: Lines)
    requires Laws(c) && 0 < n <= |l.tail| && Eager(c, l, f, n)
    requires m == Split(l.tail[n..] + chunk) && m.full == []
    requires GoodSoFar(c, Lines(l.full, l.tail[..n] + m.tail))
    ensures Follows(c, Lines(l.full, l.tail[..n] + m.tail), FollowChunk(c, f, chunk))
  {
    hide Split, Laws, AsciiBlank;
    var t, all := l.tail[..n], Lines(l.full, l.tail[..n] + m.tail);
    assert all.tail[..n] == t && all.tail[n..] == m.tail;
    if Process(c, Begin, l.full).status == Waiting {
      RestIsSpace(c, t, m.tail);
    }
    assert Eager(c, all, FollowChunk(c, f, chunk), n);
  }

  lemma EagerBreak(c: Codec, f: Follower, chunk: Bytes, m: Lines, all: Lines)
    requires m.full != [] && (f.run.status == Waiting ==> m == Split(f.buffer + chunk) && AsciiBlank(m.full[0]))
    requires all.tail == m.tail && Process(c, Begin, all.full) == Process(c, f.run, m.full[1..])
    ensures Follows(c, all, FollowChunk(c, f, chunk))
  {
    hide Process, Split, AsciiBlank;
    var g := FollowChunk(c, f, chunk);
    if f.run.status != Waiting {
      assert m.full[1..][..0] == [];
      ProcessNone(c, f.run);
      StoppedStays(c, f.run, m.full[1..], 0);
      assert CaughtUp(c, all, g);
    } else {
      assert m.full == [m.full[0]] + m.full[1..];
      ProcessNone(c, f.run);
      ProcessSnoc(c, f.run, [], m.full[0]);
      assert [] + [m.full[0]] == [m.full[0]];
      ProcessConcat(c, f.run, [m.full[0]], m.full[1..]);
      if m.tail != [] && c.decode(m.tail).Some? {
        assert m.tail[..|m.tail|] == m.tail && m.tail[|m.tail|..] == [];
        assert Eager(c, all, g, |m.tail|);
      } else {
        assert CaughtUp(c, all, g);
      }
    }
  }

  lemma ProcessNone(c: Codec, run: Run)
    ensures Process(c, run, []) == run
  {
  }

  lemma {:induction false} FollowsAll(c: Codec, chunks: seq<Bytes>, rest: Bytes)
    requires Laws(c) && GoodLog(c, Flatten(chunks) + rest)
    ensures Follows(c, Split(Flatten(chunks)), FollowChunks(c, Follower([], Begin), chunks))
  {
    hide Process, GoodLog, Laws, FollowChunk, Follows, GoodSoFar;
    if chunks == [] {
      ProcessNone(c, Begin);
      FollowsCaughtUp(c, Split([]), Follower([], Begin));
    } else {
      var n := |chunks| - 1;
      var p, chunk := Flatten(chunks[..n]), chunks[n];
      assert p + (chunk + rest) == Flatten(chunks) + rest;
      FollowsAll(c, chunks[..n], chunk + rest);
      GoodPrefix(c, Flatten(chunks), rest);
      FollowsStep(c, p, FollowChunks(c, Follower([], Begin), chunks[..n]), chunk);
    }
  }

  lemma FollowsCaughtUp(c: Codec, l: Lines, f: Follower)
    requires CaughtUp(c, l, f)
    ensures Follows(c, l, f)
  {
  }

  lemma FollowsStep(c: Codec, p: Bytes, f: Follower, chunk: Bytes)
    requires Laws(c) && GoodSoFar(c, Split(p + chunk)) && Follows(c, Split(p), f)
    ensures Follows(c, Split(p + chunk), FollowChunk(c, f, chunk))
  {
    hide Process, Split, Laws, GoodSoFar, FollowChunk, CaughtUp, Eager;
    if CaughtUp(c, Split(p), f) {
      StepCaughtUp(c, p, f, chunk);
    } else {
      var n :| 0 < n <= |Split(p).tail| && Eager(c, Split(p), f, n);
      StepEager(c, p, f, chunk, n);
    }
  }

  /** However the bytes of a good log are split into reads, the follower emits the same events. */
  lemma ChunkIndependent(c: Codec, chunks: seq<Bytes>)
    requires Laws(c) && GoodLog(c, Flatten(chunks))
    ensures FollowChunks(c, Follower([], Begin), chunks).run == Whole(c, Flatten(chunks))
  {
    hide Process, Split, FollowChunks, Laws, AsciiBlank;
    var log := Flatten(chunks);
    assert log + [] == log;
    FollowsAll(c, chunks, []);
    var l, f := Split(log), FollowChunks(c, Follower([], Begin), chunks);
    if !CaughtUp(c, l, f) {
      var n :| 0 < n <= |l.tail| && Eager(c, l, f, n);
      var t, s := l.tail[..n], l.tail[n..];
      assert l.tail == t + s;
      if Process(c, Begin, l.full).status == Waiting {
        assert l.tail + [] == l.tail && Viable(c, t + s);
        RestIsSpace(c, t, s);
      }
    }
  }
}
