/**
 `forward_bounded_lines`: a framer that passes on the newline-terminated lines of a stream that are
 short enough and pass a check, and drops all others. It reads whatever the reader has buffered, so a
 line may arrive in any number of pieces.
 */
module LineGate {
  import opened Utf8

  const INPUT_FRAME_BYTES: nat := 64 * 1024
  const NEWLINE: byte := 0x0A

  type LineCheck = Bytes -> bool

  /** What happens to a line, in the order of the stream. */
  datatype Event = Written(line: Bytes) | TooLarge | IdTooLarge | Incomplete

  /** The number of bytes up to and including the first newline; all of them when there is none. */
  function LineLength(bytes: Bytes): (n: nat)
    ensures n <= |bytes| && (bytes != [] ==> n > 0)
  {
    if bytes == [] then 0
    else if bytes[0] == NEWLINE then 1
    else 1 + LineLength(bytes[1..])
  }

  predicate EndsLine(bytes: Bytes) {
    NEWLINE in bytes
  }

  /** The fate of one complete line, newline included. */
  function Fate(line: Bytes, check: LineCheck): Event {
    if |line| > INPUT_FRAME_BYTES then TooLarge
    else if !check(line) then IdTooLarge
    else Written(line)
  }

  /** The specification, on the stream as a whole: every terminated line meets its fate, and what is
      left over is reported and never written. */
  function Lines(stream: Bytes, check: LineCheck): seq<Event>
    decreases |stream|
  {
    if stream == [] then []
    else if !EndsLine(stream) then [Incomplete]
    else [Fate(stream[..LineLength(stream)], check)] + Lines(stream[LineLength(stream)..], check)
  }

  function Concat(buffers: seq<Bytes>): Bytes {
    if buffers == [] then [] else buffers[0] + Concat(buffers[1..])
  }

  /** The bytes the gate has written. */
  function Output(events: seq<Event>): Bytes {
    if events == [] then []
    else (if events[0].Written? then events[0].line else []) + Output(events[1..])
  }

  /** The piece of a line the gate holds while `begun` is what has arrived of it. */
  predicate Holds(line: Bytes, discarding: bool, begun: Bytes) {
    if discarding then line == [] && |begun| > INPUT_FRAME_BYTES
    else line == begun && |begun| <= INPUT_FRAME_BYTES
  }

  lemma {:induction false} LineLengthFacts(bytes: Bytes)
    ensures EndsLine(bytes) ==> LineLength(bytes) > 0 && bytes[LineLength(bytes) - 1] == NEWLINE
    ensures !EndsLine(bytes) ==> LineLength(bytes) == |bytes|
    ensures forall k :: 0 <= k < LineLength(bytes) - 1 ==> bytes[k] != NEWLINE
    decreases |bytes|
  {
    if bytes != [] && bytes[0] != NEWLINE {
      LineLengthFacts(bytes[1..]);
      assert bytes == [bytes[0]] + bytes[1..];
    }
  }

  /** The first line of a stream that starts with an unfinished line. */
  lemma {:induction false} LineAfter(begun: Bytes, rest: Bytes)
    requires !EndsLine(begun)
    ensures LineLength(begun + rest) == |begun| + LineLength(rest)
    ensures EndsLine(begun + rest) <==> EndsLine(rest)
    decreases |begun|
  {
    if begun == [] {
      assert begun + rest == rest;
    } else {
      assert (begun + rest)[0] == begun[0] && (begun + rest)[1..] == begun[1..] + rest;
      assert begun == [begun[0]] + begun[1..];
      LineAfter(begun[1..], rest);
    }
  }

  lemma LinesOfPiece(begun: Bytes, piece: Bytes, rest: Bytes, check: LineCheck)
    requires !EndsLine(begun) && EndsLine(piece) && LineLength(piece) == |piece|
    ensures Lines(begun + piece + rest, check)
         == [Fate(begun + piece, check)] + Lines(rest, check)
  {
    var stream := begun + piece + rest;
    assert stream == begun + (piece + rest);
    LineLengthFacts(piece);
    LineAfter(begun, piece + rest);
    PieceThenRest(piece, rest);
    assert stream[..|begun| + |piece|] == begun + piece;
    assert stream[|begun| + |piece|..] == rest;
  }

  lemma {:induction false} PieceThenRest(piece: Bytes, rest: Bytes)
    requires EndsLine(piece) && LineLength(piece) == |piece|
    ensures LineLength(piece + rest) == |piece| && EndsLine(piece + rest)
    decreases |piece|
  {
    assert (piece + rest)[0] == piece[0] && (piece + rest)[1..] == piece[1..] + rest;
    if piece[0] != NEWLINE {
      assert piece == [piece[0]] + piece[1..];
      PieceThenRest(piece[1..], rest);
    }
  }

  /** The pieces in which the gate takes the buffers: each up to a newline, or to the end of the
      buffer. */
  function PiecesFrom(available: Bytes, buffers: seq<Bytes>): seq<Bytes>
    decreases |buffers|, |available|
  {
    if available != [] then
      [available[..LineLength(available)]]
      + PiecesFrom(available[LineLength(available)..], buffers)
    else if buffers == [] then []
    else PiecesFrom(buffers[0], buffers[1..])
  }

  /** The pieces are the stream. */
  lemma {:induction false} PiecesAreStream(available: Bytes, buffers: seq<Bytes>)
    ensures Concat(PiecesFrom(available, buffers)) == available + Concat(buffers)
    decreases |buffers|, |available|
  {
    if available != [] {
      var rest := PiecesFrom(available[LineLength(available)..], buffers);
      PiecesAreStream(available[LineLength(available)..], buffers);
      assert ([available[..LineLength(available)]] + rest)[1..] == rest;
    } else if buffers != [] {
      PiecesAreStream(buffers[0], buffers[1..]);
    }
  }

  /** The length of the line that is held right after each piece has been taken, with `begun` bytes of
      the first line before: all that has arrived of the line, or nothing when that is too long. */
  function HeldLengths(begun: nat, pieces: seq<Bytes>): seq<nat>
    decreases |pieces|
  {
    if pieces == [] then []
    else
      var total := begun + |pieces[0]|;
      [if total > INPUT_FRAME_BYTES then 0 else total]
      + HeldLengths(if EndsLine(pieces[0]) then 0 else total, pieces[1..])
  }

  /** It is never more than a frame, however the stream is divided. */
  lemma {:induction false} HeldIsBounded(begun: nat, pieces: seq<Bytes>)
    ensures |HeldLengths(begun, pieces)| == |pieces|
    ensures forall k :: 0 <= k < |pieces| ==> HeldLengths(begun, pieces)[k] <= INPUT_FRAME_BYTES
    decreases |pieces|
  {
    if pieces != [] {
      HeldIsBounded(if EndsLine(pieces[0]) then 0 else begun + |pieces[0]|, pieces[1..]);
    }
  }

  lemma HeldTurn(begun: nat, available: Bytes, buffers: seq<Bytes>)
    requires available != []
    ensures var piece := available[..LineLength(available)];
            var total := begun + |piece|;
            HeldLengths(begun, PiecesFrom(available, buffers))
            == [if total > INPUT_FRAME_BYTES then 0 else total]
               + HeldLengths(if EndsLine(piece) then 0 else total,
                             PiecesFrom(available[LineLength(available)..], buffers))
  {
    var rest := PiecesFrom(available[LineLength(available)..], buffers);
    assert ([available[..LineLength(available)]] + rest)[1..] == rest;
  }

  lemma NextBuffer(buffers: seq<Bytes>, next: nat)
    requires next < |buffers|
    ensures PiecesFrom([], buffers[next..]) == PiecesFrom(buffers[next], buffers[next + 1..])
    ensures Concat(buffers[next..]) == buffers[next] + Concat(buffers[next + 1..])
  {
    assert buffers[next..][1..] == buffers[next + 1..];
  }

  /** The gate reads the buffers in order, each as often as it contains lines. `held` records, for each
      piece, the length of the line that is held once the piece has been taken. */
  method ForwardBoundedLines(buffers: seq<Bytes>, check: LineCheck)
    returns (events: seq<Event>, held: seq<nat>)
    requires forall k :: 0 <= k < |buffers| ==> buffers[k] != []
    ensures events == Lines(Concat(buffers), check)
    ensures held == HeldLengths(0, PiecesFrom([], buffers))
  {
    hide Lines, EndsLine, LineLength, HeldLengths, PiecesFrom, Concat;
    events, held := [], [];
    var line: Bytes, discarding := [], false;
    var next, available: Bytes := 0, [];
    ghost var begun: Bytes, goal := [], Lines(Concat(buffers), check);
    ghost var heldGoal := HeldLengths(0, PiecesFrom([], buffers));
    assert buffers[0..] == buffers;
    NothingBegun(Concat(buffers));
    while true
      invariant next <= |buffers| && Holds(line, discarding, begun) && !EndsLine(begun)
      invariant goal == events + Lines(begun + (available + Concat(buffers[next..])), check)
      invariant heldGoal
             == held + HeldLengths(|begun|, PiecesFrom(available, buffers[next..]))
      decreases |buffers| - next, |available|
    {
      // The reader refills its buffer only when everything in it has been consumed.
      if available == [] && next < |buffers| {
        NextBuffer(buffers, next);
        NothingBegun(Concat(buffers[next..]));
        available, next := buffers[next], next + 1;
      }
      if available == [] {
        assert buffers[next..] == [];
        AtTheEnd(begun, check);
        if discarding || line != [] {
          events := events + [Incomplete];
        }
        return;
      }
      var consumed, endedLine := LineLength(available), EndsLine(available);
      LineLengthFacts(available);
      SplitPiece(available, consumed, Concat(buffers[next..]));
      HeldTurn(|begun|, available, buffers[next..]);
      ghost var laterHeld := HeldLengths(if endedLine then 0 else |begun| + consumed,
                                         PiecesFrom(available[consumed..], buffers[next..]));
      var piece := available[..consumed];
      if !discarding {
        if |line| + consumed > INPUT_FRAME_BYTES {
          line, discarding := [], true;
        } else {
          line := line + piece;
        }
      }
      Regroup(held, [|line|], laterHeld);
      held := held + [|line|];
      available := available[consumed..];
      ghost var after := available + Concat(buffers[next..]);
      Regroup(begun, piece, after);
      if endedLine {
        LinesOfPiece(begun, piece, after, check);
        Regroup(events, [Fate(begun + piece, check)], Lines(after, check));
        if discarding {
          events := events + [TooLarge];
        } else if !check(line) {
          events := events + [IdTooLarge];
        } else {
          events := events + [Written(line)];
        }
        line, discarding := [], false;
        begun := [];
        NothingBegun(Concat(buffers[next..]));
        NothingBegun(after);
      } else {
        UnfinishedPiece(begun, piece);
        begun := begun + piece;
      }
    }
  }

  lemma AtTheEnd(begun: Bytes, check: LineCheck)
    requires !EndsLine(begun)
    ensures Lines(begun + ([] + Concat([])), check) == if begun == [] then [] else [Incomplete]
    ensures HeldLengths(|begun|, PiecesFrom([], [])) == []
  {
    assert begun + ([] + []) == begun;
    LastPiece(begun, check);
  }

  lemma Regroup<T>(a: seq<T>, b: seq<T>, c: seq<T>)
    ensures a + (b + c) == a + b + c
  {
  }

  lemma NothingBegun(rest: Bytes)
    ensures !EndsLine([]) && [] + rest == rest && [] + ([] + rest) == rest
    ensures Holds([], false, [])
  {
  }

  lemma LastPiece(begun: Bytes, check: LineCheck)
    requires !EndsLine(begun)
    ensures Lines(begun, check) == if begun == [] then [] else [Incomplete]
  {
  }

  /** A piece taken off the buffer is a line end or has none. */
  lemma SplitPiece(available: Bytes, consumed: nat, rest: Bytes)
    requires available != [] && consumed == LineLength(available)
    ensures consumed <= |available|
    ensures var piece := available[..consumed];
            && available + rest == piece + (available[consumed..] + rest)
            && (EndsLine(available) ==> EndsLine(piece) && LineLength(piece) == |piece|)
            && (!EndsLine(available) ==> !EndsLine(piece))
  {
    var piece := available[..consumed];
    LineLengthFacts(available);
    LineLengthFacts(piece);
    assert available == piece + available[consumed..];
    if EndsLine(available) {
      assert piece[consumed - 1] == NEWLINE;
    }
  }

  lemma UnfinishedPiece(begun: Bytes, piece: Bytes)
    requires !EndsLine(begun) && !EndsLine(piece)
    ensures !EndsLine(begun + piece)
  {
  }

  /** The terminated lines of a stream that are short enough and pass the check, joined together. */
  function AcceptedLines(stream: Bytes, check: LineCheck): Bytes
    decreases |stream|
  {
    if !EndsLine(stream) || stream == [] then []
    else
      var line := stream[..LineLength(stream)];
      (if |line| <= INPUT_FRAME_BYTES && check(line) then line else [])
      + AcceptedLines(stream[LineLength(stream)..], check)
  }

  /** Exactly those lines are written; an unterminated tail never is. */
  lemma {:induction false} WritesAcceptedLines(stream: Bytes, check: LineCheck)
    ensures Output(Lines(stream, check)) == AcceptedLines(stream, check)
    decreases |stream|
  {
    if stream != [] && EndsLine(stream) {
      var rest := Lines(stream[LineLength(stream)..], check);
      var fate := Fate(stream[..LineLength(stream)], check);
      WritesAcceptedLines(stream[LineLength(stream)..], check);
      assert ([fate] + rest)[1..] == rest;
    } else {
      assert [Incomplete][1..] == [];
    }
  }

  /** A complete line: a newline at its end, and nowhere else. */
  predicate IsLine(line: Bytes) {
    line != [] && line[|line| - 1] == 0x0A && forall k :: 0 <= k < |line| - 1 ==> line[k] != 0x0A
  }

  /** Complete lines and an unfinished one. */
  predicate AreLines(lines: seq<Bytes>, tail: Bytes) {
    (forall k :: 0 <= k < |lines| ==> IsLine(lines[k])) && 0x0A !in tail
  }

  /** What is to happen to a complete line. */
  predicate IsFate(event: Event, line: Bytes, check: LineCheck) {
    && (event == TooLarge <==> |line| > 65_536)
    && (event == IdTooLarge <==> |line| <= 65_536 && !check(line))
    && (event == Written(line) <==> |line| <= 65_536 && check(line))
  }

  lemma LineOnItsOwn(line: Bytes)
    requires IsLine(line)
    ensures EndsLine(line) && LineLength(line) == |line|
  {
    LineLengthFacts(line);
    assert line[|line| - 1] == NEWLINE;
  }

  /** Whatever lines a stream is made of, each meets its own fate, in order; an unfinished line at the end
      is reported, and an empty one is none. */
  lemma {:induction false} LinesMeetTheirFates(lines: seq<Bytes>, tail: Bytes, check: LineCheck)
    requires AreLines(lines, tail)
    ensures var events := Lines(Concat(lines) + tail, check);
            && |events| == |lines| + (if tail == [] then 0 else 1)
            && (forall k :: 0 <= k < |lines| ==> IsFate(events[k], lines[k], check))
            && (tail != [] ==> events[|lines|] == Incomplete)
    decreases |lines|
  {
    hide Lines, EndsLine, LineLength, IsFate, IsLine, Fate;
    if lines == [] {
      assert [] + tail == tail;
      OnlyTail(tail, check);
    } else {
      var line, rest := lines[0], Concat(lines[1..]) + tail;
      LinesMeetTheirFates(lines[1..], tail, check);
      FirstLine(line, rest, check);
      FateIs(line, check);
      assert Concat(lines) + tail == line + rest;
      hide Concat;
      var events, more := Lines(line + rest, check), Lines(rest, check);
      forall k | 0 <= k < |lines| ensures IsFate(events[k], lines[k], check) {
        assert k > 0 ==> events[k] == more[k - 1] && lines[k] == lines[1..][k - 1];
      }
    }
  }

  lemma FirstLine(line: Bytes, rest: Bytes, check: LineCheck)
    requires IsLine(line)
    ensures Lines(line + rest, check) == [Fate(line, check)] + Lines(rest, check)
  {
    LineOnItsOwn(line);
    NothingIsBegun();
    hide Lines, EndsLine, LineLength, Fate, IsLine;
    LinesOfPiece([], line, rest, check);
    assert [] + line == line;
  }

  lemma FateIs(line: Bytes, check: LineCheck)
    ensures IsFate(Fate(line, check), line, check)
  {
  }

  lemma OnlyTail(tail: Bytes, check: LineCheck)
    requires 0x0A !in tail
    ensures Lines(tail, check) == if tail == [] then [] else [Incomplete]
  {
  }

  lemma NothingIsBegun()
    ensures !EndsLine([])
  {
  }

  /** And every stream is made of lines. */
  lemma {:induction false} StreamIsLines(stream: Bytes) returns (lines: seq<Bytes>, tail: Bytes)
    ensures AreLines(lines, tail) && stream == Concat(lines) + tail
    decreases |stream|
  {
    if stream == [] || !EndsLine(stream) {
      lines, tail := [], stream;
      assert [] + stream == stream;
    } else {
      var n := LineLength(stream);
      LineLengthFacts(stream);
      var more, end := StreamIsLines(stream[n..]);
      lines, tail := [stream[..n]] + more, end;
      assert lines[1..] == more;
      assert stream == stream[..n] + (Concat(more) + tail);
      assert IsLine(stream[..n]);
    }
  }
}
