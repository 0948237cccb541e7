/** The control connection's line framer (process_control_events in ftp.c): a fixed buffer that is filled by reads of
    any size and gives up CRLF-terminated lines. */
module Framing {
  import opened CStrings

  const FTP_BUFFER_SIZE: nat := 1024
  /** The most bytes the buffer holds beside its NUL. */
  const CAPACITY: nat := 1023

  const CRLF: string := "\r\n"

  ghost predicate CrlfAt(s: string, i: int) {
    0 <= i && i + 1 < |s| && s[i] == '\r' && s[i + 1] == '\n'
  }

  /** Where the first CRLF of `s` starts, or |s|. */
  function FirstCrlf(s: string): (k: nat)
    ensures k <= |s| && (k < |s| ==> CrlfAt(s, k))
    ensures forall i | 0 <= i < k :: !CrlfAt(s, i)
  {
    if |s| < 2 then |s|
    else if s[0] == '\r' && s[1] == '\n' then 0
    else
      var k := FirstCrlf(s[1..]);
      assert forall i | 1 <= i :: CrlfAt(s, i) <==> CrlfAt(s[1..], i - 1);
      1 + k
  }

  /** A line that the framer lets through: no line feed, and short enough to fit the buffer with its CRLF. */
  predicate Clean(line: string) {
    (forall i | 0 <= i < |line| :: line[i] != '\n') && |line| + 2 <= CAPACITY
  }

  predicate AllClean(lines: seq<string>) {
    forall i | 0 <= i < |lines| :: Clean(lines[i])
  }

  /** Lines as they are on the wire. */
  function Wire(lines: seq<string>): string {
    if lines == [] then "" else Wire(lines[..|lines| - 1]) + lines[|lines| - 1] + CRLF
  }

  lemma WireOne(lines: seq<string>, line: string)
    ensures Wire(lines + [line]) == Wire(lines) + line + CRLF
  {
    assert (lines + [line])[..|lines|] == lines;
  }

  // ---- Reference: what a byte stream means, however it arrives

  /** How the framer's work on a stream ends: waiting with some bytes of an unfinished line, or closing. */
  datatype End = Open(rest: string) | BadLine | TooLong | Refused

  datatype Framed = Framed(lines: seq<string>, end: End)

  /** The lines of stream `s` after `done`. `ok` says whether the handlers accept the last of some lines; empty lines
      go to no handler. */
  function Frame(s: string, ok: seq<string> -> bool, done: seq<string>): (r: Framed)
    ensures r.end.Open? ==> |r.end.rest| < CAPACITY && FirstCrlf(r.end.rest) == |r.end.rest|
    decreases |s|
  {
    var k := FirstCrlf(s);
    if k == |s| then Framed(done, if |s| >= CAPACITY then TooLong else Open(s))
    else if k + 2 > CAPACITY then Framed(done, TooLong)
    else if !Clean(s[..k]) then Framed(done, BadLine)
    else
      var done' := done + [s[..k]];
      if s[..k] != "" && !ok(done') then Framed(done', Refused) else Frame(s[k + 2..], ok, done')
  }

  lemma FirstCrlfOfLine(line: string, rest: string)
    requires Clean(line)
    ensures FirstCrlf(line + CRLF + rest) == |line|
    ensures (line + CRLF + rest)[|line| + 2..] == rest
  {
    var s := line + CRLF + rest;
    assert CrlfAt(s, |line|);
    assert forall i | 0 < i <= |line| :: s[i] != '\n';
  }

  /** What becomes of the first line of a stream, outright: a line too long for the buffer and one with a line feed in it
      close the connection; any other is consumed, and the reading goes on behind it, unless it is a command that its
      handler refuses. */
  lemma FrameMeans(text: string, rest: string, ok: seq<string> -> bool, done: seq<string>)
    requires forall i | 0 <= i < |text| :: !CrlfAt(text + CRLF + rest, i)
    ensures var f := Frame(text + CRLF + rest, ok, done);
      && (|text| > 1021 ==> f == Framed(done, TooLong))
      && (|text| <= 1021 && '\n' in text ==> f == Framed(done, BadLine))
      && (|text| <= 1021 && '\n' !in text && text != "" && !ok(done + [text]) ==> f == Framed(done + [text], Refused))
      && (|text| <= 1021 && '\n' !in text && (text == "" || ok(done + [text])) ==> f == Frame(rest, ok, done + [text]))
  {
    var s := text + CRLF + rest;
    assert CrlfAt(s, |text|) && s[..|text|] == text && s[|text| + 2..] == rest;
  }

  /** And of a stream without a complete line: it is waited for, unless it fills the buffer. */
  lemma FrameWaits(s: string, ok: seq<string> -> bool, done: seq<string>)
    requires forall i | 0 <= i < |s| :: !CrlfAt(s, i)
    ensures Frame(s, ok, done) == Framed(done, if |s| < 1023 then Open(s) else TooLong)
  {
    assert FirstCrlf(s) == |s|;
  }

  /** All the commands among `lines` were accepted. */
  ghost predicate Accepted(lines: seq<string>, ok: seq<string> -> bool) {
    forall i | 0 < i <= |lines| && lines[i - 1] != "" :: ok(lines[..i])
  }

  /** Reading the consumed lines off the front of a stream. */
  lemma {:induction false} FrameConsumed(lines: seq<string>, rest: string, ok: seq<string> -> bool, n: nat)
    requires AllClean(lines) && Accepted(lines, ok) && n <= |lines|
    ensures Frame(Wire(lines[..n]) + rest, ok, []) == Frame(rest, ok, lines[..n])
    decreases n
  {
    if n == 0 {
      assert Wire(lines[..0]) + rest == rest;
    } else {
      var line := lines[n - 1];
      assert lines[..n] == lines[..n - 1] + [line];
      WireOne(lines[..n - 1], line);
      assert Wire(lines[..n]) + rest == Wire(lines[..n - 1]) + (line + CRLF + rest);
      FrameConsumed(lines, line + CRLF + rest, ok, n - 1);
      FirstCrlfOfLine(line, rest);
      assert (line + CRLF + rest)[..|line|] == line;
    }
  }

  lemma FirstCrlfExtends(s: string, t: string)
    requires FirstCrlf(s) < |s|
    ensures FirstCrlf(s + t) == FirstCrlf(s)
  {
    var k := FirstCrlf(s);
    assert CrlfAt(s + t, k);
    assert forall i | 0 <= i < k :: CrlfAt(s + t, i) <==> CrlfAt(s, i);
  }

  lemma FirstCrlfBeyond(s: string, t: string)
    requires FirstCrlf(s) == |s| && |s| > 0
    ensures FirstCrlf(s + t) >= |s| - 1
  {
    assert forall i | 0 <= i < |s| - 1 :: CrlfAt(s + t, i) <==> CrlfAt(s, i);
  }

  /** Once closed, later bytes change nothing. */
  lemma {:induction false} FrameSettled(s: string, t: string, ok: seq<string> -> bool, done: seq<string>)
    requires !Frame(s, ok, done).end.Open?
    ensures Frame(s + t, ok, done) == Frame(s, ok, done)
    decreases |s|
  {
    var k := FirstCrlf(s);
    if k == |s| {
      FirstCrlfBeyond(s, t);
    } else {
      FirstCrlfExtends(s, t);
      assert (s + t)[..k] == s[..k];
      assert (s + t)[k + 2..] == s[k + 2..] + t;
      if k + 2 <= CAPACITY && Clean(s[..k]) && !(s[..k] != "" && !ok(done + [s[..k]])) {
        FrameSettled(s[k + 2..], t, ok, done + [s[..k]]);
      }
    }
  }

  /** What a run of the framer knows about its stream when it stops: the bytes received are the consumed lines with
      their CRLFs, in order, and then `rest`; and `rest` justifies the way it stopped. */
  ghost predicate Explains(received: string, lines: seq<string>, rest: string, end: End) {
    && received == Wire(lines) + rest && AllClean(lines)
    && match end
       case Open(left) => left == rest && |rest| < CAPACITY && FirstCrlf(rest) == |rest|
       case BadLine => var k := FirstCrlf(rest); k < |rest| && k + 2 <= CAPACITY && !Clean(rest[..k])
       case TooLong => |rest| >= CAPACITY && FirstCrlf(rest[..CAPACITY]) == CAPACITY
       case Refused => lines != [] && lines[|lines| - 1] != ""
  }

  lemma TooLongStays(rest: string)
    requires |rest| >= CAPACITY && FirstCrlf(rest[..CAPACITY]) == CAPACITY
    ensures FirstCrlf(rest) == |rest| || FirstCrlf(rest) + 2 > CAPACITY
  {
    FirstCrlfBeyond(rest[..CAPACITY], rest[CAPACITY..]);
    assert rest[..CAPACITY] + rest[CAPACITY..] == rest;
  }

  /** How the handlers answered in a run: every command was accepted, except the last one of a refused run. */
  ghost predicate Answered(lines: seq<string>, end: End, ok: seq<string> -> bool) {
    if end.Refused? then lines != [] && Accepted(lines[..|lines| - 1], ok) && !ok(lines)
    else Accepted(lines, ok)
  }

  /** A run's consumed lines and its ending are the reference reading of the bytes it received. */
  lemma RunIsFrame(received: string, lines: seq<string>, rest: string, end: End, ok: seq<string> -> bool)
    requires Explains(received, lines, rest, end) && Answered(lines, end, ok)
    ensures Frame(received, ok, []) == Framed(lines, end)
  {
    if end.Refused? {
      var n := |lines| - 1;
      var line := lines[n];
      assert lines == lines[..n] + [line];
      WireOne(lines[..n], line);
      assert received == Wire(lines[..n]) + (line + CRLF + rest);
      assert AllClean(lines[..n]) && lines[..n][..n] == lines[..n];
      FrameConsumed(lines[..n], line + CRLF + rest, ok, n);
      assert Clean(line);
      FirstCrlfOfLine(line, rest);
      assert (line + CRLF + rest)[..|line|] == line;
    } else {
      assert lines[..|lines|] == lines;
      FrameConsumed(lines, rest, ok, |lines|);
      if end.TooLong? {
        TooLongStays(rest);
      }
    }
  }

  /** Chunking is irrelevant: two runs over the same stream, cut up in any two ways, whose handlers answer alike,
      consume the same lines and end the same way. A closed run may have stopped before the stream's end. */
  lemma ChunkingIrrelevant(stream: string, ok: seq<string> -> bool,
                           r1: string, lines1: seq<string>, rest1: string, end1: End,
                           r2: string, lines2: seq<string>, rest2: string, end2: End)
    requires r1 <= stream && Explains(r1, lines1, rest1, end1) && Answered(lines1, end1, ok)
    requires r2 <= stream && Explains(r2, lines2, rest2, end2) && Answered(lines2, end2, ok)
    requires (end1.Open? ==> r1 == stream) && (end2.Open? ==> r2 == stream)
    ensures lines1 == lines2 && end1 == end2
  {
    SettledPrefix(stream, ok, r1, lines1, rest1, end1);
    SettledPrefix(stream, ok, r2, lines2, rest2, end2);
  }

  /** Any run's answers come from some handlers. */
  lemma SomeHandlers(lines: seq<string>, end: End) returns (ok: seq<string> -> bool)
    requires end.Refused? ==> lines != []
    ensures Answered(lines, end, ok)
  {
    ok := (done: seq<string>) => !(end.Refused? && done == lines);
  }

  lemma SettledPrefix(stream: string, ok: seq<string> -> bool, r: string, lines: seq<string>, rest: string, end: End)
    requires r <= stream && Explains(r, lines, rest, end) && Answered(lines, end, ok)
    requires end.Open? ==> r == stream
    ensures Frame(stream, ok, []) == Framed(lines, end)
  {
    RunIsFrame(r, lines, rest, end, ok);
    if !end.Open? {
      assert stream == r + stream[|r|..];
      FrameSettled(r, stream[|r|..], ok, []);
    }
  }

  lemma Assoc(a: string, b: string, c: string)
    ensures a + b + c == a + (b + c)
  {
  }

  lemma LineOff(pending: string, k: nat)
    requires CrlfAt(pending, k)
    ensures pending == pending[..k] + CRLF + pending[k + 2..]
  {
  }

  lemma Reassociate(a: string, b: string, c: string, d: string)
    ensures a + (b + c + d) == a + b + c + d
  {
  }

  /** Cutting the first line off the unconsumed bytes. */
  lemma TakeFacts(received: string, consumed: seq<string>, pending: string, k: nat)
    requires received == Wire(consumed) + pending && AllClean(consumed) && |pending| <= CAPACITY
    requires k == FirstCrlf(pending) < |pending|
    ensures '\n' in pending[..k] ==> Explains(received, consumed, pending, BadLine)
    ensures '\n' !in pending[..k] ==> AllClean(consumed + [pending[..k]])
    ensures received == Wire(consumed + [pending[..k]]) + pending[k + 2..]
  {
    LineOff(pending, k);
    WireOne(consumed, pending[..k]);
    Reassociate(Wire(consumed), pending[..k], CRLF, pending[k + 2..]);
  }

  lemma NoNulInParts(pending: string, k: nat)
    requires NUL !in pending && k + 2 <= |pending|
    ensures NUL !in pending[..k] && NUL !in pending[k + 2..]
  {
  }

  // ---- The buffer

  datatype Taken = NoLine | Bad | Line(text: string, next: nat)

  class LineBuffer {
    const buf: array<char>
    var offset: nat
    /** All bytes ever received, and the lines consumed from them, empty ones included. */
    ghost var received: string
    ghost var consumed: seq<string>
    /** Whether complete lines may be waiting, because the last scan stopped early. */
    ghost var paused: bool

    /** From `next` on, the buffer holds the unconsumed bytes: nothing was lost, doubled or moved. */
    ghost predicate Intact(next: nat)
      requires next <= offset <= buf.Length
      reads this, buf
    {
      && NUL !in buf[next..offset] && AllClean(consumed)
      && received == Wire(consumed) + buf[next..offset]
    }

    /** Between events: the buffer is intact, has room for more, and holds no complete line unless it is paused. What is
        said about the bytes stands behind one case, here and below. */
    ghost predicate Valid()
      reads this, buf
    {
      && buf.Length == FTP_BUFFER_SIZE && offset < CAPACITY
      && forall n: nat | n == 0 :: Intact(n) && (paused || NoLineFrom(n))
    }

    /** In the middle of a scan: there is a NUL behind the unconsumed bytes. */
    ghost predicate Scanning(next: nat)
      reads this, buf
    {
      buf.Length == FTP_BUFFER_SIZE && next <= offset <= CAPACITY && forall n: nat | n == next :: Intact(n) && buf[offset] == NUL
    }

    /** No complete line is waiting from `next` on. */
    ghost predicate NoneLeft(next: nat)
      reads this, buf
    {
      next <= offset <= buf.Length && forall n: nat | n == next :: NoLineFrom(n)
    }

    ghost predicate NoLineFrom(next: nat)
      requires next <= offset <= buf.Length
      reads this, buf
    {
      FirstCrlf(buf[next..offset]) == offset - next
    }

    /** The framer stopped with `rest` unconsumed, and rightly so. */
    ghost predicate Stopped(rest: string, end: End)
      reads this
    {
      forall e | e == end :: Explains(received, consumed, rest, e)
    }

    constructor ()
      ensures Valid() && !paused && fresh(buf) && offset == 0 && received == "" && consumed == []
    {
      buf := new char[FTP_BUFFER_SIZE];
      offset, received, consumed, paused := 0, "", [], false;
    }

    /** Waiting with no complete line left is what the reference calls open. */
    lemma IsOpen()
      requires Valid() && !paused
      ensures Stopped(buf[..offset], Open(buf[..offset]))
    {
      assert Intact(0) && NoLineFrom(0) && buf[0..offset] == buf[..offset];
    }

    lemma IsTooLong()
      requires Scanning(0) && NoneLeft(0) && offset == CAPACITY
      ensures Stopped(buf[..offset], TooLong)
    {
      assert Intact(0) && NoLineFrom(0) && buf[0..offset] == buf[..offset];
      assert buf[..offset][..CAPACITY] == buf[..offset];
    }

    lemma IsRefused(next: nat)
      requires Scanning(next) && consumed != [] && consumed[|consumed| - 1] != ""
      ensures Stopped(buf[next..offset], Refused)
    {
      assert Intact(next);
    }

    lemma IsSpelt(next: nat)
      requires Scanning(next)
      ensures HoldsAt(buf, next, buf[next..offset])
    {
      assert Intact(next);
    }

    /** Bytes read into the buffer behind what it holds; false when there is a NUL among them. */
    method Receive(data: string) returns (noNul: bool)
      requires Valid() && 0 < |data| <= CAPACITY - offset
      modifies `offset, `received, buf
      ensures noNul <==> NUL !in data
      ensures noNul ==> Scanning(0)
      ensures received == old(received) + data
      ensures offset == old(offset) + |data| && buf[..offset] == old(buf[..offset]) + data
    {
      var start := offset;
      assert Intact(0) && buf[0..offset] == buf[..offset];
      forall i | 0 <= i < |data| {
        buf[start + i] := data[i];
      }
      offset := offset + |data|;
      buf[offset] := NUL;
      received := received + data;
      ghost var held := old(buf[..offset]);
      assert buf[..start] == held && buf[start..offset] == data;
      assert buf[..offset] == held + data;
      noNul := NoNulFrom(start, data);
      if noNul {
        ReceivedIntact(old(received), held, data);
      }
    }

    /** strchr(offset_buf, '\0') == buf + offset */
    method NoNulFrom(start: nat, ghost data: string) returns (noNul: bool)
      requires start <= offset < buf.Length && buf[offset] == NUL && buf[start..offset] == data
      ensures noNul <==> NUL !in data
    {
      var i := start;
      while buf[i] != NUL
        invariant start <= i <= offset && forall j | 0 <= j < i - start :: data[j] != NUL
        decreases offset - i
      {
        assert buf[i] == data[i - start];
        i := i + 1;
      }
      assert i < offset ==> data[i - start] == buf[i];
      noNul := i == offset;
    }

    /** The bytes held before and those received after them, once they are in the buffer. */
    lemma ReceivedIntact(before: string, held: string, data: string)
      requires before == Wire(consumed) + held && received == before + data && AllClean(consumed)
      requires offset <= buf.Length && buf[..offset] == held + data && NUL !in held && NUL !in data
      ensures Intact(0)
    {
      assert buf[0..offset] == held + data;
      Assoc(Wire(consumed), held, data);
    }

    /** strstr(buf + next, CRLF), as an offset from `next`; -1 when there is none. */
    method FindCrlf(next: nat, ghost text: string) returns (k: int)
      requires HoldsAt(buf, next, text)
      ensures k == if FirstCrlf(text) == |text| then -1 else FirstCrlf(text)
    {
      k := 0;
      while buf[next + k] != NUL
        invariant 0 <= k <= |text| && forall i | 0 <= i < k :: !CrlfAt(text, i)
        decreases |text| - k
      {
        assert k < |text| && text[k] == buf[next + k];
        if buf[next + k] == '\r' && buf[next + k + 1] == '\n' {
          assert CrlfAt(text, k) by {
            assert k + 1 < |text| && text[k + 1] == buf[next + k + 1];
          }
          return;
        }
        assert !CrlfAt(text, k);
        k := k + 1;
      }
      k := -1;
    }

    /** Put a NUL over the CRLF that ends the first of the unconsumed lines, and look for a bare line feed in it. */
    method CutLine(next: nat, k: nat, ghost text: string, ghost rest: string) returns (bare: bool)
      requires HoldsAt(buf, next, text + CRLF + rest) && k == |text|
      modifies buf
      ensures bare <==> '\n' in text
      ensures buf[next..next + k] == text && HoldsAt(buf, next + k + 2, rest)
    {
      ghost var pending := text + CRLF + rest;
      assert buf[next..next + |pending|] == pending;
      buf[next + k] := NUL;
      assert buf[next..next + k] == pending[..k] == text;
      assert buf[next + k + 2..next + |pending|] == pending[k + 2..] == rest;
      assert forall i | 0 <= i < |text| :: text[i] == pending[i];
      assert forall i | 0 <= i < |rest| :: rest[i] == pending[k + 2 + i];
      bare := Contains(buf, next, '\n', text);
    }

    /** One turn of the scan: the next complete line, if it may be let through. */
    method NextLine(next: nat) returns (t: Taken)
      requires Scanning(next)
      modifies `consumed, buf
      ensures t.NoLine? ==> Scanning(next) && consumed == old(consumed) && NoneLeft(next)
                            && buf[next..offset] == old(buf[next..offset])
      ensures t.Bad? ==> consumed == old(consumed) && Stopped(old(buf[next..offset]), BadLine)
      ensures t.Line? ==> Scanning(t.next) && Clean(t.text) && NUL !in t.text && t.next == next + |t.text| + 2
                          && consumed == old(consumed) + [t.text]
                          && old(buf[next..offset]) == t.text + CRLF + buf[t.next..offset]
    {
      ghost var pending := buf[next..offset];
      IsSpelt(next);
      var k := FindCrlf(next, pending);
      if k < 0 {
        assert NoLineFrom(next);
        return NoLine;
      }
      t := TakeLine(next, k, pending);
    }

    /** Take the complete line of `k` bytes off the unconsumed ones. */
    method TakeLine(next: nat, k: nat, ghost pending: string) returns (t: Taken)
      requires Scanning(next) && pending == buf[next..offset] && k == FirstCrlf(pending) < |pending|
      modifies `consumed, buf
      ensures !t.NoLine?
      ensures t.Bad? ==> consumed == old(consumed) && Stopped(pending, BadLine)
      ensures t.Line? ==> Scanning(t.next) && Clean(t.text) && NUL !in t.text && t.next == next + |t.text| + 2
                          && consumed == old(consumed) + [t.text] && pending == t.text + CRLF + buf[t.next..offset]
    {
      ghost var text, rest := TakeIsRight(next, k);
      IsSpelt(next);
      var bare := CutLine(next, k, text, rest);
      if bare {
        return Bad;
      }
      consumed := consumed + [text];
      IsIntact(next + k + 2, rest);
      return Line(buf[next..next + k], next + k + 2);
    }

    /** What taking the first complete line will come to. */
    lemma TakeIsRight(next: nat, k: nat) returns (text: string, rest: string)
      requires Scanning(next) && k == FirstCrlf(buf[next..offset]) < offset - next
      ensures buf[next..offset] == text + CRLF + rest && |text| == k && NUL !in text && NUL !in rest
      ensures '\n' in text ==> Stopped(buf[next..offset], BadLine)
      ensures '\n' !in text ==> AllClean(consumed + [text]) && Clean(text)
      ensures received == Wire(consumed + [text]) + rest
    {
      assert Intact(next);
      var pending := buf[next..offset];
      text, rest := pending[..k], pending[k + 2..];
      TakeFacts(received, consumed, pending, k);
      NoNulInParts(pending, k);
      LineOff(pending, k);
    }

    lemma IsIntact(next: nat, rest: string)
      requires buf.Length == FTP_BUFFER_SIZE && offset <= CAPACITY && HoldsAt(buf, next, rest) && next + |rest| == offset
      requires AllClean(consumed) && received == Wire(consumed) + rest
      ensures Scanning(next) && buf[next..offset] == rest
    {
      assert buf[next..offset] == rest;
    }

    /** Move the unconsumed bytes to the front of the buffer. */
    method Compact(next: nat, ghost stopped: bool)
      requires Scanning(next) && next >= 2 && (stopped || NoneLeft(next))
      modifies `offset, `paused, buf
      ensures Valid() && paused == stopped && offset == old(offset) - next && buf[..offset] == old(buf[next..offset])
    {
      ghost var text := buf[next..offset];
      assert Intact(next) && (stopped || NoLineFrom(next));
      IsSpelt(next);
      offset := StrLen(buf, next, text);
      var tmp := buf[next..next + offset];
      forall i | 0 <= i < offset {
        buf[i] := tmp[i];
      }
      paused := stopped;
      assert buf[..offset] == text && buf[0..offset] == text;
    }

    /** The end of a scan that may have stopped early, after a line: make room for the next read, if there is any to be
        made. A full buffer without a line is too long. */
    method MakeRoom(next: nat, ghost stopped: bool) returns (full: bool)
      requires Scanning(next) && (stopped || NoneLeft(next)) && (next >= 2 || (next == 0 && !stopped))
      modifies `offset, `paused, buf
      ensures full ==> !stopped && offset == CAPACITY
      ensures offset <= buf.Length && buf[..offset] == old(buf[next..offset])
      ensures offset <= buf.Length && if full then Stopped(buf[..offset], TooLong) else Valid() && paused == stopped
    {
      if next > 0 {
        Compact(next, stopped);
        return false;
      }
      assert buf[next..offset] == buf[..offset];
      if offset < CAPACITY {
        assert Intact(next) && NoLineFrom(next);
        paused := stopped;
        return false;
      }
      IsTooLong();
      return true;
    }
  }

  // ---- A NUL makes the cutting matter

  lemma OnlyLineOf(line: string, rest: string, text: string)
    requires Clean(line) && Clean(text) && line + CRLF == text + CRLF + rest
    ensures text == line && rest == ""
  {
    assert line + CRLF + "" == line + CRLF;
    FirstCrlfOfLine(line, "");
    FirstCrlfOfLine(text, rest);
    assert (line + CRLF)[..|line|] == line && (text + CRLF + rest)[..|text|] == text;
  }

  lemma FindsClean(line: string)
    requires Clean(line)
    ensures FirstCrlf(line + CRLF) == |line| && (line + CRLF)[..|line|] == line
  {
    assert line + CRLF + "" == line + CRLF;
    FirstCrlfOfLine(line, "");
  }

  lemma Cancel(a: string, b: string, c: string)
    requires a + b == a + c
    ensures b == c
  {
    assert (a + b)[|a|..] == b && (a + c)[|a|..] == c;
  }

  lemma SameLine(consumed: seq<string>, line: string, text: string, rest: string)
    requires Clean(line) && Clean(text) && Wire(consumed) + (line + CRLF) == Wire(consumed + [text]) + rest
    ensures text == line && rest == ""
  {
    WireOne(consumed, text);
    assert Wire(consumed) + text + CRLF + rest == Wire(consumed) + (text + CRLF + rest);
    Cancel(Wire(consumed), line + CRLF, text + CRLF + rest);
    OnlyLineOf(line, rest, text);
  }

  lemma CleanIsLeft(b: LineBuffer, line: string)
    requires Clean(line) && b.offset <= b.buf.Length && b.buf[0..b.offset] == line + CRLF
    ensures !b.NoneLeft(0)
  {
    FindsClean(line);
    assert !b.NoLineFrom(0);
  }

  /** A buffer that holds one clean line gives it up, and nothing is left. */
  method TakeOnly(b: LineBuffer, line: string) returns (t: Taken)
    requires Clean(line) && b.Scanning(0) && b.buf[0..b.offset] == line + CRLF
    modifies b`consumed, b.buf
    ensures t == Line(line, |line| + 2) && b.consumed == old(b.consumed) + [line] && b.Scanning(t.next)
  {
    assert b.Intact(0);
    FindsClean(line);
    t := b.NextLine(0);
    match t {
      case NoLine =>
        CleanIsLeft(b, line);
        assert false;
      case Bad =>
        NotBad(b.received, b.consumed, line);
        assert false;
      case Line(text, next) =>
        assert b.Intact(next);
        SameLine(old(b.consumed), line, text, b.buf[next..b.offset]);
    }
  }

  lemma NotBad(received: string, consumed: seq<string>, line: string)
    requires Clean(line)
    ensures !Explains(received, consumed, line + CRLF, BadLine)
  {
    FindsClean(line);
  }

  /** A clean line arrives and is taken. */
  method ReceiveLine(b: LineBuffer, line: string)
    requires b.Valid() && b.offset == 0 && Clean(line) && NUL !in line
    modifies b, b.buf
    ensures b.Valid() && b.offset == 0 && b.consumed == old(b.consumed) + [line]
  {
    var noNul := b.Receive(line + CRLF);
    assert b.buf[..b.offset] == "" + (line + CRLF) == line + CRLF;
    assert b.buf[0..b.offset] == b.buf[..b.offset];
    var t := TakeOnly(b, line);
    b.Compact(t.next, true);
  }

  /** A complete line and a NUL behind it: read at once, the line is lost with the connection; cut between the two, the
      line is taken first. */
  method CuttingMattersWithNul(line: string) returns (whole: bool, cut: bool, first: Taken)
    requires Clean(line) && NUL !in line && |line| + 3 <= CAPACITY
    ensures !whole && cut && first == Line(line, |line| + 2)
  {
    var a := new LineBuffer();
    var bytes := line + CRLF + [NUL];
    assert bytes[|line| + 2] == NUL;
    whole := a.Receive(bytes);
    var b := new LineBuffer();
    cut := b.Receive(line + CRLF);
    assert b.buf[..b.offset] == "" + (line + CRLF) == line + CRLF;
    assert b.buf[0..b.offset] == b.buf[..b.offset];
    first := TakeOnly(b, line);
  }
}
