/** The framer on a whole byte stream, cut into reads in any way that the buffer allows (process_control_events in
    ftp.c), when every command is answered at once: what the cutting can change, and what it cannot. */
module Cuts {
  import opened CStrings
  import opened Framing

  /** How the reading of a stream ends: all of it was read, and `rest` is left; the framer closes the connection; or a
      read with a NUL in it does. */
  datatype Outcome = Waits(lines: seq<string>, rest: string) | Closes(lines: seq<string>, end: End) | Loses(lines: seq<string>)

  /** A read that would like to get `want` bytes gets at least one, and no more than there are or fit. */
  function ReadSize(want: nat, room: nat, left: nat): (n: nat)
    requires room > 0 && left > 0
    ensures 0 < n <= room && n <= left
    ensures 0 < want <= room && want <= left ==> n == want
  {
    var most := if room < left then room else left;
    if want == 0 then 1 else if want < most then want else most
  }

  /** Where to cut next, and after that; when nothing more is said, as late as possible. */
  function Want(sizes: seq<nat>): nat {
    if sizes == [] then CAPACITY else sizes[0]
  }

  function After(sizes: seq<nat>): seq<nat> {
    if sizes == [] then [] else sizes[1..]
  }

  /** Reads of the given sizes from `left`, with `held` in the buffer and `done` consumed. */
  function Run(held: string, left: string, sizes: seq<nat>, ok: seq<string> -> bool, done: seq<string>): Outcome
    requires |held| < CAPACITY
    decreases |left|
  {
    if left == "" then Waits(done, held)
    else
      var n := ReadSize(Want(sizes), CAPACITY - |held|, |left|);
      if NUL in left[..n] then Loses(done)
      else
        var f := Frame(held + left[..n], ok, done);
        if f.end.Open? then Run(f.end.rest, left[n..], After(sizes), ok, f.lines) else Closes(f.lines, f.end)
  }

  /** What the reference reading makes of a stream that was read to its end. */
  function Verdict(f: Framed): Outcome {
    if f.end.Open? then Waits(f.lines, f.end.rest) else Closes(f.lines, f.end)
  }

  lemma Associate<T>(a: seq<T>, b: seq<T>, c: seq<T>)
    ensures a + b + c == a + (b + c)
  {
  }

  // ---- Without a NUL

  /** Reading on after a stream that left the connection open. */
  lemma {:induction false} FrameResumes(s: string, t: string, ok: seq<string> -> bool, done: seq<string>)
    requires Frame(s, ok, done).end.Open?
    ensures Frame(s + t, ok, done) == Frame(Frame(s, ok, done).end.rest + t, ok, Frame(s, ok, done).lines)
    decreases |s|
  {
    var k := FirstCrlf(s);
    if k < |s| {
      FirstCrlfExtends(s, t);
      assert (s + t)[..k] == s[..k] && (s + t)[k + 2..] == s[k + 2..] + t;
      FrameResumes(s[k + 2..], t, ok, done + [s[..k]]);
    }
  }

  lemma FrameOfRest(held: string, ok: seq<string> -> bool, done: seq<string>)
    requires |held| < CAPACITY && FirstCrlf(held) == |held|
    ensures Frame(held, ok, done) == Framed(done, Open(held))
  {
  }

  lemma CutAndRest(held: string, left: string, n: nat)
    requires n <= |left|
    ensures held + left[..n] + left[n..] == held + left
  {
  }

  /** However a NUL-free stream is cut up, the lines consumed and the way it ends are those of the reference. */
  lemma {:induction false} CuttingIrrelevant(held: string, left: string, sizes: seq<nat>, ok: seq<string> -> bool, done: seq<string>)
    requires |held| < CAPACITY && FirstCrlf(held) == |held| && NUL !in left
    ensures Run(held, left, sizes, ok, done) == Verdict(Frame(held + left, ok, done))
    decreases |left|
  {
    if left == "" {
      assert held + left == held;
      FrameOfRest(held, ok, done);
    } else {
      var n := ReadSize(Want(sizes), CAPACITY - |held|, |left|);
      var s, f := held + left[..n], Frame(held + left[..n], ok, done);
      CutAndRest(held, left, n);
      if f.end.Open? {
        FrameResumes(s, left[n..], ok, done);
        CuttingIrrelevant(f.end.rest, left[n..], After(sizes), ok, f.lines);
      } else {
        FrameSettled(s, left[n..], ok, done);
      }
    }
  }

  // ---- With a NUL

  lemma LastOff(xs: seq<string>, ys: seq<string>)
    requires ys != []
    ensures xs + ys == xs + ys[..|ys| - 1] + [ys[|ys| - 1]]
  {
  }

  lemma {:induction false} WireSplit(xs: seq<string>, ys: seq<string>)
    ensures Wire(xs + ys) == Wire(xs) + Wire(ys)
    decreases |ys|
  {
    if ys == [] {
      assert xs + ys == xs;
    } else {
      var n := |ys| - 1;
      WireSplit(xs, ys[..n]);
      LastOff(xs, ys);
      WireOne(xs + ys[..n], ys[n]);
      Reassociate(Wire(xs), Wire(ys[..n]), ys[n], CRLF);
    }
  }

  lemma OneMoreLine(line: string, more: seq<string>, rest: string)
    ensures line + CRLF + (Wire(more) + rest) == Wire([line] + more) + rest
  {
    WireSplit([line], more);
    WireSplit([line], []);
    WireOne([], line);
    assert Wire([line]) == line + CRLF;
    assert line + CRLF + (Wire(more) + rest) == line + CRLF + Wire(more) + rest;
  }

  /** All but the last of the new lines were accepted. */
  ghost predicate AcceptedButLast(done: seq<string>, lines: seq<string>, ok: seq<string> -> bool) {
    forall i | 0 < i < |lines| && lines[i - 1] != "" :: ok(done + lines[..i])
  }

  lemma AcceptedOneMore(done: seq<string>, line: string, more: seq<string>, ok: seq<string> -> bool)
    requires (more != [] && line != "" ==> ok(done + [line])) && AcceptedButLast(done + [line], more, ok)
    ensures AcceptedButLast(done, [line] + more, ok)
  {
    forall i | 0 < i < |[line] + more| && ([line] + more)[i - 1] != ""
      ensures ok(done + ([line] + more)[..i])
    {
      assert done + ([line] + more)[..i] == done + [line] + more[..i - 1];
      if i == 1 {
        assert done + [line] + more[..0] == done + [line];
      }
    }
  }

  /** What the reference consumes: it goes on from `done`, the bytes of the new lines lead the stream, they are clean, and
      all but the last one were accepted. */
  lemma {:induction false} FrameShape(s: string, ok: seq<string> -> bool, done: seq<string>)
    returns (lines: seq<string>, rest: string)
    ensures Frame(s, ok, done).lines == done + lines && AllClean(lines) && s == Wire(lines) + rest
    ensures AcceptedButLast(done, lines, ok)
    ensures Frame(s, ok, done).end.Open? ==> rest == Frame(s, ok, done).end.rest
    decreases |s|
  {
    var k := FirstCrlf(s);
    if k == |s| || k + 2 > CAPACITY || !Clean(s[..k]) {
      lines, rest := [], s;
      Empty(done, s);
    } else {
      var line, tail := s[..k], s[k + 2..];
      LineOff(s, k);
      if line != "" && !ok(done + [line]) {
        lines, rest := [], tail;
        Empty(done + [line], tail);
      } else {
        lines, rest := FrameShape(tail, ok, done + [line]);
      }
      AcceptedOneMore(done, line, lines, ok);
      OneMoreLine(line, lines, rest);
      Associate(done, [line], lines);
      lines := [line] + lines;
    }
  }

  lemma Empty(done: seq<string>, s: string)
    ensures done + [] == done && Wire([]) + s == s
  {
  }

  /** Where the last of the new lines starts on the wire. */
  function LastStart(lines: seq<string>): nat {
    if lines == [] then 0 else |Wire(lines[..|lines| - 1])|
  }

  lemma LastStartMoves(xs: seq<string>, ys: seq<string>)
    requires ys != []
    ensures LastStart(xs + ys) == |Wire(xs)| + LastStart(ys)
  {
    assert (xs + ys)[..|xs + ys| - 1] == xs + ys[..|ys| - 1];
    WireSplit(xs, ys[..|ys| - 1]);
  }

  /** The first NUL of `left` is at `p`. */
  predicate FirstNulAt(left: string, p: nat) {
    p < |left| && left[p] == NUL && NUL !in left[..p]
  }

  lemma NulInRead(left: string, p: nat, n: nat)
    requires FirstNulAt(left, p) && n <= |left|
    ensures NUL in left[..n] <==> p < n
    ensures n <= p ==> FirstNulAt(left[n..], p - n) && left[n..][..p - n] == left[n..p] && left[..n] + left[n..p] == left[..p]
  {
    if p < n {
      assert left[..n][p] == NUL;
    } else {
      assert left[..p][..n] == left[..n];
      assert left[n..][..p - n] == left[..p][n..];
    }
  }

  lemma CutBefore(held: string, left: string, n: nat, p: nat)
    requires n <= p <= |left|
    ensures held + left[..n] + left[n..p] == held + left[..p]
  {
  }

  /** One read in front of the NUL, after which the connection is open. */
  lemma ReadOn(held: string, left: string, p: nat, n: nat, ok: seq<string> -> bool, done: seq<string>)
    requires |held| < CAPACITY && FirstNulAt(left, p) && n <= p
    requires Frame(held + left[..n], ok, done).end.Open?
    ensures var f := Frame(held + left[..n], ok, done);
      && Frame(held + left[..p], ok, done) == Frame(f.end.rest + left[n..p], ok, f.lines)
      && f.lines <= Frame(held + left[..p], ok, done).lines
      && done <= f.lines && |held| + n == |Wire(f.lines[|done|..])| + |f.end.rest|
  {
    NulInRead(left, p, n);
    var s := held + left[..n];
    CutBefore(held, left, n, p);
    FrameResumes(s, left[n..p], ok, done);
    var lines, rest := FrameShape(s, ok, done);
    assert (done + lines)[|done|..] == lines;
    var lines', rest' := FrameShape(Frame(s, ok, done).end.rest + left[n..p], ok, Frame(s, ok, done).lines);
  }

  /** The last of the lines after `done` and a NUL `p` bytes behind the `held` ones do not fit the buffer together. */
  predicate TooFarApart(held: nat, p: nat, done: seq<string>, lines: seq<string>) {
    lines == done || (done <= lines && held + p + 1 > LastStart(lines[|done|..]) + CAPACITY)
  }

  /** A read does not change that. */
  lemma StillTooFarApart(held: nat, p: nat, n: nat, done: seq<string>, now: seq<string>, lines: seq<string>, rest: nat)
    requires TooFarApart(held, p, done, lines) && n <= p && done <= now <= lines
    requires held + n == |Wire(now[|done|..])| + rest
    ensures TooFarApart(rest, p - n, now, lines)
  {
    if now != lines {
      assert lines[|done|..] == now[|done|..] + lines[|now|..];
      LastStartMoves(now[|done|..], lines[|now|..]);
    }
  }

  /** A read in front of the NUL, with the condition that goes on holding behind it. */
  lemma ReadOnApart(held: string, left: string, p: nat, n: nat, ok: seq<string> -> bool, done: seq<string>)
    requires |held| < CAPACITY && FirstNulAt(left, p) && n <= p && Frame(held + left[..n], ok, done).end.Open?
    requires TooFarApart(|held|, p, done, Frame(held + left[..p], ok, done).lines)
    ensures var f := Frame(held + left[..n], ok, done);
      && FirstNulAt(left[n..], p - n)
      && Frame(held + left[..p], ok, done) == Frame(f.end.rest + left[n..][..p - n], ok, f.lines)
      && TooFarApart(|f.end.rest|, p - n, f.lines, Frame(f.end.rest + left[n..][..p - n], ok, f.lines).lines)
  {
    var f := Frame(held + left[..n], ok, done);
    NulInRead(left, p, n);
    ReadOn(held, left, p, n, ok, done);
    StillTooFarApart(|held|, p, n, done, f.lines, Frame(held + left[..p], ok, done).lines, |f.end.rest|);
  }

  /** A read in front of the NUL that makes the framer close the connection. */
  lemma ReadAndClose(held: string, left: string, p: nat, n: nat, ok: seq<string> -> bool, done: seq<string>)
    requires n <= p <= |left| && !Frame(held + left[..n], ok, done).end.Open?
    ensures Frame(held + left[..p], ok, done) == Frame(held + left[..n], ok, done)
  {
    CutBefore(held, left, n, p);
    FrameSettled(held + left[..n], left[n..p], ok, done);
  }

  /** A read with the NUL in it cannot hold the last line. */
  lemma ReadTooFar(held: nat, p: nat, n: nat, done: seq<string>, lines: seq<string>)
    requires TooFarApart(held, p, done, lines) && p < n <= CAPACITY - held
    ensures lines == done
  {
  }

  /** One turn of Run. */
  lemma Turn(held: string, left: string, sizes: seq<nat>, ok: seq<string> -> bool, done: seq<string>, n: nat)
    requires |held| < CAPACITY && left != "" && n == ReadSize(Want(sizes), CAPACITY - |held|, |left|)
    ensures Run(held, left, sizes, ok, done).lines ==
            if NUL in left[..n] then done
            else
              var f := Frame(held + left[..n], ok, done);
              if f.end.Open? then Run(f.end.rest, left[n..], After(sizes), ok, f.lines).lines else f.lines
  {
  }

  /** When no read can hold the last line and the NUL, every cutting consumes all the lines in front of the NUL. */
  lemma {:induction false} NoCutMatters(held: string, left: string, p: nat, sizes: seq<nat>, ok: seq<string> -> bool, done: seq<string>)
    requires |held| < CAPACITY && FirstCrlf(held) == |held| && FirstNulAt(left, p)
    requires TooFarApart(|held|, p, done, Frame(held + left[..p], ok, done).lines)
    ensures Run(held, left, sizes, ok, done).lines == Frame(held + left[..p], ok, done).lines
    decreases |left|
  {
    var n := ReadSize(Want(sizes), CAPACITY - |held|, |left|);
    NulInRead(left, p, n);
    Turn(held, left, sizes, ok, done, n);
    if p < n {
      ReadTooFar(|held|, p, n, done, Frame(held + left[..p], ok, done).lines);
    } else if Frame(held + left[..n], ok, done).end.Open? {
      GoOn(held, left, p, sizes, ok, done, n);
    } else {
      ReadAndClose(held, left, p, n, ok, done);
    }
  }

  lemma {:induction false} GoOn(held: string, left: string, p: nat, sizes: seq<nat>, ok: seq<string> -> bool, done: seq<string>, n: nat)
    requires |held| < CAPACITY && FirstNulAt(left, p) && 0 < n <= p && Frame(held + left[..n], ok, done).end.Open?
    requires TooFarApart(|held|, p, done, Frame(held + left[..p], ok, done).lines)
    ensures var f := Frame(held + left[..n], ok, done);
      Run(f.end.rest, left[n..], After(sizes), ok, f.lines).lines == Frame(held + left[..p], ok, done).lines
    decreases |left|, 0
  {
    var f := Frame(held + left[..n], ok, done);
    ReadOnApart(held, left, p, n, ok, done);
    NoCutMatters(f.end.rest, left[n..], p - n, After(sizes), ok, f.lines);
  }

  function Ones(n: nat): seq<nat> {
    seq(n, _ => 1)
  }

  lemma OnesStep(n: nat, more: seq<nat>)
    requires n > 0
    ensures Want(Ones(n) + more) == 1 && After(Ones(n) + more) == Ones(n - 1) + more
  {
  }

  lemma FrameOfNothing(held: string, left: string, ok: seq<string> -> bool, done: seq<string>)
    requires |held| < CAPACITY && FirstCrlf(held) == |held|
    ensures Frame(held + left[..0], ok, done) == Framed(done, Open(held))
  {
    assert held + left[..0] == held;
  }

  lemma OneOfOnes(n: nat)
    requires n > 0
    ensures Want(Ones(n)) == 1 && After(Ones(n)) == Ones(n - 1)
  {
  }

  /** Read byte by byte, all the lines in front of the NUL are consumed. */
  lemma {:induction false} BytewiseConsumes(held: string, left: string, p: nat, ok: seq<string> -> bool, done: seq<string>)
    requires |held| < CAPACITY && FirstCrlf(held) == |held| && FirstNulAt(left, p)
    ensures Run(held, left, Ones(p), ok, done).lines == Frame(held + left[..p], ok, done).lines
    decreases |left|
  {
    var n := ReadSize(Want(Ones(p)), CAPACITY - |held|, |left|);
    NulInRead(left, p, n);
    if p == 0 {
      FrameOfNothing(held, left, ok, done);
    } else {
      OneOfOnes(p);
      var f := Frame(held + left[..n], ok, done);
      if f.end.Open? {
        ReadOn(held, left, p, n, ok, done);
        BytewiseConsumes(f.end.rest, left[n..], p - n, ok, f.lines);
      } else {
        ReadAndClose(held, left, p, n, ok, done);
      }
    }
  }

  lemma FirstByte(a: string, left: string)
    requires a != ""
    ensures a + left != "" && (a + left)[..1] == a[..1] && (a + left)[1..] == a[1..] + left
  {
  }

  lemma OneByte(held: string, a: string, left: string, more: seq<nat>, ok: seq<string> -> bool, done: seq<string>)
    requires |held| < CAPACITY && a != "" && NUL !in a && Frame(held + a, ok, done).end.Open?
    ensures var f := Frame(held + a[..1], ok, done);
      && f.end.Open? && Frame(held + a, ok, done) == Frame(f.end.rest + a[1..], ok, f.lines)
      && Run(held, a + left, Ones(|a|) + more, ok, done) == Run(f.end.rest, a[1..] + left, Ones(|a| - 1) + more, ok, f.lines)
  {
    OnesStep(|a|, more);
    FirstByte(a, left);
    CutAndRest(held, a, 1);
    if !Frame(held + a[..1], ok, done).end.Open? {
      FrameSettled(held + a[..1], a[1..], ok, done);
    }
    FrameResumes(held + a[..1], a[1..], ok, done);
  }

  /** Reading `a` byte by byte, when that leaves the connection open. */
  lemma {:induction false} BytewiseReaches(held: string, a: string, left: string, more: seq<nat>, ok: seq<string> -> bool, done: seq<string>)
    requires |held| < CAPACITY && FirstCrlf(held) == |held| && NUL !in a && Frame(held + a, ok, done).end.Open?
    ensures var f := Frame(held + a, ok, done);
      Run(held, a + left, Ones(|a|) + more, ok, done) == Run(f.end.rest, left, more, ok, f.lines)
    decreases |a|
  {
    if a == "" {
      assert held + a == held && a + left == left && Ones(0) + more == more;
      FrameOfRest(held, ok, done);
    } else {
      OneByte(held, a, left, more, ok, done);
      var f := Frame(held + a[..1], ok, done);
      BytewiseReaches(f.end.rest, a[1..], left, more, ok, f.lines);
    }
  }

  /** The lines but the last are read off an accepting connection. */
  lemma AllButLast(lines: seq<string>, ok: seq<string> -> bool)
    requires lines != [] && AllClean(lines) && AcceptedButLast([], lines, ok)
    ensures Frame("" + Wire(lines[..|lines| - 1]), ok, []) == Framed(lines[..|lines| - 1], Open(""))
  {
    var init := lines[..|lines| - 1];
    forall i | 0 < i <= |init| && init[i - 1] != ""
      ensures ok(init[..i])
    {
      assert init[..i] == lines[..i] && [] + lines[..i] == lines[..i];
    }
    FrameConsumed(init, "", ok, |init|);
    assert init[..|init|] == init && Wire(init) + "" == "" + Wire(init);
    FrameOfRest("", ok, init);
  }

  lemma InFront(w: string, a: string, b: string, c: string)
    ensures |w| <= |w + a + b + c| && (w + a + b + c)[..|w|] == w
  {
  }

  /** What is in front of the last line. */
  lemma BeforeLast(lines: seq<string>, rest: string)
    requires lines != []
    ensures LastStart(lines) <= |Wire(lines) + rest|
    ensures (Wire(lines) + rest)[..LastStart(lines)] == Wire(lines[..|lines| - 1])
  {
    InFront(Wire(lines[..|lines| - 1]), lines[|lines| - 1], CRLF, rest);
  }

  lemma Loss(left: string, m: nat, ok: seq<string> -> bool, done: seq<string>)
    requires 0 < m <= |left| && m <= CAPACITY && left[m - 1] == NUL
    ensures Run("", left, [m], ok, done) == Loses(done)
  {
    assert left[..m][m - 1] == NUL;
  }

  /** A cutting that loses the last line: byte by byte up to its start, and the line and the NUL in one read. */
  lemma LosingCut(stream: string, q: nat, ok: seq<string> -> bool) returns (sizes: seq<nat>)
    requires FirstNulAt(stream, q) && Frame(stream[..q], ok, []).lines != []
    requires q + 1 <= LastStart(Frame(stream[..q], ok, []).lines) + CAPACITY
    ensures Run("", stream, sizes, ok, []).lines != Frame(stream[..q], ok, []).lines
  {
    var lines, rest := FrameShape(stream[..q], ok, []);
    assert [] + lines == lines;
    BeforeLast(lines, rest);
    AllButLast(lines, ok);
    sizes := CutAtLast(stream, q, LastStart(lines), ok, lines[..|lines| - 1]);
  }

  lemma CutAtLast(stream: string, q: nat, start: nat, ok: seq<string> -> bool, done: seq<string>) returns (sizes: seq<nat>)
    requires FirstNulAt(stream, q) && start <= q < start + CAPACITY
    requires Frame("" + stream[..q][..start], ok, []) == Framed(done, Open(""))
    ensures Run("", stream, sizes, ok, []) == Loses(done)
  {
    var a, left := stream[..q][..start], stream[start..];
    assert a == stream[..start] && a + left == stream;
    BytewiseReaches("", a, left, [q + 1 - start], ok, []);
    Loss(left, q + 1 - start, ok, done);
    sizes := Ones(|a|) + [q + 1 - start];
  }

  /** When the cutting matters, exactly: all cuttings of a stream with a NUL consume the same lines if and only if no line
      in front of the NUL is consumed at all, or the last one that is cannot share a read with the NUL. */
  lemma CuttingWithNul(stream: string, q: nat, ok: seq<string> -> bool)
    requires FirstNulAt(stream, q)
    ensures var lines := Frame(stream[..q], ok, []).lines;
      (forall sizes, sizes' :: Run("", stream, sizes, ok, []).lines == Run("", stream, sizes', ok, []).lines)
      <==> (lines == [] || q + 1 - LastStart(lines) > CAPACITY)
  {
    var lines := Frame(stream[..q], ok, []).lines;
    assert "" + stream[..q] == stream[..q] && lines[0..] == lines;
    if lines == [] || q + 1 - LastStart(lines) > CAPACITY {
      forall sizes
        ensures Run("", stream, sizes, ok, []).lines == lines
      {
        NoCutMatters("", stream, q, sizes, ok, []);
      }
    } else {
      BytewiseConsumes("", stream, q, ok, []);
      var sizes := LosingCut(stream, q, ok);
      assert Run("", stream, sizes, ok, []).lines != Run("", stream, Ones(q), ok, []).lines;
    }
  }

  // ---- The framer itself

  lemma FrameOneLine(text: string, rest: string, ok: seq<string> -> bool, done: seq<string>)
    requires Clean(text)
    ensures Frame(text + CRLF + rest, ok, done) ==
            if text != "" && !ok(done + [text]) then Framed(done + [text], Refused) else Frame(rest, ok, done + [text])
  {
    FirstCrlfOfLine(text, rest);
    assert (text + CRLF + rest)[..|text|] == text;
  }

  lemma FrameBad(b: LineBuffer, pending: string, ok: seq<string> -> bool, done: seq<string>)
    requires b.Stopped(pending, BadLine)
    ensures Frame(pending, ok, done) == Framed(done, BadLine)
  {
    assert Explains(b.received, b.consumed, pending, BadLine);
  }

  lemma FrameNoLine(b: LineBuffer, next: nat, ok: seq<string> -> bool, done: seq<string>)
    requires b.NoneLeft(next) && b.offset <= CAPACITY
    ensures var pending := b.buf[next..b.offset];
      Frame(pending, ok, done) == Framed(done, if |pending| >= CAPACITY then TooLong else Open(pending))
  {
    assert b.NoLineFrom(next);
  }

  /** The scan of process_control_events, with `ok` to answer for the handlers, reads the buffer as the reference does. */
  method ScanAll(b: LineBuffer, ok: seq<string> -> bool, done: seq<string>) returns (end: Option<End>, lines: seq<string>)
    requires b.Scanning(0) && b.consumed == done
    modifies b`consumed, b`offset, b`paused, b.buf
    ensures b.consumed == lines && b.offset <= b.buf.Length
    ensures end.None? ==> b.Valid() && !b.paused
    ensures Frame(old(b.buf[0..b.offset]), ok, done) == Framed(lines, if end.Some? then end.value else Open(b.buf[..b.offset]))
    ensures end.Some? ==> !end.value.Open?
  {
    ghost var s := b.buf[0..b.offset];
    var next, quiet := 0, false;
    lines := done;
    while !quiet
      invariant b.Scanning(next) && b.consumed == lines && (next == 0 || next >= 2) && (quiet ==> b.NoneLeft(next))
      invariant Frame(s, ok, done) == Frame(b.buf[next..b.offset], ok, lines)
      decreases b.offset - next, !quiet
    {
      ghost var pending := b.buf[next..b.offset];
      var t := b.NextLine(next);
      match t {
        case NoLine =>
          quiet := true;
        case Bad =>
          FrameBad(b, pending, ok, lines);
          return Some(BadLine), lines;
        case Line(text, after) =>
          FrameOneLine(text, b.buf[after..b.offset], ok, lines);
          lines := lines + [text];
          if text != "" && !ok(lines) {
            return Some(Refused), lines;
          }
          next := after;
      }
    }
    FrameNoLine(b, next, ok, lines);
    var full := b.MakeRoom(next, false);
    end := if full then Some(TooLong) else None;
  }

  /** One read and the scan after it. */
  method FeedOnce(b: LineBuffer, left: string, sizes: seq<nat>, ok: seq<string> -> bool, done: seq<string>)
    returns (over: Option<Outcome>, lines: seq<string>, left': string)
    requires b.Valid() && !b.paused && b.consumed == done && left != ""
    modifies b, b.buf
    ensures b.offset <= b.buf.Length && |left'| < |left|
    ensures over.None? ==> b.Valid() && !b.paused && b.consumed == lines
    ensures Run(old(b.buf[..b.offset]), left, sizes, ok, done) ==
            if over.Some? then over.value else Run(b.buf[..b.offset], left', After(sizes), ok, lines)
  {
    ghost var held := b.buf[..b.offset];
    var n := ReadSize(Want(sizes), CAPACITY - b.offset, |left|);
    left' := left[n..];
    var noNul := b.Receive(left[..n]);
    if !noNul {
      return Some(Loses(done)), done, left';
    }
    assert b.buf[0..b.offset] == b.buf[..b.offset] == held + left[..n];
    var end;
    end, lines := ScanAll(b, ok, done);
    over := if end.Some? then Some(Closes(lines, end.value)) else None;
  }

  /** process_control_events on a whole stream, cut up into reads of the given sizes: it comes to what Run says. */
  method Feed(stream: string, sizes: seq<nat>, ok: seq<string> -> bool) returns (o: Outcome)
    ensures o == Run("", stream, sizes, ok, [])
  {
    var b := new LineBuffer();
    var left, cuts, lines := stream, sizes, [];
    assert b.buf[..b.offset] == "";
    while left != ""
      invariant b.Valid() && !b.paused && b.consumed == lines && fresh(b) && fresh(b.buf)
      invariant Run("", stream, sizes, ok, []) == Run(b.buf[..b.offset], left, cuts, ok, lines)
      decreases |left|
    {
      var over;
      over, lines, left := FeedOnce(b, left, cuts, ok, lines);
      if over.Some? {
        return over.value;
      }
      cuts := After(cuts);
    }
    return Waits(lines, b.buf[..b.offset]);
  }

  /** For a stream without a NUL that is the reference reading, whatever the sizes are. */
  method FeedWithoutNul(stream: string, sizes: seq<nat>, ok: seq<string> -> bool) returns (o: Outcome)
    requires NUL !in stream
    ensures o == Verdict(Frame(stream, ok, []))
  {
    o := Feed(stream, sizes, ok);
    CuttingIrrelevant("", stream, sizes, ok, []);
    assert "" + stream == stream;
  }
}
