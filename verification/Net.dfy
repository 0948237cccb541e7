/** Exact transfers (net.c) and the transfer half of process_data_events (ftp.c).
    Socket and File are the outside world. What they will answer is given beforehand, as a script, within what the real
    calls may answer; the objects remember what went through them. */
module Net {

  type byte = i: int | 0 <= i < 256

  const MAX_NET_BUFFER_SIZE: nat := 32768
  const MIN_NET_BUFFER_SIZE: nat := 4096
  const FREAD_BUFFER_SIZE: nat := 32768

  const EAGAIN: int := 11
  const EINVAL: int := 22
  const ENODATA: int := 61

  function Min(a: nat, b: nat): nat {
    if a < b then a else b
  }

  /** NET_BUFFER_SIZE, shared by all transfers of a program run. */
  class Tuning {
    var bufferSize: nat
    ghost var shrinks: nat

    /** It starts large and may become small once, for good. */
    ghost predicate Valid()
      reads this
    {
      || (bufferSize == MAX_NET_BUFFER_SIZE && shrinks == 0)
      || (bufferSize == MIN_NET_BUFFER_SIZE && shrinks == 1)
    }

    constructor ()
      ensures Valid() && shrinks == 0
    {
      bufferSize, shrinks := MAX_NET_BUFFER_SIZE, 0;
    }

    method Shrink()
      requires Valid() && bufferSize == MAX_NET_BUFFER_SIZE
      modifies this
      ensures Valid() && shrinks == old(shrinks) + 1
    {
      bufferSize, shrinks := MIN_NET_BUFFER_SIZE, shrinks + 1;
    }
  }

  // ---- The outside world

  /** What a peer has in store for a read: bytes, of which a read takes as many as it has room for; none, which is the end
      of its stream; or an error. */
  datatype Answer = Bytes(data: seq<byte>) | Refused(error: int)

  function ErrorOf(error: int): int {
    if error < 0 then error else -1
  }

  /** What a write of `n` bytes is answered next: a count, or an error other than EAGAIN (the socket is blocking then).
      Without anything in store all is taken. */
  function Takes(answers: seq<int>, n: nat): int {
    if answers == [] || answers[0] > n || answers[0] == -EAGAIN then n else answers[0]
  }

  function Rest<T>(answers: seq<T>): (r: seq<T>)
    ensures forall a | a in r :: a in answers
  {
    if answers == [] then [] else answers[1..]
  }

  /** A socket that takes something of every write. */
  predicate Healthy(answers: seq<int>) {
    forall a | a in answers :: a > 0
  }

  /** A connected socket, with its answers to the next reads and writes. */
  class Socket {
    var sent: seq<byte>
    var received: seq<byte>
    var ended: bool
    var toRead: seq<Answer>
    var toWrite: seq<int>

    constructor (toRead: seq<Answer>, toWrite: seq<int>)
      ensures sent == [] && received == [] && !ended && this.toRead == toRead && this.toWrite == toWrite
    {
      sent, received, ended := [], [], false;
      this.toRead, this.toWrite := toRead, toWrite;
    }

    /** net_write in blocking mode. */
    method Write(buf: array<byte>, from: nat, n: nat) returns (r: int)
      requires from + n <= buf.Length
      modifies `sent, `toWrite
      ensures r == Takes(old(toWrite), n) <= n && toWrite == Rest(old(toWrite))
      ensures sent == if r > 0 then old(sent) + buf[from..from + r] else old(sent)
    {
      r := Takes(toWrite, n);
      toWrite := Rest(toWrite);
      if r > 0 {
        sent := sent + buf[from..from + r];
      }
    }

    /** net_read: r bytes at the front of `buf`, 0 at the peer's end of stream, or an error. EAGAIN when there is nothing
        in store. */
    method Read(buf: array<byte>, n: nat) returns (r: int)
      requires n <= buf.Length && n > 0
      modifies `received, `ended, `toRead, buf
      ensures r == Gives(old(toRead), n) <= n && toRead == (if r > 0 then LeftOver(old(toRead), r) else Rest(old(toRead)))
      ensures received == if r > 0 then old(received) + buf[..r] else old(received)
      ensures r > 0 ==> buf[..r] == old(toRead)[0].data[..r]
      ensures ended == (old(ended) || r == 0)
    {
      if toRead == [] {
        return -EAGAIN;
      }
      var answer := toRead[0];
      if answer.Refused? {
        toRead := Rest(toRead);
        return ErrorOf(answer.error);
      }
      r := Min(|answer.data|, n);
      if r == 0 {
        ended, toRead := true, Rest(toRead);
        return;
      }
      forall i | 0 <= i < r {
        buf[i] := answer.data[i];
      }
      assert buf[..r] == answer.data[..r];
      received := received + buf[..r];
      toRead := LeftOver(toRead, r);
    }
  }

  /** What a read of `n` bytes is answered next. */
  function Gives(answers: seq<Answer>, n: nat): int {
    if answers == [] then -EAGAIN
    else match answers[0]
      case Bytes(data) => Min(|data|, n)
      case Refused(error) => ErrorOf(error)
  }

  /** What is in store after `r` bytes of the first answer were read. */
  function LeftOver(answers: seq<Answer>, r: nat): seq<Answer>
    requires answers != [] && answers[0].Bytes? && r <= |answers[0].data|
  {
    if r == |answers[0].data| then answers[1..] else [Bytes(answers[0].data[r..])] + answers[1..]
  }

  function Size(answers: seq<Answer>): nat {
    if answers == [] then 0 else 1 + (if answers[0].Bytes? then |answers[0].data| else 0) + Size(answers[1..])
  }

  lemma LeftOverIsShorter(answers: seq<Answer>, r: nat)
    requires answers != [] && answers[0].Bytes? && 0 < r <= |answers[0].data|
    ensures Size(LeftOver(answers, r)) < Size(answers)
  {
    var left := LeftOver(answers, r);
    if r < |answers[0].data| {
      assert left[1..] == answers[1..];
    }
  }

  /** The bytes that reading gives until it has to stop. An EINVAL while the buffers are `large` does not stop it. */
  function Stream(answers: seq<Answer>, large: bool): seq<byte> {
    if answers == [] then []
    else match answers[0]
      case Bytes(data) => if data == [] then [] else data + Stream(answers[1..], large)
      case Refused(error) => if large && ErrorOf(error) == -EINVAL then Stream(answers[1..], false) else []
  }

  /** And why it has to: 0 at the end of the peer's stream, EAGAIN when nothing is there yet, or another error. */
  function Verdict(answers: seq<Answer>, large: bool): (r: int)
    ensures r <= 0
  {
    if answers == [] then -EAGAIN
    else match answers[0]
      case Bytes(data) => if data == [] then 0 else Verdict(answers[1..], large)
      case Refused(error) => if large && ErrorOf(error) == -EINVAL then Verdict(answers[1..], false) else ErrorOf(error)
  }

  /** An open stdio file: what it holds, how far that can be read before there is an error, how much can be written before
      there is one, how far it was read, and what was written through this handle. */
  class File {
    const content: seq<byte>
    const readable: nat
    var room: nat
    var pos: nat
    var atEof: bool
    var failed: bool
    var written: seq<byte>

    ghost predicate Valid()
      reads this
    {
      pos <= |content| && (atEof ==> pos == |content|)
    }

    constructor (content: seq<byte>, readable: nat, room: nat, pos: nat)
      requires pos <= |content|
      ensures Valid() && this.content == content && this.readable == readable && this.room == room && this.pos == pos
      ensures !failed && written == []
    {
      this.content, this.readable, this.room, this.pos := content, readable, room, pos;
      atEof, failed, written := false, false, [];
    }

    /** fread: all that is left, up to n bytes. It falls short of that only after an error, and then feof is not set. */
    method Read(buf: array<byte>, n: nat) returns (r: nat)
      requires Valid() && n <= buf.Length && n > 0 && !failed
      modifies `pos, `atEof, `failed, buf
      ensures Valid() && pos == NextPos(content, readable, old(pos), n) == old(pos) + r
      ensures buf[..r] == content[old(pos)..pos] && (failed <==> r < Min(n, |content| - old(pos)))
      ensures r < n ==> (atEof <==> !failed)
    {
      var due := Min(n, |content| - pos);
      r := if pos + due <= readable then due else if pos <= readable then readable - pos else 0;
      failed := r < due;
      var start := pos;
      forall i | 0 <= i < r {
        buf[i] := content[start + i];
      }
      pos := pos + r;
      atEof := !failed && r < n;
    }

    /** fwrite: the bytes accepted, fewer than asked for only when there is an error. */
    method Write(buf: array<byte>, n: nat) returns (r: nat)
      requires n <= buf.Length
      modifies `room, `failed, `written
      ensures r == Min(n, old(room)) && room == old(room) - r && written == old(written) + buf[..r]
      ensures failed <==> old(failed) || r < n
    {
      r := Min(n, room);
      room := room - r;
      failed := failed || r < n;
      written := written + buf[..r];
    }
  }

  /** Where a read of `n` bytes at `pos` ends: with the file, or where the file cannot be read. */
  function NextPos(content: seq<byte>, readable: nat, pos: nat, n: nat): nat {
    var due := Min(pos + n, |content|);
    if due <= readable then due else if pos <= readable then readable else pos
  }

  // ---- Steps of a transfer

  /** The result that a write which took nothing leads to. */
  function Failure(answer: int): int {
    if answer == 0 then -ENODATA else answer
  }

  /** `result` comes from one of these answers. */
  ghost predicate Reports(answers: seq<int>, result: int) {
    exists a | a in answers :: a <= 0 && result == Failure(a)
  }

  /** transfer_exact with net_write: 0 exactly when the whole buffer went out, in order; otherwise an error after
      some prefix, and that error is the socket's own: a socket that takes something of every write gets everything. An
      EINVAL on a large buffer is answered by retrying, once per program, with a small one. */
  method SendExact(t: Tuning, s: Socket, buf: array<byte>, length: nat) returns (result: int)
    requires t.Valid() && length <= buf.Length
    modifies t, s`sent, s`toWrite
    ensures t.Valid() && t.shrinks >= old(t.shrinks) && (t.shrinks > old(t.shrinks) ==> -EINVAL in old(s.toWrite))
    ensures result <= 0 && result != -EAGAIN
    ensures result == 0 <==> s.sent == old(s.sent) + buf[..length]
    ensures exists k | 0 <= k <= length :: s.sent == old(s.sent) + buf[..k]
    ensures result < 0 ==> Reports(old(s.toWrite), result) && (result == -EINVAL ==> t.bufferSize == MIN_NET_BUFFER_SIZE)
  {
    result := 0;
    var remaining := length;
    assert s.sent == old(s.sent) + buf[..0];
    while remaining > 0
      invariant 0 <= remaining <= length && t.Valid() && t.shrinks >= old(t.shrinks)
      invariant t.shrinks > old(t.shrinks) ==> -EINVAL in old(s.toWrite)
      invariant s.sent == old(s.sent) + buf[..length - remaining]
      invariant forall a | a in s.toWrite :: a in old(s.toWrite)
      decreases remaining, t.bufferSize
    {
      var from := length - remaining;
      ghost var answers := s.toWrite;
      var transferred := s.Write(buf, from, Min(remaining, t.bufferSize));
      if transferred > 0 {
        assert buf[..from] + buf[from..from + transferred] == buf[..from + transferred];
        remaining := remaining - transferred;
      } else if transferred < 0 {
        assert answers[0] in answers && transferred == answers[0] == Failure(answers[0]);
        if transferred == -EINVAL && t.bufferSize == MAX_NET_BUFFER_SIZE {
          t.Shrink();
        } else {
          result := transferred;
          break;
        }
      } else {
        assert answers[0] in answers && answers[0] == 0;
        result := -ENODATA;
        break;
      }
    }
    assert |s.sent| == |old(s.sent)| + length - remaining;
  }

  lemma SlicePrefix(content: seq<byte>, pos: nat, n: nat, k: nat)
    requires k <= n && pos + n <= |content|
    ensures content[pos..pos + n][..k] == content[pos..pos + k]
  {
  }

  lemma BufferPrefix(buf: array<byte>, n: nat, k: nat)
    requires k <= n <= buf.Length
    ensures buf[..n][..k] == buf[..k]
  {
  }

  /** SendExact of a chunk just read from position `pos` of a file. */
  method SendChunk(t: Tuning, s: Socket, buf: array<byte>, n: nat, ghost content: seq<byte>, ghost pos: nat)
    returns (result: int, ghost k: nat)
    requires t.Valid() && n <= buf.Length && pos + n <= |content| && buf[..n] == content[pos..pos + n]
    modifies t, s`sent, s`toWrite
    ensures t.Valid() && k <= n && s.sent == old(s.sent) + content[pos..pos + k]
    ensures result <= 0 && result != -EAGAIN && (result == 0 <==> k == n)
    ensures result < 0 ==> Reports(old(s.toWrite), result)
  {
    result := SendExact(t, s, buf, n);
    k :| 0 <= k <= n && s.sent == old(s.sent) + buf[..k];
    BufferPrefix(buf, n, k);
    SlicePrefix(content, pos, n, k);
    if k == n {
      assert s.sent == old(s.sent) + buf[..n];
    } else {
      assert |s.sent| == |old(s.sent)| + k;
    }
  }

  /** send_from_file: one step of a download. It reads the next chunk and sends it; EAGAIN asks for another step, 0 says
      that it was the last, and any other result is an error of the socket's, or of the file's after all that it gave was
      sent. */
  method SendFromFile(t: Tuning, s: Socket, f: File) returns (result: int, ghost upTo: nat)
    requires t.Valid() && f.Valid() && !f.failed
    modifies t, s`sent, s`toWrite, f
    ensures t.Valid() && f.Valid() && result <= 0 && f.written == old(f.written) && f.room == old(f.room)
    ensures old(f.pos) <= f.pos == NextPos(f.content, f.readable, old(f.pos), FREAD_BUFFER_SIZE)
    ensures f.failed <==> f.pos < Min(old(f.pos) + FREAD_BUFFER_SIZE, |f.content|)
    ensures old(f.pos) <= upTo <= f.pos && s.sent == old(s.sent) + f.content[old(f.pos)..upTo]
    ensures if upTo < f.pos then Reports(old(s.toWrite), result) && result !in {0, -EAGAIN}
            else result == if f.failed then -1 else if f.pos == old(f.pos) + FREAD_BUFFER_SIZE then -EAGAIN else 0
  {
    var buf := new byte[FREAD_BUFFER_SIZE];
    result, upTo := 0, f.pos;
    assert s.sent == old(s.sent) + f.content[upTo..upTo];
    var bytesRead := f.Read(buf, FREAD_BUFFER_SIZE);
    if bytesRead > 0 {
      ghost var k;
      result, k := SendChunk(t, s, buf, bytesRead, f.content, upTo);
      upTo := upTo + k;
      if result < 0 {
        return;
      }
    }
    if bytesRead < FREAD_BUFFER_SIZE {
      return if f.atEof then 0 else -1, upTo;
    }
    return -EAGAIN, upTo;
  }

  /** What is still to come of a stream, and how it will end, when `got` was read of it; behind one case. */
  ghost predicate Expects(answers: seq<Answer>, large: bool, got: seq<byte>, all: seq<byte>, end: int) {
    forall store: seq<Answer> | store == answers :: all == got + Stream(store, large) && end == Verdict(store, large)
  }

  lemma ExpectAll(answers: seq<Answer>, large: bool)
    ensures Expects(answers, large, [], Stream(answers, large), Verdict(answers, large))
  {
  }

  /** A read that gives no bytes is the end, unless the buffers are to shrink. */
  lemma ExpectNothing(answers: seq<Answer>, large: bool, got: seq<byte>, all: seq<byte>, end: int, n: nat)
    requires Expects(answers, large, got, all, end) && n > 0 && Gives(answers, n) <= 0
    ensures if large && Gives(answers, n) == -EINVAL then Expects(Rest(answers), false, got, all, end)
            else got == all && end == Gives(answers, n)
  {
    assert Stream(answers, large) == [] || Stream(answers, large) == Stream(Rest(answers), false);
  }

  lemma ExpectMore(answers: seq<Answer>, large: bool, got: seq<byte>, all: seq<byte>, end: int, r: nat)
    requires Expects(answers, large, got, all, end)
    requires answers != [] && answers[0].Bytes? && 0 < r <= |answers[0].data|
    ensures Expects(LeftOver(answers, r), large, got + answers[0].data[..r], all, end)
    ensures got + answers[0].data[..r] <= all
  {
    assert all == got + Stream(answers, large);
    var data := answers[0].data;
    assert data[..r] + data[r..] == data;
    var left := LeftOver(answers, r);
    if r < |data| {
      assert left[1..] == answers[1..];
      Regroup(got, data[..r], data[r..], Stream(answers[1..], large));
    } else {
      assert data[..r] == data;
      OneMore(got, data, Stream(left, large));
    }
  }

  lemma Regroup(a: seq<byte>, b: seq<byte>, c: seq<byte>, d: seq<byte>)
    ensures a + (b + c + d) == a + b + (c + d) && a + b <= a + (b + c + d)
  {
    assert a + (b + c + d) == a + b + (c + d);
  }

  lemma OneMore(s: seq<byte>, got: seq<byte>, chunk: seq<byte>)
    ensures s + got + chunk == s + (got + chunk)
    ensures s + got <= s + (got + chunk)
  {
    assert s + got + chunk == s + (got + chunk);
  }

  lemma Enough(got: seq<byte>, chunk: seq<byte>, room: nat)
    requires |got| <= room
    ensures room - |got| < |chunk| ==> got + chunk[..room - |got|] == (got + chunk)[..room]
  {
  }

  /** Of the bytes `all`, `got` were read: all of them, and then the result says what ended the reading, or more than the
      file had room for, and then that failed. */
  ghost predicate Lands(all: seq<byte>, end: int, room: nat, got: seq<byte>, result: int, failed: bool) {
    if |all| <= room then got == all && result == end && !failed
    else got <= all && |got| > room && result == -1 && failed
  }

  /** fwrite of a chunk, when `got` went to the file before it. */
  method Store(f: File, buf: array<byte>, n: nat, ghost got: seq<byte>, ghost written: seq<byte>,
               ghost room: nat)
    returns (stored: bool)
    requires n <= buf.Length && !f.failed && f.written == written + got && |got| <= room && f.room == room - |got|
    modifies f`room, f`failed, f`written
    ensures stored <==> |got| + n <= room
    ensures if stored then !f.failed && f.room == room - |got| - n && f.written == written + (got + buf[..n])
            else f.failed && f.room == 0 && f.written == written + (got + buf[..n])[..room]
  {
    var bytesWritten := f.Write(buf, n);
    BufferPrefix(buf, n, bytesWritten);
    Enough(got, buf[..n], room);
    OneMore(written, got, buf[..bytesWritten]);
    stored := bytesWritten == n;
  }

  /** recv_to_file: one step of an upload. The bytes that the peer has in store go to the file, as far as there is room,
      and the result is what made the reading stop: 0 at the peer's end of stream, EAGAIN when nothing more is there yet,
      or its error; or -1 when there was no room. The buffer is sized at entry, and a shrink in mid-call only makes the
      requests smaller. */
  method RecvToFile(t: Tuning, s: Socket, f: File) returns (result: int, ghost got: seq<byte>)
    requires t.Valid() && !f.failed
    modifies t, s`received, s`ended, s`toRead, f`room, f`failed, f`written
    ensures t.Valid() && s.received == old(s.received) + got
    ensures Lands(Stream(old(s.toRead), old(t.bufferSize) == MAX_NET_BUFFER_SIZE),
                  Verdict(old(s.toRead), old(t.bufferSize) == MAX_NET_BUFFER_SIZE), old(f.room), got, result, f.failed)
    ensures f.written == old(f.written) + (if f.failed then got[..old(f.room)] else got)
    ensures f.room == (if f.failed then 0 else old(f.room) - |got|) && s.ended == (old(s.ended) || result == 0)
  {
    ghost var all := Stream(s.toRead, t.bufferSize == MAX_NET_BUFFER_SIZE);
    ghost var end := Verdict(s.toRead, t.bufferSize == MAX_NET_BUFFER_SIZE);
    var buf := new byte[t.bufferSize];
    got := [];
    ExpectAll(s.toRead, t.bufferSize == MAX_NET_BUFFER_SIZE);
    while true
      invariant t.Valid() && t.bufferSize <= buf.Length && !f.failed && s.ended == old(s.ended)
      invariant s.received == old(s.received) + got && f.written == old(f.written) + got
      invariant |got| <= old(f.room) && f.room == old(f.room) - |got|
      invariant Expects(s.toRead, t.bufferSize == MAX_NET_BUFFER_SIZE, got, all, end)
      decreases Size(s.toRead)
    {
      ghost var answers, large := s.toRead, t.bufferSize == MAX_NET_BUFFER_SIZE;
      var bytesRead := s.Read(buf, t.bufferSize);
      if bytesRead <= 0 {
        ExpectNothing(answers, large, got, all, end, t.bufferSize);
      }
      if bytesRead < 0 {
        if bytesRead == -EINVAL && t.bufferSize == MAX_NET_BUFFER_SIZE {
          t.Shrink();
          continue;
        }
        return bytesRead, got;
      } else if bytesRead == 0 {
        return 0, got;
      }
      ExpectMore(answers, large, got, all, end, bytesRead);
      LeftOverIsShorter(answers, bytesRead);
      OneMore(old(s.received), got, buf[..bytesRead]);
      var stored := Store(f, buf, bytesRead, got, old(f.written), old(f.room));
      got := got + buf[..bytesRead];
      if !stored {
        return -1, got;
      }
    }
  }

  // ---- Transfers step by step

  /** What the file and the socket behind a transfer have gone through between two steps. A download reads `content` from
      `start`, an upload has `received` some bytes and `written` some to its file. `failed` is an error of the file,
      `broken` one of the socket. */
  datatype Progress = Progress(content: seq<byte>, readable: nat, room: nat, start: nat, pos: nat, steps: nat,
                               failed: bool, broken: bool, sent: seq<byte>, received: seq<byte>, ended: bool,
                               written: seq<byte>)

  function Fresh(content: seq<byte>, readable: nat, room: nat, start: nat): Progress {
    Progress(content, readable, room, start, start, 0, false, false, [], [], false, [])
  }

  /** A download that may go on: all that was read was sent, in order. */
  predicate Downloading(p: Progress) {
    && p.start <= p.pos <= |p.content| && p.pos == p.start + p.steps * FREAD_BUFFER_SIZE && !p.failed && !p.broken
    && p.sent == p.content[p.start..p.pos]
  }

  /** A download that is through. */
  predicate Downloaded(p: Progress) {
    && p.start <= |p.content| && p.steps == (|p.content| - p.start) / FREAD_BUFFER_SIZE + 1 && !p.failed && !p.broken
    && p.sent == p.content[p.start..]
  }

  /** An upload that may go on: all that was received was written, in order. */
  predicate Uploading(p: Progress) {
    !p.failed && !p.broken && !p.ended && p.written == p.received
  }

  predicate Uploaded(p: Progress) {
    !p.failed && !p.broken && p.ended && p.written == p.received
  }

  lemma FreshGoesOn(content: seq<byte>, readable: nat, room: nat, start: nat)
    ensures Uploading(Fresh(content, readable, room, start))
    ensures start <= |content| ==> Downloading(Fresh(content, readable, room, start))
  {
  }

  /** A step of a download: the next chunk was read, as far as the file allows, and sent, as far as the socket takes it. */
  ghost predicate DownloadStep(p: Progress, p': Progress, writes: seq<int>, result: int) {
    && p' == p.(pos := NextPos(p.content, p.readable, p.pos, FREAD_BUFFER_SIZE), steps := p.steps + 1,
                failed := p'.pos < Min(p.pos + FREAD_BUFFER_SIZE, |p.content|), broken := p'.broken, sent := p'.sent)
    && p.start <= p'.pos <= |p.content| && p.sent <= p'.sent <= p.content[p.start..p'.pos]
    && if p'.broken then Reports(writes, result) && result !in {0, -EAGAIN} && |p'.sent| < p'.pos - p.start
       else
         && p'.sent == p.content[p.start..p'.pos]
         && result == if p'.failed then -1 else if p'.pos == p.pos + FREAD_BUFFER_SIZE then -EAGAIN else 0
  }

  /** The call of send_from_file that process_data_events makes. */
  method ContinueDownload(t: Tuning, p: Progress, writes: seq<int>) returns (result: int, p': Progress)
    requires t.Valid() && Downloading(p)
    modifies t
    ensures t.Valid() && result <= 0 && DownloadStep(p, p', writes, result)
  {
    var s := new Socket([], writes);
    var f := new File(p.content, p.readable, p.room, p.pos);
    ghost var k;
    result, k := SendFromFile(t, s, f);
    p' := p.(pos := f.pos, steps := p.steps + 1, failed := f.failed, sent := p.sent + s.sent,
             broken := |s.sent| < f.pos - p.pos);
    SentSoFar(p.content, p.start, p.pos, k, f.pos);
    assert s.sent == p.content[p.pos..k];
  }

  lemma SentSoFar(content: seq<byte>, start: nat, pos: nat, k: nat, pos': nat)
    requires start <= pos <= k <= pos' <= |content|
    ensures content[start..pos] + content[pos..k] == content[start..k] <= content[start..pos']
  {
    assert content[start..pos'] == content[start..k] + content[k..pos'];
  }

  /** What a step of a download comes to: it goes on, or is through, or the file or the socket failed. */
  lemma DownloadGoes(p: Progress, p': Progress, writes: seq<int>, result: int)
    requires Downloading(p) && DownloadStep(p, p', writes, result)
    ensures result == -EAGAIN ==> Downloading(p') && p'.pos > p.pos
    ensures result == 0 ==> Downloaded(p')
    ensures result !in {0, -EAGAIN} <==> p'.failed || p'.broken
    ensures result !in {0, -EAGAIN} && !p'.failed ==> p'.sent != p.content[p.start..]
    ensures Healthy(writes) ==> !p'.broken
    ensures p.sent <= p'.sent <= p.content[p.start..]
  {
    assert p.content[p.start..p'.pos] <= p.content[p.start..];
  }

  /** A step of an upload: what the peer has in store goes to the file, as far as there is room. `all` is what it has in
      store, and `end` why there is no more. */
  ghost predicate UploadStep(p: Progress, p': Progress, all: seq<byte>, end: int, result: int) {
    if |all| <= p.room then
      && result == end
      && p' == p.(room := p.room - |all|, received := p.received + all, written := p.written + all, ended := end == 0,
                  broken := end !in {0, -EAGAIN})
    else
      && result == -1
      && p' == p.(room := 0, received := p'.received, written := p.written + all[..p.room], failed := true)
      && exists n | p.room < n <= |all| :: p'.received == p.received + all[..n]
  }

  /** The call of recv_to_file that process_data_events makes. */
  method ContinueUpload(t: Tuning, p: Progress, turn: seq<Answer>) returns (result: int, p': Progress)
    requires t.Valid() && Uploading(p)
    modifies t
    ensures t.Valid() && result <= 0
    ensures var large := old(t.bufferSize) == MAX_NET_BUFFER_SIZE;
      UploadStep(p, p', Stream(turn, large), Verdict(turn, large), result)
  {
    ghost var all := Stream(turn, t.bufferSize == MAX_NET_BUFFER_SIZE);
    var s := new Socket(turn, []);
    var f := new File([], 0, p.room, 0);
    ghost var got;
    result, got := RecvToFile(t, s, f);
    p' := p.(room := f.room, failed := f.failed, received := p.received + s.received, written := p.written + f.written,
             ended := result == 0, broken := !f.failed && result !in {0, -EAGAIN});
    assert [] + got == got == all[..|got|];
    assert f.failed ==> [] + got[..p.room] == all[..p.room];
    assert !f.failed ==> got == all;
  }

  lemma UploadGoes(p: Progress, p': Progress, all: seq<byte>, end: int, result: int)
    requires Uploading(p) && UploadStep(p, p', all, end, result)
    ensures result == -EAGAIN <==> Uploading(p')
    ensures result == 0 <==> Uploaded(p')
    ensures result == 0 <==> p'.ended
    ensures result !in {0, -EAGAIN} <==> p'.failed || p'.broken
    ensures p'.failed <==> p'.written != p'.received
    ensures p.received <= p'.received && p.written <= p'.written <= p'.received
  {
    if |all| > p.room {
      var n :| p.room < n <= |all| && p'.received == p.received + all[..n];
      assert all[..n] == all[..p.room] + all[p.room..n];
      assert p.received + all[..n] == p.received + all[..p.room] + all[p.room..n];
    }
  }

  // ---- Whole transfers

  /** The reply that closes a data connection whose last step gave `result`. */
  function CompletionCode(result: int): int {
    if result < 0 then 520 else 226
  }

  /** Other transfers and replies of the same program run may meet the EINVAL first. */
  method Elsewhere(t: Tuning, shrink: bool)
    requires t.Valid()
    modifies t
    ensures t.Valid() && t.shrinks >= old(t.shrinks)
    ensures t.bufferSize == if shrink then MIN_NET_BUFFER_SIZE else old(t.bufferSize)
  {
    if shrink && t.bufferSize == MAX_NET_BUFFER_SIZE {
      t.Shrink();
    }
  }

  /** Where reading starts after a seek to `marker`: at the end, when that lies beyond it. */
  function StartOf(marker: nat, content: seq<byte>): nat {
    Min(marker, |content|)
  }

  /** A connected RETR: the steps process_data_events takes until the callback asks for no more. 226 is the reply
      exactly when everything from the restart marker on was delivered, in order, and read without error; and then
      the number of steps is one more than the number of full chunks. That is so whenever the file can be read and the
      socket takes something of every write. In any case a prefix was delivered. */
  method Download(t: Tuning, content: seq<byte>, readable: nat, marker: nat, writes: nat -> seq<int>, shrink: nat -> bool)
    returns (code: int, p: Progress)
    requires t.Valid()
    modifies t
    ensures t.Valid() && code in {226, 520}
    ensures code == 226 <==> !p.failed && p.sent == content[StartOf(marker, content)..]
    ensures code == 226 ==> p.steps == (|content| - StartOf(marker, content)) / FREAD_BUFFER_SIZE + 1
    ensures p.sent <= content[StartOf(marker, content)..]
    ensures (forall i :: Healthy(writes(i))) && |content| <= readable ==> code == 226
  {
    p := Fresh(content, readable, 0, StartOf(marker, content));
    FreshGoesOn(content, readable, 0, StartOf(marker, content));
    var result := -EAGAIN;
    while result == -EAGAIN
      invariant t.Valid() && result <= 0 && p.content == content && p.start == StartOf(marker, content) && p.readable == readable
      invariant p.start <= p.pos <= |content| && p.sent <= content[p.start..]
      invariant result == -EAGAIN ==> Downloading(p)
      invariant result == 0 ==> Downloaded(p)
      invariant result !in {0, -EAGAIN} ==> p.failed || p.sent != content[p.start..]
      invariant (forall i :: Healthy(writes(i))) && |content| <= readable ==> result in {0, -EAGAIN}
      decreases if result == -EAGAIN then 1 else 0, |content| - p.pos
    {
      Elsewhere(t, shrink(p.steps));
      ghost var before := p;
      result, p := ContinueDownload(t, p, writes(p.steps));
      DownloadGoes(before, p, writes(before.steps), result);
    }
    code := CompletionCode(result);
  }

  /** The bytes of a turn of the peer, however they are cut into pieces. */
  function Sent(turn: seq<Answer>): seq<byte> {
    if turn == [] then [] else (if turn[0].Bytes? then turn[0].data else []) + Sent(turn[1..])
  }

  /** The peer has bytes in store, in pieces, and no end of the stream and no error. */
  predicate Sends(turn: seq<Answer>) {
    forall a | a in turn :: a.Bytes? && a.data != []
  }

  /** And then the end of the stream. */
  predicate Finishes(turn: seq<Answer>) {
    turn != [] && turn[|turn| - 1] == Bytes([]) && Sends(turn[..|turn| - 1])
  }

  lemma {:induction false} StreamOfTurn(turn: seq<Answer>, large: bool)
    requires Sends(turn) || Finishes(turn)
    ensures Stream(turn, large) == Sent(turn) && Verdict(turn, large) == if Sends(turn) then -EAGAIN else 0
  {
    if turn != [] {
      var rest := turn[1..];
      if Finishes(turn) {
        if |turn| > 1 {
          assert turn[0] == turn[..|turn| - 1][0] && rest[..|rest| - 1] == turn[..|turn| - 1][1..];
          StreamOfTurn(rest, large);
          assert Bytes([]) in turn && Bytes([]) in rest;
        } else {
          assert Sent(rest) == [] && turn[0] in turn;
        }
      } else {
        assert turn[0] in turn && forall a | a in rest :: a in turn;
        StreamOfTurn(rest, large);
      }
    }
  }

  function Whole(turns: seq<seq<Answer>>): seq<byte> {
    if turns == [] then [] else Whole(turns[..|turns| - 1]) + Sent(turns[|turns| - 1])
  }

  /** A peer that sends its bytes in any pieces, over any number of turns, and then closes. */
  ghost predicate Complete(turns: seq<seq<Answer>>) {
    turns != [] && Finishes(turns[|turns| - 1]) && forall i | 0 <= i < |turns| - 1 :: Sends(turns[i])
  }

  lemma {:induction false} WholeGrows(turns: seq<seq<Answer>>, n: nat)
    requires n < |turns|
    ensures Whole(turns[..n + 1]) == Whole(turns[..n]) + Sent(turns[n]) && |Whole(turns[..n + 1])| <= |Whole(turns)|
    decreases |turns| - n
  {
    assert turns[..n + 1][..n] == turns[..n];
    if n + 1 < |turns| {
      WholeGrows(turns, n + 1);
    } else {
      assert turns[..n + 1] == turns;
    }
  }

  /** A connected STOR or APPE over some events, at each of which the peer has something in store. While it goes on (no
      code yet), and when it ends well, the file has gained exactly the bytes received. 226 is the reply exactly when the
      peer's end of stream was reached with every byte in the file, and anything else that stops it ends in 520. So a peer
      that sends its bytes in any pieces and closes gets a 226 if there is room, and the file is what it sent. */
  method Upload(t: Tuning, room: nat, turns: seq<seq<Answer>>, shrink: nat -> bool) returns (code: int, p: Progress)
    requires t.Valid()
    modifies t
    ensures t.Valid() && code in {0, 226, 520}
    ensures p.written <= p.received && (p.failed <==> p.written != p.received)
    ensures code == 226 <==> p.ended && !p.failed
    ensures code == 520 <==> p.failed || p.broken
    ensures Complete(turns) && |Whole(turns)| <= room ==> code == 226 && p.written == p.received == Whole(turns)
  {
    p := Fresh([], 0, room, 0);
    FreshGoesOn([], 0, room, 0);
    code := 0;
    for turn := 0 to |turns|
      invariant t.Valid() && code == 0 && Uploading(p)
      invariant Complete(turns) && |Whole(turns)| <= room ==>
        turn < |turns| && p.written == Whole(turns[..turn]) && p.room == room - |Whole(turns[..turn])|
    {
      Elsewhere(t, shrink(turn));
      ghost var before, large := p, t.bufferSize == MAX_NET_BUFFER_SIZE;
      var result;
      result, p := ContinueUpload(t, p, turns[turn]);
      UploadGoes(before, p, Stream(turns[turn], large), Verdict(turns[turn], large), result);
      WholeGrows(turns, turn);
      if Complete(turns) {
        StreamOfTurn(turns[turn], large);
        assert turn < |turns| - 1 ==> Sends(turns[turn]);
        LastTurn(turns[turn]);
      }
      if result != -EAGAIN {
        assert turns[..|turns|] == turns;
        return CompletionCode(result), p;
      }
    }
  }

  lemma LastTurn(turn: seq<Answer>)
    ensures Finishes(turn) ==> !Sends(turn)
  {
    if Finishes(turn) {
      assert Bytes([]) in turn;
    }
  }
}
