/** The FTP server (ftp.c): the client table, commands, data connections, and the event loop over them.
    Sockets, files and their answers are the outside world. Every method accounts for the descriptors it opens and
    closes and logs the events it causes. */
module Server {
  import opened Resources
  import opened CStrings
  import opened Commands
  import opened Journals
  import opened Sessions
  import opened Splitting
  import Framing
  import Net
  import Vrt

  const MAX_CLIENTS: nat := 5
  const EAGAIN: int := Net.EAGAIN
  const EISCONN: int := 127
  const EINPROGRESS: int := 119
  const EALREADY: int := 120
  const EQUIT: int := 696969
  /** Seconds to wait for a data connection. */
  const DATA_TIMEOUT: nat := 30

  datatype Callback = NoCallback | SendFromFile | RecvToFile | SendList | SendNlst

  class Client {
    /** A number of its own for every connection. */
    ghost const id: nat
    const socket: int
    const control: Framing.LineBuffer
    var passiveSocket: int
    var dataSocket: int
    var cwd: Vrt.Cwd
    var pendingRename: CString
    var restartMarker: nat
    var authenticated: bool
    var connected: bool
    var callback: Callback
    /** The file or directory handle that the transfer works on. */
    var arg: Option<nat>
    /** Whether the handle is to be closed by the cleanup. */
    var cleanup: bool
    var timer: nat
    /** What the file and the socket behind the transfer have gone through. */
    var progress: Net.Progress

    /** The descriptors that the client's fields name; the borrowed passive socket counts once. */
    ghost function Fds(): set<int>
      reads `passiveSocket, `dataSocket
    {
      {socket} + (if passiveSocket >= 0 then {passiveSocket} else {}) + if dataSocket >= 0 then {dataSocket} else {}
    }

    /** The handles that the client's fields name. */
    ghost function Held(): set<nat>
      reads `arg
    {
      if arg.Some? then {arg.value} else {}
    }

    /** The data connection's fields agree. Without a callback everything is clear; a transfer waiting in passive mode
        borrows the passive socket, and a connected one has a socket of its own. */
    ghost predicate Shape()
      reads `callback, `passiveSocket, `dataSocket, `connected, `arg, `cleanup, `timer, `progress
    {
      && socket >= 0 && socket != passiveSocket && socket != dataSocket
      && if callback == NoCallback
         then dataSocket == -1 && arg == None && !cleanup && !connected && timer == 0
         else
           && dataSocket >= 0 && arg.Some? && cleanup
           && (dataSocket == passiveSocket <==> !connected && passiveSocket >= 0)
           && OnTrack(callback, progress)
    }

    ghost function Standing(): Phase
      reads `callback
    {
      if callback == NoCallback then Ready else Transferring
    }

    constructor (ghost id: nat, socket: int)
      requires socket >= 0
      ensures this.id == id && this.socket == socket && fresh(control) && fresh(control.buf)
      ensures control.Valid() && !control.paused && control.offset == 0 && control.received == "" && control.consumed == []
      ensures Shape() && callback == NoCallback && passiveSocket == -1 && !authenticated
      ensures cwd == "/" && pendingRename == "" && restartMarker == 0
    {
      this.id, this.socket := id, socket;
      control := new Framing.LineBuffer();
      passiveSocket, dataSocket, cwd, pendingRename, restartMarker := -1, -1, Vrt.RootCwd(), "", 0;
      authenticated, connected, callback, arg, cleanup, timer := false, false, NoCallback, None, false, 0;
      progress := Net.Fresh([], 0, 0, 0);
    }
  }

  /** A transfer that may go on: nothing was lost so far. */
  predicate OnTrack(callback: Callback, p: Net.Progress) {
    && (callback == SendFromFile ==> Net.Downloading(p))
    && (callback == RecvToFile ==> Net.Uploading(p))
  }

  /** Where a file transfer begins: a download at the restart marker, or at the end of a shorter file, a STOR at the marker,
      and an APPE at the end of the file, wherever that is. */
  function Outset(h: Handler, marker: nat, out: Outside): (p: Net.Progress)
    ensures if h == Retr then Net.Downloading(p) else Net.Uploading(p)
  {
    Net.FreshGoesOn(out.content, out.readable, 0, Net.StartOf(marker, out.content));
    var at := if h == Stor then marker else 0;
    Net.FreshGoesOn([], 0, out.room, at);
    if h == Retr then Net.Fresh(out.content, out.readable, 0, Net.StartOf(marker, out.content)) else Net.Fresh([], 0, out.room, at)
  }

  /** A transfer whose callback reported the end: all of it went through. */
  predicate Completed(callback: Callback, p: Net.Progress) {
    && (callback == SendFromFile ==> Net.Downloaded(p))
    && (callback == RecvToFile ==> Net.Uploaded(p))
  }

  /** What the outside world has in store for one data event of a client. */
  datatype Peer = Peer(
    answer: int,                      // net_accept or net_connect: an error when negative
    now: nat,                         // gettime
    shrunk: bool,                     // did somebody else's transfer meet the EINVAL before
    arrived: seq<Net.Answer>,         // what can be read from the data connection
    takes: seq<int>,                  // what its writes are answered
    listed: int,                      // the result of sending a listing
    told: bool                        // can the completion be written
  )

  /** While there is no data connection: it is there now (1), or the time is over (-1), or the wait goes on, or it
      failed. A connect that is under way is waited for, and one that was there already counts. */
  predicate Awaited(passive: bool, timer: nat, peer: Peer, result: int) {
    var there := peer.answer >= 0 || (!passive && peer.answer == -EISCONN);
    && (there ==> result == 1)
    && (!there && peer.now > timer ==> result == -1)
    && (!there && peer.now <= timer ==>
          result == if !passive && peer.answer in {-EINPROGRESS, -EALREADY} then -EAGAIN else peer.answer)
  }

  /** A step of the transfer, as Net does it, with large buffers or small ones; a listing takes one step. */
  ghost predicate Steps(callback: Callback, p: Net.Progress, p': Net.Progress, large: bool, peer: Peer, result: int) {
    match callback
    case SendFromFile => Net.DownloadStep(p, p', peer.takes, result)
    case RecvToFile =>
      Net.UploadStep(p, p', Net.Stream(peer.arrived, large), Net.Verdict(peer.arrived, large), result)
    case _ => p' == p && result == if peer.listed < 0 && peer.listed != -EAGAIN then peer.listed else 0
  }

  /** What the commands of a connection work on: the client's own state, and the server's password and reset flag. */
  datatype Session = Session(cwd: Vrt.Cwd, pendingRename: CString, marker: nat, authenticated: bool, passiveSocket: int,
                             callback: Callback, connected: bool, timer: nat, progress: Net.Progress,
                             password: Option<string>, reset: bool)

  /** What handler `h` leaves alone. */
  predicate Keeps(h: Handler, s: Session, s': Session) {
    && (h !in {Cwd, Cdup, Rein} ==> s'.cwd == s.cwd)
    && (h !in {Rnfr, Rnto} ==> s'.pendingRename == s.pendingRename)
    && (h !in {Rest, Retr, Stor} ==> s'.marker == s.marker)
    && (h !in {Pass, Rein} ==> s'.authenticated == s.authenticated)
    && (h !in {Pasv, Port, Rein} ==> s'.passiveSocket == s.passiveSocket)
    && (!StartsTransfer(h) ==> s'.callback == s.callback && s'.progress == s.progress)
    && (h != Site ==> s'.password == s.password && s'.reset == s.reset)
  }

  /** The log after the one reply of handler `h`. */
  function Replied(before: seq<Event>, id: nat, h: Handler, argument: string, code: int, out: Outside): seq<Event> {
    before + [Run(id, h, argument)] + [Reply(id, code, out.delivered)]
  }

  /** One more handle was lost, or none; behind one case. */
  ghost predicate LosesOne(before: set<nat>, after: set<nat>, lost: bool) {
    forall l: bool | l == lost :: MoreLost(before, after, l)
  }

  ghost predicate MoreLost(before: set<nat>, after: set<nat>, lost: bool) {
    && before <= after && |after| == |before| + (if lost then 1 else 0)
    && (!lost ==> after == before)
  }

  lemma NoneLost(leaked: set<nat>)
    ensures LosesOne(leaked, leaked, false)
  {
  }

  lemma LostMore(before: set<nat>, after: set<nat>, lost: bool)
    requires LosesOne(before, after, lost)
    ensures MoreLost(before, after, lost)
  {
  }

  /** What prepare_data_connection logs: 150, and the 520 when no data connection could be set up after it. */
  function Announced(before: seq<Event>, id: nat, passiveSocket: int, out: Outside): seq<Event> {
    if !out.delivered then before + [Reply(id, 150, false)]
    else if out.Connects(passiveSocket) then before + [Reply(id, 150, true)]
    else before + [Reply(id, 150, true)] + [SetupFailed(id)] + [Reply(id, 520, out.told)]
  }

  /** What a transfer command adds to the log: an announcement and what followed when its file or directory could be
      opened, else a refusal. */
  function TransferLog(before: seq<Event>, run: Event, found: bool, passiveSocket: int, out: Outside): seq<Event> {
    if found then Announced(before + [run], run.id, passiveSocket, out)
    else before + [run] + [Reply(run.id, 550, out.delivered)]
  }

  /** The end of a transfer command, for a file or directory that was `found` or not: 550, or the announcement, and then the
      transfer if there is a data connection to set up; behind one case. */
  ghost predicate Started(h: Handler, argument: string, callback: Callback, found: bool, progress: Net.Progress, out: Outside,
                          id: nat, s: Session, s': Session, before: seq<Event>, log: seq<Event>) {
    forall c: Callback | c == callback :: StartedAs(h, argument, c, found, progress, out, id, s, s', before, log)
  }

  ghost predicate StartedAs(h: Handler, argument: string, callback: Callback, found: bool, progress: Net.Progress, out: Outside,
                            id: nat, s: Session, s': Session, before: seq<Event>, log: seq<Event>) {
    && s' == s.(callback := s'.callback, connected := s'.connected, timer := s'.timer, progress := s'.progress)
    && log == TransferLog(before, Run(id, h, argument), found, s.passiveSocket, out)
    && s'.callback == (if out.Starts(found, s.passiveSocket) then callback else NoCallback)
    && (s'.callback != NoCallback ==> s'.progress == progress && s'.timer == out.now + DATA_TIMEOUT && !s'.connected)
  }

  lemma StartedNot(h: Handler, argument: string, callback: Callback, progress: Net.Progress, out: Outside,
                   id: nat, s: Session, before: seq<Event>)
    requires s.callback == NoCallback
    ensures Started(h, argument, callback, false, progress, out, id, s, s, before,
                    before + [Run(id, h, argument)] + [Reply(id, 550, out.delivered)])
  {
  }

  lemma StartedFound(h: Handler, argument: string, callback: Callback, progress: Net.Progress, out: Outside,
                     id: nat, s: Session, s': Session, before: seq<Event>)
    requires s' == s.(callback := s'.callback, connected := s'.connected, timer := s'.timer, progress := s'.progress)
    requires s'.callback == if out.Starts(true, s.passiveSocket) then callback else NoCallback
    requires s'.callback != NoCallback ==> s'.progress == progress && s'.timer == out.now + DATA_TIMEOUT && !s'.connected
    ensures Started(h, argument, callback, true, progress, out, id, s, s', before,
                    Announced(before + [Run(id, h, argument)], id, s.passiveSocket, out))
  {
  }

  /** The callback that a transfer command hands over. */
  function CallbackOf(h: Handler): Callback {
    match h
    case List => SendList
    case Nlst => SendNlst
    case Retr => SendFromFile
    case Stor | Appe => RecvToFile
    case _ => NoCallback
  }

  lemma OutsetOnTrack(h: Handler, marker: nat, out: Outside)
    requires h == Retr || h == Stor || h == Appe
    ensures CallbackOf(h) != NoCallback && OnTrack(CallbackOf(h), Outset(h, marker, out))
  {
  }

  /** The turn of a transfer: a step of it when it is connected, else a look whether it is now; behind one case. */
  ghost predicate TurnFits(callback: Callback, connected: bool, passive: bool, timer: nat, p: Net.Progress, p': Net.Progress,
                           large: bool, peer: Peer, result: int) {
    forall r: int | r == result ::
      if connected then Steps(callback, p, p', large, peer, r) else Awaited(passive, timer, peer, r) && p' == p
  }

  lemma TurnConnected(callback: Callback, passive: bool, timer: nat, p: Net.Progress, p': Net.Progress, large: bool, peer: Peer,
                      result: int)
    requires Steps(callback, p, p', large, peer, result)
    ensures TurnFits(callback, true, passive, timer, p, p', large, peer, result)
  {
  }

  lemma TurnAwaited(callback: Callback, passive: bool, timer: nat, p: Net.Progress, large: bool, peer: Peer, result: int)
    requires Awaited(passive, timer, peer, result)
    ensures TurnFits(callback, false, passive, timer, p, p, large, peer, result)
  {
  }

  lemma TurnMeans(callback: Callback, connected: bool, passive: bool, timer: nat, p: Net.Progress, p': Net.Progress, large: bool,
                  peer: Peer, result: int)
    requires TurnFits(callback, connected, passive, timer, p, p', large, peer, result) && OnTrack(callback, p)
    ensures if connected then Steps(callback, p, p', large, peer, result) else Awaited(passive, timer, peer, result) && p' == p
    ensures result == 0 ==> connected && Completed(callback, p')
  {
    if connected {
      assert Steps(callback, p, p', large, peer, result);
      StepMeans(callback, p, p', large, peer, result);
    } else {
      assert Awaited(passive, timer, peer, result);
    }
  }

  /** What the result of a step means: 0 that the transfer is completed, EAGAIN that it goes on, and for a file any other
      that the file or the socket failed. */
  lemma StepMeans(callback: Callback, p: Net.Progress, p': Net.Progress, large: bool, peer: Peer, result: int)
    requires OnTrack(callback, p) && Steps(callback, p, p', large, peer, result)
    ensures result <= 0 && (result == 0 ==> Completed(callback, p')) && (result == -EAGAIN ==> OnTrack(callback, p'))
    ensures callback in {SendFromFile, RecvToFile} ==> (result !in {0, -EAGAIN} <==> p'.failed || p'.broken)
    ensures callback == SendFromFile && result !in {0, -EAGAIN} && !p'.failed ==> p'.sent != p'.content[p'.start..]
    ensures callback == RecvToFile ==> (result == 0 <==> p'.ended) && (p'.failed <==> p'.written != p'.received)
    ensures SameFile(p, p')
  {
    if callback == SendFromFile {
      Net.DownloadGoes(p, p', peer.takes, result);
    } else if callback == RecvToFile {
      Net.UploadGoes(p, p', Net.Stream(peer.arrived, large), Net.Verdict(peer.arrived, large), result);
    }
  }

  predicate SameFile(p: Net.Progress, p': Net.Progress) {
    p'.content == p.content && p'.start == p.start && p.received <= p'.received
  }

  /** What the outside world answers to one command. */
  datatype Outside = Outside(
    delivered: bool,              // can the first reply be written
    told: bool,                   // and the 520 for a transfer that could not be set up
    granted: bool,                // net_socket
    bound: bool,                  // net_bind
    listens: bool,                // net_listen
    fs: string -> Vrt.Stat,       // stat of a real path
    fopen: string -> bool,        // fopen of a real path
    diropen: string -> bool,      // diropen of a real path
    content: seq<Net.byte>,       // the file that fopen opens
    readable: nat,                // up to where it can be read
    room: nat,                    // and how much can be written to it
    seeks: bool,                  // lseek to the restart marker
    done: bool,                   // any other operation on files or devices
    now: nat,                     // gettime
    offset: Option<int>,          // what sscanf reads for REST
    wellFormed: bool              // whether sscanf reads an address for PORT
  ) {
    /** A data connection can be set up: in passive mode always, in active mode if there is a socket and it binds. */
    predicate Connects(passiveSocket: int) {
      passiveSocket >= 0 || (granted && bound)
    }

    /** Some reply of a transfer command cannot be delivered. */
    predicate Fails(found: bool, passiveSocket: int) {
      !delivered || (found && !Connects(passiveSocket) && !told)
    }

    /** A transfer command starts its transfer. */
    predicate Starts(found: bool, passiveSocket: int) {
      found && delivered && Connects(passiveSocket)
    }

    /** The setup fails after the 150, and the client can be told. */
    predicate Loses(passiveSocket: int) {
      delivered && !Connects(passiveSocket) && told
    }
  }

  /** What net_accept on the listening socket has in store: an error, or a connection, and whether it can be greeted. */
  datatype Knock = AcceptFails | Knocks(greeted: bool)

  /** What the outside world has in store for one client in one round of events. */
  datatype Visitor = Visitor(peer: Peer, incoming: seq<Read>, outs: nat -> nat -> Outside)

  /** And for the server: who knocks, and what each slot's client meets. */
  datatype Round = Round(knocks: seq<Knock>, visitors: nat -> Visitor)

  predicate Opens(r: Vrt.RealPath, fopen: string -> bool) {
    r.Real? && r.path != "" && fopen(r.path)
  }

  predicate Lists(r: Vrt.RealPath, diropen: string -> bool) {
    r.Real? && (r.path == "" || diropen(r.path))
  }

  function NonEmpty(lines: seq<string>): seq<string> {
    if lines == [] then []
    else
      var last := lines[|lines| - 1];
      NonEmpty(lines[..|lines| - 1]) + if last == "" then [] else [last]
  }

  ghost function Occupied(clients: seq<Client?>): nat {
    if clients == [] then 0
    else Occupied(clients[..|clients| - 1]) + if clients[|clients| - 1] == null then 0 else 1
  }

  lemma {:induction false} OccupiedFewer(clients: seq<Client?>, was: seq<Client?>)
    requires |clients| == |was| && forall k | 0 <= k < |was| :: clients[k] == was[k] || clients[k] == null
    ensures Occupied(clients) <= Occupied(was)
  {
    if clients != [] {
      OccupiedFewer(clients[..|clients| - 1], was[..|was| - 1]);
    }
  }

  lemma NonEmptyOne(lines: seq<string>, line: string)
    ensures NonEmpty(lines + [line]) == NonEmpty(lines) + if line == "" then [] else [line]
  {
    assert (lines + [line])[..|lines|] == lines;
  }

  /** One turn of the scan for lines: nothing complete is left, it goes on at `next`, or the connection must close. */
  datatype Turn = Quiet | More(next: nat) | Stop(end: Framing.End)

  /** What a read led to: another read, waiting for the peer, a lost peer, or a close for the framer's reasons. */
  datatype Pause = Again | Waiting | Lost | Closed(end: Framing.End)

  /** What a client's control connection answers to a read: EAGAIN, another error, or bytes, of which the read takes as many
      as it has room for; no bytes are the end of the stream. */
  datatype Read = Silence | Broken | Bytes(data: string)

  /** The next answer to a read of `room` bytes; nothing in store is EAGAIN. */
  function NextRead(incoming: seq<Read>, room: nat): Read {
    if incoming == [] then Silence
    else match incoming[0]
      case Bytes(data) => Bytes(if |data| <= room then data else data[..room])
      case _ => incoming[0]
  }

  /** What is in store after that read. */
  function AfterRead(incoming: seq<Read>, room: nat): seq<Read> {
    if incoming == [] then []
    else match incoming[0]
      case Bytes(data) => if |data| <= room then incoming[1..] else [Bytes(data[room..])] + incoming[1..]
      case _ => incoming[1..]
  }

  /** A read that loses the connection: an error, the end of the stream, or a NUL among the bytes. */
  predicate Fatal(read: Read) {
    read == Broken || (read.Bytes? && (read.data == "" || NUL in read.data))
  }

  /** The bytes that reads brought in. */
  function Gathered(taken: seq<Read>): string {
    if taken == [] then ""
    else
      var last := taken[|taken| - 1];
      Gathered(taken[..|taken| - 1]) + if last.Bytes? then last.data else ""
  }

  /** `taken` are answers that were in store, in order and nothing left out, and `left` is what still is. */
  ghost predicate Taken(incoming: seq<Read>, taken: seq<Read>, left: seq<Read>) {
    if taken == [] then left == incoming
    else
      exists before, room: nat | room > 0 ::
        && Taken(incoming, taken[..|taken| - 1], before)
        && taken[|taken| - 1] == NextRead(before, room) && left == AfterRead(before, room)
  }

  function InStore(incoming: seq<Read>): nat {
    if incoming == [] then 0 else 1 + (if incoming[0].Bytes? then |incoming[0].data| else 0) + InStore(incoming[1..])
  }

  lemma StoreShrinks(incoming: seq<Read>, room: nat)
    requires room > 0
    ensures incoming != [] ==> InStore(AfterRead(incoming, room)) < InStore(incoming)
  {
    if incoming != [] && incoming[0].Bytes? && |incoming[0].data| > room {
      assert AfterRead(incoming, room)[1..] == incoming[1..];
    }
  }

  /** How a run of reads ended: with EAGAIN, with a read that lost the connection, or after some bytes, which the framer
      or a command made the end. */
  ghost predicate EndedBy(taken: seq<Read>, pause: Pause) {
    && taken != []
    && (forall i | 0 <= i < |taken| - 1 :: taken[i] != Silence && !Fatal(taken[i]))
    && (pause.Lost? <==> Fatal(taken[|taken| - 1]))
    && (pause.Waiting? <==> taken[|taken| - 1] == Silence)
  }

  /** What a run of reads has done so far, `pause` being where it stands; behind one case. */
  ghost predicate ReadUpTo(incoming: seq<Read>, taken: seq<Read>, left: seq<Read>, pause: Pause) {
    forall ts: seq<Read> | ts == taken ::
      Taken(incoming, ts, left) && if ts == [] then pause == Again else EndedBy(ts, pause)
  }

  lemma ReadOneMore(incoming: seq<Read>, taken: seq<Read>, left: seq<Read>, room: nat, before: string, pause: Pause)
    requires ReadUpTo(incoming, taken, left, Again) && room > 0
    requires var read := NextRead(left, room); (pause.Lost? <==> Fatal(read)) && (pause.Waiting? <==> read == Silence)
    ensures var read := NextRead(left, room);
      && ReadUpTo(incoming, taken + [read], AfterRead(left, room), pause)
      && before + Gathered(taken + [read]) == before + Gathered(taken) + if read.Bytes? then read.data else ""
  {
    var more := taken + [NextRead(left, room)];
    assert more[..|taken|] == taken;
    assert Taken(incoming, more, AfterRead(left, room));
    assert EndedBy(more, pause);
  }

  lemma ReadAll(incoming: seq<Read>, taken: seq<Read>, left: seq<Read>, pause: Pause)
    requires ReadUpTo(incoming, taken, left, pause) && taken != []
    ensures Taken(incoming, taken, left) && EndedBy(taken, pause)
  {
  }

  /** What became of a connection attempt. */
  datatype Arrival =
    | Nobody                  // there was none
    | Failed                  // accepting it failed
    | Full                    // there was no slot left
    | Ungreeted               // the greeting could not be delivered
    | Seated                  // there is a new client

  /** What becomes of a connection attempt while there are `n` clients; nothing in store is EAGAIN. */
  function ArrivalOf(knocks: seq<Knock>, n: nat): Arrival {
    if knocks == [] then Nobody
    else match knocks[0]
      case AcceptFails => Failed
      case Knocks(greeted) => if n == MAX_CLIENTS then Full else if greeted then Seated else Ungreeted
  }

  /** And of all of them: accepting goes on until nobody is there, accepting fails, or the table is full. */
  function Arrivals(knocks: seq<Knock>, n: nat): seq<Arrival> {
    var a := ArrivalOf(knocks, n);
    [a] + match a
          case Seated => Arrivals(knocks[1..], n + 1)
          case Ungreeted => Arrivals(knocks[1..], n)
          case _ => []
  }

  function Seats(arrivals: seq<Arrival>): nat {
    if arrivals == [] then 0 else (if arrivals[0].Seated? then 1 else 0) + Seats(arrivals[1..])
  }

  /** What a connection attempt logs. */
  function ArrivalEvents(a: Arrival, id: nat): seq<Event> {
    match a
    case Seated => [Event.Connect(id), Reply(id, 220, true)]
    case Ungreeted => [Event.Connect(id), Reply(id, 220, false), Hangup(id)]
    case _ => []
  }

  function ArrivalLog(arrivals: seq<Arrival>, ids: seq<nat>): seq<Event>
    requires |ids| == |arrivals|
  {
    if arrivals == [] then [] else ArrivalEvents(arrivals[0], ids[0]) + ArrivalLog(arrivals[1..], ids[1..])
  }

  /** Accepting goes on. */
  predicate GoesOn(a: Arrival) {
    a == Seated || a == Ungreeted
  }

  /** `came` are the attempts dealt with so far, `a` being the last one, and `store` is what is left; behind one case. */
  ghost predicate CameSoFar(knocks: seq<Knock>, n: nat, came: seq<Arrival>, store: seq<Knock>, m: nat, a: Arrival) {
    forall cs: seq<Arrival> | cs == came :: CameAs(knocks, n, cs, store, m, a)
  }

  ghost predicate CameAs(knocks: seq<Knock>, n: nat, came: seq<Arrival>, store: seq<Knock>, m: nat, a: Arrival) {
    && Arrivals(knocks, n) == came + (if GoesOn(a) then Arrivals(store, m) else []) && m == n + Seats(came)
    && (Failed in came <==> a == Failed)
  }

  lemma CameNone(knocks: seq<Knock>, n: nat)
    ensures CameSoFar(knocks, n, [], knocks, n, Seated)
  {
    assert [] + Arrivals(knocks, n) == Arrivals(knocks, n);
  }

  lemma CameOne(knocks: seq<Knock>, n: nat, came: seq<Arrival>, store: seq<Knock>, m: nat, a: Arrival)
    requires CameSoFar(knocks, n, came, store, m, a) && GoesOn(a)
    ensures var next := ArrivalOf(store, m);
      CameSoFar(knocks, n, came + [next], if GoesOn(next) then store[1..] else store, m + (if next == Seated then 1 else 0), next)
  {
    assert CameAs(knocks, n, came, store, m, a);
    SeatsOne(came, ArrivalOf(store, m));
    NextArrival(store, m, came);
  }

  lemma NextArrival(store: seq<Knock>, m: nat, came: seq<Arrival>)
    ensures var next := ArrivalOf(store, m);
      came + Arrivals(store, m) ==
      came + [next] + if GoesOn(next) then Arrivals(store[1..], m + if next == Seated then 1 else 0) else []
  {
    var next := ArrivalOf(store, m);
    var more := if GoesOn(next) then Arrivals(store[1..], m + if next == Seated then 1 else 0) else [];
    assert came + ([next] + more) == came + [next] + more;
  }

  lemma CameAll(knocks: seq<Knock>, n: nat, came: seq<Arrival>, store: seq<Knock>, m: nat, a: Arrival)
    requires CameSoFar(knocks, n, came, store, m, a) && !GoesOn(a)
    ensures came == Arrivals(knocks, n) && m == n + Seats(came) && (a == Failed <==> Failed in came)
  {
    assert CameAs(knocks, n, came, store, m, a);
    assert came + [] == came;
  }

  lemma {:induction false} SeatsOne(came: seq<Arrival>, a: Arrival)
    ensures Seats(came + [a]) == Seats(came) + if a == Seated then 1 else 0
  {
    if came == [] {
      assert came + [a] == [a];
    } else {
      assert (came + [a])[1..] == came[1..] + [a];
      SeatsOne(came[1..], a);
    }
  }

  lemma {:induction false} ArrivalLogOne(came: seq<Arrival>, ids: seq<nat>, a: Arrival, id: nat)
    requires |ids| == |came|
    ensures ArrivalLog(came + [a], ids + [id]) == ArrivalLog(came, ids) + ArrivalEvents(a, id)
  {
    if came == [] {
      assert came + [a] == [a] && ids + [id] == [id];
    } else {
      assert (came + [a])[1..] == came[1..] + [a] && (ids + [id])[1..] == ids[1..] + [id];
      ArrivalLogOne(came[1..], ids[1..], a, id);
      EventsApart(ArrivalEvents(came[0], ids[0]), ArrivalLog(came[1..], ids[1..]), ArrivalEvents(a, id));
    }
  }

  /** `events` are what the attempts logged; behind one case. */
  ghost predicate Logged(events: seq<Event>, came: seq<Arrival>, ids: seq<nat>) {
    forall cs: seq<Arrival> | cs == came :: LoggedAs(events, cs, ids)
  }

  ghost predicate LoggedAs(events: seq<Event>, came: seq<Arrival>, ids: seq<nat>) {
    |ids| == |came| && events == ArrivalLog(came, ids)
  }

  lemma LoggedNone()
    ensures Logged([], [], [])
  {
  }

  lemma LoggedOne(events: seq<Event>, came: seq<Arrival>, ids: seq<nat>, a: Arrival, id: nat, before: seq<Event>)
    requires Logged(events, came, ids)
    ensures Logged(events + ArrivalEvents(a, id), came + [a], ids + [id])
    ensures before + events + ArrivalEvents(a, id) == before + (events + ArrivalEvents(a, id))
  {
    assert LoggedAs(events, came, ids);
    ArrivalLogOne(came, ids, a, id);
    EventsApart(before, events, ArrivalEvents(a, id));
  }

  lemma EventsApart(a: seq<Event>, b: seq<Event>, c: seq<Event>)
    ensures a + (b + c) == a + b + c
  {
  }

  /** What was done for one client in a round. */
  datatype Visit =
    | NoVisit
    | Transfer(result: int)
    | Talk(pause: Pause, rest: string, taken: seq<Read>, left: seq<Read>)

  /** A data event for a client with a transfer, and a control event for any other; behind one case. */
  ghost predicate VisitFits(callback: Callback, connected: bool, passive: bool, timer: nat, p: Net.Progress, p': Net.Progress,
                            received: string, received': string, v: Visitor, visit: Visit) {
    forall x: Visit | x == visit ::
      if callback == NoCallback then
        x.Talk? && Taken(v.incoming, x.taken, x.left) && EndedBy(x.taken, x.pause) && received' == received + Gathered(x.taken)
      else
        && x.Transfer?
        && (TurnFits(callback, connected, passive, timer, p, p', true, v.peer, x.result)
            || TurnFits(callback, connected, passive, timer, p, p', false, v.peer, x.result))
  }

  /** The client keeps its slot. */
  predicate Stays(visit: Visit, told: bool) {
    match visit
    case NoVisit => true
    case Transfer(result) => result > 0 || result == -EAGAIN || told
    case Talk(pause, _, _, _) => pause.Again? || pause.Waiting?
  }

  class FtpServer {
    const maxPathLen: nat
    const journal: Journal
    const net: Descriptors
    const disk: Handles
    /** NET_BUFFER_SIZE */
    const tuning: Net.Tuning
    var clients: seq<Client?>
    var numClients: nat
    var password: Option<string>
    var reset: bool
    /** The connections in the table, by their number. */
    ghost var live: map<nat, Client>

    /** The table: every client is in one slot, `numClients` says how many there are, and no two share a buffer. */
    ghost predicate Table()
      reads `clients, `numClients, `live
    {
      && |clients| == MAX_CLIENTS && numClients == Occupied(clients)
      && (forall i, j | 0 <= i < j < |clients| && clients[i] != null :: clients[i] != clients[j])
      && (forall c: Client | c in clients :: c.id in live && live[c.id] == c)
      && (forall id | id in live :: live[id] in clients && live[id].id == id)
      && (forall c: Client, d: Client | c in clients && d in clients && c != d ::
            c.control != d.control && c.control.buf != d.control.buf)
    }

    /** Client `c`'s descriptors are the ones that the world has open for it; once hung up, all but its control socket.
        Behind one case, like `DiskHolds`. */
    ghost predicate NetBalanced(c: Client, hungUp: bool)
      reads c`callback, c`passiveSocket, c`dataSocket, c`connected, c`arg, c`cleanup, c`timer, c`progress, net
    {
      forall h: bool | h == hungUp :: NetAgrees(c, h)
    }

    ghost predicate NetAgrees(c: Client, hungUp: bool)
      reads c`callback, c`passiveSocket, c`dataSocket, c`connected, c`arg, c`cleanup, c`timer, c`progress, net
    {
      && c.Shape() && net.Valid()
      && c.id in net.fds && net.fds[c.id] == if hungUp then c.Fds() - {c.socket} else c.Fds()
    }

    /** The handles that the world has open for connection `id` are `handles`. */
    ghost predicate DiskHolds(id: nat, handles: set<nat>)
      reads disk
    {
      forall hs: set<nat> | hs == handles :: DiskAgrees(id, hs)
    }

    ghost predicate DiskAgrees(id: nat, handles: set<nat>)
      reads disk
    {
      disk.Valid() && id in disk.held && disk.held[id] == handles
    }

    ghost predicate Balanced(c: Client)
      reads c`callback, c`passiveSocket, c`dataSocket, c`connected, c`arg, c`cleanup, c`timer, c`progress, net, disk
    {
      NetBalanced(c, false) && DiskHolds(c.id, c.Held())
    }

    /** Connection `id` stands at `p`. */
    ghost predicate StandsAt(id: nat, p: Phase)
      reads journal
    {
      journal.Valid() && id in journal.phases && journal.phases[id] == p
    }

    /** The lines dispatched and the login on file are the client's. */
    ghost predicate Agrees(c: Client)
      reads c`authenticated, c.control`consumed, journal
    {
      && c.id in journal.lines && journal.lines[c.id] == NonEmpty(c.control.consumed)
      && (c.id in journal.auth <==> c.authenticated)
    }

    /** The handles that were lost are as many as the failed setups that the clients were told about. */
    ghost predicate Tallied()
      reads journal, disk
    {
      |disk.leaked| == journal.excused
    }

    /** The world's accounts are in order, and none is kept for anybody outside the table. */
    ghost predicate World()
      reads this, journal, net, disk, tuning
    {
      && journal.Valid() && net.Valid() && disk.Valid() && journal.password == password && Tallied() && tuning.Valid()
      && net.fds.Keys == live.Keys && disk.held.Keys == live.Keys
      && (forall id | id in journal.phases :: id in live || journal.phases[id] == Gone)
    }

    /** Everything about client `c` is in order. */
    ghost predicate InOrder(c: Client)
      reads c`callback, c`passiveSocket, c`dataSocket, c`connected, c`arg, c`cleanup, c`timer, c`progress,
            c`authenticated, c.control, c.control.buf, journal, net, disk
    {
      Balanced(c) && StandsAt(c.id, c.Standing()) && Agrees(c) && c.control.Valid()
    }

    /** All is in order, except that `busy` may be in the middle of something. */
    ghost predicate ApartFrom(busy: Client?)
      reads this, journal, net, disk, tuning, (set c: Client | c in clients :: c), (set c: Client | c in clients :: c.control),
            (set c: Client | c in clients :: c.control.buf)
    {
      Table() && World() && forall c: Client {:trigger InOrder(c)} | c in clients && c != busy :: InOrder(c)
    }

    /** The same, behind one case. */
    ghost predicate Apart(busy: Client?)
      reads this, journal, net, disk, tuning, (set c: Client | c in clients :: c), (set c: Client | c in clients :: c.control),
            (set c: Client | c in clients :: c.control.buf)
    {
      forall b: Client? | b == busy :: ApartFrom(b)
    }

    /** Between events: nothing is in the middle of anything. */
    ghost predicate Valid()
      reads this, journal, net, disk, tuning, (set c: Client | c in clients :: c), (set c: Client | c in clients :: c.control),
            (set c: Client | c in clients :: c.control.buf)
    {
      Apart(null)
    }

    lemma ClientInOrder(c: Client)
      requires Valid() && c in clients
      ensures InOrder(c) && Serving(c, c.Standing()) && tuning.Valid()
    {
      assert ApartFrom(null);
    }

    /** Serving client `c` changed nothing on file about anybody else, and nothing of the table. */
    twostate predicate Served(c: Client)
      reads this, journal, net, disk, tuning
    {
      && unchanged(`clients) && unchanged(`numClients) && unchanged(`live)
      && journal.Valid() && net.Valid() && disk.Valid() && journal.password == password && Tallied() && tuning.Valid()
      && c.id in net.fds && c.id in disk.held && Others(c.id) == old(Others(c.id))
    }

    twostate lemma WorldHolds(c: Client)
      requires old(Table()) && old(World()) && c in clients && Served(c)
      ensures Table() && World()
    {
      KeysBack(net.fds, old(net.fds), c.id);
      KeysBack(disk.held, old(disk.held), c.id);
      PhasesKept(journal.phases, old(journal.phases), c.id, live.Keys);
    }

    /** Whoever nothing changed for, on file or in the client itself, stays in order. */
    twostate lemma OthersInOrder(id: nat)
      requires journal.Valid() && net.Valid() && disk.Valid() && Others(id) == old(Others(id))
      requires forall d: Client | d in clients && d.id != id ::
        d in old(clients) && old(InOrder(d)) && unchanged(d) && unchanged(d.control) && unchanged(d.control.buf)
      ensures forall d: Client {:trigger InOrder(d)} | d in clients && d.id != id :: InOrder(d)
    {
      forall d: Client | d in clients && d.id != id
        ensures InOrder(d)
      {
        assert old(NetAgrees(d, false)) && old(DiskAgrees(d.id, d.Held()));
        SameAccounts(Others(id), id, d.id, journal.phases, journal.auth, journal.lines, net.fds, disk.held,
                     old(journal.phases), old(journal.auth), old(journal.lines), old(net.fds), old(disk.held));
      }
    }

    /** No two clients share a buffer. */
    lemma BufferOfItsOwn(c: Client)
      requires Valid() && c in clients
      ensures forall d: Client | d in clients && d != c :: d.control != c.control && d.control.buf != c.control.buf
    {
      assert ApartFrom(null);
    }

    /** Serving one client leaves everybody else in order. */
    twostate lemma StillApart(c: Client)
      requires old(Valid()) && c in clients && Served(c)
      requires forall d: Client | d in clients && d != c :: unchanged(d) && unchanged(d.control) && unchanged(d.control.buf)
      ensures Apart(c)
    {
      assert old(ApartFrom(null));
      WorldHolds(c);
      OthersInOrder(c.id);
      assert ApartFrom(c);
    }

    constructor (password: Option<string>, maxPathLen: nat)
      ensures Valid() && fresh(journal) && fresh(net) && fresh(disk) && fresh(tuning)
      ensures clients == seq(MAX_CLIENTS, _ => null) && net.open == {} && disk.open == {} && disk.leaked == {}
      ensures journal.initial == password && journal.log == [] && this.password == password
      ensures this.maxPathLen == maxPathLen && numClients == 0 && !reset && (password == None ==> Fresh())
    {
      this.maxPathLen, this.password, reset := maxPathLen, password, false;
      journal := new Journal(password);
      net := new Descriptors();
      disk := new Handles();
      tuning := new Net.Tuning();
      clients, numClients, live := seq(MAX_CLIENTS, _ => null), 0, map[];
      new;
      NobodyThere(MAX_CLIENTS);
      assert ApartFrom(null);
    }

    lemma NowServing(c: Client, p: Phase)
      requires StandsAt(c.id, p) && Balanced(c) && Agrees(c) && journal.password == password && Tallied()
      ensures Serving(c, p)
    {
    }

    /** What the world has on file about everybody but connection `id`. */
    ghost function Others(id: nat): ((map<nat, Phase>, set<nat>, map<nat, seq<string>>), map<nat, set<int>>, map<nat, set<nat>>)
      reads journal, net, disk
    {
      (journal.Others(id), net.fds - {id}, disk.held - {id})
    }

    /** Client `c` is being served, and its connection stands at `p`; behind one case. */
    ghost predicate Serving(c: Client, p: Phase)
      reads `password, c`callback, c`passiveSocket, c`dataSocket, c`connected, c`arg, c`cleanup, c`timer, c`progress,
            c`authenticated, c.control`consumed, journal, net, disk
    {
      forall q: Phase | q == p :: Engaged(c, q)
    }

    ghost predicate Engaged(c: Client, p: Phase)
      reads `password, c`callback, c`passiveSocket, c`dataSocket, c`connected, c`arg, c`cleanup, c`timer, c`progress,
            c`authenticated, c.control`consumed, journal, net, disk
    {
      StandsAt(c.id, p) && Balanced(c) && Agrees(c) && journal.password == password && Tallied()
    }

    /** What is on file about a client that is being served. */
    lemma OnFile(c: Client, p: Phase)
      requires Serving(c, p)
      ensures StandsAt(c.id, p) && Balanced(c) && Agrees(c) && journal.password == password && Tallied()
      ensures journal.Valid() && net.Valid() && disk.Valid() && c.id in net.fds && c.id in disk.held
    {
      assert Engaged(c, p);
      assert NetAgrees(c, false) && DiskAgrees(c.id, c.Held());
    }

    /** write_reply: 0, or a negative result when the reply could not be written. */
    method WriteReply(c: Client, code: int, ghost p: Phase, delivered: bool) returns (r: int)
      requires StandsAt(c.id, p) && ReplyFits(p, code)
      modifies journal
      ensures r <= 0 && (r == 0 <==> delivered)
      ensures StandsAt(c.id, AfterReply(p, code, delivered)) && journal.Others(c.id) == old(journal.Others(c.id))
      ensures journal.log == old(journal.log) + [Reply(c.id, code, delivered)]
      ensures journal.auth == old(journal.auth) && journal.password == old(journal.password) && journal.lines == old(journal.lines)
      ensures journal.excused == old(journal.excused) + if p == Excusing && delivered then 1 else 0
    {
      r := 0;
      if !delivered {
        r := *;
        if r >= 0 {
          r := -1;
        }
      }
      journal.Replied(c.id, code, delivered);
    }

    /** Where a connection stands when handler `h` is about to run, and after its one reply. */
    ghost function Called(h: Handler): Phase {
      Working(if IsSiteHandler(h) then Some(Site) else None, {})
    }

    ghost function Said(h: Handler, r: int): Phase {
      if r < 0 || h == Quit then Closing else Ready
    }

    /** The one reply of a handler that starts no transfer. */
    method Say(c: Client, h: Handler, argument: string, code: int, delivered: bool) returns (r: int)
      requires StandsAt(c.id, Called(h)) && (Public(h) || c.id in journal.auth)
      requires h != Site && code in Codes(h, argument, journal.password) && code != 150
      modifies journal
      ensures r <= 0 && (r == 0 <==> delivered)
      ensures StandsAt(c.id, Said(h, r)) && journal.Others(c.id) == old(journal.Others(c.id))
      ensures journal.log == old(journal.log) + [Run(c.id, h, argument)] + [Reply(c.id, code, delivered)]
      ensures journal.lines == old(journal.lines) && journal.excused == old(journal.excused)
      ensures h !in {SitePasswd, SiteNopasswd} ==> journal.password == old(journal.password)
      ensures h == SitePasswd ==> journal.password == Some(argument)
      ensures h == SiteNopasswd ==> journal.password == None
      ensures h !in {Pass, Rein} ==> journal.auth == old(journal.auth)
      ensures h == Pass ==> (c.id in journal.auth <==> c.id in old(journal.auth) || Accepts(old(journal.password), argument))
      ensures h == Rein ==> c.id !in journal.auth
    {
      ghost var codes := Codes(h, argument, journal.password);
      CodesAreNotFinal(h, argument, journal.password);
      journal.Ran(c.id, h, argument);
      r := WriteReply(c, code, Working(Some(h), codes), delivered);
    }

    /** The one reply of a handler that changes neither logins nor the password. */
    method Answer(c: Client, h: Handler, argument: string, code: int, delivered: bool) returns (r: int)
      requires h !in {Pass, Rein, SitePasswd, SiteNopasswd, Site}
      requires Serving(c, Called(h)) && (Public(h) || c.authenticated)
      requires code in Codes(h, argument, password) && code != 150
      modifies journal
      ensures r <= 0 && (r == 0 <==> delivered) && Serving(c, Said(h, r)) && Others(c.id) == old(Others(c.id))
      ensures journal.log == old(journal.log) + [Run(c.id, h, argument)] + [Reply(c.id, code, delivered)]
    {
      assert Engaged(c, Called(h));
      r := Say(c, h, argument, code, delivered);
    }

    /** close_passive_socket */
    method ClosePassiveSocket(c: Client, ghost hungUp: bool)
      requires NetBalanced(c, hungUp) && c.callback == NoCallback
      modifies net, c`passiveSocket
      ensures NetBalanced(c, hungUp) && c.passiveSocket < 0 && net.fds - {c.id} == old(net.fds) - {c.id}
    {
      assert NetAgrees(c, hungUp);
      if c.passiveSocket >= 0 {
        net.Close(c.passiveSocket, c.id);
        c.passiveSocket := -1;
      }
    }

    /** The same, for a client whose command is being served. */
    method LeavePassiveMode(c: Client, ghost p: Phase)
      requires Serving(c, p) && c.callback == NoCallback
      modifies net, c`passiveSocket
      ensures Serving(c, p) && c.passiveSocket < 0 && net.fds - {c.id} == old(net.fds) - {c.id}
    {
      assert Engaged(c, p);
      ClosePassiveSocket(c, false);
      assert Engaged(c, p);
    }

    method FtpPass(c: Client, attempt: string, out: Outside) returns (r: int)
      requires Serving(c, Called(Pass))
      modifies journal, c`authenticated
      ensures r <= 0 && (r == 0 <==> out.delivered) && Serving(c, Said(Pass, r)) && Others(c.id) == old(Others(c.id))
      ensures c.authenticated <==> old(c.authenticated) || password == None || password == Some(attempt)
      ensures journal.log == old(journal.log) + [Run(c.id, Pass, attempt)]
                + [Reply(c.id, if password == None || password == Some(attempt) then 230 else 530, out.delivered)]
    {
      assert Engaged(c, Called(Pass));
      if password == None || password == Some(attempt) {
        c.authenticated := true;
        r := Say(c, Pass, attempt, 230, out.delivered);
      } else {
        r := Say(c, Pass, attempt, 530, out.delivered);
      }
    }

    method FtpRein(c: Client, argument: string, out: Outside) returns (r: int)
      requires Serving(c, Called(Rein)) && c.callback == NoCallback
      modifies journal, net, c`passiveSocket, c`cwd, c`authenticated
      ensures r <= 0 && (r == 0 <==> out.delivered) && Serving(c, Said(Rein, r)) && Others(c.id) == old(Others(c.id))
      ensures !c.authenticated && c.cwd == "/" && c.passiveSocket < 0
      ensures journal.log == old(journal.log) + [Run(c.id, Rein, argument)] + [Reply(c.id, 220, out.delivered)]
    {
      LeavePassiveMode(c, Called(Rein));
      c.cwd := Vrt.RootCwd();
      r := LogOut(c, argument, out.delivered);
    }

    method LogOut(c: Client, argument: string, delivered: bool) returns (r: int)
      requires Serving(c, Called(Rein))
      modifies journal, c`authenticated
      ensures r <= 0 && (r == 0 <==> delivered) && Serving(c, Said(Rein, r)) && journal.Others(c.id) == old(journal.Others(c.id))
      ensures !c.authenticated && journal.log == old(journal.log) + [Run(c.id, Rein, argument)] + [Reply(c.id, 220, delivered)]
    {
      assert Engaged(c, Called(Rein));
      c.authenticated := false;
      r := Say(c, Rein, argument, 220, delivered);
      assert Engaged(c, Said(Rein, r));
    }

    method FtpQuit(c: Client, argument: string, out: Outside) returns (r: int)
      requires Serving(c, Called(Quit))
      modifies journal
      ensures r < 0 && (r == -EQUIT <==> out.delivered) && Serving(c, Closing) && Others(c.id) == old(Others(c.id))
      ensures journal.log == old(journal.log) + [Run(c.id, Quit, argument)] + [Reply(c.id, 221, out.delivered)]
    {
      assert Engaged(c, Called(Quit));
      r := Say(c, Quit, argument, 221, out.delivered);
      r := if r < 0 then (if r == -EQUIT then -1 else r) else -EQUIT;
    }

    /** vrt_chdir on a working directory, in a world where `fs` says what real paths are. */
    method NextCwd(fs: string -> Vrt.Stat, cwd: Vrt.Cwd, path: string) returns (ok: bool, cwd': Vrt.Cwd)
      requires NUL !in path
      ensures Vrt.Moves(fs, cwd, path, maxPathLen, ok, cwd')
    {
      Vrt.CwdIsAbsolute(cwd);
      var next;
      ok, next := Vrt.Chdir(fs, cwd, path, maxPathLen);
      if ok {
        Vrt.ChdirKeepsCwd(fs, cwd, path, maxPathLen);
      }
      cwd' := next;
    }

    /** CWD and CDUP: the working directory changes exactly when the path leads to a directory. */
    method FtpCwd(c: Client, h: Handler, argument: string, path: string, out: Outside) returns (r: int, ok: bool)
      requires h in {Cwd, Cdup} && NUL !in path
      requires Serving(c, Called(h)) && c.authenticated
      modifies journal, c`cwd
      ensures r <= 0 && (r == 0 <==> out.delivered) && Serving(c, Said(h, r)) && Others(c.id) == old(Others(c.id))
      ensures Vrt.Moves(out.fs, old(c.cwd), path, maxPathLen, ok, c.cwd)
      ensures journal.log == old(journal.log) + [Run(c.id, h, argument)] + [Reply(c.id, if ok then 250 else 550, out.delivered)]
    {
      var cwd;
      ok, cwd := NextCwd(out.fs, c.cwd, path);
      c.cwd := cwd;
      r := Answer(c, h, argument, if ok then 250 else 550, out.delivered);
    }

    method FtpRnfr(c: Client, path: string, out: Outside) returns (r: int)
      requires Serving(c, Called(Rnfr)) && c.authenticated && NUL !in path
      modifies journal, c`pendingRename
      ensures r <= 0 && (r == 0 <==> out.delivered) && Serving(c, Said(Rnfr, r)) && Others(c.id) == old(Others(c.id)) && c.pendingRename == path
      ensures journal.log == old(journal.log) + [Run(c.id, Rnfr, path)] + [Reply(c.id, 350, out.delivered)]
    {
      c.pendingRename := path;
      r := Answer(c, Rnfr, path, 350, out.delivered);
    }

    /** RNTO needs an RNFR before it, and uses it up. */
    method FtpRnto(c: Client, path: string, out: Outside) returns (r: int, code: int)
      requires Serving(c, Called(Rnto)) && c.authenticated && NUL !in path
      modifies journal, c`pendingRename
      ensures r <= 0 && (r == 0 <==> out.delivered) && Serving(c, Said(Rnto, r)) && Others(c.id) == old(Others(c.id)) && c.pendingRename == ""
      ensures code == if old(c.pendingRename) == "" then 503 else if out.done then 250 else 550
      ensures journal.log == old(journal.log) + [Run(c.id, Rnto, path)] + [Reply(c.id, code, out.delivered)]
    {
      code := 503;
      if c.pendingRename != "" {
        code := if out.done then 250 else 550;
      }
      c.pendingRename := "";
      r := Answer(c, Rnto, path, code, out.delivered);
    }

    /** REST: an offset that could be read and is not negative becomes the restart marker. */
    method FtpRest(c: Client, argument: string, out: Outside) returns (r: int)
      requires Serving(c, Called(Rest)) && c.authenticated
      modifies journal, c`restartMarker
      ensures r <= 0 && (r == 0 <==> out.delivered) && Serving(c, Said(Rest, r)) && Others(c.id) == old(Others(c.id))
      ensures var fine := out.offset.Some? && out.offset.value >= 0;
        && c.restartMarker == (if fine then out.offset.value else old(c.restartMarker))
        && journal.log == old(journal.log) + [Run(c.id, Rest, argument)] + [Reply(c.id, if fine then 350 else 501, out.delivered)]
    {
      if out.offset.None? || out.offset.value < 0 {
        r := Answer(c, Rest, argument, 501, out.delivered);
        return;
      }
      c.restartMarker := out.offset.value;
      r := Answer(c, Rest, argument, 350, out.delivered);
    }

    /** PASV: whatever happens, the old listening socket is closed, and a new one stays open only if it listens. */
    method FtpPasv(c: Client, argument: string, out: Outside) returns (r: int)
      requires Serving(c, Called(Pasv)) && c.authenticated && c.callback == NoCallback
      modifies journal, net, c`passiveSocket
      ensures r <= 0 && (r == 0 <==> out.delivered) && Serving(c, Said(Pasv, r)) && Others(c.id) == old(Others(c.id))
      ensures journal.log == old(journal.log) + [Run(c.id, Pasv, argument)]
                             + [Reply(c.id, if c.passiveSocket >= 0 then 227 else 520, out.delivered)]
      ensures c.passiveSocket >= 0 <==> out.granted && out.bound && out.listens
    {
      LeavePassiveMode(c, Called(Pasv));
      assert Engaged(c, Called(Pasv));
      var listening := Listen(c, out);
      r := Say(c, Pasv, argument, if listening then 227 else 520, out.delivered);
    }

    method Listen(c: Client, out: Outside) returns (listening: bool)
      requires NetBalanced(c, false) && c.callback == NoCallback && c.passiveSocket < 0
      modifies net, c`passiveSocket
      ensures NetBalanced(c, false) && net.fds - {c.id} == old(net.fds) - {c.id}
      ensures listening <==> c.passiveSocket >= 0
      ensures listening <==> out.granted && out.bound && out.listens
    {
      assert NetAgrees(c, false);
      c.passiveSocket := net.Open(c.id, out.granted);
      if c.passiveSocket < 0 {
        return false;
      }
      if !out.bound || !out.listens {
        ClosePassiveSocket(c, false);
        return false;
      }
      return true;
    }

    /** PORT: a well-formed address replaces passive mode. */
    method FtpPort(c: Client, argument: string, out: Outside) returns (r: int)
      requires Serving(c, Called(Port)) && c.authenticated && c.callback == NoCallback
      modifies journal, net, c`passiveSocket
      ensures r <= 0 && (r == 0 <==> out.delivered) && Serving(c, Said(Port, r)) && Others(c.id) == old(Others(c.id))
      ensures if out.wellFormed then c.passiveSocket < 0 else c.passiveSocket == old(c.passiveSocket)
      ensures journal.log == old(journal.log) + [Run(c.id, Port, argument)] + [Reply(c.id, if out.wellFormed then 200 else 501, out.delivered)]
    {
      if out.wellFormed {
        LeavePassiveMode(c, Called(Port));
      }
      r := Answer(c, Port, argument, if out.wellFormed then 200 else 501, out.delivered);
    }

    /** SITE PASSWD and SITE NOPASSWD. */
    method FtpSitePassword(c: Client, h: Handler, argument: string, out: Outside) returns (r: int)
      requires h in {SitePasswd, SiteNopasswd}
      requires Serving(c, Called(h)) && c.authenticated
      modifies journal, `password
      ensures r <= 0 && (r == 0 <==> out.delivered) && Serving(c, Said(h, r)) && Others(c.id) == old(Others(c.id))
      ensures password == if h == SitePasswd then Some(argument) else None
      ensures journal.log == old(journal.log) + [Run(c.id, h, argument)] + [Reply(c.id, 200, out.delivered)]
    {
      assert Engaged(c, Called(h));
      password := if h == SitePasswd then Some(argument) else None;
      r := Say(c, h, argument, 200, out.delivered);
    }

    /** The handlers that do nothing but reply, as far as the client and the server's state go; the outcome
        of the file system or device operation behind them picks the reply. */
    method FtpPlain(c: Client, h: Handler, argument: string, out: Outside) returns (r: int)
      requires IsPlain(h)
      requires Serving(c, Called(h)) && (Public(h) || c.authenticated)
      modifies journal, `reset
      ensures r <= 0 && (r == 0 <==> out.delivered) && Serving(c, Said(h, r)) && Others(c.id) == old(Others(c.id))
      ensures reset == (old(reset) || h == SiteLoader)
      ensures journal.log == old(journal.log) + [Run(c.id, h, argument)] + [Reply(c.id, PlainCode(h, argument, out.done), out.delivered)]
    {
      PlainCodeFits(h, argument, out.done, password);
      r := Answer(c, h, argument, PlainCode(h, argument, out.done), out.delivered);
      if h == SiteLoader {
        reset := true;
      }
    }

    // ---- Data connections

    /** prepare_data_connection_active: a bound socket of the client's own, or an error and nothing left open. */
    method PrepareActive(c: Client, out: Outside) returns (r: int)
      requires NetAgrees(c, false) && c.callback == NoCallback
      modifies net, c`dataSocket
      ensures net.Valid() && c.id in net.fds && net.fds - {c.id} == old(net.fds) - {c.id}
      ensures r >= 0 <==> out.granted && out.bound
      ensures r < 0 ==> net.fds[c.id] == old(net.fds)[c.id] && c.dataSocket == -1
      ensures r >= 0 ==> c.dataSocket >= 0 && c.dataSocket !in old(net.fds)[c.id]
                         && net.fds[c.id] == old(net.fds)[c.id] + {c.dataSocket}
    {
      var s := net.Open(c.id, out.granted);
      if s < 0 {
        return s;
      }
      if !out.bound {
        net.Close(s, c.id);
        assert net.fds[c.id] == old(net.fds)[c.id];
        return -1;
      }
      c.dataSocket := s;
      return 0;
    }

    /** prepare_data_connection, for a handle that is open but not yet the client's. The transfer has it exactly when the
        150 was delivered and a data connection could be set up. The result is negative exactly when a reply could not be
        delivered; so when the setup fails and the client is told, nobody has the handle any more. */
    method PrepareDataConnection(c: Client, h: Handler, callback: Callback, f: nat, progress: Net.Progress, out: Outside,
                                 ghost codes: set<int>)
      returns (r: int)
      requires callback != NoCallback && OnTrack(callback, progress) && c.callback == NoCallback && StartsTransfer(h)
      requires StandsAt(c.id, Working(Some(h), codes)) && 150 in codes
      requires NetBalanced(c, false) && DiskHolds(c.id, {f})
      modifies journal, net, disk, c`dataSocket, c`connected, c`callback, c`arg, c`cleanup, c`timer, c`progress
      ensures r <= 0 && (r < 0 <==> out.Fails(true, c.passiveSocket))
      ensures Others(c.id) == old(Others(c.id)) && NetBalanced(c, false)
      ensures journal.auth == old(journal.auth) && journal.password == old(journal.password) && journal.lines == old(journal.lines)
      ensures journal.log == Announced(old(journal.log), c.id, c.passiveSocket, out)
      ensures StandsAt(c.id, if r < 0 then Closing else c.Standing())
      ensures c.callback == if out.Starts(true, c.passiveSocket) then callback else NoCallback
      ensures c.callback != NoCallback ==> c.arg == Some(f) && c.progress == progress && c.timer == out.now + DATA_TIMEOUT && !c.connected
      ensures DiskHolds(c.id, if r < 0 then {f} else c.Held())
      ensures LosesOne(old(disk.leaked), disk.leaked, out.Loses(c.passiveSocket)) && (out.Loses(c.passiveSocket) ==> f in disk.leaked)
      ensures old(Tallied()) ==> Tallied()
    {
      r := WriteReply(c, 150, Working(Some(h), codes), out.delivered);
      if r < 0 {
        return;
      }
      r := SetUp(c, callback, f, progress, out);
      if r < 0 {
        r := Excuse(c, f, out.told);
        assert NetAgrees(c, false) && c.Held() == {};
      } else {
        assert c.Held() == {f};
      }
    }

    /** The 520 after a setup that failed: once it is delivered, the caller takes the transfer for started. */
    method Excuse(c: Client, f: nat, told: bool) returns (r: int)
      requires StandsAt(c.id, Transferring) && DiskHolds(c.id, {f})
      modifies journal, disk
      ensures r <= 0 && (r == 0 <==> told) && StandsAt(c.id, if told then Ready else Closing)
      ensures journal.Others(c.id) == old(journal.Others(c.id)) && disk.held - {c.id} == old(disk.held) - {c.id}
      ensures journal.auth == old(journal.auth) && journal.password == old(journal.password) && journal.lines == old(journal.lines)
      ensures journal.log == old(journal.log) + [SetupFailed(c.id)] + [Reply(c.id, 520, told)]
      ensures DiskHolds(c.id, if told then {} else {f})
      ensures LosesOne(old(disk.leaked), disk.leaked, told) && (told ==> f in disk.leaked)
      ensures old(Tallied()) ==> Tallied()
    {
      assert DiskAgrees(c.id, {f});
      journal.Failed(c.id);
      r := WriteReply(c, 520, Excusing, told);
      if told {
        disk.Leak(f, c.id);
        assert disk.held[c.id] == {};
      }
    }

    /** The data socket, borrowed or new, and the fields around it; it fails exactly in active mode without a bound socket,
        and then nothing has changed. */
    method SetUp(c: Client, callback: Callback, f: nat, progress: Net.Progress, out: Outside) returns (r: int)
      requires NetBalanced(c, false) && callback != NoCallback && OnTrack(callback, progress) && c.callback == NoCallback
      modifies net, c`dataSocket, c`connected, c`callback, c`arg, c`cleanup, c`timer, c`progress
      ensures r <= 0 && (r < 0 <==> c.passiveSocket < 0 && !(out.granted && out.bound))
      ensures NetBalanced(c, false) && net.fds - {c.id} == old(net.fds) - {c.id}
      ensures if r < 0 then c.callback == NoCallback
              else c.callback == callback && c.arg == Some(f) && c.progress == progress && c.timer == out.now + DATA_TIMEOUT && !c.connected
    {
      assert NetAgrees(c, false);
      if c.passiveSocket >= 0 {
        c.dataSocket := c.passiveSocket;
        r := 0;
      } else {
        r := PrepareActive(c, out);
      }
      if r >= 0 {
        r := 0;
        BeginTransfer(c, callback, f, progress, out.now);
      }
    }

    /** The data connection's fields, once its socket is chosen. */
    method BeginTransfer(c: Client, callback: Callback, f: nat, progress: Net.Progress, now: nat)
      modifies c`connected, c`callback, c`arg, c`cleanup, c`timer, c`progress
      ensures c.callback == callback && c.arg == Some(f) && c.cleanup && !c.connected && c.timer == now + DATA_TIMEOUT
      ensures c.progress == progress
    {
      c.connected := false;
      c.callback := callback;
      c.arg := Some(f);
      c.cleanup := true;
      c.timer := now + DATA_TIMEOUT;
      c.progress := progress;
    }

    /** The transfer proper: the handle that was opened ends up with the transfer, closed, or, when the data connection
        could not be set up and the client was told, lost. */
    method StartTransfer(c: Client, h: Handler, argument: string, callback: Callback, f: nat, progress: Net.Progress, out: Outside)
      returns (r: int)
      requires callback != NoCallback && OnTrack(callback, progress) && c.callback == NoCallback && StartsTransfer(h)
      requires StandsAt(c.id, Called(h)) && NetBalanced(c, false) && DiskHolds(c.id, {f})
      requires Agrees(c) && journal.password == password && c.authenticated && Tallied()
      modifies journal, net, disk, c`dataSocket, c`connected, c`callback, c`arg, c`cleanup, c`timer, c`progress
      ensures r <= 0 && (r < 0 <==> out.Fails(true, c.passiveSocket))
      ensures Serving(c, if r < 0 then Closing else c.Standing()) && Others(c.id) == old(Others(c.id))
      ensures journal.log == Announced(old(journal.log) + [Run(c.id, h, argument)], c.id, c.passiveSocket, out)
      ensures c.callback == if out.Starts(true, c.passiveSocket) then callback else NoCallback
      ensures c.callback != NoCallback ==> c.arg == Some(f) && c.progress == progress && c.timer == out.now + DATA_TIMEOUT && !c.connected
      ensures LosesOne(old(disk.leaked), disk.leaked, out.Loses(c.passiveSocket)) && (out.Loses(c.passiveSocket) ==> f in disk.leaked)
    {
      ghost var codes := Codes(h, argument, journal.password);
      journal.Ran(c.id, h, argument);
      r := PrepareOrClose(c, h, callback, f, progress, out, codes);
      NowServing(c, if r < 0 then Closing else c.Standing());
    }

    /** prepare_data_connection, and the handle is closed if that gave a negative result. */
    method PrepareOrClose(c: Client, h: Handler, callback: Callback, f: nat, progress: Net.Progress, out: Outside,
                          ghost codes: set<int>)
      returns (r: int)
      requires callback != NoCallback && OnTrack(callback, progress) && c.callback == NoCallback && StartsTransfer(h)
      requires StandsAt(c.id, Working(Some(h), codes)) && 150 in codes
      requires NetBalanced(c, false) && DiskHolds(c.id, {f}) && Tallied()
      modifies journal, net, disk, c`dataSocket, c`connected, c`callback, c`arg, c`cleanup, c`timer, c`progress
      ensures r <= 0 && (r < 0 <==> out.Fails(true, c.passiveSocket))
      ensures Others(c.id) == old(Others(c.id)) && Balanced(c) && Tallied()
      ensures journal.auth == old(journal.auth) && journal.password == old(journal.password) && journal.lines == old(journal.lines)
      ensures journal.log == Announced(old(journal.log), c.id, c.passiveSocket, out)
      ensures StandsAt(c.id, if r < 0 then Closing else c.Standing())
      ensures c.callback == if out.Starts(true, c.passiveSocket) then callback else NoCallback
      ensures c.callback != NoCallback ==> c.arg == Some(f) && c.progress == progress && c.timer == out.now + DATA_TIMEOUT && !c.connected
      ensures LosesOne(old(disk.leaked), disk.leaked, out.Loses(c.passiveSocket)) && (out.Loses(c.passiveSocket) ==> f in disk.leaked)
    {
      r := PrepareDataConnection(c, h, callback, f, progress, out, codes);
      if r < 0 {
        CloseHandle(c.id, f);
        NoLongerHeld(c);
      }
    }

    /** The one handle of connection `id` is closed. */
    method CloseHandle(ghost id: nat, f: nat)
      requires DiskHolds(id, {f})
      modifies disk
      ensures DiskHolds(id, {}) && Others(id) == old(Others(id)) && disk.leaked == old(disk.leaked)
    {
      assert DiskAgrees(id, {f});
      disk.Close(f, id);
      assert disk.held[id] == {};
    }

    /** vrt_fopen: a file handle exactly when the client's path has a real one behind it that `fopen` opens. */
    method OpenFile(c: Client, path: string, fopen: string -> bool) returns (f: Option<nat>)
      requires NUL !in path && DiskHolds(c.id, {})
      modifies disk
      ensures DiskHolds(c.id, if f.Some? then {f.value} else {})
      ensures Others(c.id) == old(Others(c.id)) && disk.leaked == old(disk.leaked)
      ensures f.Some? <==> RealFile(c.cwd, path, fopen)
    {
      assert DiskAgrees(c.id, {});
      Vrt.CwdIsAbsolute(c.cwd);
      var found, called := Vrt.WithVirtualPath(c.cwd, fopen, path, false, maxPathLen);
      assert found <==> Opens(Vrt.Translate(c.cwd, path, maxPathLen), fopen);
      if !found {
        return None;
      }
      var handle := disk.Open(c.id);
      return Some(handle);
    }

    /** `path` leads to a real path, not to the virtual root, and that one opens; behind one case. */
    ghost predicate RealFile(cwd: string, path: string, fopen: string -> bool) {
      forall r | r == Vrt.Translate(cwd, path, maxPathLen) :: Opens(r, fopen)
    }

    /** `path` leads to the virtual root, or to a real path that opens; behind one case. */
    ghost predicate Listable(cwd: string, path: string, diropen: string -> bool) {
      forall r | r == Vrt.Translate(cwd, path, maxPathLen) :: Lists(r, diropen)
    }

    /** vrt_diropen: a directory handle for the virtual root, and for a real path exactly when `diropen` opens it. */
    method OpenDirectory(c: Client, path: string, diropen: string -> bool) returns (f: Option<nat>)
      requires NUL !in path && DiskHolds(c.id, {})
      modifies disk
      ensures DiskHolds(c.id, if f.Some? then {f.value} else {})
      ensures Others(c.id) == old(Others(c.id)) && disk.leaked == old(disk.leaked)
      ensures f.Some? <==> Listable(c.cwd, path, diropen)
    {
      assert DiskAgrees(c.id, {});
      Vrt.CwdIsAbsolute(c.cwd);
      var target := Vrt.ToRealPath(c.cwd, path, maxPathLen);
      assert Lists(target, diropen) <==> target.Real? && (target.path == "" || diropen(target.path));
      if target.Invalid? {
        return None;
      }
      if target.path != "" {
        var found, called := Vrt.WithVirtualPath(c.cwd, diropen, path, false, maxPathLen);
        if !found {
          return None;
        }
      }
      var handle := disk.Open(c.id);
      return Some(handle);
    }

    /** The file of RETR, STOR or APPE opens, and the restart marker can be reached. */
    ghost predicate FileFound(cwd: string, marker: nat, h: Handler, path: string, out: Outside) {
      RealFile(cwd, path, out.fopen) && (h == Appe || marker == 0 || out.seeks)
    }

    /** What transfer command `h` works on opens. */
    ghost predicate Found(cwd: string, marker: nat, h: Handler, argument: string, out: Outside) {
      if h == List || h == Nlst then Listable(cwd, ListedPath(h, argument), out.diropen)
      else FileFound(cwd, marker, h, argument, out)
    }

    /** Open the file of RETR, STOR or APPE and move to the restart marker. The marker is used up by STOR in any case,
        by RETR once the file was opened, and not by APPE. */
    method OpenAtMarker(c: Client, h: Handler, path: string, out: Outside) returns (f: Option<nat>)
      requires (h == Retr || h == Stor || h == Appe) && NUL !in path && DiskHolds(c.id, {})
      modifies disk, c`restartMarker
      ensures DiskHolds(c.id, if f.Some? then {f.value} else {})
      ensures Others(c.id) == old(Others(c.id)) && disk.leaked == old(disk.leaked)
      ensures f.Some? <==> Found(c.cwd, old(c.restartMarker), h, path, out)
      ensures c.restartMarker == if h == Appe || (h == Retr && !RealFile(c.cwd, path, out.fopen)) then old(c.restartMarker) else 0
    {
      f := OpenFile(c, path, out.fopen);
      if f.None? {
        if h == Stor {
          c.restartMarker := 0;
        }
      } else if h != Appe {
        var sought := c.restartMarker == 0 || out.seeks;
        c.restartMarker := 0;
        if !sought {
          CloseHandle(c.id, f.value);
          f := None;
        }
      }
    }

    /** 550 for a transfer command whose file or directory is not there. */
    method Refuse(c: Client, h: Handler, argument: string, callback: Callback, progress: Net.Progress, out: Outside)
      returns (r: int)
      requires StartsTransfer(h) && c.callback == NoCallback && c.authenticated
      requires StandsAt(c.id, Called(h)) && NetBalanced(c, false) && DiskHolds(c.id, {})
      requires Agrees(c) && journal.password == password && Tallied()
      modifies journal
      ensures r <= 0 && (r < 0 <==> !out.delivered)
      ensures Serving(c, if r < 0 then Closing else Ready) && Others(c.id) == old(Others(c.id))
      ensures Started(h, argument, callback, false, progress, out, c.id, old(SessionOf(c)), SessionOf(c), old(journal.log), journal.log)
    {
      NoLongerHeld(c);
      r := Answer(c, h, argument, 550, out.delivered);
      StartedNot(h, argument, callback, progress, out, c.id, old(SessionOf(c)), old(journal.log));
    }

    /** The end of every transfer command: 550 when there is no handle, else the transfer. */
    method RefuseOrStart(c: Client, h: Handler, argument: string, callback: Callback, f: Option<nat>, progress: Net.Progress,
                         out: Outside, ghost found: bool)
      returns (r: int)
      requires found == f.Some? && StartsTransfer(h) && callback != NoCallback && OnTrack(callback, progress)
      requires c.callback == NoCallback && c.authenticated
      requires StandsAt(c.id, Called(h)) && NetBalanced(c, false) && DiskHolds(c.id, if f.Some? then {f.value} else {})
      requires Agrees(c) && journal.password == password && Tallied()
      modifies journal, net, disk, c`dataSocket, c`connected, c`callback, c`arg, c`cleanup, c`timer, c`progress
      ensures r <= 0 && (r < 0 <==> out.Fails(found, c.passiveSocket))
      ensures Serving(c, if r < 0 then Closing else c.Standing()) && Others(c.id) == old(Others(c.id))
      ensures Started(h, argument, callback, found, progress, out, c.id, old(SessionOf(c)), SessionOf(c), old(journal.log), journal.log)
      ensures c.callback != NoCallback ==> c.arg == f
      ensures LosesOne(old(disk.leaked), disk.leaked, found && out.Loses(c.passiveSocket))
    {
      if f.None? {
        r := Refuse(c, h, argument, callback, progress, out);
        NoneLost(disk.leaked);
      } else {
        r := StartTransfer(c, h, argument, callback, f.value, progress, out);
        StartedFound(h, argument, callback, progress, out, c.id, old(SessionOf(c)), SessionOf(c), old(journal.log));
      }
    }

    lemma NothingHeld(c: Client, p: Phase)
      requires Serving(c, p) && c.callback == NoCallback
      ensures StandsAt(c.id, p) && NetBalanced(c, false) && DiskHolds(c.id, {})
      ensures Agrees(c) && journal.password == password && Tallied()
    {
      assert Engaged(c, p);
      assert NetAgrees(c, false) && c.Held() == {};
    }

    /** The file is opened and the marker is reached, for a client whose command is being served. */
    method ReachFile(c: Client, h: Handler, path: string, out: Outside) returns (f: Option<nat>)
      requires (h == Retr || h == Stor || h == Appe) && NUL !in path
      requires Serving(c, Called(h)) && c.callback == NoCallback
      modifies disk, c`restartMarker
      ensures f.Some? <==> Found(c.cwd, old(c.restartMarker), h, path, out)
      ensures StandsAt(c.id, Called(h)) && NetBalanced(c, false) && DiskHolds(c.id, if f.Some? then {f.value} else {})
      ensures Agrees(c) && journal.password == password && Tallied()
      ensures Others(c.id) == old(Others(c.id)) && disk.leaked == old(disk.leaked)
      ensures SessionOf(c) == old(SessionOf(c)).(marker :=
                if h == Appe || (h == Retr && !RealFile(c.cwd, path, out.fopen)) then old(c.restartMarker) else 0)
    {
      NothingHeld(c, Called(h));
      f := OpenAtMarker(c, h, path, out);
    }

    /** RETR, STOR and APPE. A download starts at the restart marker, or at the end of a shorter file. The handle is lost
        exactly when the file opened in active mode, no bound socket was to be had, and both replies were delivered. */
    method FtpFile(c: Client, h: Handler, path: string, out: Outside) returns (r: int)
      requires (h == Retr || h == Stor || h == Appe) && NUL !in path
      requires Serving(c, Called(h)) && c.authenticated && c.callback == NoCallback
      modifies journal, net, disk, c`restartMarker, c`dataSocket, c`connected, c`callback, c`arg, c`cleanup, c`timer, c`progress
      ensures r <= 0 && (r < 0 <==> out.Fails(Found(c.cwd, old(c.restartMarker), h, path, out), c.passiveSocket))
      ensures Serving(c, if r < 0 then Closing else c.Standing()) && Others(c.id) == old(Others(c.id))
      ensures Obeys(h, path, out, c.id, old(SessionOf(c)), SessionOf(c), old(journal.log), journal.log)
      ensures LosesOne(old(disk.leaked), disk.leaked, Found(c.cwd, old(c.restartMarker), h, path, out) && out.Loses(c.passiveSocket))
    {
      var progress := Outset(h, c.restartMarker, out);
      OutsetOnTrack(h, c.restartMarker, out);
      var f := ReachFile(c, h, path, out);
      ghost var open := SessionOf(c);
      r := RefuseOrStart(c, h, path, CallbackOf(h), f, progress, out, Found(c.cwd, old(c.restartMarker), h, path, out));
      FileObeys(open, h, path, out, c.id, old(SessionOf(c)), SessionOf(c), old(journal.log), journal.log);
    }

    lemma ListedPathIsString(h: Handler, argument: string)
      requires NUL !in argument
      ensures NUL !in ListedPath(h, argument)
    {
      ArgumentIsShorter(argument);
    }

    /** LIST and NLST. */
    method FtpListing(c: Client, h: Handler, argument: string, out: Outside) returns (r: int)
      requires (h == List || h == Nlst) && NUL !in argument
      requires Serving(c, Called(h)) && c.authenticated && c.callback == NoCallback
      modifies journal, net, disk, c`dataSocket, c`connected, c`callback, c`arg, c`cleanup, c`timer, c`progress
      ensures r <= 0 && (r < 0 <==> out.Fails(Found(c.cwd, old(c.restartMarker), h, argument, out), c.passiveSocket))
      ensures Serving(c, if r < 0 then Closing else c.Standing()) && Others(c.id) == old(Others(c.id))
      ensures Obeys(h, argument, out, c.id, old(SessionOf(c)), SessionOf(c), old(journal.log), journal.log)
      ensures LosesOne(old(disk.leaked), disk.leaked, Found(c.cwd, old(c.restartMarker), h, argument, out) && out.Loses(c.passiveSocket))
    {
      NothingHeld(c, Called(h));
      ListedPathIsString(h, argument);
      var f := OpenDirectory(c, ListedPath(h, argument), out.diropen);
      r := RefuseOrStart(c, h, argument, if h == List then SendList else SendNlst, f, Net.Fresh([], 0, 0, 0), out,
                         Found(c.cwd, c.restartMarker, h, argument, out));
      ListingObeys(Net.Fresh([], 0, 0, 0), h, argument, out, c.id, old(SessionOf(c)), SessionOf(c), old(journal.log), journal.log);
    }

    // ---- Commands

    /** The log went on from `before` with `e`. */
    static ghost predicate Began(before: seq<Event>, log: seq<Event>, e: Event) {
      before + [e] <= log
    }

    ghost function SessionOf(c: Client): Session
      reads c, `password, `reset
    {
      Session(c.cwd, c.pendingRename, c.restartMarker, c.authenticated, c.passiveSocket, c.callback, c.connected, c.timer,
              c.progress, password, reset)
    }

    /** What handler `h` makes of session `s`, and of the log, which was `before`; behind one case. */
    ghost predicate Obeys(h: Handler, argument: string, out: Outside, id: nat, s: Session, s': Session,
                          before: seq<Event>, log: seq<Event>) {
      forall x: Handler | x == h :: Keeps(x, s, s') && Performs(x, argument, out, s, s', id, before, log)
    }

    ghost predicate Performs(h: Handler, argument: string, out: Outside, s: Session, s': Session, id: nat,
                             before: seq<Event>, log: seq<Event>) {
      match h
      case Pass =>
        var accepted := s.password == None || s.password == Some(argument);
        && (s'.authenticated <==> s.authenticated || accepted)
        && log == Replied(before, id, h, argument, if accepted then 230 else 530, out)
      case Rein =>
        !s'.authenticated && s'.cwd == "/" && s'.passiveSocket < 0 && log == Replied(before, id, h, argument, 220, out)
      case Quit => log == Replied(before, id, h, argument, 221, out)
      case Cwd | Cdup => ChangesDirectory(h, argument, out, s.cwd, s'.cwd, id, before, log)
      case Rnfr => s'.pendingRename == argument && log == Replied(before, id, h, argument, 350, out)
      case Rnto =>
        && s'.pendingRename == ""
        && log == Replied(before, id, h, argument, if s.pendingRename == "" then 503 else if out.done then 250 else 550, out)
      case Rest =>
        var fine := out.offset.Some? && out.offset.value >= 0;
        && s'.marker == (if fine then out.offset.value else s.marker)
        && log == Replied(before, id, h, argument, if fine then 350 else 501, out)
      case Pasv =>
        && (s'.passiveSocket >= 0 <==> out.granted && out.bound && out.listens)
        && log == Replied(before, id, h, argument, if s'.passiveSocket >= 0 then 227 else 520, out)
      case Port =>
        && (if out.wellFormed then s'.passiveSocket < 0 else s'.passiveSocket == s.passiveSocket)
        && log == Replied(before, id, h, argument, if out.wellFormed then 200 else 501, out)
      case List | Nlst | Retr | Stor | Appe => Transfers(h, argument, out, s, s', id, before, log)
      case Site =>
        exists site {:trigger Picks(SiteTable, argument, site)} :: Picks(SiteTable, argument, site)
          && SitePerforms(site, ArgumentOf(argument), out, s, s', id, before + [Run(id, Site, argument)], log)
      case _ => IsPlain(h) && log == Replied(before, id, h, argument, PlainCode(h, argument, out.done), out)
    }

    ghost predicate ChangesDirectory(h: Handler, argument: string, out: Outside, cwd: Vrt.Cwd, cwd': Vrt.Cwd, id: nat,
                                     before: seq<Event>, log: seq<Event>) {
      var path := if h == Cwd then argument else "..";
      || (Vrt.Moves(out.fs, cwd, path, maxPathLen, true, cwd') && log == Replied(before, id, h, argument, 250, out))
      || (Vrt.Moves(out.fs, cwd, path, maxPathLen, false, cwd') && log == Replied(before, id, h, argument, 550, out))
    }

    /** A transfer starts, of the right kind and at the right place, exactly when its file or directory is found, the 150 is
        delivered and there is a data connection to set up. */
    ghost predicate Transfers(h: Handler, argument: string, out: Outside, s: Session, s': Session, id: nat,
                              before: seq<Event>, log: seq<Event>) {
      var found := Found(s.cwd, s.marker, h, argument, out);
      && log == TransferLog(before, Run(id, h, argument), found, s.passiveSocket, out)
      && s'.callback == (if out.Starts(found, s.passiveSocket) then CallbackOf(h) else NoCallback)
      && (s'.callback != NoCallback ==> s'.timer == out.now + DATA_TIMEOUT && !s'.connected)
      && (s'.callback in {SendFromFile, RecvToFile} ==> s'.progress == Outset(h, s.marker, out))
      && (h == Stor || (h == Retr && RealFile(s.cwd, argument, out.fopen)) ==> s'.marker == 0)
      && (h == Retr && !RealFile(s.cwd, argument, out.fopen) ==> s'.marker == s.marker)
    }

    /** What a handler of SITE's does. */
    ghost predicate SitePerforms(h: Handler, argument: string, out: Outside, s: Session, s': Session, id: nat,
                                 before: seq<Event>, log: seq<Event>) {
      && IsSiteHandler(h)
      && s'.password == (if h == SitePasswd then Some(argument) else if h == SiteNopasswd then None else s.password)
      && s'.reset == (s.reset || h == SiteLoader)
      && log == Replied(before, id, h, argument,
                        if h in {SitePasswd, SiteNopasswd} then 200 else PlainCode(h, argument, out.done), out)
    }

    /** Every handler's run is in the log. */
    lemma ObeysBegan(h: Handler, argument: string, out: Outside, id: nat, s: Session, s': Session, before: seq<Event>, log: seq<Event>)
      requires Obeys(h, argument, out, id, s, s', before, log)
      ensures Began(before, log, Run(id, h, argument))
    {
      assert Performs(h, argument, out, s, s', id, before, log);
      assert forall code :: Replied(before, id, h, argument, code, out)[..|before| + 1] == before + [Run(id, h, argument)];
    }

    /** CWD goes where its argument says and CDUP one level up: there with 250, or nowhere with 550. */
    lemma CwdMeans(h: Handler, argument: string, out: Outside, id: nat, s: Session, s': Session, before: seq<Event>, log: seq<Event>)
      requires Obeys(h, argument, out, id, s, s', before, log) && (h == Cwd || h == Cdup)
      ensures var there := Vrt.NewCwd(out.fs, s.cwd, if h == Cdup then ".." else argument, maxPathLen);
        && s'.cwd == (if there.Some? then there.value else s.cwd)
        && log == before + [Run(id, h, argument)] + [Reply(id, if there.Some? then 250 else 550, out.delivered)]
    {
      assert Performs(h, argument, out, s, s', id, before, log);
    }

    /** What the others mean: only CWD, CDUP and REIN move; only PASS with the right password logs in, and only REIN out; what
        RNFR names is pending until RNTO; only SITE changes the password or sets the reset flag. */
    lemma CommandMeans(h: Handler, argument: string, out: Outside, id: nat, s: Session, s': Session, before: seq<Event>, log: seq<Event>)
      requires Obeys(h, argument, out, id, s, s', before, log)
      ensures h != Cwd && h != Cdup && h != Rein ==> s'.cwd == s.cwd
      ensures s'.authenticated && !s.authenticated ==> h == Pass && (s.password == None || s.password == Some(argument))
      ensures h == Pass && (s.password == None || s.password == Some(argument)) ==> s'.authenticated
      ensures h == Rein ==> !s'.authenticated && s'.cwd == "/" && s'.passiveSocket < 0
      ensures h != Rein ==> s.authenticated ==> s'.authenticated
      ensures s'.pendingRename == if h == Rnfr then argument else if h == Rnto then "" else s.pendingRename
      ensures s'.password != s.password || s'.reset != s.reset ==> h == Site
    {
      assert Keeps(h, s, s') && Performs(h, argument, out, s, s', id, before, log);
    }

    /** A transfer is started by its own command, for a file or directory that is there, and only when the client was told and
        there is a data connection to set up. */
    lemma TransferMeans(h: Handler, argument: string, out: Outside, id: nat, s: Session, s': Session, before: seq<Event>, log: seq<Event>)
      requires Obeys(h, argument, out, id, s, s', before, log) && s.callback == NoCallback && s'.callback != NoCallback
      ensures out.delivered && (s.passiveSocket >= 0 || (out.granted && out.bound))
      ensures match h
        case List => s'.callback == SendList && Listable(s.cwd, ListedPath(List, argument), out.diropen)
        case Nlst => s'.callback == SendNlst && Listable(s.cwd, ListedPath(Nlst, argument), out.diropen)
        case Retr => s'.callback == SendFromFile && RealFile(s.cwd, argument, out.fopen)
        case Stor | Appe => s'.callback == RecvToFile && RealFile(s.cwd, argument, out.fopen)
        case _ => false
    {
      assert Keeps(h, s, s') && Performs(h, argument, out, s, s', id, before, log);
    }

    /** REST and then RETR: the download starts at the offset, or at the end of a shorter file, and the offset is used up. */
    lemma RestThenRetr(argument: string, path: string, out: Outside, out': Outside, id: nat, s: Session, s': Session, s'': Session,
                       log: seq<Event>, log': seq<Event>, log'': seq<Event>)
      requires Obeys(Rest, argument, out, id, s, s', log, log') && out.offset.Some? && out.offset.value >= 0
      requires Obeys(Retr, path, out', id, s', s'', log', log'') && s.callback == NoCallback && s''.callback != NoCallback
      ensures s''.callback == SendFromFile && s''.marker == 0 && s''.progress.content == out'.content
      ensures s''.progress.start == if out.offset.value <= |out'.content| then out.offset.value else |out'.content|
    {
      assert Performs(Rest, argument, out, s, s', id, log, log') && Keeps(Rest, s, s');
      assert Performs(Retr, path, out', s', s'', id, log', log'');
    }

    // Each handler does what is promised.

    lemma PassObeys(argument: string, out: Outside, id: nat, s: Session, s': Session, before: seq<Event>, log: seq<Event>)
      requires s' == s.(authenticated := s'.authenticated)
      requires s'.authenticated <==> s.authenticated || s.password == None || s.password == Some(argument)
      requires log == Replied(before, id, Pass, argument, if s.password == None || s.password == Some(argument) then 230 else 530, out)
      ensures Obeys(Pass, argument, out, id, s, s', before, log)
    {
    }

    lemma ReinObeys(argument: string, out: Outside, id: nat, s: Session, s': Session, before: seq<Event>, log: seq<Event>)
      requires s' == s.(authenticated := false, cwd := s'.cwd, passiveSocket := s'.passiveSocket) && s'.cwd == "/" && s'.passiveSocket < 0
      requires log == Replied(before, id, Rein, argument, 220, out)
      ensures Obeys(Rein, argument, out, id, s, s', before, log)
    {
    }

    lemma QuitObeys(argument: string, out: Outside, id: nat, s: Session, s': Session, before: seq<Event>, log: seq<Event>)
      requires s' == s && log == Replied(before, id, Quit, argument, 221, out)
      ensures Obeys(Quit, argument, out, id, s, s', before, log)
    {
    }

    lemma CwdObeys(h: Handler, ok: bool, argument: string, out: Outside, id: nat, s: Session, s': Session, before: seq<Event>, log: seq<Event>)
      requires (h == Cwd || h == Cdup) && s' == s.(cwd := s'.cwd)
      requires Vrt.Moves(out.fs, s.cwd, if h == Cwd then argument else "..", maxPathLen, ok, s'.cwd)
      requires log == Replied(before, id, h, argument, if ok then 250 else 550, out)
      ensures Obeys(h, argument, out, id, s, s', before, log)
    {
    }

    lemma RnfrObeys(argument: string, out: Outside, id: nat, s: Session, s': Session, before: seq<Event>, log: seq<Event>)
      requires s' == s.(pendingRename := s'.pendingRename) && s'.pendingRename == argument && log == Replied(before, id, Rnfr, argument, 350, out)
      ensures Obeys(Rnfr, argument, out, id, s, s', before, log)
    {
    }

    lemma RntoObeys(argument: string, out: Outside, id: nat, s: Session, s': Session, before: seq<Event>, log: seq<Event>)
      requires s' == s.(pendingRename := s'.pendingRename) && s'.pendingRename == ""
      requires log == Replied(before, id, Rnto, argument, if s.pendingRename == "" then 503 else if out.done then 250 else 550, out)
      ensures Obeys(Rnto, argument, out, id, s, s', before, log)
    {
    }

    lemma RestObeys(argument: string, out: Outside, id: nat, s: Session, s': Session, before: seq<Event>, log: seq<Event>)
      requires var fine := out.offset.Some? && out.offset.value >= 0;
        && s' == s.(marker := if fine then out.offset.value else s.marker)
        && log == Replied(before, id, Rest, argument, if fine then 350 else 501, out)
      ensures Obeys(Rest, argument, out, id, s, s', before, log)
    {
    }

    lemma PasvObeys(argument: string, out: Outside, id: nat, s: Session, s': Session, before: seq<Event>, log: seq<Event>)
      requires s' == s.(passiveSocket := s'.passiveSocket) && (s'.passiveSocket >= 0 <==> out.granted && out.bound && out.listens)
      requires log == Replied(before, id, Pasv, argument, if s'.passiveSocket >= 0 then 227 else 520, out)
      ensures Obeys(Pasv, argument, out, id, s, s', before, log)
    {
    }

    lemma PortObeys(argument: string, out: Outside, id: nat, s: Session, s': Session, before: seq<Event>, log: seq<Event>)
      requires s' == s.(passiveSocket := s'.passiveSocket)
      requires if out.wellFormed then s'.passiveSocket < 0 else s'.passiveSocket == s.passiveSocket
      requires log == Replied(before, id, Port, argument, if out.wellFormed then 200 else 501, out)
      ensures Obeys(Port, argument, out, id, s, s', before, log)
    {
    }

    lemma FileObeys(open: Session, h: Handler, argument: string, out: Outside, id: nat, s: Session, s': Session, before: seq<Event>, log: seq<Event>)
      requires h == Retr || h == Stor || h == Appe
      requires open == s.(marker := if h == Appe || (h == Retr && !RealFile(s.cwd, argument, out.fopen)) then s.marker else 0)
      requires Started(h, argument, CallbackOf(h), Found(s.cwd, s.marker, h, argument, out), Outset(h, s.marker, out), out, id,
                       open, s', before, log)
      ensures Obeys(h, argument, out, id, s, s', before, log)
    {
      assert StartedAs(h, argument, CallbackOf(h), Found(s.cwd, s.marker, h, argument, out), Outset(h, s.marker, out), out, id,
                       open, s', before, log);
    }

    lemma ListingObeys(progress: Net.Progress, h: Handler, argument: string, out: Outside, id: nat, s: Session, s': Session, before: seq<Event>, log: seq<Event>)
      requires h == List || h == Nlst
      requires Started(h, argument, CallbackOf(h), Found(s.cwd, s.marker, h, argument, out), progress, out, id, s, s', before, log)
      ensures Obeys(h, argument, out, id, s, s', before, log)
    {
      assert StartedAs(h, argument, CallbackOf(h), Found(s.cwd, s.marker, h, argument, out), progress, out, id, s, s', before, log);
    }

    lemma SiteObeys(site: Handler, argument: string, out: Outside, id: nat, s: Session, s': Session, before: seq<Event>, log: seq<Event>)
      requires s' == s.(password := s'.password, reset := s'.reset) && Picks(SiteTable, argument, site)
      requires SitePerforms(site, ArgumentOf(argument), out, s, s', id, before + [Run(id, Site, argument)], log)
      ensures Obeys(Site, argument, out, id, s, s', before, log)
    {
    }

    lemma PlainObeys(h: Handler, argument: string, out: Outside, id: nat, s: Session, s': Session, before: seq<Event>, log: seq<Event>)
      requires IsPlain(h) && !IsSiteHandler(h) && s' == s && log == Replied(before, id, h, argument, PlainCode(h, argument, out.done), out)
      ensures Obeys(h, argument, out, id, s, s', before, log)
    {
    }

    /** A handler of the SITE table. */
    method HandleSite(c: Client, h: Handler, argument: string, out: Outside) returns (r: int)
      requires IsSiteHandler(h) && Serving(c, Called(h)) && c.authenticated && c.callback == NoCallback
      modifies journal, `password, `reset
      ensures r <= 0 && Serving(c, Said(h, r)) && Others(c.id) == old(Others(c.id))
      ensures SitePerforms(h, argument, out, old(SessionOf(c)), SessionOf(c), c.id, old(journal.log), journal.log)
    {
      if h == SitePasswd || h == SiteNopasswd {
        r := FtpSitePassword(c, h, argument, out);
      } else {
        r := FtpPlain(c, h, argument, out);
      }
    }

    /** SITE dispatches its argument once more. */
    method FtpSite(c: Client, argument: string, out: Outside) returns (r: int, ghost h: Handler)
      requires NUL !in argument && |argument| < Framing.FTP_BUFFER_SIZE
      requires Serving(c, Called(Site)) && c.authenticated && c.callback == NoCallback
      modifies journal, `password, `reset
      ensures r <= 0 && Serving(c, if r < 0 then Closing else Ready) && Others(c.id) == old(Others(c.id))
      ensures Obeys(Site, argument, out, c.id, old(SessionOf(c)), SessionOf(c), old(journal.log), journal.log)
      ensures Picks(SiteTable, argument, h)
    {
      EnterSite(c, argument);
      var site, rest := Pick(SiteTable, argument);
      h := site;
      r := HandleSite(c, site, rest, out);
      SiteObeys(site, argument, out, c.id, old(SessionOf(c)), SessionOf(c), old(journal.log), journal.log);
    }

    ghost method EnterSite(c: Client, argument: string)
      requires Serving(c, Called(Site)) && c.authenticated
      modifies journal
      ensures Serving(c, Working(Some(Site), {})) && Others(c.id) == old(Others(c.id))
      ensures journal.log == old(journal.log) + [Run(c.id, Site, argument)]
    {
      assert Engaged(c, Called(Site));
      journal.Ran(c.id, Site, argument);
    }

    method HandleLogin(c: Client, h: Handler, argument: string, out: Outside) returns (r: int)
      requires h == Pass || h == Rein
      requires Serving(c, Called(h)) && (Public(h) || c.authenticated) && c.callback == NoCallback && NUL !in argument
      modifies journal, net, c`passiveSocket, c`cwd, c`authenticated
      ensures r <= 0 && Serving(c, if r < 0 then Closing else Ready) && Others(c.id) == old(Others(c.id))
      ensures Obeys(h, argument, out, c.id, old(SessionOf(c)), SessionOf(c), old(journal.log), journal.log)
    {
      if h == Pass {
        r := FtpPass(c, argument, out);
        PassObeys(argument, out, c.id, old(SessionOf(c)), SessionOf(c), old(journal.log), journal.log);
      } else {
        r := FtpRein(c, argument, out);
        ReinObeys(argument, out, c.id, old(SessionOf(c)), SessionOf(c), old(journal.log), journal.log);
      }
    }

    method HandleQuit(c: Client, h: Handler, argument: string, out: Outside) returns (r: int)
      requires h == Quit
      requires Serving(c, Called(h)) && (Public(h) || c.authenticated) && c.callback == NoCallback && NUL !in argument
      modifies journal
      ensures r <= 0 && Serving(c, if r < 0 then Closing else Ready) && Others(c.id) == old(Others(c.id))
      ensures Obeys(h, argument, out, c.id, old(SessionOf(c)), SessionOf(c), old(journal.log), journal.log)
    {
      r := FtpQuit(c, argument, out);
      QuitObeys(argument, out, c.id, old(SessionOf(c)), SessionOf(c), old(journal.log), journal.log);
    }

    method HandleCwd(c: Client, h: Handler, argument: string, out: Outside) returns (r: int)
      requires h == Cwd || h == Cdup
      requires Serving(c, Called(h)) && (Public(h) || c.authenticated) && c.callback == NoCallback && NUL !in argument
      modifies journal, c`cwd
      ensures r <= 0 && Serving(c, Said(h, r)) && Others(c.id) == old(Others(c.id))
      ensures Obeys(h, argument, out, c.id, old(SessionOf(c)), SessionOf(c), old(journal.log), journal.log)
    {
      var ok;
      var path := if h == Cwd then argument else "..";
      r, ok := FtpCwd(c, h, argument, path, out);
      CwdObeys(h, ok, argument, out, c.id, old(SessionOf(c)), SessionOf(c), old(journal.log), journal.log);
    }

    /** The handlers that only prepare for a later command. */
    method HandleRename(c: Client, h: Handler, argument: string, out: Outside) returns (r: int)
      requires h == Rnfr || h == Rnto
      requires Serving(c, Called(h)) && (Public(h) || c.authenticated) && c.callback == NoCallback && NUL !in argument
      modifies journal, c`pendingRename
      ensures r <= 0 && Serving(c, Said(h, r)) && Others(c.id) == old(Others(c.id))
      ensures Obeys(h, argument, out, c.id, old(SessionOf(c)), SessionOf(c), old(journal.log), journal.log)
    {
      if h == Rnfr {
        r := FtpRnfr(c, argument, out);
        RnfrObeys(argument, out, c.id, old(SessionOf(c)), SessionOf(c), old(journal.log), journal.log);
      } else {
        var code;
        r, code := FtpRnto(c, argument, out);
        RntoObeys(argument, out, c.id, old(SessionOf(c)), SessionOf(c), old(journal.log), journal.log);
      }
    }

    method HandleRest(c: Client, h: Handler, argument: string, out: Outside) returns (r: int)
      requires h == Rest
      requires Serving(c, Called(h)) && (Public(h) || c.authenticated) && c.callback == NoCallback && NUL !in argument
      modifies journal, c`restartMarker
      ensures r <= 0 && Serving(c, Said(h, r)) && Others(c.id) == old(Others(c.id))
      ensures Obeys(h, argument, out, c.id, old(SessionOf(c)), SessionOf(c), old(journal.log), journal.log)
    {
      r := FtpRest(c, argument, out);
      RestObeys(argument, out, c.id, old(SessionOf(c)), SessionOf(c), old(journal.log), journal.log);
    }

    method HandleEndpoint(c: Client, h: Handler, argument: string, out: Outside) returns (r: int)
      requires h == Pasv || h == Port
      requires Serving(c, Called(h)) && (Public(h) || c.authenticated) && c.callback == NoCallback && NUL !in argument
      modifies journal, net, c`passiveSocket
      ensures r <= 0 && Serving(c, Said(h, r)) && Others(c.id) == old(Others(c.id))
      ensures Obeys(h, argument, out, c.id, old(SessionOf(c)), SessionOf(c), old(journal.log), journal.log)
    {
      if h == Pasv {
        r := FtpPasv(c, argument, out);
        PasvObeys(argument, out, c.id, old(SessionOf(c)), SessionOf(c), old(journal.log), journal.log);
      } else {
        r := FtpPort(c, argument, out);
        PortObeys(argument, out, c.id, old(SessionOf(c)), SessionOf(c), old(journal.log), journal.log);
      }
    }

    method HandleTransfer(c: Client, h: Handler, argument: string, out: Outside) returns (r: int)
      requires StartsTransfer(h)
      requires Serving(c, Called(h)) && (Public(h) || c.authenticated) && c.callback == NoCallback && NUL !in argument
      modifies journal, net, disk, c`restartMarker, c`dataSocket, c`connected, c`callback, c`arg, c`cleanup, c`timer, c`progress
      ensures r <= 0 && Serving(c, if r < 0 then Closing else c.Standing()) && Others(c.id) == old(Others(c.id))
      ensures Obeys(h, argument, out, c.id, old(SessionOf(c)), SessionOf(c), old(journal.log), journal.log)
      ensures LosesOne(old(disk.leaked), disk.leaked, Found(old(c.cwd), old(c.restartMarker), h, argument, out) && out.Loses(old(c.passiveSocket)))
    {
      if h == List || h == Nlst {
        r := FtpListing(c, h, argument, out);
      } else {
        r := FtpFile(c, h, argument, out);
      }
    }

    method HandlePath(c: Client, h: Handler, argument: string, out: Outside) returns (r: int)
      requires h == Cwd || h == Cdup || h == Rnfr || h == Rnto || h == Rest
      requires Serving(c, Called(h)) && (Public(h) || c.authenticated) && c.callback == NoCallback && NUL !in argument
      modifies journal, c`cwd, c`pendingRename, c`restartMarker
      ensures r <= 0 && Serving(c, Said(h, r)) && Others(c.id) == old(Others(c.id))
      ensures Obeys(h, argument, out, c.id, old(SessionOf(c)), SessionOf(c), old(journal.log), journal.log)
    {
      if h == Cwd || h == Cdup {
        r := HandleCwd(c, h, argument, out);
      } else if h == Rest {
        r := HandleRest(c, h, argument, out);
      } else {
        r := HandleRename(c, h, argument, out);
      }
    }

    /** Handlers that have to do with neither SITE nor transfers. */
    method HandleCommand(c: Client, h: Handler, argument: string, out: Outside) returns (r: int)
      requires !IsSiteHandler(h) && !StartsTransfer(h) && h != Site
      requires Serving(c, Called(h)) && (Public(h) || c.authenticated) && c.callback == NoCallback && NUL !in argument
      modifies journal, net, c`passiveSocket, c`cwd, c`authenticated, c`pendingRename, c`restartMarker, `reset
      ensures r <= 0 && Serving(c, if r < 0 then Closing else Ready) && Others(c.id) == old(Others(c.id))
      ensures Obeys(h, argument, out, c.id, old(SessionOf(c)), SessionOf(c), old(journal.log), journal.log)
    {
      if h == Cwd || h == Cdup || h == Rnfr || h == Rnto || h == Rest {
        r := HandlePath(c, h, argument, out);
      } else {
        OtherHandlers(h);
        r := HandleOther(c, h, argument, out);
      }
    }

    method HandlePlain(c: Client, h: Handler, argument: string, out: Outside) returns (r: int)
      requires IsPlain(h) && !IsSiteHandler(h)
      requires Serving(c, Called(h)) && (Public(h) || c.authenticated) && c.callback == NoCallback
      modifies journal, `reset
      ensures r <= 0 && Serving(c, if r < 0 then Closing else Ready) && Others(c.id) == old(Others(c.id))
      ensures Obeys(h, argument, out, c.id, old(SessionOf(c)), SessionOf(c), old(journal.log), journal.log)
    {
      r := FtpPlain(c, h, argument, out);
      PlainObeys(h, argument, out, c.id, old(SessionOf(c)), SessionOf(c), old(journal.log), journal.log);
    }

    method HandleOther(c: Client, h: Handler, argument: string, out: Outside) returns (r: int)
      requires h == Pass || h == Rein || h == Quit || h == Pasv || h == Port || (IsPlain(h) && !IsSiteHandler(h))
      requires Serving(c, Called(h)) && (Public(h) || c.authenticated) && c.callback == NoCallback && NUL !in argument
      modifies journal, net, c`passiveSocket, c`cwd, c`authenticated, `reset
      ensures r <= 0 && Serving(c, if r < 0 then Closing else Ready) && Others(c.id) == old(Others(c.id))
      ensures Obeys(h, argument, out, c.id, old(SessionOf(c)), SessionOf(c), old(journal.log), journal.log)
    {
      if h == Quit {
        r := HandleQuit(c, h, argument, out);
      } else if h == Pass || h == Rein {
        r := HandleLogin(c, h, argument, out);
      } else if h == Pasv || h == Port {
        r := HandleEndpoint(c, h, argument, out);
      } else {
        r := HandlePlain(c, h, argument, out);
      }
    }

    /** The call that the dispatcher makes. Only a transfer command can leave a callback behind. */
    method Handle(c: Client, h: Handler, argument: string, out: Outside) returns (r: int)
      requires !IsSiteHandler(h) && |argument| < Framing.FTP_BUFFER_SIZE
      requires Serving(c, Called(h)) && (Public(h) || c.authenticated) && c.callback == NoCallback && NUL !in argument
      modifies journal, net, disk, c, `password, `reset
      ensures r <= 0 && Serving(c, if r < 0 then Closing else c.Standing()) && Others(c.id) == old(Others(c.id))
      ensures Obeys(h, argument, out, c.id, old(SessionOf(c)), SessionOf(c), old(journal.log), journal.log)
      ensures c.callback != NoCallback ==> StartsTransfer(h)
      ensures LosesOne(old(disk.leaked), disk.leaked, StartsTransfer(h) && Found(old(c.cwd), old(c.restartMarker), h, argument, out)
                       && out.Loses(old(c.passiveSocket)))
    {
      if StartsTransfer(h) {
        r := HandleTransfer(c, h, argument, out);
      } else if h == Site {
        ghost var site;
        r, site := FtpSite(c, argument, out);
      } else {
        r := HandleCommand(c, h, argument, out);
      }
    }

    /** process_command on a non-empty line that was just consumed: the table for connections without a login, or the
        full one, picks the handler; a negative result asks for the connection to be closed. */
    method ProcessCommand(c: Client, line: string, out: Outside) returns (r: int, ghost h: Handler)
      requires line != "" && NUL !in line && |line| < Framing.FTP_BUFFER_SIZE && c.callback == NoCallback
      requires StandsAt(c.id, Ready) && Balanced(c) && journal.password == password && Tallied()
      requires c.id in journal.lines && journal.lines[c.id] + [line] == NonEmpty(c.control.consumed)
      requires c.id in journal.auth <==> c.authenticated
      modifies journal, net, disk, c, `password, `reset
      ensures r <= 0 && Serving(c, if r < 0 then Closing else c.Standing()) && Others(c.id) == old(Others(c.id))
      ensures Picks(if old(c.authenticated) then FullTable else LoginTable, line, h)
      ensures Began(old(journal.log) + [Dispatch(c.id, line)], journal.log, Run(c.id, h, ArgumentOf(line)))
      ensures Obeys(h, ArgumentOf(line), out, c.id, old(SessionOf(c)), SessionOf(c), old(journal.log) + [Dispatch(c.id, line)], journal.log)
      ensures c.callback != NoCallback ==> StartsTransfer(h)
      ensures LosesOne(old(disk.leaked), disk.leaked, StartsTransfer(h) && Found(old(c.cwd), old(c.restartMarker), h, ArgumentOf(line), out)
                       && out.Loses(old(c.passiveSocket)))
    {
      journal.Dispatched(c.id, line);
      var handler, rest := Pick(if c.authenticated then FullTable else LoginTable, line);
      h := handler;
      r := Handle(c, handler, rest, out);
      ObeysBegan(h, rest, out, c.id, old(SessionOf(c)), SessionOf(c), old(journal.log) + [Dispatch(c.id, line)], journal.log);
    }

    // ---- Cleaning up

    /** Close the data socket, unless it is the borrowed passive one. */
    method DropDataSocket(c: Client, ghost hungUp: bool)
      requires NetBalanced(c, hungUp)
      modifies net, c`dataSocket
      ensures net.Valid() && c.dataSocket == -1 && net.fds - {c.id} == old(net.fds) - {c.id}
      ensures c.id in net.fds && net.fds[c.id] == if hungUp then c.Fds() - {c.socket} else c.Fds()
    {
      assert NetAgrees(c, hungUp);
      if c.dataSocket >= 0 && c.dataSocket != c.passiveSocket {
        net.Close(c.dataSocket, c.id);
      }
      c.dataSocket := -1;
    }

    /** cleanup_data_resources: the data socket is closed, the handle is closed, and every field is clear. */
    method CleanupDataResources(c: Client, ghost hungUp: bool)
      requires NetBalanced(c, hungUp) && DiskHolds(c.id, c.Held())
      modifies net, disk, c`dataSocket, c`connected, c`callback, c`arg, c`cleanup, c`timer
      ensures NetBalanced(c, hungUp) && DiskHolds(c.id, {}) && c.callback == NoCallback
      ensures net.fds - {c.id} == old(net.fds) - {c.id} && disk.held - {c.id} == old(disk.held) - {c.id}
      ensures disk.leaked == old(disk.leaked)
    {
      assert NetAgrees(c, hungUp);
      DropDataSocket(c, hungUp);
      if c.cleanup {
        CloseHandle(c.id, c.arg.value);
      }
      ClearTransfer(c);
    }

    /** The data connection's fields are cleared. */
    method ClearTransfer(c: Client)
      modifies c`connected, c`callback, c`arg, c`cleanup, c`timer
      ensures !c.connected && c.callback == NoCallback && c.arg == None && !c.cleanup && c.timer == 0
    {
      c.connected := false;
      c.callback := NoCallback;
      c.arg := None;
      c.cleanup := false;
      c.timer := 0;
    }

    /** A client without a transfer holds nothing. */
    lemma NoLongerHeld(c: Client)
      requires NetBalanced(c, false) && DiskHolds(c.id, {}) && c.callback == NoCallback
      ensures Balanced(c)
    {
      assert NetAgrees(c, false) && c.Held() == {};
    }

    /** The descriptors and handles of a client that leaves. */
    method ReleaseResources(c: Client)
      requires Balanced(c)
      modifies net, disk, c`passiveSocket, c`dataSocket, c`connected, c`callback, c`arg, c`cleanup, c`timer
      ensures net.Valid() && disk.Valid() && net.fds == old(net.fds) - {c.id} && disk.held == old(disk.held) - {c.id}
      ensures disk.leaked == old(disk.leaked)
    {
      assert NetAgrees(c, false) && DiskAgrees(c.id, c.Held());
      net.Close(c.socket, c.id);
      assert net.fds[c.id] == c.Fds() - {c.socket};
      CleanupDataResources(c, true);
      ClosePassiveSocket(c, true);
      assert NetAgrees(c, true) && DiskAgrees(c.id, {});
      assert net.fds[c.id] == {};
      net.Forget(c.id);
      disk.Forget(c.id);
    }

    /** Empty the client's slot. */
    method LeaveTable(c: Client)
      requires Table() && c in clients
      modifies `clients, `numClients, `live
      ensures Table() && c !in clients && live == old(live) - {c.id} && |clients| == |old(clients)|
      ensures forall d: Client | d in clients :: d in old(clients) && d != c && d.id != c.id
      ensures forall i | 0 <= i < |clients| :: clients[i] == if old(clients)[i] == c then null else old(clients)[i]
    {
      var i := 0;
      while clients[i] != c
        invariant 0 <= i < |clients| && c !in clients[..i]
        decreases |clients| - i
      {
        i := i + 1;
      }
      FillSlot(clients, i, null);
      OccupiedAtLeast(clients, i);
      clients := clients[i := null];
      numClients := numClients - 1;
      live := live - {c.id};
      OthersKeepSlots(old(clients), clients, c);
    }

    /** What cleanup_client does to the world. */
    method Retire(c: Client, ghost p: Phase)
      requires Balanced(c) && StandsAt(c.id, p) && (p == Ready || p == Closing)
      modifies journal, net, disk, c`passiveSocket, c`dataSocket, c`connected, c`callback, c`arg, c`cleanup,
               c`timer
      ensures journal.Valid() && net.Valid() && disk.Valid() && journal.password == old(journal.password)
      ensures net.fds == old(net.fds) - {c.id} && disk.held == old(disk.held) - {c.id}
      ensures Others(c.id) == old(Others(c.id))
      ensures c.id in journal.phases && journal.phases[c.id] == Gone && LinesOf(c.id) == old(LinesOf(c.id))
      ensures journal.log == old(journal.log) + [Hangup(c.id)]
      ensures disk.leaked == old(disk.leaked) && journal.excused == old(journal.excused)
    {
      ReleaseResources(c);
      assert net.fds - {c.id} == old(net.fds) - {c.id};
      assert disk.held - {c.id} == old(disk.held) - {c.id};
      journal.HungUp(c.id);
    }

    /** The lines that connection `id` ever sent to process_command. */
    ghost function LinesOf(id: nat): seq<string>
      reads journal
    {
      if id in journal.lines then journal.lines[id] else []
    }

    /** Client `c` is only in the table any more; everybody else is in order. */
    ghost predicate Leaving(c: Client)
      reads this, journal, net, disk, tuning, (set d: Client | d in clients :: d), (set d: Client | d in clients :: d.control),
            (set d: Client | d in clients :: d.control.buf)
    {
      && journal.Valid() && net.Valid() && disk.Valid() && journal.password == password && Tallied() && tuning.Valid()
      && net.fds.Keys == live.Keys - {c.id} && disk.held.Keys == live.Keys - {c.id}
      && (forall id | id in journal.phases :: (id in live && id != c.id) || journal.phases[id] == Gone)
      && forall d: Client {:trigger InOrder(d)} | d in clients && d != c :: InOrder(d)
    }

    twostate lemma IsLeaving(c: Client)
      requires old(Apart(c)) && c in clients && unchanged(`clients) && unchanged(`live) && unchanged(`password)
      requires journal.Valid() && net.Valid() && disk.Valid() && journal.password == old(journal.password)
      requires net.fds == old(net.fds) - {c.id} && disk.held == old(disk.held) - {c.id}
      requires Others(c.id) == old(Others(c.id))
      requires c.id in journal.phases && journal.phases[c.id] == Gone
      requires forall d: Client | d in clients && d != c :: unchanged(d) && unchanged(d.control) && unchanged(d.control.buf)
      requires Tallied() && tuning.Valid()
      ensures Leaving(c)
    {
      assert old(ApartFrom(c));
      PhasesKept(journal.phases, old(journal.phases), c.id, live.Keys);
      OthersInOrder(c.id);
    }

    /** The client hangs up, and everybody else stays in order. */
    method RetireAmong(c: Client, ghost p: Phase)
      requires c in clients && Apart(c) && Balanced(c) && StandsAt(c.id, p) && (p == Ready || p == Closing)
      requires journal.password == password && Tallied() && tuning.Valid()
      modifies journal, net, disk, c`passiveSocket, c`dataSocket, c`connected, c`callback, c`arg, c`cleanup,
               c`timer
      ensures Leaving(c) && LinesOf(c.id) == old(LinesOf(c.id))
      ensures journal.log == old(journal.log) + [Hangup(c.id)] && disk.leaked == old(disk.leaked)
    {
      Retire(c, p);
      IsLeaving(c);
    }

    /** Empty the client's slot; nothing else moves. */
    method Leave(c: Client)
      requires Table() && c in clients && Leaving(c)
      modifies `clients, `numClients, `live
      ensures Valid() && c !in clients && live == old(live) - {c.id} && |clients| == |old(clients)|
      ensures forall i | 0 <= i < |clients| :: clients[i] == if old(clients)[i] == c then null else old(clients)[i]
    {
      LeaveTable(c);
      StillInOrder(c);
      assert ApartFrom(null);
    }

    twostate lemma StillInOrder(c: Client)
      requires old(Leaving(c)) && unchanged(journal) && unchanged(net) && unchanged(disk)
      requires forall d: Client | d in clients :: d in old(clients) && d != c
      requires forall d: Client | d in clients :: unchanged(d) && unchanged(d.control) && unchanged(d.control.buf)
      ensures forall d: Client {:trigger InOrder(d)} | d in clients :: InOrder(d)
    {
      assert forall d: Client | d in clients :: old(InOrder(d));
    }

    /** cleanup_client: hang up, release everything, and leave the table; everybody else stays in order. */
    method CleanupClient(c: Client, ghost p: Phase)
      requires c in clients && Apart(c) && Serving(c, p) && (p == Ready || p == Closing)
      modifies `clients, `numClients, `live, journal, net, disk, c`passiveSocket, c`dataSocket, c`connected, c`callback, c`arg, c`cleanup,
               c`timer
      ensures Valid() && c !in clients && live == old(live) - {c.id} && |clients| == |old(clients)|
      ensures forall i | 0 <= i < |clients| :: clients[i] == if old(clients)[i] == c then null else old(clients)[i]
      ensures journal.log == old(journal.log) + [Hangup(c.id)] && LinesOf(c.id) == old(LinesOf(c.id))
      ensures disk.leaked == old(disk.leaked)
    {
      assert ApartFrom(c) && Engaged(c, p);
      RetireAmong(c, p);
      Leave(c);
    }

    // ---- Data events

    /** The start of process_data_events, while there is no connection yet: accept or connect, or give up when the time
        is over. */
    method AwaitConnection(c: Client, peer: Peer) returns (result: int)
      requires NetBalanced(c, false) && c.callback != NoCallback && !c.connected
      modifies net, c`dataSocket, c`connected
      ensures NetBalanced(c, false) && net.fds - {c.id} == old(net.fds) - {c.id}
      ensures Awaited(c.passiveSocket >= 0, c.timer, peer, result) && (c.connected <==> result > 0)
      ensures !c.connected ==> c.dataSocket == old(c.dataSocket)
    {
      assert NetAgrees(c, false);
      result := peer.answer;
      if c.passiveSocket >= 0 {
        if result >= 0 {
          c.dataSocket := net.Open(c.id, true);
          c.connected := true;
        }
      } else {
        if result == -EINPROGRESS || result == -EALREADY {
          result := -EAGAIN;
        }
        if result >= 0 || result == -EISCONN {
          c.connected := true;
        }
      }
      if c.connected {
        result := 1;
      } else if peer.now > c.timer {
        result := -1;
      }
    }

    /** NET_BUFFER_SIZE is still large. */
    ghost predicate Large()
      reads tuning
    {
      tuning.bufferSize == Net.MAX_NET_BUFFER_SIZE
    }

    /** data_callback */
    method CallBack(callback: Callback, progress: Net.Progress, peer: Peer) returns (result: int, progress': Net.Progress)
      requires tuning.Valid() && OnTrack(callback, progress) && callback != NoCallback
      modifies tuning
      ensures tuning.Valid() && Steps(callback, progress, progress', old(Large()) && !peer.shrunk, peer, result)
    {
      Net.Elsewhere(tuning, peer.shrunk);
      progress' := progress;
      if callback == SendFromFile {
        result, progress' := Net.ContinueDownload(tuning, progress, peer.takes);
      } else if callback == RecvToFile {
        result, progress' := Net.ContinueUpload(tuning, progress, peer.arrived);
      } else {
        result := if peer.listed < 0 && peer.listed != -EAGAIN then peer.listed else 0;
      }
    }

    /** What the turn of a transfer did. */
    twostate predicate Turned(c: Client, progress: Net.Progress, peer: Peer, result: int)
      reads c, tuning
    {
      TurnFits(old(c.callback), old(c.connected), old(c.passiveSocket) >= 0, old(c.timer), old(c.progress), progress,
               old(Large()) && !peer.shrunk, peer, result)
    }

    /** The part of process_data_events before the reply. */
    method StepTransfer(c: Client, peer: Peer) returns (result: int, progress: Net.Progress)
      requires NetBalanced(c, false) && c.callback != NoCallback && tuning.Valid()
      modifies net, tuning, c`dataSocket, c`connected
      ensures NetBalanced(c, false) && net.fds - {c.id} == old(net.fds) - {c.id} && tuning.Valid()
      ensures Turned(c, progress, peer, result) && (c.connected <==> old(c.connected) || result > 0)
      ensures result > 0 || result == -EAGAIN ==> OnTrack(c.callback, progress)
    {
      assert NetAgrees(c, false);
      progress := c.progress;
      if !c.connected {
        result := AwaitConnection(c, peer);
        TurnAwaited(c.callback, c.passiveSocket >= 0, c.timer, progress, old(Large()) && !peer.shrunk, peer, result);
      } else {
        result, progress := CallBack(c.callback, c.progress, peer);
        StepMeans(c.callback, c.progress, progress, old(Large()) && !peer.shrunk, peer, result);
        TurnConnected(c.callback, c.passiveSocket >= 0, c.timer, c.progress, progress, old(Large()) && !peer.shrunk, peer, result);
      }
    }

    /** The end of a transfer: everything is cleaned up, then the client is told. */
    method EndTransfer(c: Client, result: int, delivered: bool) returns (r: int)
      requires Serving(c, Transferring)
      modifies journal, net, disk, c`dataSocket, c`connected, c`callback, c`arg, c`cleanup, c`timer
      ensures r <= 0 && Serving(c, if r < 0 then Closing else Ready) && Others(c.id) == old(Others(c.id))
      ensures c.callback == NoCallback && disk.leaked == old(disk.leaked)
      ensures journal.log == old(journal.log) + [Reply(c.id, Net.CompletionCode(result), delivered)] && (r == 0 <==> delivered)
    {
      assert Engaged(c, Transferring);
      CleanupDataResources(c, false);
      NoLongerHeld(c);
      r := WriteReply(c, Net.CompletionCode(result), Transferring, delivered);
    }

    /** What process_data_events does for the client alone: `r` is negative when it has to go. */
    method TransferTurn(c: Client, peer: Peer) returns (r: int, result: int)
      requires Serving(c, Transferring) && c.callback != NoCallback && tuning.Valid()
      modifies journal, net, disk, tuning, c`dataSocket, c`connected, c`callback, c`arg, c`cleanup, c`timer, c`progress
      ensures r <= 0 && Serving(c, if r < 0 then Closing else c.Standing()) && Others(c.id) == old(Others(c.id))
      ensures disk.leaked == old(disk.leaked) && tuning.Valid() && Turned(c, c.progress, peer, result)
      ensures if result > 0 || result == -EAGAIN
              then r == 0 && journal.log == old(journal.log) && c.callback == old(c.callback)
                   && (c.connected <==> old(c.connected) || result > 0)
              else journal.log == old(journal.log) + [Reply(c.id, Net.CompletionCode(result), peer.told)]
                   && (r == 0 <==> peer.told) && c.callback == NoCallback
    {
      assert Engaged(c, Transferring);
      var progress;
      result, progress := StepTransfer(c, peer);
      r := 0;
      if result <= 0 && result != -EAGAIN {
        r := EndTransfer(c, result, peer.told);
      }
      RecordProgress(c, progress, if r < 0 then Closing else c.Standing());
    }

    method RecordProgress(c: Client, progress: Net.Progress, ghost p: Phase)
      requires Serving(c, p) && OnTrack(c.callback, progress)
      modifies c`progress
      ensures Serving(c, p) && c.progress == progress
    {
      OnFile(c, p);
      SetProgress(c, progress);
      NowServing(c, p);
    }

    method SetProgress(c: Client, progress: Net.Progress)
      requires NetBalanced(c, false) && OnTrack(c.callback, progress)
      modifies c`progress
      ensures NetBalanced(c, false) && c.progress == progress
    {
      assert NetAgrees(c, false);
      c.progress := progress;
      assert c.Shape();
    }

    lemma NobodyApart(c: Client)
      requires c in clients && Apart(c) && InOrder(c)
      ensures Valid()
    {
      assert ApartFrom(c);
      assert ApartFrom(null);
    }

    /** The end of every event: the client is in order again, or it goes. */
    method Settle(c: Client, r: int, ghost p: Phase)
      requires c in clients && Apart(c) && Serving(c, if r < 0 then p else c.Standing()) && (p == Ready || p == Closing)
      requires r >= 0 ==> c.control.Valid()
      modifies `clients, `numClients, `live, journal, net, disk, c`passiveSocket, c`dataSocket, c`connected, c`callback, c`arg, c`cleanup,
               c`timer
      ensures Valid() && |clients| == |old(clients)|
      ensures forall i | 0 <= i < |clients| :: clients[i] == if old(clients)[i] == c && r < 0 then null else old(clients)[i]
      ensures live == (if r < 0 then old(live) - {c.id} else old(live)) && (r >= 0 ==> unchanged(c))
      ensures LinesOf(c.id) == old(LinesOf(c.id)) && disk.leaked == old(disk.leaked)
      ensures journal.log == if r < 0 then old(journal.log) + [Hangup(c.id)] else old(journal.log)
    {
      if r < 0 {
        CleanupClient(c, p);
      } else {
        assert Engaged(c, c.Standing());
        NobodyApart(c);
      }
    }

    /** What a data event logs: nothing while the transfer goes on, else one completion, and a hangup when the client
        could not be told. */
    static ghost function DataLog(before: seq<Event>, id: nat, result: int, told: bool): seq<Event> {
      if result > 0 || result == -EAGAIN then before
      else before + [Reply(id, Net.CompletionCode(result), told)] + if told then [] else [Hangup(id)]
    }

    /** process_data_events: without a connection yet, it is awaited; with one, the callback makes a step, and the transfer
        goes on without a reply, or ends with exactly one: 226 when its last step was the end of it, else 520. A client
        that could not be told leaves. */
    method ProcessDataEvents(c: Client, peer: Peer) returns (result: int)
      requires Valid() && c in clients && c.callback != NoCallback
      modifies `clients, `numClients, `live, journal, net, disk, tuning
      modifies c`passiveSocket, c`dataSocket, c`connected, c`callback, c`arg, c`cleanup, c`timer, c`progress
      ensures Valid() && |clients| == |old(clients)| && disk.leaked == old(disk.leaked)
      ensures var ends := result <= 0 && result != -EAGAIN;
        && (forall i | 0 <= i < |clients| ::
              clients[i] == if old(clients)[i] == c && ends && !peer.told then null else old(clients)[i])
        && (ends && peer.told ==> c.callback == NoCallback)
        && (!ends ==> c.callback == old(c.callback) && (c.connected <==> old(c.connected) || result > 0))
      ensures Turned(c, c.progress, peer, result)
      ensures result == 0 ==> old(c.connected) && Completed(old(c.callback), c.progress)
      ensures journal.log == DataLog(old(journal.log), c.id, result, peer.told)
    {
      var r;
      r, result := TransferAmong(c, peer);
      Settle(c, r, Closing);
    }

    method TransferAmong(c: Client, peer: Peer) returns (r: int, result: int)
      requires Valid() && c in clients && c.callback != NoCallback
      modifies journal, net, disk, tuning, c`dataSocket, c`connected, c`callback, c`arg, c`cleanup, c`timer, c`progress
      ensures r <= 0 && Apart(c) && Serving(c, if r < 0 then Closing else c.Standing())
      ensures c.control.Valid()
      ensures disk.leaked == old(disk.leaked) && Turned(c, c.progress, peer, result)
      ensures result == 0 ==> old(c.connected) && Completed(old(c.callback), c.progress)
      ensures if result > 0 || result == -EAGAIN
              then r == 0 && journal.log == old(journal.log) && c.callback == old(c.callback)
                   && (c.connected <==> old(c.connected) || result > 0)
              else journal.log == old(journal.log) + [Reply(c.id, Net.CompletionCode(result), peer.told)]
                   && (r == 0 <==> peer.told) && c.callback == NoCallback
    {
      ClientInOrder(c);
      OnItsWay(c);
      ghost var callback, connected, passive, timer := c.callback, c.connected, c.passiveSocket >= 0, c.timer;
      ghost var p, large := c.progress, Large() && !peer.shrunk;
      r, result := TransferTurn(c, peer);
      TurnMeans(callback, connected, passive, timer, p, c.progress, large, peer, result);
      OnFile(c, if r < 0 then Closing else c.Standing());
      StillApart(c);
    }

    lemma OnItsWay(c: Client)
      requires Valid() && c in clients && c.callback != NoCallback
      ensures OnTrack(c.callback, c.progress)
    {
      ClientInOrder(c);
      OnFile(c, Transferring);
      assert NetAgrees(c, false);
    }

    // ---- Control events

    /** Client `c` is ready but for `line`, which was taken from its buffer and not dispatched yet; empty lines are not
        dispatched. */
    ghost predicate Owes(c: Client, line: string)
      reads `password, c`callback, c`passiveSocket, c`dataSocket, c`connected, c`arg, c`cleanup, c`timer, c`progress,
            c`authenticated, c.control`consumed, journal, net, disk
    {
      && StandsAt(c.id, Ready) && Balanced(c) && journal.password == password && Tallied() && c.callback == NoCallback
      && c.id in journal.lines && journal.lines[c.id] + (if line == "" then [] else [line]) == NonEmpty(c.control.consumed)
      && (c.id in journal.auth <==> c.authenticated)
    }

    lemma NowOwes(c: Client, line: string, before: seq<string>)
      requires StandsAt(c.id, Ready) && Balanced(c) && journal.password == password && Tallied() && c.callback == NoCallback
      requires c.id in journal.lines && journal.lines[c.id] == NonEmpty(before) && (c.id in journal.auth <==> c.authenticated)
      requires c.control.consumed == before + [line] || (line == "" && c.control.consumed == before)
      ensures Owes(c, line)
    {
      NonEmptyOne(before, line);
    }

    /** A line goes to process_command, unless it is empty. */
    method RunLine(c: Client, line: string, out: Outside) returns (r: int)
      requires Owes(c, line) && NUL !in line && |line| < Framing.FTP_BUFFER_SIZE
      modifies journal, net, disk, c, `password, `reset
      ensures r <= 0 && Others(c.id) == old(Others(c.id)) && old(journal.log) <= journal.log
      ensures Serving(c, if r < 0 then Closing else c.Standing()) && (r < 0 ==> line != "")
      ensures old(disk.leaked) <= disk.leaked
    {
      r := 0;
      if line != "" {
        ghost var h;
        r, h := ProcessCommand(c, line, out);
        LostMore(old(disk.leaked), disk.leaked, StartsTransfer(h) && Found(old(c.cwd), old(c.restartMarker), h, ArgumentOf(line), out)
                                                && out.Loses(old(c.passiveSocket)));
      }
    }

    /** Where a connection stands after lines were run, and maybe one of them, or no more of them, asked for a close. */
    ghost function StandingAfter(c: Client, end: Option<Framing.End>): Phase
      reads c`callback
    {
      if end.None? then c.Standing() else if end.value.Refused? then Closing else Ready
    }

    /** One turn of the scan: a line of the buffer is refused, or taken and run as a command. */
    method ScanStep(c: Client, next: nat, out: Outside) returns (t: Turn, ghost rest: string)
      requires c.control.Scanning(next) && Serving(c, Ready) && c.callback == NoCallback
      modifies journal, net, disk, c, `password, `reset, c.control`consumed, c.control.buf
      ensures Others(c.id) == old(Others(c.id)) && old(journal.log) <= journal.log
      ensures Serving(c, StandingAfter(c, if t.Stop? then Some(t.end) else None))
      ensures t.Quiet? ==> c.control.Scanning(next) && c.control.NoneLeft(next) && c.callback == NoCallback
      ensures t.More? ==> c.control.Scanning(t.next) && t.next >= next + 2
      ensures t.Stop? ==> c.control.Stopped(rest, t.end) && !t.end.Open?
      ensures old(disk.leaked) <= disk.leaked
    {
      assert Engaged(c, Ready);
      rest := c.control.buf[next..c.control.offset];
      ghost var before := c.control.consumed;
      var taken := c.control.NextLine(next);
      NowOwes(c, if taken.Line? then taken.text else "", before);
      if taken.NoLine? {
        return Quiet, rest;
      }
      if taken.Bad? {
        return Stop(Framing.BadLine), rest;
      }
      var r := RunLine(c, taken.text, out);
      if r < 0 {
        c.control.IsRefused(taken.next);
        return Stop(Framing.Refused), c.control.buf[taken.next..c.control.offset];
      }
      return More(taken.next), rest;
    }

    /** The scan: lines are taken and run until none is complete, a transfer begins, or the connection must close. */
    method Scan(c: Client, outs: nat -> Outside) returns (next: nat, end: Option<Framing.End>, ghost rest: string)
      requires c.control.Scanning(0) && Serving(c, Ready) && c.callback == NoCallback
      modifies journal, net, disk, c, `password, `reset, c.control`consumed, c.control.buf
      ensures Others(c.id) == old(Others(c.id)) && old(journal.log) <= journal.log
      ensures Serving(c, StandingAfter(c, end))
      ensures end.None? ==> c.control.Scanning(next) && (next >= 2 || (next == 0 && c.callback == NoCallback))
      ensures end.None? && c.callback == NoCallback ==> c.control.NoneLeft(next)
      ensures end.Some? ==> c.control.Stopped(rest, end.value) && !end.value.Open?
      ensures old(disk.leaked) <= disk.leaked
    {
      next, end, rest := 0, None, "";
      var line := 0;
      var quiet := false;
      while !quiet && c.callback == NoCallback
        invariant Others(c.id) == old(Others(c.id)) && old(journal.log) <= journal.log && Serving(c, c.Standing())
        invariant c.control.Scanning(next) && (next >= 2 || (next == 0 && c.callback == NoCallback)) && (quiet ==> c.control.NoneLeft(next))
        invariant old(disk.leaked) <= disk.leaked
        decreases c.control.offset - next, !quiet
      {
        var t;
        t, rest := ScanStep(c, next, outs(line));
        line := line + 1;
        if t.Stop? {
          end := Some(t.end);
          return;
        }
        if t.Quiet? {
          quiet := true;
        } else {
          next := t.next;
        }
      }
    }

    /** What a read leads to. The bytes end up in the buffer; an error, the end of the stream, or a NUL among the bytes loses
        the connection. */
    method ReadOnce(c: Client, read: Read) returns (pause: Pause)
      requires c.control.Valid() && Serving(c, Ready)
      requires read.Bytes? ==> |read.data| <= Framing.CAPACITY - c.control.offset
      modifies c.control`received, c.control`offset, c.control.buf
      ensures Serving(c, Ready)
      ensures c.control.received == old(c.control.received) + if read.Bytes? then read.data else ""
      ensures pause == if read == Silence then Waiting else if Fatal(read) then Lost else Again
      ensures pause == Again ==> c.control.Scanning(0)
      ensures pause == Waiting ==> c.control.Valid()
    {
      assert Engaged(c, Ready);
      if read == Silence {
        return Waiting;
      }
      if read == Broken || read.data == "" {
        return Lost;
      }
      var noNul := c.control.Receive(read.data);
      return if noNul then Again else Lost;
    }

    /** Scanning once: afterwards the buffer is as between events, and paused exactly when a transfer began; or the
        connection must close. */
    method ScanOnce(c: Client, outs: nat -> Outside) returns (end: Option<Framing.End>, ghost rest: string)
      requires c.control.Scanning(0) && Serving(c, Ready) && c.callback == NoCallback
      modifies journal, net, disk, c, `password, `reset
      modifies c.control`consumed, c.control`offset, c.control`paused, c.control.buf
      ensures Others(c.id) == old(Others(c.id)) && old(journal.log) <= journal.log
      ensures Serving(c, StandingAfter(c, end))
      ensures end.None? ==> c.control.Valid() && (c.control.paused <==> c.callback != NoCallback)
      ensures end.Some? ==> c.control.Stopped(rest, end.value) && !end.value.Open?
      ensures old(disk.leaked) <= disk.leaked
    {
      assert Engaged(c, Ready);
      var next;
      next, end, rest := Scan(c, outs);
      if end.None? {
        var full := c.control.MakeRoom(next, c.callback != NoCallback);
        if full {
          return Some(Framing.TooLong), c.control.buf[..c.control.offset];
        }
      }
    }

    /** A read and the scan after it. `pause` is Again when the connection is to be looked at once more. */
    method ControlTurn(c: Client, read: Read, outs: nat -> Outside) returns (pause: Pause, ghost rest: string)
      requires c.control.Valid() && Serving(c, Ready) && c.callback == NoCallback
      requires read.Bytes? ==> |read.data| <= Framing.CAPACITY - c.control.offset
      modifies journal, net, disk, c, `password, `reset, c.control, c.control.buf
      ensures Others(c.id) == old(Others(c.id)) && old(journal.log) <= journal.log
      ensures Serving(c, StandingAfter(c, if pause.Closed? then Some(pause.end) else None))
      ensures c.control.received == old(c.control.received) + if read.Bytes? then read.data else ""
      ensures (pause.Lost? <==> Fatal(read)) && (pause.Waiting? <==> read == Silence)
      ensures pause.Again? || pause.Waiting? ==> c.control.Valid()
      ensures pause.Waiting? || pause.Lost? ==> c.callback == NoCallback
      ensures pause.Again? || pause.Waiting? ==> (c.control.paused ==> old(c.control.paused) || c.callback != NoCallback)
      ensures pause.Closed? ==> c.control.Stopped(rest, pause.end) && !pause.end.Open?
      ensures old(disk.leaked) <= disk.leaked
    {
      rest := "";
      pause := ReadOnce(c, read);
      if pause == Again {
        var end;
        end, rest := ScanOnce(c, outs);
        if end.Some? {
          pause := Closed(end.value);
        }
      }
    }

    /** The loop of process_control_events, over what the peer has in store: `taken` are the reads it made, and `left` is
        what it did not come to. */
    method ServeControl(c: Client, incoming: seq<Read>, outs: nat -> nat -> Outside)
      returns (pause: Pause, ghost rest: string, ghost taken: seq<Read>, ghost left: seq<Read>)
      requires c.control.Valid() && Serving(c, Ready) && c.callback == NoCallback
      modifies journal, net, disk, c, `password, `reset, c.control, c.control.buf
      ensures Others(c.id) == old(Others(c.id)) && old(journal.log) <= journal.log
      ensures Serving(c, StandingAfter(c, if pause.Closed? then Some(pause.end) else None))
      ensures Taken(incoming, taken, left) && EndedBy(taken, pause)
      ensures c.control.received == old(c.control.received) + Gathered(taken)
      ensures pause.Again? || pause.Waiting? ==> c.control.Valid()
      ensures pause.Again? <==> c.callback != NoCallback && !pause.Closed?
      ensures pause.Again? || pause.Waiting? ==> (c.control.paused ==> old(c.control.paused) || c.callback != NoCallback)
      ensures pause.Closed? ==> c.control.Stopped(rest, pause.end) && !pause.end.Open?
      ensures old(disk.leaked) <= disk.leaked
    {
      var store, turn := incoming, 0;
      pause, rest, taken, left := Again, "", [], incoming;
      while pause == Again && c.callback == NoCallback
        invariant Others(c.id) == old(Others(c.id)) && old(journal.log) <= journal.log
        invariant Serving(c, StandingAfter(c, if pause.Closed? then Some(pause.end) else None))
        invariant ReadUpTo(incoming, taken, left, pause) && left == store
        invariant taken == [] ==> pause == Again && c.callback == NoCallback
        invariant c.control.received == old(c.control.received) + Gathered(taken)
        invariant pause.Again? || pause.Waiting? ==> c.control.Valid()
        invariant pause.Waiting? || pause.Lost? ==> c.callback == NoCallback
        invariant pause.Again? || pause.Waiting? ==> (c.control.paused ==> old(c.control.paused) || c.callback != NoCallback)
        invariant pause.Closed? ==> c.control.Stopped(rest, pause.end) && !pause.end.Open?
        invariant old(disk.leaked) <= disk.leaked
        decreases InStore(store), pause == Again
      {
        var room := Framing.CAPACITY - c.control.offset;
        var read := NextRead(store, room);
        StoreShrinks(store, room);
        pause, rest := ControlTurn(c, read, outs(turn));
        ReadOneMore(incoming, taken, left, room, old(c.control.received), pause);
        turn := turn + 1;
        store := AfterRead(store, room);
        taken, left := taken + [read], store;
      }
      ReadAll(incoming, taken, left, pause);
    }

    method ControlAmong(c: Client, incoming: seq<Read>, outs: nat -> nat -> Outside)
      returns (pause: Pause, ghost rest: string, ghost taken: seq<Read>, ghost left: seq<Read>)
      requires Valid() && c in clients && c.callback == NoCallback
      modifies journal, net, disk, c, `password, `reset, c.control, c.control.buf
      ensures Apart(c) && Serving(c, StandingAfter(c, if pause.Closed? then Some(pause.end) else None))
      ensures Taken(incoming, taken, left) && EndedBy(taken, pause)
      ensures old(journal.log) <= journal.log && c.control.received == old(c.control.received) + Gathered(taken)
      ensures pause.Again? || pause.Waiting? ==> c.control.Valid()
      ensures pause.Again? <==> c.callback != NoCallback && !pause.Closed?
      ensures pause.Again? || pause.Waiting? ==> (c.control.paused ==> old(c.control.paused) || c.callback != NoCallback)
      ensures pause.Closed? ==> c.control.Stopped(rest, pause.end) && !pause.end.Open?
      ensures old(disk.leaked) <= disk.leaked
    {
      ClientInOrder(c);
      BufferOfItsOwn(c);
      pause, rest, taken, left := ServeControl(c, incoming, outs);
      OnFile(c, StandingAfter(c, if pause.Closed? then Some(pause.end) else None));
      StillApart(c);
    }

    /** process_control_events: reads and runs commands until the peer has no more for now (Waiting), a transfer begins
        (Again), or the client leaves: because its connection is gone (Lost), which is so exactly when the last read was an
        error, the end of the stream or had a NUL in it, or because it has to be closed (Closed). What was read, and no
        more, is accounted for to the byte, and every complete non-empty line went to process_command, in order. */
    method ProcessControlEvents(c: Client, incoming: seq<Read>, outs: nat -> nat -> Outside)
      returns (pause: Pause, ghost rest: string, ghost taken: seq<Read>, ghost left: seq<Read>)
      requires Valid() && c in clients && c.callback == NoCallback
      modifies this, journal, net, disk, c, c.control, c.control.buf
      ensures Valid() && |clients| == |old(clients)| && old(journal.log) <= journal.log
      ensures forall i | 0 <= i < |clients| ::
        clients[i] == if old(clients)[i] == c && (pause.Lost? || pause.Closed?) then null else old(clients)[i]
      ensures Taken(incoming, taken, left) && EndedBy(taken, pause)
      ensures LinesOf(c.id) == NonEmpty(c.control.consumed) && c.control.received == old(c.control.received) + Gathered(taken)
      ensures pause.Again? ==> c.callback != NoCallback
      ensures pause.Closed? ==> c.control.Stopped(rest, pause.end) && !pause.end.Open?
      ensures pause.Waiting? && !old(c.control.paused) ==> c.control.Stopped(rest, Framing.Open(rest)) && !c.control.paused
      ensures old(disk.leaked) <= disk.leaked
    {
      pause, rest, taken, left := ControlAmong(c, incoming, outs);
      assert Engaged(c, StandingAfter(c, if pause.Closed? then Some(pause.end) else None));
      if pause.Waiting? && !c.control.paused {
        c.control.IsOpen();
        rest := c.control.buf[..c.control.offset];
      }
      Settle(c, if pause.Again? || pause.Waiting? then 0 else -1, if pause == Closed(Framing.Refused) then Closing else Ready);
    }

    // ---- New clients

    /** A number that no connection ever had. */
    lemma NewId() returns (id: nat)
      requires Valid()
      ensures id !in journal.phases && id !in live && id !in net.fds && id !in disk.held
      ensures journal.Valid() && net.Valid() && disk.Valid() && journal.password == password && Tallied() && tuning.Valid()
    {
      assert ApartFrom(null);
      id := Above(journal.phases.Keys + live.Keys);
    }

    /** Client `c` was greeted, and only has no slot yet; everybody is in order. */
    ghost predicate Arriving(c: Client)
      reads this, journal, net, disk, tuning, c, c.control, c.control.buf, (set d: Client | d in clients :: d),
            (set d: Client | d in clients :: d.control), (set d: Client | d in clients :: d.control.buf)
    {
      && Table() && c !in clients && c.id !in live && InOrder(c)
      && journal.Valid() && net.Valid() && disk.Valid() && journal.password == password && Tallied() && tuning.Valid()
      && net.fds.Keys == live.Keys + {c.id} && disk.held.Keys == live.Keys + {c.id}
      && (forall id | id in journal.phases :: id in live || id == c.id || journal.phases[id] == Gone)
      && (forall d: Client | d in clients :: d.control != c.control && d.control.buf != c.control.buf)
      && forall d: Client {:trigger InOrder(d)} | d in clients :: InOrder(d)
    }

    /** The table is as it was, and so is everything on file but for connection `id`. */
    twostate predicate Beside(id: nat)
      reads this, journal, net, disk, tuning
    {
      && unchanged(`clients) && unchanged(`numClients) && unchanged(`live)
      && journal.Valid() && net.Valid() && disk.Valid() && journal.password == password && Tallied() && tuning.Valid()
      && id !in old(live) && Others(id) == old(Others(id))
    }

    twostate lemma IsArriving(new c: Client)
      requires old(Valid()) && Beside(c.id) && InOrder(c) && fresh(c) && fresh(c.control) && fresh(c.control.buf)
      requires forall d: Client | d in clients :: unchanged(d) && unchanged(d.control) && unchanged(d.control.buf)
      ensures Arriving(c)
    {
      assert NetAgrees(c, false) && DiskAgrees(c.id, c.Held());
      ArrivalOnFile(c.id);
      OthersBeside(c.id);
    }

    twostate lemma ArrivalOnFile(id: nat)
      requires old(Valid()) && Beside(id) && id in net.fds && id in disk.held
      ensures net.fds.Keys == live.Keys + {id} && disk.held.Keys == live.Keys + {id}
      ensures forall k | k in journal.phases :: k in live || k == id || journal.phases[k] == Gone
    {
      assert old(ApartFrom(null));
      PhasesKept(journal.phases, old(journal.phases), id, live.Keys);
      KeyAdded(net.fds, old(net.fds), id);
      KeyAdded(disk.held, old(disk.held), id);
    }

    twostate lemma OthersBeside(id: nat)
      requires old(Valid()) && Beside(id)
      requires forall d: Client | d in clients :: unchanged(d) && unchanged(d.control) && unchanged(d.control.buf)
      ensures Table() && forall d: Client {:trigger InOrder(d)} | d in clients :: InOrder(d)
    {
      assert old(ApartFrom(null));
      OthersInOrder(id);
    }

    /** A connection that never made it into the table leaves everybody in order. */
    twostate lemma NobodyCame(id: nat)
      requires old(Valid()) && Beside(id) && id !in net.fds && id !in disk.held
      requires id in journal.phases ==> journal.phases[id] == Gone
      requires forall d: Client | d in clients :: unchanged(d) && unchanged(d.control) && unchanged(d.control.buf)
      ensures Valid()
    {
      assert old(ApartFrom(null));
      PhasesKept(journal.phases, old(journal.phases), id, live.Keys);
      KeyGone(net.fds, old(net.fds), id);
      KeyGone(disk.held, old(disk.held), id);
      OthersInOrder(id);
      assert ApartFrom(null);
    }

    /** The new client and its greeting. */
    method Greet(peer: int, ghost id: nat, delivered: bool) returns (c: Client, r: int)
      requires net.Valid() && disk.Valid() && journal.Valid() && journal.password == password && Tallied()
      requires id in net.fds && net.fds[id] == {peer} && peer >= 0 && id !in disk.held && id !in journal.phases
      modifies journal, disk
      ensures fresh(c) && fresh(c.control) && fresh(c.control.buf) && c.id == id && c.socket == peer && c.callback == NoCallback
      ensures c.control.Valid() && !c.control.paused && c.control.offset == 0
      ensures c.control.received == "" && c.control.consumed == [] && c.restartMarker == 0
      ensures c.cwd == "/" && !c.authenticated && c.passiveSocket == -1
      ensures r <= 0 && (r == 0 <==> delivered)
      ensures Serving(c, if r < 0 then Closing else Ready) && Others(id) == old(Others(id))
      ensures disk.leaked == old(disk.leaked)
      ensures journal.log == old(journal.log) + [Connect(id)] + [Reply(id, 220, r == 0)]
    {
      c := new Client(id, peer);
      journal.Connected(id);
      disk.Welcome(id);
      r := WriteReply(c, 220, Greeting, delivered);
      assert Engaged(c, if r < 0 then Closing else Ready);
    }

    /** The first free slot; there is one, as `numClients` is right. */
    method TakeSlot(c: Client) returns (slot: nat)
      requires Table() && c !in clients && c.id !in live && numClients != MAX_CLIENTS
      requires forall d: Client | d in clients :: d.control != c.control && d.control.buf != c.control.buf
      modifies `clients, `numClients, `live
      ensures Table() && live == old(live)[c.id := c]
      ensures slot < |old(clients)| && old(clients)[slot] == null && (forall k | 0 <= k < slot :: old(clients)[k] != null)
      ensures clients == old(clients)[slot := c] && forall d: Client :: d in clients <==> d == c || d in old(clients)
      ensures numClients == old(numClients) + 1
    {
      slot := 0;
      OccupiedAtLeast(clients, 0);
      FreeSlot(clients);
      while clients[slot] != null
        invariant 0 <= slot < |clients| && forall k | 0 <= k < slot :: clients[k] != null
        decreases |clients| - slot
      {
        slot := slot + 1;
      }
      FillSlot(clients, slot, c);
      OneMore(clients, slot, c);
      clients := clients[slot := c];
      numClients := numClients + 1;
      live := live[c.id := c];
    }

    /** The table takes the client in; nothing else moves. */
    method Seat(c: Client) returns (slot: nat)
      requires Arriving(c) && numClients != MAX_CLIENTS
      modifies `clients, `numClients, `live
      ensures Valid()
      ensures slot < |old(clients)| && old(clients)[slot] == null && (forall k | 0 <= k < slot :: old(clients)[k] != null)
      ensures clients == old(clients)[slot := c] && numClients == old(numClients) + 1
    {
      slot := TakeSlot(c);
      AllSeated(c);
      assert ApartFrom(null);
    }

    twostate lemma AllSeated(c: Client)
      requires old(Arriving(c)) && unchanged(journal) && unchanged(net) && unchanged(disk)
      requires forall d: Client | d in clients :: d == c || d in old(clients)
      requires forall d: Client | d in clients :: unchanged(d) && unchanged(d.control) && unchanged(d.control.buf)
      ensures forall d: Client {:trigger InOrder(d)} | d in clients :: InOrder(d)
    {
      assert forall d: Client | d in clients :: old(InOrder(d));
    }

    /** The table is full: the new connection is closed without a word. */
    method TurnAway(peer: int, ghost id: nat)
      requires net.Valid() && id in net.fds && net.fds[id] == {peer}
      modifies net
      ensures net.Valid() && id !in net.fds && net.fds - {id} == old(net.fds) - {id}
    {
      net.Close(peer, id);
      assert net.fds[id] == {};
      net.Forget(id);
    }

    /** The greeting failed: the new client is forgotten. */
    method Dismiss(c: Client)
      requires Serving(c, Closing) && c.callback == NoCallback && c.passiveSocket == -1
      modifies journal, net, disk
      ensures journal.Valid() && net.Valid() && disk.Valid() && journal.password == password && Tallied()
      ensures c.id !in net.fds && c.id !in disk.held && c.id in journal.phases && journal.phases[c.id] == Gone
      ensures Others(c.id) == old(Others(c.id)) && disk.leaked == old(disk.leaked)
      ensures journal.log == old(journal.log) + [Hangup(c.id)]
    {
      OnFile(c, Closing);
      assert NetAgrees(c, false) && DiskAgrees(c.id, c.Held());
      assert c.Fds() == {c.socket};
      TurnAway(c.socket, c.id);
      disk.Forget(c.id);
      journal.HungUp(c.id);
    }

    /** A connection attempt, up to the table: `c` is the new client, if there is one to seat. */
    method Accept(knocks: seq<Knock>, ghost id: nat) returns (a: Arrival, c: Client?)
      requires journal.Valid() && net.Valid() && disk.Valid() && journal.password == password && Tallied()
      requires id !in journal.phases && id !in net.fds && id !in disk.held
      modifies journal, net, disk
      ensures journal.Valid() && net.Valid() && disk.Valid() && journal.password == password && Tallied()
      ensures Others(id) == old(Others(id)) && disk.leaked == old(disk.leaked)
      ensures c == null ==> !a.Seated? && id !in net.fds && id !in disk.held && (id in journal.phases ==> journal.phases[id] == Gone)
      ensures c != null ==> fresh(c) && fresh(c.control) && fresh(c.control.buf) && c.id == id && InOrder(c)
      ensures (c != null <==> a.Seated?) && (c != null ==> numClients != MAX_CLIENTS)
      ensures a == ArrivalOf(knocks, numClients) && journal.log == old(journal.log) + ArrivalEvents(a, id)
    {
      c := null;
      if knocks == [] {
        return Nobody, null;
      }
      if knocks[0] == AcceptFails {
        return Failed, null;
      }
      var peer := net.Accept(id, true);
      if numClients == MAX_CLIENTS {
        TurnAway(peer, id);
        return Full, null;
      }
      var r;
      c, r := Greet(peer, id, knocks[0].greeted);
      if r < 0 {
        Dismiss(c);
        return Ungreeted, null;
      }
      OnFile(c, Ready);
      return Seated, c;
    }

    /** One turn of process_accept_events: a client that was greeted gets the first free slot. */
    method AcceptOne(knocks: seq<Knock>) returns (a: Arrival, ghost id: nat, slot: nat, c: Client?)
      requires Valid()
      modifies `clients, `numClients, `live, journal, net, disk
      ensures Valid() && disk.leaked == old(disk.leaked) && journal.log == old(journal.log) + ArrivalEvents(a, id)
      ensures a == ArrivalOf(knocks, old(numClients)) && numClients == old(numClients) + if a.Seated? then 1 else 0
      ensures !a.Seated? ==> clients == old(clients)
      ensures a.Seated? ==> slot < |old(clients)| && old(clients)[slot] == null && forall k | 0 <= k < slot :: old(clients)[k] != null
      ensures a.Seated? ==> c != null && fresh(c) && fresh(c.control) && fresh(c.control.buf) && clients == old(clients)[slot := c]
    {
      id := NewId();
      a, c := Accept(knocks, id);
      if c == null {
        NobodyCame(id);
        slot := 0;
      } else {
        IsArriving(c);
        slot := Seat(c);
      }
    }

    /** Whoever is in the table was there before, or is new. */
    twostate predicate OldOrNew()
      reads this, (set c: Client | c in clients :: c)
    {
      forall c: Client | c in clients :: c in old(clients) || (fresh(c) && fresh(c.control) && fresh(c.control.buf))
    }

    /** Whoever had a slot has it still. */
    twostate predicate SlotsKept()
      reads this
    {
      |clients| == |old(clients)| && forall i | 0 <= i < |clients| && old(clients)[i] != null :: clients[i] == old(clients)[i]
    }

    /** process_accept_events: takes in clients until nobody is waiting, the table is full, or accepting fails, which
        means that the network is down. */
    method ProcessAcceptEvents(knocks: seq<Knock>) returns (up: bool, ghost ids: seq<nat>)
      requires Valid()
      modifies `clients, `numClients, `live, journal, net, disk
      ensures Valid() && disk.leaked == old(disk.leaked)
      ensures up <==> Failed !in Arrivals(knocks, old(numClients))
      ensures |ids| == |Arrivals(knocks, old(numClients))|
      ensures journal.log == old(journal.log) + ArrivalLog(Arrivals(knocks, old(numClients)), ids)
      ensures numClients == old(numClients) + Seats(Arrivals(knocks, old(numClients)))
      ensures SlotsKept() && OldOrNew()
    {
      var last;
      ghost var came, store, events;
      ghost var n := numClients;
      last, came, ids, store, events := AcceptAll(knocks);
      assert LoggedAs(events, came, ids);
      CameAll(knocks, n, came, store, numClients, last);
      up := last != Failed;
    }

    /** The loop of process_accept_events: `came` are the attempts it dealt with, `last` being the one that ended it. */
    method AcceptAll(knocks: seq<Knock>)
      returns (last: Arrival, ghost came: seq<Arrival>, ghost ids: seq<nat>, ghost left: seq<Knock>,
               ghost events: seq<Event>)
      requires Valid()
      modifies `clients, `numClients, `live, journal, net, disk
      ensures Valid() && disk.leaked == old(disk.leaked)
      ensures CameSoFar(knocks, old(numClients), came, left, numClients, last) && !GoesOn(last)
      ensures Logged(events, came, ids) && journal.log == old(journal.log) + events
      ensures SlotsKept() && OldOrNew()
    {
      var store := knocks;
      last, came, ids, events := Seated, [], [], [];
      CameNone(knocks, numClients);
      LoggedNone();
      while GoesOn(last)
        invariant Valid() && disk.leaked == old(disk.leaked)
        invariant CameSoFar(knocks, old(numClients), came, store, numClients, last)
        invariant Logged(events, came, ids) && journal.log == old(journal.log) + events
        invariant SlotsKept() && OldOrNew()
        decreases |store|, GoesOn(last)
      {
        var slot, c;
        ghost var id;
        CameOne(knocks, old(numClients), came, store, numClients, last);
        last, id, slot, c := AcceptOne(store);
        LoggedOne(events, came, ids, last, id, old(journal.log));
        came, ids, events := came + [last], ids + [id], events + ArrivalEvents(last, id);
        if GoesOn(last) {
          store := store[1..];
        }
      }
      left := store;
    }

    lemma FewerThan(was: seq<Client?>)
      requires Valid() && |clients| == |was| && forall k | 0 <= k < |was| :: clients[k] == was[k] || clients[k] == null
      ensures numClients <= Occupied(was)
    {
      assert ApartFrom(null);
      OccupiedFewer(clients, was);
    }

    lemma TableSize()
      requires Valid()
      ensures |clients| == MAX_CLIENTS && numClients == Occupied(clients)
    {
      assert ApartFrom(null);
    }

    /** What a visit did for the client. */
    twostate predicate Visited(c: Client, v: Visitor, visit: Visit)
      reads c, c.control
    {
      VisitFits(old(c.callback), old(c.connected), old(c.passiveSocket) >= 0, old(c.timer), old(c.progress), c.progress,
                old(c.control.received), c.control.received, v, visit)
    }

    /** What process_ftp_events does for one slot. */
    method ProcessClient(i: nat, v: Visitor) returns (ghost visit: Visit)
      requires Valid() && i < |clients|
      modifies this, journal, net, disk, tuning, if clients[i] == null then {} else {clients[i]},
               if clients[i] == null then {} else {clients[i].control}, if clients[i] == null then {} else {clients[i].control.buf}
      ensures Valid() && old(journal.log) <= journal.log && old(disk.leaked) <= disk.leaked
      ensures clients == old(clients)[i := if Stays(visit, v.peer.told) then old(clients)[i] else null]
      ensures if old(clients)[i] == null then visit == NoVisit && journal.log == old(journal.log)
              else Visited(old(clients)[i], v, visit)
      ensures visit.Transfer? ==> journal.log == DataLog(old(journal.log), old(clients)[i].id, visit.result, v.peer.told)
    {
      var c := clients[i];
      visit := NoVisit;
      if c != null {
        SlotOf(c, i);
        if c.callback != NoCallback {
          var result := ProcessDataEvents(c, v.peer);
          visit := Transfer(result);
        } else {
          var pause;
          ghost var rest, taken, left;
          pause, rest, taken, left := ProcessControlEvents(c, v.incoming, v.outs);
          visit := Talk(pause, rest, taken, left);
        }
      }
    }

    /** No two slots have the same client, or share a buffer. */
    lemma SlotsApart()
      requires Valid()
      ensures |clients| == MAX_CLIENTS
      ensures forall j, k | 0 <= j < |clients| && 0 <= k < |clients| && j != k && clients[j] != null && clients[k] != null ::
        clients[j] != clients[k] && clients[j].control != clients[k].control
    {
      assert ApartFrom(null);
      assert forall k | 0 <= k < |clients| && clients[k] != null :: clients[k] in clients;
    }

    lemma SlotOf(c: Client, i: nat)
      requires Valid() && i < |clients| && clients[i] == c
      ensures c in clients && forall k | 0 <= k < |clients| && k != i :: clients[k] != c
    {
      SlotsApart();
    }

    /** The visit to slot `k`, with its client if it had one, went as it should, and the client stays or goes. */
    twostate predicate SlotVisited(was: Client?, k: nat, v: Visitor, visit: Visit)
      requires k < |clients|
      reads `clients, if was == null then {} else {was, was.control}
    {
      was != null ==> Visited(was, v, visit) && clients[k] == if Stays(visit, v.peer.told) then was else null
    }

    /** Those who have or had the other slots are left alone. */
    method VisitOne(i: nat, v: Visitor, ghost was: seq<Client?>) returns (ghost visit: Visit)
      requires Valid() && i < |clients| == |was| && clients[i] == was[i]
      requires forall k | 0 <= k < |was| && k != i && was[k] != null && was[i] != null ::
        was[k] != was[i] && was[k].control != was[i].control
      modifies this, journal, net, disk, tuning, if clients[i] == null then {} else {clients[i]},
               if clients[i] == null then {} else {clients[i].control}, if clients[i] == null then {} else {clients[i].control.buf}
      ensures Valid() && old(journal.log) <= journal.log && old(disk.leaked) <= disk.leaked
      ensures clients == old(clients)[i := if Stays(visit, v.peer.told) then was[i] else null] && (was[i] == null ==> visit == NoVisit)
      ensures was[i] != null ==> Visited(was[i], v, visit)
      ensures forall k | 0 <= k < |was| && k != i && was[k] != null :: unchanged(was[k]) && unchanged(was[k].control)
    {
      visit := ProcessClient(i, v);
    }

    /** The clients are visited in turn. */
    method VisitAll(visitors: nat -> Visitor) returns (ghost visits: seq<Visit>)
      requires Valid()
      modifies this, journal, net, disk, tuning, (set c: Client | c in clients :: c), (set c: Client | c in clients :: c.control),
               (set c: Client | c in clients :: c.control.buf)
      ensures Valid() && old(journal.log) <= journal.log && old(disk.leaked) <= disk.leaked
      ensures |visits| == |clients| == |old(clients)| == MAX_CLIENTS
      ensures forall k | 0 <= k < MAX_CLIENTS :: SlotVisited(old(clients)[k], k, visitors(k), visits[k])
      ensures forall k | 0 <= k < MAX_CLIENTS :: clients[k] == old(clients)[k] || clients[k] == null
    {
      SlotsApart();
      visits := [];
      ghost var was, after := clients, [];
      for i := 0 to MAX_CLIENTS
        invariant Valid() && |visits| == |after| == i && |clients| == MAX_CLIENTS
        invariant old(journal.log) <= journal.log && old(disk.leaked) <= disk.leaked
        invariant forall k | i <= k < MAX_CLIENTS :: Waits(was[k], k)
        invariant forall k | 0 <= k < i :: clients[k] == if Stays(visits[k], visitors(k).peer.told) then was[k] else null
        invariant forall k | 0 <= k < i && was[k] != null :: (was[k].progress, was[k].control.received) == after[k]
        invariant forall k | 0 <= k < i && was[k] != null ::
          VisitFits(old(was[k].callback), old(was[k].connected), old(was[k].passiveSocket) >= 0, old(was[k].timer),
                    old(was[k].progress), after[k].0, old(was[k].control.received), after[k].1, visitors(k), visits[k])
      {
        ghost var c := was[i];
        assert Waits(c, i) && (c != null ==> c in old(clients));
        ghost var visit := VisitOne(i, visitors(i), was);
        visits, after := visits + [visit], after + [if c == null then (Net.Fresh([], 0, 0, 0), "") else (c.progress, c.control.received)];
      }
    }

    /** Nothing has happened to slot `k` yet. */
    twostate predicate Waits(was: Client?, k: nat)
      requires k < |clients|
      reads `clients, if was == null then {} else {was, was.control}
    {
      clients[k] == was && (was != null ==> unchanged(was) && unchanged(was.control))
    }

    /** process_ftp_events: new clients first, then every client in turn, each for what the outside world has in store for it. */
    method ProcessFtpEvents(round: Round) returns (networkDown: bool, ghost ids: seq<nat>, ghost visits: seq<Visit>)
      requires Valid()
      modifies this, journal, net, disk, tuning, (set c: Client | c in clients :: c), (set c: Client | c in clients :: c.control),
               (set c: Client | c in clients :: c.control.buf)
      ensures Valid() && OldOrNew() && old(disk.leaked) <= disk.leaked
      ensures numClients <= old(numClients) + Seats(Arrivals(round.knocks, old(numClients)))
      ensures networkDown <==> Failed in Arrivals(round.knocks, old(numClients))
      ensures |ids| == |Arrivals(round.knocks, old(numClients))|
      ensures old(journal.log) + ArrivalLog(Arrivals(round.knocks, old(numClients)), ids) <= journal.log
      ensures |visits| == |clients| == |old(clients)| == MAX_CLIENTS
      ensures forall k | 0 <= k < MAX_CLIENTS :: SlotVisited(old(clients)[k], k, round.visitors(k), visits[k])
    {
      TableSize();
      var up;
      up, ids := ProcessAcceptEvents(round.knocks);
      TableSize();
      ghost var seated := clients;
      visits := VisitAll(round.visitors);
      FewerThan(seated);
      networkDown := !up;
    }

    /** What the shutdown logs for the first `n` slots: everybody there is told 421 and then hung up on. */
    static ghost function Goodbyes(slots: seq<Client?>, told: nat -> bool, n: nat): seq<Event>
      requires n <= |slots|
    {
      if n == 0 then []
      else
        var c := slots[n - 1];
        Goodbyes(slots, told, n - 1) + if c == null then [] else [Reply(c.id, 421, told(n - 1)), Hangup(c.id)]
    }

    static lemma OneMoreGoodbye(before: seq<Event>, slots: seq<Client?>, told: nat -> bool, n: nat)
      requires n < |slots|
      ensures before + Goodbyes(slots, told, n + 1) ==
              if slots[n] == null then before + Goodbyes(slots, told, n)
              else before + Goodbyes(slots, told, n) + [Reply(slots[n].id, 421, told(n))] + [Hangup(slots[n].id)]
    {
    }

    method BidFarewell(c: Client, told: bool) returns (r: int)
      requires Valid() && c in clients
      modifies journal
      ensures r <= 0 && Apart(c) && Serving(c, Closing) && journal.log == old(journal.log) + [Reply(c.id, 421, told)]
    {
      ClientInOrder(c);
      OnFile(c, c.Standing());
      r := WriteReply(c, 421, c.Standing(), told);
      StillApart(c);
    }

    /** cleanup_ftp: every client is told, and goes. Nothing stays open but the handles that were lost before. */
    method CleanupFtp(told: nat -> bool)
      requires Valid()
      modifies this, journal, net, disk, (set c: Client | c in clients :: c)
      ensures Valid() && journal.Valid() && Tallied() && reset == old(reset)
      ensures |old(clients)| == MAX_CLIENTS && journal.log == old(journal.log) + Goodbyes(old(clients), told, MAX_CLIENTS)
      ensures net.open == {} && disk.open == disk.leaked == old(disk.leaked)
      ensures forall id | id in journal.phases :: journal.phases[id] == Gone
    {
      SlotsApart();
      for i := 0 to MAX_CLIENTS
        invariant Valid() && disk.leaked == old(disk.leaked) && |clients| == |old(clients)| == MAX_CLIENTS && reset == old(reset)
        invariant journal.log == old(journal.log) + Goodbyes(old(clients), told, i)
        invariant forall k | 0 <= k < i :: clients[k] == null
        invariant forall k | i <= k < MAX_CLIENTS :: clients[k] == old(clients)[k]
      {
        OneMoreGoodbye(old(journal.log), old(clients), told, i);
        var c := clients[i];
        if c != null {
          SlotOf(c, i);
          assert c in old(clients);
          var r := BidFarewell(c, told(i));
          CleanupClient(c, Closing);
        }
      }
      EverybodyLeft();
    }

    lemma EverybodyLeft()
      requires Valid() && forall k | 0 <= k < |clients| :: clients[k] == null
      ensures journal.Valid() && Tallied() && net.open == {} && disk.open == disk.leaked
      ensures forall id | id in journal.phases :: journal.phases[id] == Gone
    {
      OpenIsOwned();
      HandlesAreOwned();
      assert forall c: Client :: c !in clients;
      assert forall s :: s !in net.open;
      assert ApartFrom(null);
      forall id | id in journal.phases
        ensures journal.phases[id] == Gone
      {
        if id in live {
          SomebodyThere(id);
          assert false;
        }
      }
    }

    lemma SomebodyThere(id: nat)
      requires Table() && id in live
      ensures exists c: Client :: c in clients
    {
      assert live[id] in clients;
    }

    // ---- A server with one client

    ghost predicate Fresh()
      reads this, journal, net, disk
    {
      && journal.Valid() && net.Valid() && disk.Valid() && journal.password == password == None && Tallied()
      && journal.phases == map[] && net.fds == map[] && disk.held == map[] && disk.leaked == {}
    }

    /** `c` is ready, and nothing is on file about the handles of anybody else. */
    ghost predicate OnlyClient(c: Client)
      reads this, c, c.control, journal, net, disk
    {
      Serving(c, Ready) && c.id == 0 && disk.held.Keys == {0} && disk.leaked == {}
    }

    /** A line that was just consumed is entered in the log, as process_command would. */
    ghost method TakeCommand(c: Client, line: string)
      requires Owes(c, line) && line != ""
      modifies journal
      ensures Serving(c, Working(None, {})) && Others(c.id) == old(Others(c.id))
    {
      journal.Dispatched(c.id, line);
    }

    /** A line arrives for client `c` and is taken. */
    method ReceiveCommand(c: Client, line: string)
      requires Serving(c, Ready) && c.callback == NoCallback && c.control.Valid() && c.control.offset == 0
      requires Framing.Clean(line) && NUL !in line && line != ""
      modifies journal, c.control, c.control.buf
      ensures Serving(c, Working(None, {})) && Others(c.id) == old(Others(c.id))
      ensures c.control.Valid() && c.control.offset == 0
    {
      OnFile(c, Ready);
      ghost var before := c.control.consumed;
      Framing.ReceiveLine(c.control, line);
      NowOwes(c, line, before);
      TakeCommand(c, line);
    }

    /** RETR in active mode, when the file opens but no socket binds, and both replies are delivered. */
    method RetrInVain(c: Client, path: string, fopen: string -> bool)
      requires Serving(c, Working(None, {})) && c.authenticated && c.callback == NoCallback && c.passiveSocket < 0
      requires NUL !in path && RealFile(c.cwd, path, fopen) && c.restartMarker == 0
      modifies journal, net, disk, c`restartMarker, c`dataSocket, c`connected, c`callback, c`arg, c`cleanup, c`timer, c`progress
      ensures Serving(c, Ready) && c.callback == NoCallback && LosesOne(old(disk.leaked), disk.leaked, true) && disk.held - {c.id} == old(disk.held) - {c.id}
    {
      var r := FtpFile(c, Retr, path, Fortunate([], fopen));
      assert Performs(Retr, path, Fortunate([], fopen), old(SessionOf(c)), SessionOf(c), c.id, old(journal.log), journal.log);
    }

    lemma OnlyLostIsOpen(c: Client)
      requires DiskHolds(c.id, {}) && disk.held.Keys == {c.id}
      ensures disk.open == disk.leaked
    {
      assert DiskAgrees(c.id, {});
      disk.OnlyLeaked();
    }

    // ---- What holds between events

    /** The open descriptors are the disjoint union of the clients'. */
    lemma OpenIsOwned()
      requires Valid()
      ensures forall s :: s in net.open <==> exists c: Client :: c in clients && s in c.Fds()
      ensures forall c: Client, d: Client | c in clients && d in clients && c != d :: c.Fds() !! d.Fds()
    {
      forall s | s in net.open
        ensures exists c: Client :: c in clients && s in c.Fds()
      {
        var c := OwnerOf(s);
      }
      forall c: Client, s | c in clients && s in c.Fds()
        ensures s in net.open
      {
        NamedIsOpen(c, c, s);
      }
      forall c: Client, d: Client, s | c in clients && d in clients && c != d && s in c.Fds()
        ensures s !in d.Fds()
      {
        NamedIsOpen(c, d, s);
      }
    }

    lemma FdsOnFile(c: Client)
      requires Valid() && c in clients
      ensures net.Valid() && c.id in net.fds && net.fds[c.id] == c.Fds() && c.id in live && live[c.id] == c
    {
      assert ApartFrom(null);
      assert InOrder(c) && NetAgrees(c, false);
    }

    /** Whose descriptor is it? */
    lemma OwnerOf(s: int) returns (c: Client)
      requires Valid() && s in net.open
      ensures c in clients && s in c.Fds()
    {
      assert ApartFrom(null);
      assert net.Owned(net.open);
      c := live[net.owner[s]];
      FdsOnFile(c);
    }

    lemma NamedIsOpen(c: Client, d: Client, s: int)
      requires Valid() && c in clients && d in clients && s in c.Fds()
      ensures s in net.open && (s in d.Fds() ==> c == d)
    {
      FdsOnFile(c);
      FdsOnFile(d);
      assert net.Owned(net.open);
    }

    lemma HeldOnFile(c: Client)
      requires Valid() && c in clients
      ensures disk.Valid() && c.id in disk.held && disk.held[c.id] == c.Held() && c.id in live && live[c.id] == c
    {
      assert ApartFrom(null);
      assert InOrder(c) && DiskAgrees(c.id, c.Held());
    }

    /** Whose handle is it? */
    lemma HolderOf(f: nat) returns (c: Client)
      requires Valid() && f in disk.open && f !in disk.leaked
      ensures c in clients && f in c.Held()
    {
      assert ApartFrom(null);
      assert disk.Owned(disk.open);
      c := live[disk.holder[f]];
      HeldOnFile(c);
    }

    lemma HeldIsOpen(c: Client, d: Client, f: nat)
      requires Valid() && c in clients && d in clients && f in c.Held()
      ensures f in disk.open && f !in disk.leaked && (f in d.Held() ==> c == d)
    {
      HeldOnFile(c);
      HeldOnFile(d);
      assert disk.Owned(disk.open);
    }

    /** The open handles are the disjoint union of the clients' and those that were lost. */
    lemma HandlesAreOwned()
      requires Valid()
      ensures forall f :: f in disk.open <==> f in disk.leaked || exists c: Client :: c in clients && f in c.Held()
      ensures forall c: Client | c in clients :: c.Held() !! disk.leaked
      ensures forall c: Client, d: Client | c in clients && d in clients && c != d :: c.Held() !! d.Held()
    {
      forall f | f in disk.open && f !in disk.leaked
        ensures exists c: Client :: c in clients && f in c.Held()
      {
        var c := HolderOf(f);
      }
      forall c: Client, d: Client, f | c in clients && d in clients && f in c.Held()
        ensures f in disk.open && f !in disk.leaked && (f in d.Held() ==> c == d)
      {
        HeldIsOpen(c, d, f);
      }
      LostIsOpen();
    }

    lemma LostIsOpen()
      requires Valid()
      ensures disk.leaked <= disk.open
    {
      assert ApartFrom(null);
      assert disk.Owned(disk.open);
    }

    /** Without a callback a client's data connection is clear, and its connection is ready for a command; with one, it
        owes the completion of a transfer. */
    lemma ClientsAreInShape(c: Client)
      requires Valid() && c in clients
      ensures c.callback == NoCallback <==> c.dataSocket == -1
      ensures c.callback == NoCallback ==> c.arg == None && !c.cleanup && !c.connected && c.timer == 0
      ensures c.callback != NoCallback && c.passiveSocket >= 0 ==> (c.dataSocket == c.passiveSocket <==> !c.connected)
      ensures StandsAt(c.id, if c.callback == NoCallback then Ready else Transferring)
      ensures numClients == Occupied(clients) <= MAX_CLIENTS
    {
      ClientInOrder(c);
      assert NetAgrees(c, false);
      assert ApartFrom(null);
      OccupiedAtLeast(clients, 0);
    }
  }

  /** The rounds of a run so far: `logs` are what was logged before each round and after the last, `counts` the numbers of
      clients there were, and `ids` the numbers that the connections of each round got. Every round began with what became
      of its connection attempts. */
  ghost predicate RoundsServed(rounds: seq<Round>, logs: seq<seq<Event>>, counts: seq<nat>, ids: seq<seq<nat>>) {
    && |logs| == |counts| == |ids| + 1 <= |rounds| + 1 && logs[0] == [] && counts[0] == 0
    && forall i | 0 <= i < |ids| :: RoundFits(Arrivals(rounds[i].knocks, counts[i]), logs[i], logs[i + 1], counts[i], counts[i + 1], ids[i])
  }

  ghost predicate RoundFits(arrivals: seq<Arrival>, log: seq<Event>, log': seq<Event>, count: nat, count': nat, ids: seq<nat>) {
    |ids| == |arrivals| && log + ArrivalLog(arrivals, ids) <= log' && count' <= count + Seats(arrivals)
  }

  /** The same, behind one case. */
  ghost predicate ServedSoFar(rounds: seq<Round>, logs: seq<seq<Event>>, counts: seq<nat>, ids: seq<seq<nat>>) {
    forall xs: seq<seq<nat>> | xs == ids :: RoundsServed(rounds, logs, counts, xs)
  }

  lemma ServedNone(rounds: seq<Round>)
    ensures ServedSoFar(rounds, [[]], [0], [])
  {
  }

  lemma ServedOne(rounds: seq<Round>, logs: seq<seq<Event>>, counts: seq<nat>, ids: seq<seq<nat>>,
                  log: seq<Event>, count: nat, came: seq<nat>)
    requires ServedSoFar(rounds, logs, counts, ids) && |ids| < |rounds| && |logs| == |counts| == |ids| + 1
    requires RoundFits(Arrivals(rounds[|ids|].knocks, counts[|ids|]), logs[|ids|], log, counts[|ids|], count, came)
    ensures ServedSoFar(rounds, logs + [log], counts + [count], ids + [came])
  {
    assert RoundsServed(rounds, logs, counts, ids);
    assert RoundsServed(rounds, logs + [log], counts + [count], ids + [came]);
  }

  lemma ServedAll(rounds: seq<Round>, logs: seq<seq<Event>>, counts: seq<nat>, ids: seq<seq<nat>>)
    requires ServedSoFar(rounds, logs, counts, ids)
    ensures RoundsServed(rounds, logs, counts, ids)
  {
  }

  /** A whole run: rounds of events, with the network up or down, until the reset flag is set or the run is over, and then
      the shutdown. Every event of its log was allowed, all descriptors are closed, and all connections are gone. As many
      handles are left open as there were setups that failed and were excused to the client: none exactly when there was
      no such setup. */
  method Serve(password: Option<string>, maxPathLen: nat, rounds: seq<Round>, told: nat -> bool)
    returns (server: FtpServer, ghost logs: seq<seq<Event>>, ghost counts: seq<nat>, ghost ids: seq<seq<nat>>)
    ensures RoundsServed(rounds, logs, counts, ids) && (|ids| == |rounds| || server.reset)
    ensures logs[|ids|] <= server.journal.log
    ensures After(server.journal.log, password).safe
    ensures forall id | id in After(server.journal.log, password).phases :: After(server.journal.log, password).phases[id] == Gone
    ensures server.net.open == {}
    ensures |server.disk.open| == ExcuseCount(server.journal.log)
    ensures server.disk.open == {} <==> ExcuseCount(server.journal.log) == 0
  {
    server := new FtpServer(password, maxPathLen);
    logs, counts, ids := [[]], [0], [];
    ServedNone(rounds);
    var round := 0;
    while round < |rounds| && !server.reset
      invariant server.Valid() && server.journal.initial == password && fresh(server)
      invariant fresh(server.journal) && fresh(server.net) && fresh(server.disk) && fresh(server.tuning)
      invariant forall c: Client | c in server.clients :: fresh(c) && fresh(c.control) && fresh(c.control.buf)
      invariant |ids| == round <= |rounds| && |logs| == |counts| == round + 1 && ServedSoFar(rounds, logs, counts, ids)
      invariant logs[round] == server.journal.log && counts[round] == server.numClients
    {
      var networkDown;
      ghost var came, visits;
      networkDown, came, visits := server.ProcessFtpEvents(rounds[round]);
      ServedOne(rounds, logs, counts, ids, server.journal.log, server.numClients, came);
      logs, counts, ids := logs + [server.journal.log], counts + [server.numClients], ids + [came];
      round := round + 1;
    }
    ServedAll(rounds, logs, counts, ids);
    server.CleanupFtp(told);
    server.journal.IsSafe();
    ExcusedIsCount(server.journal.log, password);
  }

  /** A client connects to a server that has none. */
  method Connect(server: FtpServer) returns (c: Client)
    requires server.Fresh()
    modifies server.journal, server.net, server.disk
    ensures fresh(c) && fresh(c.control) && fresh(c.control.buf) && server.OnlyClient(c)
    ensures c.passiveSocket < 0 && c.callback == NoCallback && c.cwd == "/" && c.restartMarker == 0
    ensures c.control.Valid() && c.control.offset == 0
  {
    var s := server.net.Accept(0, true);
    var r;
    c, r := server.Greet(s, 0, true);
    server.OnFile(c, Ready);
    KeyAdded(server.disk.held, map[], 0);
  }

  /** It logs in, without a password to know. */
  method LogIn(server: FtpServer, c: Client)
    requires server.OnlyClient(c) && server.password == None && c.callback == NoCallback
    requires c.control.Valid() && c.control.offset == 0
    modifies server.journal, c`authenticated, c.control, c.control.buf
    ensures server.OnlyClient(c) && c.authenticated && c.control.Valid() && c.control.offset == 0
  {
    server.ReceiveCommand(c, "PASS x");
    var r := server.FtpPass(c, "x", Fortunate([], _ => false));
  }

  /** All goes well outside, except that no socket binds. */
  function Fortunate(content: seq<Net.byte>, fopen: string -> bool): Outside {
    Outside(true, true, true, false, false, _ => Vrt.Missing, fopen, _ => false, content, |content|, 0, true, true, 0, None, false)
  }

  /** A handle does get lost: somebody logs in and asks for a file in active mode, the file opens, no socket binds, and both
      replies are delivered. The client goes on, without a transfer, and the file stays open. */
  method LoseHandle(path: string, fopen: string -> bool, maxPathLen: nat) returns (server: FtpServer, c: Client)
    requires NUL !in path && Framing.Clean("RETR " + path) && Opens(Vrt.Translate("/", path, maxPathLen), fopen)
    ensures server.StandsAt(c.id, Ready) && c.callback == NoCallback && c.passiveSocket < 0
    ensures c.Held() == {} && |server.disk.open| == 1 && server.disk.open == server.disk.leaked
  {
    server := new FtpServer(None, maxPathLen);
    c := Connect(server);
    LogIn(server, c);
    AskInVain(server, c, path, fopen);
    server.OnFile(c, Ready);
    server.NothingHeld(c, Ready);
    server.OnlyLostIsOpen(c);
  }

  method AskInVain(server: FtpServer, c: Client, path: string, fopen: string -> bool)
    requires NUL !in path && Framing.Clean("RETR " + path) && Opens(Vrt.Translate("/", path, server.maxPathLen), fopen)
    requires server.OnlyClient(c) && c.authenticated && c.passiveSocket < 0 && c.callback == NoCallback
    requires c.cwd == "/" && c.restartMarker == 0 && c.control.Valid() && c.control.offset == 0
    modifies server.journal, server.net, server.disk, c, c.control, c.control.buf
    ensures server.Serving(c, Ready) && c.callback == NoCallback && c.passiveSocket < 0
    ensures server.disk.held.Keys == {0} && c.Held() == {} && |server.disk.leaked| == 1
  {
    server.ReceiveCommand(c, "RETR " + path);
    assert server.RealFile("/", path, fopen);
    server.RetrInVain(c, path, fopen);
    LostMore(old(server.disk.leaked), server.disk.leaked, true);
    StillOnly(server, c, old(server.disk.held));
  }

  lemma StillOnly(server: FtpServer, c: Client, before: map<nat, set<nat>>)
    requires server.Serving(c, Ready) && c.callback == NoCallback && c.id == 0
    requires server.disk.held - {0} == before - {0} && before.Keys == {0}
    ensures server.disk.held.Keys == {0} && c.Held() == {}
  {
    server.OnFile(c, Ready);
    assert server.NetAgrees(c, false);
    KeysBack(server.disk.held, before, 0);
  }

  /** A table that counts fewer clients than slots has a free slot. */
  lemma {:induction false} FreeSlot(clients: seq<Client?>)
    requires Occupied(clients) < |clients|
    ensures exists i :: 0 <= i < |clients| && clients[i] == null
  {
    var n := |clients| - 1;
    if clients[n] != null {
      FreeSlot(clients[..n]);
      var i :| 0 <= i < n && clients[..n][i] == null;
      assert clients[i] == null;
    }
  }

  lemma OneMore(clients: seq<Client?>, i: nat, c: Client)
    requires i < |clients| && clients[i] == null
    ensures forall d: Client :: d in clients[i := c] <==> d == c || d in clients
  {
    assert clients[i := c][i] == c;
    forall d: Client
      ensures d in clients[i := c] <==> d == c || d in clients
    {
      if d in clients {
        var k :| 0 <= k < |clients| && clients[k] == d;
        assert clients[i := c][k] == d;
      }
      if d in clients[i := c] && d != c {
        var k :| 0 <= k < |clients| && clients[i := c][k] == d;
        assert clients[k] == d;
      }
    }
  }

  lemma Above(s: set<nat>) returns (n: nat)
    ensures forall x | x in s :: x < n
  {
    if s == {} {
      n := 0;
    } else {
      var x :| x in s;
      n := Above(s - {x});
      n := if n > x then n else x + 1;
      assert forall y | y in s :: y == x || y in s - {x};
    }
  }

  lemma KeyAdded<T>(m: map<nat, T>, n: map<nat, T>, id: nat)
    requires m - {id} == n - {id} && id in m
    ensures m.Keys == n.Keys + {id}
  {
    forall k
      ensures k in m <==> k in n.Keys + {id}
    {
      if k != id {
        SameElsewhere(m, n, id, k);
      }
    }
  }

  lemma KeyGone<T>(m: map<nat, T>, n: map<nat, T>, id: nat)
    requires m - {id} == n - {id} && id !in m && id !in n
    ensures m == n
  {
    assert m - {id} == m && n - {id} == n;
  }

  lemma {:induction false} FillSlot(clients: seq<Client?>, i: nat, c: Client?)
    requires i < |clients|
    ensures Occupied(clients[i := c]) ==
            Occupied(clients) - (if clients[i] == null then 0 else 1) + if c == null then 0 else 1
  {
    var n := |clients| - 1;
    if i < n {
      FillSlot(clients[..n], i, c);
      assert clients[i := c][..n] == clients[..n][i := c];
    } else {
      assert clients[i := c][..n] == clients[..n];
    }
  }

  lemma OthersKeepSlots(before: seq<Client?>, after: seq<Client?>, c: Client)
    requires |before| == |after|
    requires forall i | 0 <= i < |after| :: after[i] == if before[i] == c then null else before[i]
    ensures forall d: Client :: d in before && d != c <==> d in after
  {
    forall d: Client
      ensures d in before && d != c <==> d in after
    {
      if d in before && d != c {
        var i :| 0 <= i < |before| && before[i] == d;
        assert after[i] == d;
      }
    }
  }

  lemma {:induction false} OccupiedAtLeast(clients: seq<Client?>, i: nat)
    requires i < |clients|
    ensures Occupied(clients) <= |clients|
    ensures clients[i] != null ==> Occupied(clients) > 0
  {
    var n := |clients| - 1;
    if n > 0 {
      OccupiedAtLeast(clients[..n], if i < n then i else 0);
    } else {
      assert clients[..n] == [];
    }
  }

  /** The directory to list: "." for none, and LIST ignores a first word that looks like flags. */
  function ListedPath(h: Handler, argument: string): string {
    var path := if h == List && argument != "" && argument[0] == '-' then ArgumentOf(argument) else argument;
    if path == "" then "." else path
  }

  lemma SameElsewhere<T>(m: map<nat, T>, n: map<nat, T>, id: nat, k: nat)
    requires m - {id} == n - {id} && k != id
    ensures k in m <==> k in n
    ensures k in m ==> m[k] == n[k]
  {
    assert k in m <==> k in m - {id};
    assert k in n <==> k in n - {id};
    assert k in m ==> (m - {id})[k] == m[k];
    assert k in n ==> (n - {id})[k] == n[k];
  }

  lemma PhasesKept(phases: map<nat, Phase>, before: map<nat, Phase>, id: nat, living: set<nat>)
    requires phases - {id} == before - {id}
    requires forall k | k in before :: k in living || before[k] == Gone
    ensures forall k | k in phases && k != id :: k in living || phases[k] == Gone
  {
    forall k | k in phases && k != id
      ensures k in living || phases[k] == Gone
    {
      SameElsewhere(phases, before, id, k);
    }
  }

  lemma SameAccounts(others: ((map<nat, Phase>, set<nat>, map<nat, seq<string>>), map<nat, set<int>>, map<nat, set<nat>>),
                     id: nat, k: nat,
                     phases: map<nat, Phase>, auth: set<nat>, lines: map<nat, seq<string>>,
                     fds: map<nat, set<int>>, held: map<nat, set<nat>>,
                     phases': map<nat, Phase>, auth': set<nat>, lines': map<nat, seq<string>>,
                     fds': map<nat, set<int>>, held': map<nat, set<nat>>)
    requires k != id
    requires others == ((phases - {id}, auth - {id}, lines - {id}), fds - {id}, held - {id})
    requires others == ((phases' - {id}, auth' - {id}, lines' - {id}), fds' - {id}, held' - {id})
    ensures (k in phases <==> k in phases') && (k in phases ==> phases[k] == phases'[k])
    ensures (k in lines <==> k in lines') && (k in lines ==> lines[k] == lines'[k])
    ensures (k in fds <==> k in fds') && (k in fds ==> fds[k] == fds'[k])
    ensures (k in held <==> k in held') && (k in held ==> held[k] == held'[k])
    ensures k in auth <==> k in auth'
  {
    SameElsewhere(phases, phases', id, k);
    SameElsewhere(lines, lines', id, k);
    SameElsewhere(fds, fds', id, k);
    SameElsewhere(held, held', id, k);
    assert k in auth - {id} <==> k in auth' - {id};
  }

  lemma KeysBack<T>(m: map<nat, T>, n: map<nat, T>, id: nat)
    requires m - {id} == n - {id} && id in m && id in n
    ensures m.Keys == n.Keys
  {
    forall k
      ensures k in m <==> k in n
    {
      if k != id {
        SameElsewhere(m, n, id, k);
      }
    }
  }

  predicate IsPlain(h: Handler) {
    match h
    case User | Pwd | Size | Type | Syst | Mode | Dele | Mkd | Noop | Superfluous | Unknown | NeedAuth => true
    case SiteLoader | SiteClear | SiteChmod | SiteEject | SiteMount | SiteUnmount | SiteLoad | SiteUnknown => true
    case _ => false
  }

  lemma OtherHandlers(h: Handler)
    requires !IsSiteHandler(h) && !StartsTransfer(h) && h != Site
    requires h != Cwd && h != Cdup && h != Rnfr && h != Rnto && h != Rest
    ensures h == Pass || h == Rein || h == Quit || h == Pasv || h == Port || IsPlain(h)
  {
  }

  /** TYPE knows "A", "A N" and "I", in any letter case. */
  predicate KnownType(argument: string) {
    var words := SplitAt(argument, ' ', 1);
    && words != []
    && var param := if |words| == 2 then words[1] else "";
    || (EqualIgnoringCase("A", words[0]) && (param == "" || EqualIgnoringCase("N", param)))
    || (EqualIgnoringCase("I", words[0]) && |words| == 1)
  }

  /** TYPE with one word or two. */
  lemma TypeMeans(a: string, b: string)
    requires a != "" && b != "" && Free(a, ' ') && Free(b, ' ')
    ensures KnownType(a) <==> EqualIgnoringCase(a, "A") || EqualIgnoringCase(a, "I")
    ensures KnownType(a + " " + b) <==> EqualIgnoringCase(a, "A") && EqualIgnoringCase(b, "N")
    ensures !KnownType("")
  {
    assert a + "" == a;
    SplitWord(a, "", ' ', 1);
    SplitUndoesJoin([a], b, ' ');
    assert Joined([a][1..], b, ' ') == b;
    assert Joined([a], b, ' ') == a + " " + b;
    assert SplitAt(a + " " + b, ' ', 1) == [a, b];
    assert SplitAt(a, ' ', 1) == [a];
  }

  /** LIST takes a first word that begins with '-' for flags, NLST does not, and without a path both list ".". */
  lemma ListedPathMeans(flags: string, path: string)
    requires Free(flags, ' ') && path != "" && Trimmed(path, ' ')
    ensures ListedPath(List, "-" + flags + " " + path) == path && ListedPath(List, "-" + flags) == "."
    ensures path[0] != '-' ==> ListedPath(List, path) == path
    ensures ListedPath(Nlst, path) == path && ListedPath(Nlst, "") == "." && ListedPath(List, "") == "."
  {
    var w := "-" + flags;
    assert w + "" == w;
    SplitWord(w, "", ' ', 1);
    SplitUndoesJoin([w], path, ' ');
    assert Joined([w][1..], path, ' ') == path;
    assert Joined([w], path, ' ') == w + " " + path;
    assert SplitAt(w + " " + path, ' ', 1) == [w, path] && SplitAt(w, ' ', 1) == [w];
  }

  function PlainCode(h: Handler, argument: string, done: bool): int {
    match h
    case User => 331
    case Pwd => 257
    case Size => if done then 213 else 550
    case Type => if KnownType(argument) then 200 else 501
    case Mode => if EqualIgnoringCase("S", argument) then 200 else 501
    case Syst => 215
    case Dele | SiteMount | SiteUnmount => if done then 250 else 550
    case Mkd => if argument == "" then 501 else if done then 257 else 550
    case Superfluous => 202
    case Unknown => 502
    case NeedAuth => 530
    case SiteEject => if done then 200 else 550
    case SiteChmod => 250
    case SiteLoad => if done then 500 else 550
    case SiteUnknown => 501
    case _ => 200
  }

  lemma PlainCodeFits(h: Handler, argument: string, done: bool, password: Option<string>)
    requires IsPlain(h)
    ensures PlainCode(h, argument, done) in Codes(h, argument, password) && PlainCode(h, argument, done) != 150
  {
  }

  lemma CodesAreNotFinal(h: Handler, argument: string, password: Option<string>)
    ensures 421 !in Codes(h, argument, password)
  {
  }

  lemma {:induction false} NobodyThere(n: nat)
    ensures Occupied(seq(n, _ => null)) == 0
  {
    if n > 0 {
      NobodyThere(n - 1);
      var slots: seq<Client?> := seq(n, _ => null);
      assert slots[..n - 1] == seq(n - 1, _ => null);
    }
  }
}
