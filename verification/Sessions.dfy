/** The history of a server run as a log of events, the rules each event obeys, and what those rules promise about
    whole runs. Replies follow RFC 959 section 4.2: one completion per command, after at most one preliminary. */
module Sessions {
  import opened CStrings
  import opened Commands

  datatype Event =
    | Connect(id: nat)
    | Dispatch(id: nat, line: string)                        // a non-empty line reached process_command
    | Run(id: nat, handler: Handler, argument: string)       // a handler was called
    | Reply(id: nat, code: int, ok: bool)                    // write_reply, and whether the write succeeded
    | SetupFailed(id: nat)                                   // no data connection could be set up after the 150
    | Hangup(id: nat)                                        // the control connection was closed

  /** Where a connection stands. */
  datatype Phase =
    | Greeting                                               // connected, not greeted yet
    | Ready                                                  // waiting for a command
    | Working(handler: Option<Handler>, codes: set<int>)     // owes a reply, with one of these codes
    | Transferring                                           // owes the completion of a transfer
    | Excusing                                               // owes the 520 for a transfer that could not be set up
    | Closing                                                // may only hang up
    | Gone

  predicate StartsTransfer(h: Handler) {
    match h
    case List | Nlst | Retr | Stor | Appe => true
    case _ => false
  }

  predicate Accepts(password: Option<string>, attempt: string) {
    password == None || password == Some(attempt)
  }

  /** The codes that handler `h` may reply with; SITE leaves the reply to its own handlers. */
  function Codes(h: Handler, argument: string, password: Option<string>): set<int> {
    match h
    case User => {331}
    case Pass => if Accepts(password, argument) then {230} else {530}
    case List | Nlst | Retr | Stor | Appe => {150, 550}
    case Pwd => {257}
    case Cwd | Cdup | Dele => {250, 550}
    case Size => {213, 550}
    case Pasv => {227, 520}
    case Port | Type | Mode => {200, 501}
    case Syst => {215}
    case Rest => {350, 501}
    case Mkd => {257, 501, 550}
    case Rnfr => {350}
    case Rnto => {250, 503, 550}
    case Quit => {221}
    case Rein => {220}
    case Site => {}
    case Superfluous => {202}
    case Unknown => {502}
    case NeedAuth => {530}
    case SiteLoad => {500, 550}
    case SiteUnknown => {501}
    case SiteEject => {200, 550}
    case SiteChmod => {250}
    case SiteMount | SiteUnmount => {250, 550}
    case Noop | SiteLoader | SiteClear | SitePasswd | SiteNopasswd => {200}
  }

  /** What a log leaves behind: whether every event was allowed, the password in force, where each connection stands,
      which are logged in, the lines that each sent to process_command, and how many of the transfers that could not be
      set up were excused with a delivered 520. */
  datatype Trail = Trail(safe: bool, password: Option<string>, phases: map<nat, Phase>, auth: set<nat>,
                         lines: map<nat, seq<string>>, excused: nat)

  function LinesOf(t: Trail, id: nat): seq<string> {
    if id in t.lines then t.lines[id] else []
  }

  predicate InPhase(t: Trail, id: nat, p: Phase) {
    id in t.phases && t.phases[id] == p
  }

  predicate Allowed(t: Trail, e: Event) {
    match e
    case Connect(id) => id !in t.phases
    case Dispatch(id, line) => InPhase(t, id, Ready) && line != ""
    case Run(id, h, _) =>
      && id in t.phases && t.phases[id].Working?
      && t.phases[id].handler == (if IsSiteHandler(h) then Some(Site) else None)
      && (Public(h) || id in t.auth)
    case Reply(id, code, _) => id in t.phases && ReplyFits(t.phases[id], code)
    case SetupFailed(id) => InPhase(t, id, Transferring)
    case Hangup(id) => id in t.phases && t.phases[id] in {Ready, Closing}
  }

  /** The replies that a connection may get where it stands. 421 announces the shutdown. */
  predicate ReplyFits(p: Phase, code: int) {
    match p
    case Greeting => code == 220
    case Working(h, codes) => h.Some? && code in codes
    case Transferring => code in {226, 520, 421}
    case Excusing => code == 520
    case Ready => code == 421
    case _ => false
  }

  /** The phase after a reply went out. */
  function AfterReply(p: Phase, code: int, ok: bool): Phase {
    if !ok || code == 421 then Closing
    else if p.Working? && p.handler == Some(Quit) then Closing
    else if p.Working? && code == 150 then Transferring
    else Ready
  }

  function Next(t: Trail, e: Event): Trail {
    var t' := t.(safe := t.safe && Allowed(t, e));
    match e
    case Connect(id) => t'.(phases := t.phases[id := Greeting], auth := t.auth - {id}, lines := t.lines[id := []])
    case Dispatch(id, line) =>
      t'.(phases := t.phases[id := Working(None, {})], lines := t.lines[id := LinesOf(t, id) + [line]])
    case Run(id, h, argument) =>
      t'.(password := if h == SitePasswd then Some(argument) else if h == SiteNopasswd then None else t.password,
          phases := t.phases[id := Working(Some(h), Codes(h, argument, t.password))],
          auth := if h == Pass && Accepts(t.password, argument) then t.auth + {id}
                  else if h == Rein then t.auth - {id} else t.auth)
    case Reply(id, code, ok) =>
      if id in t.phases then
        t'.(phases := t.phases[id := AfterReply(t.phases[id], code, ok)],
            excused := t.excused + if t.phases[id] == Excusing && ok then 1 else 0)
      else t'
    case SetupFailed(id) => t'.(phases := t.phases[id := Excusing])
    case Hangup(id) => t'.(phases := t.phases[id := Gone])
  }

  /** The trail of a log of a run that started with the given password. */
  function After(log: seq<Event>, password: Option<string>): Trail {
    if log == [] then Trail(true, password, map[], {}, map[], 0) else Next(After(log[..|log| - 1], password), log[|log| - 1])
  }

  lemma AfterOne(log: seq<Event>, e: Event, password: Option<string>)
    ensures After(log + [e], password) == Next(After(log, password), e)
  {
    assert (log + [e])[..|log|] == log;
  }

  lemma {:induction false} SafeAt(log: seq<Event>, password: Option<string>, i: nat)
    requires After(log, password).safe && i < |log|
    ensures After(log[..i], password).safe && Allowed(After(log[..i], password), log[i])
  {
    var init := log[..|log| - 1];
    if i < |init| {
      SafeAt(init, password, i);
      assert init[..i] == log[..i];
    }
  }

  // ---- Nobody without a login runs a privileged handler

  /** Only an accepted PASS logs in, and a REIN or a new connection logs out. */
  lemma LoginStep(t: Trail, e: Event, id: nat)
    requires id in Next(t, e).auth
    ensures || (e.Run? && e.id == id && e.handler == Pass && Accepts(t.password, e.argument))
            || (id in t.auth && !(e.id == id && (e.Connect? || (e.Run? && e.handler == Rein))))
  {
  }

  /** Being logged in means a PASS accepted against the password in force at that moment, and neither a REIN nor a
      new connection since. */
  lemma {:induction false} LoginBehind(log: seq<Event>, password: Option<string>, id: nat) returns (j: nat)
    requires id in After(log, password).auth
    ensures j < |log| && log[j].Run? && log[j].id == id && log[j].handler == Pass
    ensures After(log[..j], password).password in {None, Some(log[j].argument)}
    ensures forall k | j < k < |log| && log[k].id == id :: !log[k].Connect? && !(log[k].Run? && log[k].handler == Rein)
  {
    var n := |log| - 1;
    var init, e := log[..n], log[n];
    LoginStep(After(init, password), e, id);
    if e.Run? && e.id == id && e.handler == Pass && Accepts(After(init, password).password, e.argument) {
      j := n;
    } else {
      j := LoginBehind(init, password, id);
      assert init[..j] == log[..j];
    }
  }

  /** And every such PASS logs in. */
  lemma {:induction false} LoginHolds(log: seq<Event>, password: Option<string>, id: nat, j: nat)
    requires j < |log| && log[j].Run? && log[j].id == id && log[j].handler == Pass
    requires After(log[..j], password).password in {None, Some(log[j].argument)}
    requires forall k | j < k < |log| && log[k].id == id :: !log[k].Connect? && !(log[k].Run? && log[k].handler == Rein)
    ensures id in After(log, password).auth
  {
    var n := |log| - 1;
    if j < n {
      assert log[..n][..j] == log[..j];
      LoginHolds(log[..n], password, id, j);
    }
  }

  /** Every call of a handler other than USER, PASS, QUIT, REIN, NOOP and the login reminder is preceded by an accepted
      PASS of the same connection, with no REIN in between. */
  lemma PrivilegedNeedsLogin(log: seq<Event>, password: Option<string>, i: nat) returns (j: nat)
    requires After(log, password).safe && i < |log| && log[i].Run? && !Public(log[i].handler)
    ensures j < i && log[j].Run? && log[j].id == log[i].id && log[j].handler == Pass
    ensures After(log[..j], password).password in {None, Some(log[j].argument)}
    ensures forall k | j < k < i && log[k].id == log[i].id :: !log[k].Connect? && !(log[k].Run? && log[k].handler == Rein)
  {
    SafeAt(log, password, i);
    j := LoginBehind(log[..i], password, log[i].id);
    assert log[..i][..j] == log[..j];
  }

  /** The password in force is the argument of the last SITE PASSWD, none after SITE NOPASSWD, or the initial one. */
  lemma {:induction false} PasswordInForce(log: seq<Event>, password: Option<string>) returns (j: int)
    ensures -1 <= j < |log|
    ensures forall k | j < k < |log| :: !(log[k].Run? && log[k].handler in {SitePasswd, SiteNopasswd})
    ensures j >= 0 ==> log[j].Run? && log[j].handler in {SitePasswd, SiteNopasswd}
    ensures After(log, password).password
         == if j < 0 then password else if log[j].handler == SitePasswd then Some(log[j].argument) else None
  {
    if log == [] {
      j := -1;
    } else {
      var e := log[|log| - 1];
      if e.Run? && e.handler in {SitePasswd, SiteNopasswd} {
        j := |log| - 1;
      } else {
        j := PasswordInForce(log[..|log| - 1], password);
      }
    }
  }

  // ---- Replies

  /** The events of one connection. */
  function Of(log: seq<Event>, id: nat): seq<Event> {
    if log == [] then []
    else
      var e := log[|log| - 1];
      Of(log[..|log| - 1], id) + if e.id == id then [e] else []
  }

  /** A command line and the handlers it ran: one, or SITE and one of SITE's own. */
  ghost predicate IsCommand(xs: seq<Event>) {
    && 2 <= |xs| <= 3 && xs[0].Dispatch? && xs[1].Run?
    && (|xs| == 3 ==> xs[1].handler == Site && xs[2].Run? && IsSiteHandler(xs[2].handler))
  }

  /** A finished exchange: a command and its one reply, or a command that announces a transfer with 150 and one
      completion, which is the 520 when no data connection could be set up. */
  ghost predicate IsExchange(xs: seq<Event>) {
    || (|xs| == 5 && IsExcuse(xs[..4]) && Delivered(xs[4]) && xs[4].code == 520)
    || (|xs| >= 3 && IsCommand(xs[..|xs| - 1]) && Delivered(xs[|xs| - 1]) && xs[|xs| - 1].code != 150)
    || (|xs| >= 4 && IsAnnouncement(xs[..|xs| - 1]) && Delivered(xs[|xs| - 1]) && xs[|xs| - 1].code in {226, 520})
  }

  /** A command that announced a transfer. */
  ghost predicate IsAnnouncement(xs: seq<Event>) {
    |xs| == 3 && IsCommand(xs[..2]) && Delivered(xs[2]) && xs[2].code == 150 && StartsTransfer(xs[1].handler)
  }

  /** A command that announced a transfer for which no data connection could be set up. */
  ghost predicate IsExcuse(xs: seq<Event>) {
    |xs| == 4 && IsAnnouncement(xs[..3]) && xs[3].SetupFailed?
  }

  predicate Delivered(e: Event) {
    e.Reply? && e.ok
  }

  function Flatten(xss: seq<seq<Event>>): seq<Event> {
    if xss == [] then [] else Flatten(xss[..|xss| - 1]) + xss[|xss| - 1]
  }

  /** A connection's history up to now: greeting, finished exchanges, and what is under way. */
  datatype History = History(exchanges: seq<seq<Event>>, current: seq<Event>)

  ghost predicate Tells(h: History, id: nat, events: seq<Event>, p: Phase) {
    && (forall x | x in h.exchanges :: IsExchange(x))
    && (if p == Greeting then events == [Connect(id)]
        else events == [Connect(id), Reply(id, 220, true)] + Flatten(h.exchanges) + h.current)
    && UnderWay(h.current, p)
  }

  /** What is under way in phase `p`. */
  ghost predicate UnderWay(current: seq<Event>, p: Phase) {
    match p
    case Ready => current == []
    case Working(None, _) => |current| == 1 && current[0].Dispatch?
    case Working(Some(f), codes) =>
      && IsCommand(current) && current[|current| - 1].handler == f
      && (|current| == 2 ==> !IsSiteHandler(f))
      && (150 in codes ==> StartsTransfer(f))
    case Transferring => IsAnnouncement(current)
    case Excusing => IsExcuse(current)
    case _ => true
  }

  predicate Live(p: Phase) {
    !p.Closing? && !p.Gone?
  }

  lemma FlattenOne(xss: seq<seq<Event>>, xs: seq<Event>)
    ensures Flatten(xss + [xs]) == Flatten(xss) + xs
  {
    assert (xss + [xs])[..|xss|] == xss;
  }

  lemma Extend(a: seq<Event>, b: seq<Event>, c: seq<Event>, e: Event)
    ensures a + b + c + [e] == a + b + (c + [e])
    ensures a + b + (c + [e]) == a + (b + (c + [e])) + []
  {
  }

  lemma OnlyTransfersAnnounce(f: Handler, argument: string, password: Option<string>)
    ensures 150 in Codes(f, argument, password) ==> StartsTransfer(f) && !IsSiteHandler(f)
  {
  }

  /** One more event of the same connection continues its history. */
  lemma HistoryStep(h: History, id: nat, events: seq<Event>, t: Trail, e: Event) returns (h': History)
    requires id in t.phases && Live(t.phases[id]) && Tells(h, id, events, t.phases[id])
    requires e.id == id && Allowed(t, e) && Live(Next(t, e).phases[id])
    ensures Tells(h', id, events + [e], Next(t, e).phases[id])
  {
    var p, p' := t.phases[id], Next(t, e).phases[id];
    var opening := [Connect(id), Reply(id, 220, true)];
    var current := h.current + [e];
    if p == Greeting {
      h' := History([], []);
      assert [Connect(id)] + [e] == opening + Flatten([]) + [];
    } else {
      Extend(opening, Flatten(h.exchanges), h.current, e);
      if p'.Ready? {
        h' := History(h.exchanges + [current], []);
        FlattenOne(h.exchanges, current);
        ExchangeStep(h.current, t, e);
      } else {
        h' := History(h.exchanges, current);
        CurrentStep(h.current, t, e);
      }
    }
  }

  lemma ExchangeStep(current: seq<Event>, t: Trail, e: Event)
    requires e.id in t.phases && UnderWay(current, t.phases[e.id]) && t.phases[e.id] != Greeting
    requires Allowed(t, e) && Next(t, e).phases[e.id].Ready?
    ensures IsExchange(current + [e])
  {
    assert (current + [e])[..|current|] == current;
  }

  lemma CurrentStep(current: seq<Event>, t: Trail, e: Event)
    requires e.id in t.phases && UnderWay(current, t.phases[e.id]) && Live(t.phases[e.id]) && t.phases[e.id] != Greeting
    requires Allowed(t, e) && Live(Next(t, e).phases[e.id]) && !Next(t, e).phases[e.id].Ready?
    ensures UnderWay(current + [e], Next(t, e).phases[e.id])
  {
    if e.Run? {
      OnlyTransfersAnnounce(e.handler, e.argument, t.password);
    } else if e.Reply? {
      assert (current + [e])[..2] == current[..2];
    } else if e.SetupFailed? {
      assert (current + [e])[..3] == current;
    }
  }

  /** How a history ends when the connection is in phase `p`: not at all while it lives; with one reply that failed,
      or was QUIT's, or announced the shutdown, once it may only hang up; and with that and a hangup, or a hangup out
      of the blue, once it is gone. */
  ghost predicate Ended(p: Phase, base: Phase, ending: seq<Event>, id: nat) {
    match p
    case Closing => |ending| == 1 && LastReply(ending[0], base)
    case Gone => || (ending == [Hangup(id)] && base == Ready)
                 || (|ending| == 2 && LastReply(ending[0], base) && ending[1] == Hangup(id))
    case _ => ending == [] && base == p
  }

  predicate LastReply(e: Event, base: Phase) {
    e.Reply? && (!e.ok || e.code == 421 || (base.Working? && base.handler == Some(Quit)))
  }

  /** Every connection's history, at any moment of any run: a greeting, finished exchanges, at most one exchange under
      way, and an ending. */
  lemma {:induction false} HistoryOf(log: seq<Event>, password: Option<string>, id: nat)
    returns (h: History, base: Phase, told: seq<Event>, ending: seq<Event>)
    requires After(log, password).safe && id in After(log, password).phases
    ensures Of(log, id) == told + ending && Live(base) && Tells(h, id, told, base)
    ensures Ended(After(log, password).phases[id], base, ending, id)
  {
    var init, e := log[..|log| - 1], log[|log| - 1];
    if e.id != id {
      h, base, told, ending := HistoryOf(init, password, id);
      assert Of(log, id) == Of(init, id);
    } else if e.Connect? {
      NoEventsBefore(init, password, id);
      h, base, told, ending := History([], []), Greeting, [e], [];
    } else {
      h, base, told, ending := HistoryOf(init, password, id);
      h, base, told, ending := HistoryGrows(h, base, told, ending, id, After(init, password), e);
    }
  }

  lemma HistoryGrows(h: History, base: Phase, told: seq<Event>, ending: seq<Event>, id: nat, t: Trail, e: Event)
    returns (h': History, base': Phase, told': seq<Event>, ending': seq<Event>)
    requires id in t.phases && Live(base) && Tells(h, id, told, base) && Ended(t.phases[id], base, ending, id)
    requires e.id == id && Allowed(t, e)
    ensures told' + ending' == told + ending + [e]
    ensures Live(base') && Tells(h', id, told', base') && Ended(Next(t, e).phases[id], base', ending', id)
  {
    if Live(Next(t, e).phases[id]) {
      h' := HistoryStep(h, id, told, t, e);
      base', told', ending' := Next(t, e).phases[id], told + [e], [];
    } else {
      h', base', told', ending' := h, base, told, ending + [e];
    }
  }

  lemma {:induction false} NoEventsBefore(log: seq<Event>, password: Option<string>, id: nat)
    requires After(log, password).safe && id !in After(log, password).phases
    ensures Of(log, id) == []
  {
    if log != [] {
      NoEventsBefore(log[..|log| - 1], password, id);
    }
  }

  // ---- Transfers that could not be set up

  /** The last event of connection `id`. */
  function LastOf(log: seq<Event>, id: nat): Option<Event> {
    if log == [] then None
    else if log[|log| - 1].id == id then Some(log[|log| - 1]) else LastOf(log[..|log| - 1], id)
  }

  /** `e` delivers the 520 for a transfer that could not be set up, when `before` is what happened before. */
  predicate Excuses(before: seq<Event>, e: Event) {
    e.Reply? && e.code == 520 && e.ok && LastOf(before, e.id) == Some(SetupFailed(e.id))
  }

  /** How often a setup failed and the client could be told. */
  function ExcuseCount(log: seq<Event>): nat {
    if log == [] then 0
    else
      var init := log[..|log| - 1];
      ExcuseCount(init) + if Excuses(init, log[|log| - 1]) then 1 else 0
  }

  /** The number on a safe run's trail is that count. */
  lemma {:induction false} ExcusedIsCount(log: seq<Event>, password: Option<string>)
    requires After(log, password).safe
    ensures After(log, password).excused == ExcuseCount(log)
    ensures forall id :: InPhase(After(log, password), id, Excusing) <==> LastOf(log, id) == Some(SetupFailed(id))
  {
    if log != [] {
      ExcusedIsCount(log[..|log| - 1], password);
    }
  }
}
