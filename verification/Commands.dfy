/** Command tables and their dispatcher (ftp.c). */
module Commands {
  import opened CStrings
  import opened Splitting
  import Framing

  datatype Handler =
    | User | Pass | List | Pwd | Cwd | Cdup | Size | Pasv | Port | Type | Syst | Mode
    | Retr | Stor | Appe | Rest | Dele | Mkd | Rnfr | Rnto | Nlst | Quit | Rein
    | Site | Noop | Superfluous | Unknown | NeedAuth
    | SiteLoader | SiteClear | SiteChmod | SitePasswd | SiteNopasswd | SiteEject
    | SiteMount | SiteUnmount | SiteLoad | SiteUnknown

  const UNAUTHENTICATED_COMMANDS := ["USER", "PASS", "QUIT", "REIN", "NOOP"]
  const UNAUTHENTICATED_HANDLERS := [User, Pass, Quit, Rein, Noop, NeedAuth]

  const AUTHENTICATED_COMMANDS := [
    "USER", "PASS", "LIST", "PWD", "CWD", "CDUP",
    "SIZE", "PASV", "PORT", "TYPE", "SYST", "MODE",
    "RETR", "STOR", "APPE", "REST", "DELE", "MKD",
    "RMD", "RNFR", "RNTO", "NLST", "QUIT", "REIN",
    "SITE", "NOOP", "ALLO"
  ]
  const AUTHENTICATED_HANDLERS := [
    User, Pass, List, Pwd, Cwd, Cdup,
    Size, Pasv, Port, Type, Syst, Mode,
    Retr, Stor, Appe, Rest, Dele, Mkd,
    Dele, Rnfr, Rnto, Nlst, Quit, Rein,
    Site, Noop, Superfluous, Unknown
  ]

  const SITE_COMMANDS := ["LOADER", "CLEAR", "CHMOD", "PASSWD", "NOPASSWD", "EJECT", "MOUNT", "UNMOUNT", "LOAD"]
  const SITE_HANDLERS := [
    SiteLoader, SiteClear, SiteChmod, SitePasswd, SiteNopasswd, SiteEject, SiteMount, SiteUnmount, SiteLoad, SiteUnknown
  ]

  /** The first word of a line, or "" when it has none. */
  function CommandOf(line: string): string {
    var words := SplitAt(line, ' ', 1);
    if words == [] then "" else words[0]
  }

  /** What follows the first word, trimmed. */
  function ArgumentOf(line: string): string {
    var words := SplitAt(line, ' ', 1);
    if |words| < 2 then "" else words[1]
  }

  /** The first entry of the table that `cmd` names, letter case aside, or the table's end. */
  function Lookup(commands: seq<string>, cmd: string): (i: nat)
    ensures i <= |commands|
    ensures i < |commands| ==> EqualIgnoringCase(commands[i], cmd)
    ensures forall j | 0 <= j < i :: !EqualIgnoringCase(commands[j], cmd)
  {
    if commands == [] || EqualIgnoringCase(commands[0], cmd) then 0 else
      var i := Lookup(commands[1..], cmd);
      assert forall j | 1 <= j < 1 + i :: commands[j] == commands[1..][j - 1];
      1 + i
  }

  predicate IsTable(commands: seq<string>, handlers: seq<Handler>) {
    |handlers| == |commands| + 1
  }

  function HandlerFor(commands: seq<string>, handlers: seq<Handler>, line: string): Handler
    requires IsTable(commands, handlers)
  {
    handlers[Lookup(commands, CommandOf(line))]
  }

  /** Letter case of the command word never matters. */
  lemma {:induction false} LookupIgnoresCase(commands: seq<string>, a: string, b: string)
    requires EqualIgnoringCase(a, b)
    ensures Lookup(commands, a) == Lookup(commands, b)
  {
    if commands != [] {
      LookupIgnoresCase(commands[1..], a, b);
    }
  }

  lemma CommandOfPieces(line: string)
    ensures SplitAt(line, ' ', 1) + seq(2 - |SplitAt(line, ' ', 1)|, _ => "") == [CommandOf(line), ArgumentOf(line)]
  {
  }

  /** dispatch_to_handler, up to the call: which handler of the table runs, and with which argument. The index
      always falls inside the handler table. */
  method DispatchToHandler(line: string, commands: seq<string>, handlers: seq<Handler>) returns (h: Handler, argument: string)
    requires NUL !in line && |line| < Framing.FTP_BUFFER_SIZE && IsTable(commands, handlers)
    ensures h == HandlerFor(commands, handlers, line) && argument == ArgumentOf(line)
  {
    var cmd, rest := new char[Framing.FTP_BUFFER_SIZE], new char[Framing.FTP_BUFFER_SIZE];
    var num := Split(line, ' ', 1, [cmd, rest]);
    CommandOfPieces(line);
    assert Holds([cmd, rest][0], CommandOf(line)) && Holds([cmd, rest][1], ArgumentOf(line));
    var cmdLen := StrLen(cmd, 0, CommandOf(line));
    var restLen := StrLen(rest, 0, ArgumentOf(line));
    var i := 0;
    while i < |commands| && !EqualIgnoringCase(commands[i], cmd[..cmdLen])
      invariant i <= Lookup(commands, CommandOf(line))
    {
      i := i + 1;
    }
    return handlers[i], rest[..restLen];
  }

  datatype TableName = LoginTable | FullTable | SiteTable

  function HandlerOf(t: TableName, line: string): Handler {
    match t
    case LoginTable => HandlerFor(UNAUTHENTICATED_COMMANDS, UNAUTHENTICATED_HANDLERS, line)
    case FullTable => HandlerFor(AUTHENTICATED_COMMANDS, AUTHENTICATED_HANDLERS, line)
    case SiteTable => HandlerFor(SITE_COMMANDS, SITE_HANDLERS, line)
  }

  /** Table `t` picks handler `h` for `line`; behind one case. */
  ghost predicate Picks(t: TableName, line: string, h: Handler) {
    forall table | table == t :: HandlerOf(table, line) == h
  }

  /** Handlers that run without a login. */
  predicate Public(h: Handler) {
    match h
    case User | Pass | Quit | Rein | Noop | NeedAuth => true
    case _ => false
  }

  /** Handlers that only SITE calls. */
  predicate IsSiteHandler(h: Handler) {
    match h
    case SiteLoader | SiteClear | SiteChmod | SitePasswd | SiteNopasswd => true
    case SiteEject | SiteMount | SiteUnmount | SiteLoad | SiteUnknown => true
    case _ => false
  }

  /** Dispatch on one of the three tables: only SITE's table leads to SITE's handlers, and the table for connections
      without a login leads to public handlers only. */
  method Pick(t: TableName, line: string) returns (h: Handler, argument: string)
    requires NUL !in line && |line| < Framing.FTP_BUFFER_SIZE
    ensures Picks(t, line, h) && argument == ArgumentOf(line) && NUL !in argument && |argument| <= |line|
    ensures IsSiteHandler(h) <==> t == SiteTable
    ensures t == LoginTable ==> Public(h)
  {
    ArgumentIsShorter(line);
    match t {
      case LoginTable => h, argument := DispatchToHandler(line, UNAUTHENTICATED_COMMANDS, UNAUTHENTICATED_HANDLERS);
      case FullTable => h, argument := DispatchToHandler(line, AUTHENTICATED_COMMANDS, AUTHENTICATED_HANDLERS);
      case SiteTable => h, argument := DispatchToHandler(line, SITE_COMMANDS, SITE_HANDLERS);
    }
    TableContents(t, line);
  }

  lemma TableContents(t: TableName, line: string)
    ensures IsSiteHandler(HandlerOf(t, line)) <==> t == SiteTable
    ensures t == LoginTable ==> Public(HandlerOf(t, line))
  {
    match t {
      case LoginTable =>
        LoginHandlers(Lookup(UNAUTHENTICATED_COMMANDS, CommandOf(line)));
      case FullTable =>
        FullHandlers(Lookup(AUTHENTICATED_COMMANDS, CommandOf(line)));
      case SiteTable =>
        SiteHandlers(Lookup(SITE_COMMANDS, CommandOf(line)));
    }
  }

  lemma LoginHandlers(i: nat)
    requires i < |UNAUTHENTICATED_HANDLERS|
    ensures Public(UNAUTHENTICATED_HANDLERS[i]) && !IsSiteHandler(UNAUTHENTICATED_HANDLERS[i])
  {
  }

  lemma FullHandlers(i: nat)
    requires i < |AUTHENTICATED_HANDLERS|
    ensures !IsSiteHandler(AUTHENTICATED_HANDLERS[i])
  {
  }

  lemma SiteHandlers(i: nat)
    requires i < |SITE_HANDLERS|
    ensures IsSiteHandler(SITE_HANDLERS[i])
  {
  }

  /** The command words of a handler, as FTP and SITE have them; the defaults of the three tables have none. */
  function WordsOf(h: Handler): seq<string> {
    match h
    case User => ["USER"] case Pass => ["PASS"] case Quit => ["QUIT"] case Rein => ["REIN"] case Noop => ["NOOP"]
    case Cwd => ["CWD"] case Cdup => ["CDUP"] case Pwd => ["PWD"] case Mkd => ["MKD"] case Dele => ["DELE", "RMD"]
    case Rnfr => ["RNFR"] case Rnto => ["RNTO"] case Size => ["SIZE"] case Rest => ["REST"]
    case List => ["LIST"] case Nlst => ["NLST"] case Retr => ["RETR"] case Stor => ["STOR"] case Appe => ["APPE"]
    case Pasv => ["PASV"] case Port => ["PORT"] case Type => ["TYPE"] case Mode => ["MODE"] case Syst => ["SYST"]
    case Site => ["SITE"] case Superfluous => ["ALLO"]
    case SiteLoader => ["LOADER"] case SiteClear => ["CLEAR"] case SiteChmod => ["CHMOD"]
    case SitePasswd => ["PASSWD"] case SiteNopasswd => ["NOPASSWD"] case SiteEject => ["EJECT"]
    case SiteMount => ["MOUNT"] case SiteUnmount => ["UNMOUNT"] case SiteLoad => ["LOAD"]
    case Unknown | NeedAuth | SiteUnknown => []
  }

  /** The handler that runs is the one whose own word begins the line, letter case aside; the default of its table runs
      for any other word. */
  lemma HandlerHasItsWord(t: TableName, line: string)
    ensures var h := HandlerOf(t, line);
      if WordsOf(h) == [] then
        && h == (match t case LoginTable => NeedAuth case FullTable => Unknown case SiteTable => SiteUnknown)
        && forall k | 0 <= k < |WordsIn(t)| :: !EqualIgnoringCase(WordsIn(t)[k], CommandOf(line))
      else exists w | w in WordsOf(h) :: EqualIgnoringCase(w, CommandOf(line))
  {
    TableWords(t, line);
  }

  lemma TableWords(t: TableName, line: string)
    ensures var i := Lookup(WordsIn(t), CommandOf(line));
      if i < |WordsIn(t)| then WordsIn(t)[i] in WordsOf(HandlerOf(t, line))
      else HandlerOf(t, line) == match t case LoginTable => NeedAuth case FullTable => Unknown case SiteTable => SiteUnknown
  {
    var i := Lookup(WordsIn(t), CommandOf(line));
    match t {
      case LoginTable => LoginWords(i);
      case FullTable => if i < 14 { EarlyWords(i); } else { LateWords(i); }
      case SiteTable => SiteWords(i);
    }
  }

  function WordsIn(t: TableName): seq<string> {
    match t
    case LoginTable => UNAUTHENTICATED_COMMANDS
    case FullTable => AUTHENTICATED_COMMANDS
    case SiteTable => SITE_COMMANDS
  }

  lemma LoginWords(i: nat)
    requires i <= |UNAUTHENTICATED_COMMANDS|
    ensures if i < |UNAUTHENTICATED_COMMANDS| then UNAUTHENTICATED_COMMANDS[i] in WordsOf(UNAUTHENTICATED_HANDLERS[i])
            else UNAUTHENTICATED_HANDLERS[i] == NeedAuth
  {
  }

  lemma EarlyWords(i: nat)
    requires i < 14
    ensures AUTHENTICATED_COMMANDS[i] in WordsOf(AUTHENTICATED_HANDLERS[i])
  {
  }

  lemma LateWords(i: nat)
    requires 14 <= i <= |AUTHENTICATED_COMMANDS|
    ensures if i < |AUTHENTICATED_COMMANDS| then AUTHENTICATED_COMMANDS[i] in WordsOf(AUTHENTICATED_HANDLERS[i])
            else AUTHENTICATED_HANDLERS[i] == Unknown
  {
  }

  lemma SiteWords(i: nat)
    requires i <= |SITE_COMMANDS|
    ensures if i < |SITE_COMMANDS| then SITE_COMMANDS[i] in WordsOf(SITE_HANDLERS[i]) else SITE_HANDLERS[i] == SiteUnknown
  {
  }

  /** The SITE handler dispatches on its own argument, which amounts to splitting the line into three. */
  lemma SiteSplitsInThree(line: string)
    requires ArgumentOf(line) != ""
    ensures SplitAt(line, ' ', 2) == [CommandOf(line)] + SplitAt(ArgumentOf(line), ' ', 1)
  {
    SplitComposes(line, ' ', 1, 1);
    assert SplitAt(line, ' ', 1)[..1] == [CommandOf(line)];
  }

  /** Arguments are never longer than the line they come from. */
  lemma {:induction false} SplitLength(s: string, sep: char, n: nat, k: nat)
    requires k < |SplitAt(s, sep, n)|
    ensures |SplitAt(s, sep, n)[k]| <= |s| && (NUL !in s ==> NUL !in SplitAt(s, sep, n)[k])
    decreases n
  {
    var t := TrimLeft(s, sep);
    TrimLeftIsSuffix(s, sep);
    if k > 0 {
      SplitLength(t[|Word(t, sep)|..], sep, n - 1, k - 1);
    }
  }

  lemma ArgumentIsShorter(line: string)
    ensures |CommandOf(line)| <= |line| && |ArgumentOf(line)| <= |line|
    ensures NUL !in line ==> NUL !in CommandOf(line) && NUL !in ArgumentOf(line)
  {
    forall k | 0 <= k < |SplitAt(line, ' ', 1)|
      ensures |SplitAt(line, ' ', 1)[k]| <= |line| && (NUL !in line ==> NUL !in SplitAt(line, ' ', 1)[k])
    {
      SplitLength(line, ' ', 1, k);
    }
  }

  lemma {:induction false} TrimLeftIsSuffix(s: string, sep: char)
    ensures TrimLeft(s, sep) == s[|s| - |TrimLeft(s, sep)|..]
    decreases |s|
  {
    if s != "" && s[0] == sep {
      TrimLeftIsSuffix(s[1..], sep);
    }
  }
}
