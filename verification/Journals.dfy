/** The running log of a server, kept together with the trail it leaves behind (see Sessions). Only allowed events can
    be entered. */
module Journals {
  import opened CStrings
  import opened Commands
  import opened Sessions

  class Journal {
    ghost const initial: Option<string>
    ghost var log: seq<Event>
    ghost var password: Option<string>
    ghost var phases: map<nat, Phase>
    ghost var auth: set<nat>
    ghost var lines: map<nat, seq<string>>
    ghost var excused: nat

    /** The fields are the trail of the log. */
    ghost predicate Follows(log: seq<Event>)
      reads this
    {
      After(log, initial) == Trail(true, password, phases, auth, lines, excused)
    }

    /** The fields are what the log implies; behind one case. */
    ghost predicate Valid()
      reads this
    {
      forall l: seq<Event> | l == log :: Follows(l)
    }

    /** So every event of the log was allowed, and the fields are what it leaves behind. */
    lemma IsSafe()
      requires Valid()
      ensures After(log, initial) == Trail(true, password, phases, auth, lines, excused)
    {
      assert Follows(log);
    }

    /** Everything on file about connections other than `id`. */
    ghost function Others(id: nat): (map<nat, Phase>, set<nat>, map<nat, seq<string>>)
      reads this
    {
      (phases - {id}, auth - {id}, lines - {id})
    }

    constructor (password: Option<string>)
      ensures Valid() && initial == password && log == [] && this.password == password && phases == map[] && auth == {} && lines == map[] && excused == 0
    {
      initial, log, this.password, phases, auth, lines, excused := password, [], password, map[], {}, map[], 0;
    }

    ghost method Connected(id: nat)
      requires Valid() && id !in phases
      modifies this
      ensures Valid() && log == old(log) + [Connect(id)] && password == old(password)
      ensures phases == old(phases)[id := Greeting] && auth == old(auth) - {id} && lines == old(lines)[id := []]
      ensures excused == old(excused)
      ensures Others(id) == old(Others(id))
    {
      assert Follows(log);
      AfterOne(log, Connect(id), initial);
      log := log + [Connect(id)];
      phases, auth, lines := phases[id := Greeting], auth - {id}, lines[id := []];
      assert phases - {id} == old(phases) - {id} && lines - {id} == old(lines) - {id} && auth - {id} == old(auth) - {id};
    }

    ghost method Dispatched(id: nat, line: string)
      requires Valid() && id in phases && phases[id] == Ready && line != "" && id in lines
      modifies this
      ensures Valid() && log == old(log) + [Dispatch(id, line)] && password == old(password) && auth == old(auth)
      ensures phases == old(phases)[id := Working(None, {})] && lines == old(lines)[id := old(lines)[id] + [line]]
      ensures excused == old(excused)
      ensures Others(id) == old(Others(id))
    {
      assert Follows(log);
      AfterOne(log, Dispatch(id, line), initial);
      log := log + [Dispatch(id, line)];
      phases, lines := phases[id := Working(None, {})], lines[id := lines[id] + [line]];
      assert phases - {id} == old(phases) - {id} && lines - {id} == old(lines) - {id};
    }

    /** A handler call; what it does to the password and to the login is what the handler is about to do. */
    ghost method Ran(id: nat, h: Handler, argument: string)
      requires Valid() && id in phases && phases[id].Working? && (Public(h) || id in auth)
      requires phases[id].handler == if IsSiteHandler(h) then Some(Site) else None
      modifies this
      ensures Valid() && log == old(log) + [Run(id, h, argument)] && lines == old(lines)
      ensures phases == old(phases)[id := Working(Some(h), Codes(h, argument, old(password)))]
      ensures password == if h == SitePasswd then Some(argument) else if h == SiteNopasswd then None else old(password)
      ensures auth == if h == Pass && Accepts(old(password), argument) then old(auth) + {id}
                      else if h == Rein then old(auth) - {id} else old(auth)
      ensures excused == old(excused)
      ensures Others(id) == old(Others(id))
    {
      assert Follows(log);
      AfterOne(log, Run(id, h, argument), initial);
      var t := Next(Trail(true, password, phases, auth, lines, excused), Run(id, h, argument));
      log := log + [Run(id, h, argument)];
      password, phases, auth := t.password, t.phases, t.auth;
      assert phases - {id} == old(phases) - {id} && auth - {id} == old(auth) - {id};
    }

    ghost method Replied(id: nat, code: int, ok: bool)
      requires Valid() && id in phases && ReplyFits(phases[id], code)
      modifies this
      ensures Valid() && log == old(log) + [Reply(id, code, ok)]
      ensures password == old(password) && auth == old(auth) && lines == old(lines)
      ensures phases == old(phases)[id := AfterReply(old(phases)[id], code, ok)]
      ensures excused == old(excused) + if old(phases)[id] == Excusing && ok then 1 else 0
      ensures Others(id) == old(Others(id))
    {
      assert Follows(log);
      AfterOne(log, Reply(id, code, ok), initial);
      log := log + [Reply(id, code, ok)];
      excused := excused + if phases[id] == Excusing && ok then 1 else 0;
      phases := phases[id := AfterReply(phases[id], code, ok)];
      assert phases - {id} == old(phases) - {id};
    }

    ghost method Failed(id: nat)
      requires Valid() && id in phases && phases[id] == Transferring
      modifies this
      ensures Valid() && log == old(log) + [SetupFailed(id)]
      ensures password == old(password) && auth == old(auth) && lines == old(lines) && excused == old(excused)
      ensures phases == old(phases)[id := Excusing]
      ensures Others(id) == old(Others(id))
    {
      assert Follows(log);
      AfterOne(log, SetupFailed(id), initial);
      log := log + [SetupFailed(id)];
      phases := phases[id := Excusing];
      assert phases - {id} == old(phases) - {id};
    }

    ghost method HungUp(id: nat)
      requires Valid() && id in phases && phases[id] in {Ready, Closing}
      modifies this
      ensures Valid() && log == old(log) + [Hangup(id)]
      ensures password == old(password) && auth == old(auth) && lines == old(lines) && phases == old(phases)[id := Gone]
      ensures excused == old(excused)
      ensures Others(id) == old(Others(id))
    {
      assert Follows(log);
      AfterOne(log, Hangup(id), initial);
      log := log + [Hangup(id)];
      phases := phases[id := Gone];
      assert phases - {id} == old(phases) - {id};
    }
  }
}
