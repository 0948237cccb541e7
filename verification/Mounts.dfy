/** Mounting, unmounting, the remount menu and the device poller (fs.c, dvd.c).
    Drivers, clocks and buttons are the outside world: their answers are arguments. A ghost log records what was done
    to the file systems and when, and the promises about whole runs are statements about that log. */
module Mounts {
  import opened CStrings
  import opened Partitions

  const PARTITION_COUNT: nat := 11
  const GCSDA: nat := 0
  const GCSDB: nat := 1
  const SD: nat := 2
  const USB: nat := 3
  const DVD: nat := 4
  const WOD: nat := 5
  const FST: nat := 6

  /** Only its being positive matters. */
  const TICKS_PER_SECOND: nat := 1000

  predicate IsGecko(p: nat) {
    p == GCSDA || p == GCSDB
  }

  predicate IsFat(p: nat) {
    p == SD || p == USB || IsGecko(p)
  }

  predicate IsDvd(p: nat) {
    p == DVD || p == WOD || p == FST
  }

  /** Table entries with a disc interface. */
  predicate HasDisc(p: nat) {
    p <= USB
  }

  predicate Selectable(p: nat) {
    IsFat(p) || p == DVD
  }

  // ---- The log

  datatype Event =
    | FsCall(p: nat, mounting: bool)   // a mount or unmount call of p's file system library
    | Attempt(p: nat)                  // mount() was asked for p
    | MountDone(p: nat)                // mount() of p succeeded
    | Wait(on: bool)                   // the DVD wait flag was set or cleared
    | DriveMount                       // the drive was told to get a disc ready
    | Polled(p: nat)                   // the poller looked at p
    | AutoAttempt(p: nat)              // the poller is about to mount p
    | GeckoFail(p: nat)                // the poller gave up on the SD Gecko p
    | MenuShown
    | Armed(p: nat)                    // the menu chose p and started its timer
    | Resumed                          // the menu's wait ended

  /** What a log leaves behind: whether it was all allowed, the flags and the waiting device it implies, and what the
      poller looked at. */
  datatype Trail = Trail(safe: bool, waiting: bool, failed: seq<bool>, armed: Option<nat>, polls: seq<nat>)

  /** What may come next: DVD libraries are only called with the wait flag down, the poller neither retries an SD
      Gecko it gave up on nor looks at the device the menu waits for, and the menu waits for one device at a time. */
  predicate Allowed(t: Trail, e: Event) {
    match e
    case FsCall(p, _) => IsDvd(p) ==> !t.waiting
    case AutoAttempt(p) => p < |t.failed| ==> !t.failed[p]
    case Polled(p) => t.armed != Some(p)
    case Armed(_) => t.armed == None
    case _ => true
  }

  function Next(t: Trail, e: Event): Trail {
    var t' := t.(safe := t.safe && Allowed(t, e));
    match e
    case Wait(on) => t'.(waiting := on)
    case GeckoFail(p) => t'.(failed := Put(t.failed, p, true))
    case MountDone(p) => t'.(failed := Put(t.failed, p, false))
    case Armed(p) => t'.(armed := Some(p))
    case Resumed => t'.(armed := None)
    case Polled(p) => t'.(polls := t.polls + [p])
    case _ => t'
  }

  function Put(s: seq<bool>, p: nat, b: bool): seq<bool> {
    if p < |s| then s[p := b] else s
  }

  function After(log: seq<Event>): Trail {
    if log == [] then Trail(true, false, seq(PARTITION_COUNT, _ => false), None, [])
    else Next(After(log[..|log| - 1]), log[|log| - 1])
  }

  lemma AfterOne(log: seq<Event>, e: Event)
    ensures After(log + [e]) == Next(After(log), e)
  {
    assert (log + [e])[..|log|] == log;
  }

  lemma AppendMore(log: seq<Event>, a: seq<Event>, b: seq<Event>)
    ensures log + a + b == log + (a + b)
  {
  }

  lemma SamePut(s: seq<bool>, p: nat)
    requires p < |s|
    ensures s[p := s[p]] == s
  {
  }

  lemma Around(log: seq<Event>, e: Event, evs: seq<Event>, f: Event)
    ensures log + [e] + evs == log + ([e] + evs)
    ensures log + [e] + evs + [f] == log + ([e] + evs + [f])
  {
  }

  lemma ThreeParts(log: seq<Event>, a: seq<Event>, b: seq<Event>, c: seq<Event>)
    ensures log + a + b + c == log + (a + b + c)
  {
  }

  // ---- Promises about whole runs

  /** `on` happened, and no `off` since. */
  predicate Since(log: seq<Event>, on: Event, off: Event) {
    log != [] && (log[|log| - 1] == on || (log[|log| - 1] != off && Since(log[..|log| - 1], on, off)))
  }

  lemma {:induction false} SinceOrCleared(log: seq<Event>, on: Event, off: Event, j: nat) returns (k: nat)
    requires !Since(log, on, off) && j < |log| && log[j] == on
    ensures j < k < |log| && log[k] == off
  {
    k := |log| - 1;
    if log[k] != off {
      k := SinceOrCleared(log[..k], on, off, j);
    }
  }

  /** The flags of a trail say what happened last. */
  lemma {:induction false} TrailSays(log: seq<Event>, p: nat)
    requires After(log).safe && p < PARTITION_COUNT
    ensures |After(log).failed| == PARTITION_COUNT
    ensures After(log).waiting <==> Since(log, Wait(true), Wait(false))
    ensures After(log).failed[p] <==> Since(log, GeckoFail(p), MountDone(p))
    ensures After(log).armed == Some(p) <==> Since(log, Armed(p), Resumed)
  {
    if log != [] {
      TrailSays(log[..|log| - 1], p);
    }
  }

  lemma {:induction false} SafeAt(log: seq<Event>, i: nat)
    requires After(log).safe && i < |log|
    ensures After(log[..i]).safe && Allowed(After(log[..i]), log[i])
  {
    var init := log[..|log| - 1];
    if i < |init| {
      SafeAt(init, i);
      assert init[..i] == log[..i];
    }
  }

  /** Whenever the ISO9660, WOD or FST library is called, every earlier raising of the wait flag was taken back. */
  lemma DvdCallsWithFlagDown(log: seq<Event>, i: nat, j: nat) returns (k: nat)
    requires After(log).safe && j < i < |log|
    requires log[i].FsCall? && IsDvd(log[i].p) && log[j] == Wait(true)
    ensures j < k < i && log[k] == Wait(false)
  {
    SafeAt(log, i);
    TrailSays(log[..i], DVD);
    k := SinceOrCleared(log[..i], Wait(true), Wait(false), j);
  }

  /** Once the poller gave up on an SD Gecko it does not try it again before a mount of it succeeded. */
  lemma GeckoLeftAlone(log: seq<Event>, i: nat, j: nat) returns (k: nat)
    requires After(log).safe && j < i < |log|
    requires log[i].AutoAttempt? && IsGecko(log[i].p) && log[j] == GeckoFail(log[i].p)
    ensures j < k < i && log[k] == MountDone(log[i].p)
  {
    SafeAt(log, i);
    TrailSays(log[..i], log[i].p);
    k := SinceOrCleared(log[..i], GeckoFail(log[i].p), MountDone(log[i].p), j);
  }

  /** From the moment the menu waits for a device until it resumes, the poller does not look at that device. */
  lemma PollerKeepsOff(log: seq<Event>, i: nat, j: nat) returns (k: nat)
    requires After(log).safe && j < i < |log|
    requires log[i].Polled? && log[i].p < PARTITION_COUNT && log[j] == Armed(log[i].p)
    ensures j < k < i && log[k] == Resumed
  {
    SafeAt(log, i);
    TrailSays(log[..i], log[i].p);
    k := SinceOrCleared(log[..i], Armed(log[i].p), Resumed, j);
  }

  // ---- What each step does

  datatype MountState = Start | SelectDevice | WaitForDevice

  datatype Buttons = Buttons(left: bool, right: bool, up: bool, down: bool, one: bool)

  /** What the outside world answers about one partition in one event. */
  datatype Outside = Outside(
    mountedBefore: bool,     // mounted(), when the poller compares
    mounted: bool,           // and when it decides
    mountedAtCall: bool,     // and when mount() or unmount() asks
    cover: Option<bool>,     // whether the cover register, if it can be read, says that there is a disc
    card: bool,              // isInserted
    ready: bool,             // the drive gets ready
    starts: bool,            // the device's interface starts
    restarts: bool,          // and at a second attempt
    mounts: bool,            // the library's mount call
    ntfs: Option<bool>,      // and ntfsMount, if an NTFS partition is found
    unmounts: bool,          // the library's unmount call
    idle: bool,              // dvd_last_access() is 0
    time: nat                // gettime()
  )

  type World = nat -> Outside

  datatype Input =
    | Remount(world: World)
    | Select(pressed: Buttons, now: nat, world: World)
    | Timers(now: nat, access: nat, later: nat, motor: World, menu: World, poll: World)
    | DvdPoll(world: World)
    | SiteMount(dir: string, world: World)
    | SiteUnmount(dir: string, world: World)
    | SiteEject(world: World)

  /** The globals of fs.c and dvd.c: the menu's state, choice and timer, the poller's timer, the insertion and failure
      flags, the DVD wait flag, and when the drive was last stopped. */
  datatype State = State(menu: MountState, chosen: Option<nat>, timer: nat, nextCheck: nat, inserted: seq<bool>,
                         failed: seq<bool>, waiting: bool, stopped: nat)

  datatype Outcome = Outcome(s: State, evs: seq<Event>)

  predicate Starts(p: nat, w: Outside) {
    w.starts || (IsGecko(p) && w.restarts)
  }

  /** What mounting `p` calls once it was not refused: a disc's library only when the drive gets ready, and for a FAT
      device fatMount and, if that fails and an NTFS partition is found, ntfsMount, if the interface starts. */
  function MountCalls(p: nat, w: Outside): seq<Event> {
    if IsDvd(p) then [Wait(true), DriveMount] + if w.ready then [Wait(false), FsCall(p, true)] else []
    else if IsFat(p) then
      if !Starts(p, w) then [] else [FsCall(p, true)] + if w.mounts || w.ntfs.None? then [] else [FsCall(p, true)]
    else [FsCall(p, true)]
  }

  predicate Mounts(p: nat, w: Outside) {
    if IsDvd(p) then w.ready && w.mounts
    else if IsFat(p) then Starts(p, w) && (w.mounts || w.ntfs == Some(true))
    else w.mounts
  }

  /** mount() gives up at once on what is mounted already, and on a disc while the flag is up. */
  predicate Refused(s: State, p: nat, w: Outside) {
    w.mountedAtCall || (IsDvd(p) && s.waiting)
  }

  predicate Succeeds(s: State, p: nat, w: Outside) {
    !Refused(s, p, w) && Mounts(p, w)
  }

  function MountStep(s: State, p: nat, w: Outside): Outcome {
    if Refused(s, p, w) then Outcome(s, [Attempt(p)])
    else Outcome(
      s.(waiting := if IsDvd(p) then !w.ready else s.waiting,
         failed := if Mounts(p, w) then Put(s.failed, p, false) else s.failed,
         stopped := if IsDvd(p) && w.ready && w.idle then w.time else s.stopped),
      [Attempt(p)] + MountCalls(p, w) + if Mounts(p, w) then [MountDone(p)] else [])
  }

  /** What unmounting `p` calls: for a FAT device both fatUnmount and ntfsUnmount, else the one library. */
  function Unmounting(p: nat): seq<Event> {
    if IsFat(p) then [FsCall(p, false), FsCall(p, false)] else [FsCall(p, false)]
  }

  function UnmountStep(s: State, p: nat, w: Outside): Outcome {
    if !w.mountedAtCall || (IsDvd(p) && s.waiting) then Outcome(s, [])
    else Outcome(s.(stopped := if IsDvd(p) && w.idle then w.time else s.stopped), Unmounting(p))
  }

  function UnmountTwoStep(s: State, p: nat, q: nat, world: World): Outcome {
    var a := UnmountStep(s, p, world(p));
    var b := UnmountStep(a.s, q, world(q));
    Outcome(b.s, a.evs + b.evs)
  }

  /** dvd_unmount(): the three disc file systems in turn, and the motor stops. */
  function DvdUnmountStep(s: State, world: World): Outcome {
    var two := UnmountTwoStep(s, WOD, FST, world);
    var last := UnmountStep(two.s, DVD, world(DVD));
    Outcome(last.s.(stopped := world(DVD).time), two.evs + last.evs)
  }

  lemma DvdUnmountMeans(s: State, world: World)
    ensures DvdUnmountStep(s, world).s == s.(stopped := world(DVD).time)
    ensures DvdUnmountStep(s, world).evs ==
            if s.waiting then []
            else (if world(WOD).mountedAtCall then [FsCall(WOD, false)] else [])
                 + (if world(FST).mountedAtCall then [FsCall(FST, false)] else [])
                 + (if world(DVD).mountedAtCall then [FsCall(DVD, false)] else [])
  {
  }

  predicate Sized(s: State) {
    |s.inserted| == |s.failed| == PARTITION_COUNT
  }

  /** The poller can tell whether `p` is there. */
  predicate Watched(s: State, p: nat)
    requires Sized(s) && p < PARTITION_COUNT
  {
    IsDvd(p) || (HasDisc(p) && !s.failed[p])
  }

  /** The insertion flag of a watched device once it was looked at. */
  predicate Present(s: State, p: nat, w: Outside)
    requires Sized(s) && p < PARTITION_COUNT
  {
    if p == DVD then if !s.waiting && w.cover.Some? then w.cover.value else s.inserted[p]
    else if IsDvd(p) then s.inserted[DVD]
    else w.card
  }

  /** The flag now says something else than before, or than what is mounted. */
  predicate Changed(s: State, p: nat, w: Outside)
    requires Sized(s) && p < PARTITION_COUNT
  {
    Watched(s, p) && Present(s, p, w) != (s.inserted[p] || w.mountedBefore)
  }

  function LookStep(s: State, p: nat, w: Outside): State
    requires Sized(s) && p < PARTITION_COUNT
  {
    if Watched(s, p) then s.(inserted := s.inserted[p := Present(s, p, w)]) else s
  }

  /** The poller mounts a newly inserted device; an SD Gecko that will not mount is given up on. */
  function AutoMountStep(s: State, p: nat, w: Outside): Outcome {
    var o := MountStep(s, p, w);
    if !Succeeds(s, p, w) && IsGecko(p) then
      Outcome(o.s.(failed := Put(o.s.failed, p, true)), [AutoAttempt(p)] + o.evs + [GeckoFail(p)])
    else Outcome(o.s, [AutoAttempt(p)] + o.evs)
  }

  /** What an insertion or removal leads to. */
  function ReactStep(s: State, p: nat, w: Outside): Outcome
    requires Sized(s) && p < PARTITION_COUNT
  {
    if s.inserted[p] then
      if p == DVD then Outcome(s.(waiting := true), [Wait(true), DriveMount])
      else if IsDvd(p) || w.mounted then Outcome(s, [])
      else AutoMountStep(s, p, w)
    else if w.mounted then UnmountStep(s, p, w)
    else Outcome(s, [])
  }

  /** The poller's turn on one partition. */
  function PollStep(s: State, p: nat, w: Outside): (o: Outcome)
    requires Sized(s) && p < PARTITION_COUNT
    ensures Sized(o.s) && o.s.timer == s.timer && o.s.chosen == s.chosen
  {
    var looked := LookStep(s, p, w);
    if Changed(s, p, w) then
      var o := ReactStep(looked, p, w);
      Outcome(o.s, [Polled(p)] + o.evs)
    else Outcome(looked, [Polled(p)])
  }

  /** The device that the poller leaves alone: the one the menu waits for. */
  function Skipped(s: State): Option<nat> {
    if s.timer != 0 then s.chosen else None
  }

  function TurnStep(s: State, p: nat, w: Outside): (o: Outcome)
    requires Sized(s) && p < PARTITION_COUNT
    ensures Sized(o.s) && Skipped(o.s) == Skipped(s)
  {
    if Skipped(s) == Some(p) then Outcome(s, []) else PollStep(s, p, w)
  }

  /** The first `n` partitions in table order. */
  function PollFirst(s: State, n: nat, world: World): (o: Outcome)
    requires Sized(s) && n <= PARTITION_COUNT
    ensures Sized(o.s) && Skipped(o.s) == Skipped(s)
  {
    if n == 0 then Outcome(s, [])
    else
      var o := PollFirst(s, n - 1, world);
      var last := TurnStep(o.s, n - 1, world(n - 1));
      Outcome(last.s, o.evs + last.evs)
  }

  function CheckStep(s: State, now: nat, later: nat, world: World): Outcome
    requires Sized(s)
  {
    if now <= s.nextCheck then Outcome(s, [])
    else
      var o := PollFirst(s, |s.inserted|, world);
      Outcome(o.s.(nextCheck := later + 2 * TICKS_PER_SECOND), o.evs)
  }

  /** Mounting the device that the menu waited for; a disc is mounted once the drive is ready. */
  function ChosenStep(s: State, p: nat, w: Outside): Outcome {
    if IsDvd(p) then Outcome(s.(waiting := true), [Wait(true), DriveMount]) else MountStep(s, p, w)
  }

  /** B shows the menu, or, when the menu waits for a device, ends the wait and mounts it. */
  function RemountStep(s: State, world: World): Outcome {
    if s.menu != WaitForDevice || s.chosen == None then
      Outcome(s.(menu := SelectDevice, chosen := None), [MenuShown])
    else
      var p := s.chosen.value;
      var o := ChosenStep(s.(menu := Start, timer := 0), p, world(p));
      Outcome(o.s.(chosen := None), [Resumed] + o.evs)
  }

  function AwaitStep(s: State, p: nat, now: nat, world: World): Outcome {
    var o := if IsDvd(p) then DvdUnmountStep(s, world) else UnmountStep(s, p, world(p));
    Outcome(o.s.(timer := now + 30 * TICKS_PER_SECOND), o.evs + [Armed(p)])
  }

  /** In the menu a button chooses a device, which is unmounted and waited for. The DVD is refused while the drive is
      getting ready: the menu closes then, and its choice lingers unused. */
  function SelectStep(s: State, pressed: Buttons, now: nat, world: World): Outcome {
    if s.menu != SelectDevice || Chosen(pressed) == None then Outcome(s, [])
    else
      var p := Chosen(pressed).value;
      if IsDvd(p) && s.waiting then Outcome(s.(chosen := Some(p), menu := Start), [])
      else
        AwaitStep(s.(menu := WaitForDevice, chosen := Some(p)), p, now, world)
  }

  function MenuTimerStep(s: State, now: nat, world: World): Outcome {
    if s.timer != 0 && now > s.timer then RemountStep(s, world) else Outcome(s, [])
  }

  function MotorStep(s: State, now: nat, access: nat, world: World): Outcome {
    if access > s.stopped && now > access + 300 * TICKS_PER_SECOND && !s.waiting then DvdUnmountStep(s, world)
    else Outcome(s, [])
  }

  /** Once the drive is ready, lower the flag and try the three disc file systems in turn. */
  function DvdMountStep(s: State, world: World): Outcome {
    if s.waiting && world(DVD).ready then
      Outcome(s.(waiting := false,
                 stopped := if world(WOD).mounts || world(FST).mounts || world(DVD).mounts then s.stopped else world(DVD).time),
              [Wait(false), FsCall(WOD, true), FsCall(FST, true), FsCall(DVD, true)])
    else Outcome(s, [])
  }

  function InputStep(s: State, input: Input): (o: Outcome)
    requires Sized(s)
    ensures Sized(o.s)
  {
    match input
    case Remount(world) => RemountStep(s, world)
    case Select(pressed, now, world) => SelectStep(s, pressed, now, world)
    case Timers(now, access, later, motor, menu, poll) =>
      var a := MotorStep(s, now, access, motor);
      var b := MenuTimerStep(a.s, now, menu);
      var c := CheckStep(b.s, now, later, poll);
      Outcome(c.s, a.evs + b.evs + c.evs)
    case DvdPoll(world) => DvdMountStep(s, world)
    case SiteMount(dir, world) =>
      if PartitionOf(dir, 0) == None then Outcome(s, [])
      else MountStep(s, PartitionOf(dir, 0).value, world(PartitionOf(dir, 0).value))
    case SiteUnmount(dir, world) =>
      if PartitionOf(dir, 0) == None then Outcome(s, [])
      else UnmountStep(s, PartitionOf(dir, 0).value, world(PartitionOf(dir, 0).value))
    case SiteEject(world) => DvdUnmountStep(s, world)
  }

  /** The main loop's dealings with devices, in any order and any number. */
  function RunSteps(s: State, inputs: seq<Input>): (o: Outcome)
    requires Sized(s)
    ensures Sized(o.s)
  {
    if inputs == [] then Outcome(s, [])
    else
      var init := RunSteps(s, inputs[..|inputs| - 1]);
      var last := InputStep(init.s, inputs[|inputs| - 1]);
      Outcome(last.s, init.evs + last.evs)
  }

  // ---- What that means

  /** The insertion flag after a look: what the card slot or the cover register says, the DVD's flag for the file systems
      on it, and no change for a device that cannot be watched. */
  lemma LookMeans(s: State, p: nat, w: Outside)
    requires Sized(s) && p < PARTITION_COUNT
    ensures LookStep(s, p, w) == s.(inserted := LookStep(s, p, w).inserted)
    ensures HasDisc(p) && !s.failed[p] ==> LookStep(s, p, w).inserted == s.inserted[p := w.card]
    ensures p == DVD && !s.waiting && w.cover.Some? ==> LookStep(s, p, w).inserted == s.inserted[p := w.cover.value]
    ensures p == DVD && (s.waiting || w.cover.None?) ==> LookStep(s, p, w) == s
    ensures p == WOD || p == FST ==> LookStep(s, p, w).inserted == s.inserted[p := s.inserted[DVD]]
    ensures !IsDvd(p) && (!HasDisc(p) || s.failed[p]) ==> LookStep(s, p, w) == s
  {
    SamePut(s.inserted, p);
  }

  /** A mount attempt: refused without a call, or made with the calls of its kind. */
  lemma MountMeans(s: State, p: nat, w: Outside)
    ensures var o := MountStep(s, p, w);
      && (w.mountedAtCall || (IsDvd(p) && s.waiting) ==> o == Outcome(s, [Attempt(p)]))
      && (!w.mountedAtCall && p == SD && w.starts && w.mounts ==> o.evs == [Attempt(SD), FsCall(SD, true), MountDone(SD)])
      && (!w.mountedAtCall && IsGecko(p) && !w.starts && !w.restarts ==> o.evs == [Attempt(p)])
      && (!w.mountedAtCall && IsGecko(p) && (w.starts || w.restarts) && w.mounts ==>
            o.evs == [Attempt(p), FsCall(p, true), MountDone(p)])
      && (!w.mountedAtCall && IsFat(p) && w.starts && !w.mounts && w.ntfs == Some(true) ==>
            o.evs == [Attempt(p), FsCall(p, true), FsCall(p, true), MountDone(p)])
      && (!w.mountedAtCall && IsFat(p) && w.starts && !w.mounts && w.ntfs == None ==> o.evs == [Attempt(p), FsCall(p, true)])
      && (!w.mountedAtCall && IsDvd(p) && !s.waiting && w.ready && w.mounts ==>
            o.evs == [Attempt(p), Wait(true), DriveMount, Wait(false), FsCall(p, true), MountDone(p)] && !o.s.waiting)
      && (!w.mountedAtCall && IsDvd(p) && !s.waiting && !w.ready ==>
            o.evs == [Attempt(p), Wait(true), DriveMount] && o.s.waiting)
  {
  }

  /** The poller's turn: a device that was not there and now is, and is not mounted, is mounted; a disc starts the drive;
      what was there and is gone is unmounted, unless it is a disc and the flag is up; and otherwise nothing happens. */
  lemma PollMeans(s: State, p: nat, w: Outside)
    requires Sized(s) && p < PARTITION_COUNT
    ensures var o, before, after := PollStep(s, p, w), s.inserted[p] || w.mountedBefore, LookStep(s, p, w).inserted[p];
      && (!IsDvd(p) && (!HasDisc(p) || s.failed[p]) ==> o == Outcome(s, [Polled(p)]))
      && (HasDisc(p) && !s.failed[p] && !before && w.card && !w.mounted ==>
            && [Polled(p), AutoAttempt(p)] + MountStep(LookStep(s, p, w), p, w).evs <= o.evs
            && |o.evs| == 2 + |MountStep(LookStep(s, p, w), p, w).evs| + (if IsGecko(p) && o.s.failed[p] then 1 else 0))
      && (p == DVD && !before && after ==> o.evs == [Polled(DVD), Wait(true), DriveMount] && o.s.waiting)
      && (HasDisc(p) && !s.failed[p] && before && !after && w.mounted && w.mountedAtCall ==> o.evs == [Polled(p)] + Unmounting(p))
      && (IsDvd(p) && !s.waiting && before && !after && w.mounted && w.mountedAtCall ==> o.evs == [Polled(p)] + Unmounting(p))
      && (before == after || (after && (p == WOD || p == FST || (p != DVD && w.mounted))) || (!after && !w.mounted) ==>
            o.evs == [Polled(p)])
  {
    LookMeans(s, p, w);
  }

  /** What a turn leaves alone. */
  lemma PollKeeps(s: State, p: nat, w: Outside, q: nat)
    requires Sized(s) && p < PARTITION_COUNT && q < PARTITION_COUNT && q != p
    ensures PollStep(s, p, w).s.inserted[q] == s.inserted[q] && PollStep(s, p, w).s.failed[q] == s.failed[q]
    ensures !IsDvd(p) ==> PollStep(s, p, w).s.waiting == s.waiting
  {
  }

  lemma {:induction false} PollFirstKeeps(s: State, n: nat, world: World, q: nat)
    requires Sized(s) && n <= q < PARTITION_COUNT
    ensures PollFirst(s, n, world).s.inserted[q] == s.inserted[q] && PollFirst(s, n, world).s.failed[q] == s.failed[q]
    ensures n <= DVD ==> PollFirst(s, n, world).s.waiting == s.waiting
  {
    if n > 0 {
      PollFirstKeeps(s, n - 1, world, q);
      PollKeeps(PollFirst(s, n - 1, world).s, n - 1, world(n - 1), q);
    }
  }

  lemma {:induction false} TurnIsTaken(s: State, n: nat, world: World, p: nat, e: Event)
    requires Sized(s) && p < n <= PARTITION_COUNT
    requires e in TurnStep(PollFirst(s, p, world).s, p, world(p)).evs
    ensures e in PollFirst(s, n, world).evs
  {
    if n > p + 1 {
      TurnIsTaken(s, n - 1, world, p, e);
    }
  }

  /** Nothing that is put in or taken out goes unnoticed: when it is time, and the menu does not wait for the device, a new
      card is mounted, a new disc starts the drive, and a mounted device that is gone is unmounted. */
  lemma ChangeIsNoticed(s: State, now: nat, later: nat, world: World, p: nat)
    requires Sized(s) && now > s.nextCheck && p <= DVD && !s.failed[p] && Skipped(s) != Some(p)
    ensures var evs, w := CheckStep(s, now, later, world).evs, world(p);
      && (p < DVD && !s.inserted[p] && !w.mountedBefore && !w.mounted && w.card ==> AutoAttempt(p) in evs && Attempt(p) in evs)
      && (p == DVD && !s.waiting && !s.inserted[p] && !w.mountedBefore && w.cover == Some(true) ==> DriveMount in evs)
      && (p < DVD && (s.inserted[p] || w.mountedBefore) && !w.card && w.mounted && w.mountedAtCall ==> FsCall(p, false) in evs)
      && (p == DVD && !s.waiting && (s.inserted[p] || w.mountedBefore) && w.cover == Some(false) && w.mounted && w.mountedAtCall
          ==> FsCall(p, false) in evs)
  {
    var before := PollFirst(s, p, world).s;
    PollFirstKeeps(s, p, world, p);
    PollMeans(before, p, world(p));
    LookMeans(before, p, world(p));
    var evs := PollStep(before, p, world(p)).evs;
    forall e | e in evs
      ensures e in CheckStep(s, now, later, world).evs
    {
      TurnIsTaken(s, |s.inserted|, world, p, e);
    }
    if p < DVD && !s.inserted[p] && !world(p).mountedBefore && !world(p).mounted && world(p).card {
      var mounting := [Polled(p), AutoAttempt(p)] + MountStep(LookStep(before, p, world(p)), p, world(p)).evs;
      assert mounting[1] == AutoAttempt(p) && mounting[2] == Attempt(p);
      assert evs[1] == mounting[1] && evs[2] == mounting[2];
    }
  }

  /** Which button, pressed alone, chooses which device. */
  lemma ButtonMeans(b: Buttons)
    ensures b == Buttons(true, false, false, false, false) ==> Chosen(b) == Some(SD)
    ensures b == Buttons(false, true, false, false, false) ==> Chosen(b) == Some(USB)
    ensures b == Buttons(false, false, true, false, false) ==> Chosen(b) == Some(GCSDA)
    ensures b == Buttons(false, false, false, true, false) ==> Chosen(b) == Some(GCSDB)
    ensures b == Buttons(false, false, false, false, true) ==> Chosen(b) == Some(DVD)
    ensures b == Buttons(false, false, false, false, false) <==> Chosen(b) == None
  {
  }

  /** The menu: B opens it, a button chooses a device, which is unmounted and waited for, and after that the next B, or the
      end of 30 seconds, mounts it. */
  lemma MenuMeans(s: State, pressed: Buttons, now: nat, later: nat, world: World, world': World)
    requires s.menu == Start && Chosen(pressed).Some? && later > now + 30 * TICKS_PER_SECOND
    requires !(Chosen(pressed) == Some(DVD) && s.waiting)
    ensures var p := Chosen(pressed).value;
            var shown := RemountStep(s, world);
            var chosen := SelectStep(shown.s, pressed, now, world);
            var due := MenuTimerStep(chosen.s, later, world');
      && shown.evs == [MenuShown] && Skipped(chosen.s) == Some(p)
      && chosen.evs == (if p == DVD then DvdUnmountStep(shown.s, world).evs else UnmountStep(shown.s, p, world(p)).evs) + [Armed(p)]
      && MenuTimerStep(chosen.s, now, world') == Outcome(chosen.s, [])
      && due == RemountStep(chosen.s, world') && due.s.menu == Start && due.s.timer == 0
      && (p == DVD ==> due.evs == [Resumed, Wait(true), DriveMount])
      && (p != DVD ==> due.evs == [Resumed] + MountStep(chosen.s.(menu := Start, timer := 0), p, world'(p)).evs)
  {
  }

  // ---- The globals of fs.c and dvd.c

  class Devices {
    var mountState: MountState
    var mountPartition: Option<nat>
    var mountTimer: nat
    var deviceCheckTimer: nat
    var inserted: seq<bool>
    var geckoFail: seq<bool>
    var mountWait: bool
    var dvdLastStopped: nat
    /** The device whose change the menu is waiting for. */
    ghost var armed: Option<nat>
    ghost var polls: seq<nat>
    ghost var log: seq<Event>

    /** The device half of the invariant: the log was safe all along, and the flags are the ones it implies. The trail
        stands behind one case. */
    ghost predicate Consistent()
      reads `inserted, `geckoFail, `log, `mountWait, `armed, `polls
    {
      |inserted| == |geckoFail| == PARTITION_COUNT && forall l: seq<Event> | l == log :: Follows(l)
    }

    ghost predicate Follows(log: seq<Event>)
      reads `geckoFail, `mountWait, `armed, `polls
    {
      After(log) == Trail(true, mountWait, geckoFail, armed, polls)
    }

    /** The menu half: the timer runs exactly while the menu waits, and then a selectable device is chosen. */
    ghost predicate MenuConsistent()
      reads this
    {
      && (mountTimer != 0 <==> mountState == WaitForDevice)
      && (mountState == WaitForDevice ==> mountPartition.Some? && Selectable(mountPartition.value))
      && (mountState == SelectDevice ==> mountPartition == None)
      && armed == if mountState == WaitForDevice then mountPartition else None
    }

    ghost predicate Valid()
      reads this
    {
      Consistent() && MenuConsistent()
    }

    constructor ()
      ensures Valid() && log == [] && mountState == Start && !mountWait
    {
      mountState, mountPartition, mountTimer, deviceCheckTimer := Start, None, 0, 0;
      inserted := seq(PARTITION_COUNT, _ => false);
      geckoFail := seq(PARTITION_COUNT, _ => false);
      mountWait, dvdLastStopped, armed, polls, log := false, 0, None, [], [];
    }

    /** An event that changes none of the flags. */
    ghost method Enter(e: Event)
      requires Consistent() && (e.FsCall? || e.Attempt? || e.DriveMount? || e.AutoAttempt? || e.MenuShown?)
      requires e.FsCall? && IsDvd(e.p) ==> !mountWait
      requires e.AutoAttempt? && e.p < PARTITION_COUNT ==> !geckoFail[e.p]
      modifies `log
      ensures Consistent() && log == old(log) + [e]
    {
      assert Follows(log);
      AfterOne(log, e);
      log := log + [e];
    }

    ghost method Look(p: nat)
      requires Consistent() && armed != Some(p)
      modifies `log, `polls
      ensures Consistent() && log == old(log) + [Polled(p)] && polls == old(polls) + [p]
    {
      assert Follows(log);
      AfterOne(log, Polled(p));
      log, polls := log + [Polled(p)], polls + [p];
    }

    ghost method Arm(p: nat)
      requires Consistent() && armed == None
      modifies `log, `armed
      ensures Consistent() && log == old(log) + [Armed(p)] && armed == Some(p)
    {
      assert Follows(log);
      AfterOne(log, Armed(p));
      log, armed := log + [Armed(p)], Some(p);
    }

    ghost method Resume()
      requires Consistent()
      modifies `log, `armed
      ensures Consistent() && log == old(log) + [Resumed] && armed == None
    {
      assert Follows(log);
      AfterOne(log, Resumed);
      log, armed := log + [Resumed], None;
    }

    method SetGeckoFail(p: nat, failed: bool)
      requires Consistent() && p < PARTITION_COUNT
      modifies `geckoFail, `log
      ensures Consistent() && geckoFail == old(geckoFail)[p := failed]
      ensures log == old(log) + [if failed then GeckoFail(p) else MountDone(p)]
    {
      assert Follows(log);
      AfterOne(log, if failed then GeckoFail(p) else MountDone(p));
      geckoFail := geckoFail[p := failed];
      log := log + [if failed then GeckoFail(p) else MountDone(p)];
    }

    ghost function Now(): State
      reads this
    {
      State(mountState, mountPartition, mountTimer, deviceCheckTimer, inserted, geckoFail, mountWait, dvdLastStopped)
    }

    /** What happened in a step, and where it led; behind one case. */
    twostate predicate Did(o: Outcome)
      reads this
    {
      forall x: Outcome | x == o :: Now() == x.s && log == old(log) + x.evs
    }

    /** A call of p's file system library. */
    method CallFs(p: nat, mounting: bool, answer: bool) returns (success: bool)
      requires Consistent() && (IsDvd(p) ==> !mountWait)
      modifies `log
      ensures Consistent() && log == old(log) + [FsCall(p, mounting)] && success == answer
    {
      Enter(FsCall(p, mounting));
      success := answer;
    }

    method SetMountWait(on: bool)
      requires Consistent()
      modifies `mountWait, `log
      ensures Consistent() && mountWait == on && log == old(log) + [Wait(on)]
    {
      assert Follows(log);
      AfterOne(log, Wait(on));
      mountWait := on;
      log := log + [Wait(on)];
    }

    method StopUnlessUsed(w: Outside)
      modifies `dvdLastStopped
      ensures dvdLastStopped == if !mountWait && w.idle then w.time else old(dvdLastStopped)
    {
      if !mountWait && w.idle {
        dvdLastStopped := w.time;
      }
    }

    /** mount() of a DVD file system: raise the flag, let the drive get ready, and call the library only once the
        flag is down again. The flag stays up when the drive never gets ready. */
    method MountDvd(p: nat, w: Outside) returns (success: bool)
      requires Consistent() && IsDvd(p) && !mountWait
      modifies `mountWait, `dvdLastStopped, `log
      ensures Consistent() && success == (w.ready && w.mounts) && mountWait == !w.ready
      ensures log == old(log) + MountCalls(p, w)
      ensures dvdLastStopped == if w.ready && w.idle then w.time else old(dvdLastStopped)
    {
      success := false;
      SetMountWait(true);
      Enter(DriveMount);
      if w.ready {
        SetMountWait(false);
        success := CallFs(p, true, w.mounts);
      }
      StopUnlessUsed(w);
    }

    /** mount() of a FAT device: an SD Gecko whose interface does not start is tried a second time; then fatMount is called,
        and ntfsMount after it only when that failed and an NTFS partition was found. */
    method MountFat(p: nat, w: Outside) returns (success: bool)
      requires Consistent() && IsFat(p)
      modifies `log
      ensures Consistent() && success == (Starts(p, w) && (w.mounts || w.ntfs == Some(true)))
      ensures log == old(log) + MountCalls(p, w)
    {
      success := false;
      var retryGecko, started := true, w.starts;
      while !started
        invariant log == old(log) && (started ==> Starts(p, w)) && (!started ==> !w.starts && (!retryGecko ==> !w.restarts))
        decreases retryGecko
      {
        if !IsGecko(p) || !retryGecko {
          return;
        }
        retryGecko := false;
        started := w.restarts;
      }
      success := MountFatOrNtfs(p, w);
    }

    method MountFatOrNtfs(p: nat, w: Outside) returns (success: bool)
      requires Consistent() && IsFat(p)
      modifies `log
      ensures Consistent() && success == (w.mounts || w.ntfs == Some(true))
      ensures log == old(log) + [FsCall(p, true)] + if w.mounts || w.ntfs.None? then [] else [FsCall(p, true)]
    {
      success := CallFs(p, true, w.mounts);
      if !success && w.ntfs.Some? {
        success := CallFs(p, true, w.ntfs.value);
      }
    }

    /** mount(): false at once for no partition, one that is mounted already, or a DVD file system while the flag is up;
        in any other case the file system is mounted in its way. */
    method Mount(p: nat, w: Outside) returns (success: bool)
      requires Consistent() && p < PARTITION_COUNT
      modifies `mountWait, `dvdLastStopped, `geckoFail, `log
      ensures Consistent() && Did(MountStep(old(Now()), p, w)) && success == Succeeds(old(Now()), p, w)
      ensures w.mountedAtCall || (IsDvd(p) && old(mountWait)) ==> !success && log == old(log) + [Attempt(p)]
      ensures success ==> !geckoFail[p]
    {
      success := false;
      Enter(Attempt(p));
      if w.mountedAtCall || (IsDvd(p) && mountWait) {
        return;
      }
      success := MountDevice(p, w);
      if success {
        SetGeckoFail(p, false);
      }
    }

    /** The three ways of mounting. */
    method MountDevice(p: nat, w: Outside) returns (success: bool)
      requires Consistent() && p < PARTITION_COUNT && (IsDvd(p) ==> !mountWait)
      modifies `mountWait, `dvdLastStopped, `log
      ensures Consistent() && success == Mounts(p, w) && log == old(log) + MountCalls(p, w)
      ensures mountWait == (if IsDvd(p) then !w.ready else old(mountWait))
      ensures dvdLastStopped == if IsDvd(p) && w.ready && w.idle then w.time else old(dvdLastStopped)
    {
      if IsDvd(p) {
        success := MountDvd(p, w);
      } else if IsFat(p) {
        success := MountFat(p, w);
      } else {
        success := CallFs(p, true, w.mounts);
      }
    }

    /** unmount(): refused, without a call, for no partition, one that is not mounted, or a DVD file system while the flag
        is up; in any other case the libraries are called, and for a FAT device that always counts as a success. */
    method Unmount(p: nat, w: Outside) returns (success: bool)
      requires Consistent() && p < PARTITION_COUNT
      modifies `dvdLastStopped, `log
      ensures Consistent() && Did(UnmountStep(old(Now()), p, w))
      ensures if !w.mountedAtCall || (IsDvd(p) && mountWait) then !success && log == old(log)
              else log == old(log) + Unmounting(p) && success == (IsFat(p) || w.unmounts)
    {
      success := false;
      if !w.mountedAtCall || (IsDvd(p) && mountWait) {
        return;
      }
      success := CallFs(p, false, w.unmounts);
      if IsDvd(p) {
        StopUnlessUsed(w);
      } else if IsFat(p) {
        var ntfs := CallFs(p, false, w.unmounts);
        success := true;
      }
    }

    /** dvd_unmount(): each disc file system in turn, and none of them while the flag is up. */
    method DvdUnmount(world: World)
      requires Consistent()
      modifies `dvdLastStopped, `log
      ensures Consistent() && Did(DvdUnmountStep(old(Now()), world))
      ensures mountWait ==> log == old(log)
    {
      DvdUnmountMeans(Now(), world);
      ghost var two := UnmountTwoStep(Now(), WOD, FST, world);
      AppendMore(log, two.evs, UnmountStep(two.s, DVD, world(DVD)).evs);
      UnmountTwo(WOD, FST, world);
      var done := Unmount(DVD, world(DVD));
      dvdLastStopped := world(DVD).time;
    }

    method UnmountTwo(p: nat, q: nat, world: World)
      requires Consistent() && p < PARTITION_COUNT && q < PARTITION_COUNT
      modifies `dvdLastStopped, `log
      ensures Consistent() && Did(UnmountTwoStep(old(Now()), p, q, world))
    {
      ghost var a := UnmountStep(Now(), p, world(p));
      AppendMore(log, a.evs, UnmountStep(a.s, q, world(q)).evs);
      var done := Unmount(p, world(p));
      done := Unmount(q, world(q));
    }

    /** was_inserted_or_removed(): does p's insertion flag now disagree with what was there? The flag of a device
        that cannot be watched stays as it is, and never disagrees. */
    method WasInsertedOrRemoved(p: nat, w: Outside) returns (changed: bool)
      requires Consistent() && p < PARTITION_COUNT && armed != Some(p)
      modifies `inserted, `polls, `log
      ensures Consistent() && log == old(log) + [Polled(p)] && polls == old(polls) + [p]
      ensures Now() == LookStep(old(Now()), p, w) && changed == Changed(old(Now()), p, w)
    {
      Look(p);
      if (!HasDisc(p) || geckoFail[p]) && !IsDvd(p) {
        return false;
      }
      var already := inserted[p] || w.mountedBefore;
      Sense(p, w);
      changed := already != inserted[p];
    }

    /** The insertion flag of a watched device is brought up to date. */
    method Sense(p: nat, w: Outside)
      requires |inserted| == |geckoFail| == PARTITION_COUNT && p < PARTITION_COUNT
      modifies `inserted
      ensures inserted == old(inserted)[p := Present(old(Now()), p, w)]
    {
      SamePut(inserted, p);
      if IsDvd(p) {
        if p == DVD {
          if !mountWait && w.cover.Some? {
            inserted := inserted[p := w.cover.value];
          }
        } else {
          inserted := inserted[p := inserted[DVD]];
        }
      } else {
        inserted := inserted[p := w.card];
      }
    }

    /** The drive is told to get a disc ready; check_dvd_mount will notice when it is. */
    method BeginDvdMount()
      requires Consistent()
      modifies `mountWait, `log
      ensures Consistent() && mountWait && log == old(log) + [Wait(true), DriveMount]
    {
      SetMountWait(true);
      Enter(DriveMount);
    }

    /** The poller mounts a newly inserted device; an SD Gecko that will not mount is given up on. */
    method AutoMount(p: nat, w: Outside)
      requires Consistent() && p < PARTITION_COUNT && !geckoFail[p]
      modifies `mountWait, `dvdLastStopped, `geckoFail, `log
      ensures Consistent() && Did(AutoMountStep(old(Now()), p, w))
      ensures geckoFail == old(geckoFail)[p := !Succeeds(old(Now()), p, w) && IsGecko(p)]
    {
      Enter(AutoAttempt(p));
      Around(old(log), AutoAttempt(p), MountStep(Now(), p, w).evs, GeckoFail(p));
      var ok := Mount(p, w);
      if !ok && IsGecko(p) {
        SetGeckoFail(p, true);
      }
    }

    /** The poller's answer to an insertion or removal of `p`. */
    method React(p: nat, w: Outside)
      requires Consistent() && p < PARTITION_COUNT && (!IsDvd(p) ==> !geckoFail[p])
      modifies `mountWait, `dvdLastStopped, `geckoFail, `log
      ensures Consistent() && Did(ReactStep(old(Now()), p, w)) && geckoFail == old(geckoFail)[p := geckoFail[p]]
      ensures inserted[p] && p == DVD ==> log == old(log) + [Wait(true), DriveMount]
      ensures inserted[p] && (p == WOD || p == FST || (!IsDvd(p) && w.mounted)) ==> log == old(log)
      ensures inserted[p] && !IsDvd(p) && !w.mounted ==> old(log) + [AutoAttempt(p), Attempt(p)] <= log
      ensures !inserted[p] && w.mounted && w.mountedAtCall && !(IsDvd(p) && mountWait) ==> log == old(log) + Unmounting(p)
      ensures !inserted[p] && (!w.mounted || !w.mountedAtCall || (IsDvd(p) && mountWait)) ==> log == old(log)
    {
      if inserted[p] && (p == DVD || (!IsDvd(p) && !w.mounted)) {
        if p == DVD {
          BeginDvdMount();
        } else {
          AutoMount(p, w);
        }
      } else if !inserted[p] && w.mounted {
        var done := Unmount(p, w);
      }
    }

    /** The poller's turn on one partition. */
    method Poll(p: nat, w: Outside)
      requires Consistent() && p < PARTITION_COUNT && armed != Some(p)
      modifies `inserted, `mountWait, `dvdLastStopped, `geckoFail, `polls, `log
      ensures Consistent() && polls == old(polls) + [p] && Did(PollStep(old(Now()), p, w))
      ensures old(geckoFail)[p] && !IsDvd(p) ==> geckoFail[p] && log == old(log) + [Polled(p)]
    {
      var changed := WasInsertedOrRemoved(p, w);
      AppendMore(old(log), [Polled(p)], ReactStep(Now(), p, w).evs);
      if changed {
        React(p, w);
      }
    }

    static lemma PollOneMore(s: State, n: nat, world: World, log: seq<Event>)
      requires Sized(s) && n < PARTITION_COUNT
      ensures var o := PollFirst(s, n, world); var last := TurnStep(o.s, n, world(n));
        PollFirst(s, n + 1, world).s == last.s && log + PollFirst(s, n + 1, world).evs == log + o.evs + last.evs
    {
      var o := PollFirst(s, n, world);
      AppendMore(log, o.evs, TurnStep(o.s, n, world(n)).evs);
    }

    method TakeTurn(p: nat, w: Outside)
      requires Valid() && p < PARTITION_COUNT
      modifies `inserted, `mountWait, `dvdLastStopped, `geckoFail, `polls, `log
      ensures Valid() && Did(TurnStep(old(Now()), p, w)) && polls == old(polls) + if armed == Some(p) then [] else [p]
    {
      if mountTimer != 0 && mountPartition == Some(p) {
        return;
      }
      Poll(p, w);
    }

    /** check_removable_devices(): when it is time, every partition has its turn once, in table order, except the
        one whose change the menu is waiting for. */
    method CheckRemovableDevices(now: nat, later: nat, world: World)
      requires Valid()
      modifies `inserted, `mountWait, `dvdLastStopped, `geckoFail, `deviceCheckTimer, `polls, `log
      ensures Valid() && Did(CheckStep(old(Now()), now, later, world))
      ensures polls == old(polls) + if now <= old(deviceCheckTimer) then [] else Others(PARTITION_COUNT, armed)
    {
      if now <= deviceCheckTimer {
        return;
      }
      PollAll(world);
      deviceCheckTimer := later + 2 * TICKS_PER_SECOND;
    }

    method PollAll(world: World)
      requires Valid()
      modifies `inserted, `mountWait, `dvdLastStopped, `geckoFail, `polls, `log
      ensures Valid() && polls == old(polls) + Others(PARTITION_COUNT, armed)
      ensures Did(PollFirst(old(Now()), |old(inserted)|, world))
    {
      for i := 0 to |inserted|
        invariant Valid() && polls == old(polls) + Others(i, armed) && Did(PollFirst(old(Now()), i, world))
      {
        PollOneMore(old(Now()), i, world, old(log));
        TakeTurn(i, world(i));
      }
    }

    /** process_remount_event(): B shows the menu, or, when the menu waits for a device, ends the wait and mounts it. */
    method ProcessRemountEvent(world: World)
      requires Valid()
      modifies `mountState, `mountPartition, `mountTimer, `mountWait, `dvdLastStopped, `geckoFail, `armed, `log
      ensures Valid() && Did(RemountStep(old(Now()), world)) && mountTimer == 0 && mountPartition == None
      ensures mountState == if old(mountState) == WaitForDevice then Start else SelectDevice
    {
      if mountState == Start || mountState == SelectDevice {
        mountState := SelectDevice;
        mountPartition := None;
        Enter(MenuShown);
      } else {
        EndWait(mountPartition.value, world);
      }
    }

    /** The menu's wait is over: the device is mounted. */
    method EndWait(p: nat, world: World)
      requires Valid() && mountState == WaitForDevice && mountPartition == Some(p)
      modifies `mountState, `mountPartition, `mountTimer, `mountWait, `dvdLastStopped, `geckoFail, `armed, `log
      ensures Valid() && Did(RemountStep(old(Now()), world)) && mountTimer == 0 && mountPartition == None && mountState == Start
    {
      mountTimer := 0;
      mountState := Start;
      Resume();
      AppendMore(old(log), [Resumed], ChosenStep(Now(), p, world(p)).evs);
      MountChosen(p, world(p));
      mountPartition := None;
    }

    method MountChosen(p: nat, w: Outside)
      requires Consistent() && p < PARTITION_COUNT
      modifies `mountWait, `dvdLastStopped, `geckoFail, `log
      ensures Consistent() && Did(ChosenStep(old(Now()), p, w))
    {
      if IsDvd(p) {
        BeginDvdMount();
      } else {
        var ok := Mount(p, w);
      }
    }

    /** Unmount the device chosen in the menu and start waiting for it to be changed. */
    method AwaitChange(p: nat, now: nat, world: World)
      requires Consistent() && Selectable(p) && armed == None && (IsDvd(p) ==> !mountWait)
      modifies `mountTimer, `dvdLastStopped, `armed, `log
      ensures Consistent() && Did(AwaitStep(old(Now()), p, now, world)) && armed == Some(p)
      ensures log != [] && log[|log| - 1] == Armed(p)
    {
      if IsDvd(p) {
        DvdUnmount(world);
      } else if IsFat(p) {
        var done := Unmount(p, world(p));
      }
      mountTimer := now + 30 * TICKS_PER_SECOND;
      Arm(p);
    }

    /** process_device_select_event(): in the menu a button chooses a device, which is unmounted and waited for.
        The DVD is refused while the drive is getting ready: the menu closes then, and its choice lingers unused. */
    method ProcessDeviceSelectEvent(pressed: Buttons, now: nat, world: World)
      requires Valid()
      modifies `mountState, `mountPartition, `mountTimer, `dvdLastStopped, `armed, `log
      ensures Valid() && Did(SelectStep(old(Now()), pressed, now, world))
      ensures old(mountState) != SelectDevice || Chosen(pressed) == None ==> Now() == old(Now()) && log == old(log)
      ensures old(mountState) == SelectDevice && Chosen(pressed).Some? ==>
        && mountPartition == Chosen(pressed)
        && if Chosen(pressed) == Some(DVD) && mountWait then mountState == Start && log == old(log)
           else
             && mountState == WaitForDevice && mountTimer == now + 30 * TICKS_PER_SECOND
             && log != [] && log[|log| - 1] == Armed(Chosen(pressed).value)
    {
      if mountState == SelectDevice {
        if pressed.left {
          mountPartition := Some(SD);
        } else if pressed.right {
          mountPartition := Some(USB);
        } else if pressed.up {
          mountPartition := Some(GCSDA);
        } else if pressed.down {
          mountPartition := Some(GCSDB);
        } else if pressed.one {
          mountPartition := Some(DVD);
        }
        if mountPartition.Some? {
          mountState := WaitForDevice;
          if IsDvd(mountPartition.value) && mountWait {
            mountState := Start;
            return;
          }
          AwaitChange(mountPartition.value, now, world);
        }
      }
    }

    /** check_mount_timer(): an expired wait always mounts the chosen device and never opens the menu. */
    method CheckMountTimer(now: nat, world: World)
      requires Valid()
      modifies `mountState, `mountPartition, `mountTimer, `mountWait, `dvdLastStopped, `geckoFail, `armed, `log
      ensures Valid() && Did(MenuTimerStep(old(Now()), now, world))
      ensures if old(mountTimer) != 0 && now > old(mountTimer)
              then old(mountPartition).Some? && Selectable(old(mountPartition).value) && mountState == Start && mountTimer == 0
              else log == old(log) && Now() == old(Now())
    {
      if mountTimer != 0 && now > mountTimer {
        ProcessRemountEvent(world);
      }
    }

    /** check_dvd_motor_timeout(): a drive that was used, then idle for long, is unmounted and stopped, unless it is
        getting ready. */
    method CheckDvdMotorTimeout(now: nat, access: nat, world: World)
      requires Valid()
      modifies `dvdLastStopped, `log
      ensures Valid() && Did(MotorStep(old(Now()), now, access, world))
      ensures if access > old(dvdLastStopped) && now > access + 300 * TICKS_PER_SECOND && !mountWait
              then dvdLastStopped == world(DVD).time
              else log == old(log) && Now() == old(Now())
    {
      if access > dvdLastStopped && now > access + 300 * TICKS_PER_SECOND && !mountWait {
        DvdUnmount(world);
      }
    }

    /** check_dvd_mount(): once the drive is ready, lower the flag and try the three disc file systems in turn. */
    method CheckDvdMount(world: World)
      requires Valid()
      modifies `mountWait, `dvdLastStopped, `log
      ensures Valid() && Did(DvdMountStep(old(Now()), world))
      ensures if old(mountWait) && world(DVD).ready
              then log == old(log) + [Wait(false), FsCall(WOD, true), FsCall(FST, true), FsCall(DVD, true)] && !mountWait
              else log == old(log) && Now() == old(Now())
    {
      if mountWait && world(DVD).ready {
        SetMountWait(false);
        var wod := CallFs(WOD, true, world(WOD).mounts);
        var fst := CallFs(FST, true, world(FST).mounts);
        var iso := CallFs(DVD, true, world(DVD).mounts);
        if !(wod || fst || iso) {
          dvdLastStopped := world(DVD).time;
        }
      }
    }

    /** process_timer_events() */
    method ProcessTimerEvents(now: nat, access: nat, later: nat, motor: World, menu: World, poll: World)
      requires Valid()
      modifies this
      ensures Valid() && Did(InputStep(old(Now()), Timers(now, access, later, motor, menu, poll)))
    {
      ghost var before, log0 := Now(), log;
      CheckDvdMotorTimeout(now, access, motor);
      ghost var a := MotorStep(before, now, access, motor);
      CheckMountTimer(now, menu);
      ghost var b := MenuTimerStep(a.s, now, menu);
      assert log == log0 + a.evs + b.evs;
      CheckRemovableDevices(now, later, poll);
      ghost var c := CheckStep(b.s, now, later, poll);
      ThreeParts(log0, a.evs, b.evs, c.evs);
    }

    /** SITE MOUNT, UNMOUNT and EJECT. */
    method SiteCommand(input: Input)
      requires Valid() && (input.SiteMount? || input.SiteUnmount? || input.SiteEject?)
      modifies `mountWait, `dvdLastStopped, `geckoFail, `log
      ensures Valid() && Did(InputStep(old(Now()), input))
    {
      if input.SiteEject? {
        DvdUnmount(input.world);
      } else {
        var p := ToVirtualPartition(input.dir);
        if p.None? {
          return;
        }
        if input.SiteMount? {
          var ok := Mount(p.value, input.world(p.value));
        } else {
          var ok := Unmount(p.value, input.world(p.value));
        }
      }
    }

    /** One round of the main loop's dealings with devices. */
    method Step(input: Input)
      requires Valid()
      modifies this
      ensures Valid() && Did(InputStep(old(Now()), input))
    {
      match input {
        case Remount(world) =>
          ProcessRemountEvent(world);
        case Select(pressed, now, world) =>
          ProcessDeviceSelectEvent(pressed, now, world);
        case Timers(now, access, later, motor, menu, poll) =>
          ProcessTimerEvents(now, access, later, motor, menu, poll);
        case DvdPoll(world) =>
          CheckDvdMount(world);
        case _ =>
          SiteCommand(input);
      }
    }

    static lemma RunOneMore(s: State, inputs: seq<Input>, i: nat, log: seq<Event>)
      requires Sized(s) && i < |inputs|
      ensures var init := RunSteps(s, inputs[..i]); var last := InputStep(init.s, inputs[i]);
        && RunSteps(s, inputs[..i + 1]).s == last.s
        && log + RunSteps(s, inputs[..i + 1]).evs == log + init.evs + last.evs
    {
      assert inputs[..i + 1][..i] == inputs[..i];
      var init := RunSteps(s, inputs[..i]);
      AppendMore(log, init.evs, InputStep(init.s, inputs[i]).evs);
    }

    /** The main loop's dealings with devices, in any order and any number. */
    method Run(inputs: seq<Input>)
      requires Valid()
      modifies this
      ensures Valid() && After(log).safe && Did(RunSteps(old(Now()), inputs))
    {
      for i := 0 to |inputs|
        invariant Valid() && Did(RunSteps(old(Now()), inputs[..i]))
      {
        RunOneMore(old(Now()), inputs, i, old(log));
        Step(inputs[i]);
      }
      assert inputs[..|inputs|] == inputs;
      assert Follows(log);
    }
  }

  /** The first `n` partitions in table order, without the one to skip. */
  function Others(n: nat, skip: Option<nat>): seq<nat> {
    if n == 0 then [] else Others(n - 1, skip) + if skip == Some(n - 1) then [] else [n - 1]
  }

  /** The device that a press chooses in the menu; the first of several buttons wins. */
  function Chosen(b: Buttons): Option<nat> {
    if b.left then Some(SD) else if b.right then Some(USB) else if b.up then Some(GCSDA)
    else if b.down then Some(GCSDB) else if b.one then Some(DVD) else None
  }

  /** The first table entry from `i` on whose whole alias is `dir`, letter case aside. */
  function PartitionOf(dir: string, i: nat): (p: Option<nat>)
    requires i <= PARTITION_COUNT
    ensures p.Some? ==> i <= p.value < PARTITION_COUNT && EqualIgnoringCase(PARTITIONS[p.value].alias, dir)
    ensures p.None? ==> forall j | i <= j < PARTITION_COUNT :: !EqualIgnoringCase(PARTITIONS[j].alias, dir)
    decreases PARTITION_COUNT - i
  {
    if i == PARTITION_COUNT then None
    else if EqualIgnoringCase(PARTITIONS[i].alias, dir) then Some(i)
    else PartitionOf(dir, i + 1)
  }

  /** to_virtual_partition(): the table entry whose whole alias is `dir`, letter case aside. */
  method ToVirtualPartition(dir: string) returns (p: Option<nat>)
    ensures p == PartitionOf(dir, 0)
    ensures p.Some? ==> p.value < PARTITION_COUNT && EqualIgnoringCase(PARTITIONS[p.value].alias, dir)
    ensures p.None? ==> forall i | 0 <= i < PARTITION_COUNT :: !EqualIgnoringCase(PARTITIONS[i].alias, dir)
  {
    for i := 0 to |PARTITIONS|
      invariant PartitionOf(dir, i) == PartitionOf(dir, 0)
    {
      if EqualIgnoringCase(PARTITIONS[i].alias, dir) {
        return Some(i);
      }
    }
    p := None;
  }
}
