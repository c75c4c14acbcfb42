/** Names follow devices: what a MAC-mapped name resolves to, read off the history of a run. */
module Tracking {
  import opened Results
  import opened Bytes
  import opened HostNames
  import opened Addresses
  import opened Registry
  import opened Persistence
  import opened JsonText
  import opened Runs

  // ---------------------------------------------------------------------
  // Histories
  // ---------------------------------------------------------------------

  /** What one operation does to the registry. */
  ghost function Applied(t: IPText, r: Registry, op: Op): Registry {
    match Apply(t, Memory(r, false), op)
    case Ok(e) => e.mem.reg
    case Err(_) => r
  }

  /** What memory has behind it: operations, and restarts from the state file. */
  datatype Past = Done(op: Op) | Restarted

  ghost function Advanced(t: IPText, r: Registry, p: Past): Registry {
    match p
    case Done(op) => Applied(t, r, op)
    case Restarted => RewrittenRegistry(r)
  }

  /** The registry that `past` makes of `base`. */
  ghost function Replay(t: IPText, base: Registry, past: seq<Past>): Registry {
    if past == [] then base else Advanced(t, Replay(t, base, past[..|past| - 1]), past[|past| - 1])
  }

  /** The past of a run without what was lost: that of the state file, and that of memory. */
  datatype History = History(saved: seq<Past>, live: seq<Past>)

  /** The number of steps in which a save replaces the file; the last one is the rename. */
  const SAVE_STEPS := 3

  /** The operation is written to the state file. */
  ghost predicate Stores(t: IPText, s: Running, op: Op, fate: Fate) {
    Apply(t, s.mem, op).Ok? && Apply(t, s.mem, op).value.saves && fate.fails.None?
  }

  /** A crash loses what is not in the file, from which the next start will read. */
  function Crashed(saved: seq<Past>): History {
    History(saved, saved + [Restarted])
  }

  /** What one event does to the history. */
  ghost function Recorded(t: IPText, sys: System, e: Event, h: History): History {
    match sys
    case Down(_) => h
    case Up(s) =>
      match e
      case Call(op, fate) =>
        var live := h.live + [Done(op)];
        History(if Stores(t, s, op, fate) then live else h.saved, live)
      case CrashDuring(op, fate, at) =>
        Crashed(if Stores(t, s, op, fate) && at >= SAVE_STEPS then h.live + [Done(op)] else h.saved)
      case Crash => Crashed(h.saved)
      case _ => h
  }

  ghost function HistoryOf(t: IPText, sys: System, h: History, events: seq<Event>): History {
    if events == [] then h
    else
      var before, last := events[..|events| - 1], events[|events| - 1];
      Recorded(t, RunAll(t, sys, before), last, HistoryOf(t, sys, h, before))
  }

  /** Memory is what replaying its history gives, and the file what replaying its own gives after JSON. */
  ghost predicate Matches(t: IPText, base: Registry, sys: System, h: History) {
    && h.saved <= h.live
    && OnDisk(FilesOf(sys)) == RewrittenRegistry(Replay(t, base, h.saved))
    && match sys
       case Up(s) => s.mem.reg == Replay(t, base, h.live)
       case Down(_) => h.live == h.saved + [Restarted]
  }

  lemma {:induction false} ReplayNext(t: IPText, base: Registry, past: seq<Past>, p: Past)
    ensures Replay(t, base, past + [p]) == Advanced(t, Replay(t, base, past), p)
  {
    hide Advanced;
    assert (past + [p])[..|past|] == past;
  }

  lemma AppliedIs(t: IPText, m: Memory, op: Op)
    ensures Applied(t, m.reg, op) == if Apply(t, m, op).Ok? then Apply(t, m, op).value.mem.reg else m.reg
  {
    hide ObserveAll, AnyReadable, WithHostname, WithVendor, WithLabel, WithoutDevice, NormalizeInput, Moved,
      WithMapping;
  }

  /** The file after an operation, at any moment of its save. */
  lemma FileAt(t: IPText, s: Running, op: Op, fate: Fate, at: nat)
    requires Good(Up(s))
    ensures OnDisk(FilesAt(t, s, op, fate, at)) ==
            if Stores(t, s, op, fate) && at >= SAVE_STEPS
            then RewrittenRegistry(Apply(t, s.mem, op).value.mem.reg)
            else OnDisk(s.files)
  {
    hide Apply, Keyed, GoodFile, OnDisk, Snapshot, RewrittenRegistry;
    if Apply(t, s.mem, op).Ok? {
      var e := Apply(t, s.mem, op).value;
      ApplyKeeps(t, s.mem, op);
      var trace := SaveTrace(s.files, Snapshot(e.mem.reg), fate);
      SaveKeeps(s.files, e.mem.reg, fate, if at < |trace| then at else |trace| - 1);
    }
  }

  lemma FileAfter(t: IPText, s: Running, op: Op, fate: Fate)
    requires Good(Up(s))
    ensures OnDisk(Do(t, s, op, fate).files) ==
            if Stores(t, s, op, fate) then RewrittenRegistry(Apply(t, s.mem, op).value.mem.reg) else OnDisk(s.files)
  {
    hide Apply, Keyed, GoodFile, OnDisk, Snapshot, SaveTrace, RewrittenRegistry;
    if Apply(t, s.mem, op).Ok? {
      var e := Apply(t, s.mem, op).value;
      ApplyKeeps(t, s.mem, op);
      SaveKeeps(s.files, e.mem.reg, fate, |SaveTrace(s.files, Snapshot(e.mem.reg), fate)| - 1);
    }
  }

  lemma StepMatches(t: IPText, base: Registry, sys: System, e: Event, h: History)
    requires Good(sys) && Matches(t, base, sys, h)
    ensures Matches(t, base, Step(t, sys, e), Recorded(t, sys, e, h))
  {
    hide Apply, Applied, OnDisk, GoodMemory, FilesAt, Snapshot, Replay, Stores, RewrittenRegistry;
    ReplayNext(t, base, h.saved, Restarted);
    match sys
    case Down(files) => StartKeeps(t, files);
    case Up(s) =>
      if e.Call? || e.CrashDuring? {
        ReplayNext(t, base, h.live, Done(e.op));
        AppliedIs(t, s.mem, e.op);
        FileAfter(t, s, e.op, e.fate);
        StoresApplies(t, s, e.op, e.fate);
        if e.CrashDuring? {
          FileAt(t, s, e.op, e.fate, e.at);
        }
      }
  }

  lemma StoresApplies(t: IPText, s: Running, op: Op, fate: Fate)
    ensures Stores(t, s, op, fate) ==> Apply(t, s.mem, op).Ok?
    ensures Do(t, s, op, fate).mem.reg ==
            if Apply(t, s.mem, op).Ok? then Apply(t, s.mem, op).value.mem.reg else s.mem.reg
  {
    hide Apply;
  }

  /** Before the first event nothing has happened, and the first start reads the file. */
  const BEGINNING := Crashed([])

  /** In any run, with any failures, crashes and restarts, memory is the replay of the operations up to
      the last save before the last crash and of all those since, and the file is the replay of the
      operations up to the last save. */
  lemma {:induction false} HistoryReplays(t: IPText, sys: System, events: seq<Event>)
    requires Fresh(sys)
    ensures Matches(t, OnDisk(sys.files), RunAll(t, sys, events), HistoryOf(t, sys, BEGINNING, events))
  {
    hide Matches, Step, Recorded, OnDisk;
    if events == [] {
      NothingMatches(t, sys);
    } else {
      var before := events[..|events| - 1];
      HistoryReplays(t, sys, before);
      RunKeeps(t, sys, before);
      StepMatches(t, OnDisk(sys.files), RunAll(t, sys, before), events[|events| - 1],
                  HistoryOf(t, sys, BEGINNING, before));
    }
  }

  lemma NothingMatches(t: IPText, sys: System)
    requires Fresh(sys)
    ensures Matches(t, OnDisk(sys.files), sys, BEGINNING)
  {
    hide Opened, RewrittenRegistry;
    if StateFile in sys.files {
      OpenedStays(sys.files[StateFile].p);
    } else {
      EmptyStays();
    }
  }

  /** The operations of these events, in order. */
  function Ops(events: seq<Event>): seq<Past> {
    if events == [] then []
    else
      var last := events[|events| - 1];
      Ops(events[..|events| - 1]) + if last.Call? then [Done(last.op)] else []
  }

  /** As long as the process stays up nothing is lost, whatever becomes of the saves. */
  lemma {:induction false} NothingLost(t: IPText, sys: System, h: History, events: seq<Event>)
    requires sys.Up? && forall e :: e in events ==> e.Call? || e.Start? || e.FailedStart?
    ensures RunAll(t, sys, events).Up? && HistoryOf(t, sys, h, events).live == h.live + Ops(events)
  {
    hide Do, Stores;
    if events == [] {
      assert h.live + [] == h.live;
    } else {
      var before, last := events[..|events| - 1], events[|events| - 1];
      assert last in events && forall e :: e in before ==> e in events;
      NothingLost(t, sys, h, before);
      var live := HistoryOf(t, sys, h, before).live;
      assert last.Call? ==> live + [Done(last.op)] == h.live + (Ops(before) + [Done(last.op)]);
      assert !last.Call? ==> Ops(before) + [] == Ops(before);
    }
  }

  // ---------------------------------------------------------------------
  // What was reported
  // ---------------------------------------------------------------------

  /** The addresses one scan reported for a MAC, "" for a report without an address. */
  function Sightings(seen: seq<SeenDevice>, mac: bytes): seq<bytes> {
    if seen == [] then []
    else
      var last := seen[|seen| - 1];
      var before := Sightings(seen[..|seen| - 1], mac);
      if NormalizeMac(last.mac) == Some(mac) then before + [last.ip] else before
  }

  /** The reports about a MAC after one more operation: scans add to them, deleting it drops them. */
  function Reported(p: Past, mac: bytes, before: seq<bytes>): seq<bytes> {
    match p
    case Done(Scan(seen, _)) => before + Sightings(seen, mac)
    case Done(RemoveDevice(m)) => if NormalizeMac(m) == Some(mac) then [] else before
    case _ => before
  }

  /** Everything reported for a MAC since it was last deleted. */
  function Observations(past: seq<Past>, mac: bytes): seq<bytes> {
    if past == [] then [] else Reported(past[|past| - 1], mac, Observations(past[..|past| - 1], mac))
  }

  /** The last report that carried an address, "" if none did. */
  function LastAddress(reports: seq<bytes>): bytes {
    if reports == [] then []
    else if reports[|reports| - 1] != [] then reports[|reports| - 1]
    else LastAddress(reports[..|reports| - 1])
  }

  /** The registry knows exactly what was reported for `mac`, but for octets that are not UTF-8. */
  ghost predicate Tracks(r: Registry, mac: bytes, reports: seq<bytes>) {
    && (mac in r.devices <==> reports != [])
    && (mac in r.devices ==> Rewritten(r.devices[mac].ip) == Rewritten(LastAddress(reports)))
  }

  lemma {:induction false} LastAddressSnoc(reports: seq<bytes>, ip: bytes)
    ensures LastAddress(reports + [ip]) == if ip != [] then ip else LastAddress(reports)
  {
    assert (reports + [ip])[..|reports|] == reports;
  }

  lemma ObserveTracks(r: Registry, sd: SeenDevice, now: Time, mac: bytes, reports: seq<bytes>)
    requires Tracks(r, mac, reports)
    ensures Tracks(Observe(r, sd, now), mac, if NormalizeMac(sd.mac) == Some(mac) then reports + [sd.ip] else reports)
  {
    hide NormalizeMac, Rewritten;
    LastAddressSnoc(reports, sd.ip);
  }

  lemma {:induction false} ScanTracks(r: Registry, seen: seq<SeenDevice>, now: Time, mac: bytes, reports: seq<bytes>)
    requires Tracks(r, mac, reports)
    ensures Tracks(ObserveAll(r, seen, now), mac, reports + Sightings(seen, mac))
  {
    hide Tracks, Observe, NormalizeMac;
    if seen == [] {
      assert reports + [] == reports;
    } else {
      var before, last := seen[..|seen| - 1], seen[|seen| - 1];
      ScanTracks(r, before, now, mac, reports);
      ObserveTracks(ObserveAll(r, before, now), last, now, mac, reports + Sightings(before, mac));
      assert reports + (Sightings(before, mac) + [last.ip]) == reports + Sightings(before, mac) + [last.ip];
    }
  }

  /** What one operation does to the reports behind a device. */
  lemma OpTracks(t: IPText, r: Registry, op: Op, mac: bytes, reports: seq<bytes>)
    requires Tracks(r, mac, reports)
    ensures Tracks(Applied(t, r, op), mac, Reported(Done(op), mac, reports))
  {
    hide NormalizeMac, NormalizeInput, Rewritten;
    if op.Scan? {
      ScanTracks(r, op.seen, op.now, mac, reports);
    }
  }

  lemma RestartTracks(r: Registry, mac: bytes, reports: seq<bytes>)
    requires Tracks(r, mac, reports)
    ensures Tracks(RewrittenRegistry(r), mac, reports)
  {
    hide Rewritten;
    if mac in r.devices {
      RewrittenTwice(r.devices[mac].ip);
    }
  }

  lemma {:induction false} ReplayTracks(t: IPText, past: seq<Past>, mac: bytes)
    ensures Tracks(Replay(t, EMPTY, past), mac, Observations(past, mac))
  {
    hide Tracks, Applied, RewrittenRegistry;
    if past == [] {
      TracksEmpty(mac);
    } else {
      var before, last := past[..|past| - 1], past[|past| - 1];
      ReplayTracks(t, before, mac);
      match last
      case Done(op) => OpTracks(t, Replay(t, EMPTY, before), op, mac, Observations(before, mac));
      case Restarted => RestartTracks(Replay(t, EMPTY, before), mac, Observations(before, mac));
    }
  }

  lemma TracksEmpty(mac: bytes)
    ensures Tracks(EMPTY, mac, [])
  {
  }

  /** The operations and restarts behind memory after a run, without what was lost. */
  ghost function Surviving(t: IPText, sys: System, events: seq<Event>): seq<Past> {
    HistoryOf(t, sys, BEGINNING, events).live
  }

  lemma {:induction false} TrackedAddress(t: IPText, r: Registry, mac: bytes, reports: seq<bytes>)
    requires Lawful(t) && Tracks(r, mac, reports)
    ensures (if mac in r.devices && r.devices[mac].ip != [] then t.parse(r.devices[mac].ip) else None)
            == t.parse(LastAddress(reports))
  {
    hide Rewritten;
    if mac in r.devices {
      ParseRewritten(t, r.devices[mac].ip);
    }
    ParseRewritten(t, LastAddress(reports));
  }

  /** After any run from no state file, with any save failures, crashes and restarts, a name mapped to
      a MAC resolves to the last address reported for that MAC, since it was last deleted, in the
      operations that were not lost, and to no address if there was none; a name mapped to a static
      address resolves to that address. */
  lemma {:induction false} NamesFollowDevices(t: IPText, sys: System, events: seq<Event>, name: bytes)
    requires Lawful(t) && sys.Down? && StateOf(sys.files).None? && RunAll(t, sys, events).Up?
    ensures var r := RunAll(t, sys, events).run.mem.reg;
            name in r.mappings ==>
              var m := r.mappings[name];
              ResolveName(t, r, name) ==
              Some(if m.mac != [] then t.parse(LastAddress(Observations(Surviving(t, sys, events), m.mac)))
                   else t.parse(m.ip))
  {
    HistoryReplays(t, sys, events);
    MappingsStayAimed(t, sys, events);
    hide RunAll, Observations, HistoryOf, Replay, Tracks, Lawful;
    var r := RunAll(t, sys, events).run.mem.reg;
    if name in r.mappings {
      var m := r.mappings[name];
      ReplayTracks(t, Surviving(t, sys, events), m.mac);
      TrackedAddress(t, r, m.mac, Observations(Surviving(t, sys, events), m.mac));
      assert GoodTarget(t, m.mac, m.ip);
    }
  }
}
