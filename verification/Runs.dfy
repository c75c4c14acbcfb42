/**
 Whole runs of the store: operations with their saves, failed steps, crashes at any moment of a
 save or between operations, and restarts.
 */
module Runs {
  import opened Results
  import opened Bytes
  import opened Text
  import opened HostNames
  import opened Addresses
  import opened Registry
  import opened Persistence
  import opened JsonText

  datatype Memory = Memory(reg: Registry, dirty: bool)

  datatype Op =
    | Scan(seen: seq<SeenDevice>, now: Time)
    | DiscoverHostname(mac: bytes, hostname: bytes)
    | AssignVendor(mac: bytes, vendor: bytes)
    | AssignLabel(mac: bytes, text: bytes)
    | RemoveDevice(mac: bytes)
    | SetMapping(hostname: bytes, mac: bytes, ip: bytes, note: bytes, now: Time)
    | UpdateMapping(previous: bytes, hostname: bytes, mac: bytes, ip: bytes, note: bytes, now: Time)
    | DeleteMapping(hostname: bytes)
    | Save
    | SaveIfDirty

  /** What an operation leaves in memory, and whether it then saves. */
  datatype Effect = Effect(mem: Memory, saves: bool)

  /** The part of an operation that happens before any save. */
  function Apply(t: IPText, m: Memory, op: Op): Result<Effect, StoreError> {
    match op
    case Scan(seen, now) =>
      Ok(Effect(Memory(ObserveAll(m.reg, seen, now), m.dirty || AnyReadable(seen)), false))
    case DiscoverHostname(mac, hostname) =>
      var (r, changed) := WithHostname(m.reg, mac, hostname);
      Ok(Effect(Memory(r, m.dirty || changed), false))
    case AssignVendor(mac, vendor) =>
      var (r, changed) := WithVendor(m.reg, mac, vendor);
      Ok(Effect(Memory(r, m.dirty || changed), false))
    case AssignLabel(mac, text) =>
      var r :- WithLabel(m.reg, mac, text);
      Ok(Effect(Memory(r, true), true))
    case RemoveDevice(mac) =>
      var r :- WithoutDevice(m.reg, mac);
      Ok(Effect(Memory(r, true), true))
    case SetMapping(hostname, mac, ip, note, now) =>
      var target :- NormalizeInput(t, hostname, mac, ip, note);
      Ok(Effect(Memory(WithMapping(m.reg, target, now), true), true))
    case UpdateMapping(previous, hostname, mac, ip, note, now) =>
      var target :- NormalizeInput(t, hostname, mac, ip, note);
      var r :- Moved(m.reg, Normalize(previous), target, now);
      Ok(Effect(Memory(r, true), true))
    case DeleteMapping(hostname) =>
      if Normalize(hostname) in m.reg.mappings
      then Ok(Effect(Memory(WithoutMapping(m.reg, hostname), true), true))
      else Ok(Effect(m, false))
    case Save => Ok(Effect(m, true))
    case SaveIfDirty => Ok(Effect(m, m.dirty))
  }

  /** What an accepted `SetMapping` and `UpdateMapping` do before they save. */
  lemma ApplySetMapping(t: IPText, m: Memory, hostname: bytes, mac: bytes, ip: bytes, note: bytes, now: Time)
    ensures Apply(t, m, SetMapping(hostname, mac, ip, note, now)) ==
            match NormalizeInput(t, hostname, mac, ip, note)
            case Ok(target) => Ok(Effect(Memory(WithMapping(m.reg, target, now), true), true))
            case Err(e) => Err(e)
  {
  }

  lemma ApplyUpdateMapping(t: IPText, m: Memory, previous: bytes, hostname: bytes, mac: bytes, ip: bytes, note: bytes, now: Time)
    ensures Apply(t, m, UpdateMapping(previous, hostname, mac, ip, note, now)) ==
            match NormalizeInput(t, hostname, mac, ip, note)
            case Err(e) => Err(e)
            case Ok(target) =>
              match Moved(m.reg, Normalize(previous), target, now)
              case Ok(r) => Ok(Effect(Memory(r, true), true))
              case Err(e) => Err(e)
  {
  }

  /** The process with its memory, and the directory of the state file. */
  datatype Running = Running(mem: Memory, files: Files)

  /** The parts of a running process put together. */
  function At(r: Registry, dirty: bool, files: Files): Running {
    Running(Memory(r, dirty), files)
  }

  /** The outcome of a save attempt that returns: `dirty` is cleared only on success. */
  ghost function Saved(mem: Memory, files: Files, fate: Fate): Running {
    Running(Memory(mem.reg, mem.dirty && fate.fails.Some?), AfterSave(files, Snapshot(mem.reg), fate))
  }

  /** One whole operation. */
  ghost function Do(t: IPText, s: Running, op: Op, fate: Fate): Running {
    match Apply(t, s.mem, op)
    case Err(_) => s
    case Ok(e) => if e.saves then Saved(e.mem, s.files, fate) else Running(e.mem, s.files)
  }

  /** What the two operations on a device's texts that never fail or save do. */
  lemma DoText(t: IPText, s: Running, mac: bytes, text: bytes, fate: Fate)
    ensures Do(t, s, DiscoverHostname(mac, text), fate) ==
            At(WithHostname(s.mem.reg, mac, text).0, s.mem.dirty || WithHostname(s.mem.reg, mac, text).1, s.files)
    ensures Do(t, s, AssignVendor(mac, text), fate) ==
            At(WithVendor(s.mem.reg, mac, text).0, s.mem.dirty || WithVendor(s.mem.reg, mac, text).1, s.files)
  {
  }

  /** The operation returns no error. */
  predicate Succeeds(t: IPText, s: Running, op: Op, fate: Fate) {
    Apply(t, s.mem, op).Ok? && (Apply(t, s.mem, op).value.saves ==> fate.fails.None?)
  }

  /** What an accepted `SetMapping` or `UpdateMapping` returns: a copy of the mapping, and the step at
      which saving failed, if it did. */
  datatype Accepted = Accepted(mapping: MappingRecord, save: Option<Stage>)

  datatype System = Up(run: Running) | Down(files: Files)

  datatype Event =
    | Call(op: Op, fate: Fate)               // the operation returns
    | CrashDuring(op: Op, fate: Fate, at: nat) // the process dies at this moment of the save
    | Crash                                  // the process dies between operations
    | Start                                  // `Open`
    | FailedStart                            // `Open` could not read the file

  /** The directory when the process dies at moment `at` of an operation. */
  ghost function FilesAt(t: IPText, s: Running, op: Op, fate: Fate, at: nat): Files {
    match Apply(t, s.mem, op)
    case Err(_) => s.files
    case Ok(e) =>
      if !e.saves then s.files
      else
        var trace := SaveTrace(s.files, Snapshot(e.mem.reg), fate);
        if at < |trace| then trace[at] else trace[|trace| - 1]
  }

  ghost function Step(t: IPText, sys: System, e: Event): System {
    match sys
    case Up(s) => (
      match e
      case Call(op, fate) => Up(Do(t, s, op, fate))
      case CrashDuring(op, fate, at) => Down(FilesAt(t, s, op, fate, at))
      case Crash => Down(s.files)
      case _ => sys)
    case Down(files) => (
      if !e.Start? then sys
      else
        match StateOf(files)
        case None => Up(Running(Memory(EMPTY, false), files))
        case Some(Complete(p)) => Up(Running(Memory(Opened(p), false), files))
        case Some(Torn) => sys)
  }

  ghost function RunAll(t: IPText, sys: System, events: seq<Event>): System {
    if events == [] then sys else Step(t, RunAll(t, sys, events[..|events| - 1]), events[|events| - 1])
  }

  // ---------------------------------------------------------------------
  // Invariant of every run
  // ---------------------------------------------------------------------

  function FilesOf(sys: System): Files {
    match sys
    case Up(s) => s.files
    case Down(files) => files
  }

  /** What `Open` would load now. */
  function OnDisk(files: Files): Registry {
    match StateOf(files)
    case Some(Complete(p)) => Opened(p)
    case _ => EMPTY
  }

  /** The state file is absent or a whole document. */
  predicate GoodFile(files: Files) {
    StateOf(files) != Some(Torn)
  }

  /** Memory is well keyed, and when it is clean a restart would load it, as JSON rewrites it. */
  ghost predicate GoodMemory(s: Running) {
    Keyed(s.mem.reg) && (!s.mem.dirty ==> OnDisk(s.files) == RewrittenRegistry(s.mem.reg))
  }

  ghost predicate Good(sys: System) {
    GoodFile(FilesOf(sys)) && (sys.Up? ==> GoodMemory(sys.run))
  }

  /** Every mapping in the file and in memory has exactly one target. */
  ghost predicate AllAimed(t: IPText, sys: System) {
    Aimed(t, OnDisk(FilesOf(sys))) && (sys.Up? ==> Aimed(t, sys.run.mem.reg))
  }

  lemma {:induction false} UnreadableScan(r: Registry, seen: seq<SeenDevice>, now: Time)
    requires !AnyReadable(seen)
    ensures ObserveAll(r, seen, now) == r
  {
    if seen == [] {
    } else {
      var before, last := seen[..|seen| - 1], seen[|seen| - 1];
      assert last in seen && forall sd :: sd in before ==> sd in seen;
      UnreadableScan(r, before, now);
    }
  }

  lemma DeviceChangesKeep(r: Registry, mac: bytes, text: bytes)
    requires Keyed(r)
    ensures Keyed(WithHostname(r, mac, text).0) && Keyed(WithVendor(r, mac, text).0)
    ensures WithLabel(r, mac, text).Ok? ==> Keyed(WithLabel(r, mac, text).value)
    ensures WithoutDevice(r, mac).Ok? ==> Keyed(WithoutDevice(r, mac).value)
    ensures Keyed(WithoutMapping(r, text))
  {
    hide ValidMac, GoodMapping;
  }

  lemma DeviceChangesAim(t: IPText, r: Registry, mac: bytes, text: bytes)
    ensures WithHostname(r, mac, text).0.mappings == r.mappings == WithVendor(r, mac, text).0.mappings
    ensures WithLabel(r, mac, text).Ok? ==> WithLabel(r, mac, text).value.mappings == r.mappings
    ensures WithoutDevice(r, mac).Ok? ==> WithoutDevice(r, mac).value.mappings == r.mappings
    ensures Aimed(t, r) ==> Aimed(t, WithoutMapping(r, text))
  {
    hide NormalizeMac;
  }

  /** Every operation keeps the registry keyed, and its mappings aimed. */
  lemma ApplyKeeps(t: IPText, m: Memory, op: Op)
    requires Keyed(m.reg) && Apply(t, m, op).Ok?
    ensures Keyed(Apply(t, m, op).value.mem.reg)
    ensures Lawful(t) && Aimed(t, m.reg) ==> Aimed(t, Apply(t, m, op).value.mem.reg)
  {
    hide Keyed, ValidName, GoodTarget, NormalizeInput, WithMapping, Moved, ObserveAll, AnyReadable, Lawful,
      WithHostname, WithVendor, WithLabel, WithoutDevice, WithoutMapping, ValidMac;
    match op
    case Scan(seen, now) => ObserveAllKeeps(m.reg, seen, now);
    case DiscoverHostname(mac, hostname) =>
      DeviceChangesKeep(m.reg, mac, hostname);
      DeviceChangesAim(t, m.reg, mac, hostname);
    case AssignVendor(mac, vendor) =>
      DeviceChangesKeep(m.reg, mac, vendor);
      DeviceChangesAim(t, m.reg, mac, vendor);
    case AssignLabel(mac, text) =>
      DeviceChangesKeep(m.reg, mac, text);
      DeviceChangesAim(t, m.reg, mac, text);
    case RemoveDevice(mac) =>
      DeviceChangesKeep(m.reg, mac, []);
      DeviceChangesAim(t, m.reg, mac, []);
    case SetMapping(hostname, mac, ip, note, now) =>
      NormalizedInput(t, hostname, mac, ip, note);
      MappingChangesKeep(t, m.reg, [], NormalizeInput(t, hostname, mac, ip, note).value, now);
    case UpdateMapping(previous, hostname, mac, ip, note, now) =>
      NormalizedInput(t, hostname, mac, ip, note);
      MappingChangesKeep(t, m.reg, Normalize(previous), NormalizeInput(t, hostname, mac, ip, note).value, now);
    case DeleteMapping(hostname) =>
      DeviceChangesKeep(m.reg, [], hostname);
      DeviceChangesAim(t, m.reg, [], hostname);
    case Save =>
    case SaveIfDirty =>
  }

  /** Whatever changes memory marks it dirty. */
  lemma CleanUnchanged(t: IPText, m: Memory, op: Op)
    requires Apply(t, m, op).Ok? && !Apply(t, m, op).value.mem.dirty
    ensures Apply(t, m, op).value.mem == m
  {
    if op.Scan? {
      UnreadableScan(m.reg, op.seen, op.now);
    }
  }

  lemma SaveKeeps(files: Files, r: Registry, fate: Fate, i: nat)
    requires GoodFile(files) && Keyed(r) && i < |SaveTrace(files, Snapshot(r), fate)|
    ensures var now := SaveTrace(files, Snapshot(r), fate)[i];
            && GoodFile(now)
            && OnDisk(now) == if fate.fails.None? && i == |SaveTrace(files, Snapshot(r), fate)| - 1
                              then RewrittenRegistry(r) else OnDisk(files)
  {
    hide Keyed, Snapshot, Opened, SaveTrace, RewrittenRegistry;
    SaveIsAtomic(files, Snapshot(r), fate, i);
    ReopenedIff(r);
  }

  lemma SavedAims(t: IPText, r: Registry)
    ensures Lawful(t) && Aimed(t, r) ==> Aimed(t, RewrittenRegistry(r))
  {
    if Lawful(t) && Aimed(t, r) {
      RewrittenAimed(t, r);
    }
  }

  lemma DoKeeps(t: IPText, s: Running, op: Op, fate: Fate)
    requires Good(Up(s))
    ensures Good(Up(Do(t, s, op, fate)))
    ensures Lawful(t) && AllAimed(t, Up(s)) ==> AllAimed(t, Up(Do(t, s, op, fate)))
  {
    hide Apply, Keyed, Aimed, Lawful, GoodFile, OnDisk, Snapshot, SaveTrace, RewrittenRegistry;
    if Apply(t, s.mem, op).Ok? {
      var e := Apply(t, s.mem, op).value;
      ApplyKeeps(t, s.mem, op);
      SavedAims(t, e.mem.reg);
      if !e.mem.dirty {
        CleanUnchanged(t, s.mem, op);
      }
      if e.saves {
        var trace := SaveTrace(s.files, Snapshot(e.mem.reg), fate);
        SaveKeeps(s.files, e.mem.reg, fate, |trace| - 1);
      }
    }
  }

  lemma StepKeeps(t: IPText, sys: System, e: Event)
    requires Good(sys)
    ensures Good(Step(t, sys, e))
    ensures Lawful(t) && AllAimed(t, sys) ==> AllAimed(t, Step(t, sys, e))
  {
    match sys
    case Up(s) =>
      hide GoodFile, GoodMemory, Apply, Do, Keyed, Aimed, Lawful, OnDisk, Snapshot, SaveTrace;
      if e.Call? {
        DoKeeps(t, s, e.op, e.fate);
      } else if e.CrashDuring? {
        CrashKeeps(t, s, e.op, e.fate, e.at);
      }
    case Down(files) =>
      hide Keyed, Aimed, Lawful, OnDisk;
      StartKeeps(t, files);
  }

  lemma CrashKeeps(t: IPText, s: Running, op: Op, fate: Fate, at: nat)
    requires Good(Up(s))
    ensures GoodFile(FilesAt(t, s, op, fate, at))
    ensures Lawful(t) && AllAimed(t, Up(s)) ==> Aimed(t, OnDisk(FilesAt(t, s, op, fate, at)))
  {
    hide Apply, Keyed, Aimed, Lawful, GoodFile, OnDisk, Snapshot, SaveTrace, RewrittenRegistry;
    if Apply(t, s.mem, op).Ok? {
      var e := Apply(t, s.mem, op).value;
      ApplyKeeps(t, s.mem, op);
      SavedAims(t, e.mem.reg);
      var trace := SaveTrace(s.files, Snapshot(e.mem.reg), fate);
      SaveKeeps(s.files, e.mem.reg, fate, if at < |trace| then at else |trace| - 1);
    }
  }

  lemma EmptyKeyed()
    ensures Keyed(EMPTY)
  {
  }

  /** Starting on a directory whose state file is not torn succeeds; memory is then what the file holds. */
  lemma StartKeeps(t: IPText, files: Files)
    requires GoodFile(files)
    ensures var sys := Step(t, Down(files), Start);
            sys == Up(At(OnDisk(files), false, files)) && GoodMemory(sys.run)
  {
    hide Load, Reread, Keyed, RewrittenRegistry;
    if StateFile in files {
      LoadKeyed(Reread(files[StateFile].p));
      hide Opened;
      OpenedStays(files[StateFile].p);
    } else {
      EmptyStays();
      EmptyKeyed();
    }
  }

  /** The process is not running yet, and the state file is absent or any document, even one written
      by hand. */
  ghost predicate Fresh(sys: System) {
    sys.Down? && GoodFile(sys.files)
  }

  lemma {:induction false} RunKeeps(t: IPText, sys: System, events: seq<Event>)
    requires Good(sys)
    ensures Good(RunAll(t, sys, events))
    ensures Lawful(t) && AllAimed(t, sys) ==> AllAimed(t, RunAll(t, sys, events))
  {
    hide Good, AllAimed, Lawful, Step;
    if events == [] {
    } else {
      RunKeeps(t, sys, events[..|events| - 1]);
      StepKeeps(t, RunAll(t, sys, events[..|events| - 1]), events[|events| - 1]);
    }
  }

  /** Clean means saved, in every run with any failures, crashes and restarts, from any directory
      whose state file is not torn: it never becomes torn, so a start always succeeds; every record
      stands under its own normalised key; and when the store is not dirty a restart would load
      exactly the same devices and mappings but for octets that are not UTF-8, which JSON replaces: so
      the same memory if and only if all its texts are UTF-8. */
  lemma {:induction false} CleanMeansSaved(t: IPText, sys: System, events: seq<Event>)
    requires Fresh(sys)
    ensures var end := RunAll(t, sys, events);
            && GoodFile(FilesOf(end))
            && Step(t, Down(FilesOf(end)), Start).Up?
            && (end.Up? ==> Keyed(end.run.mem.reg))
            && (end.Up? && !end.run.mem.dirty ==>
                  var again := Step(t, Down(end.run.files), Start).run.mem;
                  && again == Memory(RewrittenRegistry(end.run.mem.reg), false)
                  && (again == end.run.mem <==> AllUtf8(end.run.mem.reg)))
  {
    RunKeeps(t, sys, events);
    var end := RunAll(t, sys, events);
    StartKeeps(t, FilesOf(end));
    if end.Up? {
      RewrittenRegistryIff(end.run.mem.reg);
    }
    hide RunAll, Keyed, RewrittenRegistry, AllUtf8, OnDisk, Step;
  }

  /** A probe that answers with the single octet 0xFF gives the device that host name. */
  lemma ForeignNameAccepted(r: Registry, mac: bytes)
    requires mac in r.devices
    ensures var named := WithHostname(r, mac, [0xFF]).0;
            mac in named.devices && named.devices[mac].hostname == [0xFF]
  {
    OddOctet();
    hide TrimSpace;
  }

  /** Such a device is saved, the store is clean, and the next start gives the device another name. */
  lemma ForeignNameChanges(t: IPText, s: Running, mac: bytes, fate: Fate)
    requires Good(Up(s)) && mac in s.mem.reg.devices && s.mem.reg.devices[mac].hostname == [0xFF]
    requires fate.fails.None?
    ensures var after := Do(t, s, Op.Save, fate);
            && !after.mem.dirty && after.mem.reg == s.mem.reg
            && Step(t, Down(after.files), Start) == Up(At(OnDisk(after.files), false, after.files))
            && mac in OnDisk(after.files).devices && OnDisk(after.files).devices[mac].hostname == REPLACEMENT
  {
    hide Rewritten, TrimSpace, Snapshot, AfterSave, GoodFile, OnDisk, Keyed;
    OddOctet();
    DoKeeps(t, s, Op.Save, fate);
    StartKeeps(t, Do(t, s, Op.Save, fate).files);
  }

  lemma OddOctet()
    ensures TrimSpace([0xFF]) == [0xFF] && Rewritten([0xFF]) == REPLACEMENT
  {
    assert Rewritten([0xFF]) == REPLACEMENT + Rewritten([]);
  }

  /** In every run that starts without a state file, or with one whose mappings have exactly one
      target each, every mapping always has exactly one usable target. */
  lemma {:induction false} MappingsStayAimed(t: IPText, sys: System, events: seq<Event>)
    requires Lawful(t) && Fresh(sys) && (StateOf(sys.files).None? || Aimed(t, OnDisk(sys.files)))
    ensures AllAimed(t, RunAll(t, sys, events))
  {
    RunKeeps(t, sys, events);
  }

  // ---------------------------------------------------------------------
  // Durability
  // ---------------------------------------------------------------------

  /** The mapping of `name` is `m`, or `m` as JSON rewrites it, which is the same when its texts are UTF-8. */
  ghost predicate Has(r: Registry, name: bytes, m: MappingRecord) {
    name in r.mappings && (r.mappings[name] == m || r.mappings[name] == RewrittenMapping(m))
  }

  lemma RewrittenHas(r: Registry, name: bytes, m: MappingRecord)
    ensures Has(r, name, m) ==> Has(RewrittenRegistry(r), name, m)
  {
    hide Rewritten;
    if name in r.mappings {
      RewrittenMappingUtf8(m);
    }
  }

  /** `m` is what the state file holds for `name`, and memory too while the process is up. */
  ghost predicate Durable(sys: System, name: bytes, m: MappingRecord) {
    Has(OnDisk(FilesOf(sys)), name, m) && (sys.Up? ==> Has(sys.run.mem.reg, name, m))
  }

  /** The operation, if it is accepted, leaves `m` in memory as the mapping of `name`. */
  ghost predicate OpLeaves(t: IPText, mem: Memory, op: Op, name: bytes, m: MappingRecord) {
    Apply(t, mem, op).Ok? ==> Has(Apply(t, mem, op).value.mem.reg, name, m)
  }

  ghost predicate Leaves(t: IPText, sys: System, e: Event, name: bytes, m: MappingRecord) {
    sys.Up? && (e.Call? || e.CrashDuring?) ==> OpLeaves(t, sys.run.mem, e.op, name, m)
  }

  ghost predicate AllLeave(t: IPText, sys: System, events: seq<Event>, name: bytes, m: MappingRecord) {
    events != [] ==>
      && AllLeave(t, sys, events[..|events| - 1], name, m)
      && Leaves(t, RunAll(t, sys, events[..|events| - 1]), events[|events| - 1], name, m)
  }

  /** The mapping names an operation is about. */
  function Names(op: Op): set<bytes> {
    match op
    case SetMapping(hostname, _, _, _, _) => {Normalize(hostname)}
    case UpdateMapping(previous, hostname, _, _, _, _) => {Normalize(previous), Normalize(hostname)}
    case DeleteMapping(hostname) => {Normalize(hostname)}
    case _ => {}
  }

  /** Operations about other names leave a mapping alone. */
  lemma OtherNamesLeave(t: IPText, mem: Memory, op: Op, name: bytes, m: MappingRecord)
    requires Keyed(mem.reg) && Has(mem.reg, name, m) && name !in Names(op)
    ensures OpLeaves(t, mem, op, name, m)
  {
    hide Keyed, NormalizeMac, Normalize, ObserveAll, AnyReadable, ValidName;
    if op.Scan? {
      ObserveAllKeeps(mem.reg, op.seen, op.now);
    }
  }

  /** No operation of these events is about `name`. */
  ghost predicate Untouched(events: seq<Event>, name: bytes) {
    forall e :: e in events && (e.Call? || e.CrashDuring?) ==> name !in Names(e.op)
  }

  /** A durable mapping is left alone by any events none of which is about its name. */
  lemma {:induction false} UntouchedLeaves(t: IPText, sys: System, events: seq<Event>, name: bytes, m: MappingRecord)
    requires Good(sys) && Durable(sys, name, m) && Untouched(events, name)
    ensures AllLeave(t, sys, events, name, m)
  {
    hide Has, Keyed, Apply, OnDisk, Step, Names;
    if events == [] {
    } else {
      var before, e := events[..|events| - 1], events[|events| - 1];
      UntouchedLeaves(t, sys, before, name, m);
      RunDurable(t, sys, before, name, m);
      RunKeeps(t, sys, before);
      var now := RunAll(t, sys, before);
      if now.Up? && (e.Call? || e.CrashDuring?) {
        assert e in events;
        OtherNamesLeave(t, now.run.mem, e.op, name, m);
      }
    }
  }

  /** An acknowledged `SetMapping` or `UpdateMapping` is durable. */
  lemma AcknowledgedIsDurable(t: IPText, s: Running, op: Op, fate: Fate)
    requires Good(Up(s)) && Succeeds(t, s, op, fate)
    requires op.SetMapping? || op.UpdateMapping?
    ensures NormalizeInput(t, op.hostname, op.mac, op.ip, op.note).Ok?
    ensures var target := NormalizeInput(t, op.hostname, op.mac, op.ip, op.note).value;
            var after := Do(t, s, op, fate);
            && target.hostname in after.mem.reg.mappings
            && var m := after.mem.reg.mappings[target.hostname];
            && m.hostname == target.hostname && m.mac == target.mac && m.ip == target.ip && m.note == target.note
            && m.updatedAt == op.now
            && Durable(Up(after), target.hostname, m)
  {
    DoKeeps(t, s, op, fate);
    hide Keyed, OnDisk, NormalizeInput, AfterSave, Snapshot, RewrittenRegistry, RewrittenMapping;
    var name := NormalizeInput(t, op.hostname, op.mac, op.ip, op.note).value.hostname;
    var after := Do(t, s, op, fate).mem.reg;
    RewrittenHas(after, name, after.mappings[name]);
  }

  lemma StepDurable(t: IPText, sys: System, e: Event, name: bytes, m: MappingRecord)
    requires Good(sys) && Durable(sys, name, m) && Leaves(t, sys, e, name, m)
    ensures Durable(Step(t, sys, e), name, m)
  {
    hide Keyed, GoodFile, Has, Snapshot, SaveTrace, Apply, RewrittenRegistry;
    match sys
    case Up(s) =>
      if e.Call? || e.CrashDuring? {
        if Apply(t, s.mem, e.op).Ok? && Apply(t, s.mem, e.op).value.saves {
          var mem := Apply(t, s.mem, e.op).value.mem;
          ApplyKeeps(t, s.mem, e.op);
          RewrittenHas(mem.reg, name, m);
          var trace := SaveTrace(s.files, Snapshot(mem.reg), e.fate);
          SaveKeeps(s.files, mem.reg, e.fate, |trace| - 1);
          if e.CrashDuring? && e.at < |trace| {
            SaveKeeps(s.files, mem.reg, e.fate, e.at);
          }
        }
      }
    case Down(files) =>
  }

  lemma {:induction false} RunDurable(t: IPText, sys: System, events: seq<Event>, name: bytes, m: MappingRecord)
    requires Good(sys) && Durable(sys, name, m) && AllLeave(t, sys, events, name, m)
    ensures Durable(RunAll(t, sys, events), name, m)
  {
    hide Durable, Leaves, Good;
    if events == [] {
    } else {
      var before := events[..|events| - 1];
      RunDurable(t, sys, before, name, m);
      RunKeeps(t, sys, before);
      StepDurable(t, RunAll(t, sys, before), events[|events| - 1], name, m);
    }
  }

  /** A mapping acknowledged at any point of any run is there after every later event (crashes in
      the middle of a save and restarts included) until an operation changes it; in particular as
      long as no operation is about its name. */
  lemma {:induction false} AcknowledgedMappingsSurvive(t: IPText, sys: System, first: seq<Event>,
                                                     op: Op, fate: Fate, later: seq<Event>)
    requires Fresh(sys) && RunAll(t, sys, first).Up?
    requires op.SetMapping? || op.UpdateMapping?
    requires Succeeds(t, RunAll(t, sys, first).run, op, fate)
    ensures NormalizeInput(t, op.hostname, op.mac, op.ip, op.note).Ok?
    ensures var name := NormalizeInput(t, op.hostname, op.mac, op.ip, op.note).value.hostname;
            var after := Up(Do(t, RunAll(t, sys, first).run, op, fate));
            && name in after.run.mem.reg.mappings
            && var m := after.run.mem.reg.mappings[name];
            Untouched(later, name) || AllLeave(t, after, later, name, m) ==> Durable(RunAll(t, after, later), name, m)
  {
    var s := RunAll(t, sys, first).run;
    RunKeeps(t, sys, first);
    AcknowledgedIsDurable(t, s, op, fate);
    DoKeeps(t, s, op, fate);
    hide Good, Durable, Do, Succeeds, AllLeave, Untouched;
    var after := Up(Do(t, s, op, fate));
    var name := NormalizeInput(t, op.hostname, op.mac, op.ip, op.note).value.hostname;
    var m := after.run.mem.reg.mappings[name];
    if Untouched(later, name) {
      UntouchedLeaves(t, after, later, name, m);
    }
    if AllLeave(t, after, later, name, m) {
      RunDurable(t, after, later, name, m);
    }
  }
}
