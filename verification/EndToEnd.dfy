/** The whole program: what is on the wire follows from the history of the store. */
module EndToEnd {
  import opened Results
  import opened Bytes
  import opened Text
  import opened Message
  import opened Addresses
  import opened Registry
  import opened Persistence
  import opened JsonText
  import opened Runs
  import opened Tracking
  import opened HostNames
  import opened Effects
  import opened Server
  import opened ServerTheorems

  /** The address the past gives the mapping `m`. */
  ghost function AddressFrom(t: IPText, past: seq<Past>, m: MappingRecord): Option<Address> {
    if m.mac != [] then t.parse(LastAddress(Observations(past, m.mac))) else t.parse(m.ip)
  }

  /** After any run from no state file, with any save failures, crashes and restarts, every query for the
      full name of a mapped host is answered, as octets that parse back, with the last address reported
      for its device in the operations that were not lost as the only record, or with the SOA record
      when there is none. */
  lemma {:induction false} AnswersFollowDevices(t: IPText, sys: System, events: seq<Event>, s: Server, host: bytes,
                             req: bytes, h: Header, q: Question, serial: u32, upstreams: seq<Option<bytes>>)
    requires Lawful(t) && sys.Down? && StateOf(sys.files).None? && RunAll(t, sys, events).Up?
    requires GoodServer(s) && Backed(s, t, RunAll(t, sys, events).run.mem.reg)
    requires host in RunAll(t, sys, events).run.mem.reg.mappings
    requires StandardQuery(req, h, q) && q.name == host + [DOT] + s.domain
    ensures var m := RunAll(t, sys, events).run.mem.reg.mappings[host];
            Tells(s, serial, Response(s, req, serial, upstreams), h, q,
                  Some(AddressFrom(t, Surviving(t, sys, events), m)))
  {
    hide GoodServer, Backed, StandardQuery, Tells, Response, RunAll, Surviving;
    NamesFollowDevices(t, sys, events, host);
    HostTold(s, t, RunAll(t, sys, events).run.mem.reg, host, req, h, q, serial, upstreams);
  }

  /** A mapping whose `SetMapping` or `UpdateMapping` was acknowledged at any point of any run is
      what queries are answered from after any later crashes and restarts, as long as no operation
      changes it, in particular as long as none is about its name: a static address is then the only
      record of the answer. */
  lemma {:induction false} AcknowledgedAddressesAreServed(t: IPText, sys: System, first: seq<Event>,
                                       op: Op, fate: Fate, later: seq<Event>, s: Server,
                                       req: bytes, h: Header, q: Question, serial: u32,
                                       upstreams: seq<Option<bytes>>)
    requires Lawful(t) && Fresh(sys) && RunAll(t, sys, first).Up?
    requires (op.SetMapping? || op.UpdateMapping?) && op.ip != []
    requires Succeeds(t, RunAll(t, sys, first).run, op, fate)
    requires GoodServer(s) && StandardQuery(req, h, q)
    ensures NormalizeInput(t, op.hostname, op.mac, op.ip, op.note).Ok?
    ensures var target := NormalizeInput(t, op.hostname, op.mac, op.ip, op.note).value;
            var after := Up(Do(t, RunAll(t, sys, first).run, op, fate));
            && target.hostname in after.run.mem.reg.mappings
            && var end := RunAll(t, after, later);
            (Untouched(later, target.hostname)
             || AllLeave(t, after, later, target.hostname, after.run.mem.reg.mappings[target.hostname]))
            && end.Up? && Backed(s, t, end.run.mem.reg) && q.name == target.hostname + [DOT] + s.domain ==>
              Tells(s, serial, Response(s, req, serial, upstreams), h, q, Some(t.parse(TrimSpace(op.ip))))
  {
    AcknowledgedMappingsSurvive(t, sys, first, op, fate, later);
    AcknowledgedTarget(t, sys, first, op, fate);
    NormalizedInput(t, op.hostname, op.mac, op.ip, op.note);
    var target := NormalizeInput(t, op.hostname, op.mac, op.ip, op.note).value;
    hide NormalizeInput, GoodServer, StandardQuery, Tells, Response, Do, Succeeds, AllLeave, Untouched, Fresh,
      Lawful, Backed, RunAll, Has, ResolveName, OnDisk;
    var after := Do(t, RunAll(t, sys, first).run, op, fate);
    var end := RunAll(t, Up(after), later);
    if end.Up? && Has(end.run.mem.reg, target.hostname, after.mem.reg.mappings[target.hostname])
       && Backed(s, t, end.run.mem.reg) && q.name == target.hostname + [DOT] + s.domain {
      StaticAddress(t, end.run.mem.reg, target.hostname, after.mem.reg.mappings[target.hostname]);
      HostTold(s, t, end.run.mem.reg, target.hostname, req, h, q, serial, upstreams);
    }
  }

  /** A static address is the same after any rewriting. */
  lemma StaticAddress(t: IPText, r: Registry, name: bytes, m: MappingRecord)
    requires Lawful(t) && Has(r, name, m) && m.ip != []
    ensures ResolveName(t, r, name) == Some(t.parse(m.ip))
  {
    hide Rewritten;
    ParseRewritten(t, m.ip);
  }

  lemma {:induction false} AcknowledgedTarget(t: IPText, sys: System, first: seq<Event>, op: Op, fate: Fate)
    requires Lawful(t) && Fresh(sys) && RunAll(t, sys, first).Up?
    requires (op.SetMapping? || op.UpdateMapping?) && op.ip != []
    requires Succeeds(t, RunAll(t, sys, first).run, op, fate)
    ensures NormalizeInput(t, op.hostname, op.mac, op.ip, op.note).Ok?
    ensures var target := NormalizeInput(t, op.hostname, op.mac, op.ip, op.note).value;
            var after := Do(t, RunAll(t, sys, first).run, op, fate);
            && target.hostname in after.mem.reg.mappings
            && after.mem.reg.mappings[target.hostname].ip == target.ip && target.ip != []
  {
    RunKeeps(t, sys, first);
    AcknowledgedIsDurable(t, RunAll(t, sys, first).run, op, fate);
    NormalizedInput(t, op.hostname, op.mac, op.ip, op.note);
    hide Do, Succeeds, Good, Fresh;
  }

  /** A name whose mapping was deleted without error, at any point of any run, is answered with NXDOMAIN after any
      later crashes and restarts, as long as no operation maps it again. */
  lemma {:induction false} DeletedNamesAreUnknown(t: IPText, sys: System, first: seq<Event>,
                               hostname: bytes, fate: Fate, later: seq<Event>, s: Server,
                               req: bytes, h: Header, q: Question, serial: u32, upstreams: seq<Option<bytes>>)
    requires Fresh(sys) && RunAll(t, sys, first).Up? && fate.fails.None?
    requires Normalize(hostname) in RunAll(t, sys, first).run.mem.reg.mappings
    requires NeverMapped(later, Normalize(hostname))
    requires GoodServer(s) && StandardQuery(req, h, q) && q.name == Normalize(hostname) + [0x2E] + s.domain
    ensures var end := RunAll(t, Up(Do(t, RunAll(t, sys, first).run, DeleteMapping(hostname), fate)), later);
            end.Up? && Backed(s, t, end.run.mem.reg) ==>
              Tells(s, serial, Response(s, req, serial, upstreams), h, q, None)
  {
    DeletedStaysAway(t, sys, first, hostname, fate, later);
    hide Fresh, RunAll, Do, NeverMapped, Normalize, GoodServer, StandardQuery, Tells, Response, Backed, OnDisk;
    var end := RunAll(t, Up(Do(t, RunAll(t, sys, first).run, DeleteMapping(hostname), fate)), later);
    if end.Up? && Backed(s, t, end.run.mem.reg) {
      HostTold(s, t, end.run.mem.reg, Normalize(hostname), req, h, q, serial, upstreams);
    }
  }
}
