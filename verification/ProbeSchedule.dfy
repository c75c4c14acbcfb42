/** Which devices a scan probes for their host name: the job selection of `probeHostnames`
    (internal/scanner/scanner.go). */
module ProbeSchedule {
  import opened Results
  import opened Bytes
  import opened HostNames
  import opened Registry

  const MAX_PROBES := 16
  /** Ten minutes in nanoseconds. */
  const REPROBE_AFTER: Time := 600_000_000_000

  /** One scheduled probe; `nameless` records whether the device had no host name then. */
  datatype Job = Job(mac: bytes, ip: bytes, at: Time, nameless: bool)

  /** The clock while one observation is considered: when it is compared and when it is stamped. */
  datatype Reading = Reading(checked: Time, stamped: Time)

  datatype Memo = Memo(at: map<bytes, Time>, ip: map<bytes, bytes>)

  /** The device an observation is about, if it is to be considered at all. */
  function Candidate(r: Registry, sd: SeenDevice): Option<DeviceRecord> {
    if sd.self || sd.ip == [] then None else KnownDevice(r, sd.mac)
  }

  /** New and nameless, or nameless for long enough, or at a new address. */
  predicate Due(m: Memo, d: DeviceRecord, ip: bytes, checked: Time) {
    var probed := d.mac in m.at;
    var ipChanged := (if d.mac in m.ip then m.ip[d.mac] else []) != ip;
    var needsName := d.hostname == [];
    || (!probed && needsName)
    || (probed && needsName && checked - m.at[d.mac] > REPROBE_AFTER)
    || (probed && ipChanged)
  }

  /** The job of one observation at its turn, if any. */
  function JobOf(m: Memo, r: Registry, sd: SeenDevice, c: Reading): Option<Job> {
    match Candidate(r, sd)
    case None => None
    case Some(d) => if Due(m, d, sd.ip, c.checked) then Some(Job(d.mac, sd.ip, c.stamped, d.hostname == [])) else None
  }

  function Noted(m: Memo, j: Job): Memo {
    Memo(m.at[j.mac := j.at], m.ip[j.mac := j.ip])
  }

  /** The jobs of a whole list of observations if there were no limit, and the memo after them. */
  function Jobs(m: Memo, r: Registry, seen: seq<SeenDevice>, clock: seq<Reading>): seq<Job>
    requires |clock| == |seen|
  {
    if seen == [] then []
    else
      var n := |seen| - 1;
      var before := Jobs(m, r, seen[..n], clock[..n]);
      match JobOf(NotedAll(m, before), r, seen[n], clock[n])
      case None => before
      case Some(j) => before + [j]
  }

  function NotedAll(m: Memo, jobs: seq<Job>): Memo {
    if jobs == [] then m else Noted(NotedAll(m, jobs[..|jobs| - 1]), jobs[|jobs| - 1])
  }

  // ---------------------------------------------------------------------
  // Spacing over any run
  // ---------------------------------------------------------------------

  /** The latest job for a MAC. */
  function LastJob(log: seq<Job>, mac: bytes): Option<Job> {
    if log == [] then None
    else if log[|log| - 1].mac == mac then Some(log[|log| - 1])
    else LastJob(log[..|log| - 1], mac)
  }

  /** A MAC's first probe finds it nameless; every later one comes more than ten minutes after
      the one before it, or goes to another address. */
  predicate Spaced(log: seq<Job>) {
    log != [] ==>
      var before, j := log[..|log| - 1], log[|log| - 1];
      && Spaced(before)
      && match LastJob(before, j.mac)
         case None => j.nameless
         case Some(last) => j.at - last.at > REPROBE_AFTER || j.ip != last.ip
  }

  /** No job in `from..j` is for the MAC of job `j`. */
  ghost predicate Quiet(log: seq<Job>, from: nat, j: nat)
    requires from <= j < |log|
  {
    forall k :: from <= k < j ==> log[k].mac != log[j].mac
  }

  /** Job `j` against every job of the same MAC with none in between. */
  ghost predicate SpacedAt(log: seq<Job>, j: nat)
    requires j < |log|
  {
    && (Quiet(log, 0, j) ==> log[j].nameless)
    && forall i | 0 <= i < j && log[i].mac == log[j].mac && Quiet(log, i + 1, j) ::
         log[j].at - log[i].at > 600_000_000_000 || log[j].ip != log[i].ip
  }

  lemma {:induction false} LastJobIs(log: seq<Job>, mac: bytes)
    ensures match LastJob(log, mac)
            case None => forall k :: 0 <= k < |log| ==> log[k].mac != mac
            case Some(j) =>
              exists i :: 0 <= i < |log| && log[i] == j && j.mac == mac
                          && forall k :: i < k < |log| ==> log[k].mac != mac
  {
    if log == [] {
    } else {
      LastJobIs(log[..|log| - 1], mac);
      assert forall k :: 0 <= k < |log| - 1 ==> log[..|log| - 1][k] == log[k];
    }
  }

  /** What `Spaced` says of any two consecutive jobs of one MAC, wherever they are in the log. */
  lemma {:induction false} SpacedExact(log: seq<Job>)
    ensures Spaced(log) <==> forall j :: 0 <= j < |log| ==> SpacedAt(log, j)
  {
    if log == [] {
    } else {
      var n := |log| - 1;
      var before := log[..n];
      SpacedExact(before);
      LastJobIs(before, log[n].mac);
      hide LastJob;
      forall j | 0 <= j < n
        ensures SpacedAt(log, j) <==> SpacedAt(before, j)
      {
        SpacedPrefix(log, j);
      }
      LastSpaced(log);
    }
  }

  lemma SpacedPrefix(log: seq<Job>, j: nat)
    requires j < |log| - 1
    ensures SpacedAt(log, j) <==> SpacedAt(log[..|log| - 1], j)
  {
    var before := log[..|log| - 1];
    assert forall k :: 0 <= k <= j ==> before[k] == log[k];
    assert forall from :: 0 <= from <= j ==> (Quiet(log, from, j) <==> Quiet(before, from, j));
  }

  lemma LastSpaced(log: seq<Job>)
    requires log != []
    ensures var before, j := log[..|log| - 1], log[|log| - 1];
            SpacedAt(log, |log| - 1) <==>
            match LastJob(before, j.mac)
            case None => j.nameless
            case Some(last) => j.at - last.at > REPROBE_AFTER || j.ip != last.ip
  {
    var n := |log| - 1;
    var before, j := log[..n], log[n];
    LastJobIs(before, j.mac);
    assert forall k :: 0 <= k < n ==> before[k] == log[k];
    hide LastJob;
    if LastJob(before, j.mac).Some? {
      var i :| 0 <= i < n && before[i] == LastJob(before, j.mac).value && before[i].mac == j.mac
               && forall k :: i < k < n ==> before[k].mac != j.mac;
      assert Quiet(log, i + 1, n) && !Quiet(log, 0, n);
      assert forall i' :: 0 <= i' < n && i' != i && log[i'].mac == j.mac ==> !Quiet(log, i' + 1, n) by {
        forall i' | 0 <= i' < n && i' != i && log[i'].mac == j.mac
          ensures !Quiet(log, i' + 1, n)
        {
          assert i' < i;
          assert log[i].mac == log[n].mac;
        }
      }
    } else {
      assert Quiet(log, 0, n);
    }
  }

  /** The memo holds the time and the address of each MAC's latest job. */
  ghost predicate Remembers(m: Memo, log: seq<Job>) {
    forall mac ::
      match LastJob(log, mac)
      case None => mac !in m.at && mac !in m.ip
      case Some(j) => mac in m.at && m.at[mac] == j.at && mac in m.ip && m.ip[mac] == j.ip
  }

  ghost predicate Monotone(clock: seq<Reading>) {
    forall i :: 0 <= i < |clock| ==> clock[i].checked <= clock[i].stamped
  }

  lemma {:induction false} JobKeepsSpacing(m: Memo, log: seq<Job>, r: Registry, sd: SeenDevice, c: Reading)
    requires Spaced(log) && Remembers(m, log) && c.checked <= c.stamped && JobOf(m, r, sd, c).Some?
    ensures var j := JobOf(m, r, sd, c).value;
            Spaced(log + [j]) && Remembers(Noted(m, j), log + [j])
  {
    hide Candidate;
    var j := JobOf(m, r, sd, c).value;
    assert (log + [j])[..|log|] == log;
    assert forall mac :: LastJob(log + [j], mac) == if mac == j.mac then Some(j) else LastJob(log, mac);
    assert match LastJob(log, j.mac)
           case None => j.mac !in m.at && j.mac !in m.ip
           case Some(last) => j.mac in m.at && m.at[j.mac] == last.at && j.mac in m.ip && m.ip[j.mac] == last.ip;
  }

  lemma MonotonePrefix(clock: seq<Reading>, n: nat)
    requires n <= |clock| && Monotone(clock)
    ensures Monotone(clock[..n])
  {
  }

  lemma {:induction false} JobsStart(m: Memo, r: Registry, seen: seq<SeenDevice>, clock: seq<Reading>)
    requires |clock| == |seen|
    ensures Jobs(m, r, seen[..0], clock[..0]) == [] && NotedAll(m, []) == m
  {
  }

  /** The jobs of one more observation. */
  lemma {:induction false} JobsNext(m: Memo, r: Registry, seen: seq<SeenDevice>, clock: seq<Reading>, i: nat)
    requires |clock| == |seen| && i < |seen|
    ensures var before := Jobs(m, r, seen[..i], clock[..i]);
            Jobs(m, r, seen[..i + 1], clock[..i + 1]) ==
            match JobOf(NotedAll(m, before), r, seen[i], clock[i])
            case None => before
            case Some(j) => before + [j]
  {
    assert seen[..i + 1][..i] == seen[..i] && clock[..i + 1][..i] == clock[..i];
  }

  /** Whether an observation asks for a probe, read off the log of all probes so far: it is of another known
      device and has an address, and the device is nameless and was never probed, or not for ten minutes,
      or was probed at another address. */
  ghost predicate Eligible(log: seq<Job>, r: Registry, sd: SeenDevice, checked: Time) {
    && !sd.self && sd.ip != [] && NormalizeMac(sd.mac).Some?
    && var mac := NormalizeMac(sd.mac).value;
    mac in r.devices &&
    var d := r.devices[mac];
    match LastJob(log, d.mac)
    case None => d.hostname == []
    case Some(last) => last.ip != sd.ip || (d.hostname == [] && checked - last.at > 600_000_000_000)
  }

  /** The two maps decide what the log would. */
  lemma DueByLog(m: Memo, log: seq<Job>, r: Registry, sd: SeenDevice, c: Reading)
    requires Remembers(m, log)
    ensures JobOf(m, r, sd, c).Some? <==> Eligible(log, r, sd, c.checked)
    ensures JobOf(m, r, sd, c).Some? ==>
              var d := r.devices[NormalizeMac(sd.mac).value];
              JobOf(m, r, sd, c) == Some(Job(d.mac, sd.ip, c.stamped, d.hostname == []))
  {
    hide NormalizeMac, LastJob;
    if Candidate(r, sd).Some? {
      var mac := Candidate(r, sd).value.mac;
      assert match LastJob(log, mac)
             case None => mac !in m.at && mac !in m.ip
             case Some(last) => mac in m.at && m.at[mac] == last.at && mac in m.ip && m.ip[mac] == last.ip;
    }
  }

  /** A list of observations schedules a probe for an observation exactly when it is eligible at its
      turn: the job stands right after the jobs of the observations before it. */
  lemma {:induction false} EligibleIsScheduled(m: Memo, log: seq<Job>, r: Registry, seen: seq<SeenDevice>, clock: seq<Reading>, i: nat)
    requires |clock| == |seen| && i < |seen| && Spaced(log) && Remembers(m, log) && Monotone(clock)
    ensures var jobs, before := Jobs(m, r, seen, clock), Jobs(m, r, seen[..i], clock[..i]);
            var through := Jobs(m, r, seen[..i + 1], clock[..i + 1]);
            && |before| <= |jobs| && before == jobs[..|before|]
            && if Eligible(log + before, r, seen[i], clock[i].checked) then
                 var d := r.devices[NormalizeMac(seen[i].mac).value];
                 |before| < |jobs| && jobs[|before|] == Job(d.mac, seen[i].ip, clock[i].stamped, d.hostname == [])
               else through == before
  {
    var before := Jobs(m, r, seen[..i], clock[..i]);
    DueIsScheduled(m, r, seen, clock, i);
    JobsNext(m, r, seen, clock, i);
    JobsKeepSpacing(m, log, r, seen[..i], clock[..i]);
    hide Remembers, Spaced, Jobs, JobOf, LastJob, NotedAll, NormalizeMac;
    DueByLog(NotedAll(m, before), log + before, r, seen[i], clock[i]);
  }

  /** No device that is due at its turn is passed over. */
  lemma {:induction false} DueIsScheduled(m: Memo, r: Registry, seen: seq<SeenDevice>, clock: seq<Reading>, i: nat)
    requires |clock| == |seen| && i < |seen|
    ensures var jobs, before := Jobs(m, r, seen, clock), Jobs(m, r, seen[..i], clock[..i]);
            && |before| <= |jobs| && before == jobs[..|before|]
            && var job := JobOf(NotedAll(m, before), r, seen[i], clock[i]);
            (job.Some? ==> |before| < |jobs| && jobs[|before|] == job.value)
    decreases |seen|
  {
    hide JobOf, NotedAll;
    var n := |seen| - 1;
    if i == n {
    } else {
      DueIsScheduled(m, r, seen[..n], clock[..n], i);
      assert seen[..n][..i] == seen[..i] && clock[..n][..i] == clock[..i];
    }
  }

  lemma {:induction false} NotedAllSnoc(m: Memo, jobs: seq<Job>, j: Job)
    ensures NotedAll(m, jobs + [j]) == Noted(NotedAll(m, jobs), j)
  {
    assert (jobs + [j])[..|jobs|] == jobs;
  }

  /** A list of observations extends the log by its jobs and keeps it spaced. */
  lemma {:induction false} JobsKeepSpacing(m: Memo, log: seq<Job>, r: Registry, seen: seq<SeenDevice>, clock: seq<Reading>)
    requires |clock| == |seen| && Spaced(log) && Remembers(m, log) && Monotone(clock)
    ensures var jobs := Jobs(m, r, seen, clock);
            Spaced(log + jobs) && Remembers(NotedAll(m, jobs), log + jobs)
  {
    hide Spaced, Remembers, JobOf, Noted;
    if seen == [] {
      assert log + [] == log;
    } else {
      var n := |seen| - 1;
      JobsKeepSpacing(m, log, r, seen[..n], clock[..n]);
      var before := Jobs(m, r, seen[..n], clock[..n]);
      var job := JobOf(NotedAll(m, before), r, seen[n], clock[n]);
      if job.Some? {
        JobKeepsSpacing(NotedAll(m, before), log + before, r, seen[n], clock[n]);
        NotedAllSnoc(m, before, job.value);
        assert log + (before + [job.value]) == log + before + [job.value];
      }
    }
  }

  // ---------------------------------------------------------------------
  // The scanner
  // ---------------------------------------------------------------------

  class Scanner {
    var probedAt: map<bytes, Time>
    var probedIp: map<bytes, bytes>
    /** Every probe ever scheduled. */
    ghost var log: seq<Job>

    ghost function Memory(): Memo
      reads this
    {
      Memo(probedAt, probedIp)
    }

    ghost predicate Valid()
      reads this
    {
      Spaced(log) && Remembers(Memory(), log)
    }

    constructor ()
      ensures Valid() && log == [] && Memory() == Memo(map[], map[])
    {
      probedAt, probedIp, log := map[], map[], [];
    }

    /** One turn of the loop: a due device is noted as probed. */
    method Consider(sd: SeenDevice, r: Registry, c: Reading) returns (job: Option<Job>)
      modifies this
      ensures job == JobOf(old(Memory()), r, sd, c) && log == old(log)
      ensures Memory() == if job.Some? then Noted(old(Memory()), job.value) else old(Memory())
    {
      hide Candidate;
      var candidate := Candidate(r, sd);
      if candidate.None? {
        return None;
      }
      var d := candidate.value;
      var mac := d.mac;
      var probed := mac in probedAt;
      var ipChanged := (if mac in probedIp then probedIp[mac] else []) != sd.ip;
      var needsName := d.hostname == [];
      if (!probed && needsName) || (probed && needsName && c.checked - probedAt[mac] > REPROBE_AFTER)
         || (probed && ipChanged) {
        job := Some(Job(mac, sd.ip, c.stamped, needsName));
        probedAt := probedAt[mac := c.stamped];
        probedIp := probedIp[mac := sd.ip];
      } else {
        job := None;
      }
    }

    /** One scan considers the observations in turn and stops once it has 16 jobs: it schedules
        exactly the jobs of the first `considered` observations, at most 16, and all of them
        unless it has 16. */
    method SelectJobs(seen: seq<SeenDevice>, r: Registry, clock: seq<Reading>)
      returns (jobs: seq<Job>, considered: nat)
      requires Valid() && |clock| == |seen| && Monotone(clock)
      modifies this
      ensures Valid()
      ensures considered <= |seen| && jobs == Jobs(old(Memory()), r, seen[..considered], clock[..considered])
      ensures |jobs| <= 16 && (considered == |seen| || |jobs| == 16)
      ensures log == old(log) + jobs && Memory() == NotedAll(old(Memory()), jobs)
    {
      hide Spaced, Remembers, Jobs, JobOf, NotedAll, Noted, Monotone;
      jobs := [];
      considered := 0;
      JobsStart(Memory(), r, seen, clock);
      while considered < |seen|
        invariant considered <= |seen| && |jobs| < MAX_PROBES
        invariant jobs == Jobs(old(Memory()), r, seen[..considered], clock[..considered])
        invariant Memory() == NotedAll(old(Memory()), jobs) && log == old(log)
      {
        JobsNext(old(Memory()), r, seen, clock, considered);
        var job := Consider(seen[considered], r, clock[considered]);
        considered := considered + 1;
        if job.Some? {
          NotedAllSnoc(old(Memory()), jobs, job.value);
          jobs := jobs + [job.value];
        }
        if |jobs| >= MAX_PROBES {
          break;
        }
      }
      MonotonePrefix(clock, considered);
      log := log + jobs;
      JobsKeepSpacing(old(Memory()), old(log), r, seen[..considered], clock[..considered]);
    }
  }
}
