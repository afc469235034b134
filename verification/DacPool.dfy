/** The DAC credential pool and its stat.json (pc/src/storage/dac_pool_store.py).

    A base name enters only through equality and through the order in which names are sorted, so a name
    is its rank in that order. The directory is the map from the base names found in it to whether both the
    certificate and the key are there; it may change between operations. Whether a pair's material can
    be loaded is the outside's choice at every request. */
module DacPool {
  import opened Bytes

  datatype Name = Name(rank: nat)

  datatype Status = StatusReady | StatusProgress | StatusConsumed | StatusError

  type Entries = map<Name, Status>

  datatype PoolError = NotConfigured | NoCompletePair | InProgress | PoolEmpty | NotFound | NotInProgress

  /** `configured` is whether a pool path is set; `disk` is the content of stat.json, if it exists. */
  datatype Pool = Pool(configured: bool, entry: Entries, disk: Option<Entries>, files: map<Name, bool>)

  predicate Complete(files: map<Name, bool>, n: Name) {
    n in files && files[n]
  }

  /** The status a name gets when the directory is loaded. */
  function LoadStatus(complete: bool, previous: Option<Status>): Status {
    if !complete then StatusError
    else if previous == Some(StatusConsumed) then StatusConsumed
    else if previous == Some(StatusError) then StatusError
    else StatusReady
  }

  function Previous(disk: Option<Entries>, n: Name): Option<Status> {
    if disk.Some? && n in disk.value then Some(disk.value[n]) else None
  }

  function LoadedEntries(files: map<Name, bool>, disk: Option<Entries>): Entries {
    map n | n in files :: LoadStatus(files[n], Previous(disk, n))
  }

  function LoadStep(p: Pool): (Option<PoolError>, Pool) {
    var disk := if p.disk.None? then Some(map[]) else p.disk;
    if forall n :: n in p.files ==> !p.files[n]
    then (Some(NoCompletePair), p.(configured := false, entry := map[], disk := disk))
    else
      var entry := LoadedEntries(p.files, disk);
      (None, p.(configured := true, entry := entry, disk := Some(entry)))
  }

  /** The names that a request could hand out. */
  function Candidates(p: Pool, loads: set<Name>): set<Name> {
    set n | n in p.entry && p.entry[n] == StatusReady && Complete(p.files, n) && n in loads
  }

  /** The entries after the names in `seen` have been looked at and passed over: an incomplete READY
      pair is dropped, one that cannot be loaded is an error. */
  function PassedOver(p: Pool, seen: set<Name>): Entries {
    map n | n in p.entry && !(n in seen && p.entry[n] == StatusReady && !Complete(p.files, n))
      :: if n in seen && p.entry[n] == StatusReady then StatusError else p.entry[n]
  }

  predicate AnyInProgress(e: Entries) {
    exists n :: n in e && e[n] == StatusProgress
  }

  predicate IsLeast(n: Name, s: set<Name>) {
    n in s && forall m | m in s :: n.rank <= m.rank
  }

  lemma {:induction false} LeastExists(s: set<Name>)
    requires s != {}
    ensures exists n :: IsLeast(n, s)
    decreases s
  {
    var n :| n in s;
    if s == {n} {
      assert IsLeast(n, s);
    } else {
      LeastExists(s - {n});
      var m :| IsLeast(m, s - {n});
      var least := if n.rank <= m.rank then n else m;
      assert forall j :: j in s && j != n ==> j in s - {n};
      assert IsLeast(least, s);
    }
  }

  ghost function Least(s: set<Name>): (n: Name)
    requires s != {}
    ensures IsLeast(n, s)
  {
    LeastExists(s);
    var n :| IsLeast(n, s);
    n
  }

  function Below(e: Entries, n: Name): set<Name> {
    set m | m in e && m.rank < n.rank
  }

  /** `get_material`: the first candidate in sorted order. */
  ghost function GetStep(p: Pool, loads: set<Name>): (Result<Name, PoolError>, Pool) {
    if !p.configured then (Err(NotConfigured), p)
    else if AnyInProgress(p.entry) then (Err(InProgress), p)
    else if Candidates(p, loads) == {} then
      var entry := PassedOver(p, p.entry.Keys);
      (Err(PoolEmpty), p.(entry := entry, disk := Some(entry)))
    else
      var n := Least(Candidates(p, loads));
      var entry := PassedOver(p, Below(p.entry, n))[n := StatusProgress];
      (Ok(n), p.(entry := entry, disk := Some(entry)))
  }

  function SetStep(p: Pool, n: Name, success: bool): (Option<PoolError>, Pool) {
    if !p.configured then (Some(NotConfigured), p)
    else if n !in p.entry then (Some(NotFound), p)
    else if p.entry[n] != StatusProgress then (Some(NotInProgress), p)
    else
      var entry := p.entry[n := if success then StatusConsumed else StatusError];
      (None, p.(entry := entry, disk := Some(entry)))
  }

  // ---------------------------------------------------------------------------
  // The store

  class DacCredentialPoolStore {
    var configured: bool
    var entry: Entries
    var disk: Option<Entries>
    var files: map<Name, bool>

    ghost function View(): Pool
      reads this
    {
      Pool(configured, entry, disk, files)
    }

    /** A configured store's entries are what stat.json says. */
    ghost predicate Valid()
      reads this
    {
      InStep(View())
    }

    /** A process start over an existing directory. */
    constructor (disk: Option<Entries>, files: map<Name, bool>)
      ensures Valid() && View() == LoadStep(Pool(false, map[], disk, files)).1
    {
      this.configured, this.entry, this.disk, this.files := false, map[], disk, files;
      new;
      var r := Load();
    }

    method Load() returns (r: Option<PoolError>)
      modifies this
      ensures Valid() && (r, View()) == LoadStep(old(View()))
    {
      if disk.None? {
        disk := Some(map[]);
      }
      ghost var before := disk;
      var hasCompletePair := false;
      entry := map[];
      var todo := files.Keys;
      while todo != {}
        invariant todo <= files.Keys && disk == before && files == old(files)
        invariant entry.Keys == files.Keys - todo
        invariant forall n :: n in entry ==> entry[n] == LoadStatus(files[n], Previous(disk, n))
        invariant hasCompletePair <==> exists n :: n in files.Keys - todo && files[n]
        decreases todo
      {
        LeastExists(todo);
        var n :| IsLeast(n, todo);
        if files[n] {
          hasCompletePair := true;
        }
        entry := entry[n := LoadStatus(files[n], Previous(disk, n))];
        todo := todo - {n};
      }
      if !hasCompletePair {
        configured, entry := false, map[];
        return Some(NoCompletePair);
      }
      assert entry == LoadedEntries(files, disk);
      configured, disk := true, Some(entry);
      r := None;
    }

    /** `load(None)`. */
    method Unload()
      modifies this
      ensures Valid() && View() == old(View()).(configured := false, entry := map[])
    {
      configured, entry := false, map[];
    }

    method GetMaterial(loads: set<Name>) returns (r: Result<Name, PoolError>)
      requires Valid()
      modifies this
      ensures Valid() && (r, View()) == GetStep(old(View()), loads)
    {
      if !configured {
        return Err(NotConfigured);
      }
      if exists n :: n in entry && entry[n] == StatusProgress {
        return Err(InProgress);
      }
      ghost var p := View();
      var todo := entry.Keys;
      NothingSeen(p);
      while todo != {}
        invariant todo <= p.entry.Keys && configured && files == p.files
        invariant forall m, n :: m in p.entry.Keys - todo && n in todo ==> m.rank < n.rank
        invariant entry == PassedOver(p, p.entry.Keys - todo) && disk == Some(entry)
        invariant forall n :: n in Candidates(p, loads) ==> n in todo
        decreases todo
      {
        LeastExists(todo);
        var n :| IsLeast(n, todo);
        ghost var seen := p.entry.Keys - todo;
        todo := todo - {n};
        assert p.entry.Keys - todo == seen + {n};
        SeenOneMore(p, seen, n);
        if entry[n] != StatusReady {
          continue;
        }
        if !(n in files && files[n]) {
          entry := entry - {n};
          disk := Some(entry);
          continue;
        }
        if n !in loads {
          entry := entry[n := StatusError];
          disk := Some(entry);
          continue;
        }
        assert n in Candidates(p, loads);
        LeastUnique(Candidates(p, loads), n);
        assert seen == Below(p.entry, n);
        entry := entry[n := StatusProgress];
        disk := Some(entry);
        return Ok(n);
      }
      assert p.entry.Keys - todo == p.entry.Keys;
      r := Err(PoolEmpty);
    }

    method SetMaterialState(n: Name, success: bool) returns (r: Option<PoolError>)
      requires Valid()
      modifies this
      ensures Valid() && (r, View()) == SetStep(old(View()), n, success)
    {
      if !configured {
        return Some(NotConfigured);
      }
      if n !in entry {
        return Some(NotFound);
      }
      if entry[n] != StatusProgress {
        return Some(NotInProgress);
      }
      entry := entry[n := if success then StatusConsumed else StatusError];
      disk := Some(entry);
      r := None;
    }

    /** `get_inventory_report`: every entry is counted once, under its status. */
    method Inventory() returns (r: Result<(nat, nat, nat, nat, nat), PoolError>)
      ensures !configured ==> r == Err(NotConfigured)
      ensures configured ==>
        r == Ok((|entry|, Counted(entry, StatusReady), Counted(entry, StatusProgress),
                 Counted(entry, StatusConsumed), Counted(entry, StatusError)))
    {
      if !configured {
        return Err(NotConfigured);
      }
      hide Counted;
      CountNothing();
      var ready, progress, consumed, error := 0, 0, 0, 0;
      var todo := entry.Keys;
      ghost var done: Entries := map[];
      while todo != {}
        invariant todo <= entry.Keys && done.Keys == entry.Keys - todo
        invariant forall n :: n in done ==> done[n] == entry[n]
        invariant ready == Counted(done, StatusReady) && progress == Counted(done, StatusProgress)
        invariant consumed == Counted(done, StatusConsumed) && error == Counted(done, StatusError)
        decreases todo
      {
        var n :| n in todo;
        CountOneMore(done, n, entry[n]);
        match entry[n] {
          case StatusReady => ready := ready + 1;
          case StatusProgress => progress := progress + 1;
          case StatusConsumed => consumed := consumed + 1;
          case StatusError => error := error + 1;
        }
        done := done[n := entry[n]];
        todo := todo - {n};
      }
      SameEntries(done, entry);
      r := Ok((|entry|, ready, progress, consumed, error));
    }
  }

  function Named(e: Entries, status: Status): set<Name> {
    set n | n in e && e[n] == status
  }

  function Counted(e: Entries, status: Status): nat {
    |Named(e, status)|
  }

  lemma CountNothing()
    ensures forall s :: Counted(map[], s) == 0
  {
    forall s ensures Counted(map[], s) == 0 {
      assert Named(map[], s) == {};
    }
  }

  lemma CountOneMore(e: Entries, n: Name, status: Status)
    requires n !in e
    ensures forall s :: Counted(e[n := status], s) == Counted(e, s) + if s == status then 1 else 0
  {
    hide Named;
    forall s ensures Counted(e[n := status], s) == Counted(e, s) + if s == status then 1 else 0 {
      NamedOneMore(e, n, status, s);
    }
  }

  lemma SameEntries(a: Entries, b: Entries)
    requires a.Keys == b.Keys && forall n :: n in a ==> a[n] == b[n]
    ensures a == b
  {
  }

  lemma NamedOneMore(e: Entries, n: Name, status: Status, s: Status)
    requires n !in e
    ensures n !in Named(e, s)
    ensures Named(e[n := status], s) == if s == status then Named(e, s) + {n} else Named(e, s)
  {
  }

  /** The report adds up: the four counts make up the total. */
  lemma InventoryAddsUp(e: Entries)
    ensures |e| ==
      Counted(e, StatusReady) + Counted(e, StatusProgress) + Counted(e, StatusConsumed) + Counted(e, StatusError)
  {
    var a, b := Named(e, StatusReady), Named(e, StatusProgress);
    var c, d := Named(e, StatusConsumed), Named(e, StatusError);
    assert e.Keys == a + b + c + d by {
      forall n | n in e ensures n in a + b + c + d {
        assert e[n] == StatusReady || e[n] == StatusProgress || e[n] == StatusConsumed || e[n] == StatusError;
      }
    }
    assert |a + b| == |a| + |b| && |a + b + c| == |a + b| + |c|;
  }

  lemma NothingSeen(p: Pool)
    ensures PassedOver(p, {}) == p.entry && p.entry.Keys - p.entry.Keys == {}
  {
  }

  /** Looking at one more name changes that name's entry and no other. */
  lemma SeenOneMore(p: Pool, seen: set<Name>, n: Name)
    requires n in p.entry && n !in seen
    ensures var e := PassedOver(p, seen);
      && n in e && e[n] == p.entry[n]
      && PassedOver(p, seen + {n}) ==
           if p.entry[n] != StatusReady then e else if !Complete(p.files, n) then e - {n} else e[n := StatusError]
  {
  }

  lemma LeastUnique(s: set<Name>, n: Name)
    requires IsLeast(n, s)
    ensures Least(s) == n
  {
  }

  // ---------------------------------------------------------------------------
  // Runs

  /** Everything that can happen to a store on one directory. */
  datatype Op =
    | OpLoad | OpUnload | OpRestart
    | OpGet(loads: set<Name>)
    | OpSet(n: Name, success: bool)
    | OpFiles(files: map<Name, bool>)

  ghost function StepPool(p: Pool, op: Op): Pool {
    match op
    case OpLoad => LoadStep(p).1
    case OpRestart => LoadStep(p.(configured := false, entry := map[])).1
    case OpUnload => p.(configured := false, entry := map[])
    case OpGet(loads) => GetStep(p, loads).1
    case OpSet(n, success) => SetStep(p, n, success).1
    case OpFiles(files) => p.(files := files)
  }

  /** The names whose status in stat.json is final: used up, or in error. */
  predicate Final(s: Status) {
    s == StatusConsumed || s == StatusError
  }

  predicate FinalOn(p: Pool, n: Name) {
    p.disk.Some? && n in p.disk.value && Final(p.disk.value[n])
  }

  predicate ConsumedOn(p: Pool, n: Name) {
    p.disk.Some? && n in p.disk.value && p.disk.value[n] == StatusConsumed
  }

  /** stat.json and memory agree. */
  predicate InStep(p: Pool) {
    if p.configured then p.disk == Some(p.entry) else p.entry == map[]
  }

  predicate AtMostOneInProgress(e: Entries) {
    forall m, n :: m in e && n in e && e[m] == StatusProgress && e[n] == StatusProgress ==> m == n
  }

  lemma GetDetails(p: Pool, loads: set<Name>)
    requires InStep(p) && AtMostOneInProgress(p.entry)
    ensures var (r, q) := GetStep(p, loads);
      && InStep(q) && AtMostOneInProgress(q.entry) && q.configured == p.configured
      && (r.Ok? ==> r.value in p.entry && p.entry[r.value] == StatusReady
                    && r.value in q.entry && q.entry[r.value] == StatusProgress)
      && (forall n :: n in p.entry && p.entry[n] != StatusReady ==> n in q.entry && q.entry[n] == p.entry[n])
      && (!p.configured ==> q == p)
  {
    hide Least;
    if p.configured && !AnyInProgress(p.entry) && Candidates(p, loads) != {} {
      var n := Least(Candidates(p, loads));
      assert n in Candidates(p, loads);
      var e := PassedOver(p, Below(p.entry, n))[n := StatusProgress];
      assert forall m :: m in e && m != n ==> m in p.entry && e[m] != StatusProgress;
    }
  }

  // ---------------------------------------------------------------------------
  // Final statuses, name by name

  /** A load that succeeds reads the directory. */
  predicate ReadsDirectory(p: Pool, op: Op) {
    (op.OpLoad? || op.OpRestart?) && exists n :: n in p.files && p.files[n]
  }

  /** One operation: a final status stays final if and only if the name still has a file when the
      directory is read, and a used-up pair stays used up if and only if it is still complete then. */
  lemma FinalStep(p: Pool, op: Op, n: Name)
    requires InStep(p) && AtMostOneInProgress(p.entry)
    ensures InStep(StepPool(p, op)) && AtMostOneInProgress(StepPool(p, op).entry)
    ensures FinalOn(p, n) ==> (FinalOn(StepPool(p, op), n) <==> (ReadsDirectory(p, op) ==> n in p.files))
    ensures ConsumedOn(p, n) ==> (ConsumedOn(StepPool(p, op), n) <==> (ReadsDirectory(p, op) ==> Complete(p.files, n)))
  {
    if op.OpGet? {
      hide GetStep;
      GetDetails(p, op.loads);
    }
  }

  /** The status is final in every state of the run. */
  ghost predicate AlwaysFinal(p: Pool, ops: seq<Op>, n: Name)
    decreases ops
  {
    FinalOn(p, n) && (ops == [] || AlwaysFinal(StepPool(p, ops[0]), ops[1..], n))
  }

  ghost predicate AlwaysConsumed(p: Pool, ops: seq<Op>, n: Name)
    decreases ops
  {
    ConsumedOn(p, n) && (ops == [] || AlwaysConsumed(StepPool(p, ops[0]), ops[1..], n))
  }

  /** Whenever the directory is read, the name has a file in it. */
  ghost predicate ThereAtLoads(p: Pool, ops: seq<Op>, n: Name)
    decreases ops
  {
    ops == [] || ((ReadsDirectory(p, ops[0]) ==> n in p.files) && ThereAtLoads(StepPool(p, ops[0]), ops[1..], n))
  }

  ghost predicate CompleteAtLoads(p: Pool, ops: seq<Op>, n: Name)
    decreases ops
  {
    ops == []
    || ((ReadsDirectory(p, ops[0]) ==> Complete(p.files, n)) && CompleteAtLoads(StepPool(p, ops[0]), ops[1..], n))
  }

  /** Over every run of loads, unloads, restarts, requests, reports and changes of the directory: a status
      that is final, whether it was reported or found in stat.json, is never left if and only if the name
      has a file whenever the directory is read. */
  lemma {:induction false} FinalExact(p: Pool, ops: seq<Op>, n: Name)
    requires InStep(p) && AtMostOneInProgress(p.entry) && FinalOn(p, n)
    ensures AlwaysFinal(p, ops, n) <==> ThereAtLoads(p, ops, n)
    decreases ops
  {
    hide StepPool, FinalOn, ReadsDirectory, InStep, AtMostOneInProgress;
    if ops != [] {
      FinalStep(p, ops[0], n);
      if FinalOn(StepPool(p, ops[0]), n) {
        FinalExact(StepPool(p, ops[0]), ops[1..], n);
      }
    }
  }

  /** And a pair that is used up stays used up if and only if it is complete whenever the directory is
      read. */
  lemma {:induction false} ConsumedExact(p: Pool, ops: seq<Op>, n: Name)
    requires InStep(p) && AtMostOneInProgress(p.entry) && ConsumedOn(p, n)
    ensures AlwaysConsumed(p, ops, n) <==> CompleteAtLoads(p, ops, n)
    decreases ops
  {
    hide StepPool, ConsumedOn, ReadsDirectory, InStep, AtMostOneInProgress, Complete;
    if ops != [] {
      FinalStep(p, ops[0], n);
      if ConsumedOn(StepPool(p, ops[0]), n) {
        ConsumedExact(StepPool(p, ops[0]), ops[1..], n);
      }
    }
  }

  // ---------------------------------------------------------------------------
  // Whole runs

  /** The store with what a run remembers about it: the names handed out since the last load, and the
      names whose status was ever final, before the run or during it. */
  datatype History = History(pool: Pool, handed: set<Name>, spent: set<Name>)

  function FinalNames(p: Pool): set<Name> {
    if p.disk.None? then {} else set n | n in p.disk.value && Final(p.disk.value[n])
  }

  ghost function Apply(h: History, op: Op): History {
    var p := StepPool(h.pool, op);
    var handed :=
      if op.OpLoad? || op.OpRestart? || op.OpUnload? then {}
      else if op.OpGet? && GetStep(h.pool, op.loads).0.Ok? then h.handed + {GetStep(h.pool, op.loads).0.value}
      else h.handed;
    History(p, handed, h.spent + FinalNames(p))
  }

  ghost function ApplyAll(h: History, ops: seq<Op>): History
    decreases ops
  {
    if ops == [] then h else ApplyAll(Apply(h, ops[0]), ops[1..])
  }

  /** The guard of a load that loses nothing: every name that was ever final still has a file in the
      directory. */
  ghost predicate Guarded(h: History, op: Op) {
    ReadsDirectory(h.pool, op) ==> h.spent <= h.pool.files.Keys
  }

  ghost predicate GuardedRun(h: History, ops: seq<Op>)
    decreases ops
  {
    ops == [] || (Guarded(h, ops[0]) && GuardedRun(Apply(h, ops[0]), ops[1..]))
  }

  /** What every run keeps. */
  ghost predicate Safe(h: History) {
    && InStep(h.pool)
    && AtMostOneInProgress(h.pool.entry)
    && (forall n :: n in h.handed ==> n in h.pool.entry && h.pool.entry[n] != StatusReady)
    && (forall n :: n in h.spent <==> FinalOn(h.pool, n))
  }

  lemma ApplySafe(h: History, op: Op)
    requires Safe(h) && Guarded(h, op)
    ensures Safe(Apply(h, op))
    ensures op.OpGet? && GetStep(h.pool, op.loads).0.Ok? ==>
      GetStep(h.pool, op.loads).0.value !in h.spent && GetStep(h.pool, op.loads).0.value !in h.handed
  {
    hide GetStep, StepPool;
    forall n ensures n in Apply(h, op).spent <==> FinalOn(Apply(h, op).pool, n) {
      FinalStep(h.pool, op, n);
    }
    HandedStays(h, op);
    if op.OpGet? {
      GetDetails(h.pool, op.loads);
    }
  }

  lemma HandedStays(h: History, op: Op)
    requires Safe(h)
    ensures InStep(StepPool(h.pool, op)) && AtMostOneInProgress(StepPool(h.pool, op).entry)
    ensures var t := Apply(h, op); forall n :: n in t.handed ==> n in t.pool.entry && t.pool.entry[n] != StatusReady
  {
    FinalStep(h.pool, op, Name(0));
    if op.OpGet? {
      hide GetStep;
      GetDetails(h.pool, op.loads);
    }
  }

  /** Over every run of loads, restarts, requests and reports, with the directory changing in between,
      as long as no load finds the files of a final name gone: at most one pair is in progress, stat.json
      is the memory, nothing handed out since the last load is ready again, and the final names are all
      those that ever were. */
  lemma {:induction false} RunSafe(h: History, ops: seq<Op>)
    requires Safe(h) && GuardedRun(h, ops)
    ensures Safe(ApplyAll(h, ops))
    decreases ops
  {
    hide Safe, Guarded, Apply;
    if ops != [] {
      ApplySafe(h, ops[0]);
      RunSafe(Apply(h, ops[0]), ops[1..]);
    }
  }

  /** And so, after any such run, the next request hands out no pair that was ever used up or in error,
      before the run or during it, nor anything already handed out since the last load. */
  lemma NeverTwice(h: History, ops: seq<Op>, loads: set<Name>)
    requires Safe(h) && GuardedRun(h, ops)
    ensures var t := ApplyAll(h, ops);
      GetStep(t.pool, loads).0.Ok? ==>
        GetStep(t.pool, loads).0.value !in t.spent && GetStep(t.pool, loads).0.value !in t.handed
    ensures h.spent <= ApplyAll(h, ops).spent
  {
    hide GetStep, Safe;
    RunSafe(h, ops);
    ApplySafe(ApplyAll(h, ops), OpGet(loads));
    SpentGrows(h, ops);
  }

  lemma {:induction false} SpentGrows(h: History, ops: seq<Op>)
    ensures h.spent <= ApplyAll(h, ops).spent
    decreases ops
  {
    if ops != [] {
      SpentGrows(Apply(h, ops[0]), ops[1..]);
    }
  }

  /** A process start over any directory and any stat.json is a safe beginning, with every final name of
      the new stat.json remembered. */
  lemma FreshStoreSafe(files: map<Name, bool>, disk: Option<Entries>)
    ensures var p := LoadStep(Pool(false, map[], disk, files)).1; Safe(History(p, {}, FinalNames(p)))
  {
  }

  /** A report that succeeds makes the name final. */
  lemma ReportIsFinal(p: Pool, n: Name, success: bool)
    requires InStep(p) && SetStep(p, n, success).0.None?
    ensures FinalOn(SetStep(p, n, success).1, n) && !FinalOn(p, n)
    ensures ConsumedOn(SetStep(p, n, success).1, n) <==> success
  {
  }

  /** The guard is exact: a load that succeeds keeps a final status final if and only if the name still
      has a file. */
  lemma FinalIffStillThere(p: Pool, n: Name)
    requires p.disk.Some? && n in p.disk.value && Final(p.disk.value[n]) && LoadStep(p).0.None?
    ensures (n in LoadStep(p).1.entry && Final(LoadStep(p).1.entry[n])) <==> n in p.files
  {
  }

  /** What happens otherwise: a pair used up, whose files are away during one load and back for the
      next, is ready again. */
  lemma ForgottenWhenAway(p: Pool, away: map<Name, bool>, back: map<Name, bool>, n: Name)
    requires n !in away && LoadStep(p.(files := away)).0.None?
    requires Complete(back, n)
    ensures var q := StepPool(StepPool(StepPool(StepPool(p, OpFiles(away)), OpLoad), OpFiles(back)), OpLoad);
      n in q.entry && q.entry[n] == StatusReady
  {
  }

  /** A pair in progress does not survive a load or a restart: it is ready again. */
  lemma ProgressForgotten(p: Pool, n: Name)
    requires InStep(p) && p.configured && n in p.entry && p.entry[n] == StatusProgress && Complete(p.files, n)
    ensures LoadStep(p).0.None? && LoadStep(p).1.entry[n] == StatusReady
    ensures LoadStep(p.(configured := false, entry := map[])).1.entry[n] == StatusReady
  {
  }

  // ---------------------------------------------------------------------------
  // What every load makes of every name, and how long a pair stays ready

  /** A load that succeeds sorts the names in the directory: ready are the complete pairs that are not final,
      used up the complete ones that were, in error the rest; none is in progress, and no other name is
      known. */
  lemma LoadExact(p: Pool, n: Name)
    requires LoadStep(p).0.None?
    ensures var e := LoadStep(p).1.entry;
      && (n in e <==> n in p.files)
      && (n in e ==>
            && (e[n] == StatusReady <==> Complete(p.files, n) && !FinalOn(p, n))
            && (e[n] == StatusConsumed <==> Complete(p.files, n) && ConsumedOn(p, n))
            && e[n] != StatusProgress)
  {
  }

  /** It succeeds if and only if there is a complete pair; and otherwise nothing is known, and stat.json is
      left alone, or created empty. */
  lemma LoadSucceedsExact(p: Pool)
    ensures LoadStep(p).0.None? <==> exists n :: Complete(p.files, n)
    ensures var q := LoadStep(p).1;
      if LoadStep(p).0.None? then q == p.(configured := true, entry := q.entry, disk := Some(q.entry))
      else
        && LoadStep(p).0 == Some(NoCompletePair)
        && q == p.(configured := false, entry := map[], disk := if p.disk.Some? then p.disk else Some(map[]))
  {
    if LoadStep(p).0.None? {
      var n :| n in p.files && p.files[n];
      assert Complete(p.files, n);
    }
  }

  predicate ReadyOn(p: Pool, n: Name) {
    p.disk.Some? && n in p.disk.value && p.disk.value[n] == StatusReady
  }

  /** A request looks at `n`: no request is open, and no usable pair comes before it. */
  predicate Reached(p: Pool, loads: set<Name>, n: Name) {
    && p.configured && !AnyInProgress(p.entry)
    && forall m :: m in Candidates(p, loads) ==> n.rank <= m.rank
  }

  /** What a request does to a ready pair that it does not look at, and to one that it does: it hands it out
      if it is complete and can be loaded, and otherwise drops it or marks it. */
  lemma RequestExact(p: Pool, loads: set<Name>, n: Name)
    requires InStep(p) && n in p.entry && p.entry[n] == StatusReady
    ensures var (r, q) := GetStep(p, loads);
      && (r == Ok(n) <==> Reached(p, loads, n) && Complete(p.files, n) && n in loads)
      && (if !Reached(p, loads, n) then n in q.entry && q.entry[n] == StatusReady
          else if !Complete(p.files, n) then n !in q.entry
          else n in q.entry && q.entry[n] == if n in loads then StatusProgress else StatusError)
  {
    hide Least;
    assert n in Candidates(p, loads) <==> Complete(p.files, n) && n in loads;
    if p.configured && !AnyInProgress(p.entry) && Candidates(p, loads) != {} {
      var least := Least(Candidates(p, loads));
      assert IsLeast(least, Candidates(p, loads));
      assert Reached(p, loads, n) <==> n.rank <= least.rank;
      assert n.rank == least.rank ==> n == least;
    }
  }

  /** An operation after which a ready pair is no longer ready: a load that does not find it complete, or a
      request that looks at it. */
  predicate Touches(p: Pool, op: Op, n: Name) {
    || (ReadsDirectory(p, op) && !Complete(p.files, n))
    || (op.OpGet? && Reached(p, op.loads, n))
  }

  lemma ReadyStep(p: Pool, op: Op, n: Name)
    requires InStep(p) && ReadyOn(p, n)
    ensures ReadyOn(StepPool(p, op), n) <==> !Touches(p, op, n)
  {
    if op.OpGet? && p.configured {
      hide GetStep, Reached;
      RequestExact(p, op.loads, n);
      GetKeepsInStep(p, op.loads);
    }
  }

  lemma GetKeepsInStep(p: Pool, loads: set<Name>)
    requires InStep(p)
    ensures InStep(GetStep(p, loads).1) && GetStep(p, loads).1.configured == p.configured
  {
    hide Least;
  }

  ghost predicate AlwaysReady(p: Pool, ops: seq<Op>, n: Name)
    decreases ops
  {
    ReadyOn(p, n) && (ops == [] || AlwaysReady(StepPool(p, ops[0]), ops[1..], n))
  }

  ghost predicate NeverTouched(p: Pool, ops: seq<Op>, n: Name)
    decreases ops
  {
    ops == [] || (!Touches(p, ops[0], n) && NeverTouched(StepPool(p, ops[0]), ops[1..], n))
  }

  /** Over every run: a pair that is ready stays so if and only if no load finds it incomplete and no request
      looks at it. */
  lemma {:induction false} ReadyExact(p: Pool, ops: seq<Op>, n: Name)
    requires InStep(p) && AtMostOneInProgress(p.entry) && ReadyOn(p, n)
    ensures AlwaysReady(p, ops, n) <==> NeverTouched(p, ops, n)
    decreases ops
  {
    hide StepPool, ReadyOn, Touches, InStep, AtMostOneInProgress;
    if ops != [] {
      FinalStep(p, ops[0], n);
      ReadyStep(p, ops[0], n);
      if ReadyOn(StepPool(p, ops[0]), n) {
        ReadyExact(StepPool(p, ops[0]), ops[1..], n);
      }
    }
  }

  /** And what it is once a request has looked at it: if it was complete, it was handed out, or its material
      could not be loaded and it is in error. */
  lemma RequestedOrBroken(p: Pool, op: Op, n: Name)
    requires InStep(p) && p.configured && ReadyOn(p, n) && op.OpGet? && Reached(p, op.loads, n) && Complete(p.files, n)
    ensures if n in op.loads then GetStep(p, op.loads).0 == Ok(n) else FinalOn(StepPool(p, op), n)
  {
    hide GetStep, Reached;
    RequestExact(p, op.loads, n);
    GetKeepsInStep(p, op.loads);
  }

  /** Any number of process starts and loads in between leave it ready, as long as it is complete. */
  lemma {:induction false} RestartsHarmless(p: Pool, ops: seq<Op>, n: Name)
    requires InStep(p) && ReadyOn(p, n) && CompleteAtLoads(p, ops, n)
    requires forall i :: 0 <= i < |ops| ==> !ops[i].OpGet?
    ensures AlwaysReady(p, ops, n)
    decreases ops
  {
    hide ReadyOn, InStep, Complete;
    if ops != [] {
      ReadyStep(p, ops[0], n);
      InStepStays(p, ops[0]);
      RestartsHarmless(StepPool(p, ops[0]), ops[1..], n);
    }
  }

  lemma InStepStays(p: Pool, op: Op)
    requires InStep(p)
    ensures InStep(StepPool(p, op))
  {
    if op.OpGet? {
      hide GetStep;
      GetKeepsInStep(p, op.loads);
    }
  }

  /** A request is refused if and only if there is no pool, a pair is in progress, or no ready pair is usable,
      and a report if and only if there is no pool, or the name is unknown, or not in progress; the error tells
      which, and a refused report, like a request blocked by a pair in progress, changes nothing. */
  lemma RefusalsExact(p: Pool, loads: set<Name>, n: Name, success: bool)
    requires InStep(p)
    ensures var (r, q) := GetStep(p, loads);
      && (r == Err(NotConfigured) <==> !p.configured)
      && (r == Err(InProgress) <==> p.configured && exists m :: m in p.entry && p.entry[m] == StatusProgress)
      && (r == Err(PoolEmpty) <==> p.configured && (forall m :: m in p.entry ==> p.entry[m] != StatusProgress)
                                   && forall m :: m in p.entry && p.entry[m] == StatusReady ==>
                                        !(Complete(p.files, m) && m in loads))
      && (r.Err? ==> r.error in {NotConfigured, InProgress, PoolEmpty}) && (r.Err? && r.error != PoolEmpty ==> q == p)
    ensures var (e, q) := SetStep(p, n, success);
      && (e == Some(NotConfigured) <==> !p.configured)
      && (e == Some(NotFound) <==> p.configured && n !in p.entry)
      && (e == Some(NotInProgress) <==> n in p.entry && p.entry[n] != StatusProgress)
      && (e.Some? ==> e.value in {NotConfigured, NotFound, NotInProgress} && q == p)
      && (forall m :: m != n ==> (m in q.entry <==> m in p.entry) && (m in p.entry ==> q.entry[m] == p.entry[m]))
  {
    hide Least;
    assert Candidates(p, loads) == {} <==> (forall m :: m in p.entry && p.entry[m] == StatusReady ==>
                                        !(Complete(p.files, m) && m in loads)) by {
      assert forall m :: m in p.entry && p.entry[m] == StatusReady && Complete(p.files, m) && m in loads ==>
        m in Candidates(p, loads);
      assert forall m :: m in Candidates(p, loads) ==> m in p.entry && p.entry[m] == StatusReady;
    }
  }
}
