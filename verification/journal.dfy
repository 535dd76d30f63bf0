/** The durable enrollment sequence, over files that can fail, tear and crash at every operation. */
module Journals {
  import opened Wrappers
  import opened Bytes
  import opened Descriptors
  import opened JournalText

  // ----- files -----

  datatype FileName = LogFile | PendingFile

  /** What was written, what of it is durable, and whether the directory entry is. */
  datatype FileState = Absent | Present(written: Bytes, durable: Bytes, linked: bool)

  /** How one operation of the file system turns out. */
  datatype Fault = Works | Fails | Tears(kept: nat)

  /** How the i-th operation from here turns out; past the end of the list every one works. */
  function FaultAt(faults: seq<Fault>, i: nat): Fault { if i < |faults| then faults[i] else Works }

  /** The faults left after n operations. */
  function After(faults: seq<Fault>, n: nat): seq<Fault> { if n <= |faults| then faults[n..] else [] }

  predicate AllWork(faults: seq<Fault>, n: nat) { forall i :: 0 <= i < n ==> FaultAt(faults, i).Works? }

  lemma WorkOn(faults: seq<Fault>, n: nat, m: nat)
    ensures AllWork(faults, n + m) <==> AllWork(faults, n) && AllWork(After(faults, n), m)
    ensures After(After(faults, n), m) == After(faults, n + m)
  {
    assert forall i :: 0 <= i < m ==> FaultAt(After(faults, n), i) == FaultAt(faults, n + i);
    if AllWork(faults, n) && AllWork(After(faults, n), m) {
      forall i | 0 <= i < n + m ensures FaultAt(faults, i).Works? {
        if i >= n {
          assert FaultAt(After(faults, n), i - n).Works?;
        }
      }
    }
  }

  /** What a write leaves in the file. */
  function Kept(fault: Fault, bytes: Bytes): (kept: Bytes)
    ensures kept <= bytes
  {
    match fault
    case Works => bytes
    case Fails => []
    case Tears(n) => if n < |bytes| then bytes[..n] else bytes
  }

  lemma WorkingWrite(faults: seq<Fault>, bytes: Bytes)
    requires AllWork(faults, 1)
    ensures Kept(FaultAt(faults, 0), bytes) == bytes
  {}

  /** The state between two operations: both files, and how far the storage adapter got. */
  datatype Snapshot = Snapshot(files: map<FileName, FileState>, called: bool, added: bool)

  /** What a reader may find of a file after a crash in this state. */
  predicate Survives(file: FileState, found: Option<Bytes>) {
    match file
    case Absent => found.None?
    case Present(written, durable, linked) =>
      match found
      case None => !linked
      case Some(bytes) => durable <= bytes <= written
  }

  datatype LuksError = PartialEnrollment | OtherError

  datatype JournalError = IoError | PreparationFailed | StorageError(error: LuksError) | CommittedButUnjournaled

  /** The file system and the storage adapter, with the history of all states between operations. */
  class Disk {
    var files: map<FileName, FileState>
    var faults: seq<Fault>
    var called: bool
    var added: bool
    ghost var history: seq<Snapshot>

    ghost predicate Valid()
      reads this
    {
      LogFile in files && PendingFile in files
    }

    ghost function Current(): Snapshot
      reads this
    {
      Snapshot(files, called, added)
    }

    constructor (files: map<FileName, FileState>, faults: seq<Fault>)
      requires LogFile in files && PendingFile in files
      ensures Valid() && Current() == Snapshot(files, false, false) && this.faults == faults && history == [Current()]
    {
      this.files, this.faults, called, added := files, faults, false, false;
      history := [Snapshot(files, false, false)];
    }

    method NextFault() returns (fault: Fault)
      requires Valid()
      modifies this`faults
      ensures fault == FaultAt(old(faults), 0) && faults == After(old(faults), 1)
    {
      fault := Works;
      if faults != [] {
        fault, faults := faults[0], faults[1..];
      }
    }

    /** Create a new file; an existing one is never opened. */
    method Create(name: FileName) returns (ok: bool)
      requires Valid()
      modifies this
      ensures Valid() && called == old(called) && added == old(added) && history == old(history) + [Current()]
      ensures faults == After(old(faults), 1)
      ensures ok <==> AllWork(old(faults), 1) && old(files)[name].Absent?
      ensures files == if ok then old(files)[name := Present([], [], false)] else old(files)
    {
      var fault := NextFault();
      ok := fault.Works? && files[name].Absent?;
      if ok {
        files := files[name := Present([], [], false)];
      }
      history := history + [Current()];
    }

    /** Append; a failing write may leave any prefix of the bytes. */
    method Write(name: FileName, bytes: Bytes) returns (ok: bool)
      requires Valid() && files[name].Present?
      modifies this
      ensures Valid() && called == old(called) && added == old(added) && history == old(history) + [Current()]
      ensures faults == After(old(faults), 1)
      ensures ok <==> AllWork(old(faults), 1)
      ensures files == old(files)[name := old(files)[name].(written := old(files)[name].written + Kept(FaultAt(old(faults), 0), bytes))]
    {
      var fault := NextFault();
      var kept := Kept(fault, bytes);
      ok := fault.Works?;
      files := files[name := files[name].(written := files[name].written + kept)];
      history := history + [Current()];
    }

    method SyncFile(name: FileName) returns (ok: bool)
      requires Valid() && files[name].Present?
      modifies this
      ensures Valid() && called == old(called) && added == old(added) && history == old(history) + [Current()]
      ensures faults == After(old(faults), 1)
      ensures ok <==> AllWork(old(faults), 1)
      ensures files == if ok then old(files)[name := old(files)[name].(durable := old(files)[name].written)] else old(files)
    {
      var fault := NextFault();
      ok := fault.Works?;
      if ok {
        files := files[name := files[name].(durable := files[name].written)];
      }
      history := history + [Current()];
    }

    method SyncDirectory(name: FileName) returns (ok: bool)
      requires Valid() && files[name].Present?
      modifies this
      ensures Valid() && called == old(called) && added == old(added) && history == old(history) + [Current()]
      ensures faults == After(old(faults), 1)
      ensures ok <==> AllWork(old(faults), 1)
      ensures files == if ok then old(files)[name := old(files)[name].(linked := true)] else old(files)
    {
      var fault := NextFault();
      ok := fault.Works?;
      if ok {
        files := files[name := files[name].(linked := true)];
      }
      history := history + [Current()];
    }

    /** The storage adapter changes the volume; `outcome` is what it reports. */
    method Add(outcome: Result<int, LuksError>) returns (result: Result<int, LuksError>)
      requires Valid()
      modifies this
      ensures Valid() && result == outcome && files == old(files) && faults == old(faults) && called && added == (old(added) || outcome.Success?)
      ensures history == old(history) + [Snapshot(old(files), true, old(added)), Current()]
    {
      called := true;
      history := history + [Current()];
      added := added || outcome.Success?;
      history := history + [Current()];
      result := outcome;
    }
  }

  // ----- the invariant between any two operations -----

  /** The log holds a prefix of the records, nothing of the fourth before the storage adapter succeeded; and the adapter
      was called only with the first three records and the pending bundle durable. */
  predicate Safe(p: JournalPlan, envelope: Bytes, s: Snapshot) {
    && LogFile in s.files && PendingFile in s.files
    && LogSafe(p, s.files[LogFile], if s.added then 4 else 3)
    && (s.called ==> LogThrough(p, s.files[LogFile], 3) && s.files[PendingFile] == Present(envelope, envelope, true))
    && (s.added ==> s.called)
  }

  predicate LogSafe(p: JournalPlan, log: FileState, n: nat)
    requires n <= 4
  {
    log.Present? ==> log.durable <= log.written <= Log(p, n)
  }

  /** The first n records are durable, and so is the directory entry. */
  predicate LogThrough(p: JournalPlan, log: FileState, n: nat)
    requires n <= 4
  {
    log.Present? && Log(p, n) <= log.durable && log.linked
  }

  predicate AllSafe(p: JournalPlan, envelope: Bytes, history: seq<Snapshot>) {
    forall i :: 0 <= i < |history| ==> Safe(p, envelope, history[i])
  }

  /** After a crash in any safe state: the journal reads as committed only if the storage adapter had succeeded, and once
      the adapter was called the pending bundle is on disk and the journal too, with its first three records. */
  lemma CrashSafe(p: JournalPlan, envelope: Bytes, s: Snapshot, log: Option<Bytes>, pending: Option<Bytes>)
    requires JsonLaws(p.json) && Readable(p, 4) && Safe(p, envelope, s)
    requires Survives(s.files[LogFile], log) && Survives(s.files[PendingFile], pending)
    ensures log.Some? && Committed(p.json, log.value) == Some(true) ==> s.added
    ensures s.called ==> pending == Some(envelope) && log.Some? && Log(p, 3) <= log.value <= Log(p, 4)
    ensures log.Some? ==> log.value <= Log(p, 4) && (Committed(p.json, log.value) == Some(true) <==> log.value == Log(p, 4))
  {
    hide Committed, JsonLaws, Log, Readable;
    LogGrows(p, 3, 4);
    if log.Some? {
      PrefixReads(p, log.value);
    }
    if s.called {
      Squeezed(envelope, pending.value);
    }
  }

  lemma PrefixReads(p: JournalPlan, bytes: Bytes)
    requires JsonLaws(p.json) && Readable(p, 4) && bytes <= Log(p, 4)
    ensures Committed(p.json, bytes) == Some(true) <==> bytes == Log(p, 4)
  {
    hide Committed, JsonLaws, Log, Readable;
    assert bytes == Log(p, 4)[..|bytes|];
    CutJournal(p, 4, |bytes|);
  }

  lemma Squeezed(a: Bytes, b: Bytes)
    requires a <= b <= a
    ensures a == b
  {}

  // ----- the journal -----

  datatype StorageState = NotApplicable | NotMutated | PendingReconciliation | StorageCommitted | StorageUnknown

  class Operation {
    var storage: StorageState
    var awaitingBootTest: bool

    constructor (storage: StorageState)
      ensures this.storage == storage && !awaitingBootTest
    {
      this.storage, awaitingBootTest := storage, false;
    }

    method SetStorage(state: StorageState)
      modifies this
      ensures storage == state && awaitingBootTest == old(awaitingBootTest)
    {
      storage := state;
    }

    method SetCommitted()
      modifies this
      ensures storage == StorageCommitted && awaitingBootTest
    {
      storage, awaitingBootTest := StorageCommitted, true;
    }
  }

  /** The journal between records: exactly n of them, written, durable and linked. */
  predicate Holds(p: JournalPlan, log: FileState, n: nat)
    requires n <= 4
  {
    log == Present(Log(p, n), Log(p, n), true)
  }

  /** `t` differs from `s` only in the log, which holds no more than `limit`. */
  predicate LogOnly(s: Snapshot, t: Snapshot, limit: Bytes) {
    && LogFile in s.files && LogFile in t.files && t.files[LogFile].Present?
    && t == s.(files := s.files[LogFile := t.files[LogFile]])
    && t.files[LogFile].durable <= t.files[LogFile].written <= limit
  }

  /** Every later state differs from `s` only in the log. */
  predicate LogOnlySince(s: Snapshot, before: seq<Snapshot>, after: seq<Snapshot>, limit: Bytes) {
    before <= after && forall i :: |before| <= i < |after| ==> LogOnly(s, after[i], limit)
  }

  class EnrollmentJournal {
    const disk: Disk
    const json: Json
    const path: string

    constructor (disk: Disk, json: Json, path: string)
      ensures this.disk == disk && this.json == json && this.path == path
    {
      this.disk, this.json, this.path := disk, json, path;
    }

    /** Append record `k` of the plan to a log that holds the ones before it; on failure only a part of it. */
    method Record(bytes: Bytes, ghost p: JournalPlan, ghost envelope: Bytes, ghost k: nat) returns (ok: bool)
      requires k < 4 && bytes == RecordBytes(p, k) && Appendable(p, envelope, k)
      modifies disk
      ensures disk.Valid() && disk.called == old(disk.called) && disk.added == old(disk.added)
      ensures old(disk.history) <= disk.history && AllSafe(p, envelope, disk.history) && Safe(p, envelope, disk.Current())
      ensures LogOnlySince(old(disk.Current()), old(disk.history), disk.history, Log(p, k + 1))
      ensures LogOnly(old(disk.Current()), disk.Current(), Log(p, k + 1))
      ensures disk.files[PendingFile] == old(disk.files[PendingFile])
      ensures disk.history != [] && disk.history[|disk.history| - 1] == disk.Current()
      ensures (ok <==> AllWork(old(disk.faults), 1)) && disk.faults == After(old(disk.faults), 1)
      ensures ok ==> disk.files[LogFile] == old(disk.files[LogFile]).(written := Log(p, k + 1))
    {
      hide RecordBytes, After;
      ok := disk.Write(LogFile, bytes + [NEWLINE]);
      ghost var kept := Kept(FaultAt(old(disk.faults), 0), Line(p, k));
      AppendSafe(p, envelope, k, old(disk.Current()), disk.Current(), kept);
    }

    /** Append identity record k and make it durable. */
    method Phase(phase: string, d: Descriptor, ghost p: JournalPlan, ghost envelope: Bytes, ghost k: nat) returns (ok: bool)
      requires k < 4 && k != 1 && phase == PHASES[k] && p.json == json && p.descriptor == d && Appendable(p, envelope, k)
      modifies disk
      ensures disk.Valid() && disk.called == old(disk.called) && disk.added == old(disk.added)
      ensures old(disk.history) <= disk.history && AllSafe(p, envelope, disk.history) && Safe(p, envelope, disk.Current())
      ensures LogOnlySince(old(disk.Current()), old(disk.history), disk.history, Log(p, k + 1))
      ensures disk.files[PendingFile] == old(disk.files[PendingFile])
      ensures disk.history != [] && disk.history[|disk.history| - 1] == disk.Current()
      ensures ok <==> AllWork(old(disk.faults), 2)
      ensures ok ==> disk.faults == After(old(disk.faults), 2)
      ensures ok ==> disk.files[LogFile] == old(disk.files[LogFile]).(written := Log(p, k + 1), durable := Log(p, k + 1))
    {
      hide Log, IdentityOf, Safe, LogOnly, AllWork, After;
      WorkOn(disk.faults, 1, 1);
      ok := Record(json.putIdentity(IdentityOf(phase, d)), p, envelope, k);
      if !ok {
        return;
      }
      ghost var s := disk.Current();
      ok := disk.SyncFile(LogFile);
      SyncSafe(p, envelope, s, disk.Current());
      SyncLogOnly(old(disk.Current()), s, disk.Current(), Log(p, k + 1));
    }

    /** Write the signed bundle and make it and its directory entry durable. */
    method SavePending(envelope: Bytes, ghost p: JournalPlan) returns (ok: bool)
      requires disk.Valid() && !disk.called && AllSafe(p, envelope, disk.history) && Safe(p, envelope, disk.Current())
      modifies disk
      ensures disk.Valid() && !disk.called && disk.added == old(disk.added) && disk.files[LogFile] == old(disk.files[LogFile])
      ensures old(disk.history) <= disk.history && AllSafe(p, envelope, disk.history) && Safe(p, envelope, disk.Current())
      ensures old(disk.files)[PendingFile].Present? ==> !ok && disk.files == old(disk.files)
      ensures ok <==> old(disk.files)[PendingFile].Absent? && AllWork(old(disk.faults), 4)
      ensures ok ==> disk.files[PendingFile] == Present(envelope, envelope, true) && disk.faults == After(old(disk.faults), 4)
    {
      hide LogSafe, LogThrough, After, AllWork, Kept;
      WorkOn(disk.faults, 1, 1);
      WorkOn(disk.faults, 2, 1);
      WorkOn(disk.faults, 3, 1);
      ok := disk.Create(PendingFile);
      if !ok {
        return;
      }
      ok := disk.Write(PendingFile, envelope);
      if !ok {
        return;
      }
      WorkingWrite(After(old(disk.faults), 1), envelope);
      assert [] + envelope == envelope;
      ok := disk.SyncFile(PendingFile);
      if !ok {
        return;
      }
      ok := disk.SyncDirectory(PendingFile);
    }

    /** Everything that must be durable before the storage adapter may be called: the bundle and two more records. */
    method Stage(d: Descriptor, envelope: Bytes, hash: Bytes48) returns (ok: bool)
      requires var p := JournalPlan(json, d, path, hash);
               && disk.Valid() && AllSafe(p, envelope, disk.history) && Safe(p, envelope, disk.Current())
               && Holds(p, disk.files[LogFile], 1) && !disk.called && !disk.added
      modifies disk
      ensures var p := JournalPlan(json, d, path, hash);
              && disk.Valid() && old(disk.history) <= disk.history && AllSafe(p, envelope, disk.history) && Safe(p, envelope, disk.Current())
              && !disk.called && !disk.added
              && (ok ==> Holds(p, disk.files[LogFile], 3) && disk.files[PendingFile] == Present(envelope, envelope, true))
      ensures old(disk.files)[PendingFile].Present? ==> disk.files == old(disk.files)
      ensures ok <==> old(disk.files)[PendingFile].Absent? && AllWork(old(disk.faults), 7)
      ensures ok ==> disk.faults == After(old(disk.faults), 7)
    {
      hide Log, Safe, RecordBytes, LogOnlySince, LogOnly, AllSafe, After, AllWork;
      ghost var p := JournalPlan(json, d, path, hash);
      WorkOn(disk.faults, 4, 1);
      WorkOn(disk.faults, 5, 2);
      ok := SavePending(envelope, p);
      if !ok {
        return;
      }
      BundleBytes(p);
      ok := Record(json.putBundle(BundleRecord(PHASES[1], path, Hex(hash))), p, envelope, 1);
      if !ok {
        return;
      }
      ok := Phase(PHASES[2], d, p, envelope, 2);
    }

    /** The pending bundle, two more records, the storage adapter, the last record. Whatever fails, and wherever it stops,
        every state on the way is safe; the reported storage state is committed exactly when the adapter succeeded. Seven
        operations come before the adapter and two after it, and which of them fails decides the result. */
    method Commit(d: Descriptor, envelope: Bytes, hash: Bytes48, outcome: Result<int, LuksError>, observed: Operation)
      returns (result: Result<int, JournalError>)
      requires var p := JournalPlan(json, d, path, hash);
               && disk.Valid() && AllSafe(p, envelope, disk.history) && Safe(p, envelope, disk.Current())
               && Holds(p, disk.files[LogFile], 1) && !disk.called && !disk.added
      modifies disk, observed
      ensures disk.Valid() && old(disk.history) <= disk.history && AllSafe(JournalPlan(json, d, path, hash), envelope, disk.history)
      ensures Ended(result, outcome, disk.Current(), observed.storage, observed.awaitingBootTest, old(observed.storage), old(observed.awaitingBootTest))
      ensures result.Success? ==> Holds(JournalPlan(json, d, path, hash), disk.files[LogFile], 4)
      ensures old(disk.files)[PendingFile].Present? ==> disk.files == old(disk.files)
      ensures result == Failure(IoError) <==> old(disk.files)[PendingFile].Present? || !AllWork(old(disk.faults), 7)
      ensures outcome.Failure? && result != Failure(IoError) ==> result == Failure(StorageError(outcome.error))
      ensures outcome.Success? && result != Failure(IoError) ==>
                result == if AllWork(old(disk.faults), 9) then Success(outcome.value) else Failure(CommittedButUnjournaled)
    {
      hide Log, Safe, RecordBytes, LogOnlySince, LogOnly, AllSafe, After, AllWork;
      ghost var p := JournalPlan(json, d, path, hash);
      WorkOn(disk.faults, 7, 2);
      var ok := Stage(d, envelope, hash);
      if !ok {
        return Failure(IoError);
      }
      observed.SetStorage(PendingReconciliation);
      CallSafe(p, envelope, disk.Current(), outcome.Success?, disk.history);
      var token := disk.Add(outcome);
      if token.Failure? {
        if !token.error.PartialEnrollment? {
          observed.SetStorage(NotMutated);
        }
        return Failure(StorageError(token.error));
      }
      observed.SetCommitted();
      ok := Phase(PHASES[3], d, p, envelope, 3);
      result := if ok then Success(token.value) else Failure(CommittedButUnjournaled);
    }

    /** Record k may be appended: the log holds the earlier ones and the fourth waits for the storage adapter. */
    ghost predicate Appendable(p: JournalPlan, envelope: Bytes, k: nat)
      requires k < 4
      reads disk
    {
      && disk.Valid() && AllSafe(p, envelope, disk.history) && Safe(p, envelope, disk.Current())
      && disk.files[LogFile].Present? && disk.files[LogFile].written == Log(p, k) && (k == 3 ==> disk.added)
    }
  }

  /** The state after appending a part of line k is safe. */
  lemma AppendSafe(p: JournalPlan, envelope: Bytes, k: nat, s: Snapshot, s': Snapshot, kept: Bytes)
    requires k < 4 && Safe(p, envelope, s) && s.files[LogFile].Present? && s.files[LogFile].written == Log(p, k) && (k == 3 ==> s.added)
    requires kept <= Line(p, k)
    requires s' == s.(files := s.files[LogFile := s.files[LogFile].(written := Log(p, k) + kept)])
    ensures Safe(p, envelope, s')
    ensures kept == Line(p, k) ==> s'.files[LogFile].written == Log(p, k + 1)
  {
    hide RecordBytes;
    LogGrows(p, k + 1, if s.added then 4 else 3);
  }

  lemma SyncSafe(p: JournalPlan, envelope: Bytes, s: Snapshot, s': Snapshot)
    requires Safe(p, envelope, s) && s.files[LogFile].Present?
    requires s' == s || s' == s.(files := s.files[LogFile := s.files[LogFile].(durable := s.files[LogFile].written)])
    ensures Safe(p, envelope, s')
  {
    hide Log;
  }

  lemma SyncLogOnly(s: Snapshot, t: Snapshot, u: Snapshot, limit: Bytes)
    requires LogOnly(s, t, limit)
    requires u == t || u == t.(files := t.files[LogFile := t.files[LogFile].(durable := t.files[LogFile].written)])
    ensures LogOnly(s, u, limit)
  {}

  lemma BundleBytes(p: JournalPlan)
    ensures RecordBytes(p, 1) == p.json.putBundle(BundleRecord(PHASES[1], p.path, Hex(p.hash)))
  {}

  /** With three records and the bundle durable, the storage adapter may be called and may report either way. */
  lemma CallSafe(p: JournalPlan, envelope: Bytes, s: Snapshot, success: bool, history: seq<Snapshot>)
    requires AllSafe(p, envelope, history)
    requires Safe(p, envelope, s) && Holds(p, s.files[LogFile], 3) && s.files[PendingFile] == Present(envelope, envelope, true)
    ensures Safe(p, envelope, s.(called := true, added := s.added || success))
    ensures AllSafe(p, envelope, history + [s.(called := true), s.(called := true, added := s.added || success)])
  {
    hide Log;
    LogGrows(p, 3, 4);
  }

  // ----- before there is an envelope -----

  /** The log of an enrollment with its first record only. */
  function FirstLog(json: Json, d: Descriptor): Bytes { json.putIdentity(IdentityOf(PHASES[0], d)) + [NEWLINE] }

  /** A state before the envelope is known: the adapter was not called and the log holds no more than the first record. */
  predicate Early(json: Json, d: Descriptor, s: Snapshot) {
    && LogFile in s.files && PendingFile in s.files && !s.called && !s.added
    && (s.files[LogFile].Present? ==> s.files[LogFile].durable <= s.files[LogFile].written <= FirstLog(json, d))
  }

  predicate AllEarly(json: Json, d: Descriptor, history: seq<Snapshot>) {
    forall i :: 0 <= i < |history| ==> Early(json, d, history[i])
  }

  lemma FirstLogIs(p: JournalPlan)
    ensures Log(p, 1) == FirstLog(p.json, p.descriptor)
  {
    hide IdentityOf;
    EmptyLog(p);
    assert Log(p, 1) == Log(p, 0) + Line(p, 0);
  }

  lemma EarlySince(json: Json, d: Descriptor, s: Snapshot, before: seq<Snapshot>, after: seq<Snapshot>)
    requires AllEarly(json, d, before) && Early(json, d, s) && LogOnlySince(s, before, after, FirstLog(json, d))
    ensures AllEarly(json, d, after)
  {
    hide FirstLog;
    forall i | 0 <= i < |after| ensures Early(json, d, after[i]) {
      if i < |before| {
        assert after[i] == before[i];
      } else {
        assert LogOnly(s, after[i], FirstLog(json, d));
      }
    }
  }

  lemma EarlySnoc(json: Json, d: Descriptor, history: seq<Snapshot>, s: Snapshot)
    requires AllEarly(json, d, history) && Early(json, d, s)
    ensures AllEarly(json, d, history + [s])
  {
    hide Early;
  }

  lemma EarlyLast(json: Json, d: Descriptor, history: seq<Snapshot>)
    requires AllEarly(json, d, history) && history != []
    ensures Early(json, d, history[|history| - 1])
  {
    hide Early;
  }

  /** The states of a log that was created or linked are as early as those before. */
  lemma EarlyFile(json: Json, d: Descriptor, s: Snapshot, t: Snapshot)
    requires Early(json, d, s)
    requires t == s || t == s.(files := s.files[LogFile := Present([], [], false)])
          || (s.files[LogFile].Present? && t == s.(files := s.files[LogFile := s.files[LogFile].(linked := true)]))
    ensures Early(json, d, t)
  {
    hide FirstLog;
  }

  /** Early states are safe for every envelope and hash that may follow. */
  lemma EarlySafe(p: JournalPlan, envelope: Bytes, history: seq<Snapshot>)
    requires AllEarly(p.json, p.descriptor, history)
    ensures AllSafe(p, envelope, history)
  {
    hide Log, FirstLog;
    FirstLogIs(p);
    LogGrows(p, 1, 3);
  }

  method CreateLog(disk: Disk, ghost json: Json, ghost d: Descriptor) returns (ok: bool)
    requires disk.Valid() && !disk.called && !disk.added
    requires disk.files[LogFile].Absent? ==> AllEarly(json, d, disk.history)
    modifies disk
    ensures disk.Valid() && !disk.called && !disk.added && disk.files[PendingFile] == old(disk.files)[PendingFile]
    ensures old(disk.history) <= disk.history
    ensures old(disk.files)[LogFile].Present? ==> !ok && disk.files == old(disk.files)
    ensures old(disk.files)[LogFile].Absent? ==> AllEarly(json, d, disk.history) && Early(json, d, disk.Current())
    ensures (ok <==> old(disk.files)[LogFile].Absent? && AllWork(old(disk.faults), 1)) && disk.faults == After(old(disk.faults), 1)
    ensures ok ==> disk.files[LogFile] == Present([], [], false)
  {
    hide FirstLog, Early, AllEarly, AllWork, After;
    ok := disk.Create(LogFile);
    if old(disk.files)[LogFile].Absent? {
      CreatedEarly(json, d, old(disk.Current()), disk.Current(), old(disk.history));
    }
  }

  /** The first record, on an empty log. */
  method FirstPhase(journal: EnrollmentJournal, d: Descriptor) returns (ok: bool)
    requires var disk := journal.disk;
             && disk.Valid() && !disk.called && !disk.added && disk.files[LogFile] == Present([], [], false)
             && AllEarly(journal.json, d, disk.history) && Early(journal.json, d, disk.Current())
    modifies journal.disk
    ensures var disk := journal.disk;
            && disk.Valid() && !disk.called && !disk.added && disk.files[PendingFile] == old(disk.files)[PendingFile]
            && old(disk.history) <= disk.history
            && AllEarly(journal.json, d, disk.history) && Early(journal.json, d, disk.Current())
            && (ok <==> AllWork(old(disk.faults), 2))
            && (ok ==> disk.faults == After(old(disk.faults), 2))
            && (ok ==> disk.files[LogFile] == Present(FirstLog(journal.json, d), FirstLog(journal.json, d), false))
  {
    var disk := journal.disk;
    ghost var p := JournalPlan(journal.json, d, journal.path, seq(48, _ => 0));
    ghost var s, h := disk.Current(), disk.history;
    FirstLogIs(p);
    EmptyLog(p);
    hide Log, FirstLog, Safe, AllSafe, Early, AllEarly, LogOnly, RecordBytes, IdentityOf, AllWork, After;
    EarlySnoc(journal.json, d, h, s);
    EarlySafe(p, [], h + [s]);
    SafeSplit(p, [], h, s);
    ok := journal.Phase(PHASES[0], d, p, [], 0);
    EarlySince(journal.json, d, s, h, disk.history);
    EarlyLast(journal.json, d, disk.history);
  }

  /** Create the journal with its first record. An existing journal is left alone. Nothing here depends on the envelope,
      which does not exist yet. */
  method Begin(disk: Disk, json: Json, path: string, d: Descriptor) returns (result: Result<EnrollmentJournal, JournalError>)
    requires disk.Valid() && !disk.called && !disk.added
    requires disk.files[LogFile].Absent? ==> AllEarly(json, d, disk.history)
    modifies disk
    ensures disk.Valid() && !disk.called && !disk.added && disk.files[PendingFile] == old(disk.files)[PendingFile]
    ensures old(disk.history) <= disk.history
    ensures old(disk.files)[LogFile].Present? ==> result == Failure(IoError) && disk.files == old(disk.files)
    ensures old(disk.files)[LogFile].Absent? ==> AllEarly(json, d, disk.history) && Early(json, d, disk.Current())
    ensures result.Success? <==> old(disk.files)[LogFile].Absent? && AllWork(old(disk.faults), 4)
    ensures result.Failure? ==> result.error == IoError
    ensures result.Success? ==>
              && disk.faults == After(old(disk.faults), 4)
              && result.value.disk == disk && result.value.json == json && result.value.path == path
              && disk.files[LogFile] == Present(FirstLog(json, d), FirstLog(json, d), true)
  {
    hide FirstLog, Early, AllEarly, AllWork, After;
    WorkOn(disk.faults, 1, 2);
    WorkOn(disk.faults, 3, 1);
    var ok := CreateLog(disk, json, d);
    if !ok {
      return Failure(IoError);
    }
    var journal := new EnrollmentJournal(disk, json, path);
    ok := FirstPhase(journal, d);
    if !ok {
      return Failure(IoError);
    }
    ghost var s, h := disk.Current(), disk.history;
    ok := disk.SyncDirectory(LogFile);
    EarlyFile(json, d, s, disk.Current());
    EarlySnoc(json, d, h, disk.Current());
    if !ok {
      return Failure(IoError);
    }
    result := Success(journal);
  }

  lemma CreatedEarly(json: Json, d: Descriptor, s: Snapshot, t: Snapshot, history: seq<Snapshot>)
    requires LogFile in s.files && PendingFile in s.files && s.files[LogFile].Absent? && !s.called && !s.added
    requires AllEarly(json, d, history)
    requires t == s || t == s.(files := s.files[LogFile := Present([], [], false)])
    ensures Early(json, d, t) && AllEarly(json, d, history + [t])
  {
    hide FirstLog;
  }

  // ----- the whole enrollment -----

  /** How an enrollment ends, and what is then reported of the storage. */
  predicate Ended(result: Result<int, JournalError>, outcome: Result<int, LuksError>, s: Snapshot, storage: StorageState, awaiting: bool,
                  storage0: StorageState, awaiting0: bool)
  {
    match result
    case Success(token) => outcome == Success(token) && s.called && s.added && storage == StorageCommitted && awaiting
    case Failure(IoError) => !s.called && !s.added && storage == storage0 && awaiting == awaiting0
    case Failure(PreparationFailed) => !s.called && !s.added && storage == storage0 && awaiting == awaiting0
    case Failure(StorageError(error)) =>
      && outcome == Failure(error) && s.called && !s.added && awaiting == awaiting0
      && storage == if error.PartialEnrollment? then PendingReconciliation else NotMutated
    case Failure(CommittedButUnjournaled) => outcome.Success? && s.called && s.added && storage == StorageCommitted && awaiting
  }

  /** Begin, prepare the envelope, commit. Over the whole history of the run, for all faults and every outcome of the
      preparation and of the storage adapter, every state is safe for the envelope that was prepared. */
  method Enroll(disk: Disk, json: Json, path: string, d: Descriptor, prepared: Option<Bytes>, hash: Bytes -> Bytes48,
                outcome: Result<int, LuksError>, observed: Operation)
    returns (result: Result<int, JournalError>)
    requires disk.Valid() && disk.files[LogFile].Absent? && !disk.called && !disk.added && disk.history == [disk.Current()]
    modifies disk, observed
    ensures disk.Valid() && old(disk.history) <= disk.history
    ensures forall envelope :: prepared == Some(envelope) ==> AllSafe(JournalPlan(json, d, path, hash(envelope)), envelope, disk.history)
    ensures prepared.None? ==> AllEarly(json, d, disk.history) && result.Failure?
    ensures Ended(result, outcome, disk.Current(), observed.storage, observed.awaitingBootTest, old(observed.storage), old(observed.awaitingBootTest))
    ensures result.Success? ==> prepared.Some? && Holds(JournalPlan(json, d, path, hash(prepared.value)), disk.files[LogFile], 4)
    ensures result == Failure(PreparationFailed) <==> AllWork(old(disk.faults), 4) && prepared.None?
    ensures result == Failure(IoError)
       <==> || !AllWork(old(disk.faults), 4)
            || (prepared.Some? && (old(disk.files)[PendingFile].Present? || !AllWork(old(disk.faults), 11)))
    ensures result != Failure(IoError) && result != Failure(PreparationFailed) ==>
              if outcome.Failure? then result == Failure(StorageError(outcome.error))
              else result == if AllWork(old(disk.faults), 13) then Success(outcome.value) else Failure(CommittedButUnjournaled)
  {
    hide Log, FirstLog, Safe, LogSafe, AllWork, After;
    WorkOn(disk.faults, 4, 7);
    WorkOn(disk.faults, 4, 9);
    var journal := Begin(disk, json, path, d);
    if prepared.Some? {
      EarlySafe(JournalPlan(json, d, path, hash(prepared.value)), prepared.value, disk.history + [disk.Current()]);
      SafeSplit(JournalPlan(json, d, path, hash(prepared.value)), prepared.value, disk.history, disk.Current());
    }
    if journal.Failure? {
      return Failure(IoError);
    }
    if prepared.None? {
      return Failure(PreparationFailed);
    }
    FirstLogIs(JournalPlan(json, d, path, hash(prepared.value)));
    result := journal.value.Commit(d, prepared.value, hash(prepared.value), outcome, observed);
  }

  lemma SafeSplit(p: JournalPlan, envelope: Bytes, history: seq<Snapshot>, s: Snapshot)
    requires AllSafe(p, envelope, history + [s])
    ensures AllSafe(p, envelope, history) && Safe(p, envelope, s)
  {
    hide Safe;
    var all := history + [s];
    assert all[|history|] == s;
    assert forall i :: 0 <= i < |history| ==> all[i] == history[i];
  }
}
