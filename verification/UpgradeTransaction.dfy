/** The crash-safe OTA transaction: the install root as it is on disk, the upgrade operations on it
    with a fault script that may stop or fail any system call, and what recovery makes of the
    result. */
module UpgradeTransactions {
  import opened Options
  import opened SemanticVersions

  // ---------------------------------------------------------------- the install root

  /** What a path names: nothing, something that is no symbolic link, `releases/<name>`, or a link
      to anywhere else. An empty previous release in the record is `Absent`. */
  datatype Link = Absent | NotALink | ToRelease(name: string) | Elsewhere

  datatype TransactionState = Prepared | Activated | Confirmed

  datatype Transaction = Transaction(state: TransactionState, version: string, previous: Link)

  /** `run/upgrade-transaction.yaml`. */
  datatype RecordFile = NoRecord | NotRegular | Unreadable | Recorded(transaction: Transaction)

  /** `data/ota-version-floor`. */
  datatype FloorFile = NoFloor | FloorUnreadable | Floor(text: string)

  /** `releases` maps a release directory to whether it is complete: an installer that is still
      copying, or a removal that was cut short, leaves it incomplete. */
  datatype Disk = Disk(
    current: Link,
    releases: map<string, bool>,
    record: RecordFile,
    floor: FloorFile,
    linkTemp: Link,
    recordTemp: bool,
    floorTemp: bool)

  /** The disk without leftover temporaries. */
  function Core(d: Disk): Disk {
    d.(linkTemp := Absent, recordTemp := false, floorTemp := false)
  }

  predicate IsSafeReleaseTarget(link: Link) {
    link.ToRelease? && IsValidVersion(link.name) && link.name != "." && link.name != ".."
  }

  predicate IsDirectory(d: Disk, link: Link) {
    link.ToRelease? && link.name in d.releases
  }

  predicate IsComplete(d: Disk, link: Link) {
    IsDirectory(d, link) && d.releases[link.name]
  }

  function LoadTransaction(record: RecordFile): Option<Transaction> {
    match record
    case Recorded(tx) =>
      if !IsValidVersion(tx.version) then None
      else if tx.previous != Absent && !IsSafeReleaseTarget(tx.previous) then None
      else if tx.previous == ToRelease(tx.version) then None
      else Some(tx)
    case _ => None
  }

  function ReadFloor(floor: FloorFile): Option<SemanticVersion> {
    if floor.Floor? then Parse(floor.text) else None
  }

  /** `candidate` is a version and newer than the release name or floor text `baseline`. */
  predicate NewerText(candidate: string, baseline: string) {
    && Parse(candidate).Some?
    && Parse(baseline).Some?
    && Newer(Parse(candidate).value, Parse(baseline).value)
  }

  predicate CheckAntiRollback(floor: FloorFile, current: Link, candidate: string) {
    && Parse(candidate).Some?
    && (floor != NoFloor ==> floor.Floor? && NewerText(candidate, floor.text))
    && (current != Absent ==> current.ToRelease? && NewerText(candidate, current.name))
  }

  // ---------------------------------------------------------------- what recovery will make of a disk

  /** The upgrade state a user of the install root sees once no transaction is pending. */
  datatype Installed = Installed(current: Link, releases: map<string, bool>, floor: FloorFile)

  function AsIs(d: Disk): Installed {
    Installed(d.current, d.releases, d.floor)
  }

  /** The abstraction function: a confirmed record stands for the candidate, any other record for
      the release before it. */
  function Settle(d: Disk): Installed {
    match d.record
    case Recorded(Transaction(Confirmed, version, _)) =>
      Installed(ToRelease(version), d.releases, Floor(version))
    case Recorded(Transaction(_, version, previous)) =>
      Installed(previous, d.releases - {version}, d.floor)
    case _ => AsIs(d)
  }

  predicate FloorReadable(floor: FloorFile) {
    floor == NoFloor || ReadFloor(floor).Some?
  }

  predicate FloorBelow(floor: FloorFile, version: string) {
    floor == NoFloor || (floor.Floor? && NewerText(version, floor.text))
  }

  /** Never lower than before. */
  predicate FloorAdvances(before: FloorFile, after: FloorFile) {
    after == before || (after.Floor? && Parse(after.text).Some? && FloorBelow(before, after.text))
  }

  predicate TransactionConsistent(d: Disk, tx: Transaction) {
    && Parse(tx.version).Some?
    && tx.previous != ToRelease(tx.version)
    && (tx.previous == Absent
        || (IsSafeReleaseTarget(tx.previous) && IsComplete(d, tx.previous) && NewerText(tx.version, tx.previous.name)))
    && if tx.state == Confirmed then
         && d.current == ToRelease(tx.version)
         && (d.floor == Floor(tx.version) || FloorBelow(d.floor, tx.version))
       else
         && (d.current == tx.previous || d.current == ToRelease(tx.version))
         && FloorBelow(d.floor, tx.version)
  }

  /** The invariant: `current` names a complete release, the floor is readable, and a pending record
      is loadable and agrees with the rest of the disk. */
  predicate Consistent(d: Disk) {
    && (d.current == Absent || IsComplete(d, d.current))
    && FloorReadable(d.floor)
    && (d.record == NoRecord || (d.record.Recorded? && TransactionConsistent(d, d.record.transaction)))
  }

  /** Every record of a consistent disk passes the checks recovery makes when it loads it. */
  lemma {:induction false} ConsistentRecordLoads(d: Disk)
    requires Consistent(d) && d.record != NoRecord
    ensures LoadTransaction(d.record) == Some(d.record.transaction)
    ensures IsSafeReleaseTarget(ToRelease(d.record.transaction.version))
  {
    ParsedIsValidVersion(d.record.transaction.version);
  }

  /** A path below `releases`, and not the directory itself or what is above it. */
  predicate IsReleasePath(link: Link) {
    && link.ToRelease? && link.name != "" && link.name != "." && link.name != ".."
    && forall c | c in link.name ::
         '0' <= c <= '9' || 'A' <= c <= 'Z' || 'a' <= c <= 'z' || c == '.' || c == '_' || c == '-'
  }

  lemma {:induction false} SafeTargetExactly(link: Link)
    ensures IsSafeReleaseTarget(link) <==> IsReleasePath(link)
  {
    if link.ToRelease? {
      ValidVersionExactly(link.name);
    }
  }

  /** Which records are acted upon: those that name a candidate by legal characters and no previous release, or
      one below `releases` that is not the candidate. */
  lemma {:induction false} LoadsExactly(record: RecordFile)
    ensures LoadTransaction(record).Some? <==>
              && record.Recorded?
              && var tx := record.transaction;
                 && (IsReleasePath(ToRelease(tx.version)) || tx.version == "." || tx.version == "..")
                 && (tx.previous == Absent || IsReleasePath(tx.previous))
                 && tx.previous != ToRelease(tx.version)
    ensures LoadTransaction(record).Some? ==> record == Recorded(LoadTransaction(record).value)
  {
    if record.Recorded? {
      var tx := record.transaction;
      ValidVersionExactly(tx.version);
      SafeTargetExactly(tx.previous);
      assert tx.version == "." ==> forall c | c in tx.version :: c == '.';
      assert tx.version == ".." ==> forall c | c in tx.version :: c == '.';
    }
  }

  lemma {:induction false} NewerTextIsStrict(a: string, b: string)
    ensures NewerText(a, b) ==> a != b && !NewerText(b, a)
  {
    if NewerText(a, b) {
      var x, y := Parse(a).value, Parse(b).value;
      CompareIsTotalOrder(x, y, x);
    }
  }

  lemma {:induction false} FloorAdvancesTransitive(a: FloorFile, b: FloorFile, c: FloorFile)
    requires FloorAdvances(a, b) && FloorAdvances(b, c)
    ensures FloorAdvances(a, c)
  {
    if a != b && b != c && a != NoFloor {
      CompareIsTotalOrder(Parse(c.text).value, Parse(b.text).value, Parse(a.text).value);
    }
  }

  // ---------------------------------------------------------------- system calls and their faults

  /** Each system call of an operation takes the next fault: it takes effect, fails without effect,
      or the machine stops before it. When the script is used up nothing fails any more. */
  datatype Fault = Proceed | IoError | Crash

  datatype File = RecordFileName | FloorFileName

  /** The system calls. `Rename` puts the temporary of a file in its place, `Swing` that of the link. */
  datatype Call =
    | MakeDirectories(file: File) | Open(file: File) | Write(file: File) | Sync(file: File) | Rename(file: File)
    | SyncDirectory(file: File) | Discard(file: File)
    | DropLink | MakeLink | Swing | Unlink | Hollow(release: string) | Delete(release: string)
    | SyncRoot | SyncReleases | RemoveRecord | MakeRelease(release: string) | FillRelease(release: string)

  /** How a piece of an operation ended. `Threw` is a C++ exception on its way to a handler. */
  datatype Outcome = Done | Failed | Threw | Crashed {
    predicate IsFailure() { !Done? }
    function PropagateFailure(): Outcome requires IsFailure() { this }
    /** The `catch (const std::exception&)` at the end of every public operation. */
    function Caught(): Outcome { if Threw? then Failed else this }
  }

  datatype Content = RecordContent(transaction: Transaction) | FloorContent(version: string)

  function FileOf(content: Content): File {
    if content.RecordContent? then RecordFileName else FloorFileName
  }

  /** Nothing is renamed into place before it is synced. */
  function WriteCalls(file: File): seq<Call> {
    [MakeDirectories(file), Open(file), Write(file), Sync(file), Rename(file), SyncDirectory(file)]
  }

  function MoveCalls(previous: Link): seq<Call> {
    if previous == Absent then [DropLink, Unlink] else [DropLink, MakeLink, Swing]
  }

  function RemoveCalls(d: Disk, name: string): seq<Call> {
    if name in d.releases then [Hollow(name), Delete(name)] else []
  }

  function RollbackCalls(d: Disk, previous: Link): seq<Call> {
    MoveCalls(previous)
    + (if d.current.ToRelease? && d.current != previous then RemoveCalls(d, d.current.name) else [])
    + [SyncRoot, SyncReleases]
  }

  /** The floor is written unless it is this version already. */
  function FloorCalls(d: Disk, version: string): seq<Call> {
    if ReadFloor(d.floor).Some? && ReadFloor(d.floor) == Parse(version) then [] else WriteCalls(FloorFileName)
  }

  function ForgetCalls(): seq<Call> {
    [RemoveRecord, SyncDirectory(RecordFileName)]
  }

  function UndoCalls(d: Disk, tx: Transaction): seq<Call> {
    RollbackCalls(d, tx.previous) + (RemoveCalls(RolledBack(d, tx.previous), tx.version) + [SyncReleases])
  }

  function RecoverCalls(d: Disk): seq<Call> {
    if !d.record.Recorded? then []
    else
      (if d.record.transaction.state == Confirmed then FloorCalls(d, d.record.transaction.version)
       else UndoCalls(d, d.record.transaction))
      + ForgetCalls()
  }

  function InstallerCalls(version: string): seq<Call> {
    [MakeRelease(version), FillRelease(version), MakeLink, Swing, SyncRoot]
  }

  /** Every rename since `before` comes right behind the sync of what it publishes. */
  predicate RenamesSynced(before: seq<Call>, after: seq<Call>) {
    && before <= after
    && forall k | |before| <= k < |after| && after[k].Rename? :: k > |before| && after[k - 1] == Sync(after[k].file)
  }

  function Publish(d: Disk, content: Content): Disk {
    match content
    case RecordContent(tx) => d.(record := Recorded(tx))
    case FloorContent(version) => d.(floor := Floor(version))
  }

  function WithTemp(d: Disk, content: Content, present: bool): Disk {
    if content.RecordContent? then d.(recordTemp := present) else d.(floorTemp := present)
  }

  /** What a rollback to `previous` leaves: the link moved, the release it named before removed. */
  function RolledBack(d: Disk, previous: Link): Disk {
    d.(current := previous,
       releases := if d.current.ToRelease? && d.current != previous then d.releases - {d.current.name}
                   else d.releases)
  }

  /** The disks a rollback can be interrupted at: nothing done, link moved, release half removed,
      finished. The release goes only after the link has left it. */
  predicate DuringRollback(d: Disk, previous: Link, e: Disk) {
    || Core(e) == Core(d)
    || Core(e) == Core(d.(current := previous))
    || (d.current.ToRelease? && d.current != previous && d.current.name in d.releases
        && Core(e) == Core(d.(current := previous, releases := d.releases[d.current.name := false])))
    || Core(e) == Core(RolledBack(d, previous))
  }

  /** `InstallUpgrade` gets past its checks. */
  predicate Installable(s: Installed, version: string) {
    && (s.current == Absent || (IsSafeReleaseTarget(s.current) && s.current.name in s.releases))
    && CheckAntiRollback(s.floor, s.current, version)
    && version !in s.releases
  }

  // ---------------------------------------------------------------- what each operation may do

  /** Recovery, however it ends, leaves what it would have made of the disk unchanged; when it
      finishes no transaction is left. */
  predicate RecoverEffect(d: Disk, o: Outcome, e: Disk) {
    && Consistent(e)
    && Settle(e) == Settle(d)
    && FloorAdvances(d.floor, e.floor)
    && e.record in {NoRecord, d.record}
    && (o == Done ==> e.record == NoRecord)
  }

  /** An install that ends early counts as never begun, wherever it stopped; one that finishes has
      the candidate active and the old release on record. */
  predicate InstallEffect(d: Disk, version: string, o: Outcome, e: Disk) {
    && Consistent(e)
    && e.floor == d.floor
    && (Settle(e) == Settle(d) || Settle(e) == AsIs(d))
    && (o == Done ==>
          && Settle(e) == AsIs(d)
          && e.record == Recorded(Transaction(Activated, version, d.current))
          && e.current == ToRelease(version)
          && version !in d.releases
          && e.releases == d.releases[version := true]
          && FloorBelow(d.floor, version)
          && (d.current == Absent || (d.current.ToRelease? && NewerText(version, d.current.name))))
  }

  /** A confirmation happens or does not happen: what recovery makes of the disk is either what it
      was or the candidate with its floor, and the candidate if the confirmation finished. */
  predicate ConfirmEffect(d: Disk, version: string, o: Outcome, e: Disk) {
    && Consistent(e)
    && FloorAdvances(d.floor, e.floor)
    && (Settle(e) == Settle(d)
        || (&& d.record.Recorded? && d.record.transaction.state == Activated
            && d.record.transaction.version == version
            && d.current == ToRelease(version)
            && Settle(e) == Installed(ToRelease(version), d.releases, Floor(version))))
    && (o == Done ==>
          && d.record.Recorded? && d.record.transaction.state == Activated
          && d.record.transaction.version == version && d.current == ToRelease(version)
          && e.record == NoRecord
          && AsIs(e) == Installed(ToRelease(version), d.releases, Floor(version)))
  }

  // ---------------------------------------------------------------- the operations

  class InstallRoot {
    var disk: Disk
    var faults: seq<Fault>
    /** Every system call so far, also those that failed. */
    ghost var trace: seq<Call>

    constructor (disk: Disk, faults: seq<Fault>)
      ensures this.disk == disk && this.faults == faults && trace == []
    {
      this.disk := disk;
      this.faults := faults;
      trace := [];
    }

    /** One system call's fate. */
    method SystemCall(ghost call: Call) returns (o: Outcome)
      modifies this`faults, this`trace
      ensures Crash !in old(faults) ==> o != Crashed && Crash !in faults
      ensures trace == old(trace) + [call]
      ensures faults == if old(faults) == [] then [] else old(faults)[1..]
      ensures o == if old(faults) == [] || old(faults)[0] == Proceed then Done
                   else if old(faults)[0] == IoError then Failed else Crashed
    {
      trace := trace + [call];
      if faults == [] {
        return Done;
      }
      o := match faults[0] case Proceed => Done case IoError => Failed case Crash => Crashed;
      faults := faults[1..];
    }

    method FillTemp(content: Content) returns (o: Outcome)
      modifies this
      ensures Crash !in old(faults) ==> o != Crashed && Crash !in faults
      ensures o in {Done, Failed, Crashed}
      ensures o == Done ==> disk == WithTemp(old(disk), content, true)
      ensures o == Done ==> trace == old(trace) + WriteCalls(FileOf(content))[..3]
      ensures Core(disk) == Core(old(disk)) && disk.linkTemp == old(disk.linkTemp)
      ensures RenamesSynced(old(trace), trace)
      ensures old(faults) == [] ==> o == Done && faults == []
    {
      ghost var file := FileOf(content);
      :- SystemCall(MakeDirectories(file));
      :- SystemCall(Open(file));
      disk := WithTemp(disk, content, true);
      o := SystemCall(Write(file));
    }

    /** Write to a temporary and sync it. */
    method StageTemp(content: Content) returns (o: Outcome)
      modifies this
      ensures Crash !in old(faults) ==> o != Crashed && Crash !in faults
      ensures o == Done ==> disk == WithTemp(old(disk), content, true)
      ensures o == Done ==> trace == old(trace) + WriteCalls(FileOf(content))[..4]
      ensures Core(disk) == Core(old(disk)) && disk.linkTemp == old(disk.linkTemp)
      ensures RenamesSynced(old(trace), trace)
      ensures old(faults) == [] ==> o == Done && faults == []
    {
      ghost var file := FileOf(content);
      :- FillTemp(content);
      o := SystemCall(Sync(file));
      if o == Failed {
        o := RemoveTemp(content);
        return if o == Done then Failed else o;
      }
    }

    /** Rename it over the target, sync the directory. */
    method PublishTemp(content: Content) returns (o: Outcome)
      requires disk == WithTemp(disk, content, true)
      requires trace != [] && trace[|trace| - 1] == Sync(FileOf(content))
      modifies this
      ensures Crash !in old(faults) ==> o != Crashed && Crash !in faults
      ensures Core(disk) == Core(old(disk)) || Core(disk) == Core(Publish(old(disk), content))
      ensures o == Done ==> disk == WithTemp(Publish(old(disk), content), content, false)
      ensures o == Done ==> trace == old(trace) + WriteCalls(FileOf(content))[4..]
      ensures disk.linkTemp == old(disk.linkTemp)
      ensures RenamesSynced(old(trace)[..|old(trace)| - 1], trace)
      ensures old(faults) == [] ==> o == Done && faults == []
    {
      ghost var file := FileOf(content);
      o := SystemCall(Rename(file));
      if o == Failed {
        o := RemoveTemp(content);
        return if o == Done then Failed else o;
      } else if o == Crashed {
        return;
      }
      disk := WithTemp(Publish(disk, content), content, false);
      :- SystemCall(SyncDirectory(file));
      return Done;
    }

    /** Write to a temporary, sync it, rename it over the target, sync the directory. */
    method WriteYaml(content: Content) returns (o: Outcome)
      modifies this
      ensures Crash !in old(faults) ==> o != Crashed && Crash !in faults
      ensures Core(disk) == Core(old(disk)) || Core(disk) == Core(Publish(old(disk), content))
      ensures o == Done ==> disk == WithTemp(Publish(old(disk), content), content, false)
      ensures o == Done ==> trace == old(trace) + WriteCalls(FileOf(content))
      ensures RenamesSynced(old(trace), trace)
      ensures disk.linkTemp == old(disk.linkTemp)
      ensures old(faults) == [] ==> o == Done && faults == []
    {
      ghost var calls := WriteCalls(FileOf(content));
      :- StageTemp(content);
      o := PublishTemp(content);
      assert calls == calls[..4] + calls[4..];
    }

    /** `std::filesystem::remove(temporary)` without an error code throws when it fails. */
    method RemoveTemp(content: Content) returns (o: Outcome)
      modifies this
      ensures Crash !in old(faults) ==> o != Crashed && Crash !in faults
      ensures o == Done ==> disk == WithTemp(old(disk), content, false)
      ensures o != Done ==> disk == old(disk)
      ensures trace == old(trace) + [Discard(FileOf(content))]
      ensures o in {Done, Threw, Crashed}
      ensures old(faults) == [] ==> o == Done && faults == []
    {
      o := SystemCall(Discard(FileOf(content)));
      if o == Done {
        disk := WithTemp(disk, content, false);
      } else if o == Failed {
        o := Threw;
      }
    }

    /** `remove_all`, which may stop half way. */
    method RemoveRelease(name: string) returns (o: Outcome)
      modifies this
      ensures Crash !in old(faults) ==> o != Crashed && Crash !in faults
      ensures o in {Done, Failed, Crashed}
      ensures disk == old(disk)
           || disk == old(disk).(releases := old(disk).releases - {name})
           || (name in old(disk).releases && disk == old(disk).(releases := old(disk).releases[name := false]))
      ensures o == Done ==> disk == old(disk).(releases := old(disk).releases - {name})
      ensures o == Done ==> trace == old(trace) + RemoveCalls(old(disk), name)
      ensures old(faults) == [] ==> o == Done && faults == []
    {
      if name !in disk.releases {
        assert disk.releases - {name} == disk.releases;
        return Done;
      }
      :- SystemCall(Hollow(name));
      disk := disk.(releases := disk.releases[name := false]);
      :- SystemCall(Delete(name));
      assert disk.releases - {name} == old(disk).releases - {name};
      disk := disk.(releases := disk.releases - {name});
      return Done;
    }

    /** The first half of a rollback: point `current` at `previous` through a fresh link, or remove it. */
    method MoveLink(previous: Link) returns (o: Outcome)
      modifies this
      ensures Crash !in old(faults) ==> o != Crashed && Crash !in faults
      ensures old(faults) == [] ==> faults == []
      ensures o in {Done, Failed, Crashed}
      ensures Core(disk) == Core(old(disk)) || Core(disk) == Core(old(disk).(current := previous))
      ensures o == Done ==> Core(disk) == Core(old(disk).(current := previous))
      ensures o == Done ==> trace == old(trace) + MoveCalls(previous)
      ensures previous != Absent && !(IsReleasePath(previous) && previous.name in old(disk).releases) ==>
                o != Done && Core(disk) == Core(old(disk))
      ensures previous != Absent && old(disk.linkTemp) != Absent && old(faults) != [] && old(faults)[0] != Proceed ==>
                o != Done
      ensures old(faults) == []
              && (previous == Absent || (IsSafeReleaseTarget(previous) && IsDirectory(old(disk), previous))) ==>
                o == Done && disk.linkTemp == Absent
    {
      SafeTargetExactly(previous);
      o := SystemCall(DropLink);  // an error is ignored
      if o == Crashed {
        return;
      } else if o == Done {
        disk := disk.(linkTemp := Absent);
      }
      if previous == Absent {
        :- SystemCall(Unlink);
        disk := disk.(current := Absent);
      } else {
        if !IsSafeReleaseTarget(previous) || !IsDirectory(disk, previous) {
          return Failed;
        }
        if disk.linkTemp != Absent {
          return Failed;  // create_symlink reports that the path exists
        }
        :- SystemCall(MakeLink);
        disk := disk.(linkTemp := previous);
        :- SystemCall(Swing);
        disk := disk.(current := disk.linkTemp, linkTemp := Absent);
      }
      return Done;
    }

    method RollbackUpgrade(previous: Link) returns (o: Outcome)
      modifies this
      ensures Crash !in old(faults) ==> o != Crashed && Crash !in faults
      ensures old(faults) == [] ==> faults == []
      ensures o in {Done, Failed, Crashed}
      ensures DuringRollback(old(disk), previous, disk)
      ensures o == Done ==> Core(disk) == Core(RolledBack(old(disk), previous))
      ensures o == Done ==> trace == old(trace) + RollbackCalls(old(disk), previous)
      ensures previous != Absent && !(IsReleasePath(previous) && previous.name in old(disk).releases) ==>
                o != Done && Core(disk) == Core(old(disk))
      ensures old(faults) == []
              && (old(disk).current in {Absent, NotALink} || IsSafeReleaseTarget(old(disk).current))
              && (previous == Absent || (IsSafeReleaseTarget(previous) && IsDirectory(old(disk), previous))) ==>
                o == Done && faults == [] && disk.linkTemp == Absent
    {
      ghost var d := disk;
      var activated := Absent;
      if disk.current.ToRelease? || disk.current.Elsewhere? {
        activated := disk.current;
        if !IsSafeReleaseTarget(activated) {
          return Failed;
        }
      }
      o := MoveLink(previous);
      if o != Done {
        return;
      }
      o := FinishRollback(d, previous, activated);
    }

    /** The rest, once the link has moved. */
    method FinishRollback(ghost d: Disk, previous: Link, activated: Link) returns (o: Outcome)
      requires Core(disk) == Core(d.(current := previous))
      requires activated == if d.current.ToRelease? then d.current else Absent
      modifies this
      ensures Crash !in old(faults) ==> o != Crashed && Crash !in faults
      ensures o in {Done, Failed, Crashed}
      ensures DuringRollback(d, previous, disk) && disk.linkTemp == old(disk.linkTemp)
      ensures o == Done ==> Core(disk) == Core(RolledBack(d, previous))
      ensures o == Done ==>
                trace == old(trace) + (if activated != Absent && activated != previous then RemoveCalls(d, activated.name) else [])
                         + [SyncRoot, SyncReleases]
      ensures old(faults) == [] ==> o == Done && faults == []
    {
      ghost var moved := disk;
      assert moved.releases == d.releases by {
        assert Core(moved).releases == moved.releases;
      }
      o := RemoveActivated(activated, previous);
      RollbackDisks(d, previous, activated, moved, disk, o == Done);
      if o != Done {
        return;
      }
      o := SyncBoth();
    }

    /** The release that the link has left. */
    method RemoveActivated(activated: Link, previous: Link) returns (o: Outcome)
      requires activated == Absent || activated.ToRelease?
      modifies this
      ensures Crash !in old(faults) ==> o != Crashed && Crash !in faults
      ensures o in {Done, Failed, Crashed}
      ensures activated == Absent || activated == previous ==> o == Done && disk == old(disk) && trace == old(trace)
      ensures activated != Absent && activated != previous ==>
                && Removing(old(disk), activated.name, disk, o == Done)
                && (o == Done ==> trace == old(trace) + RemoveCalls(old(disk), activated.name))
      ensures old(faults) == [] ==> o == Done && faults == []
    {
      o := Done;
      if activated != Absent && activated != previous {
        o := RemoveRelease(activated.name);
      }
    }

    method SyncBoth() returns (o: Outcome)
      modifies this`faults, this`trace
      ensures Crash !in old(faults) ==> o != Crashed && Crash !in faults
      ensures o in {Done, Failed, Crashed}
      ensures o == Done ==> trace == old(trace) + [SyncRoot, SyncReleases]
      ensures old(faults) == [] ==> o == Done && faults == []
    {
      o := SystemCall(SyncRoot);
      if o == Done {
        o := SystemCall(SyncReleases);
      }
    }

    method PersistVersionFloor(version: string) returns (o: Outcome)
      modifies this
      ensures Crash !in old(faults) ==> o != Crashed && Crash !in faults
      ensures old(faults) == [] ==> faults == []
      ensures Core(disk) == Core(old(disk)) || Core(disk) == Core(old(disk).(floor := Floor(version)))
      ensures FloorAdvances(old(disk.floor), disk.floor)
      ensures o == Done ==> ReadFloor(disk.floor).Some? && ReadFloor(disk.floor) == Parse(version)
      ensures o == Done ==> trace == old(trace) + FloorCalls(old(disk), version)
      ensures Parse(version).Some? && FloorBelow(old(disk.floor), version) && o == Done ==> disk.floor == Floor(version)
      ensures old(faults) == [] && Parse(version).Some?
              && (FloorBelow(old(disk.floor), version) || old(disk.floor) == Floor(version)) ==>
                o == Done && faults == []
    {
      var parsed := Parse(version);
      if parsed == None {
        return Failed;
      }
      if disk.floor != NoFloor {
        var existing := ReadFloor(disk.floor);
        if existing == None {
          return Failed;
        }
        CompareIsTotalOrder(parsed.value, existing.value, existing.value);
        var comparison := Compare(parsed.value, existing.value);
        if comparison < 0 {
          return Failed;
        }
        if comparison == 0 {
          return Done;
        }
      }
      o := WriteYaml(FloorContent(version));
    }

    /** The confirmed branch of recovery. */
    method CompleteConfirmation(transaction: Transaction) returns (o: Outcome)
      requires disk.record == Recorded(transaction) && transaction.state == Confirmed
      modifies this
      ensures Crash !in old(faults) ==> o != Crashed && Crash !in faults
      ensures old(faults) == [] ==> faults == []
      ensures o in {Done, Failed, Crashed}
      ensures o == Done ==> trace == old(trace) + FloorCalls(old(disk), transaction.version)
      ensures old(disk.current) != ToRelease(transaction.version) || transaction.version !in old(disk).releases ==>
                o == Failed && disk == old(disk)
      ensures Consistent(old(disk)) ==>
                RecoverEffect(old(disk), Failed, disk) && disk.record == old(disk.record)
      ensures Consistent(old(disk)) && o == Done ==> AsIs(disk) == Settle(disk)
      ensures Consistent(old(disk)) && old(faults) == [] ==> o == Done && faults == []
    {
      var candidate := ToRelease(transaction.version);
      if disk.current != candidate || !IsDirectory(disk, candidate) {
        return Failed;
      }
      o := PersistVersionFloor(transaction.version);
      o := o.Caught();
    }

    /** The other branch: back to the previous release, without the candidate. */
    method UndoInstall(transaction: Transaction) returns (o: Outcome)
      requires disk.record == Recorded(transaction) && transaction.state != Confirmed
      modifies this
      ensures Crash !in old(faults) ==> o != Crashed && Crash !in faults
      ensures old(faults) == [] ==> faults == []
      ensures o in {Done, Failed, Crashed}
      ensures o == Done ==> trace == old(trace) + UndoCalls(old(disk), transaction)
      ensures Consistent(old(disk)) ==>
                RecoverEffect(old(disk), Failed, disk) && disk.record == old(disk.record)
      ensures Consistent(old(disk)) && o == Done ==> AsIs(disk) == Settle(disk)
      ensures Consistent(old(disk)) && old(faults) == [] ==> o == Done && faults == []
    {
      ghost var d := disk;
      if Consistent(d) {
        ConsistentRecordLoads(d);
      }
      o := RollbackUpgrade(transaction.previous);
      ghost var linked := disk;
      if Consistent(d) {
        RollbackKeepsSettlement(d, linked);
      }
      if o != Done {
        return;
      }
      o := RemoveInterrupted(transaction.version);
      if Consistent(d) {
        RemovalKeepsSettlement(linked, disk, o == Done);
      }
    }

    method RemoveInterrupted(version: string) returns (o: Outcome)
      modifies this
      ensures Crash !in old(faults) ==> o != Crashed && Crash !in faults
      ensures o in {Done, Failed, Crashed}
      ensures Removing(old(disk), version, disk, o == Done)
      ensures o == Done ==> trace == old(trace) + (RemoveCalls(old(disk), version) + [SyncReleases])
      ensures old(faults) == [] ==> o == Done && faults == []
    {
      o := RemoveRelease(version);
      if o != Done {
        return;
      }
      o := SystemCall(SyncReleases);
    }

    /** A transaction is over when its record is gone. */
    method ForgetRecord() returns (o: Outcome)
      modifies this
      ensures Crash !in old(faults) ==> o != Crashed && Crash !in faults
      ensures o in {Done, Failed, Crashed}
      ensures disk == old(disk) || disk == old(disk).(record := NoRecord)
      ensures o == Done ==> disk == old(disk).(record := NoRecord) && trace == old(trace) + ForgetCalls()
      ensures old(faults) == [] ==> o == Done && faults == []
    {
      o := SystemCall(RemoveRecord);
      if o == Done {
        disk := disk.(record := NoRecord);
        o := SystemCall(SyncDirectory(RecordFileName));
      }
    }

    method RecoverInterruptedUpgrade() returns (o: Outcome, recovered: bool)
      modifies this
      ensures Crash !in old(faults) ==> o != Crashed && Crash !in faults
      ensures o in {Done, Failed, Crashed}
      ensures o == Done ==> trace == old(trace) + RecoverCalls(old(disk))
      ensures recovered <==> o == Done && old(disk.record) != NoRecord
      ensures old(disk.record) != NoRecord && LoadTransaction(old(disk.record)) == None ==>
                o == Failed && disk == old(disk)
      ensures old(disk.record) == NoRecord ==> o == Done && disk == old(disk)
      ensures old(disk.record).Recorded? && old(disk.record).transaction.state == Confirmed
              && (old(disk.current) != ToRelease(old(disk.record).transaction.version)
                  || old(disk.record).transaction.version !in old(disk).releases) ==>
                o == Failed && disk == old(disk)
      ensures Consistent(old(disk)) ==> RecoverEffect(old(disk), o, disk)
      ensures Consistent(old(disk)) && old(faults) == [] ==> o == Done
      ensures old(faults) == [] ==> faults == []
    {
      ghost var d := disk;
      recovered := false;
      if disk.record == NoRecord {
        return Done, false;
      }
      if disk.record == NotRegular {
        return Failed, false;
      }
      if Consistent(d) {
        ConsistentRecordLoads(d);
      }
      var loaded := LoadTransaction(disk.record);
      if loaded == None {
        return Failed, false;
      }
      var transaction := loaded.value;
      if transaction.state == Confirmed {
        o := CompleteConfirmation(transaction);
      } else {
        o := UndoInstall(transaction);
      }
      if o != Done {
        return;
      }
      o := ForgetRecord();
      recovered := o == Done;
    }

    method ConfirmUpgrade(version: string) returns (o: Outcome)
      requires Consistent(disk)
      modifies this
      ensures Crash !in old(faults) ==> o != Crashed && Crash !in faults
      ensures old(faults) == [] ==> faults == []
      ensures o in {Done, Failed, Crashed}
      ensures o == Done ==> trace == old(trace) + WriteCalls(RecordFileName) + (FloorCalls(old(disk), version) + ForgetCalls())
      ensures ConfirmEffect(old(disk), version, o, disk)
      ensures old(faults) == [] ==>
                (o == Done <==>
                 && old(disk.record).Recorded? && old(disk.record).transaction.state == Activated
                 && old(disk.record).transaction.version == version
                 && old(disk.current) == ToRelease(version))
    {
      ghost var d := disk;
      var loaded := LoadTransaction(disk.record);
      if d.record != NoRecord {
        ConsistentRecordLoads(d);
      }
      if loaded == None {
        return Failed;
      }
      var transaction := loaded.value;
      if transaction.state != Activated || transaction.version != version {
        return Failed;
      }
      if disk.current != ToRelease(transaction.version) {
        return Failed;
      }
      o := CommitConfirmation(transaction);
    }

    /** The record says so first, then the floor follows, and then the record goes. */
    method CommitConfirmation(transaction: Transaction) returns (o: Outcome)
      requires Consistent(disk) && disk.record == Recorded(transaction) && transaction.state == Activated
      requires disk.current == ToRelease(transaction.version)
      modifies this
      ensures Crash !in old(faults) ==> o != Crashed && Crash !in faults
      ensures o in {Done, Failed, Crashed}
      ensures o == Done ==>
                trace == old(trace) + WriteCalls(RecordFileName) + (FloorCalls(old(disk), transaction.version) + ForgetCalls())
      ensures ConfirmEffect(old(disk), transaction.version, o, disk)
      ensures old(faults) == [] ==> o == Done && faults == []
    {
      ghost var d := disk;
      o := WriteYaml(RecordContent(transaction.(state := Confirmed)));
      RecordedConfirmation(d, disk);
      if o != Done {
        return o.Caught();
      }
      o := FinishConfirmation(d, transaction);
    }

    method FinishConfirmation(ghost d: Disk, transaction: Transaction) returns (o: Outcome)
      requires Consistent(d) && d.record == Recorded(transaction) && transaction.state == Activated
      requires d.current == ToRelease(transaction.version)
      requires Core(disk) == Core(d.(record := Recorded(transaction.(state := Confirmed))))
      modifies this
      ensures Crash !in old(faults) ==> o != Crashed && Crash !in faults
      ensures o in {Done, Failed, Crashed}
      ensures o == Done ==> trace == old(trace) + (FloorCalls(d, transaction.version) + ForgetCalls())
      ensures ConfirmEffect(d, transaction.version, o, disk)
      ensures old(faults) == [] ==> o == Done && faults == []
    {
      ghost var recorded := disk;
      SameCore(recorded, d.(record := Recorded(transaction.(state := Confirmed))));
      o := PersistVersionFloor(transaction.version);
      FlooredConfirmation(d, recorded, disk);
      if o != Done {
        return o.Caught();
      }
      o := ForgetRecord();
    }

    /** `deploy/install.sh`: copy the release, then swing `current` by link and rename. A failing
        command, a timeout or a cancellation ends it at any point. `activates` is false for an
        installer that exits successfully without publishing this version. */
    method RunInstaller(version: string, activates: bool) returns (o: Outcome)
      modifies this
      ensures Crash !in old(faults) ==> o != Crashed && Crash !in faults
      ensures o in {Done, Failed, Crashed}
      ensures
        || Core(disk) == Core(old(disk))
        || Core(disk) == Core(old(disk).(releases := old(disk).releases[version := false]))
        || Core(disk) == Core(old(disk).(releases := old(disk).releases[version := true]))
        || Core(disk) == Core(old(disk).(releases := old(disk).releases[version := true], current := ToRelease(version)))
      ensures o == Done && activates ==>
        Core(disk) == Core(old(disk).(releases := old(disk).releases[version := true], current := ToRelease(version)))
      ensures o == Done && !activates ==> disk == old(disk)
      ensures o == Done && activates ==> trace == old(trace) + InstallerCalls(version)
      ensures old(faults) == [] ==> o == Done && faults == []
    {
      if !activates {
        return Done;
      }
      ghost var d := disk;
      :- SystemCall(MakeRelease(version));  // install -d
      disk := disk.(releases := disk.releases[version := false]);
      :- SystemCall(FillRelease(version));  // cp -a, chown, sync
      disk := disk.(releases := disk.releases[version := true]);
      assert disk.releases == d.releases[version := true];
      o := SwingLink(version);
    }

    method SwingLink(version: string) returns (o: Outcome)
      modifies this
      ensures Crash !in old(faults) ==> o != Crashed && Crash !in faults
      ensures o in {Done, Failed, Crashed}
      ensures Core(disk) == Core(old(disk)) || Core(disk) == Core(old(disk).(current := ToRelease(version)))
      ensures o == Done ==> Core(disk) == Core(old(disk).(current := ToRelease(version)))
      ensures o == Done ==> trace == old(trace) + [MakeLink, Swing, SyncRoot]
      ensures old(faults) == [] ==> o == Done && faults == []
    {
      o := SystemCall(MakeLink);  // ln -sfn
      if o != Done {
        return;
      }
      disk := disk.(linkTemp := ToRelease(version));
      :- SystemCall(Swing);  // mv -Tf
      disk := disk.(current := disk.linkTemp, linkTemp := Absent);
      :- SystemCall(SyncRoot);  // chown -h, sync
      return Done;
    }

    /** `packageOk` stands for the checks on the package alone: layout, signature, checksums and
        version file. */
    method InstallUpgrade(version: string, packageOk: bool, activates: bool) returns (o: Outcome)
      requires Consistent(disk)
      modifies this
      ensures Crash !in old(faults) ==> o != Crashed && Crash !in faults
      ensures old(faults) == [] ==> faults == []
      ensures o in {Done, Failed, Crashed}
      ensures o == Done ==>
                trace == old(trace) + WriteCalls(RecordFileName) + (InstallerCalls(version) + WriteCalls(RecordFileName))
      ensures InstallEffect(old(disk), version, o, disk)
      ensures !(packageOk && Installable(AsIs(old(disk)), version)) ==> o == Failed && disk == old(disk)
      ensures old(faults) == [] ==> (o == Done <==> packageOk && activates && Installable(AsIs(old(disk)), version))
    {
      ghost var d := disk;
      if !packageOk {
        return Failed;
      }
      if disk.current == NotALink {
        return Failed;
      }
      if disk.current != Absent && (!IsSafeReleaseTarget(disk.current) || !IsDirectory(disk, disk.current)) {
        return Failed;
      }
      var previous := disk.current;
      if !CheckAntiRollback(disk.floor, previous, version) {
        return Failed;
      }
      if version in disk.releases {
        return Failed;
      }
      var transaction := Transaction(Prepared, version, previous);
      PendingInstallSettles(d, transaction, disk.(record := Recorded(transaction)));
      o := WriteYaml(RecordContent(transaction));
      if o != Done {
        return o.Caught();
      }
      o := ActivateCandidate(d, transaction, activates);
    }

    /** The part of `InstallUpgrade` after the prepared record: run the installer, check what it
        published, record the activation, and recover if any of this fails. */
    method ActivateCandidate(ghost d: Disk, transaction: Transaction, activates: bool) returns (o: Outcome)
      requires Consistent(d) && Installable(AsIs(d), transaction.version)
      requires transaction.previous == d.current && transaction.state == Prepared
      requires Core(disk) == Core(d.(record := Recorded(transaction)))
      modifies this
      ensures Crash !in old(faults) ==> o != Crashed && Crash !in faults
      ensures o in {Done, Failed, Crashed}
      ensures o == Done ==> trace == old(trace) + (InstallerCalls(transaction.version) + WriteCalls(RecordFileName))
      ensures InstallEffect(d, transaction.version, o, disk)
      ensures old(faults) == [] ==> faults == [] && (o == Done <==> activates)
    {
      var version := transaction.version;
      o := InstallCandidate(d, transaction, activates);
      if o == Crashed {
        return;
      }
      if o != Done || disk.current != ToRelease(version) {
        o := AbandonInstall(d, version);
        return;
      }
      o := RecordActivation(d, transaction);
    }

    method InstallCandidate(ghost d: Disk, transaction: Transaction, activates: bool) returns (o: Outcome)
      requires Consistent(d) && Installable(AsIs(d), transaction.version)
      requires transaction.previous == d.current && transaction.state == Prepared
      requires Core(disk) == Core(d.(record := Recorded(transaction)))
      modifies this
      ensures Crash !in old(faults) ==> o != Crashed && Crash !in faults
      ensures o in {Done, Failed, Crashed}
      ensures o == Done && activates ==> trace == old(trace) + InstallerCalls(transaction.version)
      ensures Consistent(disk) && Settle(disk) == AsIs(d) && disk.floor == d.floor && disk.record == Recorded(transaction)
      ensures o == Done && disk.current == ToRelease(transaction.version) ==> activates
      ensures o == Done && activates ==>
                disk.current == ToRelease(transaction.version) && Core(disk) == Core(Published(d, transaction))
      ensures old(faults) == [] ==> o == Done && faults == []
    {
      ghost var prepared := disk;
      PendingInstallSettles(d, transaction, prepared);
      o := RunInstaller(transaction.version, activates);
      PendingInstallSettles(d, transaction, disk);
    }

    method RecordActivation(ghost d: Disk, transaction: Transaction) returns (o: Outcome)
      requires Consistent(d) && Installable(AsIs(d), transaction.version)
      requires transaction.previous == d.current && transaction.state == Prepared
      requires Core(disk) == Core(Published(d, transaction))
      modifies this
      ensures Crash !in old(faults) ==> o != Crashed && Crash !in faults
      ensures o in {Done, Failed, Crashed}
      ensures o == Done ==> trace == old(trace) + WriteCalls(RecordFileName)
      ensures InstallEffect(d, transaction.version, o, disk)
      ensures old(faults) == [] ==> faults == [] && o == Done
    {
      var activated := transaction.(state := Activated);
      PendingInstallSettles(d, transaction, Published(d, transaction));
      PendingInstallSettles(d, activated, Published(d, activated));
      o := WriteYaml(RecordContent(activated));
      assert Core(disk) == Core(Published(d, transaction)) || Core(disk) == Core(Published(d, activated));
      if Core(disk) == Core(Published(d, transaction)) {
        SameCore(disk, Published(d, transaction));
      } else {
        SameCore(disk, Published(d, activated));
      }
      if o == Failed {
        o := AbandonInstall(d, transaction.version);
        return;
      }
      o := o.Caught();
    }

    method AbandonInstall(ghost d: Disk, version: string) returns (o: Outcome)
      requires Consistent(disk) && Settle(disk) == AsIs(d) && disk.floor == d.floor
      requires disk.record.Recorded? && disk.record.transaction.state != Confirmed
      modifies this
      ensures Crash !in old(faults) ==> o != Crashed && Crash !in faults
      ensures o in {Failed, Crashed}
      ensures InstallEffect(d, version, o, disk)
      ensures old(faults) == [] ==> faults == []
    {
      var r, _ := RecoverInterruptedUpgrade();
      o := if r == Crashed then Crashed else Failed;
    }
  }

  // ---------------------------------------------------------------- steps of the proofs above

  /** A removal that has not begun, is half done, or is done. */
  predicate Removing(before: Disk, name: string, after: Disk, done: bool) {
    if done then after == before.(releases := before.releases - {name})
    else
      || after == before
      || after == before.(releases := before.releases - {name})
      || (name in before.releases && after == before.(releases := before.releases[name := false]))
  }

  lemma {:induction false} RollbackDisks(d: Disk, previous: Link, activated: Link, moved: Disk, after: Disk, done: bool)
    requires Core(moved) == Core(d.(current := previous))
    requires activated == if d.current.ToRelease? then d.current else Absent
    requires if activated == Absent || activated == previous then after == moved else Removing(moved, activated.name, after, done)
    ensures DuringRollback(d, previous, after)
    ensures done ==> Core(after) == Core(RolledBack(d, previous))
  {
    assert moved.releases == d.releases by {
      assert Core(moved).releases == moved.releases;
    }
  }

  /** The disks between the prepared record and the end of an install. */
  predicate PendingInstall(d: Disk, tx: Transaction, e: Disk) {
    var p := d.(record := Recorded(tx));
    var complete := p.(releases := d.releases[tx.version := true]);
    || Core(e) == Core(p)
    || Core(e) == Core(p.(releases := d.releases[tx.version := false]))
    || Core(e) == Core(complete)
    || Core(e) == Core(Published(d, tx))
  }

  /** What a successful installer leaves. */
  function Published(d: Disk, tx: Transaction): Disk {
    d.(record := Recorded(tx), releases := d.releases[tx.version := true], current := ToRelease(tx.version))
  }

  /** Temporaries matter to no property of a disk. */
  lemma {:induction false} SameCore(d: Disk, e: Disk)
    requires Core(d) == Core(e)
    ensures d.current == e.current && d.releases == e.releases && d.record == e.record && d.floor == e.floor
    ensures Consistent(d) == Consistent(e) && Settle(d) == Settle(e) && AsIs(d) == AsIs(e)
  {
    var c := Core(d);
    assert c.current == d.current && c.releases == d.releases && c.record == d.record && c.floor == d.floor;
    assert c == Core(e);
    assert c.current == e.current && c.releases == e.releases && c.record == e.record && c.floor == e.floor;
  }

  /** A pending record over a disk that differs from `d` in the candidate's directory and perhaps
      the link to it stands for `d`. */
  lemma {:induction false} PendingDiskSettles(d: Disk, tx: Transaction, current: Link, releases: map<string, bool>)
    requires Consistent(d) && Installable(AsIs(d), tx.version)
    requires tx.previous == d.current && tx.state != Confirmed
    requires releases - {tx.version} == d.releases
    requires current == d.current || (current == ToRelease(tx.version) && IsComplete(d.(releases := releases), current))
    ensures var e := d.(record := Recorded(tx), current := current, releases := releases);
      Consistent(e) && Settle(e) == AsIs(d)
  {
    if d.current != Absent {
      NewerTextIsStrict(tx.version, d.current.name);
      assert d.current.name in releases - {tx.version};
    }
  }

  lemma {:induction false} PendingInstallSettles(d: Disk, tx: Transaction, e: Disk)
    requires Consistent(d) && Installable(AsIs(d), tx.version)
    requires tx.previous == d.current && tx.state != Confirmed
    requires PendingInstall(d, tx, e)
    ensures Consistent(e) && Settle(e) == AsIs(d) && e.floor == d.floor
  {
    var p := d.(record := Recorded(tx));
    var half, whole := d.releases[tx.version := false], d.releases[tx.version := true];
    assert d.releases - {tx.version} == half - {tx.version} == whole - {tx.version} == d.releases;
    PendingDiskSettles(d, tx, d.current, d.releases);
    PendingDiskSettles(d, tx, d.current, half);
    PendingDiskSettles(d, tx, d.current, whole);
    PendingDiskSettles(d, tx, ToRelease(tx.version), whole);
    var disks := [p, p.(releases := half), p.(releases := whole), Published(d, tx)];
    var i := if Core(e) == Core(disks[0]) then 0 else if Core(e) == Core(disks[1]) then 1
             else if Core(e) == Core(disks[2]) then 2 else 3;
    SameCore(e, disks[i]);
  }

  /** Moving the link to the previous release is invisible to recovery. */
  lemma {:induction false} MovedLinkSettles(d: Disk)
    requires Consistent(d) && d.record.Recorded? && d.record.transaction.state != Confirmed
    ensures RecoverEffect(d, Failed, d)
    ensures RecoverEffect(d, Failed, d.(current := d.record.transaction.previous))
  {
  }

  /** So is removing the candidate, by halves or whole, once the link has left it. */
  lemma {:induction false} ShrunkDiskSettles(d: Disk)
    requires Consistent(d) && d.record.Recorded? && d.record.transaction.state != Confirmed
    requires d.current == d.record.transaction.previous
    ensures var version := d.record.transaction.version;
      && RecoverEffect(d, Failed, d.(releases := d.releases[version := false]))
      && RecoverEffect(d, Failed, d.(releases := d.releases - {version}))
  {
    var version := d.record.transaction.version;
    assert d.releases[version := false] - {version} == d.releases - {version};
    assert (d.releases - {version}) - {version} == d.releases - {version};
  }

  lemma {:induction false} RollbackKeepsSettlement(d: Disk, e: Disk)
    requires Consistent(d) && d.record.Recorded? && d.record.transaction.state != Confirmed
    requires DuringRollback(d, d.record.transaction.previous, e)
    ensures RecoverEffect(d, Failed, e) && e.record == d.record
  {
    var version, previous := d.record.transaction.version, d.record.transaction.previous;
    var moved := d.(current := previous);
    MovedLinkSettles(d);
    ShrunkDiskSettles(moved);
    assert d.current == previous || d.current == ToRelease(version);
    var disks := [d, moved, moved.(releases := d.releases[version := false]),
                  moved.(releases := d.releases - {version})];
    var i := if Core(e) == Core(disks[0]) then 0 else if Core(e) == Core(disks[1]) then 1
             else if Core(e) == Core(disks[2]) then 2 else 3;
    assert Core(e) == Core(disks[i]);
    SameCore(e, disks[i]);
  }

  lemma {:induction false} RemovalKeepsSettlement(d: Disk, e: Disk, done: bool)
    requires Consistent(d) && d.record.Recorded? && d.record.transaction.state != Confirmed
    requires d.current == d.record.transaction.previous
    requires Removing(d, d.record.transaction.version, e, done)
    ensures RecoverEffect(d, Failed, e) && e.record == d.record
    ensures done ==> AsIs(e) == Settle(e)
  {
    MovedLinkSettles(d);
    ShrunkDiskSettles(d);
    var version := d.record.transaction.version;
    assert (d.releases - {version}) - {version} == d.releases - {version};
  }

  /** The record of a confirmation is written, or not. */
  lemma {:induction false} RecordedConfirmation(d: Disk, e: Disk)
    requires Consistent(d) && d.record.Recorded? && d.record.transaction.state == Activated
    requires d.current == ToRelease(d.record.transaction.version)
    requires Core(e) == Core(d) || Core(e) == Core(d.(record := Recorded(d.record.transaction.(state := Confirmed))))
    ensures ConfirmEffect(d, d.record.transaction.version, Failed, e)
  {
    var f := d.(record := Recorded(d.record.transaction.(state := Confirmed)));
    if Core(e) == Core(d) {
      SameCore(e, d);
    } else {
      SameCore(e, f);
    }
  }

  /** Behind the record the floor changes nothing any more. */
  lemma {:induction false} FlooredConfirmation(d: Disk, recorded: Disk, e: Disk)
    requires Consistent(d) && d.record.Recorded? && d.record.transaction.state == Activated
    requires d.current == ToRelease(d.record.transaction.version)
    requires Core(recorded) == Core(d.(record := Recorded(d.record.transaction.(state := Confirmed))))
    requires Core(e) == Core(recorded) || Core(e) == Core(recorded.(floor := Floor(d.record.transaction.version)))
    ensures ConfirmEffect(d, d.record.transaction.version, Failed, e)
    ensures e.record == recorded.record && e.releases == d.releases && e.current == d.current
  {
    var f := d.(record := recorded.record);
    var g := f.(floor := Floor(d.record.transaction.version));
    SameCore(recorded, f);
    if Core(e) == Core(recorded) {
      SameCore(e, f);
    } else {
      SameCore(e, g);
    }
  }
}
