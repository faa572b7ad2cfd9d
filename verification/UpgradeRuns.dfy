/** Whole histories of an install root: any number of installs, confirmations and recoveries, each
    of which may be stopped at any system call. */
module UpgradeRuns {
  import opened Options
  import opened SemanticVersions
  import opened UpgradeTransactions

  datatype Operation = Install(version: string) | Confirm(version: string) | Recover

  ghost predicate Step(d: Disk, op: Operation, o: Outcome, e: Disk) {
    match op
    case Install(version) => InstallEffect(d, version, o, e)
    case Confirm(version) => ConfirmEffect(d, version, o, e)
    case Recover => RecoverEffect(d, o, e)
  }

  /** `disks[i]` is the disk before operation `i`; a crash shows up as an operation that ended with
      `Crashed`. As in the safe-ota tool, an install only starts when no transaction is pending. */
  datatype Run = Run(disks: seq<Disk>, ops: seq<Operation>, outcomes: seq<Outcome>)

  ghost predicate IsRun(r: Run) {
    && |r.disks| == |r.ops| + 1 && |r.outcomes| == |r.ops|
    && Consistent(r.disks[0])
    && (forall i | 0 <= i < |r.ops| :: Step(r.disks[i], r.ops[i], r.outcomes[i], r.disks[i + 1]))
    && (forall i | 0 <= i < |r.ops| :: r.ops[i].Install? ==> r.disks[i].record == NoRecord)
  }

  /** Every release is kept as it is, and every new one is complete. */
  predicate KeepsReleases(before: map<string, bool>, after: map<string, bool>) {
    && (forall name | name in before :: name in after && after[name] == before[name])
    && (forall name | name in after && name !in before :: after[name])
  }

  /** What users see either stays as it was, or moves to a newer version that is also the floor, with
      the old releases still there. */
  ghost predicate Advances(s: Installed, t: Installed) {
    t == s
    || (&& t.current.ToRelease?
        && KeepsReleases(s.releases, t.releases)
        && t.floor == Floor(t.current.name)
        && FloorBelow(s.floor, t.current.name)
        && (s.current != Absent ==> s.current.ToRelease? && NewerText(t.current.name, s.current.name)))
  }

  lemma {:induction false} NewerTextTransitive(a: string, b: string, c: string)
    requires NewerText(a, b) && NewerText(b, c)
    ensures NewerText(a, c)
  {
    CompareIsTotalOrder(Parse(a).value, Parse(b).value, Parse(c).value);
  }

  lemma {:induction false} AdvancesTransitive(s: Installed, t: Installed, u: Installed)
    requires Advances(s, t) && Advances(t, u)
    ensures Advances(s, u)
  {
    if s != t && t != u {
      if s.floor != NoFloor {
        NewerTextTransitive(u.current.name, t.current.name, s.floor.text);
      }
      if s.current != Absent {
        NewerTextTransitive(u.current.name, t.current.name, s.current.name);
      }
    }
  }

  lemma {:induction false} StepAdvances(d: Disk, op: Operation, o: Outcome, e: Disk)
    requires Consistent(d) && Step(d, op, o, e)
    requires op.Install? ==> d.record == NoRecord
    ensures Consistent(e) && FloorAdvances(d.floor, e.floor) && Advances(Settle(d), Settle(e))
  {
  }

  /** The write-ahead invariant over whole histories: every disk, also one left by a crash, is
      consistent, and what recovery would make of it only ever moves to strictly newer versions. */
  lemma {:induction false} RunAdvances(r: Run, i: nat, j: nat)
    requires IsRun(r) && i <= j <= |r.ops|
    ensures Consistent(r.disks[j])
    ensures FloorAdvances(r.disks[i].floor, r.disks[j].floor)
    ensures Advances(Settle(r.disks[i]), Settle(r.disks[j]))
    decreases j, i
  {
    if i < j {
      RunAdvances(r, i, j - 1);
      StepAdvances(r.disks[j - 1], r.ops[j - 1], r.outcomes[j - 1], r.disks[j]);
      FloorAdvancesTransitive(r.disks[i].floor, r.disks[j - 1].floor, r.disks[j].floor);
      AdvancesTransitive(Settle(r.disks[i]), Settle(r.disks[j - 1]), Settle(r.disks[j]));
    } else if 0 < j {
      RunAdvances(r, j - 1, j - 1);
      StepAdvances(r.disks[j - 1], r.ops[j - 1], r.outcomes[j - 1], r.disks[j]);
    }
  }

  /** `current` never names a release that is missing or incomplete, at no crash point. */
  lemma {:induction false} CurrentAlwaysComplete(r: Run, j: nat)
    requires IsRun(r) && j <= |r.ops|
    ensures r.disks[j].current == Absent || IsComplete(r.disks[j], r.disks[j].current)
  {
    RunAdvances(r, j, j);
  }

  /** Operation `k` is a confirmation that took effect on what recovery would make of the disk: the
      candidate becomes current, with its floor, and the releases are those that were there. */
  ghost predicate TakesEffect(r: Run, k: nat)
    requires IsRun(r) && k < |r.ops|
  {
    && r.ops[k].Confirm?
    && Settle(r.disks[k + 1]) == Installed(ToRelease(r.ops[k].version), r.disks[k].releases, Floor(r.ops[k].version))
  }

  /** The settled state is as it was, or it is the installed state of the last confirmation that took
      effect; nothing else ever changes it. */
  lemma {:induction false} SettledIsLastConfirmation(r: Run, i: nat, j: nat)
    requires IsRun(r) && i <= j <= |r.ops|
    ensures Settle(r.disks[j]) == Settle(r.disks[i])
         || exists k | i <= k < j :: TakesEffect(r, k) && Settle(r.disks[j]) == Settle(r.disks[k + 1])
    decreases j
  {
    if i < j {
      SettledIsLastConfirmation(r, i, j - 1);
      RunAdvances(r, j - 1, j - 1);
      assert Step(r.disks[j - 1], r.ops[j - 1], r.outcomes[j - 1], r.disks[j]);
      if Settle(r.disks[j]) != Settle(r.disks[j - 1]) {
        assert TakesEffect(r, j - 1);
      }
    }
  }

  /** A confirmation that finishes takes effect. */
  lemma {:induction false} FinishedTakesEffect(r: Run, k: nat)
    requires IsRun(r) && k < |r.ops| && r.ops[k].Confirm? && r.outcomes[k] == Done
    ensures TakesEffect(r, k)
  {
    assert Step(r.disks[k], r.ops[k], r.outcomes[k], r.disks[k + 1]);
  }

  /** Two confirmations in one history: the later version is newer. */
  lemma {:induction false} ConfirmedVersionsIncrease(r: Run, i: nat, j: nat)
    requires IsRun(r) && i < j < |r.ops|
    requires r.ops[i].Confirm? && r.outcomes[i] == Done
    requires r.ops[j].Confirm? && r.outcomes[j] == Done
    ensures NewerText(r.ops[j].version, r.ops[i].version)
  {
    RunAdvances(r, i, i);
    RunAdvances(r, i + 1, j);
    var first, last := r.ops[i].version, r.ops[j].version;
    assert Step(r.disks[i], r.ops[i], r.outcomes[i], r.disks[i + 1]);
    assert Step(r.disks[j], r.ops[j], r.outcomes[j], r.disks[j + 1]);
    var s, t := Settle(r.disks[i + 1]), Settle(r.disks[j]);
    assert s.floor == Floor(first) && t.floor == r.disks[j].floor && FloorBelow(t.floor, last);
    if s != t {
      NewerTextTransitive(last, t.floor.text, first);
    }
  }

  /** Recovery may itself be cut short any number of times; the first one that finishes leaves no
      record, the previous release without the candidate if the upgrade was not confirmed, and the
      candidate with its floor if it was. */
  lemma {:induction false} RecoveryThroughCrashes(r: Run, i: nat, j: nat)
    requires IsRun(r) && i < j <= |r.ops|
    requires forall k | i <= k < j :: r.ops[k] == Recover
    ensures Settle(r.disks[j]) == Settle(r.disks[i])
    ensures r.outcomes[j - 1] == Done ==> AsIs(r.disks[j]) == Settle(r.disks[i]) && r.disks[j].record == NoRecord
    decreases j
  {
    if i < j - 1 {
      RecoveryThroughCrashes(r, i, j - 1);
    }
    assert Step(r.disks[j - 1], r.ops[j - 1], r.outcomes[j - 1], r.disks[j]);
  }

  /** The settled disk, spelled out for the record that was pending. */
  lemma {:induction false} SettledResult(d: Disk, e: Disk)
    requires Consistent(d) && d.record.Recorded?
    requires AsIs(e) == Settle(d)
    ensures var tx := d.record.transaction;
      if tx.state == Confirmed then
        e.current == ToRelease(tx.version) && e.floor == Floor(tx.version) && e.releases == d.releases
        && IsComplete(e, e.current)
      else
        e.current == tx.previous && tx.version !in e.releases && e.floor == d.floor
        && (e.current == Absent || IsComplete(e, e.current))
  {
  }

  /** Starting an install without recovering first is safe exactly when recovery would have left the
      visible state alone. */
  lemma {:induction false} InstallOverPendingRecord(d: Disk, version: string, e: Disk)
    requires Consistent(d) && InstallEffect(d, version, Done, e)
    ensures Settle(e) == Settle(d) <==> Settle(d) == AsIs(d)
    ensures d.record == NoRecord ==> Settle(d) == AsIs(d)
    ensures d.record.Recorded? ==>
              var tx := d.record.transaction;
              (Settle(d) == AsIs(d) <==>
               if tx.state == Confirmed then d.floor == Floor(tx.version)
               else d.current == tx.previous && tx.version !in d.releases)
  {
    if d.record.Recorded? && d.record.transaction.state != Confirmed {
      var tx := d.record.transaction;
      assert tx.version !in d.releases ==> d.releases - {tx.version} == d.releases;
      assert tx.version in d.releases ==> tx.version !in d.releases - {tx.version};
    }
  }

  /** Disks on which it is not, for any three versions in ascending order: the first is the release
      to go back to, the second is active but not confirmed, and an install of the third would take
      the second for its previous release. */
  lemma {:induction false} InstallForgetsRollback(first: string, second: string, third: string) returns (d: Disk)
    requires NewerText(second, first) && NewerText(third, second)
    ensures Consistent(d) && Installable(AsIs(d), third)
    ensures Settle(d).current == ToRelease(first) && AsIs(d).current == ToRelease(second)
    ensures forall e :: InstallEffect(d, third, Done, e) ==> Settle(e).current == ToRelease(second)
  {
    var tx := Transaction(Activated, second, ToRelease(first));
    d := Disk(ToRelease(second), map[first := true, second := true], Recorded(tx), NoFloor, Absent, false, false);
    ParsedIsValidVersion(first);
    ParsedIsValidVersion(second);
    NewerTextTransitive(third, second, first);
    NewerTextIsStrict(second, first);
    NewerTextIsStrict(third, first);
    NewerTextIsStrict(third, second);
  }

  lemma {:induction false} ExampleVersions()
    ensures NewerText("1.1.0", "1.0.0") && NewerText("1.2.0", "1.1.0")
  {
    assert Print(1, 0, 0) == "1.0.0" && Print(1, 1, 0) == "1.1.0" && Print(1, 2, 0) == "1.2.0";
    ParseOfPrint(1, 0, 0);
    ParseOfPrint(1, 1, 0);
    ParseOfPrint(1, 2, 0);
    CompareByPrecedence(SemanticVersion([1, 1, 0]), SemanticVersion([1, 0, 0]));
    CompareByPrecedence(SemanticVersion([1, 2, 0]), SemanticVersion([1, 1, 0]));
  }

  /** So there is such a disk: releases 1.0.0 and 1.1.0, and an install of 1.2.0. */
  lemma {:induction false} RollbackTargetLost() returns (d: Disk)
    ensures Consistent(d) && Installable(AsIs(d), "1.2.0")
    ensures Settle(d).current == ToRelease("1.0.0")
    ensures forall e :: InstallEffect(d, "1.2.0", Done, e) ==> Settle(e).current == ToRelease("1.1.0")
  {
    ExampleVersions();
    d := InstallForgetsRollback("1.0.0", "1.1.0", "1.2.0");
  }

  // ---------------------------------------------------------------- the safe-ota tool

  datatype Exit = Success | OperationFailed | Unhealthy | Stopped

  /** The standalone path of `ExecuteSafeOta`: recover, install, wait for health, confirm. `Stopped`
      is a crash. A successful exit leaves the new version running with its floor; an unhealthy one
      leaves the install root as it was; and whatever happens, what a later recovery will make of it
      is one of the two. */
  method ExecuteSafeOta(root: InstallRoot, version: string, packageOk: bool, activates: bool, healthy: bool)
    returns (exit: Exit)
    requires Consistent(root.disk)
    modifies root
    ensures Consistent(root.disk) && FloorAdvances(old(root.disk.floor), root.disk.floor)
    ensures Advances(Settle(old(root.disk)), Settle(root.disk))
    ensures || Settle(root.disk) == Settle(old(root.disk))
            || Settle(root.disk)
               == Installed(ToRelease(version), Settle(old(root.disk)).releases[version := true], Floor(version))
    ensures Crash !in old(root.faults) ==> exit != Stopped
    ensures exit == Success ==>
              && root.disk.record == NoRecord
              && root.disk.current == ToRelease(version)
              && root.disk.floor == Floor(version)
              && root.disk.releases == Settle(old(root.disk)).releases[version := true]
    ensures exit == Unhealthy ==>
              root.disk.record == NoRecord && AsIs(root.disk) == Settle(old(root.disk))
    ensures old(root.faults) == [] ==>
              root.faults == []
              && (exit == Success <==>
                  packageOk && activates && healthy && Installable(Settle(old(root.disk)), version))
              && (exit == Unhealthy <==>
                  packageOk && activates && !healthy && Installable(Settle(old(root.disk)), version))
  {
    ghost var d := root.disk;
    var o, _ := root.RecoverInterruptedUpgrade();
    if o != Done {
      return if o == Crashed then Stopped else OperationFailed;
    }
    o := root.InstallUpgrade(version, packageOk, activates);
    ghost var installed := root.disk;
    if o == Crashed {
      return Stopped;
    }
    if o != Done {
      var r, _ := root.RecoverInterruptedUpgrade();
      FloorAdvancesTransitive(d.floor, installed.floor, root.disk.floor);
      return if r == Crashed then Stopped else OperationFailed;
    }
    if !healthy {
      var r, _ := root.RecoverInterruptedUpgrade();
      FloorAdvancesTransitive(d.floor, installed.floor, root.disk.floor);
      return if r == Crashed then Stopped else if r == Failed then OperationFailed else Unhealthy;
    }
    o := root.ConfirmUpgrade(version);
    ghost var confirmed := root.disk;
    StepAdvances(installed, Confirm(version), o, confirmed);
    FloorAdvancesTransitive(d.floor, installed.floor, confirmed.floor);
    if o == Crashed {
      return Stopped;
    }
    if o != Done {
      var r, _ := root.RecoverInterruptedUpgrade();
      FloorAdvancesTransitive(d.floor, confirmed.floor, root.disk.floor);
      return if r == Crashed then Stopped else OperationFailed;
    }
    return Success;
  }

  // ---------------------------------------------------------------- upgrades in numbers

  datatype Numbers = Numbers(major: nat, minor: nat, patch: nat)

  predicate IsWide(n: Numbers) {
    n.major < 0x1_0000_0000_0000_0000 && n.minor < 0x1_0000_0000_0000_0000 && n.patch < 0x1_0000_0000_0000_0000
  }

  function Name(n: Numbers): string {
    Print(n.major, n.minor, n.patch)
  }

  /** The major numbers decide first, then the minor ones, then the patches. */
  predicate IsAbove(a: Numbers, b: Numbers) {
    || a.major > b.major
    || (a.major == b.major && a.minor > b.minor)
    || (a.major == b.major && a.minor == b.minor && a.patch > b.patch)
  }

  /** `current` and the floor, where they are there, in numbers. */
  ghost predicate Shows(s: Installed, current: Option<Numbers>, floor: Option<Numbers>) {
    && s.current == (if current.Some? then ToRelease(Name(current.value)) else Absent)
    && s.floor == (if floor.Some? then Floor(Name(floor.value)) else NoFloor)
    && (current.Some? ==> IsWide(current.value) && Name(current.value) in s.releases)
    && (floor.Some? ==> IsWide(floor.value))
  }

  predicate IsAboveAll(candidate: Numbers, current: Option<Numbers>, floor: Option<Numbers>) {
    (current.Some? ==> IsAbove(candidate, current.value)) && (floor.Some? ==> IsAbove(candidate, floor.value))
  }

  lemma {:induction false} NewerIsAbove(a: Numbers, b: Numbers)
    requires IsWide(a) && IsWide(b)
    ensures Parse(Name(a)).Some? && (NewerText(Name(a), Name(b)) <==> IsAbove(a, b))
  {
    ParseOfPrint(a.major, a.minor, a.patch);
    ParseOfPrint(b.major, b.minor, b.patch);
    CompareByPrecedence(SemanticVersion([a.major, a.minor, a.patch]), SemanticVersion([b.major, b.minor, b.patch]));
  }

  /** A candidate that is not there yet gets past the checks of an install if and only if it is above the
      current release and the floor, as far as they are there. */
  lemma {:induction false} InstallableIffAbove(s: Installed, candidate: Numbers, current: Option<Numbers>, floor: Option<Numbers>)
    requires Shows(s, current, floor) && IsWide(candidate) && Name(candidate) !in s.releases
    ensures Installable(s, Name(candidate)) <==> IsAboveAll(candidate, current, floor)
  {
    NewerIsAbove(candidate, candidate);
    if current.Some? {
      NewerIsAbove(candidate, current.value);
      NewerIsAbove(current.value, candidate);
      ParsedIsValidVersion(Name(current.value));
    }
    if floor.Some? {
      NewerIsAbove(candidate, floor.value);
    }
  }

  /** Without faults an upgrade of a good package succeeds if and only if its version is above what is
      there. */
  method UpgradeOnce(root: InstallRoot, candidate: Numbers, current: Option<Numbers>, floor: Option<Numbers>)
    returns (exit: Exit)
    requires Consistent(root.disk) && root.faults == []
    requires IsWide(candidate) && Name(candidate) !in Settle(root.disk).releases
    requires Shows(Settle(root.disk), current, floor)
    modifies root
    ensures Consistent(root.disk) && root.faults == []
    ensures exit == Success <==> IsAboveAll(candidate, current, floor)
    ensures exit == Success ==>
              && Settle(root.disk) == AsIs(root.disk)
              && Shows(AsIs(root.disk), Some(candidate), Some(candidate))
              && root.disk.releases == Settle(old(root.disk)).releases[Name(candidate) := true]
  {
    InstallableIffAbove(Settle(root.disk), candidate, current, floor);
    exit := ExecuteSafeOta(root, Name(candidate), true, true, true);
  }

  /** Two upgrades with ascending versions both succeed: the floor that the first one leaves lets the
      second one pass. */
  method UpgradeTwice(root: InstallRoot, first: Numbers, second: Numbers, current: Option<Numbers>, floor: Option<Numbers>)
    returns (exits: seq<Exit>)
    requires Consistent(root.disk) && root.faults == []
    requires IsWide(first) && IsWide(second) && IsAboveAll(first, current, floor) && IsAbove(second, first)
    requires Shows(Settle(root.disk), current, floor)
    requires Name(first) !in Settle(root.disk).releases && Name(second) !in Settle(root.disk).releases
    modifies root
    ensures exits == [Success, Success]
    ensures root.disk.current == ToRelease(Name(second)) && root.disk.floor == Floor(Name(second))
    ensures root.disk.releases == Settle(old(root.disk)).releases[Name(first) := true][Name(second) := true]
  {
    NewerIsAbove(second, first);
    NewerTextIsStrict(Name(second), Name(first));
    var one := UpgradeOnce(root, first, current, floor);
    var two := UpgradeOnce(root, second, Some(first), Some(first));
    exits := [one, two];
  }
}
