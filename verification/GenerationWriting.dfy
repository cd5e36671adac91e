/** The second phase of generation: writing a sorted plan into a file system that may fail at any step. */
module GenerationWriting {
  import opened Text
  import opened Lists

  datatype Entry = File(content: string) | Directory | Special

  type Entries = map<string, Entry>

  datatype GroupOutcome = GroupOutcome(source: string, group: string, location: string, state: GroupState, path: string)

  datatype GroupState = Missing | Empty | Ready

  /** `directory` is empty unless the file gets a directory of its own. */
  datatype Plan = Plan(relative: string, directory: string, content: string, outcome: GroupOutcome)

  /** What the operating system does to one step: succeed, or fail at the directory, at opening, or
      part-way through writing. */
  datatype Fault = NoFault | DirectoryFault | OpenFault | PartialWrite(written: string)

  datatype Written = Written(entries: Entries, ok: bool)

  // ----- one step -----

  /** Create-exclusive without the overwrite flag; temporary file and rename with it. */
  function WriteFile(entries: Entries, plan: Plan, overwrite: bool, fault: Fault): Written {
    if !overwrite then
      if plan.relative in entries then Written(entries, false)
      else match fault
        case NoFault => Written(entries[plan.relative := File(plan.content)], true)
        case PartialWrite(text) => Written(entries[plan.relative := File(text)], false)
        case _ => Written(entries, false)
    else if !fault.NoFault? || (plan.relative in entries && entries[plan.relative].Directory?) then Written(entries, false)
    else Written(entries[plan.relative := File(plan.content)], true)
  }

  function MakeDirectory(entries: Entries, directory: string, fault: Fault): Written {
    if directory == "" then Written(entries, true)
    else if fault.DirectoryFault? || (directory in entries && !entries[directory].Directory?) then Written(entries, false)
    else Written(entries[directory := Directory], true)
  }

  function WriteStep(entries: Entries, plan: Plan, overwrite: bool, fault: Fault): Written {
    var made := MakeDirectory(entries, plan.directory, fault);
    if !made.ok then made else WriteFile(made.entries, plan, overwrite, fault)
  }

  type Faults = nat -> Fault

  /** The file system after writing plans[from..] until the first failure, and how many were written. */
  function Run(entries: Entries, plans: seq<Plan>, overwrite: bool, faults: Faults, from: nat): (r: (Entries, nat))
    requires from <= |plans|
    ensures from <= r.1 <= |plans|
    decreases |plans| - from
  {
    if from == |plans| then (entries, from)
    else
      var step := WriteStep(entries, plans[from], overwrite, faults(from));
      if step.ok then Run(step.entries, plans, overwrite, faults, from + 1) else (step.entries, from)
  }

  predicate Untouched(before: Entries, after: Entries, path: string) {
    (path in after <==> path in before) && (path in before ==> after[path] == before[path])
  }

  class Disk {
    var entries: Entries

    constructor (initial: Entries)
      ensures entries == initial
    {
      entries := initial;
    }

    method MkdirAll(directory: string, fault: Fault) returns (ok: bool)
      modifies this
      ensures Written(entries, ok) == MakeDirectory(old(entries), directory, fault)
    {
      if directory == "" {
        return true;
      }
      if fault.DirectoryFault? || (directory in entries && !entries[directory].Directory?) {
        return false;
      }
      entries := entries[directory := Directory];
      return true;
    }

    method WriteGeneratedFile(plan: Plan, overwrite: bool, fault: Fault) returns (ok: bool)
      modifies this
      ensures ok ==> entries == old(entries)[plan.relative := File(plan.content)]
      ensures overwrite ==>
                (ok <==> fault.NoFault? && (plan.relative in old(entries) ==> !old(entries)[plan.relative].Directory?))
      ensures overwrite && !ok ==> entries == old(entries)
      ensures !overwrite ==> (ok <==> fault.NoFault? && plan.relative !in old(entries))
      ensures !overwrite && !ok && entries != old(entries) ==>
                plan.relative !in old(entries) && fault.PartialWrite?
                && entries == old(entries)[plan.relative := File(fault.written)]
      ensures forall path :: path != plan.relative ==> Untouched(old(entries), entries, path)
      ensures Written(entries, ok) == WriteFile(old(entries), plan, overwrite, fault)
    {
      if !overwrite {
        if plan.relative in entries || fault.OpenFault? || fault.DirectoryFault? {
          return false;
        }
        if fault.PartialWrite? {
          entries := entries[plan.relative := File(fault.written)];
          return false;
        }
        entries := entries[plan.relative := File(plan.content)];
        return true;
      }
      if !fault.NoFault? || (plan.relative in entries && entries[plan.relative].Directory?) {
        return false;
      }
      entries := entries[plan.relative := File(plan.content)];
      return true;
    }

    method WriteAll(plans: seq<Plan>, overwrite: bool, faults: Faults)
      returns (paths: seq<string>, outcomes: seq<GroupOutcome>)
      modifies this
      ensures (entries, |paths|) == Run(old(entries), plans, overwrite, faults, 0)
      ensures |paths| == |outcomes| && forall i :: 0 <= i < |paths| ==>
                i < |plans| && paths[i] == plans[i].relative && outcomes[i] == plans[i].outcome
    {
      paths, outcomes := [], [];
      for n := 0 to |plans|
        invariant |paths| == |outcomes| == n
        invariant Run(old(entries), plans, overwrite, faults, 0) == Run(entries, plans, overwrite, faults, n)
        invariant forall i :: 0 <= i < n ==> paths[i] == plans[i].relative && outcomes[i] == plans[i].outcome
      {
        var ok := MkdirAll(plans[n].directory, faults(n));
        if !ok {
          return;
        }
        ok := WriteGeneratedFile(plans[n], overwrite, faults(n));
        if !ok {
          return;
        }
        paths := paths + [plans[n].relative];
        outcomes := outcomes + [plans[n].outcome];
      }
    }
  }

  // ----- what a run can and cannot do -----

  lemma StepKeepsExisting(entries: Entries, plan: Plan, fault: Fault, path: string)
    requires path in entries
    ensures var after := WriteStep(entries, plan, false, fault).entries; path in after && after[path] == entries[path]
  {
  }

  /** Without the overwrite flag no pre-existing entry ever changes, whatever fails. */
  lemma {:induction false} ExistingNeverChange(entries: Entries, plans: seq<Plan>, faults: Faults, from: nat,
                                        path: string)
    requires from <= |plans| && path in entries
    ensures var after := Run(entries, plans, false, faults, from).0; path in after && after[path] == entries[path]
    decreases |plans| - from
  {
    if from < |plans| {
      StepKeepsExisting(entries, plans[from], faults(from), path);
      var step := WriteStep(entries, plans[from], false, faults(from));
      if step.ok { ExistingNeverChange(step.entries, plans, faults, from + 1, path); }
    }
  }

  /** The destination of a plan that was reached, or its directory when that did not exist. */
  ghost predicate Reached(entries: Entries, plans: seq<Plan>, from: nat, done: nat, path: string) {
    exists i :: from <= i < |plans| && i <= done && (path == plans[i].relative || (path == plans[i].directory && path !in entries))
  }

  lemma StepChanges(entries: Entries, plan: Plan, overwrite: bool, fault: Fault, path: string)
    requires path != plan.relative && (path == plan.directory ==> path in entries)
    ensures Untouched(entries, WriteStep(entries, plan, overwrite, fault).entries, path)
  {
  }

  /** Whatever happens, a run changes nothing but planned paths, and only those of steps that were reached. */
  lemma {:induction false} OnlyPlannedChange(entries: Entries, plans: seq<Plan>, overwrite: bool, faults: Faults,
                                             from: nat, path: string)
    requires from <= |plans|
    ensures var (after, done) := Run(entries, plans, overwrite, faults, from);
            Untouched(entries, after, path) || Reached(entries, plans, from, done, path)
    decreases |plans| - from
  {
    if from < |plans| {
      var (after, done) := Run(entries, plans, overwrite, faults, from);
      if path != plans[from].relative && (path == plans[from].directory ==> path in entries) {
        StepChanges(entries, plans[from], overwrite, faults(from), path);
        var step := WriteStep(entries, plans[from], overwrite, faults(from));
        if step.ok { OnlyPlannedChange(step.entries, plans, overwrite, faults, from + 1, path); }
      }
    }
  }

  /** The last of the plans from..done that writes `path`. */
  ghost predicate LastWriter(plans: seq<Plan>, path: string, from: nat, done: nat, i: nat) {
    && from <= i < done <= |plans| && plans[i].relative == path
    && forall j :: i < j < done ==> plans[j].relative != path
  }

  ghost predicate NoWriter(plans: seq<Plan>, path: string, from: nat, done: nat) {
    done <= |plans| && forall j :: from <= j < done ==> plans[j].relative != path
  }

  /** The partial file that an exclusive create leaves when it fails midway. */
  ghost predicate LeftPartial(before: Entries, after: Entries, plans: seq<Plan>, faults: Faults, done: nat, path: string) {
    && done < |plans| && plans[done].relative == path && faults(done).PartialWrite?
    && path !in before && path in after && after[path] == File(faults(done).written)
  }

  /** What a run over plans[from..] that stopped at `done` makes of a path. */
  ghost predicate Leaves(before: Entries, after: Entries, plans: seq<Plan>, overwrite: bool, faults: Faults,
                         from: nat, done: nat, path: string) {
    && (forall i: nat :: LastWriter(plans, path, from, done, i) ==> path in after && after[path] == File(plans[i].content))
    && (NoWriter(plans, path, from, done) ==>
          Untouched(before, after, path) || (!overwrite && LeftPartial(before, after, plans, faults, done, path)))
  }

  /** After any run, over colliding destinations too: a path holds exactly the content of the last finished
      plan for it; without one it is as it was, except for a partial file of the failing exclusive create. */
  lemma {:induction false} PrefixIsWritten(entries: Entries, plans: seq<Plan>, overwrite: bool, faults: Faults,
                                           from: nat, path: string)
    requires from <= |plans| && forall j :: from <= j < |plans| ==> plans[j].directory != path
    ensures var (after, done) := Run(entries, plans, overwrite, faults, from);
            Leaves(entries, after, plans, overwrite, faults, from, done, path)
    decreases |plans| - from
  {
    if from < |plans| {
      var step := WriteStep(entries, plans[from], overwrite, faults(from));
      var (after, done) := Run(entries, plans, overwrite, faults, from);
      StepLeaves(entries, plans[from], overwrite, faults(from), path);
      if step.ok {
        PrefixIsWritten(step.entries, plans, overwrite, faults, from + 1, path);
        hide Run, WriteStep;
        OneStepEarlier(entries, step.entries, after, plans, overwrite, faults, from, done, path);
      } else {
        hide WriteStep;
        assert after == step.entries && done == from;
      }
    }
  }

  lemma StepLeaves(entries: Entries, plan: Plan, overwrite: bool, fault: Fault, path: string)
    requires plan.directory != path
    ensures var step := WriteStep(entries, plan, overwrite, fault);
            && (plan.relative != path ==> Untouched(entries, step.entries, path))
            && (step.ok && plan.relative == path ==> path in step.entries && step.entries[path] == File(plan.content))
            && (!step.ok && !Untouched(entries, step.entries, path) ==>
                  && !overwrite && plan.relative == path && fault.PartialWrite? && path !in entries
                  && path in step.entries && step.entries[path] == File(fault.written))
  {
  }

  lemma OneStepEarlier(before: Entries, middle: Entries, after: Entries, plans: seq<Plan>, overwrite: bool, faults: Faults,
                       from: nat, done: nat, path: string)
    requires from < done <= |plans| && Leaves(middle, after, plans, overwrite, faults, from + 1, done, path)
    requires plans[from].relative != path ==> Untouched(before, middle, path)
    requires plans[from].relative == path ==> path in middle && middle[path] == File(plans[from].content)
    ensures Leaves(before, after, plans, overwrite, faults, from, done, path)
  {
    forall i: nat | LastWriter(plans, path, from, done, i) ensures path in after && after[path] == File(plans[i].content) {
      if i == from {
        assert NoWriter(plans, path, from + 1, done);
      } else {
        assert LastWriter(plans, path, from + 1, done, i);
      }
    }
    if NoWriter(plans, path, from, done) {
      assert NoWriter(plans, path, from + 1, done);
    }
  }

  lemma {:induction false} SomeLastWriter(plans: seq<Plan>, i: nat, done: nat) returns (last: nat)
    requires i < done <= |plans|
    ensures i <= last && LastWriter(plans, plans[i].relative, 0, done, last)
    decreases done - i
  {
    if j :| i < j < done && plans[j].relative == plans[i].relative {
      last := SomeLastWriter(plans, j, done);
    } else {
      last := i;
    }
  }

  /** No destination is the directory of a plan. */
  ghost predicate DirectoriesApart(plans: seq<Plan>) {
    forall i, j :: 0 <= i < |plans| && 0 <= j < |plans| ==> plans[i].relative != plans[j].directory
  }

  /** Every planned content is on the disk. */
  ghost predicate AllOnDisk(plans: seq<Plan>, after: Entries) {
    forall i :: 0 <= i < |plans| ==> plans[i].relative in after && after[plans[i].relative] == File(plans[i].content)
  }

  /** A completed run leaves every planned content on the disk exactly when plans for one destination agree. */
  lemma CompletedRunKeepsAllIff(entries: Entries, plans: seq<Plan>, overwrite: bool, faults: Faults)
    requires DirectoriesApart(plans) && Run(entries, plans, overwrite, faults, 0).1 == |plans|
    ensures AllOnDisk(plans, Run(entries, plans, overwrite, faults, 0).0) <==>
            forall i, j :: 0 <= i < j < |plans| && plans[i].relative == plans[j].relative ==> plans[i].content == plans[j].content
  {
    hide Run;
    var after := Run(entries, plans, overwrite, faults, 0).0;
    forall i | 0 <= i < |plans|
      ensures plans[i].relative in after
      ensures exists k :: i <= k < |plans| && plans[k].relative == plans[i].relative
                          && after[plans[i].relative] == File(plans[k].content)
    {
      var k := SomeLastWriter(plans, i, |plans|);
      PrefixIsWritten(entries, plans, overwrite, faults, 0, plans[i].relative);
    }
  }

  const NO_FAULTS: Faults := (n: nat) => NoFault

  /** A plan made for a file system in which none of its destinations or directories exists yet. */
  ghost predicate Vacant(entries: Entries, plans: seq<Plan>) {
    forall i :: 0 <= i < |plans| ==> plans[i].relative !in entries && (plans[i].directory in entries ==> plans[i].directory == "")
  }

  /** Two plans with the same destination, which the planner does not exclude across sources, stop an
      exclusive run at the second of them at the latest, after the first was already written. */
  lemma {:induction false} CollisionStopsRun(entries: Entries, plans: seq<Plan>, faults: Faults, from: nat, i: nat,
                                        j: nat)
    requires from <= i < j < |plans| && plans[i].relative == plans[j].relative
    ensures Run(entries, plans, false, faults, from).1 <= j
    decreases |plans| - from
  {
    var step := WriteStep(entries, plans[from], false, faults(from));
    if step.ok {
      if i == from {
        assert plans[j].relative in step.entries;
        BlockedAt(step.entries, plans, faults, from + 1, j);
      } else {
        CollisionStopsRun(step.entries, plans, faults, from + 1, i, j);
      }
    }
  }

  lemma {:induction false} BlockedAt(entries: Entries, plans: seq<Plan>, faults: Faults, from: nat, j: nat)
    requires from <= j < |plans| && plans[j].relative in entries
    ensures Run(entries, plans, false, faults, from).1 <= j
    decreases |plans| - from
  {
    if from < j {
      var step := WriteStep(entries, plans[from], false, faults(from));
      StepKeepsExisting(entries, plans[from], faults(from), plans[j].relative);
      if step.ok { BlockedAt(step.entries, plans, faults, from + 1, j); }
    }
  }

  /** Absent faults, an exclusive run completes exactly when the planned destinations are distinct. */
  lemma ExclusiveRunCompletesIff(entries: Entries, plans: seq<Plan>)
    requires Vacant(entries, plans) && DirectoriesApart(plans)
    ensures Run(entries, plans, false, NO_FAULTS, 0).1 == |plans| <==>
            forall i, j :: 0 <= i < j < |plans| ==> plans[i].relative != plans[j].relative
  {
    if i, j :| 0 <= i < j < |plans| && plans[i].relative == plans[j].relative {
      CollisionStopsRun(entries, plans, NO_FAULTS, 0, i, j);
    } else {
      DistinctRunCompletes(entries, plans, 0);
    }
  }

  lemma {:induction false} DistinctRunCompletes(entries: Entries, plans: seq<Plan>, from: nat)
    requires from <= |plans| && DirectoriesApart(plans)
    requires forall i, j :: 0 <= i < j < |plans| ==> plans[i].relative != plans[j].relative
    requires forall i :: from <= i < |plans| ==> plans[i].relative !in entries
    requires forall i :: from <= i < |plans| && plans[i].directory != "" && plans[i].directory in entries ==>
               entries[plans[i].directory].Directory?
    ensures Run(entries, plans, false, NO_FAULTS, from).1 == |plans|
    decreases |plans| - from
  {
    if from < |plans| {
      var step := WriteStep(entries, plans[from], false, NoFault);
      assert step.ok;
      DistinctRunCompletes(step.entries, plans, from + 1);
    }
  }

  /** Destinations and directories that an overwriting run can replace. */
  ghost predicate Replaceable(entries: Entries, plans: seq<Plan>) {
    forall i :: 0 <= i < |plans| ==>
      && (plans[i].relative in entries ==> entries[plans[i].relative].File?)
      && (plans[i].directory in entries && plans[i].directory != "" ==> entries[plans[i].directory].Directory?)
  }

  /** Absent faults an overwriting run completes, whether or not destinations coincide. */
  lemma {:induction false} OverwritingRunCompletes(entries: Entries, plans: seq<Plan>, from: nat)
    requires from <= |plans| && DirectoriesApart(plans) && Replaceable(entries, plans)
    ensures Run(entries, plans, true, NO_FAULTS, from).1 == |plans|
    decreases |plans| - from
  {
    if from < |plans| {
      var step := WriteStep(entries, plans[from], true, NoFault);
      assert step.ok;
      OverwritingRunCompletes(step.entries, plans, from + 1);
    }
  }
}
