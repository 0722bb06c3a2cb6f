/** Planning merge compactions: grouping the files of a table and cutting each group into runs. */
module Compaction {
  import opened Tables
  import opened CompactionRuns

  datatype File = File(
    size: nat, schemaVersion: nat, partitionId: Option<nat>, partitionValues: seq<Option<string>>,
    hasDeletes: bool, endSnapshot: Option<nat>)

  /** Files of one group can be merged; without a schema version they are rewritten to the latest. */
  datatype Group = Group(schemaVersion: Option<nat>, partitionId: Option<nat>, partitionValues: seq<Option<string>>)

  datatype Command = Command(files: seq<nat>, bindToLatest: bool)

  /** What a plan is made from: the files, the target size and the schema versions that merge into
      the latest. */
  datatype Job = Job(files: seq<File>, target: nat, latest: set<nat>)

  function GroupOf(job: Job, i: nat): Group
    requires i < |job.files|
  {
    var f := job.files[i];
    Group(if f.schemaVersion in job.latest then None else Some(f.schemaVersion), f.partitionId, f.partitionValues)
  }

  predicate Eligible(job: Job, i: nat)
    requires i < |job.files|
  {
    job.files[i].size < job.target && !job.files[i].hasDeletes && job.files[i].endSnapshot.None?
  }

  /** The candidate files of a group among the first n, in order. */
  function Members(job: Job, g: Group, n: nat): seq<nat>
    requires n <= |job.files|
  {
    if n == 0 then []
    else Members(job, g, n - 1) + if Eligible(job, n - 1) && GroupOf(job, n - 1) == g then [n - 1] else []
  }

  ghost predicate Ascending(s: seq<nat>) {
    forall a, b :: 0 <= a < b < |s| ==> s[a] < s[b]
  }

  /** A group's candidates are its eligible files, in ascending order. */
  lemma {:induction false} MembersAre(job: Job, g: Group, n: nat)
    requires n <= |job.files|
    ensures forall i :: i in Members(job, g, n) <==> 0 <= i < n && Eligible(job, i) && GroupOf(job, i) == g
    ensures Ascending(Members(job, g, n))
  {
    if n > 0 {
      MembersAre(job, g, n - 1);
      var before := Members(job, g, n - 1);
      forall a | 0 <= a < |before| ensures before[a] < n - 1 {
        assert before[a] in before;
      }
    }
  }

  function Candidates(job: Job, g: Group): seq<nat> {
    Members(job, g, |job.files|)
  }

  function ListOf(candidates: map<Group, seq<nat>>, g: Group): seq<nat> {
    if g in candidates then candidates[g] else []
  }

  /** The groups so far with their candidates. */
  ghost predicate Grouped(job: Job, n: nat, candidates: map<Group, seq<nat>>)
    requires n <= |job.files|
  {
    forall g {:trigger Members(job, g, n)} :: Members(job, g, n) == ListOf(candidates, g)
  }

  function AddCandidate(job: Job, n: nat, candidates: map<Group, seq<nat>>): map<Group, seq<nat>>
    requires n < |job.files|
  {
    var g := GroupOf(job, n);
    if Eligible(job, n) then candidates[g := ListOf(candidates, g) + [n]] else candidates
  }

  lemma GroupedMore(job: Job, n: nat, candidates: map<Group, seq<nat>>)
    requires n < |job.files| && Grouped(job, n, candidates)
    ensures Grouped(job, n + 1, AddCandidate(job, n, candidates))
  {
    var more := AddCandidate(job, n, candidates);
    forall g ensures Members(job, g, n + 1) == ListOf(more, g) {
      assert Members(job, g, n) == ListOf(candidates, g);
      assert Members(job, g, n + 1) == Members(job, g, n) + if Eligible(job, n) && GroupOf(job, n) == g then [n] else [];
    }
  }

  /** Splits the candidates into groups. */
  method GroupFiles(job: Job) returns (candidates: map<Group, seq<nat>>)
    ensures Grouped(job, |job.files|, candidates)
  {
    candidates := map[];
    var i := 0;
    while i < |job.files|
      invariant 0 <= i <= |job.files| && Grouped(job, i, candidates)
    {
      GroupedMore(job, i, candidates);
      if Eligible(job, i) {
        var g := GroupOf(job, i);
        assert AddCandidate(job, i, candidates) == candidates[g := ListOf(candidates, g) + [i]];
        candidates := candidates[g := ListOf(candidates, g) + [i]];
      }
      i := i + 1;
    }
  }

  function SizesOf(job: Job, list: seq<nat>): (r: seq<nat>)
    ensures |r| == |list|
  {
    seq(|list|, k requires 0 <= k < |list| => if list[k] < |job.files| then job.files[list[k]].size else 0)
  }

  // ---- one group ----

  /** Where the runs of a group begin and end: each starts where the one before ended. */
  ghost predicate AreCuts(sizes: seq<nat>, target: nat, cuts: seq<nat>) {
    && cuts != [] && cuts[0] == 0 && cuts[|cuts| - 1] <= |sizes|
    && forall k :: 0 <= k < |cuts| - 1 ==> IsRunEnd(sizes, cuts[k], cuts[k + 1], target)
  }

  /** The commands of a group: its runs of at least two files, in order. */
  function CommandsOf(list: seq<nat>, cuts: seq<nat>, bindToLatest: bool): seq<Command> {
    if |cuts| <= 1 then []
    else
      var n := |cuts| - 1;
      CommandsOf(list, cuts[..n], bindToLatest)
      + if cuts[n - 1] + 2 <= cuts[n] <= |list| then [Command(list[cuts[n - 1]..cuts[n]], bindToLatest)] else []
  }

  /** The group is cut at these places, within the budget and to its end if there is budget left, and
      the commands are its runs of at least two files. */
  ghost predicate CutsGroup(job: Job, list: seq<nat>, bindToLatest: bool, spent: nat, maxFiles: nat,
                            commands: seq<Command>, nowSpent: nat, cuts: seq<nat>) {
    && AreCuts(SizesOf(job, list), job.target, cuts) && commands == CommandsOf(list, cuts, bindToLatest)
    && nowSpent == spent + |cuts| - 1 <= maxFiles
    && (nowSpent < maxFiles ==> cuts[|cuts| - 1] == |list|)
  }

  /** Cuts one group into runs until it is used up or the budget of runs is; a run of a single file
      spends budget but merges nothing. */
  method PlanGroup(job: Job, list: seq<nat>, bindToLatest: bool, spent: nat, maxFiles: nat)
    returns (commands: seq<Command>, nowSpent: nat)
    requires spent < maxFiles
    ensures exists cuts :: CutsGroup(job, list, bindToLatest, spent, maxFiles, commands, nowSpent, cuts)
  {
    var sizes := SizesOf(job, list);
    var start := 0;
    ghost var cuts: seq<nat>;
    commands, nowSpent, cuts := [], spent, [0];
    while start < |list| && nowSpent < maxFiles
      invariant AreCuts(sizes, job.target, cuts) && cuts[|cuts| - 1] == start <= |list|
      invariant commands == CommandsOf(list, cuts, bindToLatest)
      invariant nowSpent == spent + |cuts| - 1 <= maxFiles
    {
      var end := RunEnd(sizes, start, job.target);
      assert (cuts + [end])[..|cuts|] == cuts;
      if end - start > 1 {
        commands := commands + [Command(list[start..end], bindToLatest)];
      }
      nowSpent := nowSpent + 1;
      cuts := cuts + [end];
      start := end;
    }
    assert CutsGroup(job, list, bindToLatest, spent, maxFiles, commands, nowSpent, cuts);
  }

  // ---- the whole plan ----

  /** One visited group and where it was cut. */
  datatype Section = Section(group: Group, cuts: seq<nat>)

  function SectionCommands(job: Job, s: Section): seq<Command> {
    CommandsOf(Candidates(job, s.group), s.cuts, s.group.schemaVersion.None?)
  }

  /** The commands of the groups in the order they are visited. */
  function PlanCommands(job: Job, plan: seq<Section>): seq<Command> {
    if plan == [] then [] else PlanCommands(job, plan[..|plan| - 1]) + SectionCommands(job, plan[|plan| - 1])
  }

  function RunsOf(s: Section): nat {
    if s.cuts == [] then 0 else |s.cuts| - 1
  }

  function Spent(plan: seq<Section>): nat {
    if plan == [] then 0 else Spent(plan[..|plan| - 1]) + RunsOf(plan[|plan| - 1])
  }

  ghost predicate SectionOk(job: Job, s: Section) {
    |Candidates(job, s.group)| >= 2 && AreCuts(SizesOf(job, Candidates(job, s.group)), job.target, s.cuts)
  }

  ghost predicate Finished(job: Job, s: Section) {
    s.cuts != [] && s.cuts[|s.cuts| - 1] == |Candidates(job, s.group)|
  }

  predicate Visited(plan: seq<Section>, g: Group) {
    plan != [] && (plan[|plan| - 1].group == g || Visited(plan[..|plan| - 1], g))
  }

  /** Every section cuts a different group of at least two candidates into runs. */
  ghost predicate IsPlan(job: Job, plan: seq<Section>) {
    plan == [] ||
    (var n := |plan| - 1;
     IsPlan(job, plan[..n]) && SectionOk(job, plan[n]) && !Visited(plan[..n], plan[n].group))
  }

  /** Every section is cut to its end. */
  ghost predicate AllFinished(job: Job, plan: seq<Section>) {
    plan == [] || (AllFinished(job, plan[..|plan| - 1]) && Finished(job, plan[|plan| - 1]))
  }

  /** Nothing mergeable is left over. */
  ghost predicate IsComplete(job: Job, plan: seq<Section>) {
    AllFinished(job, plan) && forall g :: |Candidates(job, g)| >= 2 ==> Visited(plan, g)
  }

  lemma PlanMore(job: Job, plan: seq<Section>, s: Section)
    requires IsPlan(job, plan) && SectionOk(job, s) && !Visited(plan, s.group)
    ensures IsPlan(job, plan + [s])
    ensures PlanCommands(job, plan + [s]) == PlanCommands(job, plan) + SectionCommands(job, s)
    ensures Spent(plan + [s]) == Spent(plan) + RunsOf(s)
    ensures AllFinished(job, plan + [s]) <==> AllFinished(job, plan) && Finished(job, s)
  {
    assert (plan + [s])[..|plan|] == plan;
  }

  /** Where the plan stands: groups still to visit are not in it, mergeable ones no longer to visit are. */
  ghost predicate Underway(job: Job, candidates: map<Group, seq<nat>>, rest: set<Group>, plan: seq<Section>) {
    forall g {:trigger Visited(plan, g)} :: g in candidates ==>
      if g in rest then !Visited(plan, g) else |candidates[g]| >= 2 ==> Visited(plan, g)
  }

  lemma UnderwayMore(job: Job, candidates: map<Group, seq<nat>>, rest: set<Group>, plan: seq<Section>, s: Section)
    requires Underway(job, candidates, rest, plan) && s.group in rest
    ensures Underway(job, candidates, rest - {s.group}, plan + [s])
  {
    var more := plan + [s];
    assert more[..|plan|] == plan;
    assert forall g :: Visited(more, g) <==> Visited(plan, g) || g == s.group;
  }

  /** The commands are those of a plan within the budget, and with budget left nothing is left over. */
  ghost predicate Implements(job: Job, maxFiles: nat, commands: seq<Command>, plan: seq<Section>) {
    && IsPlan(job, plan) && commands == PlanCommands(job, plan) && Spent(plan) <= maxFiles
    && (Spent(plan) < maxFiles ==> IsComplete(job, plan))
  }

  /** Plans the compactions of a table, visiting its groups in any order. */
  method GenerateCompactions(job: Job, maxFiles: nat) returns (commands: seq<Command>)
    requires maxFiles > 0
    ensures exists plan :: Implements(job, maxFiles, commands, plan)
  {
    var candidates := GroupFiles(job);
    ghost var plan: seq<Section>;
    commands, plan := [], [];
    var spent, rest := 0, candidates.Keys;
    while rest != {} && spent < maxFiles
      invariant rest <= candidates.Keys && spent <= maxFiles
      invariant IsPlan(job, plan) && commands == PlanCommands(job, plan) && spent == Spent(plan)
      invariant Underway(job, candidates, rest, plan)
      invariant spent < maxFiles ==> AllFinished(job, plan)
    {
      var g :| g in rest;
      assert candidates[g] == Candidates(job, g);
      if |candidates[g]| > 1 {
        var more, now := PlanGroup(job, candidates[g], g.schemaVersion.None?, spent, maxFiles);
        ghost var cuts :| CutsGroup(job, candidates[g], g.schemaVersion.None?, spent, maxFiles, more, now, cuts);
        PlanMore(job, plan, Section(g, cuts));
        UnderwayMore(job, candidates, rest, plan, Section(g, cuts));
        commands, spent := commands + more, now;
        plan := plan + [Section(g, cuts)];
      }
      rest := rest - {g};
    }
    if spent < maxFiles {
      forall g | |Candidates(job, g)| >= 2 ensures Visited(plan, g) {
        assert g in candidates;
      }
    }
    assert Implements(job, maxFiles, commands, plan);
  }

  // ---- what a plan guarantees ----

  /** At most as many commands as runs, hence at most the budget. */
  lemma {:induction false} CommandsWithinRuns(list: seq<nat>, cuts: seq<nat>, bindToLatest: bool)
    ensures |CommandsOf(list, cuts, bindToLatest)| <= if cuts == [] then 0 else |cuts| - 1
  {
    if |cuts| > 1 {
      CommandsWithinRuns(list, cuts[..|cuts| - 1], bindToLatest);
    }
  }

  lemma {:induction false} CommandsWithinBudget(job: Job, plan: seq<Section>)
    ensures |PlanCommands(job, plan)| <= Spent(plan)
  {
    if plan != [] {
      var s := plan[|plan| - 1];
      CommandsWithinBudget(job, plan[..|plan| - 1]);
      CommandsWithinRuns(Candidates(job, s.group), s.cuts, s.group.schemaVersion.None?);
    }
  }

  /** A command merges the run [a, b) of the group's candidates. */
  ghost predicate MergesRun(job: Job, g: Group, command: Command, a: nat, b: nat) {
    var list := Candidates(job, g);
    && a + 2 <= b <= |list| && command == Command(list[a..b], g.schemaVersion.None?)
    && IsRunEnd(SizesOf(job, list), a, b, job.target)
  }

  lemma {:induction false} SectionMerges(job: Job, g: Group, cuts: seq<nat>, command: Command) returns (a: nat, b: nat)
    requires AreCuts(SizesOf(job, Candidates(job, g)), job.target, cuts)
    requires command in CommandsOf(Candidates(job, g), cuts, g.schemaVersion.None?)
    ensures MergesRun(job, g, command, a, b)
    decreases |cuts|
  {
    var n := |cuts| - 1;
    assert IsRunEnd(SizesOf(job, Candidates(job, g)), cuts[n - 1], cuts[n], job.target);
    if command in CommandsOf(Candidates(job, g), cuts[..n], g.schemaVersion.None?) {
      a, b := SectionMerges(job, g, cuts[..n], command);
    } else {
      a, b := cuts[n - 1], cuts[n];
    }
  }

  /** Every command merges one run of at least two neighbouring candidates of one group, in order,
      of less than twice the target size. */
  lemma {:induction false} EveryCommandMergesRun(job: Job, plan: seq<Section>, command: Command) returns (g: Group, a: nat, b: nat)
    requires IsPlan(job, plan) && command in PlanCommands(job, plan)
    ensures MergesRun(job, g, command, a, b) && Span(SizesOf(job, Candidates(job, g)), a, b) < 2 * job.target
  {
    var n := |plan| - 1;
    assert SectionOk(job, plan[n]);
    if command in PlanCommands(job, plan[..n]) {
      g, a, b := EveryCommandMergesRun(job, plan[..n], command);
    } else {
      g := plan[n].group;
      a, b := SectionMerges(job, g, plan[n].cuts, command);
      CandidatesBelow(job, g);
      RunBelowTwiceTarget(SizesOf(job, Candidates(job, g)), a, b, job.target);
    }
  }

  lemma CandidatesBelow(job: Job, g: Group)
    ensures AllBelow(SizesOf(job, Candidates(job, g)), job.target)
  {
    var list := Candidates(job, g);
    MembersAre(job, g, |job.files|);
    forall k | 0 <= k < |list| ensures SizesOf(job, list)[k] < job.target {
      assert list[k] in list;
    }
  }

  /** Two files belong to one group exactly when their partition and partition values agree and either their
      schema versions agree or both merge into the latest. */
  lemma SameGroupExactlyWhen(job: Job, i: nat, j: nat)
    requires i < |job.files| && j < |job.files|
    ensures var a, b := job.files[i], job.files[j];
            GroupOf(job, i) == GroupOf(job, j) <==>
            && a.partitionId == b.partitionId && a.partitionValues == b.partitionValues
            && (a.schemaVersion == b.schemaVersion || (a.schemaVersion in job.latest && b.schemaVersion in job.latest))
            && (a.schemaVersion in job.latest <==> b.schemaVersion in job.latest)
  {
  }

  /** What a command of a plan merges: files below the target size without deletes that are still current,
      of one partition with the same values and of schema versions that go together; it is rewritten to
      the latest schema exactly when all its files merge into the latest. */
  lemma CommandFilesMean(job: Job, plan: seq<Section>, command: Command)
    requires IsPlan(job, plan) && command in PlanCommands(job, plan)
    ensures |command.files| >= 2
    ensures forall i :: i in command.files ==>
              && i < |job.files| && job.files[i].size < job.target && !job.files[i].hasDeletes && job.files[i].endSnapshot.None?
              && (command.bindToLatest <==> job.files[i].schemaVersion in job.latest)
    ensures forall i, j :: i in command.files && j in command.files ==>
              && job.files[i].partitionId == job.files[j].partitionId && job.files[i].partitionValues == job.files[j].partitionValues
              && (job.files[i].schemaVersion == job.files[j].schemaVersion || command.bindToLatest)
  {
    var g, a, b := EveryCommandMergesRun(job, plan, command);
    MembersAre(job, g, |job.files|);
    forall i | i in command.files ensures i < |job.files| && Eligible(job, i) && GroupOf(job, i) == g {
      assert i in Candidates(job, g);
    }
  }

  /** And nothing that could be merged is left out of the candidates. */
  lemma CandidatesExactlyWhen(job: Job, i: nat, j: nat)
    requires i < |job.files|
    ensures j in Candidates(job, GroupOf(job, i)) <==>
            && j < |job.files| && job.files[j].size < job.target && !job.files[j].hasDeletes && job.files[j].endSnapshot.None?
            && GroupOf(job, j) == GroupOf(job, i)
  {
    MembersAre(job, GroupOf(job, i), |job.files|);
  }

  /** The files the first n commands move out, one after the other. */
  function MovedBy(commands: seq<Command>, n: nat): seq<nat>
    requires n <= |commands|
  {
    if n == 0 then [] else MovedBy(commands, n - 1) + commands[n - 1].files
  }

  function Moved(commands: seq<Command>): seq<nat> {
    MovedBy(commands, |commands|)
  }

  lemma MovedByNext(commands: seq<Command>, n: nat, files: seq<nat>)
    requires n < |commands| && commands[n].files == files
    ensures MovedBy(commands, n + 1) == MovedBy(commands, n) + files
  {
  }

  lemma {:induction false} MovedByFirst(a: seq<Command>, b: seq<Command>, n: nat)
    requires n <= |a|
    ensures MovedBy(a + b, n) == MovedBy(a, n)
  {
    if n > 0 {
      MovedByFirst(a, b, n - 1);
    }
  }

  lemma {:induction false} MovedByBoth(a: seq<Command>, b: seq<Command>, n: nat)
    requires n <= |b|
    ensures MovedBy(a + b, |a| + n) == Moved(a) + MovedBy(b, n)
  {
    if n == 0 {
      MovedByFirst(a, b, |a|);
    } else {
      MovedByBoth(a, b, n - 1);
      var all, k, files := a + b, |a| + n - 1, b[n - 1].files;
      assert all[k] == b[n - 1];
      MovedByNext(all, k, files);
      MovedByNext(b, n - 1, files);
    }
  }

  lemma MovedAppend(a: seq<Command>, b: seq<Command>)
    ensures Moved(a + b) == Moved(a) + Moved(b)
  {
    MovedByBoth(a, b, |b|);
  }

  ghost predicate Within(s: seq<nat>, list: seq<nat>, n: nat) {
    n <= |list| && forall i :: i in s ==> i in list[..n]
  }

  /** A group's commands move candidates before its last cut, in ascending order. */
  lemma {:induction false} SectionMoves(list: seq<nat>, cuts: seq<nat>, bindToLatest: bool)
    requires Ascending(list) && Ascending(cuts) && cuts != [] && cuts[|cuts| - 1] <= |list|
    ensures Ascending(Moved(CommandsOf(list, cuts, bindToLatest)))
    ensures Within(Moved(CommandsOf(list, cuts, bindToLatest)), list, cuts[|cuts| - 1])
    decreases |cuts|
  {
    assert Moved([]) == [];
    if |cuts| > 1 {
      var n := |cuts| - 1;
      SectionMoves(list, cuts[..n], bindToLatest);
      SectionMovesLast(list, CommandsOf(list, cuts[..n], bindToLatest), cuts[n - 1], cuts[n], bindToLatest);
    }
  }

  lemma SectionMovesLast(list: seq<nat>, before: seq<Command>, from: nat, upTo: nat, bindToLatest: bool)
    requires Ascending(list) && from <= upTo <= |list| && Ascending(Moved(before)) && Within(Moved(before), list, from)
    ensures var commands := before + if from + 2 <= upTo <= |list| then [Command(list[from..upTo], bindToLatest)] else [];
            Ascending(Moved(commands)) && Within(Moved(commands), list, upTo)
  {
    if from + 2 <= upTo {
      var command := Command(list[from..upTo], bindToLatest);
      MovedAppend(before, [command]);
      MovedByNext([command], 0, command.files);
      assert Moved([command]) == [] + command.files == command.files;
      AscendingAppend(list, from, upTo, Moved(before));
    } else {
      assert before + [] == before;
      assert list[..upTo] == list[..from] + list[from..upTo];
    }
  }

  lemma AscendingAppend(list: seq<nat>, from: nat, upTo: nat, moved: seq<nat>)
    requires Ascending(list) && from <= upTo <= |list| && Ascending(moved) && Within(moved, list, from)
    ensures Ascending(moved + list[from..upTo]) && Within(moved + list[from..upTo], list, upTo)
  {
    forall k | 0 <= k < |moved| ensures forall j :: from <= j < upTo ==> moved[k] < list[j] {
      assert moved[k] in list[..from];
    }
    assert list[..upTo] == list[..from] + list[from..upTo];
  }

  lemma CutsAscend(sizes: seq<nat>, target: nat, cuts: seq<nat>, a: nat, b: nat)
    requires AreCuts(sizes, target, cuts) && a < b < |cuts|
    ensures cuts[a] < cuts[b]
    decreases b
  {
    assert IsRunEnd(sizes, cuts[b - 1], cuts[b], target);
    if a < b - 1 {
      CutsAscend(sizes, target, cuts, a, b - 1);
    }
  }

  /** No file is moved out twice. */
  ghost predicate NoRepeats(s: seq<nat>) {
    forall a, b :: 0 <= a < b < |s| ==> s[a] != s[b]
  }

  /** The commands of a plan are disjoint: no file is in two of them, or twice in one. */
  lemma {:induction false} CommandsDisjoint(job: Job, plan: seq<Section>)
    requires IsPlan(job, plan)
    ensures NoRepeats(Moved(PlanCommands(job, plan)))
    ensures forall i :: i in Moved(PlanCommands(job, plan)) ==> i < |job.files| && Visited(plan, GroupOf(job, i))
  {
    if plan != [] {
      var n := |plan| - 1;
      var s, before := plan[n], plan[..n];
      CommandsDisjoint(job, before);
      SectionMovesOwn(job, s);
      MovedAppend(PlanCommands(job, before), SectionCommands(job, s));
      NoRepeatsAppend(Moved(PlanCommands(job, before)), Moved(SectionCommands(job, s)));
    }
  }

  lemma NoRepeatsAppend(a: seq<nat>, b: seq<nat>)
    requires NoRepeats(a) && NoRepeats(b) && forall i :: i in a ==> i !in b
    ensures NoRepeats(a + b)
  {
    forall x, y | 0 <= x < y < |a + b| ensures (a + b)[x] != (a + b)[y] {
      if x < |a| <= y {
        assert a[x] in a && b[y - |a|] in b;
      }
    }
  }

  lemma SectionMovesOwn(job: Job, s: Section)
    requires SectionOk(job, s)
    ensures NoRepeats(Moved(SectionCommands(job, s)))
    ensures forall i :: i in Moved(SectionCommands(job, s)) ==> i < |job.files| && GroupOf(job, i) == s.group
  {
    var list := Candidates(job, s.group);
    MembersAre(job, s.group, |job.files|);
    forall a, b | 0 <= a < b < |s.cuts| ensures s.cuts[a] < s.cuts[b] {
      CutsAscend(SizesOf(job, list), job.target, s.cuts, a, b);
    }
    SectionMoves(list, s.cuts, s.group.schemaVersion.None?);
    var last := s.cuts[|s.cuts| - 1];
    assert forall i :: i in list[..last] ==> i in list;
  }

  /** What a caller can rely on: at most maxFiles commands, no file twice, and each command merges a run
      of at least two neighbouring candidates of one group below twice the target. */
  lemma CommandsAreSound(job: Job, maxFiles: nat, commands: seq<Command>, plan: seq<Section>)
    requires Implements(job, maxFiles, commands, plan)
    ensures |commands| <= maxFiles && NoRepeats(Moved(commands))
    ensures forall c :: c in commands ==> MergesSmallRun(job, c)
  {
    CommandsWithinBudget(job, plan);
    CommandsDisjoint(job, plan);
    forall c | c in commands ensures MergesSmallRun(job, c) {
      var g, a, b := EveryCommandMergesRun(job, plan, c);
    }
  }

  ghost predicate MergesSmallRun(job: Job, c: Command) {
    exists g, a, b :: MergesRun(job, g, c, a, b) && Span(SizesOf(job, Candidates(job, g)), a, b) < 2 * job.target
  }
}
