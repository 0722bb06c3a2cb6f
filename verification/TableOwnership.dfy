/**
 Which replication job manages a destination table.  Jobs run their cycles side by side; each SQL
 statement on the state table is atomic, and a row of the state table says that the job manages the
 destination table of the same name.
 */
module TableOwnership {
  import opened Tables

  type JobId = nat

  type TableName = string

  datatype Row = Row(job: JobId, table: TableName)

  predicate OthersOwn(rows: set<Row>, job: JobId, table: TableName) {
    exists r :: r in rows && r.table == table && r.job != job
  }

  /** The state table and its statements. */
  class StateTable {
    var rows: set<Row>

    constructor ()
      ensures rows == {}
    {
      rows := {};
    }

    /** INSERT ... WHERE NOT EXISTS (another job's row); one more own row would violate the key. */
    method Claim(job: JobId, table: TableName) returns (claimed: bool)
      requires Row(job, table) !in rows
      modifies this
      ensures claimed <==> !OthersOwn(old(rows), job, table)
      ensures rows == if claimed then old(rows) + {Row(job, table)} else old(rows)
      ensures OneOwner(old(rows)) ==> OneOwner(rows)
    {
      claimed := !OthersOwn(rows, job, table);
      if claimed {
        rows := rows + {Row(job, table)};
      }
    }

    /** Records an error in the job's row, creating it only where no other job has one. */
    method MarkError(job: JobId, table: TableName)
      modifies this
      ensures rows == Marked(old(rows), job, table)
      ensures OneOwner(old(rows)) ==> OneOwner(rows)
    {
      if Row(job, table) in rows || !OthersOwn(rows, job, table) {
        rows := rows + {Row(job, table)};
      }
    }

    /** INSERT ... ON CONFLICT DO UPDATE, whoever else has a row: the one statement that does not test. */
    method Upsert(job: JobId, table: TableName)
      modifies this
      ensures rows == old(rows) + {Row(job, table)}
      ensures OneOwner(old(rows)) ==> (OneOwner(rows) <==> !OthersOwn(old(rows), job, table))
    {
      if OthersOwn(rows, job, table) {
        UpsertOverOthers(rows, job, table);
      }
      rows := rows + {Row(job, table)};
    }

    method Delete(job: JobId, table: TableName)
      modifies this
      ensures rows == old(rows) - {Row(job, table)}
    {
      rows := rows - {Row(job, table)};
    }

    /** The first statement of dropping a job. */
    method DeleteAll(job: JobId)
      modifies this
      ensures rows == Without(old(rows), job)
    {
      rows := Without(rows, job);
    }

    /** The statement a step of a cycle sends, for the cycles and job records of the moment. */
    method Execute(e: Event, phases: map<JobId, Phase>, records: set<JobId>)
      requires Allowed(State(rows, phases, records), e)
      modifies this
      ensures rows == Apply(State(old(rows), phases, records), e).rows
      ensures OneOwner(old(rows)) ==> (OneOwner(rows) <==> !OverwritesOwner(State(old(rows), phases, records), e))
    {
      ghost var st := State(rows, phases, records);
      match e
      case DropStale(job, t) => Delete(job, t);
      case FailStale(job, t) => MarkError(job, t);
      case Claim(job) => var _ := Claim(job, phases[job].current.value.0);
      case Fail(job) => MarkError(job, phases[job].current.value.0);
      case Save(job) => Upsert(job, phases[job].current.value.0);
      case DropRows(job) => DeleteAll(job);
      case _ =>
    }
  }

  lemma UpsertOverOthers(rows: set<Row>, job: JobId, table: TableName)
    requires OthersOwn(rows, job, table)
    ensures !OneOwner(rows + {Row(job, table)})
  {
    var r :| r in rows && r.table == table && r.job != job;
    assert Row(job, table) in rows + {Row(job, table)} && r in rows + {Row(job, table)};
  }

  function Marked(rows: set<Row>, job: JobId, table: TableName): set<Row> {
    if Row(job, table) in rows || !OthersOwn(rows, job, table) then rows + {Row(job, table)} else rows
  }

  function Without(rows: set<Row>, job: JobId): set<Row> {
    set r | r in rows && r.job != job
  }

  // ---- cycles side by side ----

  /** How far a cycle is with one table: no other owner seen, managed by this job, and managed with the
      job record still seen after the data commit. */
  datatype Stage = Checked | Managed | Confirmed

  /** A cycle knows the job's rows at its start and the source's tables; it works on one at a time. */
  datatype Phase = Idle | Running(prior: set<TableName>, sources: set<TableName>, current: Option<(TableName, Stage)>)

  datatype State = State(rows: set<Row>, phases: map<JobId, Phase>, records: set<JobId>)

  datatype Event =
    | Begin(job: JobId, sources: set<TableName>)
    | DropStale(job: JobId, table: TableName)
    | FailStale(job: JobId, table: TableName)
    | CheckOwner(job: JobId, table: TableName)
    | Claim(job: JobId)
    | Reuse(job: JobId)
    | Fail(job: JobId)
    | Confirm(job: JobId)
    | Abandon(job: JobId)
    | Save(job: JobId)
    | End(job: JobId)
    | DropRows(job: JobId)
    | DropRecord(job: JobId)

  function PhaseOf(st: State, job: JobId): Phase {
    if job in st.phases then st.phases[job] else Idle
  }

  predicate At(st: State, job: JobId, stage: Stage) {
    PhaseOf(st, job).Running? && PhaseOf(st, job).current.Some? && PhaseOf(st, job).current.value.1 == stage
  }

  predicate Between(st: State, job: JobId) {
    PhaseOf(st, job).Running? && PhaseOf(st, job).current.None?
  }

  function TableOf(st: State, job: JobId): TableName
    requires PhaseOf(st, job).Running? && PhaseOf(st, job).current.Some?
  {
    PhaseOf(st, job).current.value.0
  }

  /** When a step can be taken.  A job runs one cycle at a time; dropping it waits for nothing. */
  predicate Allowed(st: State, e: Event) {
    match e
    case Begin(job, _) => PhaseOf(st, job).Idle?
    case DropStale(job, t) => Between(st, job) && t in PhaseOf(st, job).prior && t !in PhaseOf(st, job).sources
    case FailStale(job, t) => Between(st, job) && t in PhaseOf(st, job).prior && t !in PhaseOf(st, job).sources
    case CheckOwner(job, t) => Between(st, job) && t in PhaseOf(st, job).sources
    case Claim(job) => At(st, job, Checked) && TableOf(st, job) !in PhaseOf(st, job).prior && Row(job, TableOf(st, job)) !in st.rows
    case Reuse(job) => At(st, job, Checked) && TableOf(st, job) in PhaseOf(st, job).prior
    case Fail(job) => PhaseOf(st, job).Running? && PhaseOf(st, job).current.Some?
    case Confirm(job) => At(st, job, Managed) && job in st.records
    case Abandon(job) => At(st, job, Managed) && job !in st.records
    case Save(job) => At(st, job, Confirmed)
    case End(job) => PhaseOf(st, job).Running?
    case DropRows(_) => true
    case DropRecord(_) => true
  }

  function Stay(st: State, job: JobId, current: Option<(TableName, Stage)>): map<JobId, Phase> {
    if PhaseOf(st, job).Running? then st.phases[job := PhaseOf(st, job).(current := current)] else st.phases
  }

  function RowsOf(rows: set<Row>, job: JobId): set<TableName> {
    set r | r in rows && r.job == job :: r.table
  }

  function Apply(st: State, e: Event): State
    requires Allowed(st, e)
  {
    match e
    case Begin(job, sources) => st.(phases := st.phases[job := Running(RowsOf(st.rows, job), sources, None)])
    case DropStale(job, t) => st.(rows := st.rows - {Row(job, t)})
    case FailStale(job, t) => st.(rows := Marked(st.rows, job, t))
    case CheckOwner(job, t) =>
      // another owner rejects the table without a trace
      if OthersOwn(st.rows, job, t) then st else st.(phases := Stay(st, job, Some((t, Checked))))
    case Claim(job) =>
      var t := TableOf(st, job);
      if OthersOwn(st.rows, job, t) then st.(phases := Stay(st, job, None))
      else State(st.rows + {Row(job, t)}, Stay(st, job, Some((t, Managed))), st.records)
    case Reuse(job) => st.(phases := Stay(st, job, Some((TableOf(st, job), Managed))))
    case Fail(job) => State(Marked(st.rows, job, TableOf(st, job)), Stay(st, job, None), st.records)
    case Confirm(job) => st.(phases := Stay(st, job, Some((TableOf(st, job), Confirmed))))
    case Abandon(job) => st.(phases := Stay(st, job, None))
    case Save(job) => State(st.rows + {Row(job, TableOf(st, job))}, Stay(st, job, None), st.records)
    case End(job) => st.(phases := st.phases[job := Idle])
    case DropRows(job) => st.(rows := Without(st.rows, job))
    case DropRecord(job) => st.(records := st.records - {job})
  }

  /** The table a cycle is at. */
  ghost predicate IsAt(st: State, job: JobId, t: TableName) {
    job in st.phases && st.phases[job].Running? && st.phases[job].current.Some? && st.phases[job].current.value.0 == t
  }

  /** Which rows the state table holds after each step: other jobs' rows are never touched; a dropped table's
      row and a dropped job's rows are gone; errors and claims add the job's row only where no other job
      has one; a saved state always does; every other step leaves the table as it is. */
  lemma RowsAfter(st: State, e: Event, r: Row, t: TableName)
    requires Allowed(st, e)
    requires e.DropStale? || e.FailStale? ==> t == e.table
    requires e.Claim? || e.Fail? || e.Save? ==> IsAt(st, e.job, t)
    ensures r.job != e.job ==> (r in Apply(st, e).rows <==> r in st.rows)
    ensures r.job == e.job ==>
              (r in Apply(st, e).rows <==>
               if e.DropRows? then false
               else if r.table != t then r in st.rows
               else if e.DropStale? then false
               else if e.Save? then true
               else if e.FailStale? || e.Claim? || e.Fail? then r in st.rows || forall o :: o in st.rows && o.table == t ==> o.job == e.job
               else r in st.rows)
  {
  }

  /** How far the job's cycle is after each step, and when the step can be taken at all. */
  lemma CycleAfter(st: State, e: Event, t: TableName)
    requires Allowed(st, e) && (e.DropStale? || e.FailStale? || e.CheckOwner? ==> t == e.table)
    requires e.Claim? || e.Reuse? || e.Fail? || e.Save? || e.Confirm? || e.Abandon? ==> IsAt(st, e.job, t)
    ensures var after := PhaseOf(Apply(st, e), e.job); var before := PhaseOf(st, e.job);
            match e
            case Begin(job, sources) =>
              before == Idle && after.Running? && after.sources == sources && after.current == None
              && forall x :: x in after.prior <==> Row(job, x) in st.rows
            case DropStale(_, _) => before.Running? && before.current == None && t in before.prior && t !in before.sources && after == before
            case FailStale(_, _) => before.Running? && before.current == None && t in before.prior && t !in before.sources && after == before
            case CheckOwner(job, _) =>
              before.Running? && before.current == None && t in before.sources
              && after == before.(current := if exists o :: o in st.rows && o.table == t && o.job != job then None else Some((t, Checked)))
            case Claim(job) =>
              before.current == Some((t, Checked)) && t !in before.prior
              && after == before.(current := if exists o :: o in st.rows && o.table == t && o.job != job then None else Some((t, Managed)))
            case Reuse(_) => before.current == Some((t, Checked)) && t in before.prior && after == before.(current := Some((t, Managed)))
            case Fail(_) => after == before.(current := None)
            case Confirm(job) => before.current == Some((t, Managed)) && job in st.records && after == before.(current := Some((t, Confirmed)))
            case Abandon(job) => before.current == Some((t, Managed)) && job !in st.records && after == before.(current := None)
            case Save(_) => before.current == Some((t, Confirmed)) && after == before.(current := None)
            case End(_) => before.Running? && after == Idle
            case DropRows(_) => after == before
            case DropRecord(_) => after == before
  {
  }

  /** No two jobs hold rows for the same destination table. */
  ghost predicate OneOwner(rows: set<Row>) {
    forall a, b :: a in rows && b in rows && a.table == b.table ==> a == b
  }

  /** A running cycle still has the rows it relies on. */
  ghost predicate Backed(rows: set<Row>, job: JobId, phase: Phase) {
    phase.Running? ==>
      && (forall t :: t in phase.prior && t in phase.sources ==> Row(job, t) in rows)
      && (phase.current.Some? && phase.current.value.1 != Checked ==> Row(job, phase.current.value.0) in rows)
      && (phase.current.Some? ==> phase.current.value.0 in phase.sources)
  }

  ghost predicate Inv(st: State) {
    OneOwner(st.rows) && forall job :: job in st.phases ==> Backed(st.rows, job, st.phases[job])
  }

  lemma MarkedKeeps(rows: set<Row>, job: JobId, table: TableName)
    requires OneOwner(rows)
    ensures OneOwner(Marked(rows, job, table)) && rows <= Marked(rows, job, table)
  {
  }

  /** A drop that meets its own job in no cycle. */
  predicate BetweenCycles(st: State, e: Event) {
    e.DropRows? ==> PhaseOf(st, e.job).Idle?
  }

  /** Every step of every job keeps the tables apart, as long as no job is dropped in its cycle. */
  lemma StepKeepsInv(st: State, e: Event)
    requires Inv(st) && Allowed(st, e) && BetweenCycles(st, e)
    ensures Inv(Apply(st, e))
  {
    var next := Apply(st, e);
    match e
    case DropStale(job, t) =>
      OthersBacked(st, next, job);
    case FailStale(job, t) =>
      MarkedKeeps(st.rows, job, t);
      OthersBacked(st, next, job);
    case Fail(job) =>
      MarkedKeeps(st.rows, job, TableOf(st, job));
      OthersBacked(st, next, job);
    case _ =>
      OthersBacked(st, next, e.job);
  }

  lemma OthersBacked(st: State, next: State, job: JobId)
    requires Inv(st)
    requires forall r :: r in st.rows && r.job != job ==> r in next.rows
    requires forall j :: j in next.phases && j != job ==> j in st.phases && next.phases[j] == st.phases[j]
    ensures forall j :: j in next.phases && j != job ==> Backed(next.rows, j, next.phases[j])
  {
  }

  predicate RunAllowed(st: State, events: seq<Event>)
    decreases |events|
  {
    events == [] || (Allowed(st, events[0]) && RunAllowed(Apply(st, events[0]), events[1..]))
  }

  /** The state after the first events of a run. */
  function After(st: State, events: seq<Event>, n: nat): State
    requires RunAllowed(st, events) && n <= |events|
    decreases n
  {
    if n == 0 then st else After(Apply(st, events[0]), events[1..], n - 1)
  }

  function Run(st: State, events: seq<Event>): State
    requires RunAllowed(st, events)
  {
    After(st, events, |events|)
  }

  function Initial(records: set<JobId>): State {
    State({}, map[], records)
  }

  lemma {:induction false} AfterNext(st: State, events: seq<Event>, n: nat)
    requires RunAllowed(st, events) && n < |events|
    ensures Allowed(After(st, events, n), events[n])
    ensures After(st, events, n + 1) == Apply(After(st, events, n), events[n])
    decreases n
  {
    if n > 0 {
      AfterNext(Apply(st, events[0]), events[1..], n - 1);
    }
  }

  ghost predicate DropsBetweenCycles(st: State, events: seq<Event>)
    requires RunAllowed(st, events)
  {
    forall n :: 0 <= n < |events| ==> BetweenCycles(After(st, events, n), events[n])
  }

  lemma {:induction false} RunKeepsInv(st: State, events: seq<Event>, n: nat)
    requires Inv(st) && RunAllowed(st, events) && n <= |events| && DropsBetweenCycles(st, events)
    ensures Inv(After(st, events, n))
  {
    if n > 0 {
      RunKeepsInv(st, events, n - 1);
      AfterNext(st, events, n - 1);
      StepKeepsInv(After(st, events, n - 1), events[n - 1]);
    }
  }

  /** However the cycles of any number of jobs interleave, no table ever has two owners when jobs are
      dropped only between their own cycles. */
  lemma EveryRunHasOneOwner(records: set<JobId>, events: seq<Event>, n: nat)
    requires RunAllowed(Initial(records), events) && n <= |events| && DropsBetweenCycles(Initial(records), events)
    ensures OneOwner(After(Initial(records), events, n).rows)
  {
    RunKeepsInv(Initial(records), events, n);
  }

  // ---- drops at any time ----

  /** A cycle saves its state for a table that another job has meanwhile taken. */
  predicate OverwritesOwner(st: State, e: Event) {
    e.Save? && At(st, e.job, Confirmed) && OthersOwn(st.rows, e.job, TableOf(st, e.job))
  }

  /** Of all the statements only the upsert of a saved state can give a table a second owner, and it does
      so exactly when another job has a row for it. */
  lemma StepExactlyWhen(st: State, e: Event)
    requires OneOwner(st.rows) && Allowed(st, e)
    ensures OneOwner(Apply(st, e).rows) <==> !OverwritesOwner(st, e)
  {
    match e
    case FailStale(job, t) => MarkedKeeps(st.rows, job, t);
    case Fail(job) => MarkedKeeps(st.rows, job, TableOf(st, job));
    case Save(job) =>
      if OthersOwn(st.rows, job, TableOf(st, job)) {
        UpsertOverOthers(st.rows, job, TableOf(st, job));
      }
    case _ =>
  }

  ghost predicate OneOwnerUpTo(st: State, events: seq<Event>, n: nat)
    requires RunAllowed(st, events) && n <= |events|
  {
    forall k: nat :: k <= n ==> OneOwner(After(st, events, k).rows)
  }

  ghost predicate NoOverwriteUpTo(st: State, events: seq<Event>, n: nat)
    requires RunAllowed(st, events) && n <= |events|
  {
    forall k: nat :: k < n ==> !OverwritesOwner(After(st, events, k), events[k])
  }

  lemma {:induction false} RunExactlyWhen(st: State, events: seq<Event>, n: nat)
    requires OneOwner(st.rows) && RunAllowed(st, events) && n <= |events|
    ensures OneOwnerUpTo(st, events, n) <==> NoOverwriteUpTo(st, events, n)
  {
    if n > 0 {
      RunExactlyWhen(st, events, n - 1);
      AfterNext(st, events, n - 1);
      if OneOwner(After(st, events, n - 1).rows) {
        StepExactlyWhen(After(st, events, n - 1), events[n - 1]);
      }
    }
  }

  /** Jobs may be dropped at any time: no table ever has two owners if and only if no cycle saves its
      state while another job has a row for the table. */
  lemma OneOwnerExactlyWhen(records: set<JobId>, events: seq<Event>)
    requires RunAllowed(Initial(records), events)
    ensures OneOwnerUpTo(Initial(records), events, |events|) <==> NoOverwriteUpTo(Initial(records), events, |events|)
  {
    RunExactlyWhen(Initial(records), events, |events|);
  }

  lemma RunFirst(st: State, e: Event, rest: seq<Event>)
    requires Allowed(st, e) && RunAllowed(Apply(st, e), rest)
    ensures RunAllowed(st, [e] + rest) && Run(st, [e] + rest) == Run(Apply(st, e), rest)
  {
    assert ([e] + rest)[1..] == rest;
  }

  /** The first job claims the table and is dropped in its cycle; the second job claims the freed table;
      the first one, whose record is still there, saves its state regardless. */
  function DroppedInCycle(t: TableName): seq<Event> {
    [Begin(1, {t}), CheckOwner(1, t), Claim(1), DropRows(1),
     Begin(2, {t}), CheckOwner(2, t), Claim(2), Confirm(1), Save(1)]
  }

  lemma RunFrom(st: State, events: seq<Event>, n: nat)
    requires n < |events| && Allowed(st, events[n]) && RunAllowed(Apply(st, events[n]), events[n + 1..])
    ensures RunAllowed(st, events[n..]) && Run(st, events[n..]) == Run(Apply(st, events[n]), events[n + 1..])
  {
    RunFirst(st, events[n], events[n + 1..]);
    assert events[n..] == [events[n]] + events[n + 1..];
  }

  /** The first job manages the table. */
  function Managing(t: TableName): State {
    State({Row(1, t)}, map[1 := Running({}, {t}, Some((t, Managed)))], {1, 2})
  }

  /** Its row is gone, and the second job manages the table as well. */
  function Reclaimed(t: TableName): State {
    State({Row(2, t)}, map[1 := Running({}, {t}, Some((t, Managed))), 2 := Running({}, {t}, Some((t, Managed)))], {1, 2})
  }

  lemma FirstClaims(t: TableName)
    requires RunAllowed(Managing(t), DroppedInCycle(t)[3..])
    ensures RunAllowed(Initial({1, 2}), DroppedInCycle(t))
    ensures Run(Initial({1, 2}), DroppedInCycle(t)) == Run(Managing(t), DroppedInCycle(t)[3..])
  {
    var es, s0 := DroppedInCycle(t), Initial({1, 2});
    assert RowsOf({}, 1) == {};
    var s1 := Apply(s0, es[0]);
    var s2 := Apply(s1, es[1]);
    assert Apply(s2, es[2]) == Managing(t);
    RunFrom(s2, es, 2);
    RunFrom(s1, es, 1);
    RunFrom(s0, es, 0);
    assert es[0..] == es;
  }

  lemma SecondClaims(t: TableName)
    requires RunAllowed(Reclaimed(t), DroppedInCycle(t)[7..])
    ensures RunAllowed(Managing(t), DroppedInCycle(t)[3..])
    ensures Run(Managing(t), DroppedInCycle(t)[3..]) == Run(Reclaimed(t), DroppedInCycle(t)[7..])
  {
    var es, s3 := DroppedInCycle(t), Managing(t);
    assert Without(s3.rows, 1) == {} && RowsOf({}, 2) == {};
    var s4 := Apply(s3, es[3]);
    var s5 := Apply(s4, es[4]);
    var s6 := Apply(s5, es[5]);
    assert Apply(s6, es[6]) == Reclaimed(t);
    RunFrom(s6, es, 6);
    RunFrom(s5, es, 5);
    RunFrom(s4, es, 4);
    RunFrom(s3, es, 3);
  }

  lemma FirstSaves(t: TableName)
    ensures RunAllowed(Reclaimed(t), DroppedInCycle(t)[7..])
    ensures Run(Reclaimed(t), DroppedInCycle(t)[7..]).rows == {Row(1, t), Row(2, t)}
  {
    var es, s7 := DroppedInCycle(t), Reclaimed(t);
    var s8 := Apply(s7, es[7]);
    assert Apply(s8, es[8]).rows == {Row(1, t), Row(2, t)};
    RunFrom(s8, es, 8);
    RunFrom(s7, es, 7);
  }

  /** Dropping a job's rows in the middle of its cycle can give a table two owners. */
  lemma DropDuringCycleBreaks(t: TableName)
    ensures RunAllowed(Initial({1, 2}), DroppedInCycle(t))
    ensures Run(Initial({1, 2}), DroppedInCycle(t)).rows == {Row(1, t), Row(2, t)}
    ensures !OneOwner(Run(Initial({1, 2}), DroppedInCycle(t)).rows)
  {
    FirstSaves(t);
    SecondClaims(t);
    FirstClaims(t);
    var rows := Run(Initial({1, 2}), DroppedInCycle(t)).rows;
    assert Row(1, t) in rows && Row(2, t) in rows;
  }
}
