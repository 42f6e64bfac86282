/** Stored tasks, the patch that updates one, and the routes that complete, pause and resume it. */
module TasksRepository {
  import opened Wrappers
  import opened Chars
  import opened TaskSchedule

  const STATUSES := {"pending", "active", "completed", "cancelled", "paused", "failed"}
  const PRIORITIES := {"low", "medium", "high", "critical"}
  const RECURRENCES := {"none", "daily", "weekly", "monthly", "quarterly", "yearly", "custom"}

  /** The fields that validation, scheduling and the routes look at; instants are UTC microseconds. */
  datatype Task = Task(
    taskId: string, tenantId: string, createdBy: string, title: string, status: string, priority: string,
    recurrence: string, interval: Option<int>, nextRun: Option<int>, lastRun: Option<int>, updated: int)

  /** A patch; None stands for a key that is absent and for one whose value is None. */
  datatype Patch = Patch(
    title: Option<string>, status: Option<string>, priority: Option<string>, recurrence: Option<string>,
    interval: Option<int>, nextRun: Option<int>, lastRun: Option<int>)

  const NO_CHANGE := Patch(None, None, None, None, None, None, None)

  datatype Result = Updated(task: Task) | Missing | Rejected

  predicate Passes(t: Task) {
    && t.tenantId != "" && t.createdBy != "" && Strip(t.title) != ""
    && t.status in STATUSES && t.priority in PRIORITIES && t.recurrence in RECURRENCES
  }

  /** The new value where there is one; a field that may be empty cannot be emptied. */
  function Overlaid<T>(o: Option<T>, stored: Option<T>): Option<T> {
    if o.Some? then o else stored
  }

  /** The row after the patch: keys without a value leave the field as it was. */
  function Patched(t: Task, p: Patch): Task {
    t.(title := OrElse(p.title, t.title), status := OrElse(p.status, t.status), priority := OrElse(p.priority, t.priority),
       recurrence := OrElse(p.recurrence, t.recurrence), interval := Overlaid(p.interval, t.interval),
       nextRun := Overlaid(p.nextRun, t.nextRun), lastRun := Overlaid(p.lastRun, t.lastRun))
  }

  predicate IsTask(t: Task, tenant: string, id: string) {
    t.tenantId == tenant && t.taskId == id
  }

  /** The position of the first row with this tenant and id. */
  function IndexOf(rows: seq<Task>, tenant: string, id: string): (r: Option<nat>)
    ensures r.Some? ==> r.value < |rows| && IsTask(rows[r.value], tenant, id)
    ensures forall i :: 0 <= i < (if r.Some? then r.value else |rows|) ==> !IsTask(rows[i], tenant, id)
  {
    if rows == [] then None
    else
      var n := |rows| - 1;
      var before := IndexOf(rows[..n], tenant, id);
      if before.Some? then before else if IsTask(rows[n], tenant, id) then Some(n) else None
  }

  function UpdateEffect(rows: seq<Task>, tenant: string, id: string, p: Patch, now: int): (seq<Task>, Result) {
    match IndexOf(rows, tenant, id)
    case None => (rows, Missing)
    case Some(i) =>
      var t := Patched(rows[i], p);
      if !Passes(t) then (rows, Rejected)
      else (rows[i := t.(updated := now)], Updated(t.(updated := now)))
  }

  /** The rows without those of this tenant and id, in order. */
  function Removed(rows: seq<Task>, tenant: string, id: string): seq<Task> {
    if rows == [] then []
    else
      var n := |rows| - 1;
      Removed(rows[..n], tenant, id) + if IsTask(rows[n], tenant, id) then [] else [rows[n]]
  }

  class LocalJsonTasksRepository {
    var rows: seq<Task>

    constructor (rows: seq<Task>)
      ensures this.rows == rows
    {
      this.rows := rows;
    }

    method Get(tenant: string, id: string) returns (r: Option<Task>)
      ensures r == match IndexOf(rows, tenant, id) case None => None case Some(i) => Some(rows[i])
    {
      var i := IndexOf(rows, tenant, id);
      return if i.Some? then Some(rows[i.value]) else None;
    }

    /** Rewrite the file with the first matching row patched; a row that fails validation changes nothing. */
    method Update(tenant: string, id: string, p: Patch, now: int) returns (r: Result)
      modifies this
      ensures (rows, r) == UpdateEffect(old(rows), tenant, id, p, now)
    {
      var all := rows;
      for i := 0 to |all|
        invariant rows == all == old(rows)
        invariant forall k :: 0 <= k < i ==> !IsTask(all[k], tenant, id)
      {
        if !IsTask(all[i], tenant, id) {
          continue;
        }
        FirstIs(all, tenant, id, i);
        var row := Patched(all[i], p);
        if !Passes(row) {
          return Rejected;
        }
        row := row.(updated := now);
        rows := all[i := row];
        return Updated(row);
      }
      NoneIs(all, tenant, id);
      return Missing;
    }

    method Delete(tenant: string, id: string) returns (deleted: bool)
      modifies this
      ensures rows == Removed(old(rows), tenant, id)
      ensures deleted <==> IndexOf(old(rows), tenant, id).Some?
    {
      var kept := Removed(rows, tenant, id);
      RemovedShrinks(rows, tenant, id);
      if |kept| == |rows| {
        return false;
      }
      rows := kept;
      return true;
    }
  }

  lemma {:induction false} RemovedShrinks(rows: seq<Task>, tenant: string, id: string)
    ensures |Removed(rows, tenant, id)| <= |rows|
    ensures IndexOf(rows, tenant, id).None? <==> |Removed(rows, tenant, id)| == |rows|
    ensures IndexOf(rows, tenant, id).None? ==> Removed(rows, tenant, id) == rows
  {
    if rows != [] { RemovedShrinks(rows[..|rows| - 1], tenant, id); }
  }

  lemma FirstIs(rows: seq<Task>, tenant: string, id: string, i: nat)
    requires i < |rows| && IsTask(rows[i], tenant, id) && forall k :: 0 <= k < i ==> !IsTask(rows[k], tenant, id)
    ensures IndexOf(rows, tenant, id) == Some(i)
  {
    var r := IndexOf(rows, tenant, id);
    assert r.Some? ==> !(r.value < i) && !(i < r.value);
  }

  lemma NoneIs(rows: seq<Task>, tenant: string, id: string)
    requires forall k :: 0 <= k < |rows| ==> !IsTask(rows[k], tenant, id)
    ensures IndexOf(rows, tenant, id).None?
  {
  }

  // ------------------------------------------------------- routes

  /** What the complete route sends to the store. */
  function CompletionPatch(t: Task, now: int, offset: int): Patch
    requires CanAdvance(t, now, offset)
  {
    var next := AdvanceNextRun(t.recurrence, t.interval, t.nextRun, now, offset);
    NO_CHANGE.(status := Some(if next.Some? then "active" else "completed"), lastRun := Some(now), nextRun := next)
  }

  /** The base time of a task is a representable local time. */
  predicate CanAdvance(t: Task, now: int, offset: int) {
    t.recurrence == "none" || t.recurrence == "" || IsStamp(ToLocal(Base(t.nextRun, now), offset))
  }

  class TaskRoutes {
    const repo: LocalJsonTasksRepository
    const offset: int

    constructor (repo: LocalJsonTasksRepository, offset: int)
      ensures this.repo == repo && this.offset == offset
    {
      this.repo, this.offset := repo, offset;
    }

    /** POST complete: Missing is the 404. */
    method Complete(tenant: string, id: string, now: int) returns (r: Result)
      requires forall t :: t in repo.rows && IsTask(t, tenant, id) ==> CanAdvance(t, now, offset)
      modifies repo
      ensures match IndexOf(old(repo.rows), tenant, id)
              case None => r == Missing && repo.rows == old(repo.rows)
              case Some(i) =>
                (repo.rows, r) ==
                UpdateEffect(old(repo.rows), tenant, id, CompletionPatch(old(repo.rows)[i], now, offset), now)
      ensures repo.rows == Served(old(repo.rows), Touch(tenant, id, Op.Complete(now)), offset)
    {
      var current := repo.Get(tenant, id);
      if current.None? {
        return Missing;
      }
      var next := AdvanceNextRun(current.value.recurrence, current.value.interval, current.value.nextRun, now, offset);
      var status := if next.Some? then "active" else "completed";
      r := repo.Update(tenant, id, NO_CHANGE.(status := Some(status), lastRun := Some(now), nextRun := next), now);
    }

    /** PATCH: the request cannot name the last and next run. */
    method UpdateTask(tenant: string, id: string, p: Patch, now: int) returns (r: Result)
      modifies repo
      ensures (repo.rows, r) == UpdateEffect(old(repo.rows), tenant, id, p.(nextRun := None, lastRun := None), now)
      ensures repo.rows == Served(old(repo.rows), Touch(tenant, id, Edit(p, now)), offset)
    {
      var current := repo.Get(tenant, id);
      if current.None? {
        return Missing;
      }
      r := repo.Update(tenant, id, p.(nextRun := None, lastRun := None), now);
    }

    /** DELETE: Missing is the 404; otherwise the task that was there. */
    method DeleteTask(tenant: string, id: string) returns (r: Result)
      modifies repo
      ensures repo.rows == Served(old(repo.rows), Remove(tenant, id), offset)
      ensures r == match IndexOf(old(repo.rows), tenant, id) case None => Missing case Some(i) => Updated(old(repo.rows)[i])
    {
      var current := repo.Get(tenant, id);
      RemovedShrinks(repo.rows, tenant, id);
      if current.None? {
        return Missing;
      }
      var deleted := repo.Delete(tenant, id);
      return if deleted then Updated(current.value) else Missing;
    }

    /** Pause and resume. */
    method SetStatus(tenant: string, id: string, status: string, now: int) returns (r: Result)
      modifies repo
      ensures (repo.rows, r) == UpdateEffect(old(repo.rows), tenant, id, NO_CHANGE.(status := Some(status)), now)
      ensures repo.rows == Served(old(repo.rows), Touch(tenant, id, Op.SetStatus(status, now)), offset)
    {
      var current := repo.Get(tenant, id);
      if current.None? {
        return Missing;
      }
      r := repo.Update(tenant, id, NO_CHANGE.(status := Some(status)), now);
    }
  }

  // ------------------------------------------------------- one task's life

  datatype Op =
    | Complete(now: int)
    | SetStatus(status: string, now: int)
    | Edit(patch: Patch, now: int)

  /** What the route sends to the store; nothing when the base time of a completion is no local time. */
  function PatchFor(t: Task, op: Op, offset: int): Option<Patch> {
    match op
    case Complete(now) => if CanAdvance(t, now, offset) then Some(CompletionPatch(t, now, offset)) else None
    case SetStatus(status, _) => Some(NO_CHANGE.(status := Some(status)))
    case Edit(patch, _) => Some(patch.(nextRun := None, lastRun := None))
  }

  /** One route call on a task; a refused patch leaves it alone. */
  function Applied(t: Task, op: Op, offset: int): Task {
    match PatchFor(t, op, offset)
    case None => t
    case Some(p) => if Passes(Patched(t, p)) then Patched(t, p).(updated := op.now) else t
  }

  /** A task after any list of calls on it. */
  function Lived(t: Task, ops: seq<Op>, offset: int): Task {
    if ops == [] then t else Applied(Lived(t, ops[..|ops| - 1], offset), ops[|ops| - 1], offset)
  }

  // ------------------------------------------------------- runs over the stored rows

  /** A request to the task routes; a created task arrives with the id it was given. */
  datatype Request =
    | Touch(tenant: string, id: string, op: Op)
    | Remove(tenant: string, id: string)
    | Add(task: Task)

  function Served(rows: seq<Task>, r: Request, offset: int): seq<Task> {
    match r
    case Touch(tenant, id, op) =>
      (match IndexOf(rows, tenant, id)
       case None => rows
       case Some(i) =>
         var p := PatchFor(rows[i], op, offset);
         if p.None? then rows else UpdateEffect(rows, tenant, id, p.value, op.now).0)
    case Remove(tenant, id) => Removed(rows, tenant, id)
    case Add(task) => if Passes(task) then rows + [task] else rows
  }

  function After(rows: seq<Task>, rs: seq<Request>, offset: int): seq<Task> {
    if rs == [] then rows else Served(After(rows, rs[..|rs| - 1], offset), rs[|rs| - 1], offset)
  }

  /** The calls of a run that are about one task. */
  function OwnOps(rs: seq<Request>, tenant: string, id: string): seq<Op> {
    if rs == [] then []
    else
      var r, before := rs[|rs| - 1], OwnOps(rs[..|rs| - 1], tenant, id);
      if r.Touch? && r.tenant == tenant && r.id == id then before + [r.op] else before
  }

  ghost predicate NeverRemoved(rs: seq<Request>, tenant: string, id: string) {
    forall i :: 0 <= i < |rs| ==> rs[i] != Remove(tenant, id)
  }

  /** The stored row of a tenant and id is t. */
  predicate Stored(rows: seq<Task>, tenant: string, id: string, t: Task) {
    var i := IndexOf(rows, tenant, id);
    i.Some? && rows[i.value] == t
  }

  lemma AppliedStaysNamed(t: Task, op: Op, offset: int)
    ensures Applied(t, op, offset).tenantId == t.tenantId && Applied(t, op, offset).taskId == t.taskId
  {
  }

  /** A call on a stored task does to its row what Applied says and leaves all other rows as they were. */
  lemma TouchAppliesToOneRow(rows: seq<Task>, tenant: string, id: string, op: Op, offset: int)
    requires IndexOf(rows, tenant, id).Some?
    ensures var i := IndexOf(rows, tenant, id).value;
            Served(rows, Touch(tenant, id, op), offset) == rows[i := Applied(rows[i], op, offset)]
  {
    hide PatchFor, Passes;
    var i := IndexOf(rows, tenant, id).value;
    assert rows[i := rows[i]] == rows;
  }

  /** A row is found where it was when another row is replaced by one of the same tenant and id. */
  lemma {:induction false} IndexKept(rows: seq<Task>, i: nat, x: Task, tenant: string, id: string)
    requires i < |rows| && x.tenantId == rows[i].tenantId && x.taskId == rows[i].taskId
    ensures IndexOf(rows[i := x], tenant, id) == IndexOf(rows, tenant, id)
  {
    var n := |rows| - 1;
    if i < n {
      IndexKept(rows[..n], i, x, tenant, id);
      assert rows[i := x][..n] == rows[..n][i := x];
    } else {
      assert rows[i := x][..n] == rows[..n];
    }
  }

  lemma TouchedElsewhere(rows: seq<Task>, r: Request, tenant: string, id: string, t: Task, offset: int)
    requires Stored(rows, tenant, id, t) && r.Touch? && !(r.tenant == tenant && r.id == id)
    ensures Stored(Served(rows, r, offset), tenant, id, t)
  {
    hide IndexOf, Applied, Served;
    var at := IndexOf(rows, r.tenant, r.id);
    if at.None? {
      NothingServed(rows, r, offset);
    } else {
      TouchAppliesToOneRow(rows, r.tenant, r.id, r.op, offset);
      AppliedStaysNamed(rows[at.value], r.op, offset);
      IndexKept(rows, at.value, Applied(rows[at.value], r.op, offset), tenant, id);
    }
  }

  lemma NothingServed(rows: seq<Task>, r: Request, offset: int)
    requires r.Touch? && IndexOf(rows, r.tenant, r.id).None?
    ensures Served(rows, r, offset) == rows
  {
  }

  lemma TouchedHere(rows: seq<Task>, r: Request, tenant: string, id: string, t: Task, offset: int)
    requires Stored(rows, tenant, id, t) && r.Touch? && r.tenant == tenant && r.id == id
    ensures Stored(Served(rows, r, offset), tenant, id, Applied(t, r.op, offset))
  {
    hide IndexOf, Applied, Served;
    var i := IndexOf(rows, tenant, id).value;
    TouchAppliesToOneRow(rows, tenant, id, r.op, offset);
    AppliedStaysNamed(t, r.op, offset);
    IndexKept(rows, i, Applied(t, r.op, offset), tenant, id);
  }

  lemma AddedBehind(rows: seq<Task>, x: Task, tenant: string, id: string, t: Task)
    requires Stored(rows, tenant, id, t)
    ensures Stored(rows + [x], tenant, id, t)
  {
    assert (rows + [x])[..|rows|] == rows;
  }

  lemma {:induction false} RemovedElsewhere(rows: seq<Task>, tenant: string, id: string, t: Task, tenant': string, id': string)
    requires Stored(rows, tenant, id, t) && !(tenant' == tenant && id' == id)
    ensures Stored(Removed(rows, tenant', id'), tenant, id, t)
  {
    var n := |rows| - 1;
    var before, x := Removed(rows[..n], tenant', id'), rows[n];
    if IndexOf(rows[..n], tenant, id).Some? {
      RemovedElsewhere(rows[..n], tenant, id, t, tenant', id');
      AddedBehind(before, x, tenant, id, t);
    } else {
      RemovedStaysMissing(rows[..n], tenant, id, tenant', id');
      assert (before + [x])[..|before|] == before;
    }
  }

  lemma {:induction false} RemovedStaysMissing(rows: seq<Task>, tenant: string, id: string, tenant': string, id': string)
    requires IndexOf(rows, tenant, id).None?
    ensures IndexOf(Removed(rows, tenant', id'), tenant, id).None?
  {
    if rows != [] {
      var n := |rows| - 1;
      var before := Removed(rows[..n], tenant', id');
      RemovedStaysMissing(rows[..n], tenant, id, tenant', id');
      assert (before + [rows[n]])[..|before|] == before;
      assert !IsTask(rows[n], tenant, id);
    }
  }

  /**
    However requests for any tenants and tasks interleave, the stored row of a
    task that is not deleted is what its own calls made of it, in their order.
   */
  lemma {:induction false} StoredRowLivesItsOwnLife(
      rows: seq<Task>, rs: seq<Request>, tenant: string, id: string, t: Task, offset: int)
    requires Stored(rows, tenant, id, t) && NeverRemoved(rs, tenant, id)
    ensures Stored(After(rows, rs, offset), tenant, id, Lived(t, OwnOps(rs, tenant, id), offset))
  {
    hide Stored, Served, Applied;
    if rs != [] {
      var r, init := rs[|rs| - 1], rs[..|rs| - 1];
      StoredRowLivesItsOwnLife(rows, init, tenant, id, t, offset);
      var ops := OwnOps(init, tenant, id);
      ServedOnce(After(rows, init, offset), r, tenant, id, Lived(t, ops, offset), offset);
      if r.Touch? && r.tenant == tenant && r.id == id { assert (ops + [r.op])[..|ops|] == ops; }
    }
  }

  lemma ServedOnce(rows: seq<Task>, r: Request, tenant: string, id: string, t: Task, offset: int)
    requires Stored(rows, tenant, id, t) && r != Remove(tenant, id)
    ensures Stored(
              Served(rows, r, offset), tenant, id,
              if r.Touch? && r.tenant == tenant && r.id == id then Applied(t, r.op, offset) else t)
  {
    hide Stored, Applied, Passes, IndexOf;
    match r {
      case Touch(_, _, _) =>
        if r.tenant == tenant && r.id == id {
          TouchedHere(rows, r, tenant, id, t, offset);
        } else {
          TouchedElsewhere(rows, r, tenant, id, t, offset);
        }
      case Remove(tenant', id') =>
        RemovedElsewhere(rows, tenant, id, t, tenant', id');
      case Add(x) =>
        AddedBehind(rows, x, tenant, id, t);
    }
  }

  /** A created task that is sound is stored behind all others, one that is not is not stored; a new id is found again. */
  lemma AddOutcome(rows: seq<Task>, t: Task, offset: int)
    ensures Served(rows, Add(t), offset) == if IsSound(t) then rows + [t] else rows
    ensures IsSound(t) && IndexOf(rows, t.tenantId, t.taskId).None? ==>
              Stored(Served(rows, Add(t), offset), t.tenantId, t.taskId, t)
  {
    hide IsSound, Passes;
    PassesIffSound(t);
    assert (rows + [t])[..|rows|] == rows;
  }

  /** A deleted task is gone. */
  lemma {:induction false} RemovedIsGone(rows: seq<Task>, tenant: string, id: string)
    ensures IndexOf(Removed(rows, tenant, id), tenant, id).None?
  {
    if rows != [] {
      var n := |rows| - 1;
      var before := Removed(rows[..n], tenant, id);
      RemovedIsGone(rows[..n], tenant, id);
      assert (before + [rows[n]])[..|before|] == before && before + [] == before;
    }
  }

  // ------------------------------------------------------- what completions do

  /**
    Completing a valid recurring task makes it active again, whatever its status
    was; completing one that does not recur marks it completed but keeps its old
    next run, since the store skips the None in the patch.
   */
  lemma CompletionOutcome(t: Task, now: int, offset: int)
    requires Passes(t) && CanAdvance(t, now, offset)
    ensures var t' := Applied(t, Complete(now), offset);
            && Passes(t') && t'.lastRun == Some(now)
            && (t.recurrence == "none" ==> t'.status == "completed" && t'.nextRun == t.nextRun)
            && (t.recurrence != "none" ==>
                  && t'.status == "active"
                  && t'.nextRun == AdvanceNextRun(t.recurrence, t.interval, t.nextRun, now, offset))
  {
  }

  /** An edit changes, field by field, what it names and nothing else; an edit that leaves the row invalid changes nothing. */
  lemma EditOutcome(t: Task, p: Patch, now: int, offset: int)
    requires Passes(t)
    ensures var t' := Applied(t, Edit(p, now), offset);
            var accepted :=
              && (p.title.Some? ==> NonSpace(p.title.value) != "")
              && (p.status.Some? ==> p.status.value in {"pending", "active", "completed", "cancelled", "paused", "failed"})
              && (p.priority.Some? ==> p.priority.value in {"low", "medium", "high", "critical"})
              && (p.recurrence.Some? ==>
                    p.recurrence.value in {"none", "daily", "weekly", "monthly", "quarterly", "yearly", "custom"});
            if !accepted then t' == t
            else
              && t'.title == OrElse(p.title, t.title) && t'.status == OrElse(p.status, t.status)
              && t'.priority == OrElse(p.priority, t.priority) && t'.recurrence == OrElse(p.recurrence, t.recurrence)
              && t'.interval == (if p.interval.Some? then p.interval else t.interval)
              && t'.nextRun == t.nextRun && t'.lastRun == t.lastRun && t'.updated == now
              && t'.taskId == t.taskId && t'.tenantId == t.tenantId && t'.createdBy == t.createdBy
  {
    hide Strip, NonSpace;
    StripKeeps(t.title);
    if p.title.Some? { StripKeeps(p.title.value); }
  }

  /** Pausing and resuming store a known status and nothing else. */
  lemma StatusOutcome(t: Task, status: string, now: int, offset: int)
    requires Passes(t)
    ensures Applied(t, SetStatus(status, now), offset) ==
            if status in {"pending", "active", "completed", "cancelled", "paused", "failed"}
            then t.(status := status, updated := now) else t
  {
    hide Strip;
  }

  /** What validation lets into the store. */
  predicate IsSound(t: Task) {
    && t.tenantId != "" && t.createdBy != "" && NonSpace(t.title) != ""
    && t.status in {"pending", "active", "completed", "cancelled", "paused", "failed"}
    && t.priority in {"low", "medium", "high", "critical"}
    && t.recurrence in {"none", "daily", "weekly", "monthly", "quarterly", "yearly", "custom"}
  }

  lemma PassesIffSound(t: Task)
    ensures Passes(t) <==> IsSound(t)
  {
    hide Strip, NonSpace;
    StripKeeps(t.title);
  }

  ghost predicate AllSound(rows: seq<Task>) {
    forall k :: 0 <= k < |rows| ==> IsSound(rows[k])
  }

  lemma {:induction false} RemovedSound(rows: seq<Task>, tenant: string, id: string)
    requires AllSound(rows)
    ensures AllSound(Removed(rows, tenant, id))
  {
    hide IsSound;
    if rows != [] { RemovedSound(rows[..|rows| - 1], tenant, id); }
  }

  /** Every run of requests keeps every stored row sound. */
  lemma {:induction false} StoreStaysSound(rows: seq<Task>, rs: seq<Request>, offset: int)
    requires AllSound(rows)
    ensures AllSound(After(rows, rs, offset))
  {
    hide Served, AllSound;
    if rs != [] {
      StoreStaysSound(rows, rs[..|rs| - 1], offset);
      ServedStaysSound(After(rows, rs[..|rs| - 1], offset), rs[|rs| - 1], offset);
    }
  }

  lemma ServedStaysSound(rows: seq<Task>, r: Request, offset: int)
    requires AllSound(rows)
    ensures AllSound(Served(rows, r, offset))
  {
    hide IsSound, Passes, PatchFor, Patched;
    match r {
      case Touch(tenant, id, op) =>
        if IndexOf(rows, tenant, id).Some? {
          var i := IndexOf(rows, tenant, id).value;
          TouchAppliesToOneRow(rows, tenant, id, op, offset);
          PassesIffSound(rows[i]);
          UpdatedPasses(rows[i], op, offset);
          PassesIffSound(Applied(rows[i], op, offset));
        }
      case Remove(tenant, id) =>
        RemovedSound(rows, tenant, id);
      case Add(task) =>
        PassesIffSound(task);
    }
  }

  /** A row that ever passed validation keeps passing it. */
  lemma {:induction false} LivedPasses(t: Task, ops: seq<Op>, offset: int)
    requires Passes(t)
    ensures Passes(Lived(t, ops, offset))
  {
    hide Passes, PatchFor;
    if ops != [] {
      LivedPasses(t, ops[..|ops| - 1], offset);
      UpdatedPasses(Lived(t, ops[..|ops| - 1], offset), ops[|ops| - 1], offset);
    }
  }

  lemma UpdatedPasses(t: Task, op: Op, offset: int)
    requires Passes(t)
    ensures Passes(Applied(t, op, offset))
  {
    hide PatchFor, Patched;
  }

  /**
    In any run, after a task's own last call was a completion, its stored row is
    completed with its old next run kept if it does not recur, and otherwise
    active with the next run advanced, whatever its status had been.
   */
  lemma LastCompletionDecides(rows: seq<Task>, rs: seq<Request>, tenant: string, id: string, t: Task, offset: int)
    requires Stored(rows, tenant, id, t) && NeverRemoved(rs, tenant, id) && Passes(t)
    requires var ops := OwnOps(rs, tenant, id);
             && ops != [] && ops[|ops| - 1].Complete?
             && CanAdvance(Lived(t, ops[..|ops| - 1], offset), ops[|ops| - 1].now, offset)
    ensures var ops := OwnOps(rs, tenant, id);
            var before, now := Lived(t, ops[..|ops| - 1], offset), ops[|ops| - 1].now;
            var i := IndexOf(After(rows, rs, offset), tenant, id);
            && i.Some?
            && var stored := After(rows, rs, offset)[i.value];
            && stored.lastRun == Some(now)
            && (before.recurrence == "none" ==> stored.status == "completed" && stored.nextRun == before.nextRun)
            && (before.recurrence != "none" ==>
                  && stored.status == "active"
                  && stored.nextRun == AdvanceNextRun(before.recurrence, before.interval, before.nextRun, now, offset))
  {
    hide After, OwnOps, Passes, CanAdvance, Applied, IndexOf;
    var ops := OwnOps(rs, tenant, id);
    StoredRowLivesItsOwnLife(rows, rs, tenant, id, t, offset);
    LivedPasses(t, ops[..|ops| - 1], offset);
    CompletionOutcome(Lived(t, ops[..|ops| - 1], offset), ops[|ops| - 1].now, offset);
  }

  function Completions(ops: seq<Op>): nat {
    if ops == [] then 0 else Completions(ops[..|ops| - 1]) + if ops[|ops| - 1].Complete? then 1 else 0
  }

  /** Advances never leave the calendar. */
  predicate Recurring(t: Task) {
    && Passes(t) && t.recurrence != "none"
    && (t.recurrence != "custom" || t.interval.None? || t.interval.value >= 0)
  }

  /** A stored next run that is a local time. */
  predicate Scheduled(t: Task, offset: int) {
    Recurring(t) && t.nextRun.Some? && IsStamp(ToLocal(t.nextRun.value, offset))
  }

  /** No edit changes the recurrence or its interval. */
  ghost predicate SameRecurrence(ops: seq<Op>) {
    forall i :: 0 <= i < |ops| && ops[i].Edit? ==> ops[i].patch.recurrence.None? && ops[i].patch.interval.None?
  }

  ghost predicate LifeIs(t: Task, n: nat, offset: int, t': Task)
    requires Scheduled(t, offset)
  {
    && Recurring(t') && t'.recurrence == t.recurrence && t'.interval == t.interval
    && t'.nextRun == Some(ToInstant(Repeated(t.recurrence, t.interval, ToLocal(t.nextRun.value, offset), n), offset))
  }

  lemma LifeGoesOn(t: Task, n: nat, offset: int, before: Task, op: Op)
    requires Scheduled(t, offset) && LifeIs(t, n, offset, before)
    requires op.Edit? ==> op.patch.recurrence.None? && op.patch.interval.None?
    ensures LifeIs(t, if op.Complete? then n + 1 else n, offset, Applied(before, op, offset))
  {
    hide ToLocal, ToInstant, Advanced, IsStamp;
    var s := Repeated(t.recurrence, t.interval, ToLocal(t.nextRun.value, offset), n);
    LocalRoundTrip(s, offset);
    if op.Complete? { assert CanAdvance(before, op.now, offset); }
  }

  lemma {:induction false} LifeOf(t: Task, ops: seq<Op>, offset: int)
    requires Scheduled(t, offset) && SameRecurrence(ops)
    ensures LifeIs(t, Completions(ops), offset, Lived(t, ops, offset))
  {
    hide LifeIs, Applied, Scheduled;
    if ops == [] {
      LifeBegins(t, offset);
    } else {
      var init, op := ops[..|ops| - 1], ops[|ops| - 1];
      LifeOf(t, init, offset);
      LifeGoesOn(t, Completions(init), offset, Lived(t, init, offset), op);
    }
  }

  lemma LifeBegins(t: Task, offset: int)
    requires Scheduled(t, offset)
    ensures LifeIs(t, 0, offset, t)
  {
    LocalOf(t.nextRun.value, offset);
  }

  /**
    After any run of requests with n completions of a monthly, quarterly or
    yearly task, its stored row stands n steps of months after its first run, on
    the smallest of the first day and the lengths of all months visited, at the
    same local time; the task's own edits may change anything but the recurrence.
   */
  lemma CompletionsMoveByMonths(rows: seq<Task>, rs: seq<Request>, tenant: string, id: string, t: Task, offset: int)
    requires Stored(rows, tenant, id, t) && NeverRemoved(rs, tenant, id)
    requires Scheduled(t, offset) && MonthStep(t.recurrence) > 0 && SameRecurrence(OwnOps(rs, tenant, id))
    ensures var i := IndexOf(After(rows, rs, offset), tenant, id);
            && i.Some? && After(rows, rs, offset)[i.value].nextRun.Some?
            && var base, n := ToLocal(t.nextRun.value, offset), Completions(OwnOps(rs, tenant, id));
            && var s := ToLocal(After(rows, rs, offset)[i.value].nextRun.value, offset);
            && IsStamp(s)
            && StandsAt(base, s, MonthStep(t.recurrence), n)
  {
    hide After, OwnOps, Passes, Applied, IndexOf, Lived, Completions, StandsAt, ToLocal, ToInstant;
    var ops := OwnOps(rs, tenant, id);
    StoredRowLivesItsOwnLife(rows, rs, tenant, id, t, offset);
    LifeOf(t, ops, offset);
    var base, n := ToLocal(t.nextRun.value, offset), Completions(ops);
    RepeatedMonths(t.recurrence, t.interval, base, n);
    LocalRoundTrip(Repeated(t.recurrence, t.interval, base, n), offset);
  }
}
