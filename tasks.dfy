/**
 * Task records and the list operations the handlers use: the day view
 * (app.js:186-187), the progress percentage (app.js:219-222), the lookup by
 * id (app.js:333, 345) and the removal filter (app.js:347).
 */
module Tasks {
  import opened Optional
  import opened Arith

  /** A task `{id, text, done, created, date}` (app.js:107); `date` is a `ymd` key. */
  datatype Task = Task(id: string, text: string, done: bool, created: int, date: string)

  /** No two tasks share an id. */
  predicate UniqueIds(tasks: seq<Task>) {
    forall i, j :: 0 <= i < j < |tasks| ==> tasks[i].id != tasks[j].id
  }

  /** Appending a task with a new id keeps ids unique. */
  lemma AppendFreshKeepsUnique(tasks: seq<Task>, t: Task)
    requires UniqueIds(tasks) && forall i :: 0 <= i < |tasks| ==> tasks[i].id != t.id
    ensures UniqueIds(tasks + [t])
  {
    var r := tasks + [t];
    forall i, j | 0 <= i < j < |r| ensures r[i].id != r[j].id {
      assert r[i] == tasks[i];
      if j < |tasks| {
        assert r[j] == tasks[j];
      }
    }
  }

  // ---- The day view ----

  /** `tasks.filter(t => t.date === key)`: the tasks of one day. */
  function ForDate(tasks: seq<Task>, key: string): (r: seq<Task>)
    ensures |r| <= |tasks|
  {
    if tasks == [] then []
    else (if tasks[0].date == key then [tasks[0]] else []) + ForDate(tasks[1..], key)
  }

  /** The day view holds exactly the tasks dated `key`. */
  lemma {:induction false} ForDateMembers(tasks: seq<Task>, key: string)
    ensures forall t :: t in ForDate(tasks, key) <==> t in tasks && t.date == key
  {
    if tasks != [] {
      ForDateMembers(tasks[1..], key);
      assert tasks == [tasks[0]] + tasks[1..];
    }
  }

  /** Filtering keeps list order: it distributes over concatenation. */
  lemma {:induction false} ForDateAppend(a: seq<Task>, b: seq<Task>, key: string)
    ensures ForDate(a + b, key) == ForDate(a, key) + ForDate(b, key)
  {
    if a != [] {
      assert (a + b)[1..] == a[1..] + b;
      ForDateAppend(a[1..], b, key);
    } else {
      assert a + b == b;
    }
  }

  /** A list whose tasks are all on `key` is its own day view. */
  lemma {:induction false} ForDateAll(tasks: seq<Task>, key: string)
    requires forall i :: 0 <= i < |tasks| ==> tasks[i].date == key
    ensures ForDate(tasks, key) == tasks
  {
    if tasks != [] {
      ForDateAll(tasks[1..], key);
      assert [tasks[0]] + tasks[1..] == tasks;
    }
  }

  // ---- Progress ----

  /** `filter(t => t.done).length`. */
  function DoneCount(tasks: seq<Task>): (n: nat)
    ensures n <= |tasks|
    ensures n == |tasks| <==> forall i :: 0 <= i < |tasks| ==> tasks[i].done
  {
    if tasks == [] then 0 else (if tasks[0].done then 1 else 0) + DoneCount(tasks[1..])
  }

  /**
   * `updateProgress` (app.js:219-222): 0 for no tasks, otherwise
   * `Math.round(done / total * 100)`, here in exact integer arithmetic.
   */
  function Percent(visible: seq<Task>): (pct: nat)
    ensures pct <= 100
  {
    RoundedPercent(DoneCount(visible), |visible|)
  }

  /** `Math.round(done / total * 100)` for `0 <= done <= total`, and 0 for `total == 0`. */
  function RoundedPercent(done: nat, total: nat): (pct: nat)
    requires done <= total
    ensures pct <= 100
  {
    if total == 0 then 0
    else
      RoundedPercentBound(done, total);
      (200 * done + total) / (2 * total)
  }

  lemma RoundedPercentBound(done: nat, total: nat)
    requires 0 < total && done <= total
    ensures 0 <= (200 * done + total) / (2 * total) <= 100
  {
    var n, k := 200 * done + total, 2 * total;
    DivIs(n, k, n / k);
    if n / k > 100 {
      MulStep(k, 100, n / k);
    }
  }

  /** The rounded percentage is `100 * done / total` rounded half up. */
  lemma RoundsHalfUp(done: nat, total: nat)
    requires 0 < total && done <= total
    ensures var pct := RoundedPercent(done, total);
            2 * total * pct - total <= 200 * done < 2 * total * pct + total
  {
    var pct := RoundedPercent(done, total);
    DivIs(200 * done + total, 2 * total, pct);
  }

  /** The percentage shown is the share of done tasks rounded half up. */
  lemma PercentRounds(visible: seq<Task>)
    requires |visible| > 0
    ensures var total, pct := |visible|, Percent(visible);
            2 * total * pct - total <= 200 * DoneCount(visible) < 2 * total * pct + total
  {
    RoundsHalfUp(DoneCount(visible), |visible|);
  }

  lemma RoundedFull(done: nat, total: nat)
    requires done <= total
    ensures RoundedPercent(done, total) == 100 <==> total > 0 && 200 * (total - done) <= total
  {
    if total > 0 {
      DivIs(200 * done + total, 2 * total, 100);
    }
  }

  lemma RoundedZero(done: nat, total: nat)
    requires done <= total
    ensures RoundedPercent(done, total) == 0 <==> total == 0 || 200 * done < total
  {
    if total > 0 {
      DivIs(200 * done + total, 2 * total, 0);
    }
  }

  /**
   * 100% shows exactly when at most half a percent of the tasks is undone: always
   * when all are done, but also with one task open among 200 or more.
   */
  lemma PercentFull(visible: seq<Task>)
    ensures Percent(visible) == 100 <==> |visible| > 0 && 200 * (|visible| - DoneCount(visible)) <= |visible|
  {
    RoundedFull(DoneCount(visible), |visible|);
  }

  /** 0% shows exactly when there are no tasks or under half a percent of them is done. */
  lemma PercentZero(visible: seq<Task>)
    ensures Percent(visible) == 0 <==> |visible| == 0 || 200 * DoneCount(visible) < |visible|
  {
    RoundedZero(DoneCount(visible), |visible|);
  }

  // ---- Lookup and removal by id ----

  /** `tasks.find(x => x.id === id)`, as the index of the first task with that id. */
  function FindById(tasks: seq<Task>, id: string): (r: Option<nat>)
    ensures r.None? <==> forall i :: 0 <= i < |tasks| ==> tasks[i].id != id
    ensures r.Some? ==> r.value < |tasks| && tasks[r.value].id == id
                        && forall j :: 0 <= j < r.value ==> tasks[j].id != id
  {
    if tasks == [] then None
    else if tasks[0].id == id then Some(0)
    else match FindById(tasks[1..], id)
      case None => None
      case Some(i) => Some(i + 1)
  }

  /** `tasks.filter(x => x.id !== id)`. */
  function WithoutId(tasks: seq<Task>, id: string): (r: seq<Task>)
    ensures |r| <= |tasks|
  {
    if tasks == [] then []
    else (if tasks[0].id != id then [tasks[0]] else []) + WithoutId(tasks[1..], id)
  }

  /** Removal keeps exactly the tasks with another id. */
  lemma {:induction false} WithoutIdMembers(tasks: seq<Task>, id: string)
    ensures forall t :: t in WithoutId(tasks, id) <==> t in tasks && t.id != id
  {
    if tasks != [] {
      WithoutIdMembers(tasks[1..], id);
      assert tasks == [tasks[0]] + tasks[1..];
    }
  }

  /** Removal keeps the order of the remaining tasks. */
  lemma {:induction false} WithoutIdAppend(a: seq<Task>, b: seq<Task>, id: string)
    ensures WithoutId(a + b, id) == WithoutId(a, id) + WithoutId(b, id)
  {
    if a != [] {
      assert (a + b)[1..] == a[1..] + b;
      WithoutIdAppend(a[1..], b, id);
    } else {
      assert a + b == b;
    }
  }

  /** Removing an id no task has changes nothing. */
  lemma {:induction false} WithoutAbsentId(tasks: seq<Task>, id: string)
    requires forall i :: 0 <= i < |tasks| ==> tasks[i].id != id
    ensures WithoutId(tasks, id) == tasks
  {
    if tasks != [] {
      WithoutAbsentId(tasks[1..], id);
      assert [tasks[0]] + tasks[1..] == tasks;
    }
  }

  /** With unique ids, removing a task's id removes exactly that one record. */
  lemma RemovesExactlyOne(tasks: seq<Task>, i: nat)
    requires UniqueIds(tasks) && i < |tasks|
    ensures WithoutId(tasks, tasks[i].id) == tasks[..i] + tasks[i + 1..]
  {
    var id, before, after := tasks[i].id, tasks[..i], tasks[i + 1..];
    forall j | 0 <= j < |before| ensures before[j].id != id {
      assert before[j] == tasks[j];
    }
    forall j | 0 <= j < |after| ensures after[j].id != id {
      assert after[j] == tasks[i + 1 + j];
    }
    assert tasks == before + [tasks[i]] + after;
    WithoutIdSplice(before, tasks[i], after);
  }

  lemma WithoutIdSplice(before: seq<Task>, t: Task, after: seq<Task>)
    requires forall j :: 0 <= j < |before| ==> before[j].id != t.id
    requires forall j :: 0 <= j < |after| ==> after[j].id != t.id
    ensures WithoutId(before + [t] + after, t.id) == before + after
  {
    var id := t.id;
    WithoutAbsentId(before, id);
    WithoutAbsentId(after, id);
    assert WithoutId([t], id) == [];
    WithoutIdAppend(before, [t], id);
    assert WithoutId(before + [t], id) == before + [];
    assert before + [] == before;
    WithoutIdAppend(before + [t], after, id);
  }

  /** With unique ids, setting the done flag of the task found by id changes that task alone. */
  lemma SetDoneOnlyThatTask(tasks: seq<Task>, id: string, checked: bool)
    requires UniqueIds(tasks) && FindById(tasks, id).Some?
    ensures var i := FindById(tasks, id).value;
            var r := tasks[i := tasks[i].(done := checked)];
            UniqueIds(r)
            && forall j :: 0 <= j < |r| ==> r[j] == if tasks[j].id == id then tasks[j].(done := checked) else tasks[j]
  {
    var i := FindById(tasks, id).value;
    var r := tasks[i := tasks[i].(done := checked)];
    forall j | 0 <= j < |r|
      ensures r[j] == if tasks[j].id == id then tasks[j].(done := checked) else tasks[j]
    {
      if j != i {
        assert tasks[j].id != tasks[i].id by {
          if j < i { assert tasks[j].id != tasks[i].id; } else { assert tasks[i].id != tasks[j].id; }
        }
      }
    }
    forall a, b | 0 <= a < b < |r| ensures r[a].id != r[b].id {
      assert r[a].id == tasks[a].id && r[b].id == tasks[b].id;
    }
  }

  /** Removal keeps ids unique. */
  lemma {:induction false} WithoutIdKeepsUnique(tasks: seq<Task>, id: string)
    requires UniqueIds(tasks)
    ensures UniqueIds(WithoutId(tasks, id))
  {
    if tasks != [] {
      WithoutIdKeepsUnique(tasks[1..], id);
      var rest := WithoutId(tasks[1..], id);
      WithoutIdMembers(tasks[1..], id);
      forall t | t in rest ensures t.id != tasks[0].id {
        var k :| 0 <= k < |tasks[1..]| && tasks[1..][k] == t;
        assert tasks[k + 1] == t;
      }
    }
  }
}
