/**
 Queries of hourly files that hold the entries of many time series: `RollupManager::query` of src/agg/rollup.cpp and
 `RollupDataFile::query` of src/core/mmap.cpp.  Every queried series has a task with its own clock.  A file is left at
 the first entry of any of them that is past the range.
 */
module RollupShared {
  import opened Calendar
  import opened Stats
  import opened RollupManager
  import opened RollupReader

  /** An entry in a file, of the series `tid`. */
  datatype Tagged = Tagged(tid: nat, s: Stats)

  /** The entries of one series, in the order they were appended. */
  function Own(es: seq<Tagged>, tid: nat): seq<Stats> {
    if es == [] then []
    else
      var e := es[|es| - 1];
      Own(es[..|es| - 1], tid) + if e.tid == tid then [e.s] else []
  }

  lemma {:induction false} OwnSnoc(es: seq<Tagged>, n: nat, tid: nat)
    requires n < |es|
    ensures Own(es[..n + 1], tid) == Own(es[..n], tid) + if es[n].tid == tid then [es[n].s] else []
  {
    assert es[..n + 1][..n] == es[..n];
  }

  // ---------------------------------------------------------------- tasks

  /** The part of a task that matters here: its clock, and what it feeds its downsampler. */
  datatype Task = Task(unset: bool, last: nat, items: seq<Item>)

  const NewTask := Task(true, 0, [])

  /** The time that the task gives to its next entry, in the file of month `begin`. */
  function NextDate(task: Task, begin: nat): nat { if task.unset then begin else task.last + HOUR }

  /** A task after all entries `ss` of its series in a file. */
  function Fed(task: Task, begin: nat, ss: seq<Stats>, from: nat, to: nat): Task {
    if ss == [] then task
    else
      var d := NextDate(task, begin);
      Task(false, d + HOUR * (|ss| - 1), task.items + Within(Stamps(d, ss), from, to))
  }

  lemma {:induction false} FedSnoc(task: Task, begin: nat, ss: seq<Stats>, s: Stats, from: nat, to: nat)
    ensures Fed(task, begin, ss + [s], from, to) == Fed(Fed(task, begin, ss, from, to), begin, [s], from, to)
    ensures NextDate(Fed(task, begin, ss, from, to), begin) == NextDate(task, begin) + HOUR * |ss|
  {
    hide Within, Stamps;
    var d := NextDate(task, begin);
    if ss == [] {
      assert ss + [s] == [s];
    } else {
      StampsOneMore(d, ss, s, from, to);
      var w, x := Within(Stamps(d, ss), from, to), Within(Stamps(d + HOUR * |ss|, [s]), from, to);
      assert task.items + (w + x) == (task.items + w) + x;
    }
  }

  // ---------------------------------------------------------------- one file

  /** The time that entry `n` of a file is given, if its series is queried. */
  function DateOf(tasks: map<nat, Task>, begin: nat, es: seq<Tagged>, n: nat): nat
    requires n < |es| && es[n].tid in tasks
  {
    NextDate(tasks[es[n].tid], begin) + HOUR * |Own(es[..n], es[n].tid)|
  }

  /** Entry `n` is of a queried series and past the range. */
  predicate Past(tasks: map<nat, Task>, begin: nat, es: seq<Tagged>, n: nat, from: nat, to: nat)
    requires n < |es|
  {
    es[n].tid in tasks && InRange(from, to, DateOf(tasks, begin, es, n)) > 0
  }

  /** How many entries of a file are looked at, from number `n` on: up to and with the first past the range. */
  function Looked(tasks: map<nat, Task>, begin: nat, es: seq<Tagged>, n: nat, from: nat, to: nat): (r: nat)
    requires n <= |es|
    ensures n <= r <= |es|
    ensures forall k | n <= k < r - 1 :: !Past(tasks, begin, es, k, from, to)
    ensures r < |es| ==> n < r && Past(tasks, begin, es, r - 1, from, to)
    decreases |es| - n
  {
    if n == |es| then n
    else if Past(tasks, begin, es, n, from, to) then n + 1
    else Looked(tasks, begin, es, n + 1, from, to)
  }

  /** Every task has seen exactly the entries of its series. */
  ghost predicate HaveSeen(was: map<nat, Task>, now: map<nat, Task>, begin: nat, es: seq<Tagged>, from: nat, to: nat) {
    now.Keys == was.Keys && forall tid | tid in was :: now[tid] == Fed(was[tid], begin, Own(es, tid), from, to)
  }

  class SharedQuery {
    var tasks: map<nat, Task>

    constructor (tids: set<nat>)
      ensures tasks == map tid | tid in tids :: NewTask
    {
      tasks := map tid | tid in tids :: NewTask;
    }

    /** `query_entry`. */
    method QueryEntry(begin: nat, e: Tagged, from: nat, to: nat) returns (found: int)
      modifies this
      ensures if e.tid in old(tasks)
              then
                var task := old(tasks)[e.tid];
                && tasks == old(tasks)[e.tid := Fed(task, begin, [e.s], from, to)]
                && found == InRange(from, to, NextDate(task, begin))
              else tasks == old(tasks) && found == 0
    {
      found := 0;
      if e.tid in tasks {
        var task := tasks[e.tid];
        var ts := if task.unset then begin else task.last + HOUR;
        StampOne(ts, e.s, from, to);
        found := InRange(from, to, ts);
        var items := task.items;
        assert items + [] == items;
        if e.s.cnt != 0 && found == 0 { items := items + [Item(ts, e.s)]; }
        tasks := tasks[e.tid := Task(false, ts, items)];
      }
    }

    /** `query` on one file, which is left at the first entry past the range. */
    method QueryFile(begin: nat, es: seq<Tagged>, from: nat, to: nat)
      modifies this
      ensures HaveSeen(old(tasks), tasks, begin, es[..Looked(old(tasks), begin, es, 0, from, to)], from, to)
    {
      hide Fed, Own, Past, DateOf, NextDate;
      var i := 0;
      NothingSeen(tasks, begin, es, from, to);
      while i < |es|
        invariant i <= |es| && HaveSeen(old(tasks), tasks, begin, es[..i], from, to)
        invariant Looked(old(tasks), begin, es, 0, from, to) == Looked(old(tasks), begin, es, i, from, to)
      {
        ghost var now := tasks;
        var found := QueryEntry(begin, es[i], from, to);
        OneMoreSeen(old(tasks), now, tasks, begin, es, i, from, to);
        PastIsFound(old(tasks), now, begin, es, i, from, to);
        i := i + 1;
        if found > 0 { return; }
      }
    }

    /**
     `query` on the files of the months of a range, one after the other.  A series gets all that its files hold for it
     in the range exactly when no such entry is behind one past the range, of any queried series, in the last file.
     If it is the only one queried, it always does.
     */
    method Query(files: map<nat, seq<Tagged>>, from: nat, to: nat, ghost logs: map<nat, seq<Record>>)
      requires HoldLogs(files, logs) && tasks == map tid | tid in logs :: NewTask
      modifies this
      ensures tasks.Keys == logs.Keys && tasks == Answered(files, logs, from, to)
      ensures forall tid | tid in logs ::
                tasks[tid].items == FromFiles(logs[tid], from, to) <==> !Lost(files, logs, tid, from, to)
      ensures forall tid | logs.Keys == {tid} :: tasks[tid].items == FromFiles(logs[tid], from, to)
    {
      hide MonthOf, Start, HoldLogs, AllOn, Answered, FromFiles, Lost;
      var m := MonthOf(from);
      ghost var lo := Start(m);
      StartOn(files, logs, tasks, from, to);
      while Start(m) < to
        invariant lo <= Start(m) && tasks.Keys == logs.Keys
        invariant if Start(m) < to then AllOn(logs, tasks, lo, Start(m), from, to)
                  else tasks == Answered(files, logs, from, to)
        decreases if Start(m) < to then to - Start(m) else 0
      {
        QueryMonth(files, m, from, to, logs, lo);
        m := m + 1;
      }
      forall tid | tid in logs
        ensures tasks[tid].items == FromFiles(logs[tid], from, to) <==> !Lost(files, logs, tid, from, to)
        ensures logs.Keys == {tid} ==> !Lost(files, logs, tid, from, to)
      {
        AllUnlessLost(files, logs, tid, from, to);
        AloneLosesNothing(files, logs, tid, from, to);
      }
      forall tid | logs.Keys == {tid} ensures tid in logs {}
    }

    /** One turn of the loop over the months. */
    method QueryMonth(files: map<nat, seq<Tagged>>, m: nat, from: nat, to: nat,
                      ghost logs: map<nat, seq<Record>>, ghost lo: nat)
      requires HoldLogs(files, logs) && tasks.Keys == logs.Keys && lo == BeginMonth(from) <= Start(m) < to
      requires AllOn(logs, tasks, lo, Start(m), from, to)
      modifies this
      ensures tasks.Keys == logs.Keys && Start(m) < Start(m + 1)
      ensures if Start(m + 1) < to then AllOn(logs, tasks, lo, Start(m + 1), from, to)
              else tasks == Answered(files, logs, from, to)
    {
      hide MonthOf, Start, HoldLogs, AllOn, Answered, Looked;
      var month := Start(m);
      ghost var was := tasks;
      var es := if month in files then files[month] else [];
      QueryFile(month, es, from, to);
      MonthDone(files, logs, was, tasks, lo, m, es, from, to);
    }
  }

  lemma {:induction false} NothingSeen(tasks: map<nat, Task>, begin: nat, es: seq<Tagged>, from: nat, to: nat)
    ensures HaveSeen(tasks, tasks, begin, es[..0], from, to)
  {
    assert es[..0] == [];
  }

  lemma {:induction false} OneMoreSeen(was: map<nat, Task>, now: map<nat, Task>, next: map<nat, Task>, begin: nat,
                                       es: seq<Tagged>, n: nat, from: nat, to: nat)
    requires n < |es| && HaveSeen(was, now, begin, es[..n], from, to)
    requires next == if es[n].tid !in now then now
                     else now[es[n].tid := Fed(now[es[n].tid], begin, [es[n].s], from, to)]
    ensures HaveSeen(was, next, begin, es[..n + 1], from, to)
  {
    hide Fed, Own;
    forall tid | tid in was ensures next[tid] == Fed(was[tid], begin, Own(es[..n + 1], tid), from, to) {
      OwnSnoc(es, n, tid);
      FedSnoc(was[tid], begin, Own(es[..n], tid), es[n].s, from, to);
      assert Own(es[..n], tid) + [] == Own(es[..n], tid);
    }
  }

  lemma {:induction false} PastIsFound(was: map<nat, Task>, now: map<nat, Task>, begin: nat, es: seq<Tagged>, n: nat,
                                       from: nat, to: nat)
    requires n < |es| && HaveSeen(was, now, begin, es[..n], from, to)
    ensures Past(was, begin, es, n, from, to) <==>
            es[n].tid in now && InRange(from, to, NextDate(now[es[n].tid], begin)) > 0
  {
    hide Fed, Own, NextDate;
    if es[n].tid in now {
      FedSnoc(was[es[n].tid], begin, Own(es[..n], es[n].tid), es[n].s, from, to);
    }
  }

  // ---------------------------------------------------------------- what a file may lose

  /** What the first `n` entries of a file give one series. */
  function ItemsUpTo(task: Task, begin: nat, es: seq<Tagged>, tid: nat, n: nat, from: nat, to: nat): seq<Item>
    requires n <= |es|
  {
    Fed(task, begin, Own(es[..n], tid), from, to).items
  }

  /** Entry `n` of a file is something for the series `tid`, in the range. */
  predicate Counts(task: Task, begin: nat, es: seq<Tagged>, tid: nat, n: nat, from: nat, to: nat)
    requires n < |es|
  {
    && es[n].tid == tid && es[n].s.cnt != 0
    && InRange(from, to, NextDate(task, begin) + HOUR * |Own(es[..n], tid)|) == 0
  }

  lemma {:induction false} OneMoreItem(task: Task, begin: nat, es: seq<Tagged>, tid: nat, n: nat, from: nat, to: nat)
    requires n < |es|
    ensures ItemsUpTo(task, begin, es, tid, n + 1, from, to) == ItemsUpTo(task, begin, es, tid, n, from, to) +
            if Counts(task, begin, es, tid, n, from, to)
            then [Item(NextDate(task, begin) + HOUR * |Own(es[..n], tid)|, es[n].s)] else []
  {
    hide Own, NextDate, Within, Stamps;
    OwnSnoc(es, n, tid);
    var own := Own(es[..n], tid);
    FedSnoc(task, begin, own, es[n].s, from, to);
    StampOne(NextDate(task, begin) + HOUR * |own|, es[n].s, from, to);
    assert own + [] == own;
  }

  /** Reading only the first entries gives a series the same exactly when nothing counts behind them. */
  lemma {:induction false} SameIffNoneCounts(task: Task, begin: nat, es: seq<Tagged>, tid: nat, read: nat, k: nat,
                                             from: nat, to: nat)
    requires read <= k <= |es|
    ensures |ItemsUpTo(task, begin, es, tid, read, from, to)| <= |ItemsUpTo(task, begin, es, tid, k, from, to)|
    ensures ItemsUpTo(task, begin, es, tid, read, from, to) == ItemsUpTo(task, begin, es, tid, k, from, to) <==>
            forall n | read <= n < k :: !Counts(task, begin, es, tid, n, from, to)
    ensures |ItemsUpTo(task, begin, es, tid, read, from, to)| == |ItemsUpTo(task, begin, es, tid, k, from, to)| <==>
            forall n | read <= n < k :: !Counts(task, begin, es, tid, n, from, to)
    decreases k
  {
    hide ItemsUpTo, Counts;
    if read < k {
      SameIffNoneCounts(task, begin, es, tid, read, k - 1, from, to);
      OneMoreItem(task, begin, es, tid, k - 1, from, to);
    }
  }

  lemma {:induction false} OwnGrows(es: seq<Tagged>, n: nat, k: nat, tid: nat)
    requires n <= k <= |es|
    ensures |Own(es[..n], tid)| <= |Own(es[..k], tid)|
    ensures n < k && es[n].tid == tid ==> |Own(es[..n], tid)| < |Own(es[..k], tid)|
    decreases k
  {
    hide Own;
    if n < k {
      OwnGrows(es, n, k - 1, tid);
      OwnSnoc(es, k - 1, tid);
    }
  }

  // ---------------------------------------------------------------- all files

  /** The files hold exactly what the manager of every queried series wrote, besides entries of other series. */
  ghost predicate HoldLogs(files: map<nat, seq<Tagged>>, logs: map<nat, seq<Record>>) {
    forall tid | tid in logs ::
      && Orderly(logs[tid])
      && forall month: nat ::
           FileOf(logs[tid], month) == if month in files then Own(files[month], tid) else []
  }

  /** All that the files hold for a series in the range, as its clock dates it. */
  function FromFiles(log: seq<Record>, from: nat, to: nat): seq<Item> {
    Within(Dated(Part(log, BeginMonth(from), to)), from, to)
  }

  /** A task that has read the records `p`. */
  function TaskOn(p: seq<Record>, from: nat, to: nat): Task {
    if p == [] then NewTask else Task(false, LastDate(p), Within(Dated(p), from, to))
  }

  /** All tasks have read their files of the months before `month`. */
  ghost predicate AllOn(logs: map<nat, seq<Record>>, tasks: map<nat, Task>, lo: nat, month: nat, from: nat, to: nat) {
    tasks.Keys == logs.Keys && forall tid | tid in logs :: tasks[tid] == TaskOn(Part(logs[tid], lo, month), from, to)
  }

  /** The month whose file is read last, unless the range ends before that of `from`. */
  function LastBegin(from: nat, to: nat): nat {
    BeginMonth(if to <= BeginMonth(from) then from else to - 1)
  }

  /** The file that is read last. */
  function LastFile(files: map<nat, seq<Tagged>>, from: nat, to: nat): seq<Tagged> {
    var begin := LastBegin(from, to);
    if to <= BeginMonth(from) || begin !in files then [] else files[begin]
  }

  /** The tasks before the last file.  All files before it are read to their end. */
  function BeforeLast(logs: map<nat, seq<Record>>, from: nat, to: nat): map<nat, Task> {
    map tid | tid in logs :: TaskOn(Part(logs[tid], BeginMonth(from), LastBegin(from, to)), from, to)
  }

  /** The tasks after a query of all files. */
  function Answered(files: map<nat, seq<Tagged>>, logs: map<nat, seq<Record>>, from: nat, to: nat): map<nat, Task> {
    var on, begin, es := BeforeLast(logs, from, to), LastBegin(from, to), LastFile(files, from, to);
    var read := es[..Looked(on, begin, es, 0, from, to)];
    map tid | tid in logs :: Fed(on[tid], begin, Own(read, tid), from, to)
  }

  /** In the last file, something for the series is behind an entry past the range, of any queried series. */
  ghost predicate Lost(files: map<nat, seq<Tagged>>, logs: map<nat, seq<Record>>, tid: nat, from: nat, to: nat)
    requires tid in logs
  {
    var on, begin, es := BeforeLast(logs, from, to), LastBegin(from, to), LastFile(files, from, to);
    exists k, n | 0 <= k < n < |es| ::
      Past(on, begin, es, k, from, to) && Counts(on[tid], begin, es, tid, n, from, to)
  }

  lemma {:induction false} ItemsOn(p: seq<Record>, from: nat, to: nat)
    ensures TaskOn(p, from, to).items == Within(Dated(p), from, to)
  {
  }

  /** Before any file was read; and if the range ends before the first month, none is. */
  lemma {:induction false} StartOn(files: map<nat, seq<Tagged>>, logs: map<nat, seq<Record>>, tasks: map<nat, Task>,
                                   from: nat, to: nat)
    requires tasks == map tid | tid in logs :: NewTask
    ensures AllOn(logs, tasks, BeginMonth(from), BeginMonth(from), from, to)
    ensures to <= BeginMonth(from) ==> tasks == Answered(files, logs, from, to)
  {
    hide MonthOf, Start, Part, Dated, Within, Looked;
    forall tid | tid in logs ensures Part(logs[tid], BeginMonth(from), BeginMonth(from)) == [] {
      PartNothing(logs[tid], BeginMonth(from), from, to);
    }
  }

  /** One more file: the clock and the items go on as the records of the month say. */
  lemma {:induction false} FedMonth(log: seq<Record>, lo: nat, m: nat, from: nat, to: nat)
    requires Orderly(log) && lo <= Start(m)
    ensures Start(m) < Start(m + 1)
    ensures Fed(TaskOn(Part(log, lo, Start(m)), from, to), Start(m), FileOf(log, Start(m)), from, to) ==
            TaskOn(Part(log, lo, Start(m + 1)), from, to)
  {
    hide Within, Dated, Part, MonthOf, Start, Orderly, FileOf, Stamps, Records;
    var month := Start(m);
    var file, p := FileOf(log, month), Part(log, lo, month);
    var p' := p + Records(month, file);
    PartNext(log, lo, m);
    if file == [] {
      assert p' == p;
    } else {
      DatedJoin(p, month, file);
      WithinJoin(Dated(p), Stamps(if p == [] then month else LastDate(p) + HOUR, file), from, to);
      if p == [] { PartNothing(log, lo, from, to); }
      assert |p'| == |p| + |file| && (p != [] ==> p'[0] == p[0]);
      assert p == [] ==> p'[0].month == month;
    }
  }

  /** A file that was left early is the last of the range. */
  lemma {:induction false} LeftIsLast(log: seq<Record>, lo: nat, m: nat, tid: nat, es: seq<Tagged>, n: nat,
                                      from: nat, to: nat)
    requires Orderly(log) && lo <= Start(m) && n < |es| && es[n].tid == tid && FileOf(log, Start(m)) == Own(es, tid)
    ensures NextDate(TaskOn(Part(log, lo, Start(m)), from, to), Start(m)) + HOUR * |Own(es[..n], tid)| < Start(m + 1)
  {
    hide Within, Dated, Part, MonthOf, Start, Orderly, FileOf, Own, LastDate;
    var task := TaskOn(Part(log, lo, Start(m)), from, to);
    assert es[..|es|] == es;
    OwnGrows(es, n, |es|, tid);
    FedMonth(log, lo, m, from, to);
    ClockInMonth(log, lo, m);
  }

  lemma {:induction false} MonthDone(files: map<nat, seq<Tagged>>, logs: map<nat, seq<Record>>, was: map<nat, Task>,
                                     now: map<nat, Task>, lo: nat, m: nat, es: seq<Tagged>, from: nat, to: nat)
    requires HoldLogs(files, logs) && AllOn(logs, was, lo, Start(m), from, to)
    requires lo == BeginMonth(from) <= Start(m) < to && es == if Start(m) in files then files[Start(m)] else []
    requires HaveSeen(was, now, Start(m), es[..Looked(was, Start(m), es, 0, from, to)], from, to)
    ensures Start(m) < Start(m + 1)
    ensures if Start(m + 1) < to then AllOn(logs, now, lo, Start(m + 1), from, to)
            else now == Answered(files, logs, from, to)
  {
    hide MonthOf, Start, Fed, TaskOn, Own, FileOf, Orderly, Part, NextDate, Looked;
    StartOrder(m, m + 1);
    if Start(m + 1) < to {
      var read := Looked(was, Start(m), es, 0, from, to);
      if read < |es| {
        var tid := es[read - 1].tid;
        FileIsOwn(files, logs, tid, Start(m));
        LeftIsLast(logs[tid], lo, m, tid, es, read - 1, from, to);
      }
      assert es[..read] == es;
      forall tid | tid in logs ensures now[tid] == TaskOn(Part(logs[tid], lo, Start(m + 1)), from, to) {
        FileIsOwn(files, logs, tid, Start(m));
        FedMonth(logs[tid], lo, m, from, to);
      }
    } else {
      MonthUnique(to - 1, m);
      assert was == BeforeLast(logs, from, to);
    }
  }

  lemma {:induction false} FileIsOwn(files: map<nat, seq<Tagged>>, logs: map<nat, seq<Record>>, tid: nat, month: nat)
    requires HoldLogs(files, logs) && tid in logs
    ensures Orderly(logs[tid])
    ensures FileOf(logs[tid], month) == Own(if month in files then files[month] else [], tid)
  {
    hide Orderly, FileOf;
  }

  // ---------------------------------------------------------------- what a query may lose

  /** The whole of the last file would give a series all that its files hold for it. */
  lemma {:induction false} WholeGivesAll(files: map<nat, seq<Tagged>>, logs: map<nat, seq<Record>>, tid: nat,
                                         from: nat, to: nat)
    requires HoldLogs(files, logs) && tid in logs
    ensures var on, begin, es := BeforeLast(logs, from, to), LastBegin(from, to), LastFile(files, from, to);
            ItemsUpTo(on[tid], begin, es, tid, |es|, from, to) == FromFiles(logs[tid], from, to)
  {
    hide MonthOf, Start, Fed, TaskOn, Own, FileOf, Orderly, Part, NextDate, Dated, Within, HoldLogs;
    var log, lo, es := logs[tid], BeginMonth(from), LastFile(files, from, to);
    assert es[..|es|] == es;
    if to <= lo {
      NothingInRange(log, lo, tid, from, to);
    } else {
      var m := MonthOf(to - 1);
      StartOrder(MonthOf(from), m + 1);
      StartOrder(m, MonthOf(from));
      FileIsOwn(files, logs, tid, Start(m));
      FedMonth(log, lo, m, from, to);
      PartUpTo(log, lo, m, to);
      ItemsOn(Part(log, lo, to), from, to);
    }
  }

  lemma {:induction false} NothingInRange(log: seq<Record>, lo: nat, tid: nat, from: nat, to: nat)
    requires to <= lo == BeginMonth(from)
    ensures Fed(TaskOn(Part(log, lo, lo), from, to), lo, Own([], tid), from, to).items == FromFiles(log, from, to)
  {
    hide MonthOf, Start, Part, Dated, Within;
    PartNothing(log, lo, from, to);
  }

  /** Nothing that counts is behind what is looked at, unless it is behind an entry past the range. */
  lemma {:induction false} BehindIsLost(files: map<nat, seq<Tagged>>, logs: map<nat, seq<Record>>, tid: nat,
                                        from: nat, to: nat)
    requires tid in logs
    ensures var on, begin, es := BeforeLast(logs, from, to), LastBegin(from, to), LastFile(files, from, to);
            var read := Looked(on, begin, es, 0, from, to);
            Lost(files, logs, tid, from, to) <==>
            exists n | read <= n < |es| :: Counts(on[tid], begin, es, tid, n, from, to)
  {
    hide BeforeLast, LastBegin, LastFile, Past, Counts, Looked;
    OnAll(logs, from, to);
    var on, begin, es := BeforeLast(logs, from, to), LastBegin(from, to), LastFile(files, from, to);
    var read := Looked(on, begin, es, 0, from, to);
    if n :| read <= n < |es| && Counts(on[tid], begin, es, tid, n, from, to) {
      assert Past(on, begin, es, read - 1, from, to);
    }
  }

  /** A series gets all that its files hold for it in the range exactly when nothing of it is lost, and else fewer. */
  lemma {:induction false} AllUnlessLost(files: map<nat, seq<Tagged>>, logs: map<nat, seq<Record>>, tid: nat,
                                         from: nat, to: nat)
    requires HoldLogs(files, logs) && tid in logs
    ensures var items := Answered(files, logs, from, to)[tid].items;
            && (items == FromFiles(logs[tid], from, to) <==> !Lost(files, logs, tid, from, to))
            && (|items| < |FromFiles(logs[tid], from, to)| <==> Lost(files, logs, tid, from, to))
  {
    hide BeforeLast, LastBegin, LastFile, Lost, Counts, Looked, FromFiles, HoldLogs, Own, Fed;
    var on, begin, es := BeforeLast(logs, from, to), LastBegin(from, to), LastFile(files, from, to);
    assert tid in on by { OnAll(logs, from, to); }
    WholeGivesAll(files, logs, tid, from, to);
    BehindIsLost(files, logs, tid, from, to);
    SameIffNoneCounts(on[tid], begin, es, tid, Looked(on, begin, es, 0, from, to), |es|, from, to);
  }

  lemma {:induction false} OnAll(logs: map<nat, seq<Record>>, from: nat, to: nat)
    ensures BeforeLast(logs, from, to).Keys == logs.Keys
  {
    hide LastBegin, TaskOn, Part;
  }

  /** The only series queried loses nothing: behind its first entry past the range, all are. */
  lemma {:induction false} AloneLosesNothing(files: map<nat, seq<Tagged>>, logs: map<nat, seq<Record>>, tid: nat,
                                             from: nat, to: nat)
    requires tid in logs
    ensures logs.Keys == {tid} ==> !Lost(files, logs, tid, from, to)
  {
    hide BeforeLast, LastBegin, LastFile, Own, NextDate;
    var on, begin, es := BeforeLast(logs, from, to), LastBegin(from, to), LastFile(files, from, to);
    OnAll(logs, from, to);
    if logs.Keys == {tid} {
      forall k, n | 0 <= k < n < |es| && Past(on, begin, es, k, from, to)
        ensures !Counts(on[tid], begin, es, tid, n, from, to)
      {
        assert es[k].tid in on.Keys;
        OwnGrows(es, k, n, tid);
      }
    }
  }

  /** Nor does any series, if the last file holds the entries of the queried series in the order of their times. */
  lemma {:induction false} OrderedLosesNothing(files: map<nat, seq<Tagged>>, logs: map<nat, seq<Record>>, tid: nat,
                                               from: nat, to: nat)
    requires tid in logs
    requires var on, begin, es := BeforeLast(logs, from, to), LastBegin(from, to), LastFile(files, from, to);
             forall k, n | 0 <= k < n < |es| && es[k].tid in on && es[n].tid in on ::
               DateOf(on, begin, es, k) <= DateOf(on, begin, es, n)
    ensures !Lost(files, logs, tid, from, to)
  {
    hide BeforeLast, LastBegin, LastFile, Own, NextDate;
    var on, begin, es := BeforeLast(logs, from, to), LastBegin(from, to), LastFile(files, from, to);
    OnAll(logs, from, to);
    forall k, n | 0 <= k < n < |es| && Past(on, begin, es, k, from, to)
      ensures !Counts(on[tid], begin, es, tid, n, from, to)
    {
      if es[n].tid == tid { assert DateOf(on, begin, es, k) <= DateOf(on, begin, es, n); }
    }
  }

  /**
   Two series and a range of one hour: the second entry of the first series ends the reading of the file, and the
   entry of the second series behind it is lost, although it is in the range.
   */
  lemma {:induction false} SecondSeriesLost(a: Stats, b: Stats, c: Stats)
    requires c.cnt > 0
    ensures var files := map[0 := [Tagged(1, a), Tagged(1, b), Tagged(2, c)]];
            var logs := map[1 := [Record(0, a), Record(0, b)], 2 := [Record(0, c)]];
            && HoldLogs(files, logs) && Lost(files, logs, 2, 0, HOUR)
            && FromFiles(logs[2], 0, HOUR) == [Item(0, c)] && Answered(files, logs, 0, HOUR)[2].items == []
  {
    hide FromFiles, Answered, Lost, HoldLogs;
    var files := map[0 := [Tagged(1, a), Tagged(1, b), Tagged(2, c)]];
    var logs := map[1 := [Record(0, a), Record(0, b)], 2 := [Record(0, c)]];
    TwoSeriesHeld(a, b, c);
    SecondIsBehind(a, b, c);
    OnlyEntry(c);
    AllUnlessLost(files, logs, 2, 0, HOUR);
  }

  lemma {:induction false} FirstHours()
    ensures BeginMonth(0) == 0 && BeginMonth(HOUR - 1) == 0 && BeginMonth(HOUR) == 0
  {
    MonthUnique(0, 0);
    MonthUnique(HOUR - 1, 0);
    MonthUnique(HOUR, 0);
  }

  lemma {:induction false} TwoSeriesHeld(a: Stats, b: Stats, c: Stats)
    ensures HoldLogs(map[0 := [Tagged(1, a), Tagged(1, b), Tagged(2, c)]],
                     map[1 := [Record(0, a), Record(0, b)], 2 := [Record(0, c)]])
  {
    hide Orderly, FileOf, Own;
    TwoRecords(a, b);
    OneRecord(c);
    OwnOfTwo(a, b, c);
  }

  lemma {:induction false} TwoRecords(a: Stats, b: Stats)
    ensures Orderly([Record(0, a), Record(0, b)])
    ensures forall month: nat :: FileOf([Record(0, a), Record(0, b)], month) == if month == 0 then [a, b] else []
  {
    hide MonthOf, Start;
    FirstHours();
    OneRecord(a);
    var x := [Record(0, a), Record(0, b)];
    assert x[..1] == [Record(0, a)];
    assert LastHour(x) == 0 + HOUR * |FileOf([Record(0, a)], 0)|;
    forall month: nat ensures FileOf(x, month) == if month == 0 then [a, b] else [] {
      assert FileOf(x, month) == FileOf([Record(0, a)], month) + if month == 0 then [b] else [];
    }
  }

  lemma {:induction false} OwnOfTwo(a: Stats, b: Stats, c: Stats)
    ensures var es := [Tagged(1, a), Tagged(1, b), Tagged(2, c)]; Own(es, 1) == [a, b] && Own(es, 2) == [c]
  {
    hide Own;
    var es := [Tagged(1, a), Tagged(1, b), Tagged(2, c)];
    assert es[..3] == es;
    forall tid ensures Own(es[..0], tid) == [] { OwnNone(tid); assert es[..0] == []; }
    OwnSnoc(es, 0, 1);
    OwnSnoc(es, 1, 1);
    OwnSnoc(es, 2, 1);
    OwnSnoc(es, 0, 2);
    OwnSnoc(es, 1, 2);
    OwnSnoc(es, 2, 2);
  }

  lemma {:induction false} OwnNone(tid: nat)
    ensures Own([], tid) == []
  {
  }

  lemma {:induction false} OneRecord(a: Stats)
    ensures Orderly([Record(0, a)]) && LastHour([Record(0, a)]) == 0
    ensures forall month: nat :: FileOf([Record(0, a)], month) == if month == 0 then [a] else []
  {
    hide MonthOf, Start;
    FirstHours();
    var x := [Record(0, a)];
    assert x[..0] == [];
    assert LastHour(x) == 0 + HOUR * |FileOf(x[..0], 0)|;
  }

  lemma {:induction false} SecondIsBehind(a: Stats, b: Stats, c: Stats)
    requires c.cnt > 0
    ensures Lost(map[0 := [Tagged(1, a), Tagged(1, b), Tagged(2, c)]],
                 map[1 := [Record(0, a), Record(0, b)], 2 := [Record(0, c)]], 2, 0, HOUR)
  {
    hide MonthOf, Start, Part;
    FirstHours();
    var logs := map[1 := [Record(0, a), Record(0, b)], 2 := [Record(0, c)]];
    var es := [Tagged(1, a), Tagged(1, b), Tagged(2, c)];
    PartNothing(logs[1], 0, 0, HOUR);
    PartNothing(logs[2], 0, 0, HOUR);
    var on := BeforeLast(logs, 0, HOUR);
    assert LastBegin(0, HOUR) == 0;
    assert on == map[1 := NewTask, 2 := NewTask];
    BehindTheSecond(a, b, c);
    assert LastFile(map[0 := es], 0, HOUR) == es;
  }

  lemma {:induction false} BehindTheSecond(a: Stats, b: Stats, c: Stats)
    requires c.cnt > 0
    ensures var on, es := map[1 := NewTask, 2 := NewTask], [Tagged(1, a), Tagged(1, b), Tagged(2, c)];
            Past(on, 0, es, 1, 0, HOUR) && Counts(on[2], 0, es, 2, 2, 0, HOUR)
  {
    var es := [Tagged(1, a), Tagged(1, b), Tagged(2, c)];
    assert es[..0] == [];
    OwnSnoc(es, 0, 1);
    OwnSnoc(es, 0, 2);
    OwnSnoc(es, 1, 2);
  }

  lemma {:induction false} OnlyEntry(c: Stats)
    requires c.cnt > 0
    ensures FromFiles([Record(0, c)], 0, HOUR) == [Item(0, c)]
  {
    hide MonthOf, Start, Within;
    FirstHours();
    var log := [Record(0, c)];
    assert log[..0] == [] && Part(log, 0, HOUR) == [] + log == log;
    assert Dated(log) == [] + [Item(0, c)] == [Item(0, c)];
    StampOne(0, c, 0, HOUR);
    assert [c][..0] == [] && Stamps(0, [c]) == [] + [Item(0, c)] == [Item(0, c)];
  }

  // ---------------------------------------------------------------- files of one series

  function Tags(ss: seq<Stats>, tid: nat): seq<Tagged> {
    if ss == [] then [] else Tags(ss[..|ss| - 1], tid) + [Tagged(tid, ss[|ss| - 1])]
  }

  lemma {:induction false} OwnTags(ss: seq<Stats>, tid: nat)
    ensures Own(Tags(ss, tid), tid) == ss
  {
    if ss != [] {
      var front := Tags(ss[..|ss| - 1], tid);
      OwnTags(ss[..|ss| - 1], tid);
      assert (front + [Tagged(tid, ss[|ss| - 1])])[..|front|] == front;
    }
  }

  function MonthsOf(log: seq<Record>): set<nat> { set i | 0 <= i < |log| :: log[i].month }

  lemma {:induction false} NoSuchFile(log: seq<Record>, month: nat)
    requires month !in MonthsOf(log)
    ensures FileOf(log, month) == []
  {
    if log != [] {
      var k := |log| - 1;
      assert log[k].month in MonthsOf(log);
      assert MonthsOf(log[..k]) <= MonthsOf(log);
      NoSuchFile(log[..k], month);
    }
  }

  /** The files that one manager has written, with nothing else in them. */
  function FilesOf(log: seq<Record>, tid: nat): map<nat, seq<Tagged>> {
    map month | month in MonthsOf(log) :: Tags(FileOf(log, month), tid)
  }

  lemma {:induction false} FilesHold(log: seq<Record>, tid: nat)
    requires Orderly(log)
    ensures HoldLogs(FilesOf(log, tid), map[tid := log])
  {
    hide Orderly, FileOf, MonthsOf, Own, Tags;
    forall month: nat
      ensures FileOf(log, month) == if month in FilesOf(log, tid) then Own(FilesOf(log, tid)[month], tid) else []
    {
      if month in MonthsOf(log) { OwnTags(FileOf(log, month), tid); } else { NoSuchFile(log, month); }
    }
  }
}
