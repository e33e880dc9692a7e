/**
 The room redo needs.  A change that has to be redone and finds no room is skipped in silence, so recovery
 depends on the free space of the page on disk; what it needs can be summed up before the replay.
 */
module RedoRoom {
  import opened Base
  import opened SlotMap
  import opened Redo

  // ---------------------------------------------------------------- what one change takes

  /** The bytes that redoing a change takes out of the free space. */
  function Need(records: Slots, op: Op): nat {
    match op
    case Ins(s, data) => if Get(records, s).None? then InsertCost(records, data) else 0
    case Del(_) => 0
    case Upd(s, data) => if Get(records, s).Some? then GrowthNeed(|Get(records, s).value|, |data|) else 0
  }

  /** A longer version is written anew as a whole. */
  function GrowthNeed(was: nat, len: nat): nat {
    if len <= was then 0 else len
  }

  /** The slots after a change that found room. */
  function After(records: Slots, op: Op): Slots {
    match op
    case Ins(s, data) =>
      if Get(records, s).None? then SetSlot(records, FirstEmpty(records), Some(data)) else records
    case Del(s) => if Get(records, s).Some? then records[s := None] else records
    case Upd(s, data) => if Get(records, s).Some? then records[s := Some(data)] else records
  }

  lemma TakesIff(v: PageView, op: Op)
    requires op.Ins? ==> op.data != []
    ensures Takes(v, op) <==> Need(v.records, op) <= v.free
    ensures Takes(v, op) ==>
      Safe(v, op) && RedoOne(v, op) == PageView(After(v.records, op), v.free - Need(v.records, op))
  {
  }

  // ---------------------------------------------------------------- what a log takes

  function AfterAll(records: Slots, log: seq<Op>): Slots {
    if log == [] then records else After(AfterAll(records, log[..|log| - 1]), log[|log| - 1])
  }

  /** The sum of what the changes take that the replay redoes. */
  function Needed(records: Slots, log: seq<Op>): nat {
    if log == [] then 0
    else
      var front, last := log[..|log| - 1], log[|log| - 1];
      Needed(records, front) + Need(AfterAll(records, front), last)
  }

  lemma {:induction false} NeededFirst(records: Slots, log: seq<Op>)
    requires log != []
    ensures AfterAll(records, log) == AfterAll(After(records, log[0]), log[1..])
    ensures Needed(records, log) == Need(records, log[0]) + Needed(After(records, log[0]), log[1..])
  {
    hide After, Need;
    var front := log[..|log| - 1];
    if front == [] {
      assert log[1..] == [];
    } else {
      NeededFirst(records, front);
      assert front[1..] == log[1..][..|log[1..]| - 1];
    }
  }

  /** A replay finds room for everything exactly if the free space covers the sum. */
  lemma {:induction false} TakesAllIff(v: PageView, log: seq<Op>)
    requires NoEmptyInserts(log)
    ensures TakesAll(v, log) <==> Needed(v.records, log) <= v.free
    decreases log
  {
    if log != [] {
      hide Takes, Need, After, Needed;
      TakesIff(v, log[0]);
      NeededFirst(v.records, log);
      assert forall j :: 0 <= j < |log[1..]| ==> log[1..][j] == log[j + 1];
      if Takes(v, log[0]) {
        TakesAllIff(RedoOne(v, log[0]), log[1..]);
      }
    } else {
      assert Needed(v.records, log) == 0;
    }
  }

  // ---------------------------------------------------------------- the sum before the replay

  /** Slot s is in the directory: it was on disk, or the log has inserted into it. */
  predicate HasSlot(disk: Slots, done: seq<Op>, s: nat) {
    s < |disk| || exists j :: 0 <= j < |done| && done[j].Ins? && done[j].slot == s
  }

  /**
   What change j takes, from the disk, the base and the log alone: an insert unless the disk's own record is still
   there, an update by the length of the record it meets, which is the disk's own or the run's.
   */
  ghost function NeedAt(disk: Slots, base: Slots, log: seq<Op>, j: nat): nat
    requires WellLogged(base, log) && j < |log|
  {
    WellLoggedPrefix(base, log, j);
    var done, s := log[..j], log[j].slot;
    match log[j]
    case Ins(_, data) =>
      if Kept(disk, done, s) then 0 else |data| + if HasSlot(disk, done, s) then 0 else SLOT_ENTRY_SIZE
    case Del(_) => 0
    case Upd(_, data) =>
      if Kept(disk, done, s) then GrowthNeed(|Get(disk, s).value|, |data|)
      else if Gone(disk, base, done, s) || Get(Final(base, done), s).None? then 0
      else GrowthNeed(|Get(Final(base, done), s).value|, |data|)
  }

  ghost function SumNeeds(disk: Slots, base: Slots, log: seq<Op>, j: nat): nat
    requires WellLogged(base, log) && j <= |log|
  {
    if j == 0 then 0 else SumNeeds(disk, base, log, j - 1) + NeedAt(disk, base, log, j - 1)
  }

  lemma {:induction false} FinalNext(base: Slots, log: seq<Op>, j: nat)
    requires WellLogged(base, log) && j < |log|
    ensures WellLogged(base, log[..j]) && WellLogged(base, log[..j + 1]) && Logged(Final(base, log[..j]), log[j])
    ensures Final(base, log[..j + 1]) == Step(Final(base, log[..j]), log[j])
    decreases j
  {
    if j == 0 {
      assert log[..0] == [] && log[..1] == [log[0]] && [log[0]][1..] == [];
    } else {
      FinalNext(Step(base, log[0]), log[1..], j - 1);
      assert log[..j][1..] == log[1..][..j - 1] && log[..j + 1][1..] == log[1..][..j];
    }
  }

  /** The dry run keeps step with the run, slot by slot, and its directory is the one foretold. */
  ghost predicate InStep(disk: Slots, base: Slots, log: seq<Op>, j: nat)
    requires WellLogged(base, log) && j <= |log|
  {
    WellLoggedPrefix(base, log, j);
    var d := AfterAll(disk, log[..j]);
    && Follows(disk, base, d, Final(base, log[..j]), log[..j])
    && forall s: nat :: s < |d| <==> HasSlot(disk, log[..j], s)
  }

  lemma {:induction false} StepNeed(disk: Slots, base: Slots, log: seq<Op>, j: nat)
    requires WellLogged(base, log) && j < |log| && InStep(disk, base, log, j) && !EarlyAt(disk, base, log, j)
    ensures Need(AfterAll(disk, log[..j]), log[j]) == NeedAt(disk, base, log, j)
    ensures log[j].Ins? && Get(AfterAll(disk, log[..j]), log[j].slot).None? ==>
      FirstEmpty(AfterAll(disk, log[..j])) == log[j].slot
  {
    WellLoggedPrefix(base, log, j);
    FinalNext(base, log, j);
    var done, op := log[..j], log[j];
    var d, r := AfterAll(disk, done), Final(base, done);
    assert FollowsAt(disk, base, d, r, done, op.slot);
    if op.Ins? {
      InsertLands(disk, base, d, r, done, op.data);
      assert op.slot < |d| <==> HasSlot(disk, done, op.slot);
    }
  }

  lemma {:induction false} SlotsNext(disk: Slots, done: seq<Op>, op: Op, d: Slots)
    requires forall s: nat :: s < |d| <==> HasSlot(disk, done, s)
    requires op.Ins? ==> (if Get(d, op.slot).None? then FirstEmpty(d) == op.slot else true)
    ensures forall s: nat :: s < |After(d, op)| <==> HasSlot(disk, done + [op], s)
  {
    var next := done + [op];
    forall s: nat ensures s < |After(d, op)| <==> HasSlot(disk, next, s) {
      assert HasSlot(disk, next, s) <==> HasSlot(disk, done, s) || (op.Ins? && op.slot == s) by {
        if j :| 0 <= j < |done| && done[j].Ins? && done[j].slot == s {
          assert next[j] == done[j];
        }
        assert next[|done|] == op;
      }
      assert s < |d| <==> HasSlot(disk, done, s);
    }
  }

  lemma {:induction false} DryRun(disk: Slots, base: Slots, log: seq<Op>, j: nat)
    requires WellLogged(base, log) && NoneEarly(disk, base, log) && j <= |log|
    ensures InStep(disk, base, log, j)
    ensures Needed(disk, log[..j]) == SumNeeds(disk, base, log, j)
    decreases j
  {
    hide HasSlot, After, Need, NeedAt, FollowsAt, EarlyAt;
    if j == 0 {
      assert log[..0] == [];
      StartInStep(disk, base);
    } else {
      DryRun(disk, base, log, j - 1);
      assert !EarlyAt(disk, base, log, j - 1);
      StepNeed(disk, base, log, j - 1);
      StepInStep(disk, base, log, j);
      assert log[..j][..|log[..j]| - 1] == log[..j - 1];
    }
  }

  lemma {:induction false} StartInStep(disk: Slots, base: Slots)
    ensures Follows(disk, base, disk, base, []) && forall s: nat :: s < |disk| <==> HasSlot(disk, [], s)
  {
  }

  lemma {:induction false} StepInStep(disk: Slots, base: Slots, log: seq<Op>, j: nat)
    requires WellLogged(base, log) && 0 < j <= |log| && InStep(disk, base, log, j - 1)
    requires !EarlyAt(disk, base, log, j - 1)
    ensures InStep(disk, base, log, j)
  {
    hide Need, HasSlot, FollowsAt;
    WellLoggedPrefix(base, log, j - 1);
    FinalNext(base, log, j - 1);
    StepNeed(disk, base, log, j - 1);
    var done, op := log[..j - 1], log[j - 1];
    var d, r := AfterAll(disk, done), Final(base, done);
    var v := PageView(d, Need(d, op));
    TakesIff(v, op);
    FollowsNext(disk, base, v, r, done, op);
    SlotsNext(disk, done, op, d);
    assert log[..j] == done + [op] && log[..j][..|log[..j]| - 1] == done;
  }

  lemma {:induction false} LoggedInserts(base: Slots, log: seq<Op>)
    requires WellLogged(base, log)
    ensures NoEmptyInserts(log)
    decreases log
  {
    if log != [] {
      LoggedInserts(Step(base, log[0]), log[1..]);
      forall j | 0 <= j < |log| && log[j].Ins? ensures log[j].data != [] {
        assert j > 0 ==> log[j] == log[1..][j - 1];
      }
    }
  }

  /** The replay of a page's log finds room exactly if the free space on disk covers the sum. */
  lemma {:induction false} RoomIff(v: PageView, base: Slots, log: seq<Op>)
    requires WellLogged(base, log) && NoneEarly(v.records, base, log)
    ensures TakesAll(v, log) <==> SumNeeds(v.records, base, log, |log|) <= v.free
  {
    LoggedInserts(base, log);
    DryRun(v.records, base, log, |log|);
    assert log[..|log|] == log;
    TakesAllIff(v, log);
  }

  /** Redo from any disk page, with every condition stated of the disk, the base and the log. */
  lemma {:induction false} RedoWithRoom(v: PageView, base: Slots, log: seq<Op>)
    requires WellLogged(base, log) && NoneEarly(v.records, base, log)
    requires SumNeeds(v.records, base, log, |log|) <= v.free
    ensures SafeAll(v, log) && LandsRight(v, log)
    ensures Same(Replay(v, log).records, Final(base, log)) <==>
            Redoable(v.records, base, log) && LostAreDeleted(v.records, base, log)
  {
    RoomIff(v, base, log);
    RedoReachesFinal(v, base, log);
  }

  // ---------------------------------------------------------------- running out of room

  /**
   A formatted page, its whole log and no overrun: the page on disk shows the state after the delete, and replaying
   the insert that was deleted leaves no room for the one that was not.
   */
  lemma {:induction false} FullPageLosesRecord(a: Record, b: Record)
    requires |a| == 1500 && |b| == 2000
    ensures var run := [DoInsert(a), DoDelete(0), DoInsert(b)];
      && NoOverruns(FORMATTED, run) && NoOverruns(FORMATTED, run[..2])
      && LogAll(FORMATTED, run) == [Ins(0, a), Del(0), Ins(0, b)]
      && PerformAll(FORMATTED, run).records == [Some(b)]
      && var disk := PerformAll(FORMATTED, run[..2]);
      && disk == PageView([None], 2572)
      && SafeAll(disk, LogAll(FORMATTED, run)) && !TakesAll(disk, LogAll(FORMATTED, run))
      && Replay(disk, LogAll(FORMATTED, run)).records == [None]
  {
    var run := [DoInsert(a), DoDelete(0), DoInsert(b)];
    var v1, v2, v3 := PageView([Some(a)], 2572), PageView([None], 2572), PageView([Some(b)], 572);
    assert Perform(FORMATTED, run[0]) == v1 && Perform(v1, run[1]) == v2 && Perform(v2, run[2]) == v3;
    assert run[1..] == [run[1], run[2]] && run[1..][1..] == [run[2]] && [run[2]][1..] == [];
    assert run[..2] == [run[0], run[1]] && run[..2][1..] == [run[1]] && [run[1]][1..] == [];
    assert NoOverruns(v3, []) && NoOverruns(v2, [run[2]]) && NoOverruns(v1, run[1..]) && NoOverruns(v1, [run[1]]);
    assert PerformAll(v2, [run[2]]) == v3 && PerformAll(v1, run[1..]) == v3 && PerformAll(v1, [run[1]]) == v2;
    assert LogAll(v2, [run[2]]) == [Ins(0, b)];
    assert LogAll(v1, run[1..]) == [Del(0), Ins(0, b)];
    var d1, d2 := PageView([Some(a)], 1072), PageView([None], 1072);
    var log := [Ins(0, a), Del(0), Ins(0, b)];
    assert RedoOne(v2, log[0]) == d1 && RedoOne(d1, log[1]) == d2 && RedoOne(d2, log[2]) == d2;
    assert log[1..] == [log[1], log[2]] && log[1..][1..] == [log[2]] && [log[2]][1..] == [];
    assert SafeAll(d2, []) && SafeAll(d2, [log[2]]) && SafeAll(d1, log[1..]);
    assert Replay(d2, [log[2]]) == d2 && Replay(d1, log[1..]) == d2;
    assert !TakesAll(d2, [log[2]]) && !TakesAll(d1, log[1..]);
  }

  // ---------------------------------------------------------------- pages that only take inserts

  predicate OnlyInserts(run: seq<Action>) {
    forall i :: 0 <= i < |run| ==> run[i].DoInsert?
  }

  lemma {:induction false} InsertsDoNotOverrun(v: PageView, run: seq<Action>)
    requires OnlyInserts(run)
    ensures NoOverruns(v, run)
    decreases run
  {
    if run != [] {
      InsertsDoNotOverrun(Perform(v, run[0]), run[1..]);
    }
  }

  /** Replaying inserts on the page they were made on makes them again. */
  lemma {:induction false} InsertsTaken(v: PageView, run: seq<Action>)
    requires OnlyInserts(run) && NoOverruns(v, run)
    ensures TakesAll(v, LogAll(v, run))
    decreases run
  {
    if run != [] {
      var next, rest := Perform(v, run[0]), LogAll(Perform(v, run[0]), run[1..]);
      InsertsTaken(next, run[1..]);
      if Changes(v, run[0]) {
        var op := Ins(FirstEmpty(v.records), run[0].data);
        assert LogAll(v, run) == [op] + rest;
        assert RedoOne(v, op) == next;
        ReplayFirst(v, op, rest, next);
      } else {
        assert LogAll(v, run) == rest;
      }
    }
  }

  /** Only inserts, and a record in each of their slots. */
  predicate AllShown(log: seq<Op>, records: Slots) {
    forall j :: 0 <= j < |log| ==> log[j].Ins? && Get(records, log[j].slot).Some?
  }

  lemma AllShownNext(op: Op, rest: seq<Op>, records: Slots)
    requires AllShown(rest, records) && op.Ins? && Get(records, op.slot).Some?
    ensures AllShown([op] + rest, records)
  {
    var log := [op] + rest;
    forall j | 0 <= j < |log| ensures log[j].Ins? && Get(records, log[j].slot).Some? {
      assert j > 0 ==> log[j] == rest[j - 1];
    }
  }

  /** Inserts whose records are on disk are skipped. */
  lemma {:induction false} ShownSkipped(disk: PageView, log: seq<Op>, rest: seq<Op>)
    requires AllShown(log, disk.records) && TakesAll(disk, rest)
    ensures TakesAll(disk, log + rest)
    decreases log
  {
    if log == [] {
      assert log + rest == rest;
    } else {
      assert AllShown(log[1..], disk.records) by {
        assert forall j :: 0 <= j < |log[1..]| ==> log[1..][j] == log[j + 1];
      }
      ShownSkipped(disk, log[1..], rest);
      assert log + rest == [log[0]] + (log[1..] + rest);
      ReplayFirst(disk, log[0], log[1..] + rest, disk);
    }
  }

  lemma InsertShows(v: PageView, data: Record)
    requires CanInsert(v, data)
    ensures Get(Insert(v, data).records, FirstEmpty(v.records)).Some?
  {
  }

  lemma InsertKeeps(v: PageView, data: Record, s: nat)
    requires Get(v.records, s).Some?
    ensures Get(Insert(v, data).records, s).Some?
  {
  }

  /** A slot that is live stays so while records are only inserted. */
  lemma {:induction false} ShownStays(v: PageView, run: seq<Action>, s: nat)
    requires OnlyInserts(run) && NoOverruns(v, run) && Get(v.records, s).Some?
    ensures Get(PerformAll(v, run).records, s).Some?
    decreases run
  {
    if run != [] {
      InsertKeeps(v, run[0].data, s);
      ShownStays(Perform(v, run[0]), run[1..], s);
    }
  }

  /** Every record such a run has inserted is there afterwards. */
  lemma {:induction false} InsertedShown(v: PageView, run: seq<Action>)
    requires OnlyInserts(run) && NoOverruns(v, run)
    ensures AllShown(LogAll(v, run), PerformAll(v, run).records)
    decreases run
  {
    if run != [] {
      var next := Perform(v, run[0]);
      InsertedShown(next, run[1..]);
      var rest, end := LogAll(next, run[1..]), PerformAll(next, run[1..]).records;
      hide AllShown;
      if Changes(v, run[0]) {
        var op := Ins(FirstEmpty(v.records), run[0].data);
        InsertShows(v, run[0].data);
        ShownStays(next, run[1..], op.slot);
        AllShownNext(op, rest, end);
        assert LogAll(v, run) == [op] + rest;
      } else {
        assert LogAll(v, run) == rest;
      }
    }
  }

  lemma {:induction false} RunSplit(v: PageView, run: seq<Action>, k: nat)
    requires OnlyInserts(run) && k <= |run| && NoOverruns(v, run) && NoOverruns(v, run[..k])
    ensures var mid := PerformAll(v, run[..k]);
      NoOverruns(mid, run[k..]) && LogAll(v, run) == LogAll(v, run[..k]) + LogAll(mid, run[k..])
    decreases k
  {
    if k == 0 {
      assert run[..0] == [] && run[0..] == run;
    } else {
      var next := Perform(v, run[0]);
      assert run[..k][0] == run[0] && run[..k][1..] == run[1..][..k - 1] && run[k..] == run[1..][k - 1..];
      RunSplit(next, run[1..], k - 1);
      var mid := PerformAll(next, run[1..][..k - 1]);
      var a, b, c := LogFor(v, run[0]), LogAll(next, run[1..][..k - 1]), LogAll(mid, run[1..][k - 1..]);
      assert a + (b + c) == (a + b) + c;
    }
  }

  /** A page that only takes inserts is always recovered: its replay needs no more room than the run did. */
  lemma {:induction false} InsertRunIsRecovered(run: seq<Action>, k: nat)
    requires OnlyInserts(run) && k <= |run|
    ensures NoOverruns(FORMATTED, run) && NoOverruns(FORMATTED, run[..k])
    ensures var disk, log := PerformAll(FORMATTED, run[..k]), LogAll(FORMATTED, run);
      && TakesAll(disk, log)
      && Same(Replay(disk, log).records, PerformAll(FORMATTED, run).records)
  {
    InsertsDoNotOverrun(FORMATTED, run);
    InsertsDoNotOverrun(FORMATTED, run[..k]);
    var disk := PerformAll(FORMATTED, run[..k]);
    RunSplit(FORMATTED, run, k);
    InsertedShown(FORMATTED, run[..k]);
    InsertsTaken(disk, run[k..]);
    ShownSkipped(disk, LogAll(FORMATTED, run[..k]), LogAll(disk, run[k..]));
    RunIsRecovered(disk, run, k);
  }
}
