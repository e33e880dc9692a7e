/**
 What replaying a page's log does to the page.  Redo looks only at whether the logged
 slot is occupied, and a redone insert takes whatever slot the page gives it.
 */
module Redo {
  import opened Base
  import opened SlotMap

  /** One logged change of one page. */
  datatype Op =
    | Ins(slot: nat, data: Record)
    | Del(slot: nat)
    | Upd(slot: nat, data: Record)

  // ---------------------------------------------------------------- the original run

  /** What the original execution guarantees when it logs op on a page holding these records. */
  predicate Logged(records: Slots, op: Op) {
    match op
    case Ins(s, data) => data != [] && s == FirstEmpty(records)
    case Del(s) => Get(records, s).Some?
    case Upd(s, _) => Get(records, s).Some?
  }

  function Step(records: Slots, op: Op): Slots
    requires Logged(records, op)
  {
    match op
    case Ins(s, data) => SetSlot(records, s, Some(data))
    case Del(s) => records[s := None]
    case Upd(s, data) => records[s := Some(data)]
  }

  predicate WellLogged(base: Slots, log: seq<Op>)
    decreases log
  {
    log == [] || (Logged(base, log[0]) && WellLogged(Step(base, log[0]), log[1..]))
  }

  /** The records after the original run. */
  function Final(base: Slots, log: seq<Op>): Slots
    requires WellLogged(base, log)
    decreases log
  {
    if log == [] then base else Final(Step(base, log[0]), log[1..])
  }

  /** What the execution does with a page. */
  datatype Action =
    | DoInsert(data: Record)
    | DoDelete(slot: nat)
    | DoUpdate(slot: nat, data: Record)
    | DoCompact

  predicate Changes(v: PageView, a: Action) {
    match a
    case DoInsert(data) => CanInsert(v, data)
    case DoDelete(s) => Get(v.records, s).Some?
    case DoUpdate(s, data) => CanUpdate(v, s, |data|) && !Overruns(v, s, |data|)
    case DoCompact => false
  }

  /** The page afterwards; an action that the page refuses changes nothing. */
  function Perform(v: PageView, a: Action): PageView
    requires a.DoUpdate? ==> !Overruns(v, a.slot, |a.data|)
  {
    match a
    case DoInsert(data) => Insert(v, data)
    case DoDelete(s) => Delete(v, s)
    case DoUpdate(s, data) => Update(v, s, data)
    case DoCompact => if CompactFree(v.records) >= v.free then v.(free := CompactFree(v.records)) else v
  }

  /** The record logged for an action that succeeded: an insert logs the slot that the page gave it. */
  function LogFor(v: PageView, a: Action): seq<Op> {
    if !Changes(v, a) then []
    else match a
      case DoInsert(data) => [Ins(FirstEmpty(v.records), data)]
      case DoDelete(s) => [Del(s)]
      case DoUpdate(s, data) => [Upd(s, data)]
      case DoCompact => []
  }

  predicate NoOverruns(v: PageView, run: seq<Action>)
    decreases run
  {
    run == [] ||
    ((run[0].DoUpdate? ==> !Overruns(v, run[0].slot, |run[0].data|)) && NoOverruns(Perform(v, run[0]), run[1..]))
  }

  function PerformAll(v: PageView, run: seq<Action>): PageView
    requires NoOverruns(v, run)
    decreases run
  {
    if run == [] then v else PerformAll(Perform(v, run[0]), run[1..])
  }

  function LogAll(v: PageView, run: seq<Action>): seq<Op>
    requires NoOverruns(v, run)
    decreases run
  {
    if run == [] then [] else LogFor(v, run[0]) + LogAll(Perform(v, run[0]), run[1..])
  }

  /**
   Any run of page operations, compactions included, leaves a log that stands for exactly the records it ends
   with.
   */
  lemma {:induction false} RunsAreWellLogged(v: PageView, run: seq<Action>)
    requires NoOverruns(v, run)
    ensures WellLogged(v.records, LogAll(v, run)) && Final(v.records, LogAll(v, run)) == PerformAll(v, run).records
    decreases run
  {
    if run != [] {
      var a, next := run[0], Perform(v, run[0]);
      var rest := LogAll(next, run[1..]);
      RunsAreWellLogged(next, run[1..]);
      if Changes(v, a) {
        var op := LogFor(v, a)[0];
        assert Logged(v.records, op) && Step(v.records, op) == next.records;
        assert LogAll(v, run) == [op] + rest;
        assert ([op] + rest)[1..] == rest;
      } else {
        assert next.records == v.records && LogAll(v, run) == rest;
      }
    }
  }

  // ---------------------------------------------------------------- the replay

  predicate Safe(v: PageView, op: Op) {
    op.Upd? ==> !Overruns(v, op.slot, |op.data|)
  }

  function RedoOne(v: PageView, op: Op): PageView
    requires Safe(v, op)
  {
    match op
    case Ins(s, data) => if Get(v.records, s).None? then Insert(v, data) else v
    case Del(s) => Delete(v, s)
    case Upd(s, data) => Update(v, s, data)
  }

  /** The replayed change finds room if it is needed at all. */
  predicate Takes(v: PageView, op: Op) {
    match op
    case Ins(s, data) => Get(v.records, s).None? ==> CanInsert(v, data)
    case Del(_) => true
    case Upd(s, data) => Get(v.records, s).Some? ==> CanUpdate(v, s, |data|) && !Overruns(v, s, |data|)
  }

  /** No replayed update overruns its page. */
  predicate SafeAll(v: PageView, log: seq<Op>)
    decreases log
  {
    log == [] || (Safe(v, log[0]) && SafeAll(RedoOne(v, log[0]), log[1..]))
  }

  predicate TakesAll(v: PageView, log: seq<Op>): (b: bool)
    ensures b ==> SafeAll(v, log)
    decreases log
  {
    log == [] || (Takes(v, log[0]) && TakesAll(RedoOne(v, log[0]), log[1..]))
  }

  function Replay(v: PageView, log: seq<Op>): PageView
    requires SafeAll(v, log)
    decreases log
  {
    if log == [] then v else Replay(RedoOne(v, log[0]), log[1..])
  }

  /** Redone inserts land on the slot the log names. */
  predicate LandsRight(v: PageView, log: seq<Op>)
    requires SafeAll(v, log)
    decreases log
  {
    log != [] ==>
      && (log[0].Ins? && Get(v.records, log[0].slot).None? ==> InsertSlot(v, log[0].data) == Some(log[0].slot))
      && LandsRight(RedoOne(v, log[0]), log[1..])
  }

  /** The log deletes or updates slot s. */
  predicate Touches(op: Op, s: nat) {
    !op.Ins? && op.slot == s
  }

  predicate Touched(log: seq<Op>, s: nat) {
    exists j :: 0 <= j < |log| && Touches(log[j], s)
  }

  /** The same records in the same slots; trailing empty slots do not matter. */
  ghost predicate Same(a: Slots, b: Slots) {
    forall s: nat :: Get(a, s) == Get(b, s)
  }

  /** Room that suffices for any replay of the log. */
  function Cost(op: Op): nat {
    match op
    case Ins(_, data) => |data| + SLOT_ENTRY_SIZE
    case Del(_) => 0
    case Upd(_, data) => |data|
  }

  function TotalCost(log: seq<Op>): nat {
    if log == [] then 0 else Cost(log[0]) + TotalCost(log[1..])
  }

  predicate NoEmptyInserts(log: seq<Op>) {
    forall j :: 0 <= j < |log| && log[j].Ins? ==> log[j].data != []
  }

  /** If the free space covers all logged lengths and slot entries, the replay never runs out of room. */
  lemma {:induction false} RoomSuffices(v: PageView, log: seq<Op>)
    requires TotalCost(log) <= v.free && NoEmptyInserts(log)
    ensures TakesAll(v, log)
    decreases log
  {
    if log != [] {
      assert forall j :: 0 <= j < |log[1..]| ==> log[1..][j] == log[j + 1];
      RoomSuffices(RedoOne(v, log[0]), log[1..]);
    }
  }

  // ---------------------------------------------------------------- replay against the original run

  predicate DeletedIn(log: seq<Op>, s: nat) {
    Del(s) in log
  }

  /** A record of slot s that was there when the log began is missing on disk. */
  predicate Lost(disk: Slots, base: Slots, s: nat) {
    Get(base, s).Some? && Get(disk, s).None?
  }

  /** The disk's record in slot s has met no delete or update yet. */
  predicate Kept(disk: Slots, done: seq<Op>, s: nat) {
    Get(disk, s).Some? && !Touched(done, s)
  }

  /** The original run still has a record in slot s that the disk has lost. */
  predicate Gone(disk: Slots, base: Slots, done: seq<Op>, s: nat) {
    Lost(disk, base, s) && !DeletedIn(done, s)
  }

  /**
   Slot by slot, the replaying page d still shows the disk's record, or lacks one that the
   original run r has, or has caught up with the run; what was done so far decides which.
   */
  ghost predicate Follows(disk: Slots, base: Slots, d: Slots, r: Slots, done: seq<Op>) {
    forall s: nat :: FollowsAt(disk, base, d, r, done, s)
  }

  predicate FollowsAt(disk: Slots, base: Slots, d: Slots, r: Slots, done: seq<Op>, s: nat) {
    if Kept(disk, done, s) then Get(d, s) == Get(disk, s)
    else if Gone(disk, base, done, s) then Get(d, s).None? && Get(r, s).Some?
    else Get(d, s) == Get(r, s)
  }

  /** An insert that has to be redone while a lower slot is still missing a record. */
  predicate TooEarly(disk: Slots, base: Slots, done: seq<Op>, op: Op) {
    op.Ins? && !Kept(disk, done, op.slot) && exists t: nat :: t < op.slot && Gone(disk, base, done, t)
  }

  predicate EarlyAt(disk: Slots, base: Slots, log: seq<Op>, j: nat)
    requires j < |log|
  {
    TooEarly(disk, base, log[..j], log[j])
  }

  lemma TouchedNext(done: seq<Op>, op: Op, s: nat)
    ensures Touched(done + [op], s) <==> Touched(done, s) || Touches(op, s)
  {
    var next := done + [op];
    if Touched(done, s) {
      var j :| 0 <= j < |done| && Touches(done[j], s);
      assert Touches(next[j], s);
    }
    if Touches(op, s) {
      assert Touches(next[|done|], s);
    }
    if Touched(next, s) {
      var j :| 0 <= j < |next| && Touches(next[j], s);
      assert j < |done| ==> Touches(done[j], s);
    }
  }

  lemma TouchedFirst(log: seq<Op>, s: nat)
    requires log != []
    ensures Touched(log, s) <==> Touches(log[0], s) || Touched(log[1..], s)
  {
  }

  /** A redone insert finds its slot empty, and goes there exactly if no lower slot misses a record. */
  lemma {:induction false} InsertLands(disk: Slots, base: Slots, d: Slots, r: Slots, done: seq<Op>, data: Record)
    requires Follows(disk, base, d, r, done)
    ensures var s := FirstEmpty(r);
            && (Kept(disk, done, s) <==> Get(d, s).Some?)
            && (Get(d, s).None? ==> (FirstEmpty(d) == s <==> !TooEarly(disk, base, done, Ins(s, data))))
  {
    var s := FirstEmpty(r);
    assert FollowsAt(disk, base, d, r, done, s);
    if Get(d, s).None? {
      if t: nat :| t < s && Gone(disk, base, done, t) {
        assert FollowsAt(disk, base, d, r, done, t);
        assert t < |d| ==> d[t].None?;
      } else {
        forall k: nat | k < s ensures Get(d, k).Some? {
          assert FollowsAt(disk, base, d, r, done, k) && Get(r, k).Some?;
        }
        assert s > 0 ==> Get(d, s - 1).Some?;
        forall k | 0 <= k < s && k < |d| ensures d[k].Some? {
          assert Get(d, k).Some?;
        }
        FirstEmptyIs(d, s);
      }
    }
  }

  /** One step: the page keeps following the run unless an insert comes too early, and only then does one land wrong. */
  lemma {:induction false} FollowsNext(disk: Slots, base: Slots, v: PageView, r: Slots, done: seq<Op>, op: Op)
    requires Follows(disk, base, v.records, r, done) && Logged(r, op) && Takes(v, op)
    ensures TooEarly(disk, base, done, op) <==>
            op.Ins? && Get(v.records, op.slot).None? && InsertSlot(v, op.data) != Some(op.slot)
    ensures !TooEarly(disk, base, done, op) ==>
              Follows(disk, base, RedoOne(v, op).records, Step(r, op), done + [op])
  {
    var d := v.records;
    if op.Ins? {
      InsertLands(disk, base, d, r, done, op.data);
    }
    if !TooEarly(disk, base, done, op) {
      var d', r' := RedoOne(v, op).records, Step(r, op);
      assert FollowsAt(disk, base, d, r, done, op.slot);
      forall s: nat ensures FollowsAt(disk, base, d', r', done + [op], s) {
        TouchedNext(done, op, s);
        assert FollowsAt(disk, base, d, r, done, s);
      }
    }
  }

  lemma {:induction false} FollowsReplay(disk: Slots, base: Slots, v: PageView, r: Slots, done: seq<Op>, log: seq<Op>,
                                         all: seq<Op>)
    requires Follows(disk, base, v.records, r, done) && WellLogged(r, log) && TakesAll(v, log) && all == done + log
    ensures LandsRight(v, log) <==> forall j :: |done| <= j < |all| ==> !EarlyAt(disk, base, all, j)
    ensures LandsRight(v, log) ==> Follows(disk, base, Replay(v, log).records, Final(r, log), all)
    decreases log
  {
    if log == [] {
      assert all == done;
    } else {
      var op, next := log[0], done + [log[0]];
      FollowsNext(disk, base, v, r, done, op);
      assert all[..|done|] == done && all[|done|] == op;
      assert EarlyAt(disk, base, all, |done|) <==> TooEarly(disk, base, done, op);
      if !TooEarly(disk, base, done, op) {
        assert all == next + log[1..];
        FollowsReplay(disk, base, RedoOne(v, op), Step(r, op), next, log[1..], all);
      }
    }
  }

  /** A live record that no delete or update in the log names survives any replay of it. */
  lemma {:induction false} UntouchedStays(v: PageView, log: seq<Op>, s: nat)
    requires SafeAll(v, log) && Get(v.records, s).Some? && !Touched(log, s)
    ensures Get(Replay(v, log).records, s) == Get(v.records, s)
    decreases log
  {
    if log != [] {
      TouchedFirst(log, s);
      UntouchedStays(RedoOne(v, log[0]), log[1..], s);
    }
  }

  // ---------------------------------------------------------------- when redo is right

  /** Every slot occupied when the log began is occupied on disk. */
  ghost predicate Covers(disk: Slots, base: Slots) {
    forall s: nat :: Get(base, s).Some? ==> Get(disk, s).Some?
  }

  /** The log inserts data into slot s. */
  predicate Inserted(log: seq<Op>, s: nat, data: Record) {
    exists j :: 0 <= j < |log| && log[j] == Ins(s, data)
  }

  lemma InsertedFirst(log: seq<Op>, s: nat, data: Record)
    requires log != []
    ensures Inserted(log, s, data) <==> log[0] == Ins(s, data) || Inserted(log[1..], s, data)
  {
  }

  /** A slot the log never deletes or updates ends with its first record or with the one inserted. */
  lemma {:induction false} UntouchedFinal(base: Slots, log: seq<Op>, s: nat, data: Record)
    requires WellLogged(base, log) && !Touched(log, s)
    ensures Get(Final(base, log), s) == Some(data) <==> Get(base, s) == Some(data) || Inserted(log, s, data)
    decreases log
  {
    if log != [] {
      TouchedFirst(log, s);
      InsertedFirst(log, s, data);
      UntouchedFinal(Step(base, log[0]), log[1..], s, data);
    }
  }

  /** Each record on disk sits in a slot the log deletes or updates, or it is known to the log or the base. */
  ghost predicate Redoable(disk: Slots, base: Slots, log: seq<Op>) {
    forall s: nat :: RedoableAt(disk, base, log, s)
  }

  predicate RedoableAt(disk: Slots, base: Slots, log: seq<Op>, s: nat) {
    Kept(disk, log, s) ==> Get(base, s) == Get(disk, s) || Inserted(log, s, Get(disk, s).value)
  }

  /** No insert has to be redone while a lower slot is missing a record. */
  predicate NoneEarly(disk: Slots, base: Slots, log: seq<Op>) {
    forall j :: 0 <= j < |log| ==> !EarlyAt(disk, base, log, j)
  }

  /** Records lost from the disk are deleted by the log anyway. */
  ghost predicate LostAreDeleted(disk: Slots, base: Slots, log: seq<Op>) {
    forall s: nat :: !Gone(disk, base, log, s)
  }

  /**
   Redo decides by slot occupancy alone.  From any disk page and any base, all redone inserts
   land on their logged slots exactly if none comes while a lower slot misses a record of the
   base.  If they do, replay reaches the state of the original run exactly if the page is
   redoable and the missing records are all deleted by the log.
   */
  lemma {:induction false} RedoReachesFinal(v: PageView, base: Slots, log: seq<Op>)
    requires WellLogged(base, log) && TakesAll(v, log)
    ensures LandsRight(v, log) <==> NoneEarly(v.records, base, log)
    ensures LandsRight(v, log) ==>
              (Same(Replay(v, log).records, Final(base, log)) <==>
               Redoable(v.records, base, log) && LostAreDeleted(v.records, base, log))
  {
    var m, d, r := v.records, Replay(v, log).records, Final(base, log);
    assert Follows(m, base, m, base, []);
    FollowsReplay(m, base, v, base, [], log, log);
    if LandsRight(v, log) {
      forall s: nat ensures Get(d, s) == Get(r, s) <==> RedoableAt(m, base, log, s) && !Gone(m, base, log, s) {
        assert FollowsAt(m, base, d, r, log, s);
        if Kept(m, log, s) {
          UntouchedFinal(base, log, s, Get(m, s).value);
        }
      }
      if Same(d, r) {
        forall s: nat ensures RedoableAt(m, base, log, s) && !Gone(m, base, log, s) {
          assert Get(d, s) == Get(r, s);
        }
      }
    }
  }

  /** On a page that has lost none of the records the log began with, being redoable is the exact condition. */
  lemma {:induction false} RedoFromCoveringPage(v: PageView, base: Slots, log: seq<Op>)
    requires WellLogged(base, log) && TakesAll(v, log) && Covers(v.records, base)
    ensures LandsRight(v, log)
    ensures Same(Replay(v, log).records, Final(base, log)) <==> Redoable(v.records, base, log)
  {
    RedoReachesFinal(v, base, log);
    assert forall s: nat :: !Lost(v.records, base, s);
  }

  // ---------------------------------------------------------------- pages with their whole log

  lemma TouchedPrefix(log: seq<Op>, k: nat, s: nat)
    requires k <= |log| && Touched(log[..k], s)
    ensures Touched(log, s)
  {
  }

  lemma InsertedPrefix(log: seq<Op>, k: nat, s: nat, data: Record)
    requires k <= |log| && Inserted(log[..k], s, data)
    ensures Inserted(log, s, data)
  {
  }

  lemma {:induction false} WellLoggedPrefix(base: Slots, log: seq<Op>, k: nat)
    requires WellLogged(base, log) && k <= |log|
    ensures WellLogged(base, log[..k])
    decreases k
  {
    if k > 0 {
      assert log[..k][1..] == log[1..][..k - 1];
      WellLoggedPrefix(Step(base, log[0]), log[1..], k - 1);
    }
  }

  /** The page holds what the original run had made of it after some prefix of its log. */
  ghost predicate ShowsPrefix(disk: Slots, log: seq<Op>) {
    exists k :: 0 <= k <= |log| && WellLogged([], log[..k]) && Same(disk, Final([], log[..k]))
  }

  /** A page that shows the effect of any prefix of its whole log can be redone. */
  lemma {:induction false} PrefixRedoable(disk: Slots, log: seq<Op>, k: nat)
    requires WellLogged([], log) && k <= |log| && WellLogged([], log[..k]) && Same(disk, Final([], log[..k]))
    ensures Redoable(disk, [], log)
  {
    forall s: nat | Kept(disk, log, s) ensures Inserted(log, s, Get(disk, s).value) {
      var data := Get(disk, s).value;
      assert Get(disk, s) == Get(Final([], log[..k]), s);
      if Touched(log[..k], s) {
        TouchedPrefix(log, k, s);
      } else {
        UntouchedFinal([], log[..k], s, data);
        InsertedPrefix(log, k, s, data);
      }
    }
  }

  /** Replay interrupted after k records leaves a redoable page. */
  lemma {:induction false} ReplayRedoable(v: PageView, log: seq<Op>, k: nat)
    requires WellLogged([], log) && k <= |log| && TakesAll(v, log[..k])
    requires Redoable(v.records, [], log)
    ensures Redoable(Replay(v, log[..k]).records, [], log)
  {
    var m, done := v.records, log[..k];
    var d := Replay(v, done).records;
    WellLoggedPrefix([], log, k);
    assert Follows(m, [], m, [], []);
    FollowsReplay(m, [], v, [], [], done, done);
    forall s: nat | Kept(d, log, s) ensures Inserted(log, s, Get(d, s).value) {
      var data := Get(d, s).value;
      assert FollowsAt(m, [], d, Final([], done), done, s);
      if Touched(done, s) {
        TouchedPrefix(log, k, s);
      } else if Kept(m, done, s) {
        assert RedoableAt(m, [], log, s);
      } else {
        UntouchedFinal([], done, s, data);
        InsertedPrefix(log, k, s, data);
      }
    }
  }

  /** Recovery crashes after cuts[0] records, is started again, crashes after cuts[1], ..., then runs to the end. */
  predicate RestartsTake(v: PageView, log: seq<Op>, cuts: seq<nat>)
    decreases cuts
  {
    if cuts == [] then TakesAll(v, log)
    else cuts[0] <= |log| && TakesAll(v, log[..cuts[0]]) && RestartsTake(Replay(v, log[..cuts[0]]), log, cuts[1..])
  }

  function Restarts(v: PageView, log: seq<Op>, cuts: seq<nat>): PageView
    requires RestartsTake(v, log, cuts)
    decreases cuts
  {
    if cuts == [] then Replay(v, log)
    else Restarts(Replay(v, log[..cuts[0]]), log, cuts[1..])
  }

  /** However often recovery is cut short and started over, the page ends as the original run left it. */
  lemma {:induction false} RestartsReachFinal(v: PageView, log: seq<Op>, cuts: seq<nat>)
    requires WellLogged([], log) && RestartsTake(v, log, cuts) && Redoable(v.records, [], log)
    ensures Same(Restarts(v, log, cuts).records, Final([], log))
    decreases cuts
  {
    if cuts == [] {
      RedoFromCoveringPage(v, [], log);
    } else {
      ReplayRedoable(v, log, cuts[0]);
      RestartsReachFinal(Replay(v, log[..cuts[0]]), log, cuts[1..]);
    }
  }

  lemma {:induction false} ReplayFree(v: PageView, log: seq<Op>)
    requires SafeAll(v, log)
    ensures v.free - TotalCost(log) <= Replay(v, log).free
    decreases log
  {
    if log != [] {
      ReplayFree(RedoOne(v, log[0]), log[1..]);
    }
  }

  lemma {:induction false} TotalCostPrefix(log: seq<Op>, k: nat)
    requires k <= |log|
    ensures TotalCost(log[..k]) <= TotalCost(log)
    decreases k
  {
    if k > 0 {
      assert log[..k][1..] == log[1..][..k - 1];
      TotalCostPrefix(log[1..], k - 1);
    }
  }

  /** Free space for the whole log once per start lets every one of them run. */
  lemma {:induction false} RestartRoomSuffices(v: PageView, log: seq<Op>, cuts: seq<nat>)
    requires (|cuts| + 1) * TotalCost(log) <= v.free && NoEmptyInserts(log)
    requires forall i :: 0 <= i < |cuts| ==> cuts[i] <= |log|
    ensures RestartsTake(v, log, cuts)
    decreases cuts
  {
    var c := TotalCost(log);
    if cuts == [] {
      RoomSuffices(v, log);
    } else {
      var part := log[..cuts[0]];
      assert (|cuts| + 1) * c == |cuts| * c + c;
      assert |cuts| * c >= 0;
      TotalCostPrefix(log, cuts[0]);
      assert NoEmptyInserts(part);
      RoomSuffices(v, part);
      ReplayFree(v, part);
      RestartRoomSuffices(Replay(v, part), log, cuts[1..]);
    }
  }

  // ---------------------------------------------------------------- many pages, one log

  datatype Change = Change(pageId: PageId, op: Op)

  type Pages = map<PageId, PageView>

  /** The part of the log that concerns page p. */
  function LogOf(log: seq<Change>, p: PageId): seq<Op> {
    if log == [] then []
    else if log[0].pageId == p then [log[0].op] + LogOf(log[1..], p)
    else LogOf(log[1..], p)
  }

  lemma {:induction false} LogOfConcat(a: seq<Change>, b: seq<Change>, p: PageId)
    ensures LogOf(a + b, p) == LogOf(a, p) + LogOf(b, p)
  {
    if a == [] {
      assert a + b == b;
    } else {
      assert (a + b)[1..] == a[1..] + b;
      LogOfConcat(a[1..], b, p);
    }
  }

  ghost predicate AllSafe(pages: Pages, log: seq<Change>) {
    forall p :: p in pages ==> SafeAll(pages[p], LogOf(log, p))
  }

  ghost predicate AllTake(pages: Pages, log: seq<Change>) {
    forall p :: p in pages ==> TakesAll(pages[p], LogOf(log, p))
  }

  lemma AllTakeSafe(pages: Pages, log: seq<Change>)
    requires AllTake(pages, log)
    ensures AllSafe(pages, log)
  {
  }

  /** One replayed change; a page that cannot be fetched is skipped. */
  function RedoChange(pages: Pages, c: Change): Pages
    requires c.pageId in pages ==> Safe(pages[c.pageId], c.op)
  {
    if c.pageId in pages then pages[c.pageId := RedoOne(pages[c.pageId], c.op)] else pages
  }

  lemma AllSafeNext(pages: Pages, log: seq<Change>)
    requires AllSafe(pages, log) && log != []
    ensures log[0].pageId in pages ==> Safe(pages[log[0].pageId], log[0].op)
    ensures AllSafe(RedoChange(pages, log[0]), log[1..])
  {
  }

  ghost function RedoAll(pages: Pages, log: seq<Change>): (r: Pages)
    requires AllSafe(pages, log)
    ensures r.Keys == pages.Keys
    decreases log
  {
    if log == [] then pages
    else
      AllSafeNext(pages, log);
      RedoAll(RedoChange(pages, log[0]), log[1..])
  }

  /** Replaying the interleaved log does to each page what replaying its own part does. */
  lemma {:induction false} RedoPageByPage(pages: Pages, log: seq<Change>, p: PageId)
    requires AllSafe(pages, log) && p in pages
    ensures SafeAll(pages[p], LogOf(log, p)) && RedoAll(pages, log)[p] == Replay(pages[p], LogOf(log, p))
    decreases log
  {
    if log != [] {
      AllSafeNext(pages, log);
      RedoPageByPage(RedoChange(pages, log[0]), log[1..], p);
      var own := LogOf(log, p);
      if log[0].pageId == p {
        assert own[0] == log[0].op && own[1..] == LogOf(log[1..], p);
      }
    }
  }

  /**
   Recovery restores the database: if each page on disk shows the effect of some prefix of
   its own log, its own prefix for each page, the replay of the whole log ends with all pages
   holding the records of the full original run.
   */
  lemma {:induction false} RecoveryRestoresPages(pages: Pages, log: seq<Change>)
    requires AllTake(pages, log)
    requires forall p :: p in pages ==> WellLogged([], LogOf(log, p)) && ShowsPrefix(pages[p].records, LogOf(log, p))
    ensures AllSafe(pages, log)
    ensures forall p :: p in pages ==> Same(RedoAll(pages, log)[p].records, Final([], LogOf(log, p)))
  {
    AllTakeSafe(pages, log);
    forall p | p in pages ensures Same(RedoAll(pages, log)[p].records, Final([], LogOf(log, p))) {
      var own := LogOf(log, p);
      RedoPageByPage(pages, log, p);
      var k :| 0 <= k <= |own| && WellLogged([], own[..k]) && Same(pages[p].records, Final([], own[..k]));
      PrefixRedoable(pages[p].records, own, k);
      RedoFromCoveringPage(pages[p], [], own);
    }
  }

  // ---------------------------------------------------------------- from page operations to recovery

  /** The log of the first k actions is a prefix of the log of all. */
  lemma {:induction false} LogAllPrefix(v: PageView, run: seq<Action>, k: nat)
    requires NoOverruns(v, run) && k <= |run|
    ensures NoOverruns(v, run[..k]) && LogAll(v, run[..k]) <= LogAll(v, run)
    decreases k
  {
    if k > 0 {
      assert run[..k][1..] == run[1..][..k - 1];
      LogAllPrefix(Perform(v, run[0]), run[1..], k - 1);
    }
  }

  /**
   A formatted page goes through any run of operations, each success logged, and the disk
   shows what it was after the first k of them: replaying the log brings back all records.
   */
  lemma {:induction false} RunIsRecovered(disk: PageView, run: seq<Action>, k: nat)
    requires NoOverruns(FORMATTED, run) && k <= |run| && NoOverruns(FORMATTED, run[..k])
    requires Same(disk.records, PerformAll(FORMATTED, run[..k]).records)
    requires TakesAll(disk, LogAll(FORMATTED, run))
    ensures Same(Replay(disk, LogAll(FORMATTED, run)).records, PerformAll(FORMATTED, run).records)
  {
    var log, part := LogAll(FORMATTED, run), LogAll(FORMATTED, run[..k]);
    LogAllPrefix(FORMATTED, run, k);
    RunsAreWellLogged(FORMATTED, run);
    RunsAreWellLogged(FORMATTED, run[..k]);
    assert log[..|part|] == part;
    PrefixRedoable(disk.records, log, |part|);
    RedoFromCoveringPage(disk, [], log);
  }

  // ---------------------------------------------------------------- recovery cut short

  /** What may be on disk when recovery crashes: the page after some number of its replayed records. */
  ghost predicate Interrupted(v: PageView, v': PageView, own: seq<Op>) {
    exists k :: 0 <= k <= |own| && TakesAll(v, own[..k]) && v' == Replay(v, own[..k])
  }

  /**
   Recovery after a crash during recovery, or after recovery: pages may have been written
   back at different points of the first replay, and the second one still restores them all.
   */
  lemma {:induction false} RecoveryAfterRecovery(pages: Pages, pages': Pages, log: seq<Change>)
    requires pages'.Keys == pages.Keys && AllTake(pages', log)
    requires forall p :: p in pages ==> WellLogged([], LogOf(log, p)) && ShowsPrefix(pages[p].records, LogOf(log, p))
    requires forall p :: p in pages ==> Interrupted(pages[p], pages'[p], LogOf(log, p))
    ensures AllSafe(pages', log)
    ensures forall p :: p in pages ==> Same(RedoAll(pages', log)[p].records, Final([], LogOf(log, p)))
  {
    AllTakeSafe(pages', log);
    forall p | p in pages ensures Same(RedoAll(pages', log)[p].records, Final([], LogOf(log, p))) {
      var own := LogOf(log, p);
      assert ShowsPrefix(pages[p].records, own) && Interrupted(pages[p], pages'[p], own);
      var n :| 0 <= n <= |own| && WellLogged([], own[..n]) && Same(pages[p].records, Final([], own[..n]));
      var k :| 0 <= k <= |own| && TakesAll(pages[p], own[..k]) && pages'[p] == Replay(pages[p], own[..k]);
      PrefixRedoable(pages[p].records, own, n);
      ReplayRedoable(pages[p], own, k);
      RedoPageByPage(pages', log, p);
      assert TakesAll(pages'[p], own);
      RedoFromCoveringPage(pages'[p], [], own);
    }
  }

  // ---------------------------------------------------------------- where redo goes wrong

  /**
   A log that starts after records were inserted.  The page on disk already holds the final
   state, yet replay ends with an empty page: the record of slot 1 is inserted again into slot 0.
   */
  lemma TruncatedLogLosesRecord(a: Record, b: Record, c: Record, free: nat)
    requires a != [] && b != [] && c != [] && |c| <= free
    ensures var base, log := [Some(a)], [Ins(1, b), Del(1), Ins(1, c), Del(0)];
            var disk := PageView([None, Some(c)], free);
            && WellLogged(base, log) && TakesAll(disk, log)
            && Final(base, log) == disk.records && Replay(disk, log).records == [None, None]
            && EarlyAt(disk.records, base, log, 2) && !LandsRight(disk, log)
  {
    var base: Slots, log := [Some(a)], [Ins(1, b), Del(1), Ins(1, c), Del(0)];
    var r1: Slots, r2: Slots, r3: Slots, r4: Slots :=
      [Some(a), Some(b)], [Some(a), None], [Some(a), Some(c)], [None, Some(c)];
    FirstEmptyIs(base, 1);
    FirstEmptyIs(r2, 1);
    RunFirst(r3, Del(0), [], r4);
    RunFirst(r2, Ins(1, c), [Del(0)], r3);
    RunFirst(r1, Del(1), [Ins(1, c), Del(0)], r2);
    RunFirst(base, Ins(1, b), [Del(1), Ins(1, c), Del(0)], r1);
    var disk := PageView(r4, free);
    var v2, v4 := PageView([None, None], free), PageView([None, None], free - |c|);
    var v3 := PageView([Some(c), None], free - |c|);
    FirstEmptyIs(v2.records, 0);
    ReplayFirst(v3, Del(0), [], v4);
    ReplayFirst(v2, Ins(1, c), [Del(0)], v3);
    ReplayFirst(disk, Del(1), [Ins(1, c), Del(0)], v2);
    ReplayFirst(disk, Ins(1, b), [Del(1), Ins(1, c), Del(0)], disk);
    assert log == [Ins(1, b)] + [Del(1), Ins(1, c), Del(0)];
    assert [Del(1), Ins(1, c), Del(0)] == [Del(1)] + [Ins(1, c), Del(0)];
    assert [Ins(1, c), Del(0)] == [Ins(1, c)] + [Del(0)];
    assert [Del(0)] == [Del(0)] + [];
    assert Touches(log[..2][1], 1) && Gone(r4, base, log[..2], 0);
    RedoReachesFinal(disk, base, log);
  }

  /**
   The condition on landing is needed: a redone insert can go to the wrong slot and the page
   still end up right, because later records happen to set it right.
   */
  lemma {:induction false} WrongSlotRightState(a: Record, b: Record, c: Record, free: nat)
    requires b != [] && |c| <= |b| && |b| + SLOT_ENTRY_SIZE <= free
    ensures var base, log := [Some(a)], [Ins(1, b), Del(1), Upd(0, c)];
            var disk := PageView([], free);
            && WellLogged(base, log) && TakesAll(disk, log) && !LandsRight(disk, log)
            && Same(Replay(disk, log).records, Final(base, log))
  {
    var base: Slots := [Some(a)];
    var r1: Slots, r2: Slots, r3: Slots := [Some(a), Some(b)], [Some(a), None], [Some(c), None];
    FirstEmptyIs(base, 1);
    RunFirst(r2, Upd(0, c), [], r3);
    RunFirst(r1, Del(1), [Upd(0, c)], r2);
    RunFirst(base, Ins(1, b), [Del(1), Upd(0, c)], r1);
    var disk, v1 := PageView([], free), PageView([Some(b)], free - |b| - SLOT_ENTRY_SIZE);
    var v2 := v1.(records := [Some(c)]);
    ReplayFirst(v1, Upd(0, c), [], v2);
    ReplayFirst(v1, Del(1), [Upd(0, c)], v1);
    ReplayFirst(disk, Ins(1, b), [Del(1), Upd(0, c)], v1);
    assert [Ins(1, b), Del(1), Upd(0, c)] == [Ins(1, b)] + [Del(1), Upd(0, c)];
    assert [Del(1), Upd(0, c)] == [Del(1)] + [Upd(0, c)];
    assert [Upd(0, c)] == [Upd(0, c)] + [];
  }

  lemma {:induction false} RunFirst(r: Slots, op: Op, rest: seq<Op>, next: Slots)
    requires Logged(r, op) && Step(r, op) == next && WellLogged(next, rest)
    ensures WellLogged(r, [op] + rest) && Final(r, [op] + rest) == Final(next, rest)
  {
  }

  lemma {:induction false} ReplayFirst(v: PageView, op: Op, rest: seq<Op>, next: PageView)
    requires Takes(v, op) && RedoOne(v, op) == next && TakesAll(next, rest)
    ensures TakesAll(v, [op] + rest) && Replay(v, [op] + rest) == Replay(next, rest)
  {
  }

  /** A page that was never formatted reads as one without slots and without free space: redo brings nothing back. */
  lemma {:induction false} UnformattedStaysEmpty(log: seq<Op>)
    ensures SafeAll(PageView([], 0), log) && Replay(PageView([], 0), log) == PageView([], 0)
    decreases log
  {
    if log != [] {
      UnformattedStaysEmpty(log[1..]);
    }
  }
}
