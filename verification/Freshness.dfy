/** When the lease file is read again (`np_leases_poll`): the file may change at any moment,
    also between the stat and the read, and commands rebuild the table on their own. */
module Freshness {
  import opened Text
  import opened Runs

  datatype Stat = Stat(mtime: int, size: int)

  /** The watcher's fields: the last stat kept (all zero at first) and `first_run`. */
  datatype Watch = Watch(last: Stat, firstRun: bool)

  const NEW_WATCH := Watch(Stat(0, 0), true)

  /** The stat section of a poll that finds a file: what is kept, and whether the table is to be
      republished. */
  function NoteStat(w: Watch, st: Stat): (Watch, bool) {
    if st != w.last then (w.(last := st), true) else (w, w.firstRun)
  }

  /** A poll between its two sections: the decision taken, and the file version seen. */
  datatype Phase = Idle | Polling(due: bool, seen: nat)

  /** `file` counts the versions of the file; `table` is the version the table was built from. */
  datatype System = System(file: nat, watch: Watch, table: Option<nat>, phase: Phase)

  datatype Step =
    | Touch     // the file changes
    | StatFile  // first half of a poll
    | Finish    // second half: republish if due
    | Command   // a command republishes

  const START := System(0, NEW_WATCH, None, Idle)

  predicate Enabled(s: System, step: Step) {
    match step
    case Touch => true
    case StatFile => s.phase.Idle?
    case Finish => s.phase.Polling?
    case Command => s.phase.Idle?
  }

  /** `stamp` gives the stat of each version of the file, which stays present and readable. */
  function Take(stamp: nat -> Stat, s: System, step: Step): System
    requires Enabled(s, step)
  {
    match step
    case Touch => s.(file := s.file + 1)
    case StatFile =>
      var (w, due) := NoteStat(s.watch, stamp(s.file));
      s.(watch := w, phase := Polling(due, s.file))
    case Finish => if s.phase.due then Rebuild(s).(phase := Idle) else s.(phase := Idle)
    case Command => Rebuild(s)
  }

  function Rebuild(s: System): System {
    s.(table := Some(s.file), watch := s.watch.(firstRun := false))
  }

  function Next(stamp: nat -> Stat): (System, Step) -> Option<System> {
    (s: System, step: Step) => if Enabled(s, step) then Some(Take(stamp, s, step)) else None
  }

  ghost predicate Reachable(stamp: nat -> Stat, s: System) {
    Reaches(Next(stamp), START, s)
  }

  ghost predicate Identifies(stamp: nat -> Stat) {
    forall v: nat, w: nat :: stamp(v) == stamp(w) ==> v == w
  }

  /** No version but the first can be mistaken for the zeroed fields of a new watcher. */
  ghost predicate NeverZero(stamp: nat -> Stat) {
    forall v: nat :: v > 0 ==> stamp(v) != Stat(0, 0)
  }

  /** A poll that decides to do nothing leaves a table built from the version it saw. */
  ghost predicate Fresh(s: System) {
    s.phase.Polling? && !s.phase.due ==> s.table == Some(s.phase.seen)
  }

  /** Version kept <= version of the table <= version of the file; while a republish is due
      the version kept may be ahead of the table, but not of the file. */
  ghost predicate Inv(stamp: nat -> Stat, s: System) {
    && (s.watch.firstRun <==> s.table.None?)
    && (s.table.Some? ==> s.table.value <= s.file)
    && (forall v: nat :: stamp(v) == s.watch.last ==>
          v <= s.file && (s.table.Some? && !(s.phase.Polling? && s.phase.due) ==> v <= s.table.value))
    && (s.phase.Polling? ==> s.phase.seen <= s.file)
    && Fresh(s)
  }

  lemma StepKeepsInv(stamp: nat -> Stat, s: System, step: Step)
    requires Identifies(stamp) && Inv(stamp, s) && Enabled(s, step)
    ensures Inv(stamp, Take(stamp, s, step))
  {
  }

  /** Every run keeps the three versions in order. */
  lemma RunKeepsInv(stamp: nat -> Stat, s: System, steps: seq<Step>, t: System)
    requires Identifies(stamp) && Inv(stamp, s) && Leads(Next(stamp), s, steps, t)
    ensures Inv(stamp, t)
  {
    var inv := (u: System) => Inv(stamp, u);
    forall u, step | inv(u) && Next(stamp)(u, step).Some?
      ensures inv(Next(stamp)(u, step).value)
    {
      StepKeepsInv(stamp, u, step);
    }
    RunKeeps(Next(stamp), inv, s, steps, t);
  }

  /** So does every reachable state, and idle polls are fresh. */
  lemma VersionsInOrder(stamp: nat -> Stat, s: System)
    requires Identifies(stamp) && NeverZero(stamp) && Reachable(stamp, s)
    ensures Inv(stamp, s)
  {
    var steps :| Leads(Next(stamp), START, steps, s);
    RunKeepsInv(stamp, START, steps, s);
  }

  // ----- The runs that go wrong, and exactly when there are none

  lemma ReachableOn(stamp: nat -> Stat, s: System, step: Step)
    requires Reachable(stamp, s) && Enabled(s, step)
    ensures Reachable(stamp, Take(stamp, s, step))
  {
    ReachesOn(Next(stamp), START, s, step);
  }

  /** The file may change any number of times in a row. */
  lemma {:induction false} ReachableTouched(stamp: nat -> Stat, s: System, n: nat)
    requires Reachable(stamp, s)
    ensures Reachable(stamp, s.(file := s.file + n))
  {
    if n == 0 {
      assert s.(file := s.file + 0) == s;
    } else {
      ReachableTouched(stamp, s, n - 1);
      ReachableOn(stamp, s.(file := s.file + (n - 1)), Touch);
    }
  }

  /** A command before the first poll, then a version whose stat is all zero: it goes unnoticed. */
  lemma ZeroStampIsMissed(stamp: nat -> Stat, v: nat) returns (s: System)
    requires v > 0 && stamp(v) == Stat(0, 0)
    ensures Reachable(stamp, s) && !Fresh(s)
  {
    ReachesItself(Next(stamp), START);
    ReachableOn(stamp, START, Command);
    var built := Take(stamp, START, Command);
    ReachableTouched(stamp, built, v);
    ReachableOn(stamp, built.(file := v), StatFile);
    s := Take(stamp, built.(file := v), StatFile);
  }

  /** A version that has the stat of an earlier one, built from: it goes unnoticed as well. */
  lemma SharedStampIsMissed(stamp: nat -> Stat, v: nat, w: nat) returns (s: System)
    requires v < w && stamp(v) == stamp(w)
    ensures Reachable(stamp, s) && !Fresh(s)
  {
    ReachesItself(Next(stamp), START);
    ReachableTouched(stamp, START, v);
    s := START.(file := v);
    ReachableOn(stamp, s, StatFile);
    s := Take(stamp, s, StatFile);
    ReachableOn(stamp, s, Finish);
    s := Take(stamp, s, Finish);
    ReachableTouched(stamp, s, w - v);
    s := s.(file := w);
    ReachableOn(stamp, s, StatFile);
    s := Take(stamp, s, StatFile);
  }

  /** Idle polls are fresh in every reachable state exactly if the stat tells all versions apart
      and no version but the first has the all-zero stat. */
  lemma FreshIffStampsTell(stamp: nat -> Stat)
    ensures (forall s :: Reachable(stamp, s) ==> Fresh(s)) <==> Identifies(stamp) && NeverZero(stamp)
  {
    if Identifies(stamp) && NeverZero(stamp) {
      forall s | Reachable(stamp, s) ensures Fresh(s) {
        VersionsInOrder(stamp, s);
      }
    } else if !NeverZero(stamp) {
      var v: nat :| v > 0 && stamp(v) == Stat(0, 0);
      var s := ZeroStampIsMissed(stamp, v);
    } else {
      var v: nat, w: nat :| stamp(v) == stamp(w) && v != w;
      var s := SharedStampIsMissed(stamp, if v < w then v else w, if v < w then w else v);
    }
  }
}
