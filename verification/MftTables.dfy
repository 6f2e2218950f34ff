/** Filling the table of MFT records by one goroutine a slot, in any interleaving (FS/NTFS/MFT/Table.go). */
module MftTables {
  import opened Bytes
  import opened MapOrder

  /** A parsed record: the number it goes to, and everything else. */
  datatype Record = Record(entry: nat, body: seq<byte>)

  const ZERO_RECORD := Record(0, [])

  /** What a slot comes to: nothing, a corrupt or invalid record, or a record to write. */
  datatype Parsed = Skip | Invalid | Write(record: Record)

  /** An MFT slot: empty, or at least as long as its signature. */
  type Slot = s: seq<byte> | s == [] || |s| >= 4

  const ZERO_AREA: seq<byte> := [0x00, 0x00, 0x00, 0x00]
  const FILE: seq<byte> := [0x46, 0x49, 0x4C, 0x45]

  /** A zero slot leaves the record zero but is no error the worker stops at; BAAD and unknown signatures are. */
  function Process(decode: seq<byte> -> Record, slot: Slot): Parsed
  {
    if slot == [] then Skip
    else if slot[..4] == ZERO_AREA then Write(ZERO_RECORD)
    else if slot[..4] != FILE then Invalid
    else Write(decode(slot))
  }

  /** The four signatures: FILE is decoded, four zero bytes leave a zero record, baad and all others are invalid. */
  lemma WhichSlots(decode: seq<byte> -> Record, slot: Slot)
    ensures slot == [] ==> Process(decode, slot) == Skip
    ensures |slot| >= 4 && slot[..4] == [0x46, 0x49, 0x4C, 0x45] ==> Process(decode, slot) == Write(decode(slot))
    ensures |slot| >= 4 && slot[..4] == [0, 0, 0, 0] ==> Process(decode, slot) == Write(Record(0, []))
    ensures |slot| >= 4 && slot[..4] == [0x62, 0x61, 0x61, 0x64] ==> Process(decode, slot) == Invalid
    ensures |slot| >= 4 && slot[..4] != [0x46, 0x49, 0x4C, 0x45] && slot[..4] != [0, 0, 0, 0] ==>
              Process(decode, slot) == Invalid
  {
  }

  function ProcessAll(decode: seq<byte> -> Record, data: seq<Slot>): (ps: seq<Parsed>)
    ensures |ps| == |data|
  {
    seq(|data|, k requires 0 <= k < |data| => Process(decode, data[k]))
  }

  /** Where a worker is: the counter is read before it is written, a record is written in two pieces. */
  datatype Worker = Ready | Counting(seen: int) | Writing | Finished

  datatype State = State(records: seq<Record>, nonValid: int, workers: seq<Worker>)

  predicate InTable(p: Parsed, size: nat)
  {
    p.Write? && p.record.entry < size
  }

  predicate WorkerAt(p: Parsed, w: Worker, size: nat)
  {
    (w.Counting? ==> p.Invalid?) && (w.Writing? ==> InTable(p, size))
  }

  predicate Valid(ps: seq<Parsed>, s: State)
  {
    |s.workers| == |ps| && forall k | 0 <= k < |ps| :: WorkerAt(ps[k], s.workers[k], |s.records|)
  }

  /** The next step of worker k. */
  function Step(ps: seq<Parsed>, s: State, k: nat): (t: State)
    requires Valid(ps, s) && k < |ps|
    ensures Valid(ps, t) && |t.records| == |s.records|
  {
    var (p, w) := (ps[k], s.workers[k]);
    match w
    case Finished => s
    case Counting(seen) => s.(nonValid := seen + 1, workers := s.workers[k := Finished])
    case Writing =>
      var e := p.record.entry;
      s.(records := s.records[e := s.records[e].(body := p.record.body)], workers := s.workers[k := Finished])
    case Ready =>
      if p.Invalid? then s.(workers := s.workers[k := Counting(s.nonValid)])
      else if InTable(p, |s.records|) then
        var e := p.record.entry;
        s.(records := s.records[e := s.records[e].(entry := e)], workers := s.workers[k := Writing])
      else s.(workers := s.workers[k := Finished])
  }

  predicate IsSchedule(ps: seq<Parsed>, schedule: seq<nat>)
  {
    forall i | 0 <= i < |schedule| :: schedule[i] < |ps|
  }

  function Run(ps: seq<Parsed>, s: State, schedule: seq<nat>): (t: State)
    requires Valid(ps, s) && IsSchedule(ps, schedule)
    ensures Valid(ps, t) && |t.records| == |s.records|
  {
    if schedule == [] then s
    else Step(ps, Run(ps, s, schedule[..|schedule| - 1]), schedule[|schedule| - 1])
  }

  function Init(ps: seq<Parsed>, records: seq<Record>, nonValid: int): (s: State)
    ensures Valid(ps, s)
  {
    State(records, nonValid, seq(|ps|, _ => Ready))
  }

  predicate AllFinished(s: State)
  {
    forall k | 0 <= k < |s.workers| :: s.workers[k].Finished?
  }

  lemma RunNothing(ps: seq<Parsed>, s: State)
    requires Valid(ps, s)
    ensures Run(ps, s, []) == s
  {
  }

  lemma {:induction false} RunAppend(ps: seq<Parsed>, s: State, a: seq<nat>, b: seq<nat>)
    requires Valid(ps, s) && IsSchedule(ps, a) && IsSchedule(ps, b)
    ensures IsSchedule(ps, a + b) && Run(ps, s, a + b) == Run(ps, Run(ps, s, a), b)
  {
    if b == [] {
      assert a + b == a;
    } else {
      assert (a + b)[..|a + b| - 1] == a + b[..|b| - 1];
      RunAppend(ps, s, a, b[..|b| - 1]);
    }
  }

  // ---------- The records ----------

  predicate Writes(ps: seq<Parsed>, k: int, e: nat)
  {
    0 <= k < |ps| && ps[k].Write? && ps[k].record.entry == e
  }

  /** Workers that write the same entry of the table write the same record. */
  predicate Agree(ps: seq<Parsed>, size: nat)
  {
    forall k, l | 0 <= k < |ps| && 0 <= l < |ps| && InTable(ps[k], size) && Writes(ps, l, ps[k].record.entry) ::
      ps[k] == ps[l]
  }

  /** The record an entry ends up with: that of a worker that writes it, or the one it had. */
  ghost function FinalRecord(ps: seq<Parsed>, before: Record, e: nat): (r: Record)
    ensures (forall k :: !Writes(ps, k, e)) ==> r == before
    ensures (exists k :: Writes(ps, k, e)) ==> exists k :: Writes(ps, k, e) && r == ps[k].record
  {
    if k :| Writes(ps, k, e) then ps[k].record else before
  }

  /** A table of which each entry holds the record that is written to it. */
  ghost predicate IsFinal(ps: seq<Parsed>, before: seq<Record>, after: seq<Record>)
  {
    |after| == |before| && forall e | 0 <= e < |before| :: after[e] == FinalRecord(ps, before[e], e)
  }

  ghost predicate CellProgress(ps: seq<Parsed>, before: seq<Record>, s: State, e: nat)
    requires |s.records| == |before| && |s.workers| == |ps| && e < |before|
  {
    var (f, r) := (FinalRecord(ps, before[e], e), s.records[e]);
    (r.entry == before[e].entry || r.entry == f.entry) && (r.body == before[e].body || r.body == f.body) &&
    forall k | Writes(ps, k, e) ::
      (!s.workers[k].Ready? ==> r.entry == f.entry) && (s.workers[k].Finished? ==> r.body == f.body)
  }

  ghost predicate Progress(ps: seq<Parsed>, before: seq<Record>, s: State)
  {
    Valid(ps, s) && |s.records| == |before| && forall e: nat | e < |before| :: CellProgress(ps, before, s, e)
  }

  lemma AgreedRecord(ps: seq<Parsed>, before: seq<Record>, k: nat)
    requires Agree(ps, |before|) && k < |ps| && InTable(ps[k], |before|)
    ensures FinalRecord(ps, before[ps[k].record.entry], ps[k].record.entry) == ps[k].record
  {
    assert Writes(ps, k, ps[k].record.entry);
  }

  lemma ProgressStep(ps: seq<Parsed>, before: seq<Record>, s: State, k: nat)
    requires Agree(ps, |before|) && Progress(ps, before, s) && k < |ps|
    ensures Progress(ps, before, Step(ps, s, k))
  {
    hide FinalRecord, Agree;
    var t := Step(ps, s, k);
    if InTable(ps[k], |before|) {
      AgreedRecord(ps, before, k);
    }
    forall e: nat | e < |before|
      ensures CellProgress(ps, before, t, e)
    {
      assert CellProgress(ps, before, s, e);
    }
  }

  lemma {:induction false} ProgressRun(ps: seq<Parsed>, before: seq<Record>, nonValid: int, schedule: seq<nat>)
    requires Agree(ps, |before|) && IsSchedule(ps, schedule)
    ensures Progress(ps, before, Run(ps, Init(ps, before, nonValid), schedule))
  {
    if schedule != [] {
      ProgressRun(ps, before, nonValid, schedule[..|schedule| - 1]);
      ProgressStep(ps, before, Run(ps, Init(ps, before, nonValid), schedule[..|schedule| - 1]), schedule[|schedule| - 1]);
    }
  }

  /** If workers agree, every interleaving leaves the same table. */
  lemma TableIsFinal(ps: seq<Parsed>, before: seq<Record>, nonValid: int, schedule: seq<nat>)
    requires Agree(ps, |before|) && IsSchedule(ps, schedule)
    requires AllFinished(Run(ps, Init(ps, before, nonValid), schedule))
    ensures IsFinal(ps, before, Run(ps, Init(ps, before, nonValid), schedule).records)
  {
    ProgressRun(ps, before, nonValid, schedule);
    var s := Run(ps, Init(ps, before, nonValid), schedule);
    forall e | 0 <= e < |before|
      ensures s.records[e] == FinalRecord(ps, before[e], e)
    {
      assert CellProgress(ps, before, s, e);
      if k :| Writes(ps, k, e) {
        assert s.workers[k].Finished?;
      }
    }
  }

  // ---------- The counter ----------

  /** How many of the first n workers have counted an invalid record. */
  function Counted(ps: seq<Parsed>, workers: seq<Worker>, n: nat): nat
    requires n <= |ps| == |workers|
  {
    if n == 0 then 0
    else Counted(ps, workers, n - 1) + if ps[n - 1].Invalid? && workers[n - 1].Finished? then 1 else 0
  }

  function InvalidAmong(ps: seq<Parsed>, n: nat): nat
    requires n <= |ps|
  {
    if n == 0 then 0 else InvalidAmong(ps, n - 1) + if ps[n - 1].Invalid? then 1 else 0
  }

  lemma {:induction false} CountedUpdate(ps: seq<Parsed>, workers: seq<Worker>, k: nat, w: Worker, n: nat)
    requires n <= |ps| == |workers| && k < |ps| && !workers[k].Finished?
    ensures Counted(ps, workers[k := w], n) ==
            Counted(ps, workers, n) + if k < n && ps[k].Invalid? && w.Finished? then 1 else 0
  {
    if n > 0 {
      CountedUpdate(ps, workers, k, w, n - 1);
    }
  }

  lemma {:induction false} CountedAll(ps: seq<Parsed>, workers: seq<Worker>, n: nat)
    requires n <= |ps| == |workers|
    ensures Counted(ps, workers, n) <= InvalidAmong(ps, n)
    ensures (forall k | 0 <= k < n :: workers[k].Finished?) ==> Counted(ps, workers, n) == InvalidAmong(ps, n)
    ensures (forall k | 0 <= k < n :: workers[k].Ready?) ==> Counted(ps, workers, n) == 0
  {
    if n > 0 {
      CountedAll(ps, workers, n - 1);
    }
  }

  /** The counter, and what any worker has read of it, lies between the start and the number already counted. */
  ghost predicate CounterBounded(ps: seq<Parsed>, start: int, s: State)
    requires Valid(ps, s)
  {
    var counted := Counted(ps, s.workers, |ps|);
    start <= s.nonValid <= start + counted && (counted > 0 ==> s.nonValid > start) &&
    forall k | 0 <= k < |ps| && s.workers[k].Counting? :: start <= s.workers[k].seen <= start + counted
  }

  lemma CounterStep(ps: seq<Parsed>, start: int, s: State, k: nat)
    requires Valid(ps, s) && k < |ps| && CounterBounded(ps, start, s)
    ensures CounterBounded(ps, start, Step(ps, s, k))
  {
    if !s.workers[k].Finished? {
      CountedUpdate(ps, s.workers, k, Step(ps, s, k).workers[k], |ps|);
    }
  }

  lemma {:induction false} CounterRun(ps: seq<Parsed>, records: seq<Record>, start: int, schedule: seq<nat>)
    requires IsSchedule(ps, schedule)
    ensures CounterBounded(ps, start, Run(ps, Init(ps, records, start), schedule))
  {
    var s := Init(ps, records, start);
    if schedule == [] {
      CountedAll(ps, s.workers, |ps|);
    } else {
      CounterRun(ps, records, start, schedule[..|schedule| - 1]);
      CounterStep(ps, start, Run(ps, s, schedule[..|schedule| - 1]), schedule[|schedule| - 1]);
    }
  }

  /** The first m workers one after the other, then the others' first steps, then the others' second steps. */
  function TwicePerWorker(m: nat): seq<nat>
  {
    if m == 0 then [] else TwicePerWorker(m - 1) + [m - 1, m - 1]
  }

  function OncePerWorker(m: nat, n: nat): seq<nat>
    requires m <= n
    decreases n
  {
    if n == m then [] else OncePerWorker(m, n - 1) + [n - 1]
  }

  lemma {:induction false} SchedulesFit(ps: seq<Parsed>, m: nat, n: nat)
    requires m <= n <= |ps|
    ensures IsSchedule(ps, TwicePerWorker(m)) && IsSchedule(ps, OncePerWorker(m, n))
    decreases m + n
  {
    if m > 0 {
      SchedulesFit(ps, m - 1, m);
    }
    if n > m {
      SchedulesFit(ps, m, n - 1);
    }
  }

  lemma {:induction false} OneAfterTheOther(ps: seq<Parsed>, records: seq<Record>, start: int, m: nat)
    requires m <= |ps| && IsSchedule(ps, TwicePerWorker(m))
    ensures var s := Run(ps, Init(ps, records, start), TwicePerWorker(m));
            s.nonValid == start + InvalidAmong(ps, m) &&
            (forall k | 0 <= k < m :: s.workers[k].Finished?) && (forall k | m <= k < |ps| :: s.workers[k].Ready?)
  {
    hide Step, Run;
    RunNothing(ps, Init(ps, records, start));
    if m > 0 {
      SchedulesFit(ps, m - 1, m);
      OneAfterTheOther(ps, records, start, m - 1);
      var s := Run(ps, Init(ps, records, start), TwicePerWorker(m - 1));
      RunAppend(ps, Init(ps, records, start), TwicePerWorker(m - 1), [m - 1, m - 1]);
      TwoSteps(ps, s, m - 1);
    }
  }

  lemma TwoSteps(ps: seq<Parsed>, s: State, k: nat)
    requires Valid(ps, s) && k < |ps| && s.workers[k].Ready?
    ensures IsSchedule(ps, [k, k])
    ensures var t := Run(ps, s, [k, k]);
            t == Step(ps, Step(ps, s, k), k) && t.workers == s.workers[k := Finished] &&
            t.nonValid == s.nonValid + (if ps[k].Invalid? then 1 else 0) &&
            t.records == if InTable(ps[k], |s.records|) then s.records[ps[k].record.entry := ps[k].record] else s.records
  {
    assert [k, k][..1] == [k] && [k][..0] == [];
    assert Run(ps, s, [k]) == Step(ps, s, k);
  }

  lemma FirstStep(ps: seq<Parsed>, s: State, k: nat)
    requires Valid(ps, s) && k < |ps| && s.workers[k].Ready?
    ensures var t := Step(ps, s, k);
            t.nonValid == s.nonValid && t.workers == s.workers[k := t.workers[k]] && !t.workers[k].Ready? &&
            if ps[k].Invalid? then t.workers[k] == Counting(s.nonValid) else !t.workers[k].Counting?
  {
  }

  lemma SecondStep(ps: seq<Parsed>, s: State, k: nat)
    requires Valid(ps, s) && k < |ps| && !s.workers[k].Ready?
    ensures var t := Step(ps, s, k);
            t.workers == s.workers[k := Finished] &&
            t.nonValid == if s.workers[k].Counting? then s.workers[k].seen + 1 else s.nonValid
  {
  }

  /** All of the workers from m on take their first step: each that counts has read the same value. */
  lemma {:induction false} FirstSteps(ps: seq<Parsed>, s: State, m: nat, n: nat)
    requires Valid(ps, s) && m <= n <= |ps| && IsSchedule(ps, OncePerWorker(m, n))
    requires forall k | m <= k < |ps| :: s.workers[k].Ready?
    ensures var t := Run(ps, s, OncePerWorker(m, n));
            t.nonValid == s.nonValid && (forall k | 0 <= k < m || n <= k < |ps| :: t.workers[k] == s.workers[k]) &&
            (forall k | m <= k < n :: !t.workers[k].Ready? &&
               (if ps[k].Invalid? then t.workers[k] == Counting(s.nonValid) else !t.workers[k].Counting?))
    decreases n
  {
    hide Step, Run;
    RunNothing(ps, s);
    if n > m {
      SchedulesFit(ps, m, n - 1);
      FirstSteps(ps, s, m, n - 1);
      RunAppend(ps, s, OncePerWorker(m, n - 1), [n - 1]);
      OneStep(ps, Run(ps, s, OncePerWorker(m, n - 1)), n - 1);
      FirstStep(ps, Run(ps, s, OncePerWorker(m, n - 1)), n - 1);
    }
  }

  lemma OneStep(ps: seq<Parsed>, s: State, k: nat)
    requires Valid(ps, s) && k < |ps|
    ensures IsSchedule(ps, [k]) && Run(ps, s, [k]) == Step(ps, s, k)
  {
    assert [k][..0] == [];
  }

  /** Then all take their second: each that counts writes the same value. */
  lemma {:induction false} SecondSteps(ps: seq<Parsed>, s: State, m: nat, n: nat, seen: int)
    requires Valid(ps, s) && m <= n <= |ps| && IsSchedule(ps, OncePerWorker(m, n))
    requires forall k | m <= k < |ps| :: !s.workers[k].Ready? &&
               (if ps[k].Invalid? then s.workers[k] == Counting(seen) else !s.workers[k].Counting?)
    ensures var t := Run(ps, s, OncePerWorker(m, n));
            t.nonValid == (if InvalidAmong(ps, n) > InvalidAmong(ps, m) then seen + 1 else s.nonValid) &&
            InvalidAmong(ps, n) >= InvalidAmong(ps, m) &&
            (forall k | 0 <= k < m || n <= k < |ps| :: t.workers[k] == s.workers[k]) &&
            (forall k | m <= k < n :: t.workers[k].Finished?)
    decreases n
  {
    hide Step, Run;
    RunNothing(ps, s);
    if n > m {
      SchedulesFit(ps, m, n - 1);
      SecondSteps(ps, s, m, n - 1, seen);
      RunAppend(ps, s, OncePerWorker(m, n - 1), [n - 1]);
      OneStep(ps, Run(ps, s, OncePerWorker(m, n - 1)), n - 1);
      SecondStep(ps, Run(ps, s, OncePerWorker(m, n - 1)), n - 1);
    }
  }

  /** A place in the list before which a given number of records is invalid. */
  lemma {:induction false} CutAt(ps: seq<Parsed>, wanted: nat, n: nat) returns (m: nat)
    requires n <= |ps| && wanted < InvalidAmong(ps, n)
    ensures m < n && InvalidAmong(ps, m) == wanted
  {
    if InvalidAmong(ps, n - 1) == wanted {
      m := n - 1;
    } else {
      m := CutAt(ps, wanted, n - 1);
    }
  }

  /** Some interleaving ends with a given counter. */
  ghost predicate CanCount(ps: seq<Parsed>, records: seq<Record>, start: int, counter: int)
  {
    exists schedule | IsSchedule(ps, schedule) ::
      var t := Run(ps, Init(ps, records, start), schedule);
      AllFinished(t) && t.nonValid == counter
  }

  lemma LostUpdates(ps: seq<Parsed>, records: seq<Record>, start: int, m: nat)
    requires m <= |ps|
    ensures CanCount(ps, records, start,
                     start + InvalidAmong(ps, m) + if InvalidAmong(ps, |ps|) > InvalidAmong(ps, m) then 1 else 0)
  {
    hide Step, Run, InvalidAmong, TwicePerWorker, OncePerWorker;
    var n := |ps|;
    SchedulesFit(ps, m, n);
    var init, a, b := Init(ps, records, start), TwicePerWorker(m), OncePerWorker(m, n);
    OneAfterTheOther(ps, records, start, m);
    var s := Run(ps, init, a);
    FirstSteps(ps, s, m, n);
    var t := Run(ps, s, b);
    SecondSteps(ps, t, m, n, s.nonValid);
    RunAppend(ps, init, a, b);
    RunAppend(ps, init, a + b, b);
    assert AllFinished(Run(ps, init, a + b + b));
  }

  /**
    The counter of bad records is not reliable: it can end with any value from one more than before to as many
    more as there are bad records, and with no other.
  */
  lemma CounterExact(ps: seq<Parsed>, records: seq<Record>, start: int, counter: int)
    ensures CanCount(ps, records, start, counter) <==>
            var bad := InvalidAmong(ps, |ps|);
            if bad == 0 then counter == start else start < counter <= start + bad
  {
    var bad := InvalidAmong(ps, |ps|);
    if CanCount(ps, records, start, counter) {
      var schedule :| IsSchedule(ps, schedule) && AllFinished(Run(ps, Init(ps, records, start), schedule)) &&
                      Run(ps, Init(ps, records, start), schedule).nonValid == counter;
      CounterRun(ps, records, start, schedule);
      CountedAll(ps, Run(ps, Init(ps, records, start), schedule).workers, |ps|);
    }
    if bad == 0 && counter == start {
      LostUpdates(ps, records, start, |ps|);
    }
    if bad > 0 && start < counter <= start + bad {
      var m := CutAt(ps, counter - start - 1, |ps|);
      LostUpdates(ps, records, start, m);
    }
  }

  // ---------- Exactly when the table does not depend on the interleaving ----------

  ghost predicate Confluent(ps: seq<Parsed>, before: seq<Record>, start: int)
  {
    forall a, b | IsSchedule(ps, a) && IsSchedule(ps, b) &&
                  AllFinished(Run(ps, Init(ps, before, start), a)) && AllFinished(Run(ps, Init(ps, before, start), b)) ::
      Run(ps, Init(ps, before, start), a).records == Run(ps, Init(ps, before, start), b).records
  }

  /** All workers but one, one after the other. */
  function AllBut(skipped: nat, m: nat): seq<nat>
  {
    if m == 0 then []
    else if m - 1 == skipped then AllBut(skipped, m - 1)
    else AllBut(skipped, m - 1) + [m - 1, m - 1]
  }

  lemma {:induction false} RunAllBut(ps: seq<Parsed>, s: State, skipped: nat, m: nat)
    requires Valid(ps, s) && m <= |ps| && forall k | 0 <= k < |ps| :: s.workers[k].Ready?
    ensures IsSchedule(ps, AllBut(skipped, m))
    ensures var t := Run(ps, s, AllBut(skipped, m));
            (forall k | 0 <= k < m && k != skipped :: t.workers[k].Finished?) &&
            (forall k | m <= k < |ps| :: t.workers[k].Ready?) && (skipped < |ps| ==> t.workers[skipped].Ready?)
  {
    hide Step, Run;
    RunNothing(ps, s);
    if m > 0 {
      RunAllBut(ps, s, skipped, m - 1);
      if m - 1 != skipped {
        TwoSteps(ps, Run(ps, s, AllBut(skipped, m - 1)), m - 1);
        RunAppend(ps, s, AllBut(skipped, m - 1), [m - 1, m - 1]);
      }
    }
  }

  /** An interleaving in which a given writer is the last. */
  lemma LastWriter(ps: seq<Parsed>, before: seq<Record>, start: int, k: nat) returns (schedule: seq<nat>)
    requires k < |ps| && InTable(ps[k], |before|)
    ensures IsSchedule(ps, schedule)
    ensures var t := Run(ps, Init(ps, before, start), schedule);
            AllFinished(t) && t.records[ps[k].record.entry] == ps[k].record
  {
    hide Step, Run;
    var init := Init(ps, before, start);
    RunAllBut(ps, init, k, |ps|);
    var s := Run(ps, init, AllBut(k, |ps|));
    TwoSteps(ps, s, k);
    RunAppend(ps, init, AllBut(k, |ps|), [k, k]);
    schedule := AllBut(k, |ps|) + [k, k];
  }

  /** Every interleaving leaves the same table exactly if workers that write the same entry write the same record. */
  lemma ConfluentExact(ps: seq<Parsed>, before: seq<Record>, start: int)
    ensures Confluent(ps, before, start) <==> Agree(ps, |before|)
  {
    hide FinalRecord;
    if Agree(ps, |before|) {
      forall a, b | IsSchedule(ps, a) && IsSchedule(ps, b) &&
                    AllFinished(Run(ps, Init(ps, before, start), a)) && AllFinished(Run(ps, Init(ps, before, start), b))
        ensures Run(ps, Init(ps, before, start), a).records == Run(ps, Init(ps, before, start), b).records
      {
        TableIsFinal(ps, before, start, a);
        TableIsFinal(ps, before, start, b);
      }
    }
    if Confluent(ps, before, start) {
      forall k, l | 0 <= k < |ps| && 0 <= l < |ps| && InTable(ps[k], |before|) && Writes(ps, l, ps[k].record.entry)
        ensures ps[k] == ps[l]
      {
        var a := LastWriter(ps, before, start, k);
        var b := LastWriter(ps, before, start, l);
      }
    }
  }

  /** A zero slot goes to entry 0, so beside a slot that holds record 0 the table depends on the interleaving. */
  lemma ZeroSlotClashes(decode: seq<byte> -> Record, data: seq<Slot>, i: nat, j: nat, before: seq<Record>, start: int)
    requires i < |data| && j < |data| && before != []
    requires data[i] != [] && data[i][..4] == ZERO_AREA
    requires data[j] != [] && data[j][..4] == FILE && decode(data[j]).entry == 0 && decode(data[j]) != ZERO_RECORD
    ensures !Confluent(ProcessAll(decode, data), before, start)
  {
    var ps := ProcessAll(decode, data);
    assert ps[i] == Write(ZERO_RECORD) && ps[j] == Write(decode(data[j]));
    assert InTable(ps[i], |before|) && Writes(ps, j, ps[i].record.entry);
    ConfluentExact(ps, before, start);
  }

  // ---------- The table object ----------

  function Pending(s: State): set<nat>
  {
    set k: nat | k < |s.workers| && !s.workers[k].Finished?
  }

  /** How many steps a worker still takes at most. */
  function StepsOf(w: Worker): nat
  {
    match w case Ready => 2 case Counting(_) => 1 case Writing => 1 case Finished => 0
  }

  function StepsLeft(workers: seq<Worker>): nat
  {
    if workers == [] then 0 else StepsLeft(workers[..|workers| - 1]) + StepsOf(workers[|workers| - 1])
  }

  lemma {:induction false} FewerSteps(workers: seq<Worker>, k: nat, w: Worker)
    requires k < |workers| && StepsOf(w) < StepsOf(workers[k])
    ensures StepsLeft(workers[k := w]) < StepsLeft(workers)
  {
    var n := |workers| - 1;
    if k == n {
      assert workers[k := w][..n] == workers[..n];
    } else {
      assert workers[k := w][..n] == workers[..n][k := w];
      FewerSteps(workers[..n], k, w);
    }
  }

  lemma EveryStepCounts(ps: seq<Parsed>, s: State, k: nat)
    requires Valid(ps, s) && k < |ps| && !s.workers[k].Finished?
    ensures StepsLeft(Step(ps, s, k).workers) < StepsLeft(s.workers)
  {
    FewerSteps(s.workers, k, Step(ps, s, k).workers[k]);
  }

  lemma NonePending(s: State)
    requires Pending(s) == {}
    ensures AllFinished(s)
  {
    forall k: nat | k < |s.workers|
      ensures s.workers[k].Finished?
    {
      assert k !in Pending(s);
    }
  }

  class MFTTable {
    var Records: seq<Record>
    var NonValidRecords: int

    constructor (size: nat)
      ensures Records == seq(size, _ => ZERO_RECORD) && NonValidRecords == 0
    {
      Records, NonValidRecords := seq(size, _ => ZERO_RECORD), 0;
    }

    /** Starts a worker for every slot and lets unfinished workers take steps in an arbitrary order until none is left. */
    method ProcessRecordsAsync(decode: seq<byte> -> Record, data: seq<Slot>)
      modifies this
      ensures var ps := ProcessAll(decode, data);
              |Records| == |old(Records)| &&
              CanCount(ps, old(Records), old(NonValidRecords), NonValidRecords) &&
              (Agree(ps, |old(Records)|) ==> IsFinal(ps, old(Records), Records))
    {
      hide FinalRecord, Agree, IsFinal, Step, Run, StepsLeft;
      var ps := ProcessAll(decode, data);
      var s := Init(ps, Records, NonValidRecords);
      ghost var init, schedule := s, [];
      RunNothing(ps, s);
      while Pending(s) != {}
        invariant Records == old(Records) && NonValidRecords == old(NonValidRecords)
        invariant IsSchedule(ps, schedule) && s == Run(ps, init, schedule)
        decreases StepsLeft(s.workers)
      {
        var k := Pick(Pending(s));
        EveryStepCounts(ps, s, k);
        RunAppend(ps, init, schedule, [k]);
        OneStep(ps, s, k);
        s, schedule := Step(ps, s, k), schedule + [k];
      }
      NonePending(s);
      if Agree(ps, |Records|) {
        TableIsFinal(ps, Records, NonValidRecords, schedule);
      }
      Records, NonValidRecords := s.records, s.nonValid;
    }
  }
}
