/** Executing the reparsed segments: the bounded window of payloads in flight, the order in
  * which they are drained, and the progress counters. */
module ScanExecution {
  import opened Wrappers
  import opened Bytes
  import opened CatalogModel
  import opened IncrementalScan
  import opened ScanPlanning
  import opened CatalogWriter
  import opened ArchiveDirectory

  /** A payload handed to the worker pool, with the bytes it reserves. */
  datatype InFlight = InFlight(task: Task, reserved: nat)

  function Reserved(queue: seq<InFlight>): nat {
    if queue == [] then 0 else Reserved(queue[..|queue| - 1]) + queue[|queue| - 1].reserved
  }

  function Tasks(queue: seq<InFlight>): seq<Task> {
    seq(|queue|, k requires 0 <= k < |queue| => queue[k].task)
  }

  function Without(queue: seq<InFlight>, k: nat): seq<InFlight>
    requires k < |queue|
  {
    queue[..k] + queue[k + 1..]
  }

  lemma {:induction false} WithoutReserved(queue: seq<InFlight>, k: nat)
    requires k < |queue|
    ensures Reserved(queue) == Reserved(Without(queue, k)) + queue[k].reserved
  {
    var n := |queue| - 1;
    if k == n {
      assert Without(queue, k) == queue[..n];
    } else {
      WithoutReserved(queue[..n], k);
      assert Without(queue, k)[..n - 1] == Without(queue[..n], k);
    }
  }

  lemma WithoutTasks(queue: seq<InFlight>, k: nat)
    requires k < |queue|
    ensures multiset(Tasks(queue)) == multiset(Tasks(Without(queue, k))) + multiset{queue[k].task}
  {
    var all := Tasks(queue);
    assert all == all[..k] + [all[k]] + all[k + 1..];
    assert Tasks(Without(queue, k)) == all[..k] + all[k + 1..];
  }

  // ---------------------------------------------------------------- permutations of tasks

  lemma PartKeepsDistinct(s: seq<Task>, t: seq<Task>)
    requires DistinctTasks(s) && multiset(t) <= multiset(s)
    ensures DistinctTasks(t)
  {
    forall a, b | 0 <= a < b < |t| ensures t[a].record.libId != t[b].record.libId {
      assert t[a] in multiset(s) && t[b] in multiset(s);
      if t[a] == t[b] {
        TwiceCounted(t, a, b);
        var i, j := TwicePlaces(s, t[a]);
        assert false;
      }
    }
  }

  // ---------------------------------------------------------------- record positions

  /** Every record of every reparsed segment. */
  function Positions(plans: seq<Plan>): set<(nat, nat)> {
    set i: nat, j: nat | i < |plans| && j < |plans[i].parsed| && Reparsed(plans[i]) :: (i, j)
  }

  predicate IsDeleted(r: Record) { r.deleted }

  /** Neither a deletion nor a supported format. */
  predicate IsSkipped(r: Record) { !r.deleted && !r.fb2 }

  /** The positions whose record is picked. */
  function Among(plans: seq<Plan>, done: set<(nat, nat)>, pick: Record -> bool): set<(nat, nat)> {
    set d | d in done && d.0 < |plans| && d.1 < |plans[d.0].parsed| && pick(plans[d.0].parsed[d.1])
  }

  function Count(records: seq<Record>, pick: Record -> bool): nat {
    if records == [] then 0 else Count(records[..|records| - 1], pick) + if pick(records[|records| - 1]) then 1 else 0
  }

  lemma {:induction false} DeletionsCounted(records: seq<Record>)
    ensures Count(records, IsDeleted) == CountDeleted(records)
  {
    if records != [] { DeletionsCounted(records[..|records| - 1]); }
  }

  function SumOver(plans: seq<Plan>, weight: Plan -> nat): nat {
    if plans == [] then 0 else SumOver(plans[..|plans| - 1], weight) + weight(plans[|plans| - 1])
  }

  function ParsedCount(p: Plan): nat { if Reparsed(p) then |p.parsed| else 0 }
  function ParsedDeletions(p: Plan): nat { if Reparsed(p) then Count(p.parsed, IsDeleted) else 0 }
  function ParsedSkips(p: Plan): nat { if Reparsed(p) then Count(p.parsed, IsSkipped) else 0 }
  function ReusedCount(p: Plan): nat { if p.change.Unchanged? then p.total else 0 }
  function ListedCount(p: Plan): nat { if p.change.Removed? then 0 else p.total }

  function Column(i: nat, n: nat): set<(nat, nat)> { set j: nat | j < n :: (i, j) }

  lemma ColumnStep(i: nat, n: nat)
    ensures Column(i, n + 1) == Column(i, n) + {(i, n)} && (i, n) !in Column(i, n)
  {
  }

  lemma {:induction false} ColumnSize(i: nat, n: nat)
    ensures |Column(i, n)| == n
  {
    if n > 0 {
      ColumnSize(i, n - 1);
      ColumnStep(i, n - 1);
    }
  }

  lemma PositionsStep(plans: seq<Plan>, p: Plan)
    ensures var last := if Reparsed(p) then Column(|plans|, |p.parsed|) else {};
      Positions(plans + [p]) == Positions(plans) + last && Positions(plans) !! last
  {
  }

  lemma {:induction false} PositionCount(plans: seq<Plan>)
    ensures |Positions(plans)| == SumOver(plans, ParsedCount)
  {
    if plans != [] {
      var n := |plans| - 1;
      PositionCount(plans[..n]);
      ColumnSize(n, |plans[n].parsed|);
      PositionsStep(plans[..n], plans[n]);
      assert plans == plans[..n] + [plans[n]];
    }
  }

  lemma AmongUnion(plans: seq<Plan>, a: set<(nat, nat)>, b: set<(nat, nat)>, pick: Record -> bool)
    ensures Among(plans, a + b, pick) == Among(plans, a, pick) + Among(plans, b, pick)
    ensures a !! b ==> |Among(plans, a + b, pick)| == |Among(plans, a, pick)| + |Among(plans, b, pick)|
  {
  }

  lemma AmongOne(plans: seq<Plan>, d: (nat, nat), pick: Record -> bool)
    requires d.0 < |plans| && d.1 < |plans[d.0].parsed|
    ensures |Among(plans, {d}, pick)| == if pick(plans[d.0].parsed[d.1]) then 1 else 0
  {
    assert Among(plans, {d}, pick) == if pick(plans[d.0].parsed[d.1]) then {d} else {};
  }

  lemma {:induction false} AmongColumn(plans: seq<Plan>, i: nat, n: nat, pick: Record -> bool)
    requires i < |plans| && n <= |plans[i].parsed|
    ensures |Among(plans, Column(i, n), pick)| == Count(plans[i].parsed[..n], pick)
  {
    if n == 0 {
      assert Among(plans, Column(i, 0), pick) == {};
    } else {
      var m: nat := n - 1;
      AmongColumn(plans, i, m, pick);
      assert plans[i].parsed[..n][..m] == plans[i].parsed[..m];
      ColumnStep(i, m);
      AmongUnion(plans, Column(i, m), {(i, m)}, pick);
      AmongOne(plans, (i, m), pick);
    }
  }

  lemma AmongPrefix(plans: seq<Plan>, p: Plan, pick: Record -> bool)
    ensures Among(plans + [p], Positions(plans), pick) == Among(plans, Positions(plans), pick)
  {
  }

  lemma AmongLast(plans: seq<Plan>, p: Plan, pick: Record -> bool)
    ensures var last := if Reparsed(p) then Column(|plans|, |p.parsed|) else {};
      |Among(plans + [p], last, pick)| == if Reparsed(p) then Count(p.parsed, pick) else 0
  {
    if Reparsed(p) {
      AmongColumn(plans + [p], |plans|, |p.parsed|, pick);
      assert p.parsed[..|p.parsed|] == p.parsed;
    } else {
      assert Among(plans + [p], {}, pick) == {};
    }
  }

  lemma AmongStep(plans: seq<Plan>, p: Plan, pick: Record -> bool)
    ensures |Among(plans + [p], Positions(plans + [p]), pick)|
         == |Among(plans, Positions(plans), pick)| + if Reparsed(p) then Count(p.parsed, pick) else 0
  {
    PositionsStep(plans, p);
    AmongUnion(plans + [p], Positions(plans), if Reparsed(p) then Column(|plans|, |p.parsed|) else {}, pick);
    AmongPrefix(plans, p, pick);
    AmongLast(plans, p, pick);
  }

  /** Counted position by position, or segment by segment. */
  lemma {:induction false} AmongCount(plans: seq<Plan>)
    ensures |Among(plans, Positions(plans), IsDeleted)| == SumOver(plans, ParsedDeletions)
    ensures |Among(plans, Positions(plans), IsSkipped)| == SumOver(plans, ParsedSkips)
  {
    if plans != [] {
      var front, p := plans[..|plans| - 1], plans[|plans| - 1];
      assert plans == front + [p];
      AmongCount(front);
      AmongStep(front, p, IsDeleted);
      AmongStep(front, p, IsSkipped);
    }
  }

  lemma {:induction false} CountsAddUp(plans: seq<Plan>)
    requires forall i :: 0 <= i < |plans| && Reparsed(plans[i]) ==> plans[i].total == |plans[i].parsed|
    ensures SumOver(plans, ListedCount) == SumOver(plans, ReusedCount) + SumOver(plans, ParsedCount)
  {
    if plans != [] { CountsAddUp(plans[..|plans| - 1]); }
  }

  // ---------------------------------------------------------------- inserts among the writes

  /** How many of the writes insert a book. */
  function Inserts(w: Work, tasks: seq<Task>, id: ScanId): nat {
    if tasks == [] then 0
    else
      var front, t := tasks[..|tasks| - 1], tasks[|tasks| - 1];
      Inserts(w, front, id) + if t.record.libId !in WriteAll(w, front, id).cat.books then 1 else 0
  }

  /** The tasks for books the catalog does not have. */
  ghost function NewBooks(books: map<LibId, BookRow>, tasks: seq<Task>): set<nat> {
    set a: nat | a < |tasks| && tasks[a].record.libId !in books
  }

  lemma {:induction false} WrittenBooks(w: Work, tasks: seq<Task>, id: ScanId, l: LibId)
    ensures l in WriteAll(w, tasks, id).cat.books <==> l in w.cat.books || exists a :: 0 <= a < |tasks| && tasks[a].record.libId == l
  {
    if tasks != [] {
      var n := |tasks| - 1;
      WrittenBooks(w, tasks[..n], id, l);
      assert forall a :: 0 <= a < n ==> tasks[..n][a] == tasks[a];
      assert tasks[n].record.libId == l || tasks[n].record.libId != l;
    }
  }

  lemma NewBooksStep(books: map<LibId, BookRow>, front: seq<Task>, t: Task)
    ensures |NewBooks(books, front + [t])| == |NewBooks(books, front)| + if t.record.libId !in books then 1 else 0
  {
    assert NewBooks(books, front + [t]) == NewBooks(books, front) + if t.record.libId !in books then {|front|} else {};
  }

  /** Each LibId written once, the inserts are the tasks for books that were not there before. */
  lemma {:induction false} InsertsAreNewBooks(w: Work, tasks: seq<Task>, id: ScanId)
    requires DistinctTasks(tasks)
    ensures Inserts(w, tasks, id) == |NewBooks(w.cat.books, tasks)|
  {
    if tasks == [] {
      assert NewBooks(w.cat.books, tasks) == {};
    } else {
      var n := |tasks| - 1;
      var front := tasks[..n];
      assert tasks == front + [tasks[n]];
      InsertsAreNewBooks(w, front, id);
      NewBooksStep(w.cat.books, front, tasks[n]);
      WrittenBooks(w, front, id, tasks[n].record.libId);
    }
  }

  // ---------------------------------------------------------------- the window

  /** Each submitted payload is in exactly one place: written, dropped or still in flight. */
  ghost predicate ExactlyOnce(submitted: seq<Task>, drained: seq<Task>, dropped: seq<Task>, queue: seq<InFlight>) {
    multiset(submitted) == multiset(drained) + multiset(dropped) + multiset(Tasks(queue))
  }

  lemma TakenOnce(submitted: seq<Task>, drained: seq<Task>, dropped: seq<Task>, queue: seq<InFlight>,
                  rest: seq<InFlight>, t: Task)
    requires ExactlyOnce(submitted, drained, dropped, queue)
    requires multiset(Tasks(queue)) == multiset(Tasks(rest)) + multiset{t}
    ensures ExactlyOnce(submitted, drained + [t], dropped, rest)
    ensures ExactlyOnce(submitted, drained, dropped + [t], rest)
  {
  }

  lemma PushedOnce(submitted: seq<Task>, drained: seq<Task>, dropped: seq<Task>, queue: seq<InFlight>, f: InFlight)
    requires ExactlyOnce(submitted, drained, dropped, queue)
    ensures ExactlyOnce(submitted + [f.task], drained, dropped, queue + [f])
    ensures Reserved(queue + [f]) == Reserved(queue) + f.reserved
  {
    assert Tasks(queue + [f]) == Tasks(queue) + [f.task];
    assert (queue + [f])[..|queue|] == queue;
  }

  /** Flowing: within bounds, tracked, and the catalog holds exactly the drained payloads.
    * Halted: still within bounds and tracked, and the writer can be rolled back. */
  datatype WindowStatus = Flowing | Halted | Lost

  /** Why an execution stopped: the environment interfered, or a write exceeded the cover budget. */
  datatype Excuse = Faulted | BudgetExceeded | Unexcused

  /** The first position from `k` on that is ready, or the length. */
  function FirstReadyFrom(k: nat, length: nat, ready: set<nat>): (r: nat)
    requires k <= length
    ensures k <= r <= length && (r < length ==> r in ready) && forall i :: k <= i < r ==> i !in ready
    decreases length - k
  {
    if k == length || k in ready then k else FirstReadyFrom(k + 1, length, ready)
  }

  function FirstReady(length: nat, ready: set<nat>): nat { FirstReadyFrom(0, length, ready) }

  /** The position that is taken: the first ready one if preferred and there is one, else the oldest. */
  function Taken(length: nat, preferReady: bool, ready: set<nat>): (k: nat)
    requires length > 0
    ensures k < length
    ensures preferReady && (exists i: nat :: i < length && i in ready) ==>
      k in ready && forall i: nat :: i < k ==> i !in ready
    ensures !preferReady || (forall i: nat :: i < length ==> i !in ready) ==> k == 0
  {
    if preferReady && FirstReady(length, ready) < length then FirstReady(length, ready) else 0
  }

  /** Payloads in flight, bounded by a count and by the bytes they reserve. */
  class PayloadWindow {
    const writer: StreamWriter
    const maxInFlight: nat
    const maxBytes: nat

    var queue: seq<InFlight>
    var inFlightBytes: int
    var parsedFb2: nat
    var added: nat
    var updated: nat

    ghost const base: Work
    ghost var submitted: seq<Task>
    ghost var drained: seq<Task>
    ghost var dropped: seq<Task>

    /** Queue length and reserved bytes stay within their limits, and the byte counter is the
      * sum of the outstanding reservations. */
    ghost predicate Bounded()
      reads this`queue, this`inFlightBytes
    {
      && 0 < maxInFlight && |queue| <= maxInFlight
      && inFlightBytes == Reserved(queue) <= maxBytes
    }

    ghost predicate Tracked()
      reads this`submitted, this`drained, this`dropped, this`queue
    {
      ExactlyOnce(submitted, drained, dropped, queue)
    }

    ghost predicate Writing()
      reads this`drained, this`dropped, this`parsedFb2, this`added, this`updated, writer, writer.store`tables, writer.store`stats, writer.store`coverFiles, writer.stats
    {
      && writer.Valid() && writer.prepared == base && writer.log == drained
      && dropped == []
      && parsedFb2 == |drained| && added + updated == parsedFb2 && added == Inserts(base, drained, writer.id)
    }

    /** The first write over the cover budget was of submitted payloads. */
    ghost predicate Stuck()
      reads this`submitted, writer
    {
      writer.Over() && multiset(writer.log) <= multiset(submitted)
    }

    ghost function Excuse(faults: nat): Excuse
      reads this`submitted, writer, writer.store`faults
    {
      if writer.store.faults > faults then Faulted else if Stuck() then BudgetExceeded else Unexcused
    }

    ghost function Status(): WindowStatus
      reads this, writer, writer.store`tables, writer.store`stats, writer.store`coverFiles, writer.stats
    {
      if !Bounded() || !Tracked() || !writer.RollbackReady() then Lost
      else if Writing() then Flowing
      else Halted
    }

    constructor (writer: StreamWriter, maxInFlight: nat, maxBytes: nat)
      requires writer.Valid() && writer.log == [] && maxInFlight > 0
      ensures Bounded() && Tracked() && Writing()
      ensures queue == [] && submitted == [] && drained == []
      ensures this.writer == writer && this.maxInFlight == maxInFlight && this.maxBytes == maxBytes
        && base == writer.prepared
    {
      this.writer, this.maxInFlight, this.maxBytes := writer, maxInFlight, maxBytes;
      queue, inFlightBytes := [], 0;
      parsedFb2, added, updated := 0, 0, 0;
      base := writer.prepared;
      submitted, drained, dropped := [], [], [];
    }

    /** Takes one task out of the queue: the first ready one if preferred, else the oldest.  Which
      * positions are ready is the environment's choice. */
    method TakeParsedRecord(preferReady: bool, ready: set<nat>) returns (task: InFlight)
      requires queue != []
      modifies this`queue
      ensures var k := Taken(|old(queue)|, preferReady, ready); task == old(queue)[k] && queue == Without(old(queue), k)
      ensures |queue| == |old(queue)| - 1
      ensures Reserved(old(queue)) == Reserved(queue) + task.reserved
      ensures multiset(Tasks(old(queue))) == multiset(Tasks(queue)) + multiset{task.task}
    {
      var k := 0;
      if preferReady {
        while k < |queue| && k !in ready
          invariant k <= |queue| && FirstReady(|queue|, ready) == FirstReadyFrom(k, |queue|, ready)
        {
          k := k + 1;
        }
        if k == |queue| { k := 0; }
      }
      task := queue[k];
      WithoutReserved(queue, k);
      WithoutTasks(queue, k);
      queue := Without(queue, k);
    }

    /** Takes a task and gives back its bytes; the subtraction is the source's saturating one,
      * and it never saturates. */
    method TakeAndRelease(preferReady: bool) returns (task: Task)
      requires Bounded() && Tracked() && queue != []
      modifies this`queue, this`inFlightBytes
      ensures Bounded() && |queue| == |old(queue)| - 1
      ensures ExactlyOnce(submitted, drained + [task], dropped, queue)
      ensures ExactlyOnce(submitted, drained, dropped + [task], queue)
    {
      var ready: set<nat> := *;
      var taken := TakeParsedRecord(preferReady, ready);
      task := taken.task;
      TakenOnce(submitted, drained, dropped, old(queue), queue, task);
      assert taken.reserved <= inFlightBytes;
      inFlightBytes := if taken.reserved <= inFlightBytes then inFlightBytes - taken.reserved else 0;
    }

    /** Writes one finished payload to the catalog; parsing or writing may fail. */
    method WriteTask(task: Task) returns (ok: bool)
      requires Writing()
      modifies this`parsedFb2, this`added, this`updated, this`drained
      modifies writer`work, writer`written, writer`log, writer.stats, writer.store`coverFiles, writer.store`faults
      ensures ok ==> writer.store.faults == old(writer.store.faults)
      ensures writer.store.faults >= old(writer.store.faults)
      ensures ok ==> Writing() && drained == old(drained) + [task]
      ensures !ok ==> drained == old(drained)
      ensures writer.RollbackReady()
      ensures !ok && writer.store.faults == old(writer.store.faults) ==> writer.Over() && writer.log == drained + [task]
    {
      var damaged := writer.store.Strike();
      if damaged { return false; }
      var isNew;
      ok, isNew := writer.WriteParsedRecord(task);
      if !ok { return; }
      drained := drained + [task];
      parsedFb2 := parsedFb2 + 1;
      if isNew { added := added + 1; } else { updated := updated + 1; }
    }

    /** Waits for one payload and writes it to the catalog. */
    method Drain(preferReady: bool) returns (ok: bool)
      requires Bounded() && Tracked() && Writing() && queue != []
      modifies this`queue, this`inFlightBytes, this`parsedFb2, this`added, this`updated, this`drained, this`dropped
      modifies writer`work, writer`written, writer`log, writer.stats, writer.store`coverFiles, writer.store`faults
      ensures ok ==> writer.store.faults == old(writer.store.faults)
      ensures writer.store.faults >= old(writer.store.faults)
      ensures Bounded() && Tracked() && writer.RollbackReady()
      ensures ok ==> Writing()
      ensures |queue| == |old(queue)| - 1
      ensures !ok ==> !Excuse(old(writer.store.faults)).Unexcused?
    {
      var task := TakeAndRelease(preferReady);
      ok := WriteTask(task);
      if !ok { dropped := dropped + [task]; }
    }

    method DrainAll() returns (ok: bool)
      requires Bounded() && Tracked() && Writing()
      modifies this`queue, this`inFlightBytes, this`parsedFb2, this`added, this`updated, this`drained, this`dropped
      modifies writer`work, writer`written, writer`log, writer.stats, writer.store`coverFiles, writer.store`faults
      ensures ok ==> writer.store.faults == old(writer.store.faults)
      ensures writer.store.faults >= old(writer.store.faults)
      ensures Bounded() && Tracked() && writer.RollbackReady()
      ensures ok ==> Writing() && queue == []
      ensures !ok ==> !Excuse(old(writer.store.faults)).Unexcused?
    {
      while queue != []
        invariant Bounded() && Tracked() && Writing() && writer.store.faults == old(writer.store.faults)
        decreases |queue|
      {
        ok := Drain(true);
        if !ok { return; }
        var cancelled := writer.store.Strike();
        if cancelled { return false; }
      }
      return true;
    }

    /** Drains until one more payload fits the count limit. */
    method MakeRoom() returns (ok: bool)
      requires Bounded() && Tracked() && Writing()
      modifies this`queue, this`inFlightBytes, this`parsedFb2, this`added, this`updated, this`drained, this`dropped
      modifies writer`work, writer`written, writer`log, writer.stats, writer.store`coverFiles, writer.store`faults
      ensures ok ==> writer.store.faults == old(writer.store.faults)
      ensures writer.store.faults >= old(writer.store.faults)
      ensures Bounded() && Tracked() && writer.RollbackReady()
      ensures ok ==> Writing() && |queue| < maxInFlight
      ensures !ok ==> !Excuse(old(writer.store.faults)).Unexcused?
    {
      while |queue| >= maxInFlight
        invariant Bounded() && Tracked() && Writing() && writer.store.faults == old(writer.store.faults)
        decreases |queue|
      {
        ok := Drain(true);
        if !ok { return; }
        var cancelled := writer.store.Strike();
        if cancelled { return false; }
      }
      return true;
    }

    /** Drains until `size` more bytes fit; an empty window always admits an allowed payload. */
    method MakeBytes(size: nat) returns (ok: bool)
      requires Bounded() && Tracked() && Writing() && |queue| < maxInFlight && size <= maxBytes
      modifies this`queue, this`inFlightBytes, this`parsedFb2, this`added, this`updated, this`drained, this`dropped
      modifies writer`work, writer`written, writer`log, writer.stats, writer.store`coverFiles, writer.store`faults
      ensures ok ==> writer.store.faults == old(writer.store.faults)
      ensures writer.store.faults >= old(writer.store.faults)
      ensures Bounded() && Tracked() && writer.RollbackReady()
      ensures ok ==> Writing() && |queue| < maxInFlight && inFlightBytes + size <= maxBytes
      ensures !ok ==> !Excuse(old(writer.store.faults)).Unexcused?
    {
      while queue != [] && inFlightBytes > maxBytes - size
        invariant Bounded() && Tracked() && Writing() && |queue| < maxInFlight
          && writer.store.faults == old(writer.store.faults)
        decreases |queue|
      {
        ok := Drain(true);
        if !ok { return; }
        var cancelled := writer.store.Strike();
        if cancelled { return false; }
      }
      return true;
    }

    method Push(task: Task, size: nat)
      requires Bounded() && Tracked() && Writing() && |queue| < maxInFlight && inFlightBytes + size <= maxBytes
      modifies this`queue, this`inFlightBytes, this`submitted
      ensures Bounded() && Tracked()
      ensures submitted == old(submitted) + [task]
    {
      PushedOnce(submitted, drained, dropped, queue, InFlight(task, size));
      queue := queue + [InFlight(task, size)];
      inFlightBytes := inFlightBytes + size;
      submitted := submitted + [task];
    }

    /** The exceptional exit: every payload still in flight is waited for and discarded. */
    method DrainRemaining()
      requires Bounded() && Tracked()
      modifies this`queue, this`inFlightBytes, this`dropped
      ensures Bounded() && Tracked()
      ensures queue == [] && inFlightBytes == 0
      ensures multiset(submitted) == multiset(drained) + multiset(dropped)
    {
      while queue != []
        invariant Bounded() && Tracked()
        decreases |queue|
      {
        var task := TakeAndRelease(false);
        dropped := dropped + [task];
      }
      assert Tasks(queue) == [];
    }
  }

  // ---------------------------------------------------------------- scanning the records

  ghost predicate ActiveIn(plans: seq<Plan>, done: set<(nat, nat)>, d: (nat, nat)) {
    d in done && d in Positions(plans) && IsActive(plans[d.0].parsed[d.1])
  }

  ghost function IdAt(plans: seq<Plan>, d: (nat, nat)): LibId
    requires d in Positions(plans)
  {
    plans[d.0].parsed[d.1].libId
  }

  ghost predicate HasTask(plans: seq<Plan>, submitted: seq<Task>, d: (nat, nat)) {
    d.0 < |plans| && exists a :: 0 <= a < |submitted| && TaskOf(plans[d.0], d.1, submitted[a])
  }

  /** The submitted payloads are the active records among those done, each once, and no LibId
    * was taken twice or is held by a reused segment. */
  ghost predicate SubmittedFor(plans: seq<Plan>, reusedIds: set<LibId>, processed: set<LibId>, done: set<(nat, nat)>,
                               submitted: seq<Task>) {
    && done <= Positions(plans)
    && reusedIds <= processed
    && (forall d: (nat, nat) :: ActiveIn(plans, done, d) ==>
          IdAt(plans, d) in processed - reusedIds && HasTask(plans, submitted, d))
    && (forall d: (nat, nat), e: (nat, nat) :: ActiveIn(plans, done, d) && ActiveIn(plans, done, e) && IdAt(plans, d) == IdAt(plans, e) ==> d == e)
    && (forall a :: 0 <= a < |submitted| ==> Planned(plans, submitted[a]) && submitted[a].record.libId in processed)
    && DistinctTasks(submitted)
  }

  /** Every scanned record is submitted, skipped or a deletion. */
  ghost predicate Counted(plans: seq<Plan>, reused: nat, scanned: nat, skipped: nat, done: set<(nat, nat)>,
                          submitted: seq<Task>) {
    && scanned == reused + |done| && skipped == |Among(plans, done, IsSkipped)|
    && |done| == |submitted| + skipped + |Among(plans, done, IsDeleted)|
  }

  lemma CountStep(plans: seq<Plan>, done: set<(nat, nat)>, d: (nat, nat), pick: Record -> bool)
    requires d in Positions(plans) && d !in done
    ensures |done + {d}| == |done| + 1
    ensures |Among(plans, done + {d}, pick)| ==
      |Among(plans, done, pick)| + if pick(plans[d.0].parsed[d.1]) then 1 else 0
  {
    AmongUnion(plans, done, {d}, pick);
    AmongOne(plans, d, pick);
  }

  lemma InactiveStep(plans: seq<Plan>, reusedIds: set<LibId>, processed: set<LibId>, done: set<(nat, nat)>,
                     submitted: seq<Task>, d: (nat, nat))
    requires SubmittedFor(plans, reusedIds, processed, done, submitted)
    requires d in Positions(plans) && !IsActive(plans[d.0].parsed[d.1])
    ensures SubmittedFor(plans, reusedIds, processed, done + {d}, submitted)
  {
    forall e: (nat, nat) | ActiveIn(plans, done + {d}, e) ensures ActiveIn(plans, done, e) {}
  }

  lemma ActiveStep(plans: seq<Plan>, reusedIds: set<LibId>, processed: set<LibId>, done: set<(nat, nat)>,
                   submitted: seq<Task>, d: (nat, nat), t: Task)
    requires SubmittedFor(plans, reusedIds, processed, done, submitted)
    requires d in Positions(plans) && TaskOf(plans[d.0], d.1, t) && t.record.libId !in processed
    ensures SubmittedFor(plans, reusedIds, processed + {t.record.libId}, done + {d}, submitted + [t])
  {
    var more := submitted + [t];
    assert IdAt(plans, d) == t.record.libId;
    assert more[|submitted|] == t;
    forall e: (nat, nat) | ActiveIn(plans, done + {d}, e)
      ensures HasTask(plans, more, e)
      ensures e != d ==> ActiveIn(plans, done, e)
    {
      if e != d {
        assert ActiveIn(plans, done, e);
        var a :| 0 <= a < |submitted| && TaskOf(plans[e.0], e.1, submitted[a]);
        assert more[a] == submitted[a];
      }
    }
    forall a | 0 <= a < |more| ensures Planned(plans, more[a]) && more[a].record.libId in processed + {t.record.libId} {
      if a < |submitted| { assert more[a] == submitted[a]; }
    }
  }

  // ---------------------------------------------------------------- the scan ledger

  /** The running totals of an execution; `limit` bounds the size of a payload. */
  datatype Ledger = Ledger(processed: set<LibId>, scanned: nat, skipped: nat, done: set<(nat, nat)>,
                           submitted: seq<Task>, limit: nat)

  /** One scanned record: passed over, or its payload submitted. */
  datatype Entry = Passed(at: (nat, nat)) | Submitted(at: (nat, nat), task: Task)

  /** The payload has its declared size, if one is declared, and fits the in-flight limit. */
  predicate TaskAllowed(t: Task, limit: nat) {
    (t.record.declaredSize == 0 || t.book.size == t.record.declaredSize) && t.book.size <= limit
  }

  ghost predicate Allowed(plans: seq<Plan>, l: Ledger, e: Entry) {
    && e.at in Positions(plans) && e.at !in l.done
    && match e
       case Passed(d) => !IsActive(plans[d.0].parsed[d.1])
       case Submitted(d, t) => TaskOf(plans[d.0], d.1, t) && t.record.libId !in l.processed && TaskAllowed(t, l.limit)
  }

  ghost function Applied(plans: seq<Plan>, l: Ledger, e: Entry): Ledger {
    match e
    case Passed(d) => l.(scanned := l.scanned + 1, done := l.done + {d}, skipped := l.skipped + |Among(plans, {d}, IsSkipped)|)
    case Submitted(d, t) =>
      l.(scanned := l.scanned + 1, done := l.done + {d}, processed := l.processed + {t.record.libId},
         submitted := l.submitted + [t])
  }

  ghost function Blank(reusedIds: set<LibId>, reused: nat, limit: nat): Ledger {
    Ledger(reusedIds, reused, 0, {}, [], limit)
  }

  /** The ledger after the entries of `log`. */
  ghost function Replayed(plans: seq<Plan>, start: Ledger, log: seq<Entry>): Ledger {
    if log == [] then start else Applied(plans, Replayed(plans, start, log[..|log| - 1]), log[|log| - 1])
  }

  /** Every entry was allowed when it was made. */
  ghost predicate Legal(plans: seq<Plan>, start: Ledger, log: seq<Entry>) {
    log == [] || (Legal(plans, start, log[..|log| - 1]) && Allowed(plans, Replayed(plans, start, log[..|log| - 1]), log[|log| - 1]))
  }

  lemma LegalStep(plans: seq<Plan>, start: Ledger, log: seq<Entry>, e: Entry)
    requires Legal(plans, start, log) && Allowed(plans, Replayed(plans, start, log), e)
    ensures Legal(plans, start, log + [e])
    ensures Replayed(plans, start, log + [e]) == Applied(plans, Replayed(plans, start, log), e)
  {
    assert (log + [e])[..|log|] == log;
  }

  function PassedBy(plans: seq<Plan>, l: Ledger, d: (nat, nat)): Ledger
    requires d in Positions(plans)
  {
    l.(scanned := l.scanned + 1, done := l.done + {d}, skipped := l.skipped + if plans[d.0].parsed[d.1].deleted then 0 else 1)
  }

  lemma PassedStep(plans: seq<Plan>, start: Ledger, log: seq<Entry>, d: (nat, nat))
    requires Legal(plans, start, log) && d in Positions(plans) && d !in Replayed(plans, start, log).done
      && !IsActive(plans[d.0].parsed[d.1])
    ensures Legal(plans, start, log + [Passed(d)])
    ensures Replayed(plans, start, log + [Passed(d)]) == PassedBy(plans, Replayed(plans, start, log), d)
  {
    LegalStep(plans, start, log, Passed(d));
    AmongOne(plans, d, IsSkipped);
  }

  /** Whatever was scanned, in whatever order: the ledger is balanced and its submissions are
    * the active records done so far, each LibId once. */
  lemma {:induction false} LedgerBalances(plans: seq<Plan>, reusedIds: set<LibId>, reused: nat, limit: nat,
                                          log: seq<Entry>)
    requires Legal(plans, Blank(reusedIds, reused, limit), log)
    ensures var l := Replayed(plans, Blank(reusedIds, reused, limit), log);
      && SubmittedFor(plans, reusedIds, l.processed, l.done, l.submitted)
      && Counted(plans, reused, l.scanned, l.skipped, l.done, l.submitted)
  {
    if log == [] {
      assert Among(plans, {}, IsDeleted) == {} && Among(plans, {}, IsSkipped) == {};
    } else {
      var front, e := log[..|log| - 1], log[|log| - 1];
      LedgerBalances(plans, reusedIds, reused, limit, front);
      var k := Replayed(plans, Blank(reusedIds, reused, limit), front);
      CountStep(plans, k.done, e.at, IsDeleted);
      CountStep(plans, k.done, e.at, IsSkipped);
      AmongOne(plans, e.at, IsSkipped);
      match e
      case Passed(d) => InactiveStep(plans, reusedIds, k.processed, k.done, k.submitted, d);
      case Submitted(d, t) => ActiveStep(plans, reusedIds, k.processed, k.done, k.submitted, d, t);
    }
  }

  /** A LibId is taken by a reused segment or by an active record that was done. */
  ghost predicate TakenBy(plans: seq<Plan>, reusedIds: set<LibId>, done: set<(nat, nat)>, l: LibId) {
    l in reusedIds || exists d :: ActiveIn(plans, done, d) && IdAt(plans, d) == l
  }

  /** Only then, and what was submitted is allowed. */
  lemma {:induction false} LedgerIsTight(plans: seq<Plan>, reusedIds: set<LibId>, reused: nat, limit: nat,
                                         log: seq<Entry>)
    requires Legal(plans, Blank(reusedIds, reused, limit), log)
    ensures var l := Replayed(plans, Blank(reusedIds, reused, limit), log);
      && l.limit == limit
      && (forall id :: id in l.processed ==> TakenBy(plans, reusedIds, l.done, id))
      && (forall a :: 0 <= a < |l.submitted| ==> TaskAllowed(l.submitted[a], limit))
  {
    if log != [] {
      var front, e := log[..|log| - 1], log[|log| - 1];
      LedgerIsTight(plans, reusedIds, reused, limit, front);
      var k := Replayed(plans, Blank(reusedIds, reused, limit), front);
      var l := Applied(plans, k, e);
      forall id | id in l.processed ensures TakenBy(plans, reusedIds, l.done, id) {
        if id in k.processed {
          TakenStill(plans, reusedIds, k.done, l.done, id);
        } else {
          assert ActiveIn(plans, l.done, e.at) && IdAt(plans, e.at) == id;
        }
      }
    }
  }

  lemma TakenStill(plans: seq<Plan>, reusedIds: set<LibId>, done: set<(nat, nat)>, more: set<(nat, nat)>, id: LibId)
    requires done <= more && TakenBy(plans, reusedIds, done, id)
    ensures TakenBy(plans, reusedIds, more, id)
  {
    if id !in reusedIds {
      var d :| ActiveIn(plans, done, d) && IdAt(plans, d) == id;
      assert ActiveIn(plans, more, d);
    }
  }

  /** The plan indices to execute: each reparsed plan once, in any order. */
  ghost predicate IsExecutionOrder(plans: seq<Plan>, order: seq<nat>) {
    && (forall a :: 0 <= a < |order| ==> order[a] < |plans| && Reparsed(plans[order[a]]))
    && (forall a, b :: 0 <= a < b < |order| ==> order[a] != order[b])
    && (forall i: nat :: i < |plans| && Reparsed(plans[i]) ==> i in order)
  }

  /** Planning attached an archive to every reparsed segment that needs one, and segments of
    * one archive agree on its manifest. */
  ghost predicate ArchivesAgree(plans: seq<Plan>) {
    && (forall i :: 0 <= i < |plans| && Reparsed(plans[i]) && RequiresArchive(plans[i].parsed) ==>
          plans[i].archive.Some?)
    && (forall i, k :: 0 <= i < |plans| && 0 <= k < |plans| && Reparsed(plans[i]) && Reparsed(plans[k])
          && plans[i].archive.Some? && plans[k].archive.Some?
             && plans[i].archive.value.path == plans[k].archive.value.path
          ==> plans[i].archive.value.manifest == plans[k].archive.value.manifest)
  }

  ghost predicate OpenedAsPlanned(plans: seq<Plan>, open: Option<(ArchivePath, Manifest)>) {
    open.Some? ==> forall i :: 0 <= i < |plans| && Reparsed(plans[i]) && plans[i].archive.Some? && plans[i].archive.value.path == open.value.0
                               ==> plans[i].archive.value.manifest == open.value.1
  }

  lemma PlannedOpen(plans: seq<Plan>, i: nat, j: nat)
    requires ArchivesAgree(plans) && i < |plans| && Reparsed(plans[i]) && j < |plans[i].parsed|
      && IsActive(plans[i].parsed[j])
    ensures plans[i].archive.Some?
    ensures OpenedAsPlanned(plans, Some((plans[i].archive.value.path, plans[i].archive.value.manifest)))
  {
    assert RequiresArchive(plans[i].parsed);
  }

  /** The archive has the record's entry, of the declared size if one is declared, and it fits the
    * in-flight limit. */
  predicate PayloadAllowed(p: Plan, j: nat, maxBytes: nat) {
    && j < |p.parsed| && p.archive.Some? && p.parsed[j].entry in p.archive.value.manifest
    && TaskAllowed(Task(p.name, p.parsed[j], p.archive.value.manifest[p.parsed[j].entry]), maxBytes)
  }

  /** The archive still is what planning took it for. */
  predicate ArchiveTrue(info: ArchiveInfo, files: ArchiveFiles) {
    info.path in files && files[info.path].manifest == info.manifest
  }

  predicate RecordRunnable(p: Plan, j: nat, files: ArchiveFiles, maxBytes: nat) {
    PayloadAllowed(p, j, maxBytes) && ArchiveTrue(p.archive.value, files)
  }

  /** Nothing about the plans, the files or the limits stands in the way of an execution. */
  ghost predicate Runnable(plans: seq<Plan>, reusedIds: set<LibId>, files: ArchiveFiles, maxBytes: nat) {
    && (forall d: (nat, nat) :: ActiveIn(plans, Positions(plans), d) ==>
          RecordRunnable(plans[d.0], d.1, files, maxBytes))
    && (forall d: (nat, nat), e: (nat, nat) :: ActiveIn(plans, Positions(plans), d) && ActiveIn(plans, Positions(plans), e) && IdAt(plans, d) == IdAt(plans, e) ==> d == e)
    && (forall d: (nat, nat) :: ActiveIn(plans, Positions(plans), d) ==> IdAt(plans, d) !in reusedIds)
  }

  /** Then the next record is runnable too, and its LibId is free. */
  lemma RunnableNext(plans: seq<Plan>, reusedIds: set<LibId>, reused: nat, limit: nat, log: seq<Entry>,
                     files: ArchiveFiles, d: (nat, nat))
    requires Legal(plans, Blank(reusedIds, reused, limit), log) && Runnable(plans, reusedIds, files, limit)
    requires d in Positions(plans) && IsActive(plans[d.0].parsed[d.1])
    requires d !in Replayed(plans, Blank(reusedIds, reused, limit), log).done
    ensures RecordRunnable(plans[d.0], d.1, files, limit)
    ensures plans[d.0].parsed[d.1].libId !in Replayed(plans, Blank(reusedIds, reused, limit), log).processed
  {
    LedgerIsTight(plans, reusedIds, reused, limit, log);
    LedgerBalances(plans, reusedIds, reused, limit, log);
    var l := Replayed(plans, Blank(reusedIds, reused, limit), log);
    assert ActiveIn(plans, Positions(plans), d) && IdAt(plans, d) == plans[d.0].parsed[d.1].libId;
    if IdAt(plans, d) in l.processed {
      assert TakenBy(plans, reusedIds, l.done, IdAt(plans, d));
      var e :| ActiveIn(plans, l.done, e) && IdAt(plans, e) == IdAt(plans, d);
      assert ActiveIn(plans, Positions(plans), e);
    }
  }

  /** The directory, and how often the environment has interfered so far. */
  datatype Look = Look(history: History, files: ArchiveFiles, faults: nat, strikes: nat)

  /** The directory was only looked at for payloads, and while nothing interfered it stayed. */
  ghost predicate Browsed(a: Look, b: Look) {
    && Grew(a.history, b.history, {Opening, Extracting}) && a.faults <= b.faults
       && (a.faults == b.faults ==> a.files == b.files)
    && b.strikes - a.strikes >= b.faults - a.faults
  }

  lemma BrowsedTwice(a: Look, b: Look, c: Look)
    requires Browsed(a, b) && Browsed(b, c)
    ensures Browsed(a, c) && a.strikes <= b.strikes <= c.strikes
    ensures a.strikes == b.strikes ==> a.files == b.files
  {
    GrewTwice(a.history, b.history, c.history, {Opening, Extracting});
  }

  /** InStep: the books are those of the entries made and the right archive is open.  Adrift: the
    * books still are. */
  datatype Standing = InStep | Adrift | OutOfStep

  class RecordScanner {
    const plans: seq<Plan>
    const window: PayloadWindow
    const world: ArchiveWorld

    var processed: set<LibId>
    var openArchive: Option<(ArchivePath, Manifest)>
    var scanned: nat
    var skipped: nat

    ghost const reusedIds: set<LibId>
    ghost const reused: nat
    ghost var done: set<(nat, nat)>
    ghost var log: seq<Entry>

    ghost function Standing(): Standing
      reads this, window`submitted
    {
      if !Legal(plans, Blank(reusedIds, reused, window.maxBytes), log) then OutOfStep
      else if Books() != Replayed(plans, Blank(reusedIds, reused, window.maxBytes), log) then OutOfStep
      else if OpenedAsPlanned(plans, openArchive) then InStep
      else Adrift
    }

    ghost function Books(): Ledger
      reads this, window`submitted
    {
      Ledger(processed, scanned, skipped, done, window.submitted, window.maxBytes)
    }

    /** The right archive is open, and the counters and sets are those of the entries made so far. */
    ghost predicate Scanning()
      reads this, window`submitted
    {
      Standing().InStep?
    }

    ghost function Now(): Look
      reads world, window.writer.store`faults
    {
      Look(world.history, world.files, world.faults, Strikes())
    }

    /** Payloads read and not handed to the window. */
    ghost function Unread(): int
      reads world`history, window`submitted
    {
      Extractions(world.history) - |window.submitted|
    }

    ghost function Strikes(): nat
      reads world`faults, window.writer.store`faults
    {
      world.faults + window.writer.store.faults
    }

    ghost function Excuse(strikes: nat): Excuse
      reads world`faults, window.writer.store`faults, window`submitted, window.writer
    {
      if Strikes() > strikes then Faulted else if window.Stuck() then BudgetExceeded else Unexcused
    }

    constructor (plans: seq<Plan>, window: PayloadWindow, world: ArchiveWorld, reusedIds: set<LibId>, reused: nat)
      requires window.submitted == []
      ensures Scanning() && done == {} && fresh(this)
      ensures this.plans == plans && this.window == window && this.world == world
      ensures this.reusedIds == reusedIds && this.reused == reused
    {
      this.plans, this.window, this.world := plans, window, world;
      processed, openArchive, scanned, skipped := reusedIds, None, reused, 0;
      this.reusedIds, this.reused, done, log := reusedIds, reused, {}, [];
    }

    /** Opens the archive of a plan and checks that its manifest is still the planned one. */
    method OpenArchive(info: ArchiveInfo) returns (ok: bool)
      requires window.Bounded() && window.Tracked() && window.Writing()
      modifies this`openArchive
      modifies window`queue, window`inFlightBytes, window`parsedFb2, window`added, window`updated, window`drained,
               window`dropped
      modifies window.writer`work, window.writer`written, window.writer`log, window.writer.stats
      modifies window.writer.store`coverFiles, window.writer.store`faults, world
      ensures ok ==>
        window.writer.store.faults == old(window.writer.store.faults) && world.refusals == old(world.refusals)
      ensures ok ==> Unread() == old(Unread())
      ensures window.Bounded() && window.Tracked() && window.writer.RollbackReady()
      ensures ok ==>
        window.Writing() && openArchive == Some((info.path, info.manifest)) && |window.queue| < window.maxInFlight
      ensures Browsed(old(Now()), Now())
      ensures !ok ==> !Excuse(old(Strikes())).Unexcused? || !ArchiveTrue(info, old(world.files))
    {
      ok := window.DrainAll();
      if !ok { return; }
      ghost var h := world.history;
      var found := world.Read(info.path, Opening);
      ExtractedNext(h, Moment(world.files, Purpose.Opening));
      if found.None? || found.value.manifest != info.manifest { return false; }
      openArchive := Some((info.path, info.manifest));
    }

    /** Room for one more payload, with the right archive open. */
    method Ready(info: ArchiveInfo) returns (ok: bool)
      requires window.Bounded() && window.Tracked() && window.Writing()
      requires openArchive.Some? && openArchive.value.0 == info.path ==> openArchive.value.1 == info.manifest
      modifies this`openArchive
      modifies window`queue, window`inFlightBytes, window`parsedFb2, window`added, window`updated, window`drained,
               window`dropped
      modifies window.writer`work, window.writer`written, window.writer`log, window.writer.stats
      modifies window.writer.store`coverFiles, window.writer.store`faults, world
      ensures ok ==>
        window.writer.store.faults == old(window.writer.store.faults) && world.refusals == old(world.refusals)
      ensures ok ==> Unread() == old(Unread())
      ensures window.Bounded() && window.Tracked() && window.writer.RollbackReady()
      ensures ok ==>
        window.Writing() && openArchive == Some((info.path, info.manifest)) && |window.queue| < window.maxInFlight
      ensures Browsed(old(Now()), Now())
      ensures !ok ==> !Excuse(old(Strikes())).Unexcused? || !ArchiveTrue(info, old(world.files))
    {
      ok := window.MakeRoom();
      if ok && (openArchive.None? || openArchive.value.0 != info.path) { ok := OpenArchive(info); }
    }

    /** Reads one payload from the open archive. */
    method Extract() returns (ok: bool)
      modifies world
      ensures ok ==> world.refusals == old(world.refusals)
      ensures Browsed(old(Now()), Now())
      ensures !ok ==> world.faults > old(world.faults)
      ensures Extractions(world.history) == Extractions(old(world.history)) + 1
    {
      world.Look(Extracting);
      ExtractedNext(old(world.history), Moment(world.files, Extracting));
      var damaged := world.Strike();
      ok := !damaged;
    }

    /** The checks on one active record before its payload is read. */
    method Inspect(p: Plan, j: nat) returns (ok: bool)
      requires window.Bounded() && window.Tracked() && window.Writing() && j < |p.parsed| && p.archive.Some?
      requires openArchive.Some? && openArchive.value.0 == p.archive.value.path ==>
        openArchive.value.1 == p.archive.value.manifest
      modifies this`openArchive
      modifies window`queue, window`inFlightBytes, window`parsedFb2, window`added, window`updated, window`drained,
               window`dropped
      modifies window.writer`work, window.writer`written, window.writer`log, window.writer.stats
      modifies window.writer.store`coverFiles, window.writer.store`faults, world
      ensures ok ==>
        window.writer.store.faults == old(window.writer.store.faults) && world.refusals == old(world.refusals)
      ensures ok ==> Unread() == old(Unread())
      ensures window.Bounded() && window.Tracked() && window.writer.RollbackReady()
      ensures ok ==> window.Writing() && |window.queue| < window.maxInFlight && PayloadAllowed(p, j, window.maxBytes)
      ensures ok ==> openArchive == Some((p.archive.value.path, p.archive.value.manifest))
      ensures Browsed(old(Now()), Now())
      ensures !ok ==> !Excuse(old(Strikes())).Unexcused? || !RecordRunnable(p, j, old(world.files), window.maxBytes)
    {
      var r, info := p.parsed[j], p.archive.value;
      ok := Ready(info);
      if !ok { return; }
      if r.entry !in info.manifest { return false; }
      var size := info.manifest[r.entry].size;
      if r.declaredSize != 0 && size != r.declaredSize { return false; }
      ok := size <= window.maxBytes;
    }

    /** Reads the payload and hands it to the window. */
    method Hand(p: Plan, j: nat) returns (ok: bool, task: Task)
      requires window.Bounded() && window.Tracked() && window.Writing() && |window.queue| < window.maxInFlight
      requires PayloadAllowed(p, j, window.maxBytes)
      modifies window`submitted
      modifies window`queue, window`inFlightBytes, window`parsedFb2, window`added, window`updated, window`drained,
               window`dropped
      modifies window.writer`work, window.writer`written, window.writer`log, window.writer.stats
      modifies window.writer.store`coverFiles, window.writer.store`faults, world
      ensures ok ==>
        window.writer.store.faults == old(window.writer.store.faults) && world.refusals == old(world.refusals)
      ensures ok ==> Unread() == old(Unread())
      ensures window.Bounded() && window.Tracked() && window.writer.RollbackReady()
      ensures task == Task(p.name, p.parsed[j], p.archive.value.manifest[p.parsed[j].entry])
      ensures ok ==> window.Writing()
      ensures window.submitted == if ok then old(window.submitted) + [task] else old(window.submitted)
      ensures Browsed(old(Now()), Now())
      ensures !ok ==> !Excuse(old(Strikes())).Unexcused?
    {
      var r, info := p.parsed[j], p.archive.value;
      task := Task(p.name, r, info.manifest[r.entry]);
      var size := info.manifest[r.entry].size;
      ok := window.MakeBytes(size);
      if !ok { return; }
      ok := Extract();
      if !ok { return; }
      window.Push(task, size);
    }

    /** Admits one active record's payload to the window. */
    method Submit(p: Plan, j: nat) returns (ok: bool, task: Task)
      requires window.Status().Flowing? && j < |p.parsed| && IsActive(p.parsed[j]) && Reparsed(p) && p.archive.Some?
      requires openArchive.Some? && openArchive.value.0 == p.archive.value.path ==>
        openArchive.value.1 == p.archive.value.manifest
      modifies this`openArchive, window`submitted
      modifies window`queue, window`inFlightBytes, window`parsedFb2, window`added, window`updated, window`drained,
               window`dropped
      modifies window.writer`work, window.writer`written, window.writer`log, window.writer.stats
      modifies window.writer.store`coverFiles, window.writer.store`faults, world
      ensures ok ==>
        window.writer.store.faults == old(window.writer.store.faults) && world.refusals == old(world.refusals)
      ensures ok ==> Unread() == old(Unread())
      ensures !window.Status().Lost?
      ensures !ok ==> window.submitted == old(window.submitted)
      ensures ok ==>
        window.Status().Flowing? && window.submitted == old(window.submitted) + [task] && TaskOf(p, j, task)
      ensures ok ==> openArchive == Some((p.archive.value.path, p.archive.value.manifest))
      ensures ok ==> TaskAllowed(task, window.maxBytes) && PayloadAllowed(p, j, window.maxBytes)
      ensures Browsed(old(Now()), Now())
      ensures !ok ==> !Excuse(old(Strikes())).Unexcused? || !RecordRunnable(p, j, old(world.files), window.maxBytes)
    {
      task := Task(p.name, p.parsed[j], Book(0, [], None));
      ok := Inspect(p, j);
      if !ok { return; }
      ghost var before := Now();
      ok, task := Hand(p, j);
      BrowsedTwice(old(Now()), before, Now());
    }

    /** A deletion or an unsupported format: counted, nothing submitted. */
    method PassOver(i: nat, j: nat)
      requires Scanning() && (i, j) in Positions(plans) && (i, j) !in done && !IsActive(plans[i].parsed[j])
      modifies this`scanned, this`skipped, this`done, this`log
      ensures Scanning() && done == old(done) + {(i, j)}
    {
      PassedStep(plans, Blank(reusedIds, reused, window.maxBytes), log, (i, j));
      scanned, skipped := scanned + 1, skipped + if plans[i].parsed[j].deleted then 0 else 1;
      done, log := done + {(i, j)}, log + [Passed((i, j))];
    }

    /** Accounts for a payload that has just entered the window. */
    method Account(i: nat, j: nat, task: Task, ghost before: Ledger)
      requires OpenedAsPlanned(plans, openArchive) && Legal(plans, Blank(reusedIds, reused, window.maxBytes), log)
      requires before == Replayed(plans, Blank(reusedIds, reused, window.maxBytes), log)
      requires Books() == before.(submitted := before.submitted + [task])
      requires (i, j) in Positions(plans) && (i, j) !in done && TaskOf(plans[i], j, task)
        && task.record.libId !in processed
      requires TaskAllowed(task, window.maxBytes)
      modifies this`scanned, this`processed, this`done, this`log
      ensures Scanning() && done == old(done) + {(i, j)}
    {
      LegalStep(plans, Blank(reusedIds, reused, window.maxBytes), log, Submitted((i, j), task));
      scanned, processed := scanned + 1, processed + {task.record.libId};
      done, log := done + {(i, j)}, log + [Submitted((i, j), task)];
    }

    /** Submits the payload of a planned record. */
    method SubmitPlanned(i: nat, j: nat) returns (ok: bool, task: Task)
      requires OpenedAsPlanned(plans, openArchive) && window.Status().Flowing? && ArchivesAgree(plans)
      requires (i, j) in Positions(plans) && IsActive(plans[i].parsed[j])
      modifies this`openArchive, window`submitted
      modifies window`queue, window`inFlightBytes, window`parsedFb2, window`added, window`updated, window`drained,
               window`dropped
      modifies window.writer`work, window.writer`written, window.writer`log, window.writer.stats
      modifies window.writer.store`coverFiles, window.writer.store`faults, world
      ensures ok ==>
        window.writer.store.faults == old(window.writer.store.faults) && world.refusals == old(world.refusals)
      ensures ok ==> Unread() == old(Unread())
      ensures !window.Status().Lost?
      ensures !ok ==> Books() == old(Books())
      ensures ok ==>
        OpenedAsPlanned(plans, openArchive) && window.Status().Flowing?
          && Books() == old(Books()).(submitted := old(Books()).submitted + [task])
      ensures ok ==>
        TaskOf(plans[i], j, task) && TaskAllowed(task, window.maxBytes) && PayloadAllowed(plans[i], j, window.maxBytes)
      ensures Browsed(old(Now()), Now())
      ensures !ok ==>
        !Excuse(old(Strikes())).Unexcused? || !RecordRunnable(plans[i], j, old(world.files), window.maxBytes)
    {
      PlannedOpen(plans, i, j);
      ok, task := Submit(plans[i], j);
    }

    /** An active record: refused if its LibId is taken, otherwise submitted and accounted for. */
    method ScanActive(i: nat, j: nat) returns (ok: bool)
      requires Scanning() && window.Status().Flowing? && ArchivesAgree(plans)
      requires (i, j) in Positions(plans) && (i, j) !in done && IsActive(plans[i].parsed[j])
      modifies this, window`submitted
      modifies window`queue, window`inFlightBytes, window`parsedFb2, window`added, window`updated, window`drained,
               window`dropped
      modifies window.writer`work, window.writer`written, window.writer`log, window.writer.stats
      modifies window.writer.store`coverFiles, window.writer.store`faults, world
      ensures ok ==>
        window.writer.store.faults == old(window.writer.store.faults) && world.refusals == old(world.refusals)
      ensures ok ==> Unread() == old(Unread())
      ensures !window.Status().Lost?
      ensures ok ==> window.Status().Flowing? && Scanning() && done == old(done) + {(i, j)}
      ensures ok ==> plans[i].parsed[j].libId !in old(processed) && PayloadAllowed(plans[i], j, window.maxBytes)
      ensures !Standing().OutOfStep?
      ensures Browsed(old(Now()), Now())
      ensures !ok ==> !Excuse(old(Strikes())).Unexcused? || plans[i].parsed[j].libId in old(processed)
                      || !RecordRunnable(plans[i], j, old(world.files), window.maxBytes)
    {
      if plans[i].parsed[j].libId in processed { return false; }
      ghost var books := Books();
      assert OpenedAsPlanned(plans, openArchive) && Legal(plans, Blank(reusedIds, reused, window.maxBytes), log);
      var task;
      ok, task := SubmitPlanned(i, j);
      if !ok { return; }
      ghost var there := Now();
      Account(i, j, task, books);
      assert Now() == there;
    }

    /** One record of a reparsed segment. */
    method ScanRecord(i: nat, j: nat) returns (ok: bool)
      requires Scanning() && window.Status().Flowing? && ArchivesAgree(plans)
      requires (i, j) in Positions(plans) && (i, j) !in done
      modifies this, window`submitted
      modifies window`queue, window`inFlightBytes, window`parsedFb2, window`added, window`updated, window`drained,
               window`dropped
      modifies window.writer`work, window.writer`written, window.writer`log, window.writer.stats
      modifies window.writer.store`coverFiles, window.writer.store`faults, world
      ensures ok ==>
        window.writer.store.faults == old(window.writer.store.faults) && world.refusals == old(world.refusals)
      ensures ok ==> Unread() == old(Unread())
      ensures !window.Status().Lost?
      ensures ok ==> window.Status().Flowing? && Scanning() && done == old(done) + {(i, j)}
      ensures !Standing().OutOfStep?
      ensures Browsed(old(Now()), Now())
      ensures !ok ==>
        !Excuse(old(Strikes())).Unexcused? || !Runnable(plans, reusedIds, old(world.files), window.maxBytes)
    {
      var cancelled := world.Strike();
      if cancelled { return false; }
      if IsActive(plans[i].parsed[j]) {
        if Runnable(plans, reusedIds, world.files, window.maxBytes) {
          RunnableNext(plans, reusedIds, reused, window.maxBytes, log, world.files, (i, j));
        }
        ok := ScanActive(i, j);
      } else {
        PassOver(i, j);
        ok := true;
      }
    }

    /** All the records of one reparsed segment. */
    method ExecutePlan(i: nat) returns (ok: bool)
      requires Scanning() && window.Status().Flowing? && ArchivesAgree(plans)
      requires i < |plans| && Reparsed(plans[i]) && done !! Column(i, |plans[i].parsed|)
      modifies this, window`submitted
      modifies window`queue, window`inFlightBytes, window`parsedFb2, window`added, window`updated, window`drained,
               window`dropped
      modifies window.writer`work, window.writer`written, window.writer`log, window.writer.stats
      modifies window.writer.store`coverFiles, window.writer.store`faults, world
      ensures ok ==>
        window.writer.store.faults == old(window.writer.store.faults) && world.refusals == old(world.refusals)
      ensures ok ==> Unread() == old(Unread())
      ensures !window.Status().Lost?
      ensures ok ==> window.Status().Flowing? && Scanning() && done == old(done) + Column(i, |plans[i].parsed|)
      ensures !Standing().OutOfStep?
      ensures Browsed(old(Now()), Now())
      ensures !ok ==>
        !Excuse(old(Strikes())).Unexcused? || !Runnable(plans, reusedIds, old(world.files), window.maxBytes)
    {
      assert Column(i, 0) == {};
      for j := 0 to |plans[i].parsed|
        invariant Scanning() && window.Status().Flowing?
        invariant done == old(done) + Column(i, j)
        invariant window.writer.store.faults == old(window.writer.store.faults) && world.refusals == old(world.refusals)
        invariant Unread() == old(Unread())
        invariant Browsed(old(Now()), Now())
      {
        ColumnStep(i, j);
        assert (i, j) in Column(i, |plans[i].parsed|);
        ghost var before := Now();
        ok := ScanRecord(i, j);
        BrowsedTwice(old(Now()), before, Now());
        if !ok { return; }
      }
      return true;
    }

    /** The next segment in execution order. */
    method ExecuteNext(order: seq<nat>, a: nat) returns (ok: bool)
      requires Scanning() && window.Status().Flowing? && ArchivesAgree(plans)
      requires IsExecutionOrder(plans, order) && a < |order| && done == ColumnsOf(plans, order[..a])
      modifies this, window`submitted
      modifies window`queue, window`inFlightBytes, window`parsedFb2, window`added, window`updated, window`drained,
               window`dropped
      modifies window.writer`work, window.writer`written, window.writer`log, window.writer.stats
      modifies window.writer.store`coverFiles, window.writer.store`faults, world
      ensures ok ==>
        window.writer.store.faults == old(window.writer.store.faults) && world.refusals == old(world.refusals)
      ensures ok ==> Unread() == old(Unread())
      ensures !window.Status().Lost?
      ensures ok ==> window.Status().Flowing? && Scanning() && done == ColumnsOf(plans, order[..a + 1])
      ensures !Standing().OutOfStep?
      ensures Browsed(old(Now()), Now())
      ensures !ok ==>
        !Excuse(old(Strikes())).Unexcused? || !Runnable(plans, reusedIds, old(world.files), window.maxBytes)
    {
      var cancelled := world.Strike();
      if cancelled { return false; }
      ColumnsStep(plans, order, a);
      ok := ExecutePlan(order[a]);
    }

    /** Every reparsed segment, in execution order. */
    method ExecuteAll(order: seq<nat>) returns (ok: bool)
      requires Scanning() && window.Status().Flowing? && ArchivesAgree(plans)
      requires done == {} && IsExecutionOrder(plans, order)
      modifies this, window`submitted
      modifies window`queue, window`inFlightBytes, window`parsedFb2, window`added, window`updated, window`drained,
               window`dropped
      modifies window.writer`work, window.writer`written, window.writer`log, window.writer.stats
      modifies window.writer.store`coverFiles, window.writer.store`faults, world
      ensures ok ==>
        window.writer.store.faults == old(window.writer.store.faults) && world.refusals == old(world.refusals)
      ensures ok ==> Unread() == old(Unread())
      ensures !window.Status().Lost?
      ensures ok ==> window.Status().Flowing? && Scanning() && done == Positions(plans)
      ensures !Standing().OutOfStep?
      ensures Browsed(old(Now()), Now())
      ensures !ok ==>
        !Excuse(old(Strikes())).Unexcused? || !Runnable(plans, reusedIds, old(world.files), window.maxBytes)
    {
      assert ColumnsOf(plans, order[..0]) == {};
      for a := 0 to |order|
        invariant Scanning() && window.Status().Flowing?
        invariant done == ColumnsOf(plans, order[..a])
        invariant window.writer.store.faults == old(window.writer.store.faults) && world.refusals == old(world.refusals)
        invariant Unread() == old(Unread())
        invariant Browsed(old(Now()), Now())
      {
        ghost var before := Now();
        ok := ExecuteNext(order, a);
        BrowsedTwice(old(Now()), before, Now());
        if !ok { return; }
      }
      assert order[..|order|] == order;
      ColumnsAreAll(plans, order);
      return true;
    }

    /** The payloads still in flight when every segment was scanned. */
    method DrainRest() returns (ok: bool)
      requires Scanning() && window.Status().Flowing?
      modifies window`queue, window`inFlightBytes, window`parsedFb2, window`added, window`updated, window`drained,
               window`dropped
      modifies window.writer`work, window.writer`written, window.writer`log, window.writer.stats
      modifies window.writer.store`coverFiles, window.writer.store`faults
      ensures ok ==> window.writer.store.faults == old(window.writer.store.faults)
      ensures !window.Status().Lost?
      ensures ok ==> window.Status().Flowing? && Scanning() && window.queue == []
      ensures Scanning()
      ensures Browsed(old(Now()), Now())
      ensures !ok ==> !Excuse(old(Strikes())).Unexcused?
    {
      ok := window.DrainAll();
    }

    /** Every reparsed segment, then the payloads still in flight. */
    method ExecuteAndDrain(order: seq<nat>) returns (ok: bool)
      requires Scanning() && window.Status().Flowing? && ArchivesAgree(plans)
      requires done == {} && IsExecutionOrder(plans, order)
      modifies this, window`submitted
      modifies window`queue, window`inFlightBytes, window`parsedFb2, window`added, window`updated, window`drained,
               window`dropped
      modifies window.writer`work, window.writer`written, window.writer`log, window.writer.stats
      modifies window.writer.store`coverFiles, window.writer.store`faults, world
      ensures ok ==>
        window.writer.store.faults == old(window.writer.store.faults) && world.refusals == old(world.refusals)
      ensures ok ==> Unread() == old(Unread())
      ensures !window.Status().Lost?
      ensures ok ==> window.Status().Flowing? && Scanning() && window.queue == [] && done == Positions(plans)
      ensures !Standing().OutOfStep?
      ensures Browsed(old(Now()), Now())
      ensures !ok ==>
        !Excuse(old(Strikes())).Unexcused? || !Runnable(plans, reusedIds, old(world.files), window.maxBytes)
    {
      ok := ExecuteAll(order);
      if !ok { return; }
      ghost var before := Now();
      ok := DrainRest();
      BrowsedTwice(old(Now()), before, Now());
    }

    /** The whole execution.  On failure the window is emptied without writing. */
    method Execute(order: seq<nat>) returns (ok: bool)
      requires Scanning() && window.Status().Flowing? && ArchivesAgree(plans)
      requires done == {} && IsExecutionOrder(plans, order)
      modifies this, window`submitted
      modifies window`queue, window`inFlightBytes, window`parsedFb2, window`added, window`updated, window`drained,
               window`dropped
      modifies window.writer`work, window.writer`written, window.writer`log, window.writer.stats
      modifies window.writer.store`coverFiles, window.writer.store`faults, world
      ensures ok ==>
        window.writer.store.faults == old(window.writer.store.faults) && world.refusals == old(world.refusals)
      ensures ok ==> Unread() == old(Unread())
      ensures window.queue == [] && window.inFlightBytes == 0 && window.writer.RollbackReady()
      ensures multiset(window.submitted) == multiset(window.drained) + multiset(window.dropped)
      ensures ok ==> window.Status().Flowing? && Scanning() && done == Positions(plans)
      ensures !Standing().OutOfStep?
      ensures Browsed(old(Now()), Now())
      ensures !ok ==>
        !Excuse(old(Strikes())).Unexcused? || !Runnable(plans, reusedIds, old(world.files), window.maxBytes)
    {
      ok := ExecuteAndDrain(order);
      if ok {
        EmptyWindow(window.submitted, window.drained, window.dropped, window.queue);
      } else {
        window.DrainRemaining();
      }
    }
  }

  lemma EmptyWindow(submitted: seq<Task>, drained: seq<Task>, dropped: seq<Task>, queue: seq<InFlight>)
    requires ExactlyOnce(submitted, drained, dropped, queue) && queue == []
    ensures multiset(submitted) == multiset(drained) + multiset(dropped) && Reserved(queue) == 0
  {
    assert Tasks(queue) == [];
  }

  ghost function ColumnsOf(plans: seq<Plan>, order: seq<nat>): set<(nat, nat)> {
    set d | d in Positions(plans) && d.0 in order
  }

  lemma ColumnsStep(plans: seq<Plan>, order: seq<nat>, a: nat)
    requires IsExecutionOrder(plans, order) && a < |order|
    ensures var i := order[a];
      && ColumnsOf(plans, order[..a + 1]) == ColumnsOf(plans, order[..a]) + Column(i, |plans[i].parsed|)
      && ColumnsOf(plans, order[..a]) !! Column(i, |plans[i].parsed|)
  {
    var i := order[a];
    assert order[..a + 1] == order[..a] + [i];
    assert i !in order[..a];
    forall d ensures d in ColumnsOf(plans, order[..a + 1]) <==> d in ColumnsOf(plans, order[..a]) + Column(i, |plans[i].parsed|) {}
  }

  lemma ColumnsAreAll(plans: seq<Plan>, order: seq<nat>)
    requires IsExecutionOrder(plans, order)
    ensures ColumnsOf(plans, order) == Positions(plans)
  {
    forall d | d in Positions(plans) ensures d.0 in order { assert Reparsed(plans[d.0]); }
  }

  // ---------------------------------------------------------------- what a finished execution means

  /** After a finished execution the drained tasks are exactly the planned ones and the
    * duplicate check has passed. */
  lemma FinishedTasksFit(c: Catalog, plans: seq<Plan>, reusedIds: set<LibId>, processed: set<LibId>,
                         submitted: seq<Task>, drained: seq<Task>)
    requires SubmittedFor(plans, reusedIds, processed, Positions(plans), submitted)
    requires multiset(submitted) == multiset(drained)
    requires reusedIds == ReusedIds(c, plans)
    ensures TasksFit(plans, drained) && PassesDuplicateCheck(c, plans)
  {
    PartKeepsDistinct(submitted, drained);
    forall a | 0 <= a < |drained| ensures Planned(plans, drained[a]) {
      assert drained[a] in multiset(submitted);
    }
    forall i, j | 0 <= i < |plans| && Reparsed(plans[i]) && 0 <= j < |plans[i].parsed| && IsActive(plans[i].parsed[j])
      ensures exists a :: 0 <= a < |drained| && TaskOf(plans[i], j, drained[a])
    {
      assert ActiveIn(plans, Positions(plans), (i, j));
      assert HasTask(plans, submitted, (i, j));
      var b :| 0 <= b < |submitted| && TaskOf(plans[i], j, submitted[b]);
      assert submitted[b] in multiset(drained);
    }
    forall i, j, i', j' | ActiveAt(plans, i, j) && ActiveAt(plans, i', j') ensures Apart(plans, i, j, i', j') {
      assert ActiveIn(plans, Positions(plans), (i, j)) && ActiveIn(plans, Positions(plans), (i', j'));
      assert IdAt(plans, (i, j)) == plans[i].parsed[j].libId;
    }
    forall i, j | ActiveAt(plans, i, j) ensures plans[i].parsed[j].libId !in ReusedIds(c, plans) {
      assert ActiveIn(plans, Positions(plans), (i, j));
      assert IdAt(plans, (i, j)) == plans[i].parsed[j].libId;
    }
  }

  /** The counters of a finished scan account for every record of the snapshot: total =
    * scanned = reused + parsed + skipped + deletions of the reparsed segments. */
  lemma FinishedCounts(plans: seq<Plan>, scanned: nat, skipped: nat, submitted: seq<Task>, drained: seq<Task>)
    requires Counted(plans, SumOver(plans, ReusedCount), scanned, skipped, Positions(plans), submitted)
    requires multiset(submitted) == multiset(drained)
    requires forall i :: 0 <= i < |plans| && Reparsed(plans[i]) ==> plans[i].total == |plans[i].parsed|
    ensures SumOver(plans, ListedCount) == scanned && skipped == SumOver(plans, ParsedSkips)
    ensures scanned == SumOver(plans, ReusedCount) + |drained| + skipped + SumOver(plans, ParsedDeletions)
  {
    assert |submitted| == |multiset(submitted)| == |multiset(drained)| == |drained|;
    PositionCount(plans);
    AmongCount(plans);
    CountsAddUp(plans);
  }
}
