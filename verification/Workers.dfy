/** The row renderers: how workers divide the rows of a window, what an abort leaves behind, and every
    interleaving of their steps. */
module Workers {
  import opened Arith
  import opened HalfFloat
  import opened PixelRows
  import opened HostImage

  const ROWS_PER_ABORT_CHECK := 16

  // ----- The partition -----

  /** `std::max(1u, threadCount)` */
  function WorkerCount(threadCount: nat): (r: nat)
    ensures r >= 1
  {
    if threadCount == 0 then 1 else threadCount
  }

  function RowsPerWorker(height: nat, threadCount: nat): nat {
    (height + WorkerCount(threadCount) - 1) / WorkerCount(threadCount)
  }

  function First(height: nat, threadCount: nat, threadId: nat): nat { threadId * RowsPerWorker(height, threadCount) }

  function Last(height: nat, threadCount: nat, threadId: nat): nat {
    Min(height, First(height, threadCount, threadId) + RowsPerWorker(height, threadCount))
  }

  predicate InBlock(height: nat, threadCount: nat, threadId: nat, row: int) {
    First(height, threadCount, threadId) <= row < Last(height, threadCount, threadId)
  }

  /** No row belongs to two workers. */
  lemma BlocksDisjoint(height: nat, threadCount: nat, a: nat, b: nat, row: int)
    requires a < b
    ensures !(InBlock(height, threadCount, a, row) && InBlock(height, threadCount, b, row))
  {
    hide RowsPerWorker;
    var k := RowsPerWorker(height, threadCount);
    Grows(a + 1, b, k);
    assert (a + 1) * k == a * k + k;
  }

  /** Every row belongs to a worker. */
  lemma BlocksCover(height: nat, threadCount: nat, row: nat) returns (worker: nat)
    requires row < height
    ensures worker < WorkerCount(threadCount) && InBlock(height, threadCount, worker, row)
  {
    var n, k := WorkerCount(threadCount), RowsPerWorker(height, threadCount);
    Ceiling(height, n);
    hide RowsPerWorker;
    worker := row / k;
    assert row == worker * k + row % k;
    if worker >= n { Grows(n, worker, k); }
  }

  lemma Ceiling(height: nat, n: nat)
    requires n >= 1
    ensures (height + n - 1) / n * n >= height && (height > 0 ==> (height + n - 1) / n >= 1)
  {
    var q := (height + n - 1) / n;
    assert height + n - 1 == q * n + (height + n - 1) % n;
  }

  /** The rows are shared evenly: no block is longer than it has to be, so with one row fewer in a block the
      workers could not hold all rows. */
  lemma BlocksEven(height: nat, threadCount: nat, t: nat)
    ensures var longest := Last(height, threadCount, t) - First(height, threadCount, t);
      longest > 0 ==> (longest - 1) * WorkerCount(threadCount) < height
  {
    var n, k := WorkerCount(threadCount), RowsPerWorker(height, threadCount);
    var longest := Last(height, threadCount, t) - First(height, threadCount, t);
    assert height + n - 1 == k * n + (height + n - 1) % n;
    hide RowsPerWorker, WorkerCount;
    if longest > 0 { Grows(longest, k, n); }
    assert (longest - 1) * n == longest * n - n;
  }

  // ----- One worker -----

  /** Where a worker stops that aborts at its `k`-th check: after whole chunks, or at its last row. */
  function StopsAt(first: nat, last: nat, aborts: seq<bool>): (r: nat)
    requires first <= last
    ensures first <= r <= last
    ensures r == last || (r - first) % ROWS_PER_ABORT_CHECK == 0
    decreases last - first
  {
    if first == last || (aborts != [] && aborts[0]) then first
    else
      var count := Min(ROWS_PER_ABORT_CHECK, last - first);
      StopsAt(first + count, last, if aborts == [] then [] else aborts[1..])
  }

  /** Without an abort a worker finishes its block. */
  lemma {:induction false} FinishesUnaborted(first: nat, last: nat, aborts: seq<bool>)
    requires first <= last && forall i :: 0 <= i < |aborts| ==> !aborts[i]
    ensures StopsAt(first, last, aborts) == last
    decreases last - first
  {
    if first < last {
      var next := first + Min(ROWS_PER_ABORT_CHECK, last - first);
      FinishesUnaborted(next, last, if aborts == [] then [] else aborts[1..]);
    }
  }

  /** A worker obeys the first abort it is told of, at the row where it asked: it renders no chunk after it
      and every chunk before it. */
  lemma {:induction false} StopsAtFirstAbort(first: nat, last: nat, aborts: seq<bool>, k: nat)
    requires first <= last && k < |aborts| && aborts[k] && forall i :: 0 <= i < k ==> !aborts[i]
    ensures StopsAt(first, last, aborts) == Min(last, first + ROWS_PER_ABORT_CHECK * k)
    decreases k
  {
    if first < last && k > 0 {
      StopsAtFirstAbort(first + Min(ROWS_PER_ABORT_CHECK, last - first), last, aborts[1..], k - 1);
    }
  }

  /** Painting rows and then the next rows is painting them all. */
  lemma PaintedJoin(now: seq<Byte>, middle: seq<Byte>, before: seq<Byte>, t: Target, first: nat, split: nat, last: nat,
                    rows: seq<seq<Float32>>, ops: Arithmetic)
    requires t.Fits(|before|) && Renderable(t, rows) && t.Apart() && first <= split <= last <= t.height
    requires Painted(middle, before, t, first, split, rows, ops) && Painted(now, middle, t, split, last, rows, ops)
    ensures Painted(now, before, t, first, last, rows, ops)
  {
    hide Encoded;
    forall y: nat, k: nat | first <= y < last && t.InRow(y, k)
      ensures now[k] == Encoded(t, rows[y], ops)[k - t.Start(y)]
    {
      if y < split {
        assert middle[k] == Encoded(t, rows[y], ops)[k - t.Start(y)];
        forall z: nat | split <= z < last
          ensures !t.InRow(z, k)
        {
        }
      }
    }
  }

  /** Painting over a buffer that differs only in rows about to be painted is painting the original. */
  lemma PaintedOver(now: seq<Byte>, middle: seq<Byte>, before: seq<Byte>, t: Target, rows: seq<seq<Float32>>,
                    ops: Arithmetic)
    requires t.Fits(|before|) && Renderable(t, rows) && |middle| == |before|
    requires forall k: nat :: k < |middle| && (forall y: nat :: y < t.height ==> !t.InRow(y, k)) ==>
      middle[k] == before[k]
    requires Painted(now, middle, t, 0, t.height, rows, ops)
    ensures Painted(now, before, t, 0, t.height, rows, ops)
  {
    hide Encoded;
  }

  /** The row renderers' common loop. `rows` is what the renderer's `writeRows` puts in each row of the
      view, and `aborts` is what the host answers at each check; past its end the host says no. */
  method MultiThreadFunction(destination: HostDestinationImage, rows: seq<seq<Float32>>, threadId: nat,
                             threadCount: nat,
                             aborts: seq<bool>, ops: Arithmetic) returns (stop: nat)
    requires destination.Valid() && Renderable(destination.At(), rows)
    modifies destination.memory, destination.storage
    ensures var height := destination.view.height;
      var first, last := First(height, threadCount, threadId), Last(height, threadCount, threadId);
      stop == if first <= last then StopsAt(first, last, aborts) else first
    ensures var height := destination.view.height;
      && (stop <= height ==>
            Painted(destination.memory[..], old(destination.memory[..]), destination.At(),
                    First(height, threadCount, threadId), stop, rows, ops))
      && (stop > height ==> destination.memory[..] == old(destination.memory[..]))
  {
    var height := destination.view.height;
    var workers := WorkerCount(threadCount);
    var rowsPerWorker := (height + workers - 1) / workers;
    var first := threadId * rowsPerWorker;
    var last := Min(height, first + rowsPerWorker);
    hide Painted, RowsWithin, StopsAt;
    stop := first;
    if first <= last { stop := RenderChunks(destination, rows, first, last, aborts, ops); }
  }

  /** The loop over chunks of rows, with an abort check before each. */
  method RenderChunks(destination: HostDestinationImage, rows: seq<seq<Float32>>, first: nat, last: nat,
                      aborts: seq<bool>, ops: Arithmetic)
    returns (stop: nat)
    requires destination.Valid() && Renderable(destination.At(), rows) && first <= last <= destination.view.height
    modifies destination.memory, destination.storage
    ensures stop == StopsAt(first, last, aborts)
    ensures Painted(destination.memory[..], old(destination.memory[..]), destination.At(), first, stop, rows, ops)
  {
    hide Painted, RowsWithin, StopsAt;
    ghost var t, before := destination.At(), destination.memory[..];
    NothingPainted(before, t, first, first, rows, ops);
    var row, checks := first, aborts;
    while row < last
      invariant first <= row <= last
      invariant StopsAt(row, last, checks) == StopsAt(first, last, aborts)
      invariant Painted(destination.memory[..], before, t, first, row, rows, ops)
    {
      NextChunk(row, last, checks);
      if checks != [] && checks[0] { return row; }
      var count := Min(ROWS_PER_ABORT_CHECK, last - row);
      ghost var middle := destination.memory[..];
      destination.RenderRows(row, count, rows, ops);
      PaintedJoin(destination.memory[..], middle, before, t, first, row, row + count, rows, ops);
      if checks != [] { checks := checks[1..]; }
      row := row + count;
    }
    NextChunk(row, last, checks);
    return row;
  }

  lemma NextChunk(first: nat, last: nat, aborts: seq<bool>)
    requires first <= last
    ensures StopsAt(first, last, aborts) ==
      if first == last || (aborts != [] && aborts[0]) then first
      else StopsAt(first + Min(ROWS_PER_ABORT_CHECK, last - first), last, if aborts == [] then [] else aborts[1..])
  {
  }

  /** The recovery in `renderStMap`: after the host's thread suite failed with any rows of the window
      rendered, one worker renders them again from the top, asking the host before every chunk. Where it
      stops the rest stays as the failed run left it; if it is not aborted, host memory is as if nothing
      had failed. */
  method RecoverSerially(destination: HostDestinationImage, rows: seq<seq<Float32>>, ghost before: seq<Byte>,
                         aborts: seq<bool>, ops: Arithmetic) returns (stop: nat)
    requires destination.Valid() && Renderable(destination.At(), rows) && |before| == destination.memory.Length
    requires forall k: nat ::
      k < |before| && (forall y: nat :: y < destination.At().height ==> !destination.At().InRow(y, k)) ==>
      destination.memory[k] == before[k]
    modifies destination.memory, destination.storage
    ensures stop == StopsAt(0, destination.view.height, aborts)
    ensures Painted(destination.memory[..], old(destination.memory[..]), destination.At(), 0, stop, rows, ops)
    ensures stop == destination.view.height ==>
      Painted(destination.memory[..], before, destination.At(), 0, stop, rows, ops)
  {
    hide Painted, RowsWithin, StopsAt;
    ghost var middle, t := destination.memory[..], destination.At();
    SerialBlock(t.height);
    stop := MultiThreadFunction(destination, rows, 0, 1, aborts, ops);
    if stop == destination.view.height { PaintedOver(destination.memory[..], middle, before, t, rows, ops); }
  }

  lemma SerialBlock(height: nat)
    ensures First(height, 1, 0) == 0 && Last(height, 1, 0) == height
  {
  }

  // ----- Every interleaving -----

  /** Where a worker is: about to ask the host, rendering the rows of a chunk into the view, writing them
      back, or stopped, by an abort or at the end of its block. */
  datatype Phase = AtCheck | Rendering(done: nat) | WritingBack(done: nat) | Stopped(aborted: bool)

  datatype Worker = Worker(row: nat, count: nat, phase: Phase)

  /** `direct` views are host memory; the others are scratch rows. */
  datatype Job<T> = Job(height: nat, threadCount: nat, content: seq<T>, direct: bool)

  datatype State<T> = State(view: seq<T>, host: seq<T>, workers: seq<Worker>)

  ghost predicate Sized<T>(job: Job<T>, s: State<T>) {
    |job.content| == |s.view| == |s.host| == job.height && |s.workers| == WorkerCount(job.threadCount)
  }

  ghost predicate Initial<T>(job: Job<T>, s: State<T>) {
    && Sized(job, s)
    && forall t :: 0 <= t < |s.workers| ==> s.workers[t] == Worker(First(job.height, job.threadCount, t), 0, AtCheck)
  }

  function BlockEnd<T>(job: Job<T>, t: nat): nat { Last(job.height, job.threadCount, t) }

  /** One step of worker `t`; `abort` is what the host answers if asked. */
  ghost function Step<T>(job: Job<T>, s: State<T>, t: nat, abort: bool): (n: State<T>)
    requires t < |s.workers| && |job.content| == |s.view| == |s.host|
    ensures |n.view| == |s.view| && |n.host| == |s.host| && |n.workers| == |s.workers|
  {
    var w := s.workers[t];
    match w.phase
    case Stopped(_) => s
    case AtCheck =>
      var last := BlockEnd(job, t);
      if w.row >= last then s.(workers := s.workers[t := w.(phase := Stopped(false))])
      else if abort then s.(workers := s.workers[t := w.(phase := Stopped(true))])
      else s.(workers := s.workers[t := Worker(w.row, Min(ROWS_PER_ABORT_CHECK, last - w.row), Rendering(0))])
    case Rendering(done) =>
      if done < w.count && w.row + done < |s.host| then
        var y, moved := w.row + done, s.workers[t := w.(phase := Rendering(done + 1))];
        if job.direct then s.(host := s.host[y := job.content[y]], workers := moved)
        else s.(view := s.view[y := job.content[y]], workers := moved)
      else s.(workers := s.workers[t := w.(phase := WritingBack(0))])
    case WritingBack(done) =>
      if done < w.count && w.row + done < |s.host| then
        var y, moved := w.row + done, s.workers[t := w.(phase := WritingBack(done + 1))];
        if job.direct then s.(workers := moved) else s.(host := s.host[y := s.view[y]], workers := moved)
      else s.(workers := s.workers[t := Worker(w.row + w.count, 0, AtCheck)])
  }

  datatype Turn = Turn(worker: nat, abort: bool)

  /** The state after a schedule of turns, in any order. */
  ghost function Execute<T>(job: Job<T>, s: State<T>, schedule: seq<Turn>): (r: State<T>)
    requires Sized(job, s) && forall i :: 0 <= i < |schedule| ==> schedule[i].worker < |s.workers|
    ensures Sized(job, r)
  {
    if schedule == [] then s
    else
      var turn := schedule[|schedule| - 1];
      Step(job, Execute(job, s, schedule[..|schedule| - 1]), turn.worker, turn.abort)
  }

  /** The rows of a worker's block below this are in host memory. */
  function HostLimit(direct: bool, w: Worker): nat {
    match w.phase
    case AtCheck => w.row
    case Stopped(_) => w.row
    case Rendering(done) => if direct then w.row + done else w.row
    case WritingBack(done) => if direct then w.row + w.count else w.row + done
  }

  /** The rows of the current chunk below this are in the view. */
  function ViewLimit(w: Worker): nat {
    match w.phase
    case AtCheck => w.row
    case Stopped(_) => w.row
    case Rendering(done) => w.row + done
    case WritingBack(done) => w.row + w.count
  }

  /** A worker is at a chunk boundary of its block. */
  ghost predicate Placed<T>(job: Job<T>, t: nat, w: Worker) {
    var first, last := First(job.height, job.threadCount, t), BlockEnd(job, t);
    && first <= w.row && (w.row <= last || w.row == first)
    && (w.row >= last || (w.row - first) % ROWS_PER_ABORT_CHECK == 0)
    && match w.phase
       case AtCheck => true
       case Stopped(aborted) => !aborted ==> w.row >= last
       case Rendering(done) => w.row < last && w.count == Min(ROWS_PER_ABORT_CHECK, last - w.row) && done <= w.count
       case WritingBack(done) => w.row < last && w.count == Min(ROWS_PER_ABORT_CHECK, last - w.row) && done <= w.count
  }

  /** A row of a worker's block that is rendered and, if need be, written back. */
  ghost predicate RowKept<T>(job: Job<T>, before: seq<T>, s: State<T>, t: nat, y: nat)
    requires Sized(job, s) && |before| == job.height && t < |s.workers| && y < job.height
  {
    && s.host[y] == (if y < HostLimit(job.direct, s.workers[t]) then job.content[y] else before[y])
    && (!job.direct && s.workers[t].row <= y < ViewLimit(s.workers[t]) ==> s.view[y] == job.content[y])
  }

  /** What every interleaving keeps: in each block the rows a worker has finished are rendered, the rest
      are as they were, and the rows it has rendered are still in the view. */
  ghost predicate Kept<T>(job: Job<T>, before: seq<T>, s: State<T>) {
    && Sized(job, s) && |before| == job.height
    && (forall t: nat :: t < |s.workers| ==> Placed(job, t, s.workers[t]))
    && (forall t: nat, y: nat :: t < |s.workers| && InBlock(job.height, job.threadCount, t, y) ==>
         RowKept(job, before, s, t, y))
  }

  lemma StepPlaced<T>(job: Job<T>, s: State<T>, t: nat, abort: bool)
    requires Sized(job, s) && t < |s.workers| && Placed(job, t, s.workers[t])
    ensures Placed(job, t, Step(job, s, t, abort).workers[t])
    ensures forall u: nat :: u < |s.workers| && u != t ==> Step(job, s, t, abort).workers[u] == s.workers[u]
  {
    hide First, RowsPerWorker;
  }

  /** A step touches no row outside the worker's own block. */
  lemma StepStaysInBlock<T>(job: Job<T>, s: State<T>, t: nat, abort: bool, y: nat)
    requires Sized(job, s) && t < |s.workers| && Placed(job, t, s.workers[t])
    requires y < job.height && !InBlock(job.height, job.threadCount, t, y)
    ensures Step(job, s, t, abort).host[y] == s.host[y] && Step(job, s, t, abort).view[y] == s.view[y]
  {
    hide First, RowsPerWorker;
  }

  lemma StepOwnRow<T>(job: Job<T>, before: seq<T>, s: State<T>, t: nat, abort: bool, y: nat)
    requires Sized(job, s) && |before| == job.height && t < |s.workers| && Placed(job, t, s.workers[t])
    requires InBlock(job.height, job.threadCount, t, y) && RowKept(job, before, s, t, y)
    ensures RowKept(job, before, Step(job, s, t, abort), t, y)
  {
    hide First, RowsPerWorker;
  }

  lemma StepKeeps<T>(job: Job<T>, before: seq<T>, s: State<T>, t: nat, abort: bool)
    requires Kept(job, before, s) && t < |s.workers|
    ensures Kept(job, before, Step(job, s, t, abort))
  {
    hide Step, RowKept, Placed, First, RowsPerWorker;
    StepPlaced(job, s, t, abort);
    forall u: nat, y: nat | u < |s.workers| && InBlock(job.height, job.threadCount, u, y)
      ensures RowKept(job, before, Step(job, s, t, abort), u, y)
    {
      if u == t {
        StepOwnRow(job, before, s, t, abort, y);
      } else {
        if u < t {
          BlocksDisjoint(job.height, job.threadCount, u, t, y);
        } else {
          BlocksDisjoint(job.height, job.threadCount, t, u, y);
        }
        StepStaysInBlock(job, s, t, abort, y);
        SameRow(job, before, s, Step(job, s, t, abort), u, y);
      }
    }
  }

  lemma SameRow<T>(job: Job<T>, before: seq<T>, s: State<T>, n: State<T>, u: nat, y: nat)
    requires Sized(job, s) && Sized(job, n) && |before| == job.height && u < |s.workers| && y < job.height
    requires RowKept(job, before, s, u, y) && n.workers[u] == s.workers[u] && n.host[y] == s.host[y] &&
      n.view[y] == s.view[y]
    ensures RowKept(job, before, n, u, y)
  {
  }

  lemma {:induction false} ExecuteKeeps<T>(job: Job<T>, s: State<T>, schedule: seq<Turn>)
    requires Initial(job, s) && forall i :: 0 <= i < |schedule| ==> schedule[i].worker < |s.workers|
    ensures Kept(job, s.host, Execute(job, s, schedule))
  {
    if schedule == [] {
      hide First, RowsPerWorker;
    } else {
      hide Kept, Step;
      var turn := schedule[|schedule| - 1];
      ExecuteKeeps(job, s, schedule[..|schedule| - 1]);
      StepKeeps(job, s.host, Execute(job, s, schedule[..|schedule| - 1]), turn.worker, turn.abort);
    }
  }

  ghost predicate AllStopped<T>(s: State<T>) {
    forall t: nat :: t < |s.workers| ==> s.workers[t].phase.Stopped?
  }

  /** Block `t` is rendered up to `stop`, a whole number of chunks unless it is the whole block, and
      untouched from there on. */
  ghost predicate IsPrefix<T>(job: Job<T>, before: seq<T>, after: seq<T>, t: nat, stop: nat)
    requires |before| == |after| == |job.content| == job.height
  {
    var first, last := First(job.height, job.threadCount, t), BlockEnd(job, t);
    && first <= stop && (stop >= last || (stop - first) % ROWS_PER_ABORT_CHECK == 0)
    && forall y: nat :: InBlock(job.height, job.threadCount, t, y) ==>
         after[y] == if y < stop then job.content[y] else before[y]
  }

  /** However the workers interleave and whenever each is aborted, once all have stopped every block is
      a finished prefix followed by rows nobody touched. */
  lemma {:induction false} AbortLeavesPrefixes<T>(job: Job<T>, s: State<T>, schedule: seq<Turn>, t: nat)
    requires Initial(job, s) && (forall i :: 0 <= i < |schedule| ==> schedule[i].worker < |s.workers|) &&
      t < |s.workers|
    requires AllStopped(Execute(job, s, schedule))
    ensures exists stop: nat :: IsPrefix(job, s.host, Execute(job, s, schedule).host, t, stop)
  {
    hide First, RowsPerWorker, Execute;
    ExecuteKeeps(job, s, schedule);
    var end := Execute(job, s, schedule);
    var stop := end.workers[t].row;
    assert Placed(job, t, end.workers[t]);
    forall y: nat | InBlock(job.height, job.threadCount, t, y)
      ensures end.host[y] == if y < stop then job.content[y] else s.host[y]
    {
      assert RowKept(job, s.host, end, t, y);
    }
    assert IsPrefix(job, s.host, end.host, t, stop);
  }

  /** A worker told to abort where it asks, with rows of its block left, is done at that moment: whatever
      turns follow, it stays stopped there and the rows of its block from there on are as they were. */
  lemma {:induction false} AbortIsFinal<T>(job: Job<T>, s: State<T>, schedule: seq<Turn>, i: nat)
    requires Initial(job, s) && (forall j :: 0 <= j < |schedule| ==> schedule[j].worker < |s.workers|) && i < |schedule|
    requires var w := Execute(job, s, schedule[..i]).workers[schedule[i].worker];
      schedule[i].abort && w.phase == AtCheck && w.row < BlockEnd(job, schedule[i].worker)
    ensures var t, end := schedule[i].worker, Execute(job, s, schedule);
      var w := Execute(job, s, schedule[..i]).workers[t];
      && end.workers[t] == w.(phase := Stopped(true))
      && forall y: nat :: InBlock(job.height, job.threadCount, t, y) && w.row <= y ==> end.host[y] == s.host[y]
    decreases |schedule|
  {
    hide First, RowsPerWorker;
    ExecuteKeeps(job, s, schedule);
    var n := |schedule| - 1;
    if i < n {
      assert schedule[..n][..i] == schedule[..i];
      AbortIsFinal(job, s, schedule[..n], i);
    }
    StaysStopped(job, Execute(job, s, schedule[..n]), schedule[n], schedule[i].worker);
    forall y: nat | InBlock(job.height, job.threadCount, schedule[i].worker, y)
      ensures RowKept(job, s.host, Execute(job, s, schedule), schedule[i].worker, y)
    {
    }
  }

  lemma StaysStopped<T>(job: Job<T>, s: State<T>, turn: Turn, t: nat)
    requires Sized(job, s) && t < |s.workers| && turn.worker < |s.workers|
    ensures s.workers[t].phase.Stopped? ==> Step(job, s, turn.worker, turn.abort).workers[t] == s.workers[t]
  {
  }

  predicate Unaborted(schedule: seq<Turn>) {
    forall i :: 0 <= i < |schedule| ==> !schedule[i].abort
  }

  lemma {:induction false} NobodyAborted<T>(job: Job<T>, s: State<T>, schedule: seq<Turn>, t: nat)
    requires Initial(job, s) && (forall i :: 0 <= i < |schedule| ==> schedule[i].worker < |s.workers|) &&
      t < |s.workers|
    requires Unaborted(schedule)
    ensures var w := Execute(job, s, schedule).workers[t]; w.phase.Stopped? ==> !w.phase.aborted
  {
    if schedule == [] {
    } else {
      hide First, RowsPerWorker;
      NobodyAborted(job, s, schedule[..|schedule| - 1], t);
    }
  }

  /** Without an abort every row is rendered, in every interleaving. */
  lemma {:induction false} UnabortedIsComplete<T>(job: Job<T>, s: State<T>, schedule: seq<Turn>)
    requires Initial(job, s) && forall i :: 0 <= i < |schedule| ==> schedule[i].worker < |s.workers|
    requires AllStopped(Execute(job, s, schedule)) && Unaborted(schedule)
    ensures Execute(job, s, schedule).host == job.content
  {
    ExecuteKeeps(job, s, schedule);
    var end := Execute(job, s, schedule);
    hide First, RowsPerWorker, Execute;
    forall y: nat | y < job.height
      ensures end.host[y] == job.content[y]
    {
      var t := BlocksCover(job.height, job.threadCount, y);
      NobodyAborted(job, s, schedule, t);
      assert Placed(job, t, end.workers[t]) && RowKept(job, s.host, end, t, y);
    }
  }

  /** So any number of workers in any order do what one worker does alone, with a direct view or scratch. */
  lemma {:induction false} ParallelIsSerial<T>(job: Job<T>, s: State<T>, schedule: seq<Turn>, serial: Job<T>,
                                               s': State<T>, alone: seq<Turn>)
    requires Initial(job, s) && forall i :: 0 <= i < |schedule| ==> schedule[i].worker < |s.workers|
    requires AllStopped(Execute(job, s, schedule)) && Unaborted(schedule)
    requires serial.threadCount == 1 && serial.content == job.content && serial.height == job.height
    requires Initial(serial, s') && forall i :: 0 <= i < |alone| ==> alone[i].worker < |s'.workers|
    requires AllStopped(Execute(serial, s', alone)) && Unaborted(alone)
    ensures Execute(job, s, schedule).host == Execute(serial, s', alone).host
  {
    hide Execute, Initial, AllStopped, Unaborted;
    UnabortedIsComplete(job, s, schedule);
    UnabortedIsComplete(serial, s', alone);
  }

  /** When the host's thread suite fails at any point of any interleaving, one worker renders again. Up to
      some row the output is complete; below it every row is what the failed run left, rendered or untouched.
      If the host aborts no check of the recovery, that row is the last one. */
  lemma {:induction false} RecoveryCompletes<T>(job: Job<T>, s: State<T>, partial: seq<Turn>, again: Job<T>,
                                                s': State<T>, alone: seq<Turn>)
    returns (stop: nat)
    requires Initial(job, s) && forall i :: 0 <= i < |partial| ==> partial[i].worker < |s.workers|
    requires again == job.(threadCount := 1) && Initial(again, s') && s'.host == Execute(job, s, partial).host
    requires forall i :: 0 <= i < |alone| ==> alone[i].worker < |s'.workers|
    requires AllStopped(Execute(again, s', alone))
    ensures stop <= job.height && (stop == job.height || stop % ROWS_PER_ABORT_CHECK == 0)
    ensures var failed, end := Execute(job, s, partial).host, Execute(again, s', alone).host;
      && end == job.content[..stop] + failed[stop..]
      && forall y :: 0 <= y < job.height ==> failed[y] == job.content[y] || failed[y] == s.host[y]
    ensures Unaborted(alone) ==> stop == job.height
  {
    hide First, Last, RowsPerWorker, Execute;
    SerialBlock(job.height);
    ExecuteKeeps(again, s', alone);
    var failed, end := Execute(job, s, partial).host, Execute(again, s', alone);
    var worker := end.workers[0];
    assert Placed(again, 0, worker);
    stop := Min(worker.row, job.height);
    forall y: nat | y < job.height
      ensures end.host[y] == if y < stop then job.content[y] else failed[y]
    {
      assert RowKept(again, s'.host, end, 0, y);
    }
    if Unaborted(alone) { NobodyAborted(again, s', alone, 0); }
    forall y: nat | y < job.height
      ensures failed[y] == job.content[y] || failed[y] == s.host[y]
    {
      EitherRow(job, s, partial, y);
    }
  }

  /** A row of an interrupted run is rendered or untouched. */
  lemma {:induction false} EitherRow<T>(job: Job<T>, s: State<T>, schedule: seq<Turn>, y: nat)
    requires Initial(job, s) && (forall i :: 0 <= i < |schedule| ==> schedule[i].worker < |s.workers|) && y < job.height
    ensures Execute(job, s, schedule).host[y] in {job.content[y], s.host[y]}
  {
    hide First, RowsPerWorker, Execute;
    ExecuteKeeps(job, s, schedule);
    var t := BlocksCover(job.height, job.threadCount, y);
    assert RowKept(job, s.host, Execute(job, s, schedule), t, y);
  }
}
