/** The manual range run: its loop as a function, and what its result says. */
module Range {
  import opened Types
  import opened Models
  import opened Store
  import opened Sync
  import opened Indexer

  datatype RangeResult = RangeResult(
    start: uint64, end: uint64, requested: uint64, succeeded: nat, failed: nat, failedBlocks: seq<uint64>)

  datatype RangeOutcome = RangeOutcome(db: Db, result: Option<RangeResult>, err: Option<Error>)

  const MAX_BLOCK_RANGE: uint64 := 100

  predicate StopsRange(e: Error) {
    e == ReorgDetected || e == ChainDiscontinuity || e == ChainDataConflict
  }

  function Requested(start: uint64, end: uint64): uint64
    requires start <= end
  {
    Wrap64(end - start + 1)
  }

  /**
   * The loop `for number := start; number <= end; number++` from its i-th iteration on. `envs(i)` is the outside
   * world during that iteration and `deadline` the iteration at which the request is found cancelled.
   */
  function RangeLoop(startBlock: uint64, db: Db, number: uint64, i: nat, deadline: nat, envs: nat -> Env, acc: RangeResult): RangeOutcome
    decreases deadline - i
  {
    if number > acc.end then RangeOutcome(db, Some(acc), None)
    else if i >= deadline then RangeOutcome(db, Some(acc), Some(RequestCanceled))
    else
      var out := SyncBlock(startBlock, db, number, envs(i));
      match out.err
      case None =>
        RangeLoop(startBlock, out.db, Wrap64(number + 1), i + 1, deadline, envs, acc.(succeeded := acc.succeeded + 1))
      case Some(e) =>
        var acc' := acc.(failed := acc.failed + 1, failedBlocks := acc.failedBlocks + [number]);
        if StopsRange(e) then RangeOutcome(out.db, Some(acc'), Some(e))
        else RangeLoop(startBlock, out.db, Wrap64(number + 1), i + 1, deadline, envs, acc')
  }

  function SyncRange(startBlock: uint64, db: Db, start: uint64, end: uint64, deadline: nat, envs: nat -> Env): RangeOutcome {
    if start > end then RangeOutcome(db, None, Some(InvalidBlockRange))
    else if Requested(start, end) > MAX_BLOCK_RANGE then RangeOutcome(db, None, Some(BlockRangeTooLarge))
    else RangeLoop(startBlock, db, start, 0, deadline, envs, RangeResult(start, end, Requested(start, end), 0, 0, []))
  }

  /** The counters after i iterations of a run that has not wrapped. */
  predicate Counted(acc: RangeResult, number: nat, i: nat) {
    && acc.start <= acc.end < MAX_UINT64 && acc.requested == acc.end - acc.start + 1
    && number == acc.start + i && number <= acc.end + 1
    && acc.succeeded + acc.failed == i
    && acc.failed == |acc.failedBlocks|
    && (forall j | 0 <= j < |acc.failedBlocks| :: acc.start <= acc.failedBlocks[j] < number)
    && (forall j, k | 0 <= j < k < |acc.failedBlocks| :: acc.failedBlocks[j] < acc.failedBlocks[k])
  }

  predicate RangeDone(out: RangeOutcome, deadline: nat) {
    out.result.Some? &&
    var r := out.result.value;
    var attempted := r.succeeded + r.failed;
    && Counted(r, r.start + attempted, attempted)
    && (match out.err
        case None => attempted == r.requested
        case Some(e) =>
          if e == RequestCanceled then attempted == deadline && attempted < r.requested
          else StopsRange(e) && r.failed > 0 && r.failedBlocks[r.failed - 1] == r.start + attempted - 1)
  }

  lemma CountOne(acc: RangeResult, number: uint64, i: nat)
    requires Counted(acc, number, i) && number <= acc.end
    ensures Counted(acc.(succeeded := acc.succeeded + 1), number + 1, i + 1)
    ensures Counted(acc.(failed := acc.failed + 1, failedBlocks := acc.failedBlocks + [number]), number + 1, i + 1)
    ensures Wrap64(number + 1) == number + 1
  {
  }

  lemma Stops(acc: RangeResult, number: uint64, i: nat, deadline: nat, db: Db, e: Error)
    requires Counted(acc, number, i) && i <= deadline
    ensures number > acc.end ==> RangeDone(RangeOutcome(db, Some(acc), None), deadline)
    ensures number <= acc.end && i == deadline ==> RangeDone(RangeOutcome(db, Some(acc), Some(RequestCanceled)), deadline)
    ensures number <= acc.end && StopsRange(e) ==>
              RangeDone(RangeOutcome(db, Some(acc.(failed := acc.failed + 1, failedBlocks := acc.failedBlocks + [number])), Some(e)), deadline)
  {
    if number <= acc.end {
      CountOne(acc, number, i);
    }
  }

  lemma {:induction false} RangeLoopCounts(startBlock: uint64, db: Db, number: uint64, i: nat, deadline: nat, envs: nat -> Env, acc: RangeResult)
    requires Counted(acc, number, i) && i <= deadline
    ensures RangeDone(RangeLoop(startBlock, db, number, i, deadline, envs, acc), deadline)
    ensures var out := RangeLoop(startBlock, db, number, i, deadline, envs, acc);
            out.result.Some? && out.result.value.start == acc.start && out.result.value.end == acc.end
    decreases deadline - i
  {
    hide SyncBlock, Counted, RangeDone, StopsRange;
    var out := SyncBlock(startBlock, db, number, envs(i));
    if number > acc.end || i >= deadline {
      Stops(acc, number, i, deadline, db, RequestCanceled);
    } else {
      CountOne(acc, number, i);
      match out.err
      case None =>
        RangeLoopCounts(startBlock, out.db, number + 1, i + 1, deadline, envs, acc.(succeeded := acc.succeeded + 1));
      case Some(e) =>
        Stops(acc, number, i, deadline, out.db, e);
        var acc' := acc.(failed := acc.failed + 1, failedBlocks := acc.failedBlocks + [number]);
        if !StopsRange(e) {
          RangeLoopCounts(startBlock, out.db, number + 1, i + 1, deadline, envs, acc');
        }
    }
  }

  // ---- A range run is a serial run of calls ----

  /** The last of these calls, made one after the other, returned this. */
  function LastErr(startBlock: uint64, db: Db, made: seq<Request>): Option<Error>
    requires made != []
  {
    var last := made[|made| - 1];
    SyncBlock(startBlock, RunRequests(startBlock, db, made[..|made| - 1]), last.n, last.env).err
  }

  function FailedOf(startBlock: uint64, db: Db, made: seq<Request>): seq<uint64> {
    if made == [] then []
    else
      FailedOf(startBlock, db, made[..|made| - 1])
      + if LastErr(startBlock, db, made).Some? then [made[|made| - 1].n] else []
  }

  predicate ConflictError(err: Option<Error>) {
    err in {Some(ReorgDetected), Some(ChainDiscontinuity), Some(ChainDataConflict)}
  }

  predicate NoConflict(startBlock: uint64, db: Db, made: seq<Request>) {
    made == [] || (NoConflict(startBlock, db, made[..|made| - 1]) && !ConflictError(LastErr(startBlock, db, made)))
  }

  ghost predicate MadeBy(made: seq<Request>, start: uint64, envs: nat -> Env) {
    forall j | 0 <= j < |made| :: made[j] == Request(Wrap64(start + j), envs(j))
  }

  /** The counters say what the calls returned. */
  predicate Tallied(startBlock: uint64, db: Db, made: seq<Request>, acc: RangeResult) {
    && acc.failedBlocks == FailedOf(startBlock, db, made)
    && acc.failed == |acc.failedBlocks| && acc.succeeded + acc.failed == |made|
  }

  /** Only a conflict of the last call stops a run early. */
  predicate EndsRight(startBlock: uint64, db: Db, made: seq<Request>, err: Option<Error>) {
    if err in {None, Some(RequestCanceled)} then NoConflict(startBlock, db, made)
    else
      && made != [] && NoConflict(startBlock, db, made[..|made| - 1])
      && LastErr(startBlock, db, made) == err && ConflictError(err)
  }

  lemma WrapNext(start: uint64, k: nat)
    ensures Wrap64(Wrap64(start + k) + 1) == Wrap64(start + (k + 1))
  {
  }

  lemma OneMoreCall(startBlock: uint64, db: Db, made: seq<Request>, request: Request, acc: RangeResult)
    requires Tallied(startBlock, db, made, acc)
    ensures var out := SyncBlock(startBlock, RunRequests(startBlock, db, made), request.n, request.env);
            var next := made + [request];
            && next[..|made|] == made
            && RunRequests(startBlock, db, next) == out.db
            && LastErr(startBlock, db, next) == out.err
            && (out.err.None? ==> Tallied(startBlock, db, next, acc.(succeeded := acc.succeeded + 1)))
            && (out.err.Some? ==> Tallied(startBlock, db, next, acc.(failed := acc.failed + 1, failedBlocks := acc.failedBlocks + [request.n])))
  {
    hide SyncBlock;
    assert (made + [request])[..|made|] == made;
  }

  /** From any iteration on: the calls a range run makes, what each returned, and why the run ended. */
  lemma {:induction false} RangeLoopRuns(
    startBlock: uint64, db0: Db, start: uint64, calls: seq<Request>, deadline: nat, envs: nat -> Env, acc: RangeResult)
    returns (made: seq<Request>)
    requires MadeBy(calls, start, envs) && Tallied(startBlock, db0, calls, acc) && NoConflict(startBlock, db0, calls)
    ensures calls <= made && MadeBy(made, start, envs)
    ensures var out := RangeLoop(startBlock, RunRequests(startBlock, db0, calls), Wrap64(start + |calls|), |calls|, deadline, envs, acc);
            && out.db == RunRequests(startBlock, db0, made)
            && out.result.Some? && Tallied(startBlock, db0, made, out.result.value)
            && EndsRight(startBlock, db0, made, out.err)
    decreases deadline - |calls|
  {
    hide SyncBlock, Wrap64, Tallied, LastErr, FailedOf, RunRequests;
    var db, number, i := RunRequests(startBlock, db0, calls), Wrap64(start + |calls|), |calls|;
    if number > acc.end || i >= deadline {
      made := calls;
    } else {
      var request := Request(number, envs(i));
      var next := calls + [request];
      OneMoreCall(startBlock, db0, calls, request, acc);
      WrapNext(start, |calls|);
      var out := SyncBlock(startBlock, db, number, envs(i));
      if out.err.Some? && StopsRange(out.err.value) {
        made := next;
      } else {
        var acc' := if out.err.None? then acc.(succeeded := acc.succeeded + 1)
                    else acc.(failed := acc.failed + 1, failedBlocks := acc.failedBlocks + [number]);
        made := RangeLoopRuns(startBlock, db0, start, next, deadline, envs, acc');
      }
    }
  }

  /**
   * For start <= end < 2^64-1 and at most 100 blocks: the run is a serial run of at most 100 calls, for start,
   * start+1, ..; FailedBlocks lists exactly the numbers whose calls failed, strictly increasing and within the range;
   * a nil error means succeeded + failed = requested and that no call met a chain conflict; a chain conflict stops
   * the run at the call that met it, the last one; cancellation is reported only if it came before the end.
   */
  lemma RangeResultIsTruthful(startBlock: uint64, db: Db, start: uint64, end: uint64, deadline: nat, envs: nat -> Env)
    returns (made: seq<Request>)
    requires start <= end < MAX_UINT64 && end - start + 1 <= MAX_BLOCK_RANGE
    ensures var out := SyncRange(startBlock, db, start, end, deadline, envs);
            && RangeDone(out, deadline)
            && out.result.value.start == start && out.result.value.end == end
            && |made| == out.result.value.succeeded + out.result.value.failed <= 100
            && (forall j | 0 <= j < |made| :: made[j] == Request(start + j, envs(j)))
            && out.db == RunRequests(startBlock, db, made)
            && out.result.value.failedBlocks == FailedOf(startBlock, db, made)
            && EndsRight(startBlock, db, made, out.err)
  {
    hide RangeLoop, FailedOf, LastErr, RunRequests, NoConflict, EndsRight;
    var acc := RangeResult(start, end, Requested(start, end), 0, 0, []);
    StartOfRun(startBlock, db, start, acc);
    RangeLoopCounts(startBlock, db, start, 0, deadline, envs, acc);
    made := RangeLoopRuns(startBlock, db, start, [], deadline, envs, acc);
  }

  lemma StartOfRun(startBlock: uint64, db: Db, start: uint64, acc: RangeResult)
    requires acc.succeeded == acc.failed == 0 && acc.failedBlocks == []
    ensures RunRequests(startBlock, db, []) == db && Wrap64(start) == start
    ensures Tallied(startBlock, db, [], acc) && NoConflict(startBlock, db, [])
  {
  }

  /** The size check lets through exactly the short ranges, and the one whose length wraps to zero. */
  lemma SizeCheckIff(startBlock: uint64, db: Db, start: uint64, end: uint64, deadline: nat, envs: nat -> Env)
    ensures SyncRange(startBlock, db, start, end, deadline, envs).result.Some? <==>
            start <= end && (end - start + 1 <= 100 || (start == 0 && end == MAX_UINT64))
  {
    if start <= end && Requested(start, end) <= MAX_BLOCK_RANGE {
      RangeLoopAnswers(startBlock, db, start, 0, deadline, envs, RangeResult(start, end, Requested(start, end), 0, 0, []));
    }
  }

  /** A refused range says why, the order of its ends before its size, and leaves the store alone. */
  lemma RefusedRange(startBlock: uint64, db: Db, start: uint64, end: uint64, deadline: nat, envs: nat -> Env)
    ensures var out := SyncRange(startBlock, db, start, end, deadline, envs);
            out.result.None? ==>
              out.db == db && out.err == Some(if start > end then InvalidBlockRange else BlockRangeTooLarge)
  {
    SizeCheckIff(startBlock, db, start, end, deadline, envs);
  }

  lemma {:induction false} RangeLoopAnswers(startBlock: uint64, db: Db, number: uint64, i: nat, deadline: nat, envs: nat -> Env, acc: RangeResult)
    ensures var out := RangeLoop(startBlock, db, number, i, deadline, envs, acc);
            out.result.Some? && (acc.end == MAX_UINT64 ==> out.err.Some? && (out.err == Some(RequestCanceled) || StopsRange(out.err.value)))
    decreases deadline - i
  {
    hide SyncBlock;
    if number <= acc.end && i < deadline {
      var out := SyncBlock(startBlock, db, number, envs(i));
      RangeLoopAnswers(startBlock, out.db, Wrap64(number + 1), i + 1, deadline, envs, acc.(succeeded := acc.succeeded + 1));
      RangeLoopAnswers(startBlock, out.db, Wrap64(number + 1), i + 1, deadline, envs,
                       acc.(failed := acc.failed + 1, failedBlocks := acc.failedBlocks + [number]));
    }
  }

  /**
   * Left to run (no chain conflict, and a deadline past the range) an accepted range ends by itself exactly when its
   * end is below 2^64-1: at 2^64-1 the loop variable wraps and only cancellation ends it.
   */
  lemma RangeEndsByItselfIff(startBlock: uint64, db: Db, start: uint64, end: uint64, deadline: nat, envs: nat -> Env)
    requires SyncRange(startBlock, db, start, end, deadline, envs).result.Some?
    requires var err := SyncRange(startBlock, db, start, end, deadline, envs).err; err.None? || !StopsRange(err.value)
    requires deadline >= 100
    ensures SyncRange(startBlock, db, start, end, deadline, envs).err.None? <==> end < MAX_UINT64
  {
    SizeCheckIff(startBlock, db, start, end, deadline, envs);
    if end < MAX_UINT64 {
      var made := RangeResultIsTruthful(startBlock, db, start, end, deadline, envs);
    } else {
      RangeLoopAnswers(startBlock, db, start, 0, deadline, envs, RangeResult(start, end, Requested(start, end), 0, 0, []));
    }
  }

  /** With an end of 2^64-1 the loop variable always stays within the range: only a conflict or cancellation ends it. */
  lemma {:induction false} TopRangeRunsOn(startBlock: uint64, db: Db, number: uint64, i: nat, deadline: nat, envs: nat -> Env, acc: RangeResult)
    requires acc.end == MAX_UINT64 && i <= deadline
    requires var err := RangeLoop(startBlock, db, number, i, deadline, envs, acc).err; err.None? || !StopsRange(err.value)
    ensures var out := RangeLoop(startBlock, db, number, i, deadline, envs, acc);
            && out.err == Some(RequestCanceled) && out.result.Some? && out.result.value.requested == acc.requested
            && out.result.value.succeeded + out.result.value.failed == acc.succeeded + acc.failed + (deadline - i)
    decreases deadline - i
  {
    hide SyncBlock;
    if i < deadline {
      var out := SyncBlock(startBlock, db, number, envs(i));
      if out.err.None? {
        TopRangeRunsOn(startBlock, out.db, Wrap64(number + 1), i + 1, deadline, envs, acc.(succeeded := acc.succeeded + 1));
      } else {
        TopRangeRunsOn(startBlock, out.db, Wrap64(number + 1), i + 1, deadline, envs,
                       acc.(failed := acc.failed + 1, failedBlocks := acc.failedBlocks + [number]));
      }
    }
  }

  /**
   * An accepted range that meets no conflict makes no more calls than requested exactly when its end is below 2^64-1
   * or cancellation comes in time.
   */
  lemma AttemptsWithinRequestIff(startBlock: uint64, db: Db, start: uint64, end: uint64, deadline: nat, envs: nat -> Env)
    requires SyncRange(startBlock, db, start, end, deadline, envs).result.Some?
    requires var err := SyncRange(startBlock, db, start, end, deadline, envs).err; err.None? || !StopsRange(err.value)
    ensures var r := SyncRange(startBlock, db, start, end, deadline, envs).result.value;
            r.succeeded + r.failed <= r.requested <==> end < MAX_UINT64 || deadline <= r.requested
  {
    SizeCheckIff(startBlock, db, start, end, deadline, envs);
    if end < MAX_UINT64 {
      var made := RangeResultIsTruthful(startBlock, db, start, end, deadline, envs);
    } else {
      TopRangeRunsOn(startBlock, db, start, 0, deadline, envs, RangeResult(start, end, Requested(start, end), 0, 0, []));
    }
  }
}
