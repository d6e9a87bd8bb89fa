/**
 * `startAnalysisLoop` of MainActivity (app/src/main/java/com/example/MainActivity.kt and its older copy
 * app/MainActivity.kt, whose loop body is the same): capture, recognize, analyze, display, wait, repeated while the
 * coroutine is active. The collaborators are oracles given per iteration; the calls an iteration makes are returned
 * as a sequence of `Call`s.
 */
module AnalysisLoop {
  import opened Wrappers
  import opened Bitmaps
  import Stockfish

  /** The default `intervalMillis` of startAnalysisLoop. */
  const DEFAULT_INTERVAL_MILLIS := 5000

  /** A call the loop makes on a collaborator, in the order it makes them. */
  datatype Call =
    | Capture                    // captureManager.captureOnce()
    | Recognize(bitmap: Bitmap)  // chessvisionRepository.extractFenFromImage(bitmap)
    | Recycle(bitmap: Bitmap)    // bitmap.recycle(), in the finally after recognition
    | Analyze(fen: string)       // stockfishRepository.analyzeFen(fen)
    | Display(text: string)      // updateOverlayText(text)
    | Delay(millis: int)         // delay(intervalMillis)

  /**
   * What the world does during one iteration: whether the coroutine is still active at the top of the loop, what
   * captureOnce returns or whether it throws, what recognition returns for the taken bitmap or whether it throws,
   * and the analysis server.
   */
  datatype Round = Round(active: bool, captured: Outcome<Option<Bitmap>>, recognized: Outcome<string>,
                         server: Stockfish.Server)

  /** The bitmap the capture stage yields: the one taken, or none when the queue was empty or the take threw. */
  function Captured(r: Round): Option<Bitmap>
  {
    match r.captured
    case Threw => None
    case Returned(b) => b
  }

  /** The FEN the recognition stage yields: only for a taken bitmap whose recognition returned. */
  function Fen(r: Round): Option<string>
  {
    if Captured(r).Some? && r.recognized.Returned? then Some(r.recognized.value) else None
  }

  /** The analysis stage's `bestMove`: analyzeFen's answer (which never throws) for a recognised FEN. */
  function BestMove(r: Round): Option<string>
  {
    if Fen(r).Some?
    then Some(Stockfish.AnalyzeFen(r.server, Fen(r).value))
    else None
  }

  /** The calls of the recognition stage: recognize then recycle a taken bitmap, nothing without one. */
  function RecognitionCalls(r: Round): (calls: seq<Call>)
    ensures forall c | c in calls :: c.Recognize? || c.Recycle?
  {
    if Captured(r).Some? then [Recognize(Captured(r).value), Recycle(Captured(r).value)] else []
  }

  /** The calls of the analysis and display stages: analyze a recognised FEN, then show the move. */
  function AnalysisCalls(r: Round): (calls: seq<Call>)
    ensures forall c | c in calls :: c.Analyze? || c.Display?
  {
    (if Fen(r).Some? then [Analyze(Fen(r).value)] else [])
    + (if BestMove(r).Some? then [Display(BestMove(r).value)] else [])
  }

  /** The calls of one iteration, stage by stage. */
  function IterationCalls(r: Round, intervalMillis: int): seq<Call>
  {
    [Capture] + RecognitionCalls(r) + AnalysisCalls(r) + [Delay(intervalMillis)]
  }

  /**
   * The body of `while (isActive)`: each stage in its own try, the bitmap recycled in a finally whatever
   * recognition did, display only for a non-null bestMove, then the delay.
   */
  method RunIteration(r: Round, intervalMillis: int) returns (calls: seq<Call>, bestMove: Option<string>)
    ensures calls == IterationCalls(r, intervalMillis)
    ensures bestMove == BestMove(r)
  {
    bestMove := None;
    calls := [Capture];
    var bitmap: Option<Bitmap> := match r.captured case Threw => None case Returned(b) => b;
    var fen: Option<string> := None;
    if bitmap.Some? {
      calls := calls + [Recognize(bitmap.value)];
      fen := match r.recognized case Threw => None case Returned(f) => Some(f);
      calls := calls + [Recycle(bitmap.value)];
    }
    if fen.Some? {
      calls := calls + [Analyze(fen.value)];
      // the catch around analyzeFen would leave bestMove null, but analyzeFen never throws
      bestMove := Some(Stockfish.AnalyzeFen(r.server, fen.value));
    }
    if bestMove.Some? {
      calls := calls + [Display(bestMove.value)];
    }
    calls := calls + [Delay(intervalMillis)];
  }

  /** The position of a call's stage within an iteration. */
  function Stage(c: Call): nat
  {
    match c
    case Capture => 0
    case Recognize(_) => 1
    case Recycle(_) => 2
    case Analyze(_) => 3
    case Display(_) => 4
    case Delay(_) => 5
  }

  /**
   * Within an iteration the stages run in the fixed order capture, recognize, recycle, analyze, display, delay,
   * each at most once; the iteration starts with the capture and ends with the delay.
   */
  lemma StagesInOrder(r: Round, intervalMillis: int)
    ensures var calls := IterationCalls(r, intervalMillis);
            && calls[0] == Capture && calls[|calls| - 1] == Delay(intervalMillis)
            && forall i, j | 0 <= i < j < |calls| :: Stage(calls[i]) < Stage(calls[j])
  {
    var calls := IterationCalls(r, intervalMillis);
    if Captured(r).None? {
      assert calls == [Capture, Delay(intervalMillis)];
    } else if Fen(r).None? {
      assert calls == [Capture, Recognize(Captured(r).value), Recycle(Captured(r).value), Delay(intervalMillis)];
    } else {
      assert calls == [Capture, Recognize(Captured(r).value), Recycle(Captured(r).value), Analyze(Fen(r).value),
                       Display(BestMove(r).value), Delay(intervalMillis)];
    }
    forall i, j | 0 <= i < j < |calls|
      ensures Stage(calls[i]) < Stage(calls[j])
    {
      StagesIncrease(calls, i, j);
    }
  }

  /** Stages that increase from each call to the next increase from any call to any later one. */
  lemma {:induction false} StagesIncrease(calls: seq<Call>, i: nat, j: nat)
    requires forall k | 0 <= k < |calls| - 1 :: Stage(calls[k]) < Stage(calls[k + 1])
    requires i < j < |calls|
    ensures Stage(calls[i]) < Stage(calls[j])
    decreases j - i
  {
    if j > i + 1 {
      StagesIncrease(calls, i, j - 1);
    }
  }

  /** How many times `c` occurs among `calls`. */
  function Count(calls: seq<Call>, c: Call): nat
  {
    if calls == [] then 0 else (if calls[0] == c then 1 else 0) + Count(calls[1..], c)
  }

  lemma {:induction false} CountConcat(a: seq<Call>, b: seq<Call>, c: Call)
    ensures Count(a + b, c) == Count(a, c) + Count(b, c)
  {
    if a != [] {
      assert (a + b)[1..] == a[1..] + b;
      CountConcat(a[1..], b, c);
    } else {
      assert a + b == b;
    }
  }

  lemma CountCons(x: Call, rest: seq<Call>, c: Call)
    ensures Count([x] + rest, c) == (if x == c then 1 else 0) + Count(rest, c)
  {
    assert ([x] + rest)[1..] == rest;
  }

  lemma CountSingleton(x: Call, c: Call)
    ensures Count([x], c) == if x == c then 1 else 0
  {
    assert [x][1..] == [];
  }

  lemma {:induction false} CountAbsent(a: seq<Call>, c: Call)
    requires c !in a
    ensures Count(a, c) == 0
  {
    if a != [] {
      CountAbsent(a[1..], c);
    }
  }

  /** Nothing taken (an empty queue or a throwing take): no recognition, analysis or display, only the delay. */
  lemma NoFrameSkipsEverything(r: Round, intervalMillis: int)
    requires r.captured.Threw? || r.captured.value.None?
    ensures IterationCalls(r, intervalMillis) == [Capture, Delay(intervalMillis)]
  {
  }

  /** A taken bitmap is recognised once and recycled exactly once, whether recognition returned or threw. */
  lemma TakenBitmapRecycledOnce(r: Round, intervalMillis: int, b: Bitmap)
    requires r.captured == Returned(Some(b))
    ensures Count(IterationCalls(r, intervalMillis), Recycle(b)) == 1
    ensures Count(IterationCalls(r, intervalMillis), Recognize(b)) == 1
    ensures forall c | c in IterationCalls(r, intervalMillis) && c.Recycle? :: c.bitmap == b
  {
    var tail := AnalysisCalls(r) + [Delay(intervalMillis)];
    var rest := [Recognize(b)] + ([Recycle(b)] + tail);
    assert IterationCalls(r, intervalMillis) == [Capture] + rest;
    CountTaken(b, tail, Recycle(b));
    CountTaken(b, tail, Recognize(b));
  }

  /** How often a call occurs in an iteration that took bitmap `b`, before the analysis stage. */
  lemma CountTaken(b: Bitmap, tail: seq<Call>, c: Call)
    requires c !in tail
    ensures Count([Capture] + ([Recognize(b)] + ([Recycle(b)] + tail)), c)
         == (if c == Recognize(b) then 1 else 0) + (if c == Recycle(b) then 1 else 0) + (if c == Capture then 1 else 0)
  {
    CountCons(Capture, [Recognize(b)] + ([Recycle(b)] + tail), c);
    CountCons(Recognize(b), [Recycle(b)] + tail, c);
    CountCons(Recycle(b), tail, c);
    CountAbsent(tail, c);
  }

  /** A recognition that throws leaves no FEN: neither analysis nor display happens, and the iteration completes. */
  lemma RecognitionFailureSkipsAnalysis(r: Round, intervalMillis: int)
    requires r.recognized.Threw?
    ensures forall c | c in IterationCalls(r, intervalMillis) :: !c.Analyze? && !c.Display?
    ensures IterationCalls(r, intervalMillis)[|IterationCalls(r, intervalMillis)| - 1] == Delay(intervalMillis)
  {
  }

  /** Display is called exactly once, with bestMove, if bestMove is non-null, and not at all otherwise. */
  lemma DisplayExactlyWhenBestMove(r: Round, intervalMillis: int)
    ensures (exists c :: c in IterationCalls(r, intervalMillis) && c.Display?) <==> BestMove(r).Some?
    ensures BestMove(r).Some? ==> Count(IterationCalls(r, intervalMillis), Display(BestMove(r).value)) == 1
    ensures forall c | c in IterationCalls(r, intervalMillis) && c.Display? :: Some(c.text) == BestMove(r)
  {
    if BestMove(r).Some? {
      var d := Display(BestMove(r).value);
      var head := [Capture] + RecognitionCalls(r) + [Analyze(Fen(r).value)];
      assert IterationCalls(r, intervalMillis) == head + [d] + [Delay(intervalMillis)];
      CountConcat(head + [d], [Delay(intervalMillis)], d);
      CountConcat(head, [d], d);
      CountAbsent(head, d);
      CountSingleton(d, d);
      CountSingleton(Delay(intervalMillis), d);
    }
  }

  /** Every recognised FEN is analysed and shown: a failed analysis still displays "Error". */
  lemma AnalysisFailureDisplaysError(r: Round, intervalMillis: int, fen: string)
    requires r.captured.Returned? && r.captured.value.Some? && r.recognized == Returned(fen)
    requires r.server(Stockfish.AnalysisRequest(fen, 15, 1), None).Threw?
    ensures Display("Error") in IterationCalls(r, intervalMillis)
    ensures Analyze(fen) in IterationCalls(r, intervalMillis)
  {
    var calls := IterationCalls(r, intervalMillis);
    assert calls[|calls| - 2] == Display("Error");
  }

  /** A server that answers "e2e4" to the default request for the start position. */
  function E2E4Server(): Stockfish.Server
  {
    (request: Stockfish.AnalysisRequest, header: Option<string>) =>
      if request == Stockfish.AnalysisRequest("start-position-FEN", 15, 1) && header.None?
      then Returned(Stockfish.AnalysisResponse(Some("e2e4")))
      else Threw
  }

  /** A recognised start position analysed to "e2e4" shows "e2e4", exactly once. */
  lemma StartPositionShowsE2E4(b: Bitmap)
    ensures var r := Round(true, Returned(Some(b)), Returned("start-position-FEN"), E2E4Server());
            && IterationCalls(r, 5000)
               == [Capture, Recognize(b), Recycle(b), Analyze("start-position-FEN"), Display("e2e4"), Delay(5000)]
            && Count(IterationCalls(r, 5000), Display("e2e4")) == 1
  {
    var r := Round(true, Returned(Some(b)), Returned("start-position-FEN"), E2E4Server());
    assert Fen(r) == Some("start-position-FEN");
    assert E2E4Server()(Stockfish.AnalysisRequest("start-position-FEN", 15, 1), None)
        == Returned(Stockfish.AnalysisResponse(Some("e2e4")));
    assert BestMove(r) == Some("e2e4");
    assert RecognitionCalls(r) == [Recognize(b), Recycle(b)];
    assert AnalysisCalls(r) == [Analyze("start-position-FEN"), Display("e2e4")];
    DisplayExactlyWhenBestMove(r, 5000);
  }

  /** An iteration waits once, for `intervalMillis`, and last. */
  lemma IterationEndsWithItsDelay(r: Round, intervalMillis: int)
    ensures Count(IterationCalls(r, intervalMillis), Delay(intervalMillis)) == 1
    ensures forall c | c in IterationCalls(r, intervalMillis) && c.Delay? :: c.millis == intervalMillis
  {
    var d := Delay(intervalMillis);
    var front := [Capture] + RecognitionCalls(r) + AnalysisCalls(r);
    assert IterationCalls(r, intervalMillis) == front + [d];
    CountConcat(front, [d], d);
    CountAbsent(front, d);
    CountSingleton(d, d);
  }

  /** The number of iterations `while (isActive)` runs: up to the first round at which the coroutine is inactive. */
  function Iterations(rounds: seq<Round>): (n: nat)
    ensures n <= |rounds|
    ensures forall i | 0 <= i < n :: rounds[i].active
    ensures n < |rounds| ==> !rounds[n].active
  {
    if rounds == [] || !rounds[0].active then 0 else 1 + Iterations(rounds[1..])
  }

  /** The calls of consecutive iterations, one after the other. */
  function LoopCalls(rounds: seq<Round>, intervalMillis: int): seq<Call>
  {
    if rounds == [] then [] else IterationCalls(rounds[0], intervalMillis) + LoopCalls(rounds[1..], intervalMillis)
  }

  /** One more iteration appends its calls after those of the earlier ones: iterations never overlap. */
  lemma {:induction false} LoopCallsAppend(rounds: seq<Round>, r: Round, intervalMillis: int)
    ensures LoopCalls(rounds + [r], intervalMillis) == LoopCalls(rounds, intervalMillis) + IterationCalls(r, intervalMillis)
  {
    if rounds != [] {
      assert (rounds + [r])[1..] == rounds[1..] + [r];
      LoopCallsAppend(rounds[1..], r, intervalMillis);
    }
  }

  /** One more active round: one more iteration, whose calls follow those before it. */
  lemma LoopStep(rounds: seq<Round>, i: nat, intervalMillis: int)
    requires i < |rounds| && rounds[i].active
    ensures Iterations(rounds[i..]) == 1 + Iterations(rounds[i + 1..])
    ensures LoopCalls(rounds[..i + 1], intervalMillis) == LoopCalls(rounds[..i], intervalMillis) + IterationCalls(rounds[i], intervalMillis)
  {
    LoopCallsAppend(rounds[..i], rounds[i], intervalMillis);
    assert rounds[..i + 1] == rounds[..i] + [rounds[i]];
    assert rounds[i..][1..] == rounds[i + 1..];
  }

  /** Each iteration contributes exactly one delay, and all of them wait `intervalMillis`. */
  lemma {:induction false} OneDelayPerIteration(rounds: seq<Round>, intervalMillis: int)
    ensures Count(LoopCalls(rounds, intervalMillis), Delay(intervalMillis)) == |rounds|
    ensures forall c | c in LoopCalls(rounds, intervalMillis) && c.Delay? :: c.millis == intervalMillis
  {
    if rounds != [] {
      OneDelayPerIteration(rounds[1..], intervalMillis);
      IterationEndsWithItsDelay(rounds[0], intervalMillis);
      CountConcat(IterationCalls(rounds[0], intervalMillis), LoopCalls(rounds[1..], intervalMillis), Delay(intervalMillis));
    }
  }

  /**
   * `lifecycleScope.launch { while (isActive) { ... } }` over the given rounds: iterates until the coroutine is found
   * inactive at the top of the loop (or the rounds run out). No stage's failure ends the loop.
   */
  method RunAnalysisLoop(rounds: seq<Round>, intervalMillis: int) returns (calls: seq<Call>, iterations: nat)
    ensures iterations == Iterations(rounds)
    ensures calls == LoopCalls(rounds[..iterations], intervalMillis)
    ensures (forall i | 0 <= i < |rounds| :: rounds[i].active) ==> iterations == |rounds|
    ensures iterations < |rounds| ==> !rounds[iterations].active
  {
    calls, iterations := [], 0;
    while iterations < |rounds| && rounds[iterations].active
      invariant iterations <= |rounds|
      invariant forall i | 0 <= i < iterations :: rounds[i].active
      invariant calls == LoopCalls(rounds[..iterations], intervalMillis)
      invariant Iterations(rounds) == iterations + Iterations(rounds[iterations..])
    {
      var iterationCalls, bestMove := RunIteration(rounds[iterations], intervalMillis);
      LoopStep(rounds, iterations, intervalMillis);
      calls := calls + iterationCalls;
      iterations := iterations + 1;
    }
  }

  /** The loop depends on the outcome of no stage: rounds with the same activity flags run as many iterations. */
  lemma {:induction false} FailuresNeverExit(rounds: seq<Round>, others: seq<Round>)
    requires |rounds| == |others|
    requires forall i | 0 <= i < |rounds| :: rounds[i].active == others[i].active
    ensures Iterations(rounds) == Iterations(others)
  {
    if rounds != [] && rounds[0].active {
      FailuresNeverExit(rounds[1..], others[1..]);
    }
  }
}
