/**
 * The POST /report handler: one headless Chrome is launched, Lighthouse
 * audits the requested URL a fixed number of times against it, every
 * result is kept in attempt order, the best performance score and the
 * attempt that produced it are tracked, and the aggregate is returned.
 * Any exception along the way turns the whole request into a 500 reply.
 *
 * Chrome and Lighthouse are foreign processes; the handler sees them only
 * through what their calls return or throw, so they enter the model as an
 * `Env` value giving the outcome of each call.
 */
module ReportHandler {

  import opened Selection

  /**
   * A Lighthouse result as far as the handler looks into it: the score of
   * its performance category. Everything else is carried along untouched.
   */
  datatype Lhr<D> = Lhr(performance: real, rest: D)

  /** What awaiting the Lighthouse run of one attempt gives: an exception or a result. */
  datatype Attempt<D> = Threw | Ran(lhr: Lhr<D>)

  /**
   * The outcomes of the foreign calls the handler awaits: whether Chrome
   * launches, what the Lighthouse run of attempt k gives, and whether
   * killing Chrome succeeds.
   */
  datatype Env<D> = Env(launches: bool, audit: nat -> Attempt<D>, kills: bool)

  /** The reply: the aggregate as JSON, or a status code with a plain-text body. */
  datatype Reply<D> =
    | Report(bestScore: real, bestScoreIndex: nat, results: seq<Lhr<D>>)
    | Failure(status: nat, message: string)

  /** The number of audits run per request; fixed, not taken from the request. */
  const TotalAttempts: nat := 3

  const ServerErrorStatus: nat := 500
  const ServerErrorMessage: string := "Internal server error"

  /** The reply sent from the catch block. */
  function ServerError<D>(): Reply<D>
  {
    Failure(ServerErrorStatus, ServerErrorMessage)
  }

  /** The first `n` attempts all produced a result. */
  predicate AllRan<D>(audit: nat -> Attempt<D>, n: nat)
  {
    forall k: nat :: k < n ==> audit(k).Ran?
  }

  /** The results of the first `n` attempts, in attempt order. */
  function Completed<D>(audit: nat -> Attempt<D>, n: nat): seq<Lhr<D>>
    requires AllRan(audit, n)
  {
    seq(n, k requires 0 <= k < n => audit(k).lhr)
  }

  /** The performance scores of a sequence of results, position by position. */
  function Scores<D>(results: seq<Lhr<D>>): seq<real>
  {
    seq(|results|, k requires 0 <= k < |results| => results[k].performance)
  }

  /**
   * The reply the handler gives: the aggregate of all attempts when every
   * awaited call succeeds, the 500 reply otherwise.
   */
  function Respond<D>(env: Env<D>): Reply<D>
  {
    if env.launches && AllRan(env.audit, TotalAttempts) && env.kills then
      var results := Completed(env.audit, TotalAttempts);
      var best := Fold(Scores(results));
      Report(best.score, best.index, results)
    else
      ServerError()
  }

  /**
   * The handler itself: the attempt loop with its running best, followed
   * by the reply. Fail-fast: it replies with the aggregate exactly when
   * Chrome launches, every attempt produces a result and Chrome is killed;
   * otherwise it replies 500 with no results at all.
   */
  method HandleReport<D>(env: Env<D>) returns (reply: Reply<D>)
    ensures reply == Respond(env)
    ensures reply.Report? <==> env.launches && env.kills && forall k: nat :: k < TotalAttempts ==> env.audit(k).Ran?
    ensures reply.Failure? ==> reply.status == 500 && reply.message == "Internal server error"
    ensures reply.Report? ==>
              && |reply.results| == TotalAttempts
              && (forall k :: 0 <= k < TotalAttempts ==> reply.results[k] == env.audit(k).lhr)
              && Selected(Scores(reply.results), Best(reply.bestScore, reply.bestScoreIndex))
  {
    if !env.launches {
      return ServerError();
    }
    var results: seq<Lhr<D>> := [];
    var bestScore: real := 0.0;
    var bestScoreIndex: nat := 0;
    for attempt := 0 to TotalAttempts
      invariant AllRan(env.audit, attempt)
      invariant results == Completed(env.audit, attempt)
      invariant Selected(Scores(results), Best(bestScore, bestScoreIndex))
    {
      var runnerResult := env.audit(attempt);
      if runnerResult.Threw? {
        return ServerError();
      }
      StepSelected(Scores(results), Best(bestScore, bestScoreIndex), runnerResult.lhr.performance);
      assert Scores(results + [runnerResult.lhr]) == Scores(results) + [runnerResult.lhr.performance];
      results := results + [runnerResult.lhr];
      if runnerResult.lhr.performance > bestScore {
        bestScore := runnerResult.lhr.performance;
        bestScoreIndex := attempt;
      }
    }
    if !env.kills {
      return ServerError();
    }
    FoldCharacterised(Scores(results), Best(bestScore, bestScoreIndex));
    reply := Report(bestScore, bestScoreIndex, results);
  }

  /**
   * A successful reply holds one result per attempt, each the one that
   * attempt produced, and a best pair that points into them: the best
   * score is at least 0 and at least every score, equals the score of
   * the result it points at when positive, and keeps index 0 when 0.
   */
  lemma RespondReport<D>(env: Env<D>)
    requires Respond(env).Report?
    ensures |Respond(env).results| == TotalAttempts
    ensures forall k :: 0 <= k < TotalAttempts ==> Respond(env).results[k] == env.audit(k).lhr
    ensures Respond(env).bestScoreIndex < |Respond(env).results|
    ensures 0.0 <= Respond(env).bestScore
    ensures forall k :: 0 <= k < TotalAttempts ==> Respond(env).results[k].performance <= Respond(env).bestScore
    ensures Respond(env).bestScore > 0.0 ==>
              Respond(env).results[Respond(env).bestScoreIndex].performance == Respond(env).bestScore
    ensures Respond(env).bestScore == 0.0 ==> Respond(env).bestScoreIndex == 0
  {
    var scores := Scores(Respond(env).results);
    FoldSelected(scores);
    assert forall k :: 0 <= k < TotalAttempts ==> scores[k] == Respond(env).results[k].performance;
  }

  /**
   * With no negative score (Lighthouse scores lie in [0, 1]), ties go to
   * the earliest attempt: the index is the lowest one whose score equals
   * the maximum.
   */
  lemma RespondFirstWins<D>(env: Env<D>)
    requires Respond(env).Report?
    requires forall k :: 0 <= k < TotalAttempts ==> 0.0 <= Respond(env).results[k].performance
    ensures Respond(env).results[Respond(env).bestScoreIndex].performance == Respond(env).bestScore
    ensures forall k :: 0 <= k < TotalAttempts ==> Respond(env).results[k].performance <= Respond(env).bestScore
    ensures forall k :: 0 <= k < Respond(env).bestScoreIndex ==>
              Respond(env).results[k].performance < Respond(env).bestScore
  {
    var scores := Scores(Respond(env).results);
    assert forall k :: 0 <= k < TotalAttempts ==> scores[k] == Respond(env).results[k].performance;
    FoldFirstMaximum(scores);
  }

  /**
   * When no attempt scores strictly above 0 the request still succeeds, and
   * the reply carries bestScore 0 and bestScoreIndex 0; conversely that pair
   * is only reported when no attempt scored above 0.
   */
  lemma RespondNoPositiveScore<D>(env: Env<D>)
    requires Respond(env).Report?
    ensures (forall k :: 0 <= k < TotalAttempts ==> Respond(env).results[k].performance <= 0.0) <==>
              Respond(env).bestScore == 0.0 && Respond(env).bestScoreIndex == 0
  {
    var scores := Scores(Respond(env).results);
    assert forall k :: 0 <= k < TotalAttempts ==> scores[k] == Respond(env).results[k].performance;
    FoldNoPositiveScore(scores);
  }

  /**
   * A worked request: scores 0.40, 0.85 and 0.85 select attempt 1, the
   * first to reach 0.85, and all three results are returned in order.
   */
  lemma RespondExample<D>(r0: D, r1: D, r2: D)
    ensures
      var audit := (k: nat) =>
        if k == 0 then Ran(Lhr(0.40, r0)) else if k == 1 then Ran(Lhr(0.85, r1)) else Ran(Lhr(0.85, r2));
      Respond(Env(true, audit, true))
        == Report(0.85, 1, [Lhr(0.40, r0), Lhr(0.85, r1), Lhr(0.85, r2)])
  {
    var audit := (k: nat) =>
      if k == 0 then Ran(Lhr(0.40, r0)) else if k == 1 then Ran(Lhr(0.85, r1)) else Ran(Lhr(0.85, r2));
    var results := Completed(audit, TotalAttempts);
    assert results == [Lhr(0.40, r0), Lhr(0.85, r1), Lhr(0.85, r2)];
    var scores := Scores(results);
    assert scores == [0.40, 0.85, 0.85];
    assert Fold(scores[..1]) == Best(0.40, 0) by {
      assert scores[..1][..0] == [];
    }
    assert Fold(scores[..2]) == Best(0.85, 1) by {
      assert scores[..2][..1] == scores[..1];
    }
    assert Fold(scores) == Best(0.85, 1) by {
      assert scores[..|scores| - 1] == scores[..2];
    }
  }
}
