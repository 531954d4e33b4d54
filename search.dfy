/**
 * `optimize_vrm_to_target`: tries candidate settings in order, each time re-running the whole
 * optimization on the ORIGINAL input, until one output is small enough or the attempt budget
 * is spent, remembering the smallest output seen. One attempt is a parameter: the output size
 * it produces from the original input and a candidate, or None when the attempt raises.
 * Re-reading the original holds only while the output path differs from the input path;
 * when they are the same file, each attempt loads the previous attempt's output, which this
 * module does not model.
 */
module Search {
  import opened Wrappers
  import opened Bytes
  import opened Config
  import opened Candidates

  /**
   * How the search ended: how many attempts were started, whether the last one hit the target
   * or raised, and the best (smallest, earliest on ties) size seen with its settings.
   */
  datatype Outcome = Outcome(tried: nat, hit: bool, aborted: bool, bestSize: Option<nat>, bestCfg: Option<Settings>)

  /** The attempts that produced an output size. */
  function Completed(r: Outcome): nat
  {
    if r.aborted && r.tried > 0 then r.tried - 1 else r.tried
  }

  /** The most attempts the budget allows: `attempts > max_attempts` stops the loop. */
  function Budget(n: nat, maxAttempts: int): nat
  {
    if maxAttempts <= 0 then 0 else if n <= maxAttempts then n else maxAttempts
  }

  /** Attempt `b` gave the smallest of the first `n` sizes, and no earlier attempt gave as small a one. */
  predicate EarliestMinimum(sizes: seq<nat>, n: nat, b: nat)
    requires n <= |sizes|
  {
    b < n && (forall k :: 0 <= k < n ==> sizes[b] <= sizes[k]) && (forall k :: 0 <= k < b ==> sizes[k] > sizes[b])
  }

  /** The sizes of the first `n` attempts, each run on the original input. */
  function SizesOf(original: seq<Byte>, candidates: seq<Settings>, attempt: (seq<Byte>, Settings) -> Option<nat>, n: nat): (s: seq<nat>)
    requires n <= |candidates|
    requires forall k :: 0 <= k < n ==> attempt(original, candidates[k]).Some?
    ensures |s| == n && forall k :: 0 <= k < n ==> s[k] == attempt(original, candidates[k]).value
  {
    seq(n, k requires 0 <= k < n => attempt(original, candidates[k]).value)
  }

  /**
   * What the search promises about its outcome `r` over `candidates`: at most `max_attempts`
   * attempts, in candidate order, each on `original`; it stops right after the first size <= target
   * (hit) or the first attempt that raises (aborted), and otherwise runs out of budget or
   * candidates with every size above target; the recorded best is the smallest size seen, the
   * earliest attempt winning ties.
   */
  predicate Searched(original: seq<Byte>, candidates: seq<Settings>, maxAttempts: int, targetBytes: int,
                     attempt: (seq<Byte>, Settings) -> Option<nat>, r: Outcome)
  {
    && r.tried <= Budget(|candidates|, maxAttempts)
    && !(r.hit && r.aborted)
    && (r.aborted ==> r.tried > 0 && attempt(original, candidates[r.tried - 1]).None?)
    && (forall k :: 0 <= k < Completed(r) ==> attempt(original, candidates[k]).Some?)
    && (forall k :: 0 <= k < Completed(r) && !(r.hit && k == r.tried - 1) ==>
          attempt(original, candidates[k]).value > targetBytes)
    && (r.hit ==> r.tried > 0 && attempt(original, candidates[r.tried - 1]).Some? &&
                  attempt(original, candidates[r.tried - 1]).value <= targetBytes)
    && (!r.hit && !r.aborted ==> r.tried == Budget(|candidates|, maxAttempts))
    && (r.bestSize.None? <==> Completed(r) == 0)
    && (r.bestCfg.None? <==> Completed(r) == 0)
    && (Completed(r) > 0 ==>
          exists b :: 0 <= b < Completed(r) &&
            EarliestMinimum(SizesOf(original, candidates, attempt, Completed(r)), Completed(r), b) &&
            r.bestSize == Some(attempt(original, candidates[b]).value) && r.bestCfg == Some(candidates[b]))
  }

  /** The loop `for cfg in candidates` of `optimize_vrm_to_target`, with its best-tracking. */
  method TryInOrder(original: seq<Byte>, candidates: seq<Settings>, maxAttempts: int, targetBytes: int,
                    attempt: (seq<Byte>, Settings) -> Option<nat>)
    returns (r: Outcome)
    ensures Searched(original, candidates, maxAttempts, targetBytes, attempt, r)
  {
    var bestSize: Option<nat> := None;
    var bestCfg: Option<Settings> := None;
    ghost var bestAt: nat := 0;
    var attempts := 0;
    for k := 0 to |candidates|
      invariant attempts == k && k <= Budget(|candidates|, maxAttempts)
      invariant forall p :: 0 <= p < k ==> attempt(original, candidates[p]).Some?
      invariant forall p :: 0 <= p < k ==> attempt(original, candidates[p]).value > targetBytes
      invariant bestSize.None? <==> k == 0
      invariant bestCfg.None? <==> k == 0
      invariant k > 0 ==> EarliestMinimum(SizesOf(original, candidates, attempt, k), k, bestAt) &&
                          bestSize == Some(attempt(original, candidates[bestAt]).value) &&
                          bestCfg == Some(candidates[bestAt])
    {
      attempts := attempts + 1;
      if attempts > maxAttempts {
        return Outcome(k, false, false, bestSize, bestCfg);
      }
      var out := attempt(original, candidates[k]);
      if out.None? {
        return Outcome(k + 1, false, true, bestSize, bestCfg);
      }
      var outSize := out.value;
      if bestSize.None? || outSize < bestSize.value {
        bestSize := Some(outSize);
        bestCfg := Some(candidates[k]);
        bestAt := k;
      }
      assert EarliestMinimum(SizesOf(original, candidates, attempt, k + 1), k + 1, bestAt);
      if outSize <= targetBytes {
        return Outcome(k + 1, true, false, bestSize, bestCfg);
      }
    }
    return Outcome(|candidates|, false, false, bestSize, bestCfg);
  }

  /**
   * `optimize_vrm_to_target`: the search over the candidates generated from the start settings,
   * every attempt re-run from `original`. This is the behaviour when the output path differs
   * from the input path; when both name the same file, attempt k + 1 reads attempt k's output
   * instead. The output file is left holding the last attempt's result.
   */
  method OptimizeToTarget(original: seq<Byte>, start: Settings, maxAttempts: int, targetBytes: int,
                          attempt: (seq<Byte>, Settings) -> Option<nat>)
    returns (r: Outcome)
    ensures Searched(original, CandidateSettings(start), maxAttempts, targetBytes, attempt, r)
  {
    r := TryInOrder(original, CandidateSettings(start), maxAttempts, targetBytes, attempt);
  }

  /** At most one attempt is the earliest minimum of the first `n` sizes. */
  lemma EarliestMinimumUnique(sizes: seq<nat>, n: nat, b: nat, b': nat)
    requires n <= |sizes|
    requires EarliestMinimum(sizes, n, b) && EarliestMinimum(sizes, n, b')
    ensures b == b'
  {
    assert sizes[b] <= sizes[b'] && sizes[b'] <= sizes[b];
  }

  /** Two outcomes that both meet `Searched` started the same number of attempts. */
  lemma SearchedTried(original: seq<Byte>, candidates: seq<Settings>, maxAttempts: int, targetBytes: int,
                      attempt: (seq<Byte>, Settings) -> Option<nat>, r: Outcome, r': Outcome)
    requires Searched(original, candidates, maxAttempts, targetBytes, attempt, r)
    requires Searched(original, candidates, maxAttempts, targetBytes, attempt, r')
    ensures r.tried == r'.tried
  {
    if r.tried < r'.tried {
      StoppedBefore(original, candidates, maxAttempts, targetBytes, attempt, r, r');
    } else if r'.tried < r.tried {
      StoppedBefore(original, candidates, maxAttempts, targetBytes, attempt, r', r);
    }
  }

  /** An outcome cannot stop before another one meeting `Searched` on the same input. */
  lemma StoppedBefore(original: seq<Byte>, candidates: seq<Settings>, maxAttempts: int, targetBytes: int,
                      attempt: (seq<Byte>, Settings) -> Option<nat>, r: Outcome, r': Outcome)
    requires Searched(original, candidates, maxAttempts, targetBytes, attempt, r)
    requires Searched(original, candidates, maxAttempts, targetBytes, attempt, r')
    ensures r'.tried <= r.tried
  {
    if r.hit {
      assert attempt(original, candidates[r.tried - 1]).value <= targetBytes;
    } else if r.aborted {
      assert attempt(original, candidates[r.tried - 1]).None?;
    }
  }

  /**
   * The search is deterministic: `Searched` fixes the outcome, so the same input, candidates,
   * budget, target and attempts always give the same outcome.
   */
  lemma SearchedUnique(original: seq<Byte>, candidates: seq<Settings>, maxAttempts: int, targetBytes: int,
                       attempt: (seq<Byte>, Settings) -> Option<nat>, r: Outcome, r': Outcome)
    requires Searched(original, candidates, maxAttempts, targetBytes, attempt, r)
    requires Searched(original, candidates, maxAttempts, targetBytes, attempt, r')
    ensures r == r'
  {
    SearchedTried(original, candidates, maxAttempts, targetBytes, attempt, r, r');
    var n := Completed(r);
    if n > 0 {
      var b :| 0 <= b < n && EarliestMinimum(SizesOf(original, candidates, attempt, n), n, b) &&
               r.bestSize == Some(attempt(original, candidates[b]).value) && r.bestCfg == Some(candidates[b]);
      var b' :| 0 <= b' < Completed(r') && EarliestMinimum(SizesOf(original, candidates, attempt, Completed(r')), Completed(r'), b') &&
                r'.bestSize == Some(attempt(original, candidates[b']).value) && r'.bestCfg == Some(candidates[b']);
      EarliestMinimumUnique(SizesOf(original, candidates, attempt, n), n, b, b');
    }
  }
}
