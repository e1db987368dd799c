/** The per-task review loop: every result of a batch becomes one five-field
    log row; a result whose candidate ADL passes validation and verification
    joins the candidate pool together with its path change; the winner is the
    first candidate with the smallest path change. */
module Selection {
  import opened Wrappers
  import opened Executor
  import PathDiff

  /** A step identifier of an execution path, as the ADL helpers produce it. */
  type Step = string
  type Path = PathDiff.Path<Step>

  /** A verification verdict passes when it is text starting with this. */
  const PassMarker: string := "Both Validation and Verification:"

  /** The helper functions the loop calls. Their source is not part of this
      model: `loadAdl` is `load_adl`, `pathsOf` is `preprocess_with_adl`, and
      `verify` is `validation_verification(adl, requirement)`. */
  datatype Helpers = Helpers(
    loadAdl: string -> string,
    pathsOf: string -> seq<Path>,
    verify: (string, string) -> Value)

  /** One row of either log: system, requirement, run_id, result, runtime. */
  datatype Row = Row(system: string, requirement: string, runId: int, result: Value, runtime: real)

  /** The candidate ADL is truthy: present and not empty. */
  predicate HasCandidate(r: RawResult)
  {
    r.adl.Some? && r.adl.value != ""
  }

  /** The verdict is a string starting with the pass marker. */
  predicate Passes(v: Value)
  {
    v.Text? && PassMarker <= v.text
  }

  /** The result enters the candidate pool. */
  predicate Qualifies(r: RawResult, requirement: string, h: Helpers)
  {
    HasCandidate(r) && Passes(h.verify(r.adl.value, requirement))
  }

  /** Path-diff distance between the original system and the candidate. */
  function PathChange(r: RawResult, original: seq<Path>, h: Helpers): nat
    requires HasCandidate(r)
  {
    PathDiff.Distance(original, h.pathsOf(r.adl.value))
  }

  /** The log row of one result: the identifying fields and the runtime are
      kept; the result field is the verdict on the candidate when there is
      one, and the attempt's own result (or diagnostic) otherwise. */
  function Trim(r: RawResult, requirement: string, h: Helpers): (row: Row)
    ensures row.system == r.system && row.requirement == r.requirement
    ensures row.runId == r.runId && row.runtime == r.elapsed
    ensures HasCandidate(r) ==> row.result == h.verify(r.adl.value, requirement)
    ensures !HasCandidate(r) ==> row.result == r.result
  {
    var result := if HasCandidate(r) then h.verify(r.adl.value, requirement) else r.result;
    Row(r.system, r.requirement, r.runId, result, r.elapsed)
  }

  /** A row in the candidate pool carries a passing verdict, and a row outside
      it that has a candidate does not. */
  lemma TrimmedVerdictDecidesPool(r: RawResult, requirement: string, h: Helpers)
    requires HasCandidate(r)
    ensures Qualifies(r, requirement, h) <==> Passes(Trim(r, requirement, h).result)
  {
  }

  /** The indices below `n` of the results that enter the candidate pool, in
      run order. */
  function Kept(results: seq<RawResult>, requirement: string, h: Helpers, n: nat): (ks: seq<nat>)
    requires n <= |results|
    ensures forall k :: 0 <= k < |ks| ==> ks[k] < n && Qualifies(results[ks[k]], requirement, h)
    ensures forall k, l :: 0 <= k < l < |ks| ==> ks[k] < ks[l]
    ensures forall i :: 0 <= i < n && Qualifies(results[i], requirement, h) ==> i in ks
    decreases n
  {
    if n == 0 then []
    else Kept(results, requirement, h, n - 1)
         + (if Qualifies(results[n - 1], requirement, h) then [n - 1] else [])
  }

  /** Where a qualifying result sits in the pool. */
  lemma KeptPosition(results: seq<RawResult>, requirement: string, h: Helpers, j: nat) returns (k: nat)
    requires j < |results| && Qualifies(results[j], requirement, h)
    ensures k < |Kept(results, requirement, h, |results|)|
    ensures Kept(results, requirement, h, |results|)[k] == j
  {
    var ks := Kept(results, requirement, h, |results|);
    assert j in ks;
    k :| 0 <= k < |ks| && ks[k] == j;
  }

  /** The candidate pool: the rows of the kept results. */
  function KeptRows(results: seq<RawResult>, requirement: string, h: Helpers, n: nat): seq<Row>
    requires n <= |results|
  {
    var ks := Kept(results, requirement, h, n);
    seq(|ks|, k requires 0 <= k < |ks| => Trim(results[ks[k]], requirement, h))
  }

  /** The path changes of the candidate pool, index-aligned with `KeptRows`. */
  function KeptChanges(results: seq<RawResult>, requirement: string, original: seq<Path>, h: Helpers, n: nat): seq<nat>
    requires n <= |results|
  {
    var ks := Kept(results, requirement, h, n);
    seq(|ks|, k requires 0 <= k < |ks| => PathChange(results[ks[k]], original, h))
  }

  /** Reviews a batch in run order: one log row per result, and the candidate
      pool with its path changes, the two growing together. */
  method ReviewBatch(results: seq<RawResult>, requirement: string, original: seq<Path>, h: Helpers)
    returns (log: seq<Row>, filtered: seq<Row>, changes: seq<nat>)
    ensures |log| == |results|
    ensures forall i :: 0 <= i < |results| ==> log[i] == Trim(results[i], requirement, h)
    ensures filtered == KeptRows(results, requirement, h, |results|)
    ensures changes == KeptChanges(results, requirement, original, h, |results|)
    ensures |filtered| == |changes|
  {
    log, filtered, changes := [], [], [];
    for i := 0 to |results|
      invariant |log| == i
      invariant forall j :: 0 <= j < i ==> log[j] == Trim(results[j], requirement, h)
      invariant filtered == KeptRows(results, requirement, h, i)
      invariant changes == KeptChanges(results, requirement, original, h, i)
    {
      var result := results[i];
      var trimmed: Row;
      if result.adl.Some? && result.adl.value != "" {
        var execResult := h.verify(result.adl.value, requirement);
        trimmed := Row(result.system, result.requirement, result.runId, execResult, result.elapsed);
        var newPath := h.pathsOf(result.adl.value);
        var pathChange := PathDiff.Distance(original, newPath);
        if execResult.Text? && PassMarker <= execResult.text {
          filtered := filtered + [trimmed];
          changes := changes + [pathChange];
        }
      } else {
        trimmed := Row(result.system, result.requirement, result.runId, result.result, result.elapsed);
      }
      log := log + [trimmed];
    }
  }

  /** The smallest path change (Python's `min`). */
  function Min(s: seq<nat>): (m: nat)
    requires |s| > 0
    ensures m in s
    ensures forall j :: 0 <= j < |s| ==> m <= s[j]
  {
    if |s| == 1 then s[0]
    else
      var rest := Min(s[1..]);
      if s[0] <= rest then s[0] else rest
  }

  /** The first position holding `x` (Python's `list.index`). */
  function IndexOf(s: seq<nat>, x: nat): (k: nat)
    requires x in s
    ensures k < |s| && s[k] == x
    ensures forall j :: 0 <= j < k ==> s[j] != x
  {
    if s[0] == x then 0 else 1 + IndexOf(s[1..], x)
  }

  /** The position of the winner in the candidate pool,
      `filtered_path_changes.index(min(filtered_path_changes))`: it holds a
      smallest change, and every earlier position holds a strictly larger one. */
  function SelectIndex(changes: seq<nat>): (k: nat)
    requires |changes| > 0
    ensures k < |changes|
    ensures forall j :: 0 <= j < |changes| ==> changes[k] <= changes[j]
    ensures forall j :: 0 <= j < k ==> changes[j] > changes[k]
  {
    IndexOf(changes, Min(changes))
  }

  /** A pool of two candidates with path changes 4 and 1 (say, attempts 1 and
      2 passed and attempt 3 failed): the second is picked. In a pool with a
      tie for the smallest change the earlier candidate wins. */
  lemma ExampleSelections()
    ensures SelectIndex([4, 1]) == 1
    ensures SelectIndex([3, 1, 1]) == 1
  {
  }

  /** At most one position is the first minimal one. */
  lemma FirstMinimalPositionUnique(changes: seq<nat>, k: nat, k': nat)
    requires k < |changes| && k' < |changes|
    requires forall j :: 0 <= j < |changes| ==> changes[k] <= changes[j] && changes[k'] <= changes[j]
    requires forall j :: 0 <= j < k ==> changes[j] > changes[k]
    requires forall j :: 0 <= j < k' ==> changes[j] > changes[k']
    ensures k == k'
  {
    assert changes[k] == changes[k'];
  }

  /** Reference selection: scan the first `n` changes left to right, replacing
      the best so far only by a strictly smaller change. */
  function ScanMin(changes: seq<nat>, n: nat): (k: nat)
    requires 0 < n <= |changes|
    ensures k < n
  {
    if n == 1 then 0
    else
      var best := ScanMin(changes, n - 1);
      if changes[n - 1] < changes[best] then n - 1 else best
  }

  lemma {:induction false} ScanMinIsFirstMinimal(changes: seq<nat>, n: nat)
    requires 0 < n <= |changes|
    ensures forall j :: 0 <= j < n ==> changes[ScanMin(changes, n)] <= changes[j]
    ensures forall j :: 0 <= j < ScanMin(changes, n) ==> changes[j] > changes[ScanMin(changes, n)]
    decreases n
  {
    if n > 1 {
      ScanMinIsFirstMinimal(changes, n - 1);
    }
  }

  /** `index(min(...))` picks the same candidate as the left-to-right scan. */
  lemma SelectIndexAgreesWithScan(changes: seq<nat>)
    requires |changes| > 0
    ensures SelectIndex(changes) == ScanMin(changes, |changes|)
  {
    ScanMinIsFirstMinimal(changes, |changes|);
    FirstMinimalPositionUnique(changes, SelectIndex(changes), ScanMin(changes, |changes|));
  }

  /** The row appended to the selection log, if any: nothing when the pool is
      empty, otherwise the row at the winning position. */
  function Select(filtered: seq<Row>, changes: seq<nat>): (optimal: Option<Row>)
    requires |filtered| == |changes|
    ensures optimal.None? <==> |filtered| == 0
    ensures optimal.Some? ==> optimal.value in filtered
    ensures optimal.Some? ==>
              exists k :: 0 <= k < |filtered| && optimal.value == filtered[k]
                && (forall j :: 0 <= j < |changes| ==> changes[k] <= changes[j])
                && (forall j :: 0 <= j < k ==> changes[j] > changes[k])
  {
    if |filtered| == 0 then None else Some(filtered[SelectIndex(changes)])
  }

  /** Result `i` of the batch is the one the selection must pick: it is in the
      pool, no pooled result has a smaller path change, and every pooled result
      before it has a strictly larger one. */
  predicate FirstMinimal(results: seq<RawResult>, requirement: string, original: seq<Path>, h: Helpers, i: nat)
  {
    && i < |results|
    && Qualifies(results[i], requirement, h)
    && (forall j :: 0 <= j < |results| && Qualifies(results[j], requirement, h) ==>
          PathChange(results[i], original, h) <= PathChange(results[j], original, h))
    && (forall j :: 0 <= j < i && Qualifies(results[j], requirement, h) ==>
          PathChange(results[j], original, h) > PathChange(results[i], original, h))
  }

  /** At most one result of a batch is first-minimal. */
  lemma FirstMinimalUnique(results: seq<RawResult>, requirement: string, original: seq<Path>, h: Helpers, i: nat, i': nat)
    requires FirstMinimal(results, requirement, original, h, i)
    requires FirstMinimal(results, requirement, original, h, i')
    ensures i == i'
  {
  }

  /** The index of the batch result the selection picks, through the pool:
      none exactly when no result qualifies, and otherwise the first-minimal one. */
  function Choose(results: seq<RawResult>, requirement: string, original: seq<Path>, h: Helpers): (choice: Option<nat>)
    ensures choice.None? <==> forall i :: 0 <= i < |results| ==> !Qualifies(results[i], requirement, h)
    ensures choice.Some? ==> FirstMinimal(results, requirement, original, h, choice.value)
  {
    var ks := Kept(results, requirement, h, |results|);
    var cs := KeptChanges(results, requirement, original, h, |results|);
    if |ks| == 0 then None
    else
      var k := SelectIndex(cs);
      ChosenIsFirstMinimal(results, requirement, original, h, ks, cs, k);
      Some(ks[k])
  }

  lemma ChosenIsFirstMinimal(results: seq<RawResult>, requirement: string, original: seq<Path>, h: Helpers,
                             ks: seq<nat>, cs: seq<nat>, k: nat)
    requires ks == Kept(results, requirement, h, |results|)
    requires cs == KeptChanges(results, requirement, original, h, |results|)
    requires k < |cs|
    requires forall j :: 0 <= j < |cs| ==> cs[k] <= cs[j]
    requires forall j :: 0 <= j < k ==> cs[j] > cs[k]
    ensures FirstMinimal(results, requirement, original, h, ks[k])
  {
    var i := ks[k];
    forall j | 0 <= j < |results| && Qualifies(results[j], requirement, h)
      ensures PathChange(results[i], original, h) <= PathChange(results[j], original, h)
    {
      var k' := KeptPosition(results, requirement, h, j);
      assert cs[k'] == PathChange(results[j], original, h);
    }
    forall j | 0 <= j < i && Qualifies(results[j], requirement, h)
      ensures PathChange(results[j], original, h) > PathChange(results[i], original, h)
    {
      var k' := KeptPosition(results, requirement, h, j);
      assert cs[k'] == PathChange(results[j], original, h);
      assert k' < k;
    }
  }

  /** Review one batch and pick its winner: one row per result, and a
      selection exactly when some result passed, namely the row of the unique
      first-minimal passing result. */
  method ReviewAndSelect(results: seq<RawResult>, requirement: string, original: seq<Path>, h: Helpers)
    returns (log: seq<Row>, optimal: Option<Row>)
    ensures |log| == |results|
    ensures forall i :: 0 <= i < |results| ==> log[i] == Trim(results[i], requirement, h)
    ensures optimal.None? <==> forall i :: 0 <= i < |results| ==> !Qualifies(results[i], requirement, h)
    ensures optimal.Some? ==>
              exists i: nat :: FirstMinimal(results, requirement, original, h, i) && optimal.value == log[i]
    ensures optimal.Some? ==> optimal.value in log && Passes(optimal.value.result)
  {
    var filtered, changes;
    log, filtered, changes := ReviewBatch(results, requirement, original, h);
    optimal := Select(filtered, changes);
    var ks := Kept(results, requirement, h, |results|);
    if |ks| > 0 {
      var k := SelectIndex(changes);
      var i := ks[k];
      assert filtered[k] == log[i];
      assert Choose(results, requirement, original, h) == Some(i);
      TrimmedVerdictDecidesPool(results[i], requirement, h);
    } else {
      assert Choose(results, requirement, original, h).None?;
    }
  }
}
