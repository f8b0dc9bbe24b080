/** `includePath`, the covered-count loop and the report of `nSwitchCovAMain`. */
module Coverage {
  import opened Types
  import opened Reader
  import opened StateFlow
  import opened Enumerate

  /** Trace `t` holds `p` as the window starting at offset `i`. */
  predicate OccursAt(t: seq<string>, p: seq<string>, i: int) {
    0 <= i && i + |p| <= |t| && t[i..i + |p|] == p
  }

  /** `p` is non-empty and a contiguous window of some trace. */
  predicate Covered(traces: seq<seq<string>>, p: seq<string>) {
    |p| > 0 && exists k, i :: 0 <= k < |traces| && 0 <= i <= |traces[k]| - |p| && OccursAt(traces[k], p, i)
  }

  /** `includePath` (cmd/nswitchcov_a/main.go:31-46). */
  method IncludePath(execPathSet: seq<seq<string>>, stateFlow: seq<string>) returns (found: bool)
    ensures found == Covered(execPathSet, stateFlow)
  {
    if |stateFlow| == 0 {
      return false;
    }
    var k := 0;
    while k < |execPathSet|
      invariant 0 <= k <= |execPathSet|
      invariant forall k', i :: 0 <= k' < k && 0 <= i <= |execPathSet[k']| - |stateFlow| ==>
                  !OccursAt(execPathSet[k'], stateFlow, i)
    {
      var execPath := execPathSet[k];
      if |execPath| == 0 {
        k := k + 1;
        continue;
      }
      var i := 0;
      while i <= |execPath| - |stateFlow|
        invariant 0 <= i <= Max(0, |execPath| - |stateFlow| + 1)
        invariant forall i' :: 0 <= i' < i ==> !OccursAt(execPath, stateFlow, i')
      {
        if execPath[i..i + |stateFlow|] == stateFlow {
          assert OccursAt(execPathSet[k], stateFlow, i);
          return true;
        }
        i := i + 1;
      }
      k := k + 1;
    }
    return false;
  }

  /** Traces shorter than the path never hold it; the path itself, as a trace, does. */
  lemma CoveredBasics(traces: seq<seq<string>>, p: seq<string>)
    ensures (forall k :: 0 <= k < |traces| ==> |traces[k]| < |p|) ==> !Covered(traces, p)
    ensures |p| > 0 && p in traces ==> Covered(traces, p)
  {
    if |p| > 0 && p in traces {
      var k :| 0 <= k < |traces| && traces[k] == p;
      assert OccursAt(traces[k], p, 0);
    }
  }

  /** Every trace of `traces` is also a trace of `more`. */
  predicate SubTraces(traces: seq<seq<string>>, more: seq<seq<string>>) {
    forall t :: t in traces ==> t in more
  }

  /** Adding traces never uncovers a path. */
  lemma CoveredMonotone(traces: seq<seq<string>>, more: seq<seq<string>>, p: seq<string>)
    requires SubTraces(traces, more) && Covered(traces, p)
    ensures Covered(more, p)
  {
    var k, i :| 0 <= k < |traces| && 0 <= i <= |traces[k]| - |p| && OccursAt(traces[k], p, i);
    assert traces[k] in more;
    var k' :| 0 <= k' < |more| && more[k'] == traces[k];
  }

  /** A covered path covers each of its non-empty windows. */
  lemma CoveredWindow(traces: seq<seq<string>>, p: seq<string>, a: nat, b: nat)
    requires Covered(traces, p) && a < b <= |p|
    ensures Covered(traces, p[a..b])
  {
    var k, i :| 0 <= k < |traces| && 0 <= i <= |traces[k]| - |p| && OccursAt(traces[k], p, i);
    var t := traces[k];
    var w := t[i + a..i + b];
    assert forall j :: 0 <= j < b - a ==> w[j] == p[a + j];
    assert w == p[a..b];
    assert OccursAt(t, p[a..b], i + a);
  }

  /** The number of `paths` covered by `traces`. */
  function CoveredCount(traces: seq<seq<string>>, paths: seq<seq<string>>): nat
  {
    if paths == [] then 0
    else CoveredCount(traces, paths[..|paths| - 1]) + (if Covered(traces, paths[|paths| - 1]) then 1 else 0)
  }

  /** At most every path is covered; all are iff each is, none iff none is. */
  lemma {:induction false} CoveredCountBounds(traces: seq<seq<string>>, paths: seq<seq<string>>)
    ensures CoveredCount(traces, paths) <= |paths|
    ensures CoveredCount(traces, paths) == |paths| <==> forall k :: 0 <= k < |paths| ==> Covered(traces, paths[k])
    ensures CoveredCount(traces, paths) == 0 <==> forall k :: 0 <= k < |paths| ==> !Covered(traces, paths[k])
    decreases |paths|
  {
    if paths != [] {
      var init := paths[..|paths| - 1];
      CoveredCountBounds(traces, init);
      assert forall k :: 0 <= k < |init| ==> init[k] == paths[k];
    }
  }

  /** The covered count is monotone in the trace set. */
  lemma {:induction false} CoveredCountMonotone(traces: seq<seq<string>>, more: seq<seq<string>>, paths: seq<seq<string>>)
    requires SubTraces(traces, more)
    ensures CoveredCount(traces, paths) <= CoveredCount(more, paths)
    decreases |paths|
  {
    if paths != [] {
      CoveredCountMonotone(traces, more, paths[..|paths| - 1]);
      if Covered(traces, paths[|paths| - 1]) {
        CoveredMonotone(traces, more, paths[|paths| - 1]);
      }
    }
  }

  /** The counting loop of `nSwitchCovAMain` (cmd/nswitchcov_a/main.go:244-252). */
  method CountCovered(execPath: seq<seq<string>>, stateFlowPathSet: seq<seq<string>>) returns (sumCoveringPath: nat)
    ensures sumCoveringPath == CoveredCount(execPath, stateFlowPathSet)
  {
    sumCoveringPath := 0;
    var k := 0;
    while k < |stateFlowPathSet|
      invariant 0 <= k <= |stateFlowPathSet|
      invariant sumCoveringPath == CoveredCount(execPath, stateFlowPathSet[..k])
    {
      var found := IncludePath(execPath, stateFlowPathSet[k]);
      assert stateFlowPathSet[..k + 1][..k] == stateFlowPathSet[..k];
      if found {
        sumCoveringPath := sumCoveringPath + 1;
      }
      k := k + 1;
    }
    assert stateFlowPathSet[..k] == stateFlowPathSet;
  }

  /** The coverage percentage, 0 when there are no n-switch paths (cmd/nswitchcov_a/main.go:254-259). */
  function CoveragePercent(covered: nat, total: nat): real
  {
    if total != 0 then (covered as real) / (total as real) * 100.0 else 0.0
  }

  lemma CoveragePercentBounds(covered: nat, total: nat)
    requires covered <= total
    ensures 0.0 <= CoveragePercent(covered, total) <= 100.0
    ensures total == 0 ==> CoveragePercent(covered, total) == 0.0
    ensures total > 0 ==> (CoveragePercent(covered, total) == 100.0 <==> covered == total)
  {
    if total != 0 {
      var q := (covered as real) / (total as real);
      assert q * (total as real) == covered as real;
      assert q <= 1.0;
    }
  }

  /** The result of a run: the number of execution paths, the n-switch paths, how many of them
      the execution paths cover, and the percentage. */
  datatype Report = Report(execPaths: nat, switchPaths: seq<seq<string>>, covering: nat, coverage: real)

  datatype MainError = ReadFailed(readError: ReadError) | BuildFailed(buildError: BuildError)

  /** `nSwitchCovAMain` (cmd/nswitchcov_a/main.go:218-260) on already-decoded file lines: the first
      error aborts the run; otherwise the report is computed from the walks of the flow's map. */
  method NSwitchCovAMain(fpExePath: string, exeLines: seq<string>, fpStateFlow: string, flowLines: seq<string>, n: int64)
    returns (r: Result<Report, MainError>)
    ensures ReadLines(fpExePath, exeLines).Failure? ==> r == Failure(ReadFailed(ReadLines(fpExePath, exeLines).error))
    ensures ReadLines(fpExePath, exeLines).Success? && ReadLines(fpStateFlow, flowLines).Failure? ==>
              r == Failure(ReadFailed(ReadLines(fpStateFlow, flowLines).error))
    ensures ReadLines(fpExePath, exeLines).Success? && ReadLines(fpStateFlow, flowLines).Success? ==>
              var build := BuildSpec(ReadLines(fpStateFlow, flowLines).value);
              && (build.Failure? ==> r == Failure(BuildFailed(build.error)))
              && (build.Success? ==>
                    && r.Success?
                    && r.value.execPaths == |ReadLines(fpExePath, exeLines).value|
                    && NoDuplicates(r.value.switchPaths)
                    && (forall p :: p in r.value.switchPaths <==> IsWalk(build.value, p, SwitchSteps(n)))
                    && r.value.covering == CoveredCount(ReadLines(fpExePath, exeLines).value, r.value.switchPaths)
                    && r.value.covering <= |r.value.switchPaths|
                    && r.value.coverage == CoveragePercent(r.value.covering, |r.value.switchPaths|))
  {
    var execPath := ReadExecutionPath(fpExePath, exeLines);
    if execPath.Failure? {
      return Failure(ReadFailed(execPath.error));
    }
    var stateFlowPath := ReadExecutionPath(fpStateFlow, flowLines);
    if stateFlowPath.Failure? {
      return Failure(ReadFailed(stateFlowPath.error));
    }
    var stateFlowMap := CreateStateFlowMap(stateFlowPath.value);
    if stateFlowMap.Failure? {
      return Failure(BuildFailed(stateFlowMap.error));
    }
    var stateFlowPathSet := CreateNSwitchPathSet(stateFlowMap.value, n);
    var sumCoveringPath := CountCovered(execPath.value, stateFlowPathSet);
    CoveredCountBounds(execPath.value, stateFlowPathSet);
    var coverage := CoveragePercent(sumCoveringPath, |stateFlowPathSet|);
    return Success(Report(|execPath.value|, stateFlowPathSet, sumCoveringPath, coverage));
  }

  /** Each n-switch path of a flow file has `2k+1` names for `k = SwitchSteps(n)` transitions
      (`2n+3` when `0 <= n` and `n + 1` does not wrap, 3 when it does), starts at a state of the map, and each of its steps is a transition
      that the flow file declares. */
  lemma SwitchPathsDeclared(flows: seq<seq<string>>, p: seq<string>, n: int64)
    requires BuildSpec(flows).Success? && IsWalk(BuildSpec(flows).value, p, SwitchSteps(n))
    ensures |p| == 2 * SwitchSteps(n) + 1 && p[0] in BuildSpec(flows).value
    ensures 0 <= n as int < MaxInt64 ==> |p| == 2 * (n as int) + 3
    ensures n as int == MaxInt64 ==> |p| == 3
    ensures forall i :: 0 <= i < SwitchSteps(n) ==> Declared(flows, p[2 * i], p[2 * i + 1], p[2 * i + 2])
  {
    var g := BuildSpec(flows).value;
    IsWalkIndex(g, p, SwitchSteps(n));
    BuildSpecHolds(flows);
    forall i | 0 <= i < SwitchSteps(n) ensures Declared(flows, p[2 * i], p[2 * i + 1], p[2 * i + 2]) {
      assert StepAt(g, p, i);
      assert Edge(g, p[2 * i], p[2 * i + 1], p[2 * i + 2]);
    }
  }
}
