/** `CreateNSwitchPathSet`: every path of n+1 consecutive transitions of the state-flow map. */
module Enumerate {
  import opened Types
  import opened StateFlow

  /** No path occurs twice. */
  predicate NoDuplicates(ps: seq<seq<string>>) {
    forall i, j :: 0 <= i < |ps| && 0 <= j < |ps| && ps[i] == ps[j] ==> i == j
  }

  /** `addFlowPath`'s result: `output`, with `p` appended unless already present. */
  function WithPath(output: seq<seq<string>>, p: seq<string>): seq<seq<string>> {
    if p in output then output else output + [p]
  }

  lemma WithPathSpec(output: seq<seq<string>>, p: seq<string>)
    ensures |output| <= |WithPath(output, p)| <= |output| + 1
    ensures WithPath(output, p)[..|output|] == output
    ensures forall q :: q in WithPath(output, p) <==> q in output || q == p
    ensures NoDuplicates(output) ==> NoDuplicates(WithPath(output, p))
  {
    assert (output + [p])[..|output|] == output;
  }

  /** `addFlowPath` (cmd/nswitchcov_a/main.go:56-66). */
  method AddFlowPath(output: seq<seq<string>>, addPath: seq<string>) returns (r: seq<seq<string>>)
    ensures r == WithPath(output, addPath)
  {
    var i := 0;
    while i < |output|
      invariant 0 <= i <= |output|
      invariant addPath !in output[..i]
    {
      if output[i] == addPath {
        return output;
      }
      assert output[..i + 1] == output[..i] + [output[i]];
      i := i + 1;
    }
    assert output[..i] == output;
    return output + [addPath];
  }

  /** `m[s]`, the nil map when `s` is not a key. */
  function Inner(g: Graph, s: string): map<string, string> {
    if s in g then g[s] else map[]
  }

  /** `w` is a sequence of (event, state) steps, each a transition of `g` from the state before it. */
  predicate StepsFrom(g: Graph, s: string, w: seq<string>)
    decreases |w|
  {
    w == [] || (|w| >= 2 && w[0] in Inner(g, s) && Inner(g, s)[w[0]] == w[1] && StepsFrom(g, w[1], w[2..]))
  }

  /** `p` is `pre` followed by `k` steps of `g` starting from state `s`. */
  predicate Extends(g: Graph, pre: seq<string>, s: string, k: nat, p: seq<string>) {
    |p| == |pre| + 2 * k && p[..|pre|] == pre && StepsFrom(g, s, p[|pre|..])
  }

  /** As `Extends`, with first event `e`. */
  predicate ExtendsVia(g: Graph, pre: seq<string>, s: string, k: nat, e: string, p: seq<string>)
    requires k >= 1
  {
    e in Inner(g, s) && Extends(g, pre + [e, Inner(g, s)[e]], Inner(g, s)[e], k - 1, p)
  }

  /** `p` extends `pre` from `s` through one of the events of `done`. */
  ghost predicate ExtendsSome(g: Graph, pre: seq<string>, s: string, k: nat, done: set<string>, p: seq<string>)
    requires k >= 1
  {
    exists e :: e in done && ExtendsVia(g, pre, s, k, e, p)
  }

  /** `p` starts at a state of `starts` and takes `k` steps of `g`. */
  predicate WalkFrom(g: Graph, starts: set<string>, p: seq<string>, k: nat) {
    |p| > 0 && p[0] in starts && Extends(g, [p[0]], p[0], k, p)
  }

  /** An n-switch path: a state of `g` followed by `k` steps. */
  predicate IsWalk(g: Graph, p: seq<string>, k: nat) {
    WalkFrom(g, g.Keys, p, k)
  }

  /** Step `i` of `p` is the transition `g[p[2i]][p[2i+1]] == p[2i+2]`. */
  predicate StepAt(g: Graph, p: seq<string>, i: nat)
    requires 2 * i + 2 < |p|
  {
    p[2 * i] in g && p[2 * i + 1] in g[p[2 * i]] && g[p[2 * i]][p[2 * i + 1]] == p[2 * i + 2]
  }

  /** Steps left to take when the recursion is entered with `recCount` already taken. */
  function Remaining(recLimit: int, recCount: nat): (k: nat)
    ensures k >= 1
  {
    if recLimit <= recCount + 1 then 1 else recLimit - recCount
  }

  /** Transitions in the paths for `-n n`: the recursion limit is Go's `nValue+1`, so a negative
      `n`, and the largest `int`, where the sum wraps to the smallest, behave like `n = 0`. */
  function SwitchSteps(n: int64): (k: nat)
    ensures k == Remaining(Inc64(n) as int, 0)
    ensures 0 <= n as int < MaxInt64 ==> k == n as int + 1
    ensures n < 0 || n as int == MaxInt64 ==> k == 1
  {
    if n <= 0 || n as int == MaxInt64 then 1 else n as int + 1
  }

  // ---------------------------------------------------------------------------
  // Lemmas on walks

  lemma ExtendsZero(g: Graph, pre: seq<string>, s: string, p: seq<string>)
    ensures Extends(g, pre, s, 0, p) <==> p == pre
  {
    if p == pre {
      assert p[|pre|..] == [];
    }
  }

  /** A walk of `k >= 1` steps starts with one of the events of its first state. */
  lemma ExtendsSplit(g: Graph, pre: seq<string>, s: string, k: nat, p: seq<string>)
    requires k >= 1
    ensures Extends(g, pre, s, k, p) <==> ExtendsSome(g, pre, s, k, Inner(g, s).Keys, p)
  {
    var n := |pre|;
    if Extends(g, pre, s, k, p) {
      var w := p[n..];
      var e := w[0];
      var pre' := pre + [e, w[1]];
      assert p[..n + 2] == pre';
      assert p[n + 2..] == w[2..];
      assert ExtendsVia(g, pre, s, k, e, p);
    }
    if ExtendsSome(g, pre, s, k, Inner(g, s).Keys, p) {
      var e :| e in Inner(g, s).Keys && ExtendsVia(g, pre, s, k, e, p);
      var pre' := pre + [e, Inner(g, s)[e]];
      assert p[..n] == p[..n + 2][..n] == pre'[..n] == pre;
      var w := p[n..];
      assert w[0] == e && w[1] == Inner(g, s)[e];
      assert w[2..] == p[n + 2..];
    }
  }

  /** No step leaves a state without events. */
  lemma DeadEnd(g: Graph, pre: seq<string>, t: string, k: nat, p: seq<string>)
    requires k >= 1 && |Inner(g, t)| == 0
    ensures !Extends(g, pre, t, k, p)
  {
  }

  lemma ExtendsSomeStep(g: Graph, pre: seq<string>, s: string, k: nat, done: set<string>, e: string, p: seq<string>)
    requires k >= 1
    ensures ExtendsSome(g, pre, s, k, done + {e}, p) <==> ExtendsSome(g, pre, s, k, done, p) || ExtendsVia(g, pre, s, k, e, p)
  {
  }

  lemma {:induction false} StepsFromIndex(g: Graph, s: string, w: seq<string>)
    requires |w| % 2 == 0
    ensures StepsFrom(g, s, w) <==>
              (w == [] || s in g) && forall i :: 0 <= i < |w| / 2 ==> StepAt(g, [s] + w, i)
    decreases |w|
  {
    if w != [] {
      var p := [s] + w;
      StepsFromIndex(g, w[1], w[2..]);
      var p' := [w[1]] + w[2..];
      assert p' == p[2..];
      forall i | 1 <= i < |w| / 2 ensures StepAt(g, p, i) <==> StepAt(g, p', i - 1) {
        assert p[2 * i] == p'[2 * i - 2] && p[2 * i + 1] == p'[2 * i - 1] && p[2 * i + 2] == p'[2 * i];
      }
      if forall i :: 0 <= i < |w| / 2 ==> StepAt(g, p, i) {
        assert StepAt(g, p, 0);
        forall i | 0 <= i < |w[2..]| / 2 ensures StepAt(g, p', i) {
          assert StepAt(g, p, i + 1);
        }
        if w[2..] != [] {
          assert StepAt(g, p', 0);
        }
      }
      if StepsFrom(g, s, w) {
        forall i | 0 <= i < |w| / 2 ensures StepAt(g, p, i) {
          if i > 0 {
            assert StepAt(g, p', i - 1);
          }
        }
      }
    }
  }

  /** An n-switch path in index form: `2k+1` names, each odd position an event of the state
      before it, leading to the state after it. */
  lemma IsWalkIndex(g: Graph, p: seq<string>, k: nat)
    ensures IsWalk(g, p, k) <==>
              |p| == 2 * k + 1 && p[0] in g && forall i :: 0 <= i < k ==> StepAt(g, p, i)
  {
    if |p| == 2 * k + 1 {
      assert p[..1] == [p[0]];
      assert [p[0]] + p[1..] == p;
      StepsFromIndex(g, p[0], p[1..]);
    }
  }

  // ---------------------------------------------------------------------------
  // The Go recursion

  /** `out` is `base` followed by further paths. */
  predicate Grown(out: seq<seq<string>>, base: seq<seq<string>>) {
    |base| <= |out| && out[..|base|] == base
  }

  /** The levels of the stack below `n` are as in `s`, and it has not shrunk. */
  predicate KeepsLevels(s': seq<seq<string>>, s: seq<seq<string>>, n: nat) {
    n <= |s| <= |s'| && s'[..n] == s[..n]
  }

  /** `out` holds the paths of `base` and the extensions through the events of `done`. */
  ghost predicate Collected(out: seq<seq<string>>, base: seq<seq<string>>, g: Graph, pre: seq<string>,
                      s: string, k: nat, done: set<string>)
    requires k >= 1
  {
    forall p :: p in out <==> p in base || ExtendsSome(g, pre, s, k, done, p)
  }

  lemma GrownTrans(a: seq<seq<string>>, b: seq<seq<string>>, c: seq<seq<string>>)
    requires Grown(b, a) && Grown(c, b)
    ensures Grown(c, a)
  {
    assert c[..|a|] == c[..|b|][..|a|];
  }

  /** Writing level `i >= n` of the stack, or growing it, keeps the levels below `n`. */
  lemma KeepsLevelsStep(s0: seq<seq<string>>, s1: seq<seq<string>>, s2: seq<seq<string>>, n: nat)
    requires KeepsLevels(s1, s0, n)
    requires |s1| <= |s2| && forall i :: 0 <= i < n ==> s2[i] == s1[i]
    ensures KeepsLevels(s2, s0, n)
  {
    assert s2[..n] == s1[..n];
  }

  /** One event of the loop adds the extensions through that event. */
  lemma EventStep(g: Graph, pre: seq<string>, s: string, k: nat, done: set<string>, e: string,
                  base: seq<seq<string>>, before: seq<seq<string>>, after: seq<seq<string>>)
    requires k >= 1 && e in Inner(g, s)
    requires Collected(before, base, g, pre, s, k, done) && Grown(before, base)
    requires Grown(after, before)
    requires Added(after, before, g, pre + [e, Inner(g, s)[e]], Inner(g, s)[e], k - 1)
    ensures Collected(after, base, g, pre, s, k, done + {e}) && Grown(after, base)
  {
    GrownTrans(base, before, after);
    forall p ensures p in after <==> p in base || ExtendsSome(g, pre, s, k, done + {e}, p) {
      ExtendsSomeStep(g, pre, s, k, done, e, p);
    }
  }

  /** `out` holds the paths of `base` and the extensions of `pre` from `s` by `k` steps. */
  ghost predicate Added(out: seq<seq<string>>, base: seq<seq<string>>, g: Graph, pre: seq<string>, s: string, k: nat) {
    forall p :: p in out <==> p in base || Extends(g, pre, s, k, p)
  }

  lemma AddedLeaf(out: seq<seq<string>>, g: Graph, path: seq<string>, t: string)
    ensures Added(WithPath(out, path), out, g, path, t, 0)
  {
    WithPathSpec(out, path);
    forall p ensures p in WithPath(out, path) <==> p in out || Extends(g, path, t, 0, p) {
      ExtendsZero(g, path, t, p);
    }
  }

  /** From a state without events nothing is added, whatever the prefix. */
  lemma AddedDeadEnd(out: seq<seq<string>>, base: seq<seq<string>>, g: Graph, pre: seq<string>, pre': seq<string>,
                     t: string, k: nat)
    requires k >= 1 && |Inner(g, t)| == 0 && Added(out, base, g, pre, t, k)
    ensures Added(out, base, g, pre', t, k)
  {
    forall p ensures p in out <==> p in base || Extends(g, pre', t, k, p) {
      DeadEnd(g, pre, t, k, p);
      DeadEnd(g, pre', t, k, p);
    }
  }

  lemma CollectedAll(out: seq<seq<string>>, base: seq<seq<string>>, g: Graph, pre: seq<string>, s: string, k: nat)
    requires k >= 1 && Collected(out, base, g, pre, s, k, Inner(g, s).Keys)
    ensures Added(out, base, g, pre, s, k)
  {
    forall p ensures p in out <==> p in base || Extends(g, pre, s, k, p) {
      ExtendsSplit(g, pre, s, k, p);
    }
  }

  /** The deepest `recCount` reached below a call entered with `recCount`: one more level, or up
      to `recLimit`. */
  function Deepest(recLimit: int, recCount: nat): nat {
    if recLimit <= recCount + 1 then recCount + 1 else recLimit
  }

  /** Recursion depth budget of the enumerator. */
  function Budget(recLimit: int, recCount: nat): nat {
    if recCount < recLimit then recLimit - recCount else 0
  }

  /** `createNSwitchPathSetRec` (cmd/nswitchcov_a/main.go:192-216). The pointers `stackRecPath`,
      `outputs` and `recCount` are passed in and handed back. The paths added are exactly the
      extensions of `stack[recCount]` from `nextState` by `Remaining(recLimit, recCount)` steps. */
  method CreateNSwitchPathSetRec(stack: seq<seq<string>>, outputs: seq<seq<string>>, g: Graph,
                                 recLimit: int, recCount: nat, nextState: string)
    returns (stack': seq<seq<string>>, outputs': seq<seq<string>>, recCount': nat)
    requires recCount < |stack|
    requires NoDuplicates(outputs)
    ensures recCount' == recCount
    ensures KeepsLevels(stack', stack, recCount + 1)
    ensures |stack'| <= Max(|stack|, Deepest(recLimit, recCount) + 1)
    ensures Grown(outputs', outputs) && NoDuplicates(outputs')
    ensures Added(outputs', outputs, g, stack[recCount], nextState, Remaining(recLimit, recCount))
    decreases Budget(recLimit, recCount), 1
  {
    ghost var pre := stack[recCount];
    ghost var k := Remaining(recLimit, recCount);
    var count := recCount + 1;
    var inner := Inner(g, nextState);
    var todo := inner.Keys;
    stack', outputs' := stack, outputs;
    while todo != {}
      invariant todo <= inner.Keys
      invariant count == recCount + 1
      invariant KeepsLevels(stack', stack, count)
      invariant |stack'| <= Max(|stack|, Deepest(recLimit, recCount) + 1)
      invariant Grown(outputs', outputs) && NoDuplicates(outputs')
      invariant Collected(outputs', outputs, g, pre, nextState, k, inner.Keys - todo)
      decreases |todo|
    {
      var event :| event in todo;
      ghost var done := inner.Keys - todo;
      ghost var before, entry := outputs', stack';
      assert inner.Keys - (todo - {event}) == done + {event};
      assert stack'[count - 1] == stack[..count][count - 1] == pre;
      stack', outputs', count := VisitEvent(stack', outputs', g, recLimit, count, event, inner[event]);
      EventStep(g, pre, nextState, k, done, event, outputs, before, outputs');
      KeepsLevelsStep(stack, entry, stack', count);
      todo := todo - {event};
    }
    CollectedAll(outputs', outputs, g, pre, nextState, k);
    recCount' := count - 1;
  }

  /** The body of the loop over `m[nextState]` (cmd/nswitchcov_a/main.go:196-213), at depth
      `count`: push `event` and `targetState` onto the prefix `stack[count - 1]`, then record the
      path when the depth limit is reached, or recurse from `targetState`. */
  method VisitEvent(stack: seq<seq<string>>, outputs: seq<seq<string>>, g: Graph, recLimit: int, count: nat,
                    event: string, targetState: string)
    returns (stack': seq<seq<string>>, outputs': seq<seq<string>>, count': nat)
    requires 1 <= count <= |stack|
    requires NoDuplicates(outputs)
    ensures count' == count
    ensures KeepsLevels(stack', stack, count)
    ensures |stack'| <= Max(|stack|, Deepest(recLimit, count - 1) + 1)
    ensures Grown(outputs', outputs) && NoDuplicates(outputs')
    ensures Added(outputs', outputs, g, stack[count - 1] + [event, targetState], targetState,
                  Remaining(recLimit, count - 1) - 1)
    decreases Budget(recLimit, count - 1), 0
  {
    ghost var path := stack[count - 1] + [event, targetState];
    stack' := stack;
    if |stack'| < count + 1 {
      stack' := stack' + [[]];
    }
    stack' := stack'[count := stack'[count - 1] + [event, targetState]];
    if recLimit <= count {
      outputs' := AddFlowPath(outputs, stack'[count]);
      AddedLeaf(outputs, g, path, targetState);
      WithPathSpec(outputs, path);
      stack' := stack'[count := stack'[count - 1]];
      count' := count;
    } else {
      if |Inner(g, targetState)| == 0 {
        stack' := stack'[count := stack'[count - 1]];
      }
      ghost var callPre, callStack := stack'[count], stack';
      stack', outputs', count' := CreateNSwitchPathSetRec(stack', outputs, g, recLimit, count, targetState);
      if |Inner(g, targetState)| == 0 {
        AddedDeadEnd(outputs', outputs, g, callPre, path, targetState, Remaining(recLimit, count));
      }
      assert callStack[..count] == callStack[..count + 1][..count];
      assert stack'[..count] == stack'[..count + 1][..count];
    }
    KeepsLevelsStep(stack, stack, stack', count);
  }

  /** `CreateNSwitchPathSet` (cmd/nswitchcov_a/main.go:176-189): without duplicates, exactly the
      paths of `SwitchSteps(nValue)` transitions of `m` that start at a state of `m`. */
  method CreateNSwitchPathSet(m: Graph, nValue: int64) returns (outputs: seq<seq<string>>)
    ensures NoDuplicates(outputs)
    ensures forall p :: p in outputs <==> IsWalk(m, p, SwitchSteps(nValue))
  {
    outputs := [];
    var recCount := 0;
    var todo := m.Keys;
    ghost var k := SwitchSteps(nValue);
    while todo != {}
      invariant todo <= m.Keys
      invariant recCount == 0
      invariant NoDuplicates(outputs)
      invariant forall p :: p in outputs <==> WalkFrom(m, m.Keys - todo, p, k)
      decreases |todo|
    {
      var key :| key in todo;
      var stackRecPath := [[key]];
      stackRecPath, outputs, recCount := CreateNSwitchPathSetRec(stackRecPath, outputs, m, Inc64(nValue) as int, recCount, key);
      forall p ensures WalkFrom(m, m.Keys - (todo - {key}), p, k) <==>
                         WalkFrom(m, m.Keys - todo, p, k) || Extends(m, [key], key, k, p) {
        if Extends(m, [key], key, k, p) {
          assert p[0] == p[..1][0];
        }
      }
      todo := todo - {key};
    }
  }
}
