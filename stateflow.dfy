/** `CreateStateFlowMap`: fold token lists into `map[State]map[Event]State`,
    rejecting a second, different target for the same (state, event) pair. */
module StateFlow {
  import opened Types

  /** `map[State]map[Event]State`. */
  type Graph = map<string, map<string, string>>

  datatype Transition = Transition(source: string, event: string, target: string)

  /** `g[s][e] == t`, with both keys present. */
  predicate Edge(g: Graph, s: string, e: string, t: string) {
    s in g && e in g[s] && g[s][e] == t
  }

  /** Every state key has at least one outgoing event. */
  predicate NonEmptyInner(g: Graph) {
    forall s :: s in g ==> g[s].Keys != {}
  }

  /** Pair `m` of token list `t` is the event `t[2m+1]` between states `t[2m]` and `t[2m+2]`;
      the Go loop registers it exactly when the event is non-empty. */
  predicate TripleAt(t: seq<string>, m: nat) {
    2 * m + 2 < |t| && t[2 * m + 1] != ""
  }

  function TripleOf(t: seq<string>, m: nat): Transition
    requires 2 * m + 2 < |t|
  {
    Transition(t[2 * m], t[2 * m + 1], t[2 * m + 2])
  }

  /** `tr` is the transition of some pair `m' >= m` of `t`. */
  predicate TripleFrom(t: seq<string>, m: nat, tr: Transition) {
    exists m' :: m <= m' < |t| && TripleAt(t, m') && tr == TripleOf(t, m')
  }

  /** `tr` is registered by some token list of `flows[f..]`. */
  predicate DeclaredFrom(flows: seq<seq<string>>, f: nat, tr: Transition) {
    exists g :: f <= g < |flows| && TripleFrom(flows[g], 0, tr)
  }

  /** (s, e, t) is registered by some token list of `flows`. */
  predicate Declared(flows: seq<seq<string>>, s: string, e: string, t: string) {
    DeclaredFrom(flows, 0, Transition(s, e, t))
  }

  /** The transitions of token list `t` from pair `m` on. */
  function TransitionsFrom(t: seq<string>, m: nat): seq<Transition>
    decreases |t| - 2 * m
  {
    if 2 * m + 2 >= |t| then []
    else (if t[2 * m + 1] != "" then [TripleOf(t, m)] else []) + TransitionsFrom(t, m + 1)
  }

  /** The transitions of `flows[f..]`, in the order the Go loops visit them. */
  function AllTransitions(flows: seq<seq<string>>, f: nat): seq<Transition>
    requires f <= |flows|
    decreases |flows| - f
  {
    if f == |flows| then [] else TransitionsFrom(flows[f], 0) + AllTransitions(flows, f + 1)
  }

  /** `value[event] = word; stateMap[currentState] = value`. */
  function Register(g: Graph, tr: Transition): Graph {
    var inner := if tr.source in g then g[tr.source] else map[];
    g[tr.source := inner[tr.event := tr.target]]
  }

  /** `tr` clashes with `g`: the pair is already mapped to another target. */
  predicate Clashes(g: Graph, tr: Transition) {
    tr.source in g && tr.event in g[tr.source] && g[tr.source][tr.event] != tr.target
  }

  /** Register the transitions in order; the first that clashes fails the whole build. */
  function AddAll(ts: seq<Transition>, g: Graph): Result<Graph, BuildError>
    decreases |ts|
  {
    if ts == [] then Success(g)
    else if Clashes(g, ts[0]) then Failure(AmbiguousTransition(ts[0].target, ts[0].event))
    else AddAll(ts[1..], Register(g, ts[0]))
  }

  /** Reference definition of `CreateStateFlowMap`. */
  function BuildSpec(flows: seq<seq<string>>): Result<Graph, BuildError>
  {
    AddAll(AllTransitions(flows, 0), map[])
  }

  /** No transition of `ts` clashes with `g`, and no two of them give one pair two targets. */
  predicate ConflictFree(g: Graph, ts: seq<Transition>) {
    && (forall i :: 0 <= i < |ts| ==> !Clashes(g, ts[i]))
    && (forall i, j :: 0 <= i < |ts| && 0 <= j < |ts| && ts[i].source == ts[j].source && ts[i].event == ts[j].event
                       ==> ts[i].target == ts[j].target)
  }

  // ---------------------------------------------------------------------------
  // The fold

  lemma RegisterEdge(g: Graph, tr: Transition)
    ensures forall s, e, t :: Edge(Register(g, tr), s, e, t) <==>
              Transition(s, e, t) == tr || (Edge(g, s, e, t) && !(s == tr.source && e == tr.event))
    ensures NonEmptyInner(g) ==> NonEmptyInner(Register(g, tr))
  {
    var g' := Register(g, tr);
    assert tr.event in g'[tr.source];
  }

  lemma {:induction false} ConflictFreeStep(g: Graph, ts: seq<Transition>)
    requires ts != [] && !Clashes(g, ts[0])
    ensures ConflictFree(g, ts) <==> ConflictFree(Register(g, ts[0]), ts[1..])
  {
    var tr, g' := ts[0], Register(g, ts[0]);
    RegisterEdge(g, tr);
    if ConflictFree(g, ts) {
      forall i | 0 <= i < |ts[1..]| ensures !Clashes(g', ts[1..][i]) {
        assert ts[1..][i] == ts[i + 1];
      }
    }
    if ConflictFree(g', ts[1..]) {
      forall i | 0 <= i < |ts| ensures !Clashes(g, ts[i]) {
        if i > 0 {
          assert ts[i] == ts[1..][i - 1];
          assert !Clashes(g', ts[i]);
        }
      }
      forall i, j | 0 <= i < |ts| && 0 <= j < |ts| && ts[i].source == ts[j].source && ts[i].event == ts[j].event
        ensures ts[i].target == ts[j].target
      {
        if i > 0 { assert ts[i] == ts[1..][i - 1]; assert !Clashes(g', ts[i]); }
        if j > 0 { assert ts[j] == ts[1..][j - 1]; assert !Clashes(g', ts[j]); }
      }
    }
  }

  /** The fold succeeds iff the transitions are conflict-free with `g` and among themselves;
      its result then maps exactly the pairs of `g` and of `ts`, and keeps inner maps non-empty. */
  lemma {:induction false} AddAllSpec(ts: seq<Transition>, g: Graph)
    ensures AddAll(ts, g).Success? <==> ConflictFree(g, ts)
    ensures AddAll(ts, g).Success? ==>
              forall s, e, t :: Edge(AddAll(ts, g).value, s, e, t) <==> Edge(g, s, e, t) || Transition(s, e, t) in ts
    ensures AddAll(ts, g).Success? && NonEmptyInner(g) ==> NonEmptyInner(AddAll(ts, g).value)
    decreases |ts|
  {
    if ts != [] && !Clashes(g, ts[0]) {
      var tr, g' := ts[0], Register(g, ts[0]);
      AddAllSpec(ts[1..], g');
      ConflictFreeStep(g, ts);
      RegisterEdge(g, tr);
      if AddAll(ts, g).Success? {
        var r := AddAll(ts, g).value;
        forall s, e, t ensures Edge(r, s, e, t) <==> Edge(g, s, e, t) || Transition(s, e, t) in ts {
          assert Transition(s, e, t) in ts <==> Transition(s, e, t) == tr || Transition(s, e, t) in ts[1..] by {
            assert ts == [tr] + ts[1..];
          }
        }
      }
    }
  }

  /** `ts[i]` contradicts `g` or an earlier transition of `ts`. */
  predicate ClashAt(g: Graph, ts: seq<Transition>, i: nat)
    requires i < |ts|
  {
    Clashes(g, ts[i]) ||
    exists j :: 0 <= j < i && ts[j].source == ts[i].source && ts[j].event == ts[i].event && ts[j].target != ts[i].target
  }

  /** A failed fold reports the target and event of a transition that contradicts an earlier one. */
  lemma {:induction false} AddAllFailure(ts: seq<Transition>, g: Graph)
    requires AddAll(ts, g).Failure?
    ensures exists i :: 0 <= i < |ts| && ClashAt(g, ts, i) &&
              AddAll(ts, g).error == AmbiguousTransition(ts[i].target, ts[i].event)
    decreases |ts|
  {
    if Clashes(g, ts[0]) {
      assert ClashAt(g, ts, 0);
    } else {
      var g' := Register(g, ts[0]);
      AddAllFailure(ts[1..], g');
      var i :| 0 <= i < |ts[1..]| && ClashAt(g', ts[1..], i) &&
               AddAll(ts[1..], g').error == AmbiguousTransition(ts[1..][i].target, ts[1..][i].event);
      assert ClashAt(g, ts, i + 1) by {
        var tr := ts[i + 1];
        RegisterEdge(g, ts[0]);
        if Clashes(g', tr) {
          if tr.source == ts[0].source && tr.event == ts[0].event {
            assert ts[0].target != tr.target;
          } else {
            assert Clashes(g, tr);
          }
        } else {
          var j :| 0 <= j < i && ts[1..][j].source == tr.source && ts[1..][j].event == tr.event &&
                   ts[1..][j].target != tr.target;
          assert ts[j + 1] == ts[1..][j];
        }
      }
    }
  }

  // ---------------------------------------------------------------------------
  // Transitions of the token lists

  lemma {:induction false} TransitionsFromSpec(t: seq<string>, m: nat)
    ensures forall tr :: tr in TransitionsFrom(t, m) <==> TripleFrom(t, m, tr)
    decreases |t| - 2 * m
  {
    if 2 * m + 2 < |t| {
      TransitionsFromSpec(t, m + 1);
      var head := if t[2 * m + 1] != "" then [TripleOf(t, m)] else [];
      assert TransitionsFrom(t, m) == head + TransitionsFrom(t, m + 1);
      forall tr ensures tr in TransitionsFrom(t, m) <==> TripleFrom(t, m, tr) {
        if TripleFrom(t, m, tr) {
          var m' :| m <= m' < |t| && TripleAt(t, m') && tr == TripleOf(t, m');
          if m' == m {
            assert tr in head;
          } else {
            assert TripleFrom(t, m + 1, tr);
          }
        }
        if tr in head {
          assert TripleAt(t, m);
        }
        if TripleFrom(t, m + 1, tr) {
          var m' :| m + 1 <= m' < |t| && TripleAt(t, m') && tr == TripleOf(t, m');
        }
      }
    }
  }

  lemma {:induction false} AllTransitionsSpec(flows: seq<seq<string>>, f: nat)
    requires f <= |flows|
    ensures forall tr :: tr in AllTransitions(flows, f) <==> DeclaredFrom(flows, f, tr)
    decreases |flows| - f
  {
    if f < |flows| {
      AllTransitionsSpec(flows, f + 1);
      TransitionsFromSpec(flows[f], 0);
      forall tr ensures tr in AllTransitions(flows, f) <==> DeclaredFrom(flows, f, tr) {
        if DeclaredFrom(flows, f, tr) {
          var g :| f <= g < |flows| && TripleFrom(flows[g], 0, tr);
          if g != f {
            assert DeclaredFrom(flows, f + 1, tr);
          }
        }
        if DeclaredFrom(flows, f + 1, tr) {
          var g :| f + 1 <= g < |flows| && TripleFrom(flows[g], 0, tr);
        }
        if TripleFrom(flows[f], 0, tr) {
          assert DeclaredFrom(flows, f, tr);
        }
      }
    }
  }

  /** `CreateStateFlowMap` succeeds iff no (state, event) pair is declared with two different
      targets. Its map then holds exactly the declared transitions, every key with a non-empty
      inner map; empty input gives the empty map. */
  lemma BuildSpecHolds(flows: seq<seq<string>>)
    ensures BuildSpec(flows).Success? <==>
              forall s, e, t, t' :: Declared(flows, s, e, t) && Declared(flows, s, e, t') ==> t == t'
    ensures BuildSpec(flows).Success? ==>
              && (forall s, e, t :: Edge(BuildSpec(flows).value, s, e, t) <==> Declared(flows, s, e, t))
              && NonEmptyInner(BuildSpec(flows).value)
    ensures flows == [] ==> BuildSpec(flows) == Success(map[])
  {
    var ts := AllTransitions(flows, 0);
    AddAllSpec(ts, map[]);
    AllTransitionsSpec(flows, 0);
    assert forall s, e, t :: Transition(s, e, t) in ts <==> Declared(flows, s, e, t);
    if forall s, e, t, t' :: Declared(flows, s, e, t) && Declared(flows, s, e, t') ==> t == t' {
      forall i, j | 0 <= i < |ts| && 0 <= j < |ts| && ts[i].source == ts[j].source && ts[i].event == ts[j].event
        ensures ts[i].target == ts[j].target
      {
        assert Transition(ts[i].source, ts[i].event, ts[i].target) in ts;
        assert Transition(ts[j].source, ts[j].event, ts[j].target) in ts;
      }
    }
    if ConflictFree(map[], ts) {
      forall s, e, t, t' | Declared(flows, s, e, t) && Declared(flows, s, e, t') ensures t == t' {
        var i :| 0 <= i < |ts| && ts[i] == Transition(s, e, t);
        var j :| 0 <= j < |ts| && ts[j] == Transition(s, e, t');
      }
    }
  }

  /** On failure, the reported target and event belong to a declared transition whose pair is
      declared with another target as well. */
  lemma BuildSpecRejects(flows: seq<seq<string>>)
    requires BuildSpec(flows).Failure?
    ensures var err := BuildSpec(flows).error;
            exists s, t' :: Declared(flows, s, err.event, err.target) && Declared(flows, s, err.event, t') &&
                            t' != err.target
  {
    var ts := AllTransitions(flows, 0);
    AddAllFailure(ts, map[]);
    AllTransitionsSpec(flows, 0);
    var i :| 0 <= i < |ts| && ClashAt(map[], ts, i) &&
             AddAll(ts, map[]).error == AmbiguousTransition(ts[i].target, ts[i].event);
    var j :| 0 <= j < i && ts[j].source == ts[i].source && ts[j].event == ts[i].event && ts[j].target != ts[i].target;
    var tr, tr' := ts[i], ts[j];
    assert tr in ts && tr' in ts;
    assert Declared(flows, tr.source, tr.event, tr.target);
    assert Declared(flows, tr.source, tr.event, tr'.target);
  }

  // ---------------------------------------------------------------------------
  // The Go loops

  /** One step of the fold on a list that starts with a transition. */
  lemma AddAllCons(tr: Transition, rest: seq<Transition>, g: Graph)
    ensures AddAll([tr] + rest, g) ==
              if Clashes(g, tr) then Failure(AmbiguousTransition(tr.target, tr.event))
              else AddAll(rest, Register(g, tr))
  {
    assert ([tr] + rest)[0] == tr;
    assert ([tr] + rest)[1..] == rest;
  }

  /** The fold in the order the Go loops scan: token list `f`, pair `m`, then the rest. */
  function Build(flows: seq<seq<string>>, f: nat, m: nat, g: Graph): Result<Graph, BuildError>
    requires f <= |flows|
    decreases |flows| - f, if f < |flows| && 2 * m < |flows[f]| then |flows[f]| - 2 * m else 0
  {
    if f == |flows| then Success(g)
    else if 2 * m + 2 >= |flows[f]| then Build(flows, f + 1, 0, g)
    else if flows[f][2 * m + 1] == "" then Build(flows, f, m + 1, g)
    else if Clashes(g, TripleOf(flows[f], m)) then
      Failure(AmbiguousTransition(flows[f][2 * m + 2], flows[f][2 * m + 1]))
    else Build(flows, f, m + 1, Register(g, TripleOf(flows[f], m)))
  }

  /** The scan-order fold is the fold over the transition list. */
  lemma {:induction false} BuildFold(flows: seq<seq<string>>, f: nat, m: nat, g: Graph)
    requires f < |flows|
    ensures Build(flows, f, m, g) == AddAll(TransitionsFrom(flows[f], m) + AllTransitions(flows, f + 1), g)
    decreases |flows| - f, if 2 * m < |flows[f]| then |flows[f]| - 2 * m else 0
  {
    var t, tail := flows[f], AllTransitions(flows, f + 1);
    if 2 * m + 2 >= |t| {
      FoldEnd(t, m, tail);
      assert Build(flows, f, m, g) == Build(flows, f + 1, 0, g);
      if f + 1 < |flows| {
        BuildFold(flows, f + 1, 0, g);
        assert tail == TransitionsFrom(flows[f + 1], 0) + AllTransitions(flows, f + 2);
      } else {
        assert tail == [];
      }
    } else if t[2 * m + 1] == "" {
      FoldSkip(t, m, tail);
      assert Build(flows, f, m, g) == Build(flows, f, m + 1, g);
      BuildFold(flows, f, m + 1, g);
    } else {
      FoldRegister(t, m, tail, g);
      if !Clashes(g, TripleOf(t, m)) {
        assert Build(flows, f, m, g) == Build(flows, f, m + 1, Register(g, TripleOf(t, m)));
        BuildFold(flows, f, m + 1, Register(g, TripleOf(t, m)));
      }
    }
  }

  lemma FoldEnd(t: seq<string>, m: nat, tail: seq<Transition>)
    requires 2 * m + 2 >= |t|
    ensures TransitionsFrom(t, m) + tail == tail
  {
    assert TransitionsFrom(t, m) == [];
  }

  lemma FoldSkip(t: seq<string>, m: nat, tail: seq<Transition>)
    requires 2 * m + 2 < |t| && t[2 * m + 1] == ""
    ensures TransitionsFrom(t, m) + tail == TransitionsFrom(t, m + 1) + tail
  {
    assert TransitionsFrom(t, m) == TransitionsFrom(t, m + 1);
  }

  lemma FoldRegister(t: seq<string>, m: nat, tail: seq<Transition>, g: Graph)
    requires 2 * m + 2 < |t| && t[2 * m + 1] != ""
    ensures AddAll(TransitionsFrom(t, m) + tail, g) ==
              if Clashes(g, TripleOf(t, m)) then Failure(AmbiguousTransition(t[2 * m + 2], t[2 * m + 1]))
              else AddAll(TransitionsFrom(t, m + 1) + tail, Register(g, TripleOf(t, m)))
  {
    assert TransitionsFrom(t, m) + tail == [TripleOf(t, m)] + (TransitionsFrom(t, m + 1) + tail);
    AddAllCons(TripleOf(t, m), TransitionsFrom(t, m + 1) + tail, g);
  }

  lemma BuildSpecFold(flows: seq<seq<string>>)
    ensures BuildSpec(flows) == Build(flows, 0, 0, map[])
  {
    if flows != [] {
      BuildFold(flows, 0, 0, map[]);
      assert AllTransitions(flows, 0) == TransitionsFrom(flows[0], 0) + AllTransitions(flows, 1);
    }
  }

  /** Where the loop over token list `t` stands after `j` words: pair `m` is the next to register;
      after a state the current event is still empty, after an event the pair is complete. */
  ghost predicate AtWord(t: seq<string>, j: nat, m: nat, ty: TextType, state: string, event: string) {
    && j <= |t|
    && (j == 0 ==> m == 0 && ty == StatusText && event == "")
    && (ty == EventText ==> j == 2 * m + 1 && state == t[2 * m] && event == "")
    && (ty == StatusText && j > 0 ==> j == 2 * m + 2 && state == t[2 * m] && event == t[2 * m + 1])
  }

  /** The first word of a token list is its first state. */
  lemma FirstWord(t: seq<string>)
    requires 0 < |t|
    ensures AtWord(t, 1, 0, EventText, t[0], "")
  {
  }

  /** An event word completes the pair. */
  lemma EventWord(t: seq<string>, j: nat, m: nat, state: string)
    requires j < |t| && AtWord(t, j, m, EventText, state, "")
    ensures AtWord(t, j + 1, m, StatusText, state, t[j])
  {
  }

  /** A state word after an empty event opens the next pair. */
  lemma SkipWord(t: seq<string>, j: nat, m: nat, state: string)
    requires 0 < j < |t| && AtWord(t, j, m, StatusText, state, "")
    ensures AtWord(t, j + 1, m + 1, EventText, t[j], "") && 2 * m + 2 < |t| && t[2 * m + 1] == ""
  {
  }

  /** A state word after a non-empty event completes the pair's transition. */
  lemma RegisterWord(t: seq<string>, j: nat, m: nat, state: string, event: string)
    requires 0 < j < |t| && AtWord(t, j, m, StatusText, state, event) && event != ""
    ensures AtWord(t, j + 1, m + 1, EventText, t[j], "") && 2 * m + 2 < |t| && t[2 * m + 1] != ""
    ensures TripleOf(t, m) == Transition(state, event, t[j])
  {
  }

  /** At the end of a token list no pair is left. */
  lemma LastWord(t: seq<string>, m: nat, ty: TextType, state: string, event: string)
    requires AtWord(t, |t|, m, ty, state, event)
    ensures 2 * m + 2 >= |t|
  {
  }

  /** `CreateStateFlowMap` (cmd/nswitchcov_a/main.go:137-173), proved against `BuildSpec`. */
  method CreateStateFlowMap(flowpath: seq<seq<string>>) returns (r: Result<Graph, BuildError>)
    ensures r == BuildSpec(flowpath)
  {
    var stateMap: Graph := map[];
    var f := 0;
    BuildSpecFold(flowpath);
    while f < |flowpath|
      invariant 0 <= f <= |flowpath|
      invariant BuildSpec(flowpath) == Build(flowpath, f, 0, stateMap)
    {
      var targetText := flowpath[f];
      var currentState := "";
      var currentEvent := "";
      var currentType := StatusText;
      // The pair whose transition is still to be registered.
      ghost var m: nat := 0;
      var j := 0;
      while j < |targetText|
        invariant AtWord(targetText, j, m, currentType, currentState, currentEvent)
        invariant BuildSpec(flowpath) == Build(flowpath, f, m, stateMap)
      {
        var word := targetText[j];
        if currentType == StatusText {
          if j == 0 {
            FirstWord(targetText);
          } else if currentEvent == "" {
            SkipWord(targetText, j, m, currentState);
          } else {
            RegisterWord(targetText, j, m, currentState, currentEvent);
          }
          currentType := EventText;
          if currentEvent != "" {
            var value := if currentState in stateMap then stateMap[currentState] else map[];
            if currentEvent in value && value[currentEvent] != word {
              return Failure(AmbiguousTransition(word, currentEvent));
            }
            value := value[currentEvent := word];
            stateMap := stateMap[currentState := value];
            currentEvent := "";
          }
          if j > 0 {
            m := m + 1;
          }
          currentState := word;
        } else {
          EventWord(targetText, j, m, currentState);
          currentType := StatusText;
          currentEvent := word;
        }
        j := j + 1;
      }
      LastWord(targetText, m, currentType, currentState, currentEvent);
      f := f + 1;
    }
    return Success(stateMap);
  }
}
