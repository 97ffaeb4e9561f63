/** Search values, the value/action pair every search node returns, and the
    running-extremum and running-average loops that the max, min and chance
    rules of the three searches are built from. */
module Values {

  datatype Option<T> = None | Some(value: T)

  /** A backed-up search value: a real score, or one of the two sentinels
      float('-inf') and float('inf') that the running extrema start from. */
  datatype Value = NegInf | Fin(r: real) | PosInf

  /** The strict order of Python floats restricted to -inf, the reals and +inf. */
  predicate Less(x: Value, y: Value) {
    match x
    case NegInf => !y.NegInf?
    case Fin(a) => y.PosInf? || (y.Fin? && a < y.r)
    case PosInf => false
  }

  predicate Le(x: Value, y: Value) {
    !Less(y, x)
  }

  /** Python's max(x, y): x unless y is strictly larger. */
  function Max(x: Value, y: Value): (m: Value)
    ensures Le(x, m) && Le(y, m)
    ensures m == x || m == y
  {
    if Less(x, y) then y else x
  }

  /** Python's min(x, y): x unless y is strictly smaller. */
  function Min(x: Value, y: Value): (m: Value)
    ensures Le(m, x) && Le(m, y)
    ensures m == x || m == y
  {
    if Less(y, x) then y else x
  }

  /** What a search node returns: its backed-up value and, at a max or min
      node, the action that achieved it (None when no action improved on the
      starting sentinel, and always None at a leaf or a chance node). */
  datatype Decision<A> = Decision(value: Value, action: Option<A>)

  /** The loop of a max rule from position k on: v and best are the running
      maximum and the action that set it; a value replaces v only when it is
      strictly larger, so the first of several equal maxima is kept. */
  function PickMax<A>(vals: seq<Value>, actions: seq<A>, k: nat, v: Value, best: Option<A>): Decision<A>
    requires |vals| == |actions| && k <= |actions|
    decreases |actions| - k
  {
    if k == |actions| then Decision(v, best)
    else if Less(v, vals[k]) then PickMax(vals, actions, k + 1, vals[k], Some(actions[k]))
    else PickMax(vals, actions, k + 1, v, best)
  }

  /** The loop of a min rule: the mirror image of PickMax with strict <. */
  function PickMin<A>(vals: seq<Value>, actions: seq<A>, k: nat, v: Value, best: Option<A>): Decision<A>
    requires |vals| == |actions| && k <= |actions|
    decreases |actions| - k
  {
    if k == |actions| then Decision(v, best)
    else if Less(vals[k], v) then PickMin(vals, actions, k + 1, vals[k], Some(actions[k]))
    else PickMin(vals, actions, k + 1, v, best)
  }

  /** Independent description of a max rule's result: r.value bounds every
      successor value; it is -inf with no action when every value is -inf;
      otherwise it is attained, and r.action is the action of the FIRST index
      that attains it. */
  ghost predicate FirstMax<A>(vals: seq<Value>, actions: seq<A>, r: Decision<A>)
    requires |vals| == |actions|
  {
    && (forall j :: 0 <= j < |vals| ==> Le(vals[j], r.value))
    && (r.value == NegInf ==> r.action == None)
    && (r.value != NegInf ==>
          exists j :: 0 <= j < |vals| && vals[j] == r.value && r.action == Some(actions[j]) &&
                      forall l :: 0 <= l < j ==> Less(vals[l], r.value))
  }

  /** The mirror image of FirstMax, with +inf as the empty minimum. */
  ghost predicate FirstMin<A>(vals: seq<Value>, actions: seq<A>, r: Decision<A>)
    requires |vals| == |actions|
  {
    && (forall j :: 0 <= j < |vals| ==> Le(r.value, vals[j]))
    && (r.value == PosInf ==> r.action == None)
    && (r.value != PosInf ==>
          exists j :: 0 <= j < |vals| && vals[j] == r.value && r.action == Some(actions[j]) &&
                      forall l :: 0 <= l < j ==> Less(r.value, vals[l]))
  }

  lemma LeAntisymmetric(x: Value, y: Value)
    requires Le(x, y) && Le(y, x)
    ensures x == y
  {
  }

  /** What the max loop computes from position k on, given its running state. */
  lemma {:induction false} PickMaxScan<A>(vals: seq<Value>, actions: seq<A>, k: nat, v: Value, best: Option<A>)
    requires |vals| == |actions| && k <= |actions|
    ensures var r := PickMax(vals, actions, k, v, best);
      && Le(v, r.value)
      && (forall j :: k <= j < |vals| ==> Le(vals[j], r.value))
      && (r.value == v ==> r.action == best)
      && (r.value != v ==>
            exists j :: k <= j < |vals| && vals[j] == r.value && r.action == Some(actions[j]) &&
                        forall l :: k <= l < j ==> Less(vals[l], r.value))
    decreases |actions| - k
  {
    if k < |actions| {
      var r := PickMax(vals, actions, k, v, best);
      if Less(v, vals[k]) {
        PickMaxScan(vals, actions, k + 1, vals[k], Some(actions[k]));
        if r.value == vals[k] {
          assert vals[k] == r.value && r.action == Some(actions[k]);
        } else {
          var j :| k + 1 <= j < |vals| && vals[j] == r.value && r.action == Some(actions[j]) &&
                   forall l :: k + 1 <= l < j ==> Less(vals[l], r.value);
          assert forall l :: k <= l < j ==> Less(vals[l], r.value);
        }
      } else {
        PickMaxScan(vals, actions, k + 1, v, best);
        if r.value != v {
          var j :| k + 1 <= j < |vals| && vals[j] == r.value && r.action == Some(actions[j]) &&
                   forall l :: k + 1 <= l < j ==> Less(vals[l], r.value);
          assert forall l :: k <= l < j ==> Less(vals[l], r.value);
        }
      }
    }
  }

  /** What the min loop computes from position k on, given its running state. */
  lemma {:induction false} PickMinScan<A>(vals: seq<Value>, actions: seq<A>, k: nat, v: Value, best: Option<A>)
    requires |vals| == |actions| && k <= |actions|
    ensures var r := PickMin(vals, actions, k, v, best);
      && Le(r.value, v)
      && (forall j :: k <= j < |vals| ==> Le(r.value, vals[j]))
      && (r.value == v ==> r.action == best)
      && (r.value != v ==>
            exists j :: k <= j < |vals| && vals[j] == r.value && r.action == Some(actions[j]) &&
                        forall l :: k <= l < j ==> Less(r.value, vals[l]))
    decreases |actions| - k
  {
    if k < |actions| {
      var r := PickMin(vals, actions, k, v, best);
      if Less(vals[k], v) {
        PickMinScan(vals, actions, k + 1, vals[k], Some(actions[k]));
        if r.value == vals[k] {
          assert vals[k] == r.value && r.action == Some(actions[k]);
        } else {
          var j :| k + 1 <= j < |vals| && vals[j] == r.value && r.action == Some(actions[j]) &&
                   forall l :: k + 1 <= l < j ==> Less(r.value, vals[l]);
          assert forall l :: k <= l < j ==> Less(r.value, vals[l]);
        }
      } else {
        PickMinScan(vals, actions, k + 1, v, best);
        if r.value != v {
          var j :| k + 1 <= j < |vals| && vals[j] == r.value && r.action == Some(actions[j]) &&
                   forall l :: k + 1 <= l < j ==> Less(r.value, vals[l]);
          assert forall l :: k <= l < j ==> Less(r.value, vals[l]);
        }
      }
    }
  }

  /** The max loop started from -inf with no action meets FirstMax. */
  lemma PickMaxIsFirstMax<A>(vals: seq<Value>, actions: seq<A>)
    requires |vals| == |actions|
    ensures FirstMax(vals, actions, PickMax(vals, actions, 0, NegInf, None))
  {
    PickMaxScan(vals, actions, 0, NegInf, None);
  }

  /** The min loop started from +inf with no action meets FirstMin. */
  lemma PickMinIsFirstMin<A>(vals: seq<Value>, actions: seq<A>)
    requires |vals| == |actions|
    ensures FirstMin(vals, actions, PickMin(vals, actions, 0, PosInf, None))
  {
    PickMinScan(vals, actions, 0, PosInf, None);
  }

  /** FirstMax pins the result down completely: value and action. */
  lemma FirstMaxUnique<A>(vals: seq<Value>, actions: seq<A>, r1: Decision<A>, r2: Decision<A>)
    requires |vals| == |actions|
    requires FirstMax(vals, actions, r1) && FirstMax(vals, actions, r2)
    ensures r1 == r2
  {
    if r1.value != NegInf {
      var j1 :| 0 <= j1 < |vals| && vals[j1] == r1.value && r1.action == Some(actions[j1]) &&
                forall l :: 0 <= l < j1 ==> Less(vals[l], r1.value);
      assert Le(r1.value, r2.value);
    }
    if r2.value != NegInf {
      var j2 :| 0 <= j2 < |vals| && vals[j2] == r2.value && r2.action == Some(actions[j2]) &&
                forall l :: 0 <= l < j2 ==> Less(vals[l], r2.value);
      assert Le(r2.value, r1.value);
    }
    LeAntisymmetric(r1.value, r2.value);
    if r1.value != NegInf {
      var j1 :| 0 <= j1 < |vals| && vals[j1] == r1.value && r1.action == Some(actions[j1]) &&
                forall l :: 0 <= l < j1 ==> Less(vals[l], r1.value);
      var j2 :| 0 <= j2 < |vals| && vals[j2] == r2.value && r2.action == Some(actions[j2]) &&
                forall l :: 0 <= l < j2 ==> Less(vals[l], r2.value);
      assert !(j1 < j2) && !(j2 < j1);
    }
  }

  /** FirstMin pins the result down completely: value and action. */
  lemma FirstMinUnique<A>(vals: seq<Value>, actions: seq<A>, r1: Decision<A>, r2: Decision<A>)
    requires |vals| == |actions|
    requires FirstMin(vals, actions, r1) && FirstMin(vals, actions, r2)
    ensures r1 == r2
  {
    if r1.value != PosInf {
      var j1 :| 0 <= j1 < |vals| && vals[j1] == r1.value && r1.action == Some(actions[j1]) &&
                forall l :: 0 <= l < j1 ==> Less(r1.value, vals[l]);
      assert Le(r2.value, r1.value);
    }
    if r2.value != PosInf {
      var j2 :| 0 <= j2 < |vals| && vals[j2] == r2.value && r2.action == Some(actions[j2]) &&
                forall l :: 0 <= l < j2 ==> Less(r2.value, vals[l]);
      assert Le(r1.value, r2.value);
    }
    LeAntisymmetric(r1.value, r2.value);
    if r1.value != PosInf {
      var j1 :| 0 <= j1 < |vals| && vals[j1] == r1.value && r1.action == Some(actions[j1]) &&
                forall l :: 0 <= l < j1 ==> Less(r1.value, vals[l]);
      var j2 :| 0 <= j2 < |vals| && vals[j2] == r2.value && r2.action == Some(actions[j2]) &&
                forall l :: 0 <= l < j2 ==> Less(r2.value, vals[l]);
      assert !(j1 < j2) && !(j2 < j1);
    }
  }

  /** One step `v += p * value` of the chance rule, on float semantics:
      -inf absorbs (p is positive), and so does +inf otherwise. The one
      combination Python would turn into nan, -inf with +inf, never arises in
      a search (see ExpectimaxSearch.NeverPosInf) and is sent to -inf here. */
  function AddScaled(v: Value, p: real, x: Value): Value {
    if v.NegInf? || x.NegInf? then NegInf
    else if v.PosInf? || x.PosInf? then PosInf
    else Fin(v.r + p * x.r)
  }

  /** The chance loop from position k on, with running total v. */
  function Accumulate(vals: seq<Value>, k: nat, p: real, v: Value): Value
    requires k <= |vals|
    decreases |vals| - k
  {
    if k == |vals| then v else Accumulate(vals, k + 1, p, AddScaled(v, p, vals[k]))
  }

  ghost predicate AllFinite(vals: seq<Value>) {
    forall j :: 0 <= j < |vals| ==> vals[j].Fin?
  }

  /** The exact sum of the finite values vals[k..]. */
  function RealSum(vals: seq<Value>, k: nat): real
    requires k <= |vals| && AllFinite(vals)
    decreases |vals| - k
  {
    if k == |vals| then 0.0 else vals[k].r + RealSum(vals, k + 1)
  }

  /** On finite values the chance loop adds p times their sum to v. */
  lemma {:induction false} AccumulateFinite(vals: seq<Value>, k: nat, p: real, v: Value)
    requires k <= |vals| && AllFinite(vals) && v.Fin?
    ensures Accumulate(vals, k, p, v) == Fin(v.r + p * RealSum(vals, k))
    decreases |vals| - k
  {
    if k < |vals| {
      var x := vals[k].r;
      AccumulateFinite(vals, k + 1, p, AddScaled(v, p, vals[k]));
      assert v.r + p * x + p * RealSum(vals, k + 1) == v.r + p * (x + RealSum(vals, k + 1));
    }
  }

  /** A -inf in the running total or anywhere ahead makes the total -inf. */
  lemma {:induction false} AccumulateNegInf(vals: seq<Value>, k: nat, p: real, v: Value)
    requires k <= |vals|
    requires v.NegInf? || exists j :: k <= j < |vals| && vals[j].NegInf?
    ensures Accumulate(vals, k, p, v) == NegInf
    decreases |vals| - k
  {
    if k < |vals| {
      AccumulateNegInf(vals, k + 1, p, AddScaled(v, p, vals[k]));
    }
  }

  /** Without +inf among the inputs, the chance loop never produces +inf. */
  lemma {:induction false} AccumulateNoPosInf(vals: seq<Value>, k: nat, p: real, v: Value)
    requires k <= |vals| && !v.PosInf?
    requires forall j :: k <= j < |vals| ==> !vals[j].PosInf?
    ensures !Accumulate(vals, k, p, v).PosInf?
    decreases |vals| - k
  {
    if k < |vals| {
      AccumulateNoPosInf(vals, k + 1, p, AddScaled(v, p, vals[k]));
    }
  }
}
