// The action space and the state space of the cab-driver environment
// (Env.py:21-25): an index formula for each, its inverse, and the methods
// that build the two lists the way the constructor does.

module Spaces {
  import opened Env

  /** Number of ride actions, m * (m - 1). */
  const NumRides: int := M * (M - 1)

  /** Size of the action space: every ride and the refusal. */
  const NumActions: int := NumRides + 1

  /** Size of the state space, m * t * d. */
  const NumStates: int := M * T * D

  // ---------------------------------------------------------------------
  // Action space.

  /**
   * The action at index k of the action space: the refusal at 0, then the
   * pairs (p, q) with p != q, p outer and q inner.
   */
  function ActionAt(k: int): (a: Action)
    requires 0 <= k < NumActions
    ensures k == 0 <==> IsRefusal(a)
    ensures k != 0 ==> IsRide(a)
  {
    if k == 0 then Refusal
    else
      var p := (k - 1) / (M - 1);
      var j := (k - 1) % (M - 1);
      Action(p, if j < p then j else j + 1)
  }

  /** The index of a ride or of the refusal in the action space. */
  function ActionIndex(a: Action): (k: int)
    requires IsRefusal(a) || IsRide(a)
    ensures 0 <= k < NumActions
    ensures ActionAt(k) == a
  {
    if IsRefusal(a) then 0
    else 1 + a.pickup * (M - 1) + (if a.drop < a.pickup then a.drop else a.drop - 1)
  }

  lemma ActionIndexOfActionAt(k: int)
    requires 0 <= k < NumActions
    ensures ActionIndex(ActionAt(k)) == k
  {
  }

  /** Two distinct indices hold distinct actions. */
  lemma ActionAtInjective(i: int, j: int)
    requires 0 <= i < NumActions && 0 <= j < NumActions
    requires ActionAt(i) == ActionAt(j)
    ensures i == j
  {
    ActionIndexOfActionAt(i);
    ActionIndexOfActionAt(j);
  }

  /** Rides come in lexicographic order: pickup first, then drop. */
  lemma ActionAtOrdered(i: int, j: int)
    requires 1 <= i < j < NumActions
    ensures var a, b := ActionAt(i), ActionAt(j);
      a.pickup < b.pickup || (a.pickup == b.pickup && a.drop < b.drop)
  {
  }

  ghost predicate IsActionSpace(s: seq<Action>) {
    |s| == NumActions && forall k :: 0 <= k < |s| ==> s[k] == ActionAt(k)
  }

  /** The structure of the action space, as the constructor promises it. */
  lemma ActionSpaceStructure(s: seq<Action>)
    requires IsActionSpace(s)
    ensures |s| == M * (M - 1) + 1 && s[0] == Refusal
    ensures forall k :: 1 <= k < |s| ==> IsRide(s[k])
    ensures forall i, j :: 0 <= i < j < |s| ==> s[i] != s[j]
    ensures forall i, j :: 1 <= i < j < |s| ==>
      s[i].pickup < s[j].pickup || (s[i].pickup == s[j].pickup && s[i].drop < s[j].drop)
    ensures forall a :: IsRide(a) ==> a in s
  {
    forall i, j | 0 <= i < j < |s| ensures s[i] != s[j] {
      if s[i] == s[j] {
        ActionAtInjective(i, j);
      }
    }
    forall i, j | 1 <= i < j < |s|
      ensures s[i].pickup < s[j].pickup || (s[i].pickup == s[j].pickup && s[i].drop < s[j].drop)
    {
      ActionAtOrdered(i, j);
    }
    forall a | IsRide(a) ensures a in s {
      assert s[ActionIndex(a)] == a;
    }
  }

  /**
   * Builds the action space as the constructor does: every ordered pair of
   * distinct cities, then the refusal inserted at the front.
   */
  method BuildActionSpace() returns (space: seq<Action>)
    ensures IsActionSpace(space)
  {
    var rides: seq<Action> := [];
    var p := 0;
    while p < M
      invariant 0 <= p <= M
      invariant |rides| == p * (M - 1)
      invariant forall k :: 0 <= k < |rides| ==> rides[k] == ActionAt(k + 1)
    {
      var q := 0;
      while q < M
        invariant 0 <= q <= M
        invariant |rides| == p * (M - 1) + (if q <= p then q else q - 1)
        invariant forall k :: 0 <= k < |rides| ==> rides[k] == ActionAt(k + 1)
      {
        if p != q {
          assert ActionAt(|rides| + 1) == Action(p, q) by {
            assert ActionIndex(Action(p, q)) == |rides| + 1;
          }
          rides := rides + [Action(p, q)];
        }
        q := q + 1;
      }
      p := p + 1;
    }
    space := [Refusal] + rides;
  }

  // ---------------------------------------------------------------------
  // State space.

  /** The state at index i: location outer, then hour, then day. */
  function StateAt(i: int): (s: State)
    requires 0 <= i < NumStates
    ensures ValidState(s)
  {
    State(i / (T * D), (i / D) % T, i % D)
  }

  /** The index of a state, loc * t * d + time * d + day. */
  function StateIndex(s: State): (i: int)
    requires ValidState(s)
    ensures 0 <= i < NumStates
    ensures StateAt(i) == s
  {
    s.loc * T * D + s.time * D + s.day
  }

  lemma StateIndexOfStateAt(i: int)
    requires 0 <= i < NumStates
    ensures StateIndex(StateAt(i)) == i
  {
  }

  ghost predicate IsStateSpace(s: seq<State>) {
    |s| == NumStates && forall i :: 0 <= i < |s| ==> s[i] == StateAt(i)
  }

  /** The structure of the state space: size, placement, range, no duplicates. */
  lemma StateSpaceStructure(s: seq<State>)
    requires IsStateSpace(s)
    ensures |s| == M * T * D
    ensures forall i :: 0 <= i < |s| ==> ValidState(s[i])
    ensures forall st :: ValidState(st) ==> s[st.loc * T * D + st.time * D + st.day] == st
    ensures forall i, j :: 0 <= i < j < |s| ==> s[i] != s[j]
  {
    forall st | ValidState(st) ensures s[st.loc * T * D + st.time * D + st.day] == st {
      assert StateIndex(st) == st.loc * T * D + st.time * D + st.day;
    }
    forall i, j | 0 <= i < j < |s| ensures s[i] != s[j] {
      StateIndexOfStateAt(i);
      StateIndexOfStateAt(j);
    }
  }

  /** Builds the state space as the constructor does, with three nested loops. */
  method BuildStateSpace() returns (space: seq<State>)
    ensures IsStateSpace(space)
  {
    space := [];
    var loc := 0;
    while loc < M
      invariant 0 <= loc <= M
      invariant |space| == loc * T * D
      invariant forall i :: 0 <= i < |space| ==> space[i] == StateAt(i)
    {
      var time := 0;
      while time < T
        invariant 0 <= time <= T
        invariant |space| == loc * T * D + time * D
        invariant forall i :: 0 <= i < |space| ==> space[i] == StateAt(i)
      {
        var day := 0;
        while day < D
          invariant 0 <= day <= D
          invariant |space| == loc * T * D + time * D + day
          invariant forall i :: 0 <= i < |space| ==> space[i] == StateAt(i)
        {
          assert StateAt(|space|) == State(loc, time, day) by {
            assert StateIndex(State(loc, time, day)) == |space|;
          }
          space := space + [State(loc, time, day)];
          day := day + 1;
        }
        time := time + 1;
      }
      loc := loc + 1;
    }
  }
}
