// The CabDriver object of Env.py: the action space, state space and initial
// state fixed by the constructor, the array-based state encoder, and the
// request generator with its random draws supplied by the caller.

module CabDriverEnv {
  import opened Env
  import opened Spaces
  import opened StateEncoding

  /** The cap on the number of requests offered in one step (Env.py:81-82). */
  const MaxRequests: int := 15

  /** The Poisson rate of ride requests at each location (Env.py:65-78). */
  function RequestRate(loc: int): (r: nat)
    requires ValidLoc(loc)
    ensures 2 <= r <= 12
    ensures r == 12 <==> loc == 1
  {
    if loc == 0 then 2
    else if loc == 1 then 12
    else if loc == 2 then 4
    else if loc == 3 then 7
    else 8
  }

  function Min(a: int, b: int): int {
    if a < b then a else b
  }

  /**
   * What sampling k items without replacement from the integers lo .. hi - 1
   * yields: k distinct values in that range.
   */
  predicate IsSample(xs: seq<int>, lo: int, hi: int, k: int) {
    |xs| == k &&
    (forall i :: 0 <= i < |xs| ==> lo <= xs[i] < hi) &&
    (forall i, j :: 0 <= i < j < |xs| ==> xs[i] != xs[j])
  }

  class CabDriver {
    const actionSpace: seq<Action>
    const stateSpace: seq<State>
    const stateInit: State

    ghost predicate Valid() {
      IsActionSpace(actionSpace) && IsStateSpace(stateSpace) && stateInit in stateSpace
    }

    /** initChoice is the uniformly drawn index of the initial state. */
    constructor (initChoice: nat)
      requires initChoice < NumStates
      ensures Valid()
      ensures stateInit == stateSpace[initChoice] == StateAt(initChoice)
    {
      var actions := BuildActionSpace();
      var states := BuildStateSpace();
      actionSpace := actions;
      stateSpace := states;
      stateInit := states[initChoice];
    }

    /** One-hot encoding of a state, written cell by cell into zeroed arrays. */
    method EncodeState(s: State) returns (enc: seq<int>)
      requires ValidState(s)
      ensures enc == Encoding(s)
    {
      var locArr := new int[M](_ => 0);
      var timeArr := new int[T](_ => 0);
      var dayArr := new int[D](_ => 0);
      locArr[s.loc] := 1;
      timeArr[s.time] := 1;
      dayArr[s.day] := 1;
      assert locArr[..] == OneHot(M, s.loc);
      assert timeArr[..] == OneHot(T, s.time);
      assert dayArr[..] == OneHot(D, s.day);
      enc := locArr[..] + timeArr[..] + dayArr[..];
    }

    /**
     * The requests offered at the state's location.  poisson(rate) is the
     * Poisson draw at that rate; sample(lo, hi, k) is a sample of k of the
     * integers lo .. hi - 1 without replacement.
     * The chosen indices come first and the refusal index 0 last.
     */
    method Requests(state: State, poisson: nat -> nat, sample: (int, int, nat) -> seq<int>)
      returns (indices: seq<int>, actions: seq<Action>)
      requires Valid()
      requires ValidLoc(state.loc)
      requires var n := Min(poisson(RequestRate(state.loc)), MaxRequests);
        IsSample(sample(1, (M - 1) * M + 1, n), 1, (M - 1) * M + 1, n)
      ensures var n := Min(poisson(RequestRate(state.loc)), MaxRequests);
        |indices| == |actions| == n + 1 && indices[..n] == sample(1, (M - 1) * M + 1, n)
      ensures indices[|indices| - 1] == 0 && actions[|actions| - 1] == Refusal
      ensures forall i :: 0 <= i < |indices| - 1 ==> 1 <= indices[i] <= NumRides
      ensures forall i, j :: 0 <= i < j < |indices| ==> indices[i] != indices[j]
      ensures forall i :: 0 <= i < |actions| ==> actions[i] == actionSpace[indices[i]]
      ensures forall i :: 0 <= i < |actions| - 1 ==> IsRide(actions[i])
      ensures forall i, j :: 0 <= i < j < |actions| ==> actions[i] != actions[j]
    {
      var location := state.loc;
      var requests := poisson(RequestRate(location));
      if requests > MaxRequests {
        requests := MaxRequests;
      }
      indices := sample(1, (M - 1) * M + 1, requests) + [0];
      actions := seq(|indices|, i requires 0 <= i < |indices| => actionSpace[indices[i]]);
      forall i, j | 0 <= i < j < |actions| ensures actions[i] != actions[j] {
        if actions[i] == actions[j] {
          ActionAtInjective(indices[i], indices[j]);
        }
      }
    }
  }
}
