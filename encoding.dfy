// The one-hot state encoding of the cab-driver environment (Env.py:33-56):
// the vector it produces, a decoder that reads the one-hot positions back,
// and a count of the ones.

module StateEncoding {
  import opened Env

  datatype Option<X> = None | Some(value: X)

  /** A vector of n zeros with a one at position k. */
  function OneHot(n: nat, k: int): (v: seq<int>)
    ensures |v| == n
  {
    seq(n, i => if i == k then 1 else 0)
  }

  /** location (m entries), then hour (t entries), then day (d entries). */
  function Encoding(s: State): (e: seq<int>)
    requires ValidState(s)
    ensures |e| == M + T + D
    ensures forall i :: 0 <= i < |e| ==>
      e[i] == if i == s.loc || i == M + s.time || i == M + T + s.day then 1 else 0
  {
    OneHot(M, s.loc) + OneHot(T, s.time) + OneHot(D, s.day)
  }

  /** The position of the first one in v, if there is one. */
  function IndexOfOne(v: seq<int>): (r: Option<int>)
    ensures r.Some? ==>
      0 <= r.value < |v| && v[r.value] == 1 && forall j :: 0 <= j < r.value ==> v[j] != 1
    ensures r.None? ==> forall j :: 0 <= j < |v| ==> v[j] != 1
  {
    if |v| == 0 then None
    else if v[0] == 1 then Some(0)
    else match IndexOfOne(v[1..])
      case None => None
      case Some(k) => Some(k + 1)
  }

  /** Reads a state back from the one-hot positions of the three segments. */
  function Decode(e: seq<int>): (r: Option<State>)
    ensures r.Some? ==>
      |e| == M + T + D && ValidState(r.value) &&
      e[r.value.loc] == 1 && e[M + r.value.time] == 1 && e[M + T + r.value.day] == 1
    ensures (|e| == M + T + D && (exists i :: 0 <= i < M && e[i] == 1) &&
             (exists i :: M <= i < M + T && e[i] == 1) &&
             (exists i :: M + T <= i < |e| && e[i] == 1))
            ==> r.Some?
  {
    if |e| != M + T + D then None
    else
      match (IndexOfOne(e[..M]), IndexOfOne(e[M..M + T]), IndexOfOne(e[M + T..]))
      case (Some(l), Some(h), Some(d)) => Some(State(l, h, d))
      case _ => None
  }

  lemma IndexOfOneHot(n: nat, k: int)
    requires 0 <= k < n
    ensures IndexOfOne(OneHot(n, k)) == Some(k)
  {
    var r := IndexOfOne(OneHot(n, k));
    assert OneHot(n, k)[k] == 1;
  }

  /** Decoding an encoded state gives the state back. */
  lemma DecodeEncoding(s: State)
    requires ValidState(s)
    ensures Decode(Encoding(s)) == Some(s)
  {
    var a, b, c := OneHot(M, s.loc), OneHot(T, s.time), OneHot(D, s.day);
    var e := Encoding(s);
    assert e[..M] == a;
    assert e[M..M + T] == b;
    assert e[M + T..] == c;
    IndexOfOneHot(M, s.loc);
    IndexOfOneHot(T, s.time);
    IndexOfOneHot(D, s.day);
  }

  function CountOnes(v: seq<int>): nat
  {
    if |v| == 0 then 0 else (if v[0] == 1 then 1 else 0) + CountOnes(v[1..])
  }

  lemma {:induction false} CountOnesAppend(u: seq<int>, v: seq<int>)
    ensures CountOnes(u + v) == CountOnes(u) + CountOnes(v)
  {
    if |u| == 0 {
      assert u + v == v;
    } else {
      assert (u + v)[1..] == u[1..] + v;
      CountOnesAppend(u[1..], v);
    }
  }

  lemma {:induction false} CountOnesOneHot(n: nat, k: int)
    ensures CountOnes(OneHot(n, k)) == if 0 <= k < n then 1 else 0
  {
    if n > 0 {
      assert OneHot(n, k)[1..] == OneHot(n - 1, k - 1);
      CountOnesOneHot(n - 1, k - 1);
    }
  }

  /** An encoded state holds exactly three ones, one per segment. */
  lemma EncodingHasThreeOnes(s: State)
    requires ValidState(s)
    ensures CountOnes(Encoding(s)) == 3
  {
    var a, b, c := OneHot(M, s.loc), OneHot(T, s.time), OneHot(D, s.day);
    CountOnesAppend(a + b, c);
    CountOnesAppend(a, b);
    CountOnesOneHot(M, s.loc);
    CountOnesOneHot(T, s.time);
    CountOnesOneHot(D, s.day);
  }
}
