/** Sums of a measure over the threads of a state machine. */
module Totals {

  ghost function Total<T>(ts: seq<T>, f: T -> int): int {
    if ts == [] then 0 else f(ts[0]) + Total(ts[1..], f)
  }

  /** A step that changes one thread changes the total by that thread's difference. */
  lemma {:induction false} TotalUpdate<T>(ts: seq<T>, c: nat, x: T, f: T -> int)
    requires c < |ts|
    ensures Total(ts[c := x], f) == Total(ts, f) - f(ts[c]) + f(x)
  {
    if c == 0 {
      assert ts[0 := x][1..] == ts[1..];
    } else {
      assert ts[c := x][1..] == ts[1..][c - 1 := x];
      TotalUpdate(ts[1..], c - 1, x, f);
    }
  }

  lemma {:induction false} TotalPointwise<T>(a: seq<T>, b: seq<T>, f: T -> int, slack: nat)
    requires |a| == |b|
    requires forall c :: 0 <= c < |a| ==> f(a[c]) <= f(b[c]) <= f(a[c]) + slack
    ensures Total(a, f) <= Total(b, f) <= Total(a, f) + slack * |a|
  {
    if a != [] {
      TotalPointwise(a[1..], b[1..], f, slack);
      assert slack * |a| == slack * |a[1..]| + slack;
    }
  }

  lemma {:induction false} TotalConstant<T>(ts: seq<T>, f: T -> int, k: int)
    requires forall c :: 0 <= c < |ts| ==> f(ts[c]) == k
    ensures Total(ts, f) == k * |ts|
  {
    if ts != [] {
      TotalConstant(ts[1..], f, k);
      assert k * |ts| == k * |ts[1..]| + k;
    }
  }

  /** A total of nonnegative terms is at least each of them, and each pair of them. */
  lemma {:induction false} TotalNonnegative<T>(ts: seq<T>, f: T -> int)
    requires forall c :: 0 <= c < |ts| ==> f(ts[c]) >= 0
    ensures Total(ts, f) >= 0
    ensures forall c :: 0 <= c < |ts| ==> f(ts[c]) <= Total(ts, f)
    ensures forall c, d :: 0 <= c < d < |ts| ==> f(ts[c]) + f(ts[d]) <= Total(ts, f)
  {
    if ts != [] {
      TotalNonnegative(ts[1..], f);
      assert forall c :: 1 <= c < |ts| ==> ts[c] == ts[1..][c - 1];
    }
  }
}
