/** The bracket matcher of exercise 16, against the grammar of balanced strings. */
module Brackets {

  const STACK_SIZE: nat := 256

  predicate Opener(c: char) { c == '(' || c == '[' || c == '{' }
  predicate Closer(c: char) { c == ')' || c == ']' || c == '}' }

  /** The closing bracket of an opening one. */
  function Mate(open: char): (close: char)
    requires Opener(open)
    ensures Closer(close)
  {
    if open == '(' then ')' else if open == '[' then ']' else '}'
  }

  function Erase(s: string): string {
    if s == "" then "" else (if Opener(s[0]) || Closer(s[0]) then [s[0]] else "") + Erase(s[1..])
  }

  // ---------- the grammar ----------

  type Open = c: char | Opener(c) witness '('

  /** S -> empty | S S | ( S ) | [ S ] | { S } */
  datatype Derivation = Nothing | Both(first: Derivation, second: Derivation) | Wrapped(open: Open, inner: Derivation)

  function Yield(d: Derivation): string {
    match d
    case Nothing => ""
    case Both(a, b) => Yield(a) + Yield(b)
    case Wrapped(open, inner) => [open] + Yield(inner) + [Mate(open)]
  }

  function Depth(d: Derivation): nat {
    match d
    case Nothing => 0
    case Both(a, b) => if Depth(a) > Depth(b) then Depth(a) else Depth(b)
    case Wrapped(_, inner) => 1 + Depth(inner)
  }

  ghost predicate Derivable(w: string, limit: nat) {
    exists d :: Yield(d) == w && Depth(d) <= limit
  }

  // ---------- the stack machine ----------

  /** Reading `s` with `stack` (its top last) never fails and ends with an empty stack. */
  predicate Accepts(stack: string, s: string, limit: nat)
    decreases |s|
  {
    if s == "" then stack == ""
    else if Opener(s[0]) then |stack| < limit && Accepts(stack + [s[0]], s[1..], limit)
    else if Closer(s[0]) then
      var top := |stack| - 1;
      top >= 0 && Opener(stack[top]) && Mate(stack[top]) == s[0] && Accepts(stack[..top], s[1..], limit)
    else Accepts(stack, s[1..], limit)
  }

  /** Other characters do not matter. */
  lemma {:induction false} AcceptsErased(stack: string, s: string, limit: nat)
    ensures Accepts(stack, s, limit) == Accepts(stack, Erase(s), limit)
    decreases |s|
  {
    if s != "" {
      var c := s[0];
      if Opener(c) {
        AcceptsErased(stack + [c], s[1..], limit);
        assert Erase(s)[1..] == Erase(s[1..]);
      } else if Closer(c) {
        if |stack| > 0 {
          AcceptsErased(stack[..|stack| - 1], s[1..], limit);
        }
        assert Erase(s)[1..] == Erase(s[1..]);
      } else {
        AcceptsErased(stack, s[1..], limit);
        assert Erase(s) == Erase(s[1..]);
      }
    }
  }

  /** A derivable string leaves the stack as it was. */
  lemma {:induction false} ReadsThrough(stack: string, d: Derivation, w: string, limit: nat)
    requires |stack| + Depth(d) <= limit
    ensures Accepts(stack, Yield(d) + w, limit) == Accepts(stack, w, limit)
    decreases d
  {
    match d
    case Nothing =>
      assert Yield(d) + w == w;
    case Both(a, b) =>
      assert Yield(d) + w == Yield(a) + (Yield(b) + w);
      ReadsThrough(stack, a, Yield(b) + w, limit);
      ReadsThrough(stack, b, w, limit);
    case Wrapped(open, inner) =>
      var close := [Mate(open)] + w;
      assert (Yield(d) + w)[1..] == Yield(inner) + close;
      ReadsThrough(stack + [open], inner, close, limit);
      assert (stack + [open])[..|stack|] == stack && close[1..] == w;
  }

  ghost predicate CompletesWith(stack: string, w: string, limit: nat, d: Derivation, rest: string)
    requires stack != ""
  {
    var top := stack[|stack| - 1];
    && Opener(top) && w == Yield(d) + [Mate(top)] + rest
    && |stack| + Depth(d) <= limit
  }

  /** What is left to read while `stack` is open: a derivable string, the mate of the top, and so
      on down the stack, with a derivable string at the end. */
  ghost predicate Completes(stack: string, w: string, limit: nat)
    decreases |stack|
  {
    if stack == "" then Derivable(w, limit)
    else exists d, rest :: CompletesWith(stack, w, limit, d, rest) && Completes(stack[..|stack| - 1], rest, limit)
  }

  lemma Regroup(a: string, b: string, c: string, d: string)
    ensures a + (b + c + d) == (a + b) + c + d
  {
  }

  /** A bracketed group in front of what completes a stack. */
  lemma GroupInFront(stack: string, group: Derivation, rest: string, limit: nat)
    requires |stack| + Depth(group) <= limit && Completes(stack, rest, limit)
    ensures Completes(stack, Yield(group) + rest, limit)
  {
    if stack == "" {
      var d :| Yield(d) == rest && Depth(d) <= limit;
      var both := Both(group, d);
      assert Yield(both) == Yield(group) + rest && Depth(both) <= limit;
    } else {
      var d, rest2 :| CompletesWith(stack, rest, limit, d, rest2) && Completes(stack[..|stack| - 1], rest2, limit);
      Regroup(Yield(group), Yield(d), [Mate(stack[|stack| - 1])], rest2);
      assert CompletesWith(stack, Yield(group) + rest, limit, Both(group, d), rest2);
    }
  }

  lemma OpenerCompletes(stack: string, c: Open, tail: string, limit: nat)
    requires Completes(stack + [c], tail, limit)
    ensures Completes(stack, [c] + tail, limit)
  {
    var pushed := stack + [c];
    assert pushed[..|pushed| - 1] == stack;
    var d, rest :| CompletesWith(pushed, tail, limit, d, rest) && Completes(stack, rest, limit);
    GroupInFront(stack, Wrapped(c, d), rest, limit);
    Regroup([c], Yield(d), [Mate(c)], rest);
  }

  lemma CloserCompletes(stack: string, c: char, tail: string, limit: nat)
    requires 0 < |stack| <= limit && Opener(stack[|stack| - 1]) && c == Mate(stack[|stack| - 1])
    requires Completes(stack[..|stack| - 1], tail, limit)
    ensures Completes(stack, [c] + tail, limit)
  {
    assert [c] + tail == Yield(Nothing) + [c] + tail;
    assert CompletesWith(stack, [c] + tail, limit, Nothing, tail);
  }

  lemma {:induction false} AcceptedCompletes(stack: string, s: string, limit: nat)
    requires Accepts(stack, s, limit) && |stack| <= limit
    ensures Completes(stack, Erase(s), limit)
    decreases |s|
  {
    if s == "" {
      assert Yield(Nothing) == "" && Depth(Nothing) <= limit;
    } else {
      var c, tail := s[0], Erase(s[1..]);
      if Opener(c) {
        AcceptedCompletes(stack + [c], s[1..], limit);
        OpenerCompletes(stack, c, tail, limit);
      } else if Closer(c) {
        AcceptedCompletes(stack[..|stack| - 1], s[1..], limit);
        CloserCompletes(stack, c, tail, limit);
      } else {
        AcceptedCompletes(stack, s[1..], limit);
        assert Erase(s) == tail;
      }
    }
  }

  /** The machine accepts exactly what the grammar derives within the depth of its stack. */
  lemma AcceptsIffDerivable(s: string, limit: nat)
    ensures Accepts("", s, limit) <==> Derivable(Erase(s), limit)
  {
    if Accepts("", s, limit) {
      AcceptedCompletes("", s, limit);
    }
    if Derivable(Erase(s), limit) {
      var d :| Yield(d) == Erase(s) && Depth(d) <= limit;
      ReadsThrough("", d, "", limit);
      assert Erase(s) + "" == Erase(s);
      AcceptsErased("", s, limit);
    }
  }

  /** The greatest number of brackets open at once, starting from `open` of them. */
  function Highest(w: string, open: int): int
    decreases |w|
  {
    if w == "" then open
    else var rest := Highest(w[1..], if Opener(w[0]) then open + 1 else open - 1);
      if rest > open then rest else open
  }

  /** Opening less other brackets. */
  function Surplus(w: string): int {
    var m := multiset(w);
    2 * (m['('] + m['['] + m['{']) - |w|
  }

  lemma SurplusCons(c: char, w: string)
    ensures Surplus([c] + w) == Surplus(w) + if Opener(c) then 1 else -1
  {
    assert multiset([c] + w) == multiset{c} + multiset(w);
  }

  lemma SurplusNext(w: string, i: nat)
    requires w != "" && i < |w|
    ensures Surplus(w[..i + 1]) == Surplus(w[1..][..i]) + if Opener(w[0]) then 1 else -1
  {
    SurplusCons(w[0], w[1..][..i]);
    assert w[..i + 1] == [w[0]] + w[1..][..i];
  }

  /** No prefix has more brackets open, ... */
  lemma {:induction false} HighestBounds(w: string, open: int, i: nat)
    requires i <= |w|
    ensures open + Surplus(w[..i]) <= Highest(w, open)
    decreases |w|
  {
    if i > 0 {
      SurplusNext(w, i - 1);
      HighestBounds(w[1..], if Opener(w[0]) then open + 1 else open - 1, i - 1);
    } else {
      assert w[..0] == "";
    }
  }

  /** ... and one has as many. */
  lemma {:induction false} HighestReached(w: string, open: int) returns (i: nat)
    ensures i <= |w| && open + Surplus(w[..i]) == Highest(w, open)
    decreases |w|
  {
    i := 0;
    assert w[..0] == "";
    if w != "" {
      var j := HighestReached(w[1..], if Opener(w[0]) then open + 1 else open - 1);
      SurplusNext(w, j);
      if Highest(w, open) != open {
        i := j + 1;
      }
    }
  }

  lemma {:induction false} HighestConcat(d: Derivation, w: string, open: int)
    ensures Highest(Yield(d) + w, open) == var h := Highest(w, open); if h > open + Depth(d) then h else open + Depth(d)
    decreases d
  {
    match d
    case Nothing =>
      assert Yield(d) + w == w;
    case Both(a, b) =>
      assert Yield(d) + w == Yield(a) + (Yield(b) + w);
      HighestConcat(a, Yield(b) + w, open);
      HighestConcat(b, w, open);
    case Wrapped(o, inner) =>
      var close := [Mate(o)] + w;
      assert (Yield(d) + w)[1..] == Yield(inner) + close;
      HighestConcat(inner, close, open + 1);
      assert close[1..] == w;
  }

  /** The depth of a derivation is the greatest number of brackets open at once in its string, so
      all derivations of a string are equally deep. */
  lemma DepthIsHighest(d: Derivation, open: int)
    ensures Highest(Yield(d), open) == open + Depth(d)
  {
    HighestConcat(d, "", open);
    assert Yield(d) + "" == Yield(d);
  }

  ghost predicate Balanced(w: string) {
    exists d :: Yield(d) == w
  }

  /** The stack accepts exactly the strings that the grammar derives once other characters are
      erased, and that never have more than `limit` brackets open. */
  lemma AcceptsIff(s: string, limit: nat)
    ensures Accepts("", s, limit) <==> Balanced(Erase(s)) && Highest(Erase(s), 0) <= limit
  {
    var w := Erase(s);
    AcceptsIffDerivable(s, limit);
    forall d | Yield(d) == w
      ensures Highest(w, 0) == Depth(d)
    {
      DepthIsHighest(d, 0);
    }
    if Balanced(w) && Highest(w, 0) <= limit {
      var d :| Yield(d) == w;
      assert Depth(d) <= limit;
    }
  }

  // ---------- which characters are brackets, and which belong together ----------

  predicate IsPair(o: char, c: char) {
    (o == '(' && c == ')') || (o == '[' && c == ']') || (o == '{' && c == '}')
  }

  predicate IsBracket(c: char) {
    c == '(' || c == ')' || c == '[' || c == ']' || c == '{' || c == '}'
  }

  /** Erasing keeps exactly the six brackets, ... */
  lemma EraseOne(c: char)
    ensures Erase([c]) == if IsBracket(c) then [c] else ""
  {
  }

  /** ... one character at a time. */
  lemma {:induction false} EraseConcat(a: string, b: string)
    ensures Erase(a + b) == Erase(a) + Erase(b)
    decreases |a|
  {
    if a == "" {
      assert a + b == b;
    } else {
      var first := if Opener(a[0]) || Closer(a[0]) then [a[0]] else "";
      assert (a + b)[1..] == a[1..] + b;
      EraseConcat(a[1..], b);
      assert first + (Erase(a[1..]) + Erase(b)) == first + Erase(a[1..]) + Erase(b);
    }
  }

  lemma {:induction false} YieldBrackets(d: Derivation)
    ensures forall i :: 0 <= i < |Yield(d)| ==> IsBracket(Yield(d)[i])
  {
    match d
    case Nothing =>
    case Both(a, b) =>
      YieldBrackets(a);
      YieldBrackets(b);
    case Wrapped(_, inner) =>
      YieldBrackets(inner);
  }

  lemma MateAccepted(o: char, c: char, limit: nat)
    requires Opener(o) && IsBracket(c)
    ensures Accepts([o], [c], limit) <==> IsPair(o, c)
  {
    assert [c][0] == c && [c][1..] == "" && [o][..0] == "";
    assert Opener(c) ==> [o] + [c] != "";
  }

  lemma PairAccepted(o: char, c: char, limit: nat)
    requires IsBracket(o) && IsBracket(c) && limit >= 2
    ensures Accepts("", [o, c], limit) <==> IsPair(o, c)
  {
    var s := [o, c];
    assert s[0] == o && s[1..] == [c];
    if Opener(o) {
      assert "" + [o] == [o];
      MateAccepted(o, c, limit);
    }
  }

  lemma PairErased(o: char, c: char)
    requires IsBracket(o) && IsBracket(c)
    ensures Erase([o, c]) == [o, c] && Highest([o, c], 0) <= 2
  {
    EraseOne(o);
    EraseOne(c);
    EraseConcat([o], [c]);
    assert [o] + [c] == [o, c] && [o, c][1..] == [c] && [c][1..] == "";
    var one := if Opener(o) then 1 else -1;
    assert Highest([c], one) <= 2;
  }

  /** Of the two-character strings exactly (), [] and {} are balanced. */
  lemma PairBalanced(o: char, c: char)
    ensures Balanced([o, c]) <==> IsPair(o, c)
  {
    if IsBracket(o) && IsBracket(c) {
      PairAccepted(o, c, 2);
      PairErased(o, c);
      AcceptsIff([o, c], 2);
    } else {
      forall d
        ensures Yield(d) != [o, c]
      {
        YieldBrackets(d);
        assert [o, c][0] == o && [o, c][1] == c;
      }
    }
  }

  /** The loop, against the stack machine. */
  method Matches(s: string) returns (balanced: bool)
    ensures balanced <==> Accepts("", s, STACK_SIZE)
  {
    var top := -1;
    var stk := new char[STACK_SIZE];
    assert s[0..] == s && stk[..0] == "";
    for i := 0 to |s|
      invariant -1 <= top < STACK_SIZE
      invariant Accepts("", s, STACK_SIZE) == Accepts(stk[..top + 1], s[i..], STACK_SIZE)
      invariant forall j :: 0 <= j <= top ==> Opener(stk[j])
    {
      var c := s[i];
      assert s[i..][0] == c && s[i..][1..] == s[i + 1..];
      ghost var stack := stk[..top + 1];
      if Opener(c) {
        if top >= STACK_SIZE - 1 {
          return false;
        }
        top := top + 1;
        stk[top] := c;
        assert stk[..top + 1] == stack + [c];
      } else if Closer(c) {
        if top < 0 {
          return false;
        }
        var open := stk[top];
        top := top - 1;
        assert stack[..|stack| - 1] == stk[..top + 1];
        if (c == ')' && open != '(') || (c == ']' && open != '[') || (c == '}' && open != '{') {
          return false;
        }
      }
    }
    return top == -1;
  }

  /** `brackets_balanced`, for a string without its terminating NUL. */
  method BracketsBalanced(s: string) returns (balanced: bool)
    ensures balanced <==> Balanced(Erase(s)) && Highest(Erase(s), 0) <= 256
    ensures |s| == 2 && IsBracket(s[0]) && IsBracket(s[1]) ==> (balanced <==> IsPair(s[0], s[1]))
  {
    AcceptsIff(s, STACK_SIZE);
    if |s| == 2 && IsBracket(s[0]) && IsBracket(s[1]) {
      assert s == [s[0], s[1]];
      PairErased(s[0], s[1]);
      PairBalanced(s[0], s[1]);
    }
    balanced := Matches(s);
  }
}
