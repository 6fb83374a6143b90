/** Residual chains over a sequence: "differencing" replaces every element
    after the first by a code computed from its predecessor and itself, and
    "accumulation" rebuilds elements left to right by applying each code to
    the element rebuilt just before it. Both codecs' residual transforms are
    instances (a sign-magnitude byte step, an XOR, a wrapping 16-bit
    difference); the facts here are proved once for every instance. */
module Chain {

  /** Element 0 is kept; element i becomes diff(s[i-1], s[i]). */
  function Differenced<T>(s: seq<T>, diff: (T, T) -> T): (e: seq<T>)
    ensures |e| == |s|
    ensures |s| > 0 ==> e[0] == s[0]
    ensures forall i :: 1 <= i < |s| ==> e[i] == diff(s[i - 1], s[i])
  {
    seq(|s|, i requires 0 <= i < |s| => if i == 0 then s[0] else diff(s[i - 1], s[i]))
  }

  /** Element 0 is kept; each later code is applied, with add, to the last
      element rebuilt so far. */
  function Accumulated<T>(e: seq<T>, add: (T, T) -> T): (s: seq<T>)
    ensures |s| == |e|
    ensures |e| > 0 ==> s[0] == e[0]
  {
    if |e| <= 1 then e
    else
      var p := Accumulated(e[..|e| - 1], add);
      p + [add(p[|p| - 1], e[|e| - 1])]
  }

  /** Every rebuilt element after the first applies its code to the element
      rebuilt just before it. */
  lemma {:induction false} AccumulatedAt<T>(e: seq<T>, add: (T, T) -> T, i: nat)
    requires 1 <= i < |e|
    ensures Accumulated(e, add)[i] == add(Accumulated(e, add)[i - 1], e[i])
  {
    var n := |e| - 1;
    var p := Accumulated(e[..n], add);
    assert Accumulated(e, add) == p + [add(p[n - 1], e[n])];
    if i < n {
      AccumulatedAt(e[..n], add, i);
      assert e[..n][i] == e[i];
    }
  }

  /** add undoes diff along s: adding the code of each step to its
      predecessor gives back the element. */
  ghost predicate UndoesAlong<T>(s: seq<T>, diff: (T, T) -> T, add: (T, T) -> T) {
    forall i :: 1 <= i < |s| ==> add(s[i - 1], diff(s[i - 1], s[i])) == s[i]
  }

  /** Accumulation undoes differencing exactly when add undoes diff at every
      step of s: the first step where it does not is rebuilt wrongly. */
  lemma RoundTripIff<T>(s: seq<T>, diff: (T, T) -> T, add: (T, T) -> T)
    ensures Accumulated(Differenced(s, diff), add) == s <==> UndoesAlong(s, diff, add)
  {
    var e := Differenced(s, diff);
    var a := Accumulated(e, add);
    if UndoesAlong(s, diff, add) {
      forall i | 0 <= i < |s|
        ensures a[i] == s[i]
      {
        RoundTripAt(s, diff, add, i);
      }
    } else {
      var i :| 1 <= i < |s| && add(s[i - 1], diff(s[i - 1], s[i])) != s[i];
      if a == s {
        AccumulatedAt(e, add, i);
      }
    }
  }

  lemma {:induction false} RoundTripAt<T>(s: seq<T>, diff: (T, T) -> T, add: (T, T) -> T, i: nat)
    requires UndoesAlong(s, diff, add) && i < |s|
    ensures Accumulated(Differenced(s, diff), add)[i] == s[i]
  {
    if i > 0 {
      RoundTripAt(s, diff, add, i - 1);
      AccumulatedAt(Differenced(s, diff), add, i);
    }
  }

  /** When add undoes diff everywhere, differencing is undone for every
      sequence. */
  lemma RoundTrip<T>(s: seq<T>, diff: (T, T) -> T, add: (T, T) -> T)
    requires forall a, b :: add(a, diff(a, b)) == b
    ensures Accumulated(Differenced(s, diff), add) == s
  {
    RoundTripIff(s, diff, add);
  }

  /** When diff undoes add everywhere, differencing also undoes
      accumulation: the two transforms are mutually inverse. */
  lemma {:induction false} InverseRoundTrip<T>(e: seq<T>, diff: (T, T) -> T, add: (T, T) -> T)
    requires forall a, b :: diff(a, add(a, b)) == b
    ensures Differenced(Accumulated(e, add), diff) == e
  {
    var s := Accumulated(e, add);
    var d := Differenced(s, diff);
    forall i | 1 <= i < |e|
      ensures d[i] == e[i]
    {
      AccumulatedAt(e, add, i);
    }
  }
}
