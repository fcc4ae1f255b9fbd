/** `greater_time(time1, time2)`: both time stamps are split on '.', and their
    parts are compared as strings, not as numbers. */
module Timestamp {
  import opened RubyText

  /** Ruby's `v[i]` on an array of strings: nil past the end. */
  function At(v: seq<string>, i: nat): (r: Nilable<string>)
    ensures r.Val? <==> i < |v|
    ensures r.Val? ==> r.value == v[i]
  {
    if i < |v| then Val(v[i]) else Nil
  }

  /** Ruby's `a > b` where either side may be nil: comparing with nil raises
      (NoMethodError on a nil receiver, ArgumentError on a nil argument). */
  function GreaterOrRaise(a: Nilable<string>, b: Nilable<string>): (r: Eval<bool>)
    ensures r.Raises? <==> a.Nil? || b.Nil?
    ensures r.Returns? ==> r.value == StrGreater(a.value, b.value)
  {
    if a.Nil? || b.Nil? then Raises else Returns(StrGreater(a.value, b.value))
  }

  /** `greater_time(time1, time2)`. Once either side splits into exactly two
      parts, it compares the second parts when the first parts agree and the
      first parts otherwise; with neither side in two parts it is false.
      The guard lets the comparison go ahead when EITHER side has two parts,
      so a side with no part, or with one part equal to the other's first,
      puts nil into the comparison, which raises. */
  function GreaterTime(time1: string, time2: string): (r: Eval<bool>)
    ensures var v1, v2 := Split(time1, '.'), Split(time2, '.');
      && ((|v1| == 2 || |v2| == 2) && |v1| >= 2 && |v2| >= 2 && v1[0] == v2[0] ==>
            r == Returns(StrGreater(v1[1], v2[1])))
      && ((|v1| == 2 || |v2| == 2) && |v1| >= 1 && |v2| >= 1 && v1[0] != v2[0] ==>
            r == Returns(StrGreater(v1[0], v2[0])))
      && (|v1| != 2 && |v2| != 2 ==> r == Returns(false))
      && (r == Raises <==>
            (|v1| == 2 || |v2| == 2) &&
            (|v1| == 0 || |v2| == 0 || ((|v1| == 1 || |v2| == 1) && v1[0] == v2[0])))
  {
    var v1 := Split(time1, '.');
    var v2 := Split(time2, '.');
    if !(|v1| == 2 || |v2| == 2) then Returns(false)
    else if At(v1, 0) == At(v2, 0) then GreaterOrRaise(At(v1, 1), At(v2, 1))
    else GreaterOrRaise(At(v1, 0), At(v2, 0))
  }

  /** A time stamp is never later than itself, and comparing it with itself
      never raises. */
  lemma GreaterTimeIrreflexive(t: string)
    ensures GreaterTime(t, t) == Returns(false)
  {
    var v := Split(t, '.');
    if |v| == 2 {
      StrGreaterIrreflexive(v[1]);
    }
  }

  /** `greater_time` is asymmetric wherever both directions return. */
  lemma GreaterTimeAsymmetric(time1: string, time2: string)
    requires GreaterTime(time1, time2) == Returns(true)
    ensures GreaterTime(time2, time1) != Returns(true)
  {
    var v1, v2 := Split(time1, '.'), Split(time2, '.');
    if v1[0] == v2[0] {
      StrGreaterAsymmetric(v1[1], v2[1]);
    } else {
      StrGreaterAsymmetric(v1[0], v2[0]);
    }
  }
}
