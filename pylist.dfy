/** The few Python list operations the scripts rely on, over Dafny sequences. */
module PyList {

  /** `s[i]` is defined for `-len(s) <= i < len(s)`; negative indices count from the end. */
  predicate InRange<T>(s: seq<T>, i: int) {
    -|s| <= i < |s|
  }

  /** Python's `s[i]`. */
  function Index<T>(s: seq<T>, i: int): (x: T)
    requires InRange(s, i)
    ensures x in s
  {
    if i < 0 then s[|s| + i] else s[i]
  }

  /** `s.count(x)`. */
  function Count<T(==)>(s: seq<T>, x: T): nat {
    multiset(s)[x]
  }

  lemma {:induction false} CountAtMostLength<T>(s: seq<T>, x: T)
    ensures Count(s, x) <= |s|
    ensures x in s <==> Count(s, x) > 0
  {
    if s != [] {
      CountAtMostLength(s[1..], x);
      assert s == [s[0]] + s[1..];
    }
  }

  /** `max(s)`, which raises ValueError on an empty list. */
  function Max(s: seq<int>): (m: int)
    requires |s| > 0
    ensures m in s
    ensures forall x :: x in s ==> x <= m
  {
    if |s| == 1 then s[0]
    else
      var rest := Max(s[1..]);
      assert forall x :: x in s ==> x == s[0] || x in s[1..];
      if s[0] > rest then s[0] else rest
  }

  /** `[item for sublist in ss for item in sublist]`. */
  function Flatten<T>(ss: seq<seq<T>>): seq<T> {
    if ss == [] then [] else ss[0] + Flatten(ss[1..])
  }

  /** Flattening lists that all have length n gives `len(ss) * n` items. */
  lemma {:induction false} FlattenLength<T>(ss: seq<seq<T>>, n: nat)
    requires forall i :: 0 <= i < |ss| ==> |ss[i]| == n
    ensures |Flatten(ss)| == |ss| * n
  {
    if ss != [] {
      FlattenLength(ss[1..], n);
    }
  }

  /** Every flattened item comes from some inner list. */
  lemma {:induction false} FlattenMembersComeFromSublists<T>(ss: seq<seq<T>>)
    ensures forall x :: x in Flatten(ss) ==> exists i :: 0 <= i < |ss| && x in ss[i]
  {
    if ss != [] {
      FlattenMembersComeFromSublists(ss[1..]);
      forall x | x in Flatten(ss)
        ensures exists i :: 0 <= i < |ss| && x in ss[i]
      {
        if x !in ss[0] {
          assert x in Flatten(ss[1..]);
          var i :| 0 <= i < |ss[1..]| && x in ss[1..][i];
          assert x in ss[i + 1];
        }
      }
    }
  }

  /** Every inner list's items are among the flattened items. */
  lemma {:induction false} FlattenContains<T>(ss: seq<seq<T>>, i: nat)
    requires i < |ss|
    ensures multiset(ss[i]) <= multiset(Flatten(ss))
  {
    if i > 0 {
      FlattenContains(ss[1..], i - 1);
    }
  }
}
