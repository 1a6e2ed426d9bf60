/**
 * The bounded double-ended queue the service keeps its two logs in: a queue
 * created with a maximum length, where appending to a full queue discards
 * the oldest entry. The rolling pressure window and the session log are
 * both of this kind, with different capacities.
 */
module BoundedDeque {

  /** The last `n` elements of `t` (all of `t` when it is shorter). */
  function Suffix<T>(t: seq<T>, n: nat): (r: seq<T>)
    ensures |r| == if |t| <= n then |t| else n
  {
    if |t| <= n then t else t[|t| - n..]
  }

  /** Appending `x` on the right of a queue with maximum length `cap`. */
  function Push<T>(s: seq<T>, x: T, cap: nat): (r: seq<T>)
    ensures |r| <= cap
    ensures |s| < cap ==> r == s + [x]
    ensures 0 < cap == |s| ==> r == s[1..] + [x]
    ensures cap > 0 ==> |r| > 0 && r[|r| - 1] == x
  {
    Suffix(s + [x], cap)
  }

  /** Appending the elements of `xs` one after another, left to right. */
  function PushAll<T>(s: seq<T>, xs: seq<T>, cap: nat): (r: seq<T>)
    ensures xs == [] ==> r == s
    ensures xs != [] ==> |r| <= cap
    ensures xs != [] && cap > 0 ==> |r| > 0 && r[|r| - 1] == xs[|xs| - 1]
  {
    if xs == [] then s else Push(PushAll(s, xs[..|xs| - 1], cap), xs[|xs| - 1], cap)
  }

  /** Truncating before or after an append gives the same queue. */
  lemma SuffixOfPush<T>(t: seq<T>, x: T, cap: nat)
    ensures Suffix(Suffix(t, cap) + [x], cap) == Suffix(t + [x], cap)
  {
    var u := Suffix(t, cap) + [x];
    var v := t + [x];
    assert u == v[|v| - |u|..];
  }

  /** A run of appends keeps exactly the newest `cap` elements of the old
      contents followed by the appended ones: oldest-first eviction. */
  lemma {:induction false} PushAllIsSuffix<T>(s: seq<T>, xs: seq<T>, cap: nat)
    requires |s| <= cap
    ensures PushAll(s, xs, cap) == Suffix(s + xs, cap)
  {
    if xs != [] {
      var init := xs[..|xs| - 1];
      var last := xs[|xs| - 1];
      assert init + [last] == xs;
      calc {
        PushAll(s, xs, cap);
        Push(PushAll(s, init, cap), last, cap);
        { PushAllIsSuffix(s, init, cap); }
        Push(Suffix(s + init, cap), last, cap);
        Suffix(Suffix(s + init, cap) + [last], cap);
        { SuffixOfPush(s + init, last, cap); }
        Suffix(s + init + [last], cap);
        { assert s + init + [last] == s + xs; }
        Suffix(s + xs, cap);
      }
    }
  }

  /** Refilling an empty queue with no more than `cap` elements gives back
      exactly those elements in order. */
  lemma PushAllFromEmpty<T>(xs: seq<T>, cap: nat)
    requires |xs| <= cap
    ensures PushAll([], xs, cap) == xs
  {
    PushAllIsSuffix([], xs, cap);
    assert [] + xs == xs;
  }
}
