/** Small shared definitions: options, pieces of sequences, and a named multiplication. */
module Common {
  datatype Option<+T> = None | Some(value: T)

  /** The last n elements of s, or all of it when it is shorter. */
  function LastN<T>(s: seq<T>, n: nat): (r: seq<T>)
    ensures |r| == if |s| < n then |s| else n
  {
    if |s| <= n then s else s[|s| - n..]
  }

  /** Dropping the overflow after each append is the same as keeping the whole log and looking
      at its end. */
  lemma LastNAppend<T>(s: seq<T>, n: nat, x: T)
    ensures LastN(LastN(s, n) + [x], n) == LastN(s + [x], n)
  {
  }

  lemma LastNLastN<T>(s: seq<T>, m: nat, n: nat)
    ensures LastN(LastN(s, m), n) == LastN(s, if m < n then m else n)
  {
  }

  /** s without the element at index i. */
  function Cut<T>(s: seq<T>, i: nat): (r: seq<T>)
    requires i < |s|
    ensures |r| == |s| - 1 && forall k :: 0 <= k < |r| ==> r[k] == s[if k < i then k else k + 1]
  {
    s[..i] + s[i + 1..]
  }

  lemma CutLast<T>(s: seq<T>)
    requires s != []
    ensures Cut(s, |s| - 1) == s[..|s| - 1]
  {
  }

  lemma {:induction false} RangeSize(s: set<int>, n: nat)
    requires forall i :: i in s <==> 0 <= i < n
    ensures |s| == n
  {
    if n == 0 {
      assert forall i :: i !in s;
    } else {
      RangeSize(s - {n - 1}, n - 1);
    }
  }

  // ---------- multiplication ----------

  /** Multiplication under a name, so that proofs which only move products around can hide it. */
  function Times(x: real, y: real): real {
    x * y
  }

  lemma TimesDistributes(x: real, y: real, z: real)
    ensures Times(x, y + z) == Times(x, y) + Times(x, z)
    ensures Times(x, 0.0) == 0.0
  {
  }

  lemma TimesRearrange(x: real, y: real, z: real)
    ensures Times(x, Times(y, z)) == Times(z, Times(x, y))
  {
  }

  lemma TimesOne(x: real)
    ensures Times(x, 1.0) == x == Times(1.0, x)
  {
  }

  lemma TimesPositive(x: real, y: real)
    requires x > 0.0 && y > 0.0
    ensures Times(x, y) > 0.0
  {
  }

  lemma TimesNonNegative(x: real, y: real)
    requires x >= 0.0 && y >= 0.0
    ensures Times(x, y) >= 0.0
  {
  }

  lemma TimesSuccessor(n: nat, c: real)
    ensures Times((n + 1) as real, c) == Times(n as real, c) + c
  {
  }

  lemma TimesCommutes(x: real, y: real)
    ensures Times(x, y) == Times(y, x)
  {
  }
}
