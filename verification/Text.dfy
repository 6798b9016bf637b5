/** Bytes and strings as the gateway handles them: a by-reference std::string and its search. */
module Text {

  type byte = x: int | 0 <= x < 256

  datatype Option<+T> = None | Some(value: T)

  /** A std::string passed by reference. */
  class StringRef {
    var s: string

    constructor (s: string)
      ensures this.s == s
    {
      this.s := s;
    }
  }

  lemma Assoc<T>(a: seq<T>, b: seq<T>, c: seq<T>)
    ensures (a + b) + c == a + (b + c)
  {
  }

  ghost predicate OccursAt<T>(s: seq<T>, t: seq<T>, i: int) {
    0 <= i && i + |t| <= |s| && s[i..i + |t|] == t
  }

  ghost predicate Occurs<T>(s: seq<T>, t: seq<T>) {
    exists i :: OccursAt(s, t, i)
  }

  /** std::string::find( t, from ): the first occurrence at or after `from`. */
  function Find<T(==)>(s: seq<T>, t: seq<T>, from: nat): (r: Option<nat>)
    ensures r.None? ==> forall i :: from <= i ==> !OccursAt(s, t, i)
    ensures r.Some? ==> from <= r.value && OccursAt(s, t, r.value)
    ensures r.Some? ==> forall i :: from <= i < r.value ==> !OccursAt(s, t, i)
    decreases |s| - from
  {
    if from + |t| > |s| then None
    else if s[from..from + |t|] == t then Some(from)
    else Find(s, t, from + 1)
  }

  /** The contract of Find determines its answer. */
  lemma FindIs<T>(s: seq<T>, t: seq<T>, from: nat, at: nat)
    requires from <= at && OccursAt(s, t, at)
    requires forall i :: from <= i < at ==> !OccursAt(s, t, i)
    ensures Find(s, t, from) == Some(at)
  {
    var r := Find(s, t, from);
    assert r.Some? && at <= r.value <= at;
  }

  lemma SliceOfSlice<T>(s: seq<T>, lo: nat, hi: nat, i: nat, j: nat)
    requires lo <= hi <= |s| && i <= j <= hi - lo
    ensures s[lo..hi][i..j] == s[lo + i..lo + j]
  {
    forall k | 0 <= k < j - i
      ensures s[lo..hi][i..j][k] == s[lo + i..lo + j][k]
    {
      assert s[lo..hi][i + k] == s[lo + i + k];
    }
  }

  /** Occurrences seen through a window of the string. */
  lemma OccursInWindow<T>(s: seq<T>, t: seq<T>, lo: nat, hi: nat, i: int)
    requires lo <= hi <= |s|
    ensures OccursAt(s[lo..hi], t, i) <==> 0 <= i && lo + i + |t| <= hi && OccursAt(s, t, lo + i)
  {
    if 0 <= i && lo + i + |t| <= hi {
      SliceOfSlice(s, lo, hi, i, i + |t|);
    }
  }

  /** A search that succeeds in the whole string finds the same place in any window that holds it. */
  lemma FindNarrow<T>(s: seq<T>, t: seq<T>, lo: nat, hi: nat, from: nat, at: nat)
    requires lo <= from <= at && at + |t| <= hi <= |s|
    requires Find(s, t, from) == Some(at)
    ensures Find(s[lo..hi], t, from - lo) == Some(at - lo)
  {
    var w := s[lo..hi];
    OccursInWindow(s, t, lo, hi, at - lo);
    forall i | from - lo <= i < at - lo
      ensures !OccursAt(w, t, i)
    {
      OccursInWindow(s, t, lo, hi, i);
      assert !OccursAt(s, t, lo + i);
    }
    FindIs(w, t, from - lo, at - lo);
  }

  /** A search that succeeds inside a window finds the same place in the whole string. */
  lemma FindWiden<T>(s: seq<T>, t: seq<T>, lo: nat, hi: nat, from: nat, at: nat)
    requires lo <= from <= at && at + |t| <= hi <= |s|
    requires Find(s[lo..hi], t, from - lo) == Some(at - lo)
    ensures Find(s, t, from) == Some(at)
  {
    var w := s[lo..hi];
    OccursInWindow(s, t, lo, hi, at - lo);
    forall i | from <= i < at
      ensures !OccursAt(s, t, i)
    {
      OccursInWindow(s, t, lo, hi, i - lo);
      assert !OccursAt(w, t, i - lo);
    }
    FindIs(s, t, from, at);
  }
}
