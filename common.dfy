/** Small helpers shared by every module of the model: an Option type,
    the `Iterator::position` search and the "segments joined by
    separators" shape used by the comma splitter. */
module Common {

  datatype Option<+T> = None | Some(value: T)

  /** The value of `o` as a sequence of at most one element: an optional
      closing bracket or separator, written out or left out. */
  function OptSeq<T>(o: Option<T>): (r: seq<T>)
    ensures |r| <= 1 && (r == [] <==> o.None?)
    ensures o.Some? ==> r == [o.value]
  {
    if o.Some? then [o.value] else []
  }

  /** Index of the first element satisfying `p`, as `iter().position(p)`. */
  function Position<T>(s: seq<T>, p: T -> bool): (r: Option<nat>)
    ensures r.Some? ==> r.value < |s| && p(s[r.value])
    ensures r.Some? ==> forall j :: 0 <= j < r.value ==> !p(s[j])
    ensures r.None? <==> forall j :: 0 <= j < |s| ==> !p(s[j])
    decreases |s|
  {
    if s == [] then None
    else if p(s[0]) then Some(0)
    else match Position(s[1..], p)
      case None => None
      case Some(k) => Some(k + 1)
  }

  /** The first match depends only on the elements up to it. */
  lemma PositionPrefix<T>(s: seq<T>, t: seq<T>, p: T -> bool, i: nat)
    requires Position(s, p) == Some(i) && i < |t| && t[..i + 1] == s[..i + 1]
    ensures Position(t, p) == Some(i)
  {
    assert t[i] == t[..i + 1][i] == s[..i + 1][i] == s[i];
    forall j | 0 <= j < i ensures !p(t[j]) {
      assert t[j] == t[..i + 1][j] == s[..i + 1][j] == s[j];
    }
    var r := Position(t, p);
    assert r.Some? && r.value <= i;
    assert p(t[r.value]);
  }

  /** `parts[0] + [seps[0]] + parts[1] + ... + [seps[n-1]] + parts[n]`. */
  function Interleave<T>(parts: seq<seq<T>>, seps: seq<T>): seq<T>
    requires |parts| == |seps| + 1
    decreases |seps|
  {
    if seps == [] then parts[0]
    else parts[0] + [seps[0]] + Interleave(parts[1..], seps[1..])
  }

  lemma InterleaveCons<T>(x: seq<T>, ts: seq<seq<T>>, c: T, cs: seq<T>)
    requires |ts| == |cs| + 1
    ensures Interleave([x] + ts, [c] + cs) == x + [c] + Interleave(ts, cs)
  {
    var parts, seps := [x] + ts, [c] + cs;
    assert parts[0] == x && parts[1..] == ts;
    assert seps[0] == c && seps[1..] == cs;
  }

  /** Splitting `s` at index `p` and joining the pieces back. */
  lemma InterleaveSplit<T>(s: seq<T>, p: nat, parts: seq<seq<T>>, seps: seq<T>)
    requires p < |s| && |parts| == |seps| + 1 && Interleave(parts, seps) == s[p + 1..]
    ensures Interleave([s[..p]] + parts, [s[p]] + seps) == s
  {
    InterleaveCons(s[..p], parts, s[p], seps);
    assert s[p..] == [s[p]] + s[p + 1..];
    assert s == s[..p] + s[p..];
  }

  /** Sequence reversal, last element first. */
  function Reverse<T>(s: seq<T>): (r: seq<T>)
    ensures |r| == |s|
  {
    if s == [] then [] else Reverse(s[1..]) + [s[0]]
  }

  /** The concatenation of `ss`, in order. */
  function Concat<T>(ss: seq<seq<T>>): seq<T>
  {
    if ss == [] then [] else ss[0] + Concat(ss[1..])
  }

  lemma ConcatCons<T>(x: seq<T>, ss: seq<seq<T>>)
    ensures Concat([x] + ss) == x + Concat(ss)
  {
    assert ([x] + ss)[0] == x && ([x] + ss)[1..] == ss;
  }

  /** The elements of `s` that satisfy `p`, in order, as `Vec::retain(p)`
      leaves them. */
  function Filter<T>(s: seq<T>, p: T -> bool): (r: seq<T>)
    ensures |r| <= |s|
    ensures forall x :: x in r ==> x in s && p(x)
  {
    if s == [] then []
    else Filter(s[..|s| - 1], p) + (if p(s[|s| - 1]) then [s[|s| - 1]] else [])
  }

  /** How many elements of `s` satisfy `p`. */
  function Count<T>(s: seq<T>, p: T -> bool): nat
  {
    if s == [] then 0
    else Count(s[..|s| - 1], p) + (if p(s[|s| - 1]) then 1 else 0)
  }

  /** Nothing that satisfies `p` is dropped. */
  lemma {:induction false} FilterKeeps<T>(s: seq<T>, p: T -> bool, x: T)
    requires x in s && p(x)
    ensures x in Filter(s, p)
    decreases |s|
  {
    var n := |s| - 1;
    assert s == s[..n] + [s[n]];
    if x != s[n] {
      FilterKeeps(s[..n], p, x);
    }
  }

  lemma {:induction false} FilterCount<T>(s: seq<T>, p: T -> bool)
    ensures |Filter(s, p)| == Count(s, p)
    decreases |s|
  {
    if s != [] {
      FilterCount(s[..|s| - 1], p);
    }
  }

  lemma FilterSnoc<T>(s: seq<T>, i: nat, p: T -> bool)
    requires i < |s|
    ensures Filter(s[..i + 1], p) == Filter(s[..i], p) + (if p(s[i]) then [s[i]] else [])
    ensures Count(s[..i + 1], p) == Count(s[..i], p) + (if p(s[i]) then 1 else 0)
  {
    assert s[..i + 1][..i] == s[..i];
  }

  /** Something satisfies `p` exactly when the count is positive. */
  lemma {:induction false} CountPositive<T>(s: seq<T>, p: T -> bool)
    ensures Count(s, p) > 0 <==> exists k :: 0 <= k < |s| && p(s[k])
    decreases |s|
  {
    if s != [] {
      var n := |s| - 1;
      CountPositive(s[..n], p);
      if Count(s[..n], p) > 0 {
        var k :| 0 <= k < n && p(s[..n][k]);
        assert s[k] == s[..n][k];
      }
      if exists k :: 0 <= k < |s| && p(s[k]) {
        var k :| 0 <= k < |s| && p(s[k]);
        if k < n {
          assert s[..n][k] == s[k];
        }
      }
    }
  }

  /** `Count` read from the front. */
  lemma {:induction false} CountCons<T>(s: seq<T>, p: T -> bool)
    requires s != []
    ensures Count(s, p) == (if p(s[0]) then 1 else 0) + Count(s[1..], p)
    decreases |s|
  {
    var n := |s| - 1;
    if n > 0 {
      CountCons(s[..n], p);
      assert s[..n][1..] == s[1..][..n - 1];
      assert s[..n][0] == s[0];
      assert s[1..][n - 1] == s[n];
    } else {
      assert s[1..] == [];
    }
  }
}
