/** Values shared by the firework, particle and scene models: canvas points,
    the squaring used in place of square roots, random-draw indexing and the
    sequence helpers behind the trail buffers. */
module Basics {

  /** A canvas position; the source stores it as a two-element array [x, y]. */
  datatype Point = Point(x: real, y: real)

  datatype Option<T> = None | Some(value: T)

  function Sq(v: real): real { v * v }

  /** `d` is the non-negative square root of `dx^2 + dy^2` (what Math.sqrt returns
      for the Euclidean distance). */
  predicate IsDistance(d: real, dx: real, dy: real) {
    d >= 0.0 && Sq(d) == Sq(dx) + Sq(dy)
  }

  /** (cx, sy) is (cos a, sin a) for a = Math.atan2(dy, dx), where `d` is the length
      of (dx, dy): a unit vector pointing along (dx, dy), and (1, 0) for the zero
      vector, since atan2(0, 0) is 0. */
  predicate IsHeading(cx: real, sy: real, dx: real, dy: real, d: real) {
    && Sq(cx) + Sq(sy) == 1.0
    && cx * d == dx && sy * d == dy
    && (d == 0.0 ==> cx == 1.0 && sy == 0.0)
  }

  /** A draw of Math.random(). */
  predicate IsDraw(r: real) { 0.0 <= r < 1.0 }

  /** Math.floor(Math.random() * n): the table index chosen by a draw `r`. */
  function Pick(r: real, n: nat): (k: nat)
    requires IsDraw(r) && n > 0
    ensures k < n
    ensures k as real <= r * n as real < k as real + 1.0
  {
    assert 0.0 <= r * n as real < n as real;
    (r * n as real).Floor
  }

  /** The last `n` entries of `s` (all of `s` when it is shorter). */
  function LastN<T>(s: seq<T>, n: nat): seq<T> {
    if |s| <= n then s else s[|s| - n..]
  }

  /** Taking the last `n` entries before appending more changes nothing about
      the last `n` entries afterwards: trimming a FIFO early or late is the same. */
  lemma LastNAbsorbs<T>(a: seq<T>, b: seq<T>, n: nat)
    ensures LastN(LastN(a, n) + b, n) == LastN(a + b, n)
  {
    if |a| > n {
      var t, k := a[|a| - n..], |b|;
      assert LastN(t + b, n) == (t + b)[k..];
      assert LastN(a + b, n) == (a + b)[|a| + k - n..];
      forall j | 0 <= j < n
        ensures (t + b)[k..][j] == (a + b)[|a| + k - n..][j]
      {
        if k + j < n {
          assert (t + b)[k + j] == a[|a| - n + k + j];
        }
      }
    }
  }

  lemma AppendAssoc<T>(a: seq<T>, b: seq<T>, c: seq<T>)
    ensures a + b + c == a + (b + c)
  {
  }

  predicate Distinct<T(==)>(s: seq<T>) {
    forall i, j :: 0 <= i < j < |s| ==> s[i] != s[j]
  }

  /** Appending an entry not yet present keeps a sequence free of repetitions. */
  lemma DistinctAppend<T>(s: seq<T>, x: T)
    requires Distinct(s) && x !in s
    ensures Distinct(s + [x])
  {
    var t := s + [x];
    forall i, j | 0 <= i < j < |t|
      ensures t[i] != t[j]
    {
      if j < |s| {
        assert t[i] == s[i] && t[j] == s[j];
      } else {
        assert t[i] == s[i];
      }
    }
  }

  /** The entries of `s` from index `i` on whose flag in `removed` is unset, in
      their order: what a reverse-index loop of `splice(k, 1)` calls leaves of
      that part of `s` (all of `s` when `i` is 0). */
  function Survivors<T>(s: seq<T>, removed: seq<bool>, i: nat): seq<T>
    requires i <= |s| == |removed|
    decreases |s| - i
  {
    if i == |s| then []
    else (if removed[i] then [] else [s[i]]) + Survivors(s, removed, i + 1)
  }

  /** The number of flags that are set. */
  function CountTrue(flags: seq<bool>): nat {
    if flags == [] then 0 else (if flags[0] then 1 else 0) + CountTrue(flags[1..])
  }

  /** Exactly the unflagged entries from index `i` on survive. */
  lemma {:induction false} SurvivorsMember<T>(s: seq<T>, r: seq<bool>, i: nat, x: T)
    requires i <= |s| == |r|
    ensures x in Survivors(s, r, i) <==> exists k :: i <= k < |s| && s[k] == x && !r[k]
    decreases |s| - i
  {
    if i < |s| {
      SurvivorsMember(s, r, i + 1, x);
      var head, rest := if r[i] then [] else [s[i]], Survivors(s, r, i + 1);
      assert Survivors(s, r, i) == head + rest;
      if x in head {
        assert s[i] == x && !r[i];
      }
      if exists k :: i <= k < |s| && s[k] == x && !r[k] {
        var k :| i <= k < |s| && s[k] == x && !r[k];
        if k == i {
          assert x in head;
        }
      }
    }
  }

  /** One survivor for every unset flag. */
  lemma {:induction false} SurvivorsLength<T>(s: seq<T>, r: seq<bool>, i: nat)
    requires i <= |s| == |r|
    ensures |Survivors(s, r, i)| + CountTrue(r[i..]) == |s| - i
    decreases |s| - i
  {
    if i < |s| {
      SurvivorsLength(s, r, i + 1);
      assert r[i..][1..] == r[i + 1..];
    } else {
      assert r[i..] == [];
    }
  }

  /** Removing entries from a sequence without repetitions leaves one without
      repetitions. */
  lemma {:induction false} SurvivorsDistinct<T>(s: seq<T>, r: seq<bool>, i: nat)
    requires i <= |s| == |r| && Distinct(s)
    ensures Distinct(Survivors(s, r, i))
    decreases |s| - i
  {
    if i < |s| {
      SurvivorsDistinct(s, r, i + 1);
      SurvivorsMember(s, r, i + 1, s[i]);
      var rest := Survivors(s, r, i + 1);
      if !r[i] {
        var t := [s[i]] + rest;
        forall a, b | 0 <= a < b < |t|
          ensures t[a] != t[b]
        {
          assert t[b] == rest[b - 1];
          if a > 0 {
            assert t[a] == rest[a - 1];
          }
        }
      }
    }
  }

  /** One iteration of a loop that walks `s` from the back and splices out
      flagged entries: with the entries after `i` already filtered, the entry at
      index `i` is still the original one, and splicing it out when flagged (or
      keeping it) extends the filtered part to start at `i`. */
  lemma RemovalStep<T>(s: seq<T>, r: seq<bool>, i: nat)
    requires |s| == |r| && i < |s|
    ensures var cur := s[..i + 1] + Survivors(s, r, i + 1);
      && i < |cur| && cur[i] == s[i]
      && s[..i] + Survivors(s, r, i) == if r[i] then cur[..i] + cur[i + 1..] else cur
  {
    var rest := Survivors(s, r, i + 1);
    assert s[..i + 1] == s[..i] + [s[i]];
    SpliceOut(s[..i], s[i], rest);
    if !r[i] {
      AppendAssoc(s[..i], [s[i]], rest);
    }
  }

  /** Splicing the entry at index |a| out of a + [x] + rest leaves a + rest. */
  lemma SpliceOut<T>(a: seq<T>, x: T, rest: seq<T>)
    ensures var cur := a + [x] + rest;
      && |cur| == |a| + 1 + |rest| && cur[|a|] == x
      && cur[..|a|] + cur[|a| + 1..] == a + rest
  {
    var cur := a + [x] + rest;
    assert cur[..|a|] == a;
    assert cur[|a| + 1..] == rest;
  }

  /** Before the loop nothing is filtered; after it everything is. */
  lemma RemovalBounds<T>(s: seq<T>, r: seq<bool>)
    requires |s| == |r|
    ensures s[..|s|] + Survivors(s, r, |s|) == s
    ensures s[..0] + Survivors(s, r, 0) == Survivors(s, r, 0)
  {
    assert s[..|s|] == s && s[..0] == [];
  }
}
