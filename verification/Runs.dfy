/** Per-pool checksum series: changes, runs and the verdict (`analyze_sums` of g2_run2.py). */
module Runs {
  import opened Wrappers

  datatype Sample = Sample(t: nat, idx: nat, vlen: nat, sum: nat)

  /** A stretch of equal samples. */
  datatype Run = Run(sum: nat, len: nat)

  datatype Stats = Stats(n: nat, t0: nat, t1: nat, distinct: nat, transitions: nat,
                         firstChange: Option<nat>, lastChange: Option<nat>, longest: nat)

  // ---- One series per pool ----

  function OfPool(samples: seq<Sample>, idx: nat): seq<Sample> {
    if samples == [] then []
    else
      var last := samples[|samples| - 1];
      OfPool(samples[..|samples| - 1], idx) + if last.idx == idx then [last] else []
  }

  /** Sort the samples into pools, keeping their order. */
  method Group(samples: seq<Sample>) returns (recs: map<nat, seq<Sample>>)
    ensures forall idx: nat :: idx in recs <==> exists i :: 0 <= i < |samples| && samples[i].idx == idx
    ensures forall idx: nat :: idx in recs ==> recs[idx] == OfPool(samples, idx) != []
  {
    recs := map[];
    for n := 0 to |samples|
      invariant forall idx: nat :: Pooled(samples[..n], recs, idx)
    {
      var s := samples[n];
      var recs' := recs[s.idx := (if s.idx in recs then recs[s.idx] else []) + [s]];
      ghost var upTo := samples[..n + 1];
      forall idx: nat ensures Pooled(upTo, recs', idx) {
        assert Pooled(samples[..n], recs, idx);
        assert upTo[..n] == samples[..n];
      }
      recs := recs';
    }
    assert samples[..|samples|] == samples;
    forall idx: nat
      ensures idx in recs <==> exists i :: 0 <= i < |samples| && samples[i].idx == idx
      ensures idx in recs ==> recs[idx] == OfPool(samples, idx) != []
    {
      assert Pooled(samples, recs, idx);
      PoolNonEmpty(samples, idx);
    }
  }

  /** A pool is recorded with its samples, or has none. */
  ghost predicate Pooled(samples: seq<Sample>, recs: map<nat, seq<Sample>>, idx: nat) {
    if idx in recs then recs[idx] == OfPool(samples, idx) != [] else OfPool(samples, idx) == []
  }

  lemma {:induction false} PoolNonEmpty(samples: seq<Sample>, idx: nat)
    ensures OfPool(samples, idx) != [] <==> exists i :: 0 <= i < |samples| && samples[i].idx == idx
  {
    if samples != [] {
      var z := |samples| - 1;
      PoolNonEmpty(samples[..z], idx);
      if i :| 0 <= i < z && samples[..z][i].idx == idx {
        assert samples[i].idx == idx;
      }
      if i :| 0 <= i < |samples| && samples[i].idx == idx {
        assert i < z ==> samples[..z][i].idx == idx;
      }
    }
  }

  // ---- Changes and runs of one series ----

  function Sums(s: seq<Sample>): seq<nat> {
    seq(|s|, i requires 0 <= i < |s| => s[i].sum)
  }

  /** The positions whose sample differs from the one before. */
  function Changes(v: seq<nat>): seq<nat> {
    var n := |v|;
    if n < 2 then [] else Changes(v[..n - 1]) + if v[n - 2] != v[n - 1] then [n - 1] else []
  }

  function RunsOf(v: seq<nat>): (rs: seq<Run>)
    ensures v != [] ==> rs != [] && rs[|rs| - 1].sum == v[|v| - 1] && rs[|rs| - 1].len >= 1
  {
    var n := |v|;
    if n == 0 then []
    else if n == 1 then [Run(v[0], 1)]
    else
      var rs := RunsOf(v[..n - 1]);
      var z := |rs| - 1;
      if v[n - 2] == v[n - 1] then rs[z := Run(rs[z].sum, rs[z].len + 1)] else rs + [Run(v[n - 1], 1)]
  }

  function Expand(rs: seq<Run>): seq<nat> {
    if rs == [] then []
    else Expand(rs[..|rs| - 1]) + seq(rs[|rs| - 1].len, _ => rs[|rs| - 1].sum)
  }

  function Longest(rs: seq<Run>): nat {
    if rs == [] then 0
    else
      var m := Longest(rs[..|rs| - 1]);
      if m < rs[|rs| - 1].len then rs[|rs| - 1].len else m
  }

  /** The statistics printed for one pool. */
  function Analyze(s: seq<Sample>): Stats
    requires s != []
  {
    var v := Sums(s);
    var c := Changes(v);
    ChangesInRange(v);
    Stats(|s|, s[0].t, s[|s| - 1].t, |set i | 0 <= i < |v| :: v[i]|, |c|,
          if c == [] then None else Some(s[c[0]].t), if c == [] then None else Some(s[c[|c| - 1]].t),
          Longest(RunsOf(v)))
  }

  lemma {:induction false} ChangesInRange(v: seq<nat>)
    ensures forall k :: 0 <= k < |Changes(v)| ==> 0 < Changes(v)[k] < |v|
    ensures forall i :: 0 < i < |v| ==> (i in Changes(v) <==> v[i - 1] != v[i])
    ensures forall j, k :: 0 <= j < k < |Changes(v)| ==> Changes(v)[j] < Changes(v)[k]
  {
    if |v| >= 2 {
      ChangesInRange(v[..|v| - 1]);
    }
  }

  /** Lengthening the last run, or starting a new one, spells one more sample. */
  lemma ExpandMore(rs: seq<Run>, x: nat)
    requires rs != []
    ensures var z := |rs| - 1;
            Expand(rs[z := Run(rs[z].sum, rs[z].len + 1)]) == Expand(rs) + [rs[z].sum]
    ensures Expand(rs + [Run(x, 1)]) == Expand(rs) + [x]
  {
    var z := |rs| - 1;
    var longer := rs[z := Run(rs[z].sum, rs[z].len + 1)];
    assert longer[..z] == rs[..z];
    assert (rs + [Run(x, 1)])[..z + 1] == rs;
  }

  /** The runs spell out the series. */
  lemma {:induction false} RunsSpell(v: seq<nat>)
    requires v != []
    ensures Expand(RunsOf(v)) == v
  {
    var n := |v|;
    if n == 1 {
      assert Expand(RunsOf(v)[..0]) == [];
    } else {
      RunsSpell(v[..n - 1]);
      ExpandMore(RunsOf(v[..n - 1]), v[n - 1]);
      assert v == v[..n - 1] + [v[n - 1]];
    }
  }

  /** There is one more run than changes, no run is empty, and neighbours differ. */
  lemma {:induction false} RunsAreMaximal(v: seq<nat>)
    requires v != []
    ensures |RunsOf(v)| == |Changes(v)| + 1
    ensures forall k :: 0 <= k < |RunsOf(v)| ==> RunsOf(v)[k].len >= 1
    ensures forall k :: 0 < k < |RunsOf(v)| ==> RunsOf(v)[k - 1].sum != RunsOf(v)[k].sum
  {
    if |v| > 1 {
      RunsAreMaximal(v[..|v| - 1]);
    }
  }

  lemma {:induction false} LongestBounds(rs: seq<Run>)
    ensures |Expand(rs)| <= Longest(rs) * |rs|
    ensures forall k :: 0 <= k < |rs| ==> rs[k].len <= Longest(rs)
    ensures rs != [] ==> exists k :: 0 <= k < |rs| && rs[k].len == Longest(rs)
  {
    if rs != [] {
      var z := |rs| - 1;
      LongestBounds(rs[..z]);
      var m, m' := Longest(rs[..z]), Longest(rs);
      GrowBound(m, m', z);
      LongestIsOne(rs);
      assert forall k :: 0 <= k < z ==> rs[..z][k] == rs[k];
    }
  }

  lemma {:induction false} LongestIsOne(rs: seq<Run>)
    requires rs != []
    ensures exists k :: 0 <= k < |rs| && rs[k].len == Longest(rs)
  {
    var z := |rs| - 1;
    if Longest(rs[..z]) < rs[z].len || z == 0 {
      assert rs[z].len == Longest(rs);
    } else {
      LongestIsOne(rs[..z]);
      var k :| 0 <= k < z && rs[..z][k].len == Longest(rs[..z]);
      assert rs[k].len == Longest(rs);
    }
  }

  lemma GrowBound(m: nat, m': nat, z: nat)
    requires m <= m'
    ensures m * z + m' <= m' * (z + 1)
  {
    assert m' * (z + 1) == m' * z + m';
    assert (m' - m) * z >= 0;
  }

  lemma {:induction false} DistinctBound(rs: seq<Run>)
    ensures |set i | 0 <= i < |Expand(rs)| :: Expand(rs)[i]| <= |rs|
  {
    var v := Expand(rs);
    var vals := set i | 0 <= i < |v| :: v[i];
    if rs == [] {
      assert vals == {};
    } else {
      var z := |rs| - 1;
      DistinctBound(rs[..z]);
      var u := Expand(rs[..z]);
      var vals' := set i | 0 <= i < |u| :: u[i];
      assert vals <= vals' + {rs[z].sum};
      CardUnion(vals, vals', rs[z].sum);
    }
  }

  lemma CardUnion(a: set<nat>, b: set<nat>, x: nat)
    requires a <= b + {x}
    ensures |a| <= |b| + 1
  {
    assert |b + {x}| <= |b| + 1;
    assert b + {x} == a + ((b + {x}) - a);
  }

  lemma {:induction false} LongestFits(rs: seq<Run>)
    ensures Longest(rs) <= |Expand(rs)|
  {
    if rs != [] {
      LongestFits(rs[..|rs| - 1]);
    }
  }

  /** With no change inside it, a stretch is constant. */
  lemma {:induction false} ConstantBetween(v: seq<nat>, lo: nat, hi: nat)
    requires lo < hi <= |v| && forall i :: lo < i < hi ==> i !in Changes(v)
    ensures forall i :: lo <= i < hi ==> v[i] == v[lo]
    decreases hi
  {
    ChangesInRange(v);
    if lo + 1 < hi {
      ConstantBetween(v, lo, hi - 1);
      assert hi - 1 !in Changes(v);
      assert v[hi - 2] == v[hi - 1] && v[hi - 2] == v[lo];
    }
  }

  /** What the printed numbers say about each other. */
  lemma StatsAreConsistent(s: seq<Sample>)
    requires s != []
    ensures var st := Analyze(s);
            && st.n == |s| && st.distinct == |set x | x in s :: x.sum| <= st.transitions + 1
            && 1 <= st.longest <= st.n <= st.longest * (st.transitions + 1)
  {
    var v := Sums(s);
    RunsSpell(v);
    RunsAreMaximal(v);
    LongestBounds(RunsOf(v));
    DistinctBound(RunsOf(v));
    LongestFits(RunsOf(v));
    SameSums(s);
  }

  lemma SameSums(s: seq<Sample>)
    ensures (set i | 0 <= i < |Sums(s)| :: Sums(s)[i]) == set x | x in s :: x.sum
  {
    forall x | x in s ensures x.sum in set i | 0 <= i < |Sums(s)| :: Sums(s)[i] {
      var i :| 0 <= i < |s| && s[i] == x;
      assert Sums(s)[i] == x.sum;
    }
  }

  /** The `n` samples from `lo` on are all equal. */
  ghost predicate Still(v: seq<nat>, lo: nat, n: nat) {
    lo + n <= |v| && forall i :: lo <= i < lo + n ==> v[i] == v[lo]
  }

  /** The samples of a run are a stretch of equal ones. */
  lemma {:induction false} RunIsStill(rs: seq<Run>, k: nat) returns (lo: nat)
    requires k < |rs|
    ensures Still(Expand(rs), lo, rs[k].len)
    decreases |rs|
  {
    var z := |rs| - 1;
    if k == z {
      lo := |Expand(rs[..z])|;
    } else {
      lo := RunIsStill(rs[..z], k);
    }
  }

  /** No run is empty, and neighbours differ. */
  ghost predicate Separate(rs: seq<Run>) {
    && (forall k :: 0 <= k < |rs| ==> rs[k].len >= 1)
    && (forall k :: 0 < k < |rs| ==> rs[k - 1].sum != rs[k].sum)
  }

  /** The sample before the last run is another one. */
  lemma LastRunDiffers(rs: seq<Run>)
    requires Separate(rs) && |rs| >= 2
    ensures var v, n := Expand(rs), |Expand(rs[..|rs| - 1])|; 0 < n < |v| && v[n - 1] != v[n]
  {
    var z := |rs| - 1;
    assert rs[..z][z - 1] == rs[z - 1];
    assert Expand(rs[..z]) == Expand(rs[..z][..z - 1]) + seq(rs[z - 1].len, _ => rs[z - 1].sum);
  }

  /** No stretch of equal samples reaches over the end of a run. */
  lemma {:induction false} StillFits(rs: seq<Run>, lo: nat, n: nat)
    requires Separate(rs) && Still(Expand(rs), lo, n)
    ensures n <= Longest(rs)
    decreases |rs|
  {
    if n > 0 {
      var z, v := |rs| - 1, Expand(rs);
      var u := Expand(rs[..z]);
      assert v[..|u|] == u;
      if z > 0 {
        LastRunDiffers(rs);
        assert lo + n <= |u| || |u| <= lo;
      }
      if lo + n <= |u| {
        forall i | lo <= i < lo + n ensures u[i] == u[lo] {
          assert u[i] == v[i] && u[lo] == v[lo];
        }
        StillFits(rs[..z], lo, n);
      }
    }
  }

  /** Unless the clock went back, `t0` and `t1` are the earliest and the latest time. */
  lemma TimesBracket(s: seq<Sample>, i: nat)
    requires i < |s| && forall j, k :: 0 <= j < k < |s| ==> s[j].t <= s[k].t
    ensures var st := Analyze(s);
            && st.t0 <= s[i].t <= st.t1 && (i == 0 ==> s[i].t == st.t0) && (i == |s| - 1 ==> s[i].t == st.t1)
            && (st.transitions > 0 ==> st.t0 <= st.firstChange.value <= st.lastChange.value <= st.t1)
  {
    var c := Changes(Sums(s));
    ChangesInRange(Sums(s));
    assert c != [] ==> 0 < c[0] <= c[|c| - 1] < |s|;
  }

  /** `longest` is the length of the longest stretch of equal samples. */
  lemma LongestIsStill(s: seq<Sample>)
    requires s != []
    ensures var v, n := Sums(s), Analyze(s).longest;
            (exists lo :: Still(v, lo, n)) && forall lo: nat, m: nat :: Still(v, lo, m) ==> m <= n
  {
    var v, n := Sums(s), Analyze(s).longest;
    var rs := RunsOf(v);
    RunsSpell(v);
    RunsAreMaximal(v);
    LongestIsOne(rs);
    var k :| 0 <= k < |rs| && rs[k].len == Longest(rs);
    var lo := RunIsStill(rs, k);
    assert Still(v, lo, n);
    forall lo: nat, m: nat | Still(v, lo, m) ensures m <= n {
      StillFits(rs, lo, m);
    }
  }

  /** The verdict CONSTANT is given exactly when all samples are equal. */
  lemma ConstantIff(s: seq<Sample>)
    requires s != []
    ensures Analyze(s).transitions == 0 <==> forall i :: 0 <= i < |s| ==> s[i].sum == s[0].sum
  {
    var v := Sums(s);
    NoChangeIff(v);
    assert forall i :: 0 <= i < |s| ==> v[i] == s[i].sum;
  }

  lemma NoChangeIff(v: seq<nat>)
    requires v != []
    ensures Changes(v) == [] <==> forall i :: 0 <= i < |v| ==> v[i] == v[0]
  {
    ChangesInRange(v);
    if Changes(v) == [] {
      ConstantBetween(v, 0, |v|);
    } else {
      var i := Changes(v)[0];
      assert i in Changes(v) && v[i - 1] != v[i];
    }
  }

  /** The series is constant before the first change and from the last change on. */
  lemma ConstantOutsideChanges(s: seq<Sample>)
    requires s != [] && Analyze(s).transitions > 0
    ensures var v, c := Sums(s), Changes(Sums(s));
            && 0 < c[0] <= c[|c| - 1] < |v|
            && (forall i :: 0 <= i < c[0] ==> v[i] == v[0])
            && v[c[0]] != v[0]
            && (forall i :: c[|c| - 1] <= i < |v| ==> v[i] == v[|v| - 1])
            && v[c[|c| - 1] - 1] != v[|v| - 1]
            && Analyze(s).firstChange == Some(s[c[0]].t) && Analyze(s).lastChange == Some(s[c[|c| - 1]].t)
  {
    var v, c := Sums(s), Changes(Sums(s));
    ChangesInRange(v);
    var lo, hi := c[0], c[|c| - 1];
    assert lo in c && hi in c;
    forall i | i in c ensures lo <= i <= hi {
      var k :| 0 <= k < |c| && c[k] == i;
    }
    ConstantBetween(v, 0, lo);
    ConstantBetween(v, hi, |v|);
    assert v[lo - 1] == v[0] && v[lo - 1] != v[lo] && v[hi - 1] != v[hi] && v[|v| - 1] == v[hi];
  }
}
