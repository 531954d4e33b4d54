/**
 * `_candidate_settings_for_target`: a short list of settings to try, size-major and
 * quality-minor, built from two filtered, de-duplicated ladders of sizes and qualities.
 */
module Candidates {
  import opened Bytes
  import opened Config

  /** `[x for x in s if lo <= x <= hi]` */
  function InRangeOnly(s: seq<int>, lo: int, hi: int): seq<int>
  {
    if s == [] then []
    else (if lo <= s[0] <= hi then [s[0]] else []) + InRangeOnly(s[1..], lo, hi)
  }

  /** `[x for x in s if not (x in seen or seen.add(x))]`, starting from a given `seen`. */
  function DedupFrom(s: seq<int>, seen: set<int>): seq<int>
  {
    if s == [] then []
    else if s[0] in seen then DedupFrom(s[1..], seen)
    else [s[0]] + DedupFrom(s[1..], seen + {s[0]})
  }

  /** Duplicates removed, the first occurrence of each value kept. */
  function Dedup(s: seq<int>): seq<int>
  {
    DedupFrom(s, {})
  }

  /** The resolution ladder: the start size, then 448, 384, 320, 256, kept if in [128, start]. */
  function SizeSteps(start: int): seq<int>
  {
    Dedup(InRangeOnly([start, 448, 384, 320, 256], 128, start))
  }

  /** The quality ladder: the start quality, min(65, start), then 60 down to 45, kept if in [10, start]. */
  function QualitySteps(start: int): seq<int>
  {
    Dedup(InRangeOnly([start, Min(65, start), 60, 55, 50, 45], 10, start))
  }

  /** The settings tried for size `s` and quality `q`. */
  function Derive(st: Settings, s: int, q: int): Settings
  {
    Settings(s, q,
             Min(st.thumbMax, Max(256, s)), Min(st.thumbQuality, Max(30, q - 10)),
             Min(st.normalMax, s), Min(st.normalQuality, Max(40, q + 5)))
  }

  /** The inner loop: one size, every quality. */
  function Row(st: Settings, s: int, qs: seq<int>): seq<Settings>
  {
    if qs == [] then [] else [Derive(st, s, qs[0])] + Row(st, s, qs[1..])
  }

  /** The nested loop: for each size, for each quality. */
  function Cross(st: Settings, ss: seq<int>, qs: seq<int>): seq<Settings>
  {
    if ss == [] then [] else Row(st, ss[0], qs) + Cross(st, ss[1..], qs)
  }

  /** Everything `_candidate_settings_for_target` yields, in order. */
  function CandidateSettings(st: Settings): seq<Settings>
  {
    Cross(st, SizeSteps(st.maxSize), QualitySteps(st.webpQuality))
  }

  predicate NonIncreasing(s: seq<int>)
  {
    forall a, b :: 0 <= a < b < |s| ==> s[a] >= s[b]
  }

  predicate StrictlyDecreasing(s: seq<int>)
  {
    forall a, b :: 0 <= a < b < |s| ==> s[a] > s[b]
  }

  // ---------------------------------------------------------------------------------------
  // Filtering and de-duplication

  lemma {:induction false} InRangeOnlySpec(s: seq<int>, lo: int, hi: int)
    ensures forall x :: x in InRangeOnly(s, lo, hi) <==> x in s && lo <= x <= hi
    ensures |InRangeOnly(s, lo, hi)| <= |s|
    ensures s != [] && lo <= s[0] <= hi ==> InRangeOnly(s, lo, hi)[0] == s[0]
  {
    if s != [] {
      InRangeOnlySpec(s[1..], lo, hi);
      assert s == [s[0]] + s[1..];
    }
  }

  /** Filtering keeps a non-increasing list non-increasing. */
  lemma {:induction false} InRangeOnlyKeepsOrder(s: seq<int>, lo: int, hi: int)
    requires NonIncreasing(s)
    ensures NonIncreasing(InRangeOnly(s, lo, hi))
  {
    if s != [] {
      var t := s[1..];
      InRangeOnlyKeepsOrder(t, lo, hi);
      InRangeOnlySpec(t, lo, hi);
      forall x | x in InRangeOnly(t, lo, hi) ensures x <= s[0] {
        var b :| 0 <= b < |t| && t[b] == x;
        assert s[b + 1] == x;
      }
      HeadThenFiltered(s[0], t, lo, hi);
    }
  }

  /** A head at least as large as every kept element of the tail keeps the filtered list non-increasing. */
  lemma HeadThenFiltered(a: int, t: seq<int>, lo: int, hi: int)
    requires NonIncreasing(InRangeOnly(t, lo, hi))
    requires forall x :: x in InRangeOnly(t, lo, hi) ==> x <= a
    ensures NonIncreasing(InRangeOnly([a] + t, lo, hi))
  {
    assert ([a] + t)[1..] == t;
    var rest := InRangeOnly(t, lo, hi);
    var r := InRangeOnly([a] + t, lo, hi);
    if lo <= a <= hi {
      assert r == [a] + rest;
      forall i, k | 0 <= i < k < |r| ensures r[i] >= r[k] {
        if i == 0 {
          assert r[k] == rest[k - 1];
          assert rest[k - 1] in rest;
        } else {
          assert r[i] == rest[i - 1] && r[k] == rest[k - 1];
        }
      }
    } else {
      assert r == rest;
    }
  }

  lemma {:induction false} DedupFromSpec(s: seq<int>, seen: set<int>)
    ensures forall x :: x in DedupFrom(s, seen) <==> x in s && x !in seen
    ensures |DedupFrom(s, seen)| <= |s|
    ensures s != [] && s[0] !in seen ==> DedupFrom(s, seen)[0] == s[0]
  {
    if s != [] {
      var t := s[1..];
      assert s == [s[0]] + t;
      if s[0] in seen {
        DedupFromSpec(t, seen);
      } else {
        DedupFromSpec(t, seen + {s[0]});
      }
    }
  }

  lemma TailNonIncreasing(s: seq<int>)
    requires s != [] && NonIncreasing(s)
    ensures NonIncreasing(s[1..]) && forall x :: x in s[1..] ==> x <= s[0]
  {
    var t := s[1..];
    forall a, b | 0 <= a < b < |t| ensures t[a] >= t[b] {
      var a', b' := a + 1, b + 1;
      assert t[a] == s[a'] && t[b] == s[b'];
    }
    forall x | x in t ensures x <= s[0] {
      var k :| 0 <= k < |t| && t[k] == x;
      var k' := k + 1;
      assert s[k'] == x;
    }
  }

  lemma ConsDecreasing(h: int, r: seq<int>)
    requires StrictlyDecreasing(r) && forall x :: x in r ==> x < h
    ensures StrictlyDecreasing([h] + r)
  {
    var c := [h] + r;
    forall a, b | 0 <= a < b < |c| ensures c[a] > c[b] {
      var b' := b - 1;
      assert c[b] == r[b'] && r[b'] in r;
      if a > 0 {
        var a' := a - 1;
        assert c[a] == r[a'];
      }
    }
  }

  /** De-duplicating a non-increasing list leaves a strictly decreasing one. */
  lemma {:induction false} DedupFromDecreasing(s: seq<int>, seen: set<int>)
    requires NonIncreasing(s)
    ensures StrictlyDecreasing(DedupFrom(s, seen))
  {
    if s != [] {
      var t := s[1..];
      TailNonIncreasing(s);
      if s[0] in seen {
        DedupFromDecreasing(t, seen);
      } else {
        var seen' := seen + {s[0]};
        DedupFromDecreasing(t, seen');
        DedupFromSpec(t, seen');
        var rest := DedupFrom(t, seen');
        assert DedupFrom(s, seen) == [s[0]] + rest;
        ConsDecreasing(s[0], rest);
      }
    }
  }

  /** `Dedup` keeps exactly the values of `s`, starts with `s[0]`, and is no longer than `s`. */
  lemma DedupSpec(s: seq<int>)
    ensures forall x :: x in Dedup(s) <==> x in s
    ensures |Dedup(s)| <= |s|
    ensures s != [] ==> Dedup(s)[0] == s[0]
    ensures NonIncreasing(s) ==> StrictlyDecreasing(Dedup(s))
  {
    DedupFromSpec(s, {});
    if NonIncreasing(s) {
      DedupFromDecreasing(s, {});
    }
  }

  // ---------------------------------------------------------------------------------------
  // The two ladders

  /**
   * The size ladder holds exactly the listed sizes in [128, start], with no duplicates, strictly
   * descending, at most 5 of them, and starts with `start` when 128 <= start.
   */
  lemma SizeStepsSpec(start: int)
    ensures forall x :: x in SizeSteps(start) <==> x in [start, 448, 384, 320, 256] && 128 <= x <= start
    ensures StrictlyDecreasing(SizeSteps(start))
    ensures |SizeSteps(start)| <= 5
    ensures 128 <= start ==> |SizeSteps(start)| > 0 && SizeSteps(start)[0] == start
  {
    var raw := [start, 448, 384, 320, 256];
    var tail := [448, 384, 320, 256];
    assert raw == [start] + tail;
    InRangeOnlySpec(raw, 128, start);
    InRangeOnlySpec(tail, 128, start);
    InRangeOnlyKeepsOrder(tail, 128, start);
    HeadThenFiltered(start, tail, 128, start);
    DedupSpec(InRangeOnly(raw, 128, start));
  }

  /**
   * The quality ladder holds exactly the listed qualities in [10, start], with no duplicates,
   * strictly descending, at most 6 of them, and starts with `start` when 10 <= start.
   */
  lemma QualityStepsSpec(start: int)
    ensures forall x :: x in QualitySteps(start) <==>
              x in [start, Min(65, start), 60, 55, 50, 45] && 10 <= x <= start
    ensures StrictlyDecreasing(QualitySteps(start))
    ensures |QualitySteps(start)| <= 6
    ensures 10 <= start ==> |QualitySteps(start)| > 0 && QualitySteps(start)[0] == start
  {
    var raw := [start, Min(65, start), 60, 55, 50, 45];
    var mid := [Min(65, start), 60, 55, 50, 45];
    var tail := [60, 55, 50, 45];
    assert raw == [start] + mid && mid == [Min(65, start)] + tail;
    InRangeOnlySpec(raw, 10, start);
    InRangeOnlySpec(mid, 10, start);
    InRangeOnlySpec(tail, 10, start);
    InRangeOnlyKeepsOrder(tail, 10, start);
    HeadThenFiltered(Min(65, start), tail, 10, start);
    HeadThenFiltered(start, mid, 10, start);
    DedupSpec(InRangeOnly(raw, 10, start));
  }

  // ---------------------------------------------------------------------------------------
  // The cross product

  /** `a * b`, by repeated addition, so that proofs about positions stay linear. */
  function Times(a: nat, b: nat): nat
  {
    if a == 0 then 0 else b + Times(a - 1, b)
  }

  lemma {:induction false} TimesIsProduct(a: nat, b: nat)
    ensures Times(a, b) == a * b
  {
    if a > 0 {
      TimesIsProduct(a - 1, b);
    }
  }

  lemma TimesStep(a: nat, a': nat, b: nat)
    requires a' == a + 1
    ensures Times(a', b) == b + Times(a, b)
  {
  }

  lemma {:induction false} TimesMonotone(a: nat, a': nat, b: nat, b': nat)
    requires a <= a' && b <= b'
    ensures Times(a, b) <= Times(a', b')
  {
    if a' > 0 {
      var p' := a' - 1;
      TimesStep(p', a', b');
      if a > 0 {
        var p := a - 1;
        TimesStep(p, a, b);
        TimesMonotone(p, p', b, b');
      }
    }
  }

  lemma {:induction false} RowSpec(st: Settings, s: int, qs: seq<int>)
    ensures |Row(st, s, qs)| == |qs|
    ensures forall k :: 0 <= k < |qs| ==> Row(st, s, qs)[k] == Derive(st, s, qs[k])
  {
    if qs != [] {
      RowSpec(st, s, qs[1..]);
    }
  }

  lemma {:induction false} CrossCount(st: Settings, ss: seq<int>, qs: seq<int>)
    ensures |Cross(st, ss, qs)| == Times(|ss|, |qs|)
  {
    if ss != [] {
      var t := ss[1..];
      RowSpec(st, ss[0], qs);
      CrossCount(st, t, qs);
      TimesStep(|t|, |ss|, |qs|);
    }
  }

  /** The nested loop yields one candidate per (size, quality) pair. */
  lemma CrossLength(st: Settings, ss: seq<int>, qs: seq<int>)
    ensures |Cross(st, ss, qs)| == |ss| * |qs|
  {
    CrossCount(st, ss, qs);
    TimesIsProduct(|ss|, |qs|);
  }

  /** CrossEntry with the position written as a repeated addition. */
  lemma {:induction false} CrossAt(st: Settings, ss: seq<int>, qs: seq<int>, i: nat, k: nat)
    requires i < |ss| && k < |qs|
    ensures Times(i, |qs|) + k < |Cross(st, ss, qs)|
    ensures Cross(st, ss, qs)[Times(i, |qs|) + k] == Derive(st, ss[i], qs[k])
  {
    var n := |qs|;
    var t := ss[1..];
    var row, rest := Row(st, ss[0], qs), Cross(st, t, qs);
    RowSpec(st, ss[0], qs);
    CrossCount(st, t, qs);
    assert Cross(st, ss, qs) == row + rest;
    if i == 0 {
      assert Times(i, n) == 0;
      assert (row + rest)[k] == row[k];
    } else {
      var i' := i - 1;
      CrossAt(st, t, qs, i', k);
      TimesStep(i', i, n);
      var a' := Times(i', n) + k;
      assert (row + rest)[n + a'] == rest[a'];
      assert t[i'] == ss[i];
    }
  }

  /**
   * The candidates come size-major, quality-minor: entry `i * |qs| + k` is the settings for the
   * i-th size and the k-th quality.
   */
  lemma CrossEntry(st: Settings, ss: seq<int>, qs: seq<int>, i: nat, k: nat)
    requires i < |ss| && k < |qs|
    ensures i * |qs| + k < |Cross(st, ss, qs)|
    ensures Cross(st, ss, qs)[i * |qs| + k] == Derive(st, ss[i], qs[k])
  {
    CrossAt(st, ss, qs, i, k);
    TimesIsProduct(i, |qs|);
  }

  /** Every candidate's size is one of `ss` and its quality one of `qs`, and it is derived from them. */
  lemma {:induction false} CrossMembers(st: Settings, ss: seq<int>, qs: seq<int>, c: Settings)
    requires c in Cross(st, ss, qs)
    ensures c.maxSize in ss && c.webpQuality in qs && c == Derive(st, c.maxSize, c.webpQuality)
  {
    var t := ss[1..];
    var row := Row(st, ss[0], qs);
    assert Cross(st, ss, qs) == row + Cross(st, t, qs);
    if c in row {
      RowSpec(st, ss[0], qs);
      var k :| 0 <= k < |row| && row[k] == c;
    } else {
      CrossMembers(st, t, qs, c);
      assert ss == [ss[0]] + t;
    }
  }

  /** Settings `c` come before settings `d`: a larger size, or the same size and a higher quality. */
  predicate TriedEarlier(c: Settings, d: Settings)
  {
    c.maxSize > d.maxSize || (c.maxSize == d.maxSize && c.webpQuality > d.webpQuality)
  }

  predicate Descending(cs: seq<Settings>)
  {
    forall a, b :: 0 <= a < b < |cs| ==> TriedEarlier(cs[a], cs[b])
  }

  lemma {:induction false} RowDescending(st: Settings, s: int, qs: seq<int>)
    requires StrictlyDecreasing(qs)
    ensures Descending(Row(st, s, qs))
  {
    RowSpec(st, s, qs);
  }

  lemma ConcatDescending(x: seq<Settings>, y: seq<Settings>)
    requires Descending(x) && Descending(y)
    requires forall c, d :: c in x && d in y ==> TriedEarlier(c, d)
    ensures Descending(x + y)
  {
    var r := x + y;
    forall a, b | 0 <= a < b < |r| ensures TriedEarlier(r[a], r[b]) {
      if a < |x| && b >= |x| {
        assert r[a] in x && r[b] == y[b - |x|];
      } else if a >= |x| {
        assert r[a] == y[a - |x|] && r[b] == y[b - |x|];
      }
    }
  }

  lemma {:induction false} CrossDescending(st: Settings, ss: seq<int>, qs: seq<int>)
    requires StrictlyDecreasing(ss) && StrictlyDecreasing(qs)
    ensures Descending(Cross(st, ss, qs))
  {
    if ss != [] {
      var t := ss[1..];
      assert StrictlyDecreasing(t) by {
        forall a, b | 0 <= a < b < |t| ensures t[a] > t[b] {
          assert t[a] == ss[a + 1] && t[b] == ss[b + 1];
        }
      }
      CrossDescending(st, t, qs);
      RowDescending(st, ss[0], qs);
      RowSpec(st, ss[0], qs);
      forall c, d | c in Row(st, ss[0], qs) && d in Cross(st, t, qs) ensures TriedEarlier(c, d) {
        CrossMembers(st, t, qs, d);
        var b :| 0 <= b < |t| && t[b] == d.maxSize;
        assert ss[b + 1] == d.maxSize;
      }
      ConcatDescending(Row(st, ss[0], qs), Cross(st, t, qs));
    }
  }

  // ---------------------------------------------------------------------------------------
  // The candidate list

  /**
   * Every candidate has a size in [128, start_max_size] and a quality in [10, start_webp_quality],
   * and its four derived values are the clamps of `Derive` applied to that size and quality.
   */
  lemma CandidateBounds(st: Settings, c: Settings)
    requires c in CandidateSettings(st)
    ensures 128 <= c.maxSize <= st.maxSize && 10 <= c.webpQuality <= st.webpQuality
    ensures c.thumbMax == Min(st.thumbMax, Max(256, c.maxSize))
    ensures c.thumbQuality == Min(st.thumbQuality, Max(30, c.webpQuality - 10))
    ensures c.normalMax == Min(st.normalMax, c.maxSize)
    ensures c.normalQuality == Min(st.normalQuality, Max(40, c.webpQuality + 5))
  {
    CrossMembers(st, SizeSteps(st.maxSize), QualitySteps(st.webpQuality), c);
    SizeStepsSpec(st.maxSize);
    QualityStepsSpec(st.webpQuality);
  }

  /** There are |sizes| * |qualities| candidates, at most 5 x 6. */
  lemma CandidateCount(st: Settings)
    ensures |CandidateSettings(st)| == |SizeSteps(st.maxSize)| * |QualitySteps(st.webpQuality)|
    ensures |CandidateSettings(st)| <= 30
  {
    var ss, qs := SizeSteps(st.maxSize), QualitySteps(st.webpQuality);
    SizeStepsSpec(st.maxSize);
    QualityStepsSpec(st.webpQuality);
    CrossCount(st, ss, qs);
    TimesIsProduct(|ss|, |qs|);
    TimesMonotone(|ss|, 5, |qs|, 6);
    assert Times(5, 6) == 30;
  }

  /** The candidates strictly descend by (size, quality), so no settings are tried twice. */
  lemma CandidatesDescend(st: Settings)
    ensures Descending(CandidateSettings(st))
  {
    SizeStepsSpec(st.maxSize);
    QualityStepsSpec(st.webpQuality);
    CrossDescending(st, SizeSteps(st.maxSize), QualitySteps(st.webpQuality));
  }

  /** When the start size and quality lie in range, the first attempt uses them. */
  lemma FirstCandidate(st: Settings)
    requires 128 <= st.maxSize && 10 <= st.webpQuality
    ensures |CandidateSettings(st)| > 0
    ensures CandidateSettings(st)[0] == Derive(st, st.maxSize, st.webpQuality)
  {
    var ss, qs := SizeSteps(st.maxSize), QualitySteps(st.webpQuality);
    SizeStepsSpec(st.maxSize);
    QualityStepsSpec(st.webpQuality);
    CrossAt(st, ss, qs, 0, 0);
    assert Times(0, |qs|) == 0;
  }
}
