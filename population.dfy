/**
 * The population summary `print_info` (result_analysis.py) computes over the
 * `StreamInfo` objects of one benchmark: a fold over the loops into counters
 * and three frequency dictionaries, then the largest key and the most
 * frequent non-zero key of each dictionary. Printing is not modelled; the
 * summary record holds the numbers that would be printed.
 */
module Population {
  import opened Common
  import opened Document
  import opened StreamSpec
  import opened ResultAnalysis

  // ===========================================================================
  // Frequency dictionaries

  /**
   * A Python dict from a key to how often it occurred: `counts` is the
   * mapping, `order` its keys in insertion order.
   */
  datatype Freq = Freq(counts: map<nat, nat>, order: seq<nat>)

  /** `order` lists exactly the keys of `counts`, each once. */
  predicate FreqValid(f: Freq)
  {
    Distinct(f.order) && (forall x | x in f.order :: x in f.counts) && (forall x | x in f.counts :: x in f.order)
  }

  /**
   * `prev = d.setdefault(k, 0); d[k] = prev + 1`: a new key is inserted at
   * the end with count 1, an existing key keeps its place and gains 1.
   */
  function Bump(f: Freq, k: nat): Freq
  {
    if k in f.counts then Freq(f.counts[k := f.counts[k] + 1], f.order)
    else Freq(f.counts[k := 1], f.order + [k])
  }

  /** The dictionary after bumping every element of `xs` in turn, starting from `{}`. */
  function Tally(xs: seq<nat>): Freq
  {
    if xs == [] then Freq(map[], [])
    else Bump(Tally(xs[..|xs| - 1]), xs[|xs| - 1])
  }

  /** Each key of the tally is an element of `xs`, counted as often as it occurs, and `order` lists each key once. */
  lemma {:induction false} TallyCounts(xs: seq<nat>)
    ensures FreqValid(Tally(xs))
    ensures forall x :: x in Tally(xs).counts <==> x in xs
    ensures forall x | x in Tally(xs).counts :: Tally(xs).counts[x] == multiset(xs)[x]
  {
    if xs != [] {
      var front, x := xs[..|xs| - 1], xs[|xs| - 1];
      TallyCounts(front);
      assert xs == front + [x];
      assert multiset(xs) == multiset(front) + multiset{x};
      if x !in Tally(front).counts {
        AppendKeepsDistinct(Tally(front).order, x);
      }
    }
  }

  /** The position of the first occurrence of `x` in `xs`. */
  function FirstIndex(xs: seq<nat>, x: nat): (k: nat)
    requires x in xs
    ensures k < |xs| && xs[k] == x && forall j | 0 <= j < k :: xs[j] != x
  {
    if xs[0] == x then 0 else 1 + FirstIndex(xs[1..], x)
  }

  /** The keys of `s` are elements of `xs` listed by increasing first occurrence. */
  predicate InFirstOccurrenceOrder(s: seq<nat>, xs: seq<nat>)
  {
    && (forall i | 0 <= i < |s| :: s[i] in xs)
    && (forall i, j | 0 <= i < j < |s| :: FirstIndex(xs, s[i]) < FirstIndex(xs, s[j]))
  }

  /** In such a sequence, position order and first-occurrence order agree. */
  lemma OrderByFirstIndex(s: seq<nat>, xs: seq<nat>, a: nat, b: nat)
    requires InFirstOccurrenceOrder(s, xs) && a < |s| && b < |s|
    ensures s[a] in xs && s[b] in xs
    ensures a < b <==> FirstIndex(xs, s[a]) < FirstIndex(xs, s[b])
  {
  }

  lemma FirstIndexOfPrefix(xs: seq<nat>, x: nat, y: nat)
    requires xs != [] && y in xs[..|xs| - 1]
    ensures y in xs && FirstIndex(xs, y) == FirstIndex(xs[..|xs| - 1], y)
  {
    var front := xs[..|xs| - 1];
    var k := FirstIndex(front, y);
    assert xs[k] == y;
    assert forall j | 0 <= j < k :: xs[j] == front[j];
  }

  /** Appending an element that first occurs last keeps a first-occurrence order. */
  lemma AppendNewKeepsOrder(o: seq<nat>, xs: seq<nat>, x: nat)
    requires xs != [] && x == xs[|xs| - 1] && x !in xs[..|xs| - 1]
    requires InFirstOccurrenceOrder(o, xs) && forall y | y in o :: y in xs[..|xs| - 1]
    ensures InFirstOccurrenceOrder(o + [x], xs)
  {
    var front := xs[..|xs| - 1];
    assert forall j | 0 <= j < |xs| - 1 :: xs[j] == front[j];
    assert FirstIndex(xs, x) == |xs| - 1;
    var o2 := o + [x];
    forall i | 0 <= i < |o|
      ensures FirstIndex(xs, o2[i]) < |xs| - 1
    {
      assert o2[i] == o[i] && o[i] in o && o[i] in front;
    }
  }

  /** A dictionary's insertion order is the order in which its keys first occur. */
  lemma {:induction false} TallyOrderIsFirstOccurrence(xs: seq<nat>)
    ensures InFirstOccurrenceOrder(Tally(xs).order, xs)
  {
    if xs != [] {
      var front, x := xs[..|xs| - 1], xs[|xs| - 1];
      TallyOrderIsFirstOccurrence(front);
      TallyCounts(front);
      var o := Tally(front).order;
      forall y | y in o ensures y in front && y in xs && FirstIndex(xs, y) == FirstIndex(front, y) {
        FirstIndexOfPrefix(xs, x, y);
      }
      if x !in Tally(front).counts {
        AppendNewKeepsOrder(o, xs, x);
      }
    }
  }

  /** `d.pop(k, None)`: the key is gone, the order of the others is kept. */
  function Pop(f: Freq, k: nat): (g: Freq)
    requires FreqValid(f)
    ensures FreqValid(g)
    ensures k !in g.counts && forall x | x != k :: x in g.counts <==> x in f.counts
  {
    WithoutKeepsDistinct(f.order, k);
    Freq(f.counts - {k}, Without(f.order, k))
  }

  /** Removing elements keeps a first-occurrence order. */
  lemma {:induction false} WithoutKeepsOrder(s: seq<nat>, k: nat, xs: seq<nat>)
    requires InFirstOccurrenceOrder(s, xs)
    ensures InFirstOccurrenceOrder(Without(s, k), xs)
  {
    if s != [] {
      var t := s[1..];
      assert InFirstOccurrenceOrder(t, xs) by {
        assert forall i | 0 <= i < |t| :: t[i] == s[i + 1];
      }
      WithoutKeepsOrder(t, k, xs);
      var w := Without(t, k);
      if s[0] != k {
        var r := [s[0]] + w;
        assert Without(s, k) == r;
        assert forall i | 0 < i < |r| :: r[i] == w[i - 1];
        assert forall i | 0 <= i < |r| :: r[i] in xs;
        forall j | 0 < j < |r| ensures FirstIndex(xs, r[0]) < FirstIndex(xs, r[j]) {
          assert r[j] in t;
          var m :| 0 <= m < |t| && t[m] == r[j];
          assert s[m + 1] == r[j];
        }
      } else {
        assert Without(s, k) == w;
      }
    }
  }

  // ---------------------------------------------------------------------------
  // max(d.keys()) and max(d.items(), key=lambda x: x[1])

  /** `max(s)`: the largest element of a non-empty sequence. */
  function MaxOf(s: seq<nat>): (m: nat)
    requires s != []
    ensures m in s && forall x | x in s :: x <= m
  {
    if |s| == 1 then s[0]
    else
      var m := MaxOf(s[..|s| - 1]);
      assert forall x | x in s :: x in s[..|s| - 1] || x == s[|s| - 1];
      Max(m, s[|s| - 1])
  }

  /**
   * The position `max` picks among `s` by count: it keeps the first element
   * seen and replaces it only by a strictly larger count, so the first of
   * several maximal elements wins.
   */
  function FirstMaxIndex(s: seq<nat>, counts: map<nat, nat>): (k: nat)
    requires s != [] && forall x | x in s :: x in counts
    ensures k < |s|
    ensures forall j | 0 <= j < |s| :: counts[s[j]] <= counts[s[k]]
    ensures forall j | 0 <= j < k :: counts[s[j]] < counts[s[k]]
  {
    if |s| == 1 then 0
    else
      var front := s[..|s| - 1];
      assert forall x | x in front :: x in s;
      var k := FirstMaxIndex(front, counts);
      assert s[k] == front[k];
      assert forall j | 0 <= j < |s| - 1 :: s[j] == front[j];
      if counts[s[|s| - 1]] > counts[s[k]] then |s| - 1 else k
  }

  /** `max(d.items(), key=lambda x: x[1])`, or `None` where that raises `ValueError` on an empty dict. */
  function MostFrequent(f: Freq): (r: Option<(nat, nat)>)
    requires FreqValid(f)
    ensures r.None? <==> f.order == []
    ensures r.Some? ==> r.value.0 in f.counts && r.value.1 == f.counts[r.value.0]
    ensures r.Some? ==> forall x | x in f.counts :: f.counts[x] <= r.value.1
  {
    if f.order == [] then None
    else
      var k := FirstMaxIndex(f.order, f.counts);
      assert forall x | x in f.counts :: exists j | 0 <= j < |f.order| :: f.order[j] == x;
      Some((f.order[k], f.counts[f.order[k]]))
  }

  /** A value, or the `ValueError` Python raises. */
  datatype Raising<T> = Value(value: T) | ValueError

  /**
   * `max(d.items(), key=lambda x: x[1])` as lines 263, 268 and 272 evaluate
   * it: on an empty dict it raises `ValueError`.
   */
  function MaxItemAsWritten(f: Freq): (r: Raising<(nat, nat)>)
    requires FreqValid(f)
    ensures r.ValueError? <==> f.order == []
    ensures r.Value? ==> MostFrequent(f) == Some(r.value)
  {
    if f.order == [] then ValueError
    else Value(MostFrequent(f).value)
  }

  /** What lines 260-272 print for one dictionary: the largest key, and the most frequent key other than 0 with its count. */
  datatype Distribution = Distribution(maxKey: nat, mostFrequent: Option<(nat, nat)>)

  function DistributionOf(f: Freq): Distribution
    requires FreqValid(f) && f.order != []
  {
    Distribution(MaxOf(f.order), MostFrequent(Pop(f, 0)))
  }

  /** The largest key of a tally is the largest element tallied, 0 included. */
  lemma MaxKeyOfTally(xs: seq<nat>)
    requires xs != []
    ensures FreqValid(Tally(xs)) && Tally(xs).order != []
    ensures var m := DistributionOf(Tally(xs)).maxKey; m in xs && forall x | x in xs :: x <= m
  {
    TallyCounts(xs);
    assert xs[0] in Tally(xs).counts;
  }

  /**
   * The most frequent non-zero element of `xs`: `None` exactly when every
   * element is 0; otherwise a non-zero element with its number of
   * occurrences, occurring at least as often as any other non-zero element,
   * and strictly more often than every non-zero element that first occurs
   * before it.
   */
  lemma MostFrequentOfTally(xs: seq<nat>)
    requires xs != []
    ensures FreqValid(Tally(xs)) && Tally(xs).order != []
    ensures var r := DistributionOf(Tally(xs)).mostFrequent;
      && (r.None? <==> forall x | x in xs :: x == 0)
      && (r.Some? ==>
            && r.value.0 != 0 && r.value.0 in xs && r.value.1 == multiset(xs)[r.value.0]
            && (forall y | y in xs && y != 0 :: multiset(xs)[y] <= r.value.1)
            && (forall y | y in xs && y != 0 && FirstIndex(xs, y) < FirstIndex(xs, r.value.0) ::
                  multiset(xs)[y] < r.value.1))
  {
    TallyCounts(xs);
    var f := Tally(xs);
    assert xs[0] in f.counts;
    var g := Pop(f, 0);
    var r := MostFrequent(g);
    if r.None? {
      forall x | x in xs ensures x == 0 {
        assert x != 0 ==> x in g.counts;
      }
    } else {
      MostFrequentIsFirst(xs);
    }
  }

  /** Among equally frequent non-zero elements, the most frequent key is the one that occurs first. */
  lemma MostFrequentIsFirst(xs: seq<nat>)
    requires xs != []
    ensures FreqValid(Tally(xs))
    ensures var r := MostFrequent(Pop(Tally(xs), 0));
      r.Some? ==> r.value.0 in xs && forall y | y in xs && y != 0 && FirstIndex(xs, y) < FirstIndex(xs, r.value.0) ::
                    multiset(xs)[y] < r.value.1
  {
    TallyCounts(xs);
    TallyOrderIsFirstOccurrence(xs);
    var f := Tally(xs);
    var g := Pop(f, 0);
    WithoutKeepsOrder(f.order, 0, xs);
    var r := MostFrequent(g);
    if r.Some? {
      var k := FirstMaxIndex(g.order, g.counts);
      assert r.value.0 == g.order[k];
      forall y | y in xs && y != 0 && FirstIndex(xs, y) < FirstIndex(xs, r.value.0)
        ensures multiset(xs)[y] < r.value.1
      {
        assert y in g.counts;
        var j :| 0 <= j < |g.order| && g.order[j] == y;
        OrderByFirstIndex(g.order, xs, j, k);
      }
    }
  }

  // ===========================================================================
  // The fold of lines 224-247

  /** A loop with supported streams, all of its streams supported. */
  predicate FullyStreamizable(c: Classification)
  {
    |c.supportedMss| > 0 && |c.supportedMss| == c.numMss
  }

  /** A loop with supported streams, not all of its streams supported. */
  predicate PartiallyStreamizable(c: Classification)
  {
    |c.supportedMss| > 0 && |c.supportedMss| != c.numMss
  }

  /** The fourteen accumulators of `print_info`. */
  datatype Totals = Totals(
    partially: nat, fully: nat,
    ivsFreq: Freq, chainFreq: Freq, mssFreq: Freq,
    supportedMss: nat, indirectSupportedMss: nat,
    ops: OpCounts)

  /** One iteration of the loop of lines 224-247. */
  function Step(t: Totals, c: Classification): Totals
  {
    var n := |c.supportedMss|;
    Totals(
      if n > 0 && n != c.numMss then t.partially + 1 else t.partially,
      if n > 0 && n == c.numMss then t.fully + 1 else t.fully,
      Bump(t.ivsFreq, |c.supportedIvs|),
      Bump(t.chainFreq, c.maxIvChainLen),
      Bump(t.mssFreq, n),
      t.supportedMss + n,
      t.indirectSupportedMss + |c.indirectSupportedMss|,
      OpCounts(t.ops.loads + c.ops.loads, t.ops.streamLoads + c.ops.streamLoads,
               t.ops.indirectStreamLoads + c.ops.indirectStreamLoads,
               t.ops.stores + c.ops.stores, t.ops.streamStores + c.ops.streamStores,
               t.ops.indirectStreamStores + c.ops.indirectStreamStores))
  }

  const Zero := Totals(0, 0, Freq(map[], []), Freq(map[], []), Freq(map[], []), 0, 0, OpCounts(0, 0, 0, 0, 0, 0))

  /** The accumulators after the loop over the loops `cs`. */
  function Fold(cs: seq<Classification>): Totals
  {
    if cs == [] then Zero else Step(Fold(cs[..|cs| - 1]), cs[|cs| - 1])
  }

  /** The classification each `StreamInfo` object holds. */
  function StatesOf(streams: seq<StreamInfo>): (r: seq<Classification>)
    reads streams
    ensures |r| == |streams| && forall i | 0 <= i < |streams| :: r[i] == streams[i].State()
  {
    if streams == [] then [] else StatesOf(streams[..|streams| - 1]) + [streams[|streams| - 1].State()]
  }

  /** One pass of the loop body of lines 225-247 on the accumulators `t`. */
  method AddLoop(t: Totals, stream: StreamInfo) returns (u: Totals)
    ensures u == Step(t, stream.State())
  {
    u := t;
    var numSupportedMss := |stream.supportedMss|;
    // streamizable loops
    if numSupportedMss > 0 {
      if numSupportedMss == stream.numMss {
        u := u.(fully := u.fully + 1);
      } else {
        u := u.(partially := u.partially + 1);
      }
    }
    // frequency distributions
    u := u.(ivsFreq := Bump(u.ivsFreq, |stream.supportedIvs|));
    u := u.(chainFreq := Bump(u.chainFreq, stream.maxIvChainLen));
    u := u.(mssFreq := Bump(u.mssFreq, numSupportedMss));
    // supported and indirect memory streams
    u := u.(supportedMss := u.supportedMss + numSupportedMss);
    u := u.(indirectSupportedMss := u.indirectSupportedMss + |stream.indirectSupportedMss|);
    // memory operations
    u := u.(ops := OpCounts(
      u.ops.loads + stream.numLoads, u.ops.streamLoads + stream.numStreamLoads,
      u.ops.indirectStreamLoads + stream.numIndirectStreamLoads,
      u.ops.stores + stream.numStores, u.ops.streamStores + stream.numStreamStores,
      u.ops.indirectStreamStores + stream.numIndirectStreamStores));
  }

  /** The loop of lines 224-247 over the `StreamInfo` objects, read through their count properties. */
  method Accumulate(streams: seq<StreamInfo>) returns (t: Totals)
    ensures t == Fold(StatesOf(streams))
  {
    t := Zero;
    ghost var seen: seq<Classification> := [];
    var i := 0;
    while i < |streams|
      invariant 0 <= i <= |streams| && seen == StatesOf(streams[..i])
      invariant t == Fold(seen)
    {
      assert streams[..i + 1][..i] == streams[..i];
      ghost var c := streams[i].State();
      assert (seen + [c])[..i] == seen;
      t := AddLoop(t, streams[i]);
      seen := seen + [c];
      i := i + 1;
    }
    assert streams[..i] == streams;
  }

  // ---------------------------------------------------------------------------
  // Properties of the fold

  /** The loop positions that are fully, and partially, streamizable. */
  function FullySet(cs: seq<Classification>): set<nat>
  {
    set i | 0 <= i < |cs| && FullyStreamizable(cs[i])
  }

  function PartiallySet(cs: seq<Classification>): set<nat>
  {
    set i | 0 <= i < |cs| && PartiallyStreamizable(cs[i])
  }

  /** Appending a loop adds its position to the set exactly when it is fully streamizable. */
  lemma FullySetSnoc(cs: seq<Classification>)
    requires cs != []
    ensures |cs| - 1 !in FullySet(cs[..|cs| - 1])
    ensures FullySet(cs) == FullySet(cs[..|cs| - 1]) + (if FullyStreamizable(cs[|cs| - 1]) then {|cs| - 1} else {})
  {
    var n := |cs| - 1;
    var front := cs[..n];
    assert forall i | 0 <= i < n :: cs[i] == front[i];
  }

  /** The fully streamizable counter counts exactly the fully streamizable loops. */
  lemma {:induction false} FullyCount(cs: seq<Classification>)
    ensures Fold(cs).fully == |FullySet(cs)|
  {
    if cs != [] {
      var front, n := cs[..|cs| - 1], |cs| - 1;
      FullyCount(front);
      FullySetSnoc(cs);
    }
  }

  /** Appending a loop adds its position to the set exactly when it is partially streamizable. */
  lemma PartiallySetSnoc(cs: seq<Classification>)
    requires cs != []
    ensures |cs| - 1 !in PartiallySet(cs[..|cs| - 1])
    ensures PartiallySet(cs) == PartiallySet(cs[..|cs| - 1]) + (if PartiallyStreamizable(cs[|cs| - 1]) then {|cs| - 1} else {})
  {
    var n := |cs| - 1;
    var front := cs[..n];
    assert forall i | 0 <= i < n :: cs[i] == front[i];
  }

  /** The partially streamizable counter counts exactly the partially streamizable loops. */
  lemma {:induction false} PartiallyCount(cs: seq<Classification>)
    ensures Fold(cs).partially == |PartiallySet(cs)|
  {
    if cs != [] {
      var front, n := cs[..|cs| - 1], |cs| - 1;
      PartiallyCount(front);
      PartiallySetSnoc(cs);
    }
  }

  /** No loop is both fully and partially streamizable, so the streamizable loops number at most the loops. */
  lemma {:induction false} StreamizableAtMostLoops(cs: seq<Classification>)
    ensures Fold(cs).fully + Fold(cs).partially <= |cs|
  {
    if cs != [] {
      StreamizableAtMostLoops(cs[..|cs| - 1]);
    }
  }

  /** The frequency dictionaries are the tallies of the per-loop numbers. */
  function SupportedIvCounts(cs: seq<Classification>): (r: seq<nat>)
    ensures |r| == |cs| && forall i | 0 <= i < |cs| :: r[i] == |cs[i].supportedIvs|
  {
    if cs == [] then [] else SupportedIvCounts(cs[..|cs| - 1]) + [|cs[|cs| - 1].supportedIvs|]
  }

  function ChainLengths(cs: seq<Classification>): (r: seq<nat>)
    ensures |r| == |cs| && forall i | 0 <= i < |cs| :: r[i] == cs[i].maxIvChainLen
  {
    if cs == [] then [] else ChainLengths(cs[..|cs| - 1]) + [cs[|cs| - 1].maxIvChainLen]
  }

  function SupportedMsCounts(cs: seq<Classification>): (r: seq<nat>)
    ensures |r| == |cs| && forall i | 0 <= i < |cs| :: r[i] == |cs[i].supportedMss|
  {
    if cs == [] then [] else SupportedMsCounts(cs[..|cs| - 1]) + [|cs[|cs| - 1].supportedMss|]
  }

  lemma {:induction false} FoldFreqIsTally(cs: seq<Classification>)
    ensures Fold(cs).ivsFreq == Tally(SupportedIvCounts(cs))
    ensures Fold(cs).chainFreq == Tally(ChainLengths(cs))
    ensures Fold(cs).mssFreq == Tally(SupportedMsCounts(cs))
  {
    if cs != [] {
      var front := cs[..|cs| - 1];
      FoldFreqIsTally(front);
      assert SupportedIvCounts(cs)[..|cs| - 1] == SupportedIvCounts(front);
      assert ChainLengths(cs)[..|cs| - 1] == ChainLengths(front);
      assert SupportedMsCounts(cs)[..|cs| - 1] == SupportedMsCounts(front);
    }
  }

  /** The numeric totals of a concatenation are the sums of the totals of its parts: every total is a plain sum over the loops. */
  lemma {:induction false} FoldIsAdditive(a: seq<Classification>, b: seq<Classification>)
    ensures var x, y, z := Fold(a + b), Fold(a), Fold(b);
      && x.fully == y.fully + z.fully && x.partially == y.partially + z.partially
      && x.supportedMss == y.supportedMss + z.supportedMss
      && x.indirectSupportedMss == y.indirectSupportedMss + z.indirectSupportedMss
      && x.ops.loads == y.ops.loads + z.ops.loads
      && x.ops.streamLoads == y.ops.streamLoads + z.ops.streamLoads
      && x.ops.indirectStreamLoads == y.ops.indirectStreamLoads + z.ops.indirectStreamLoads
      && x.ops.stores == y.ops.stores + z.ops.stores
      && x.ops.streamStores == y.ops.streamStores + z.ops.streamStores
      && x.ops.indirectStreamStores == y.ops.indirectStreamStores + z.ops.indirectStreamStores
    decreases |b|
  {
    if b == [] {
      assert a + b == a;
    } else {
      var front := b[..|b| - 1];
      FoldIsAdditive(a, front);
      assert (a + b)[..|a + b| - 1] == a + front;
      assert (a + b)[|a + b| - 1] == b[|b| - 1];
    }
  }

  /** When every loop's counters are ordered as `CountOpsBounds` says, so are the totals. */
  lemma {:induction false} TotalsOrdered(cs: seq<Classification>)
    requires forall i | 0 <= i < |cs| ::
      && cs[i].indirectSupportedMss <= cs[i].supportedMss
      && cs[i].ops.indirectStreamLoads <= cs[i].ops.streamLoads <= cs[i].ops.loads
      && cs[i].ops.indirectStreamStores <= cs[i].ops.streamStores <= cs[i].ops.stores
    ensures Fold(cs).indirectSupportedMss <= Fold(cs).supportedMss
    ensures Fold(cs).ops.indirectStreamLoads <= Fold(cs).ops.streamLoads <= Fold(cs).ops.loads
    ensures Fold(cs).ops.indirectStreamStores <= Fold(cs).ops.streamStores <= Fold(cs).ops.stores
  {
    if cs != [] {
      var last := cs[|cs| - 1];
      TotalsOrdered(cs[..|cs| - 1]);
      SubsetCardinality(last.indirectSupportedMss, last.supportedMss);
    }
  }

  // ===========================================================================
  // The printed summary

  /**
   * The numbers `print_info` prints: only the loop count when there are no
   * loops (line 252); otherwise the streamizable counts, the three
   * distributions and the totals.
   */
  datatype Summary =
    | NoLoops
    | Summary(numLoops: nat, partially: nat, fully: nat, streamizable: nat,
              ivs: Distribution, chains: Distribution, mss: Distribution,
              supportedMss: nat, indirectSupportedMss: nat, ops: OpCounts)

  /** The three dictionaries are well formed and, after at least one loop, not empty. */
  predicate TotalsValid(t: Totals)
  {
    && FreqValid(t.ivsFreq) && t.ivsFreq.order != []
    && FreqValid(t.chainFreq) && t.chainFreq.order != []
    && FreqValid(t.mssFreq) && t.mssFreq.order != []
  }

  lemma FoldValid(cs: seq<Classification>)
    requires cs != []
    ensures TotalsValid(Fold(cs))
  {
    FoldFreqIsTally(cs);
    MaxKeyOfTally(SupportedIvCounts(cs));
    MaxKeyOfTally(ChainLengths(cs));
    MaxKeyOfTally(SupportedMsCounts(cs));
  }

  /** The printed numbers, from the number of loops and the accumulators (lines 249-290). */
  function SummaryFrom(numLoops: nat, t: Totals): Summary
    requires numLoops > 0 ==> TotalsValid(t)
  {
    if numLoops == 0 then NoLoops
    else
      Summary(numLoops, t.partially, t.fully, t.partially + t.fully,
              DistributionOf(t.ivsFreq), DistributionOf(t.chainFreq), DistributionOf(t.mssFreq),
              t.supportedMss, t.indirectSupportedMss, t.ops)
  }

  /** What `print_info` reports for loops classified as `cs`. */
  function SummaryOf(cs: seq<Classification>): Summary
  {
    if cs != [] then FoldValid(cs); SummaryFrom(|cs|, Fold(cs)) else NoLoops
  }

  /** `print_info` with printing replaced by returning the printed numbers (lines 206-290). */
  method PrintInfo(streams: seq<StreamInfo>) returns (s: Summary)
    ensures s == SummaryOf(StatesOf(streams))
  {
    var t := Accumulate(streams);
    if |streams| > 0 {
      FoldValid(StatesOf(streams));
    }
    s := SummaryFrom(|streams|, t);
  }

  /** A loop one of whose streams is neither read nor written is never fully streamizable. */
  lemma InactiveStreamBlocksFull(info: LoopInfo, i: nat)
    requires WellFormed(info) && i < |info.memStreams| && !Active(info.memStreams[i])
    ensures !FullyStreamizable(Classify(info))
  {
    SupportedCountBound(info);
  }

  /** Tallying only zeros and popping key 0 leaves an empty dictionary. */
  lemma PopZeroOfZeros(xs: seq<nat>)
    requires forall i | 0 <= i < |xs| :: xs[i] == 0
    ensures FreqValid(Tally(xs)) && Pop(Tally(xs), 0).order == []
  {
    TallyCounts(xs);
    var g := Pop(Tally(xs), 0);
    assert forall x | x in g.counts :: x in xs;
    HeadIsMember(g.order);
  }

  /** After `pop(0, None)`, the `max` over the items of a tally raises exactly when every element tallied is 0. */
  lemma PopRaisesIffAllZero(xs: seq<nat>)
    requires xs != []
    ensures FreqValid(Tally(xs))
    ensures MaxItemAsWritten(Pop(Tally(xs), 0)).ValueError? <==> forall i | 0 <= i < |xs| :: xs[i] == 0
  {
    MostFrequentOfTally(xs);
    var g := Pop(Tally(xs), 0);
    assert DistributionOf(Tally(xs)).mostFrequent == MostFrequent(g);
    if forall i | 0 <= i < |xs| :: xs[i] == 0 {
      forall x | x in xs ensures x == 0 {
        var i :| 0 <= i < |xs| && xs[i] == x;
      }
    } else {
      var i :| 0 <= i < |xs| && xs[i] != 0;
      assert xs[i] in xs;
    }
  }

  /** The `max` of line 263 raises exactly when no loop has a supported induction variable. */
  lemma IvsMaxRaisesIff(cs: seq<Classification>)
    requires cs != []
    ensures TotalsValid(Fold(cs))
    ensures MaxItemAsWritten(Pop(Fold(cs).ivsFreq, 0)).ValueError? <==> forall i | 0 <= i < |cs| :: |cs[i].supportedIvs| == 0
  {
    FoldValid(cs);
    FoldFreqIsTally(cs);
    PopRaisesIffAllZero(SupportedIvCounts(cs));
  }

  /** The `max` of line 268 raises exactly when every loop has chain length 0. */
  lemma ChainMaxRaisesIff(cs: seq<Classification>)
    requires cs != []
    ensures TotalsValid(Fold(cs))
    ensures MaxItemAsWritten(Pop(Fold(cs).chainFreq, 0)).ValueError? <==> forall i | 0 <= i < |cs| :: cs[i].maxIvChainLen == 0
  {
    FoldValid(cs);
    FoldFreqIsTally(cs);
    PopRaisesIffAllZero(ChainLengths(cs));
  }

  /** The `max` of line 272 raises exactly when no loop has a supported memory stream. */
  lemma StreamsMaxRaisesIff(cs: seq<Classification>)
    requires cs != []
    ensures TotalsValid(Fold(cs))
    ensures MaxItemAsWritten(Pop(Fold(cs).mssFreq, 0)).ValueError? <==> forall i | 0 <= i < |cs| :: |cs[i].supportedMss| == 0
  {
    FoldValid(cs);
    FoldFreqIsTally(cs);
    PopRaisesIffAllZero(SupportedMsCounts(cs));
  }

  /** In every classified loop, a supported induction variable comes with a supported memory stream. */
  lemma ClassifiedIvsNeedStreams(infos: seq<LoopInfo>, cs: seq<Classification>)
    requires |infos| == |cs| && forall i | 0 <= i < |cs| :: WellFormed(infos[i]) && cs[i] == Classify(infos[i])
    ensures forall i | 0 <= i < |cs| :: |cs[i].supportedIvs| > 0 ==> |cs[i].supportedMss| > 0
  {
    forall i | 0 <= i < |cs| ensures |cs[i].supportedIvs| > 0 ==> |cs[i].supportedMss| > 0 {
      SupportedIvNeedsSupportedStream(infos[i]);
    }
  }

  /**
   * A benchmark none of whose loops has a supported memory stream has no
   * supported induction variable either, so `print_info` raises at line 263,
   * before it reaches the memory-stream dictionary.
   */
  lemma NoStreamizableLoopRaises(infos: seq<LoopInfo>, cs: seq<Classification>)
    requires |infos| == |cs| > 0
    requires forall i | 0 <= i < |cs| :: WellFormed(infos[i]) && cs[i] == Classify(infos[i])
    requires forall i | 0 <= i < |cs| :: cs[i].supportedMss == {}
    ensures TotalsValid(Fold(cs))
    ensures MaxItemAsWritten(Pop(Fold(cs).ivsFreq, 0)).ValueError?
  {
    ClassifiedIvsNeedStreams(infos, cs);
    IvsMaxRaisesIff(cs);
  }

  /** When every loop with a supported induction variable has a supported memory stream, line 272 raises only if line 263 does. */
  lemma StreamMaxFollowsIvs(cs: seq<Classification>)
    requires cs != []
    requires forall i | 0 <= i < |cs| :: |cs[i].supportedIvs| > 0 ==> |cs[i].supportedMss| > 0
    ensures TotalsValid(Fold(cs))
    ensures MaxItemAsWritten(Pop(Fold(cs).ivsFreq, 0)).Value? ==> MaxItemAsWritten(Pop(Fold(cs).mssFreq, 0)).Value?
  {
    IvsMaxRaisesIff(cs);
    StreamsMaxRaisesIff(cs);
  }

  /**
   * The memory-stream `max` of line 272 never raises once line 263 has
   * passed: a loop with a supported induction variable has a supported
   * memory stream.
   */
  lemma StreamMaxNeverRaisesAfterIvs(infos: seq<LoopInfo>, cs: seq<Classification>)
    requires |infos| == |cs| > 0
    requires forall i | 0 <= i < |cs| :: WellFormed(infos[i]) && cs[i] == Classify(infos[i])
    ensures TotalsValid(Fold(cs))
    ensures MaxItemAsWritten(Pop(Fold(cs).ivsFreq, 0)).Value? ==> MaxItemAsWritten(Pop(Fold(cs).mssFreq, 0)).Value?
  {
    ClassifiedIvsNeedStreams(infos, cs);
    StreamMaxFollowsIvs(cs);
  }

  /**
   * A loop whose supported induction variables are all undeclared (a stream
   * references them, `inductionVariableStreams` does not list them) passes
   * line 263 but has chain length 0, so alone it makes line 268 raise.
   */
  lemma UndeclaredIvRaisesAtChain(c: Classification)
    requires c.supportedIvs != {} && c.maxIvChainLen == 0
    ensures TotalsValid(Fold([c]))
    ensures MaxItemAsWritten(Pop(Fold([c]).ivsFreq, 0)).Value?
    ensures MaxItemAsWritten(Pop(Fold([c]).chainFreq, 0)).ValueError?
  {
    IvsMaxRaisesIff([c]);
    ChainMaxRaisesIff([c]);
  }

  /** The percentages `print_info` prints, as (part, whole) pairs, each behind its guard (lines 253-290). */
  function Percentages(s: Summary): (r: seq<(nat, nat)>)
    requires s.Summary? ==> s.numLoops > 0
    ensures forall k | 0 <= k < |r| :: r[k].1 > 0
    ensures s.NoLoops? <==> r == []
  {
    match s
    case NoLoops => []
    case Summary(n, partially, fully, all, _, _, _, supported, indirect, ops) =>
      [(partially, n), (fully, n), (all, n)]
      + (if supported > 0 then [(indirect, supported)] else [])
      + (if ops.loads > 0 then [(ops.streamLoads, ops.loads)] else [])
      + (if ops.loads > 0 && ops.streamLoads > 0 then [(ops.indirectStreamLoads, ops.streamLoads)] else [])
      + (if ops.stores > 0 then [(ops.streamStores, ops.stores)] else [])
      + (if ops.stores > 0 && ops.streamStores > 0 then [(ops.indirectStreamStores, ops.streamStores)] else [])
  }

  /** The summary's counts are ordered as the classifier guarantees. */
  predicate SummaryOrdered(s: Summary)
  {
    s.Summary? ==>
      && 0 < s.numLoops && s.streamizable == s.partially + s.fully <= s.numLoops
      && s.indirectSupportedMss <= s.supportedMss
      && s.ops.indirectStreamLoads <= s.ops.streamLoads <= s.ops.loads
      && s.ops.indirectStreamStores <= s.ops.streamStores <= s.ops.stores
  }

  /** In an ordered summary, no printed part exceeds its whole. */
  lemma PercentagesOfOrdered(s: Summary)
    requires SummaryOrdered(s)
    ensures forall k | 0 <= k < |Percentages(s)| :: Percentages(s)[k].0 <= Percentages(s)[k].1
  {
  }

  /** Every percentage printed for loops the classifier produced lies between 0% and 100%. */
  lemma {:induction false} PercentagesAtMostHundred(infos: seq<LoopInfo>, cs: seq<Classification>)
    requires |infos| == |cs| && forall i | 0 <= i < |cs| :: WellFormed(infos[i]) && cs[i] == Classify(infos[i])
    ensures SummaryOrdered(SummaryOf(cs))
    ensures forall k | 0 <= k < |Percentages(SummaryOf(cs))| ::
      Percentages(SummaryOf(cs))[k].0 <= Percentages(SummaryOf(cs))[k].1
  {
    if cs != [] {
      StreamizableAtMostLoops(cs);
      ClassifiedTotalsOrdered(infos, cs);
      FoldValid(cs);
      var t := Fold(cs);
      var s := SummaryFrom(|cs|, t);
      assert SummaryOf(cs) == s;
      assert s.partially == t.partially && s.fully == t.fully && s.numLoops == |cs|;
      assert s.supportedMss == t.supportedMss && s.indirectSupportedMss == t.indirectSupportedMss && s.ops == t.ops;
    }
    PercentagesOfOrdered(SummaryOf(cs));
  }

  /** The totals over constructed classifications are ordered: indirect counts below stream counts below the totals. */
  lemma {:induction false} ClassifiedTotalsOrdered(infos: seq<LoopInfo>, cs: seq<Classification>)
    requires |infos| == |cs| && forall i | 0 <= i < |cs| :: WellFormed(infos[i]) && cs[i] == Classify(infos[i])
    ensures Fold(cs).indirectSupportedMss <= Fold(cs).supportedMss
    ensures Fold(cs).ops.indirectStreamLoads <= Fold(cs).ops.streamLoads <= Fold(cs).ops.loads
    ensures Fold(cs).ops.indirectStreamStores <= Fold(cs).ops.streamStores <= Fold(cs).ops.stores
  {
    forall i | 0 <= i < |cs|
      ensures && cs[i].indirectSupportedMss <= cs[i].supportedMss
              && cs[i].ops.indirectStreamLoads <= cs[i].ops.streamLoads <= cs[i].ops.loads
              && cs[i].ops.indirectStreamStores <= cs[i].ops.streamStores <= cs[i].ops.stores
    {
      IndirectIsSupportedWithMemoryFactor(infos[i], "");
      CountersOfClassification(infos[i]);
    }
    TotalsOrdered(cs);
  }
}
