/**
 * What `StreamInfo` (result_analysis.py) computes for one loop, stated as
 * functions of the loop's analysis record, and the properties of that
 * classification. The class in stream_info.dfy is proved to compute exactly
 * `Classify(info)`.
 */
module StreamSpec {
  import opened Common
  import opened Document

  // ===========================================================================
  // The working pool of memory streams

  /** The dictionary `mss` of `__check_mss`: stream name to stream. */
  type Pool = map<string, MemStream>

  /** A stream the loop reads or writes; only these enter the pool. */
  predicate Active(ms: MemStream)
  {
    ms.read || ms.written
  }

  /**
   * The pool as filled by the first loop of `__check_mss`: every read or
   * written stream under its name, a later stream replacing an earlier one
   * of the same name.
   */
  function PoolOf(mss: seq<MemStream>): (p: Pool)
    ensures forall n | n in p :: p[n].name == n && p[n] in mss && Active(p[n])
    ensures forall i | 0 <= i < |mss| && Active(mss[i]) :: mss[i].name in p
  {
    if mss == [] then map[]
    else
      var front := mss[..|mss| - 1];
      var q := PoolOf(front);
      var ms := mss[|mss| - 1];
      assert forall x | x in front :: x in mss;
      if Active(ms) then q[ms.name := ms] else q
  }

  /** Of several read or written streams with one name, the pool keeps the last. */
  lemma {:induction false} PoolOfLastWins(mss: seq<MemStream>, k: nat)
    requires k < |mss| && Active(mss[k])
    requires forall j | k < j < |mss| :: !(Active(mss[j]) && mss[j].name == mss[k].name)
    ensures mss[k].name in PoolOf(mss) && PoolOf(mss)[mss[k].name] == mss[k]
  {
    if k < |mss| - 1 {
      PoolOfLastWins(mss[..|mss| - 1], k);
    }
  }

  /** How many streams of `mss` are read or written. */
  function NumActive(mss: seq<MemStream>): (c: nat)
    ensures c <= |mss|
  {
    if mss == [] then 0
    else NumActive(mss[..|mss| - 1]) + (if Active(mss[|mss| - 1]) then 1 else 0)
  }

  /** The pool has at most one entry per read or written stream. */
  lemma {:induction false} PoolSizeBound(mss: seq<MemStream>)
    ensures |PoolOf(mss)| <= NumActive(mss)
  {
    if mss != [] {
      var front := mss[..|mss| - 1];
      PoolSizeBound(front);
      var ms := mss[|mss| - 1];
      if Active(ms) {
        assert PoolOf(mss).Keys == PoolOf(front).Keys + {ms.name};
        assert |PoolOf(mss).Keys| <= |PoolOf(front).Keys| + 1;
      } else {
        assert PoolOf(mss) == PoolOf(front);
      }
    }
  }

  /** A stream that is neither read nor written leaves fewer active streams than streams. */
  lemma {:induction false} InactiveStreamLowersCount(mss: seq<MemStream>, i: nat)
    requires i < |mss| && !Active(mss[i])
    ensures NumActive(mss) < |mss|
  {
    var front := mss[..|mss| - 1];
    if i < |mss| - 1 {
      InactiveStreamLowersCount(front, i);
    }
  }

  /** Stream names are pairwise different. */
  predicate DistinctNames(mss: seq<MemStream>)
  {
    forall i, j | 0 <= i < j < |mss| :: mss[i].name != mss[j].name
  }

  /** With distinct names the order of the input streams does not matter: a permutation gives the same pool. */
  lemma PoolOfPermutation(a: seq<MemStream>, b: seq<MemStream>)
    requires DistinctNames(a) && DistinctNames(b)
    requires multiset(a) == multiset(b)
    ensures PoolOf(a) == PoolOf(b)
  {
    var pa, pb := PoolOf(a), PoolOf(b);
    forall x | x in a ensures x in b {
      assert x in multiset(a);
    }
    forall x | x in b ensures x in a {
      assert x in multiset(b);
    }
    forall n | n in pa ensures n in pb && pb[n] == pa[n] {
      var i :| 0 <= i < |a| && a[i] == pa[n];
      var j :| 0 <= j < |b| && b[j] == pa[n];
      assert n in pb;
      var k :| 0 <= k < |a| && a[k] == pb[n];
      assert a[i].name == a[k].name;
      assert i == k;
    }
    forall n | n in pb ensures n in pa {
      var j :| 0 <= j < |b| && b[j] == pb[n];
      var i :| 0 <= i < |a| && a[i] == pb[n];
    }
    assert pa.Keys == pb.Keys;
  }

  // ===========================================================================
  // Acceptance of a memory stream (__check_ms)

  /** The rank of a name, 0 for names the rank map does not list. */
  function RankOf(rank: map<string, nat>, n: string): nat
  {
    if n in rank then rank[n] else 0
  }

  /** A `memory` factor whose stream is in the pool: the only factors `__check_ms` recurses on. */
  predicate IsPoolDep(pool: Pool, f: Factor)
  {
    f.depStreamKind == Memory && f.depStream in pool
  }

  /**
   * `rank` witnesses that the `memory` dependencies among the pool's streams
   * are acyclic: each pooled dependency ranks strictly below its owner.
   * On a cycle that the factor loop reaches, `__check_ms` recurses until
   * Python's recursion limit. The model requires a rank for every pooled
   * dependency, which is more than the source needs: a cycle behind a factor
   * that already rejected its stream (lines 57-60) is never reached.
   */
  ghost predicate Ranked(pool: Pool, rank: map<string, nat>)
  {
    forall n, i | n in pool && 0 <= i < |pool[n].factors| && IsPoolDep(pool, pool[n].factors[i]) ::
      RankOf(rank, pool[n].factors[i].depStream) < RankOf(rank, n)
  }

  /** The pool's dependency graph has no cycle. */
  ghost predicate Acyclic(pool: Pool)
  {
    exists rank :: Ranked(pool, rank)
  }

  /** One fixed rank witnessing acyclicity, used by both the class and the specification. */
  ghost function SomeRank(pool: Pool): (rank: map<string, nat>)
    requires Acyclic(pool)
    ensures Ranked(pool, rank)
  {
    var rank :| Ranked(pool, rank); rank
  }

  /**
   * The stream named `n` is supported: it is in the pool and every one of its
   * factors passes `FactorOk`.
   */
  predicate Accepted(pool: Pool, rank: map<string, nat>, n: string)
    requires Ranked(pool, rank)
    decreases RankOf(rank, n), 1
  {
    n in pool && forall i | 0 <= i < |pool[n].factors| :: FactorOk(pool, rank, n, i)
  }

  /**
   * Factor `i` of stream `n` passes the checks of lines 56-67: a `notAStream`
   * factor must be invariant; an `inductionVariable` factor always passes; a
   * `memory` factor needs its stream in the pool and itself supported.
   */
  predicate FactorOk(pool: Pool, rank: map<string, nat>, n: string, i: nat)
    requires Ranked(pool, rank) && n in pool && i < |pool[n].factors|
    decreases RankOf(rank, n), 0
  {
    var f := pool[n].factors[i];
    match f.depStreamKind
    case NotAStream => f.isInvariant
    case InductionVariable => true
    case Memory => f.depStream in pool && Accepted(pool, rank, f.depStream)
  }

  /** Which streams are accepted does not depend on which rank witnesses acyclicity. */
  lemma {:induction false} AcceptedRankIndependent(pool: Pool, r1: map<string, nat>, r2: map<string, nat>, n: string)
    requires Ranked(pool, r1) && Ranked(pool, r2)
    ensures Accepted(pool, r1, n) == Accepted(pool, r2, n)
    decreases RankOf(r1, n)
  {
    if n in pool {
      forall i | 0 <= i < |pool[n].factors|
        ensures FactorOk(pool, r1, n, i) == FactorOk(pool, r2, n, i)
      {
        var f := pool[n].factors[i];
        if f.depStreamKind == Memory && f.depStream in pool {
          AcceptedRankIndependent(pool, r1, r2, f.depStream);
        }
      }
    }
  }

  /** A stream using a loop-variant non-stream value (line 57) is rejected. */
  lemma RejectsVariantNonStream(pool: Pool, rank: map<string, nat>, n: string, i: nat)
    requires Ranked(pool, rank) && n in pool && i < |pool[n].factors|
    requires pool[n].factors[i].depStreamKind == NotAStream && !pool[n].factors[i].isInvariant
    ensures !Accepted(pool, rank, n)
  {
    assert !FactorOk(pool, rank, n, i);
  }

  /** A stream with a `memory` factor on a stream that is not pooled, or not supported, is rejected (line 63). */
  lemma RejectsUnsupportedDependency(pool: Pool, rank: map<string, nat>, n: string, i: nat)
    requires Ranked(pool, rank) && n in pool && i < |pool[n].factors|
    requires pool[n].factors[i].depStreamKind == Memory
    requires pool[n].factors[i].depStream !in pool || !Accepted(pool, rank, pool[n].factors[i].depStream)
    ensures !Accepted(pool, rank, n)
  {
    assert !FactorOk(pool, rank, n, i);
  }

  /** A pooled stream whose factors are invariant non-stream values or induction variables is accepted. */
  lemma AcceptsWithoutVariantOrMemoryFactor(pool: Pool, rank: map<string, nat>, n: string)
    requires Ranked(pool, rank) && n in pool
    requires forall f | f in pool[n].factors :: f.depStreamKind == InductionVariable || (f.depStreamKind == NotAStream && f.isInvariant)
    ensures Accepted(pool, rank, n)
  {
    forall i | 0 <= i < |pool[n].factors| ensures FactorOk(pool, rank, n, i) {
      assert pool[n].factors[i] in pool[n].factors;
    }
  }

  /** The supported set. */
  function AcceptedSet(pool: Pool, rank: map<string, nat>): set<string>
    requires Ranked(pool, rank)
  {
    set n | n in pool && Accepted(pool, rank, n)
  }

  /** The stream has a `memory` factor. */
  predicate HasMemoryFactor(ms: MemStream)
  {
    exists f | f in ms.factors :: f.depStreamKind == Memory
  }

  /** The indirect set: supported streams with at least one `memory` factor (lines 55, 67, 70-71). */
  function IndirectSet(pool: Pool, rank: map<string, nat>): set<string>
    requires Ranked(pool, rank)
  {
    set n | n in pool && Accepted(pool, rank, n) && HasMemoryFactor(pool[n])
  }

  /** The names referenced by the `inductionVariable` factors of one stream. */
  function IvRefsOf(ms: MemStream): set<string>
  {
    IvNames(ms.factors)
  }

  /** The streams named by the `inductionVariable` factors among `fs`. */
  function IvNames(fs: seq<Factor>): (r: set<string>)
    ensures forall x :: x in r <==> exists f | f in fs :: f.depStreamKind == InductionVariable && f.depStream == x
  {
    if fs == [] then {}
    else
      var front := fs[..|fs| - 1];
      var f := fs[|fs| - 1];
      assert forall g | g in fs :: g in front || g == f;
      IvNames(front) + (if f.depStreamKind == InductionVariable then {f.depStream} else {})
  }

  /** The names referenced by the `inductionVariable` factors of the named streams (lines 72-74). */
  function IvRefs(pool: Pool, names: set<string>): set<string>
  {
    set n, x | n in names && n in pool && x in IvRefsOf(pool[n]) :: x
  }

  lemma IvRefsAdd(pool: Pool, names: set<string>, n: string)
    requires n in pool
    ensures IvRefs(pool, names + {n}) == IvRefs(pool, names) + IvRefsOf(pool[n])
  {
  }

  // ===========================================================================
  // Induction variables (__check_ivs)

  /** Names of the declared induction variables that are not increasing. */
  function NonIncreasingNames(ivs: seq<IvStream>): set<string>
  {
    set i | 0 <= i < |ivs| && !ivs[i].increasing :: ivs[i].name
  }

  /** Induction-variable names are distinct. */
  predicate DistinctIvNames(ivs: seq<IvStream>)
  {
    forall i, j | 0 <= i < j < |ivs| :: ivs[i].name != ivs[j].name
  }

  /**
   * The walk of lines 90-91 from the parent of `ivs[i]` only visits names
   * declared earlier: the parent is declared at a position `j < i`, and unless
   * its name is in `F` (where the walk stops), the same holds of `ivs[j]`.
   * The source needs less: every name the walk visits declared before `i`,
   * not necessarily before the name it was reached from.
   */
  ghost predicate ParentOk(ivs: seq<IvStream>, F: set<string>, i: nat)
    requires i < |ivs|
    decreases i
  {
    || ivs[i].parent.None?
    || exists j | 0 <= j < i :: ivs[j].name == ivs[i].parent.value && (ivs[j].name in F || ParentOk(ivs, F, j))
  }

  /**
   * A sufficient condition for `__check_ivs` to terminate without a
   * `KeyError`, `F` being the induction variables it keeps: names are
   * distinct, and every kept one satisfies `ParentOk`.
   * Induction variables that are not kept leave at the `continue` of line 84
   * or 87, so their parents are unconstrained.
   */
  ghost predicate WellFormedIvs(ivs: seq<IvStream>, F: set<string>)
  {
    && DistinctIvNames(ivs)
    && (forall i | 0 <= i < |ivs| && ivs[i].name in F :: ParentOk(ivs, F, i))
  }

  /** How step `i` of `__check_ivs` sees names: a name declared before `i` is decided by its own declaration alone. */
  lemma NonIncreasingPrefix(ivs: seq<IvStream>, i: nat)
    requires DistinctIvNames(ivs) && i < |ivs|
    ensures ivs[i].name !in NonIncreasingNames(ivs[..i])
    ensures NonIncreasingNames(ivs[..i + 1]) ==
      NonIncreasingNames(ivs[..i]) + (if ivs[i].increasing then {} else {ivs[i].name})
    ensures ivs[i].name in NonIncreasingNames(ivs) <==> !ivs[i].increasing
    ensures forall j | 0 <= j < i ::
      (ivs[j].name in NonIncreasingNames(ivs[..i]) <==> ivs[j].name in NonIncreasingNames(ivs))
  {
    var pre, next := ivs[..i], ivs[..i + 1];
    assert forall k | 0 <= k < i :: pre[k] == ivs[k];
    assert forall k | 0 <= k <= i :: next[k] == ivs[k];
    forall j | 0 <= j < i
      ensures ivs[j].name in NonIncreasingNames(ivs) ==> ivs[j].name in NonIncreasingNames(pre)
    {
      if ivs[j].name in NonIncreasingNames(ivs) {
        var k :| 0 <= k < |ivs| && !ivs[k].increasing && ivs[k].name == ivs[j].name;
        assert k == j;
      }
    }
    if ivs[i].name in NonIncreasingNames(ivs) {
      var k :| 0 <= k < |ivs| && !ivs[k].increasing && ivs[k].name == ivs[i].name;
      assert k == i;
    }
  }

  /** The position of the parent of induction variable `i`. */
  ghost function ParentIndex(ivs: seq<IvStream>, F: set<string>, i: nat): (r: Option<nat>)
    requires WellFormedIvs(ivs, F) && i < |ivs| && ParentOk(ivs, F, i)
    ensures r.None? <==> ivs[i].parent.None?
    ensures r.Some? ==> r.value < i && ivs[r.value].name == ivs[i].parent.value && ParentOk(ivs, F, r.value)
  {
    if ivs[i].parent.None? then None
    else
      var j :| 0 <= j < i && ivs[j].name == ivs[i].parent.value && (ivs[j].name in F || ParentOk(ivs, F, j)); Some(j)
  }

  /** The first of `j` and its ancestors whose name is in `F`. */
  ghost function Nearest(ivs: seq<IvStream>, F: set<string>, j: nat): (r: Option<nat>)
    requires WellFormedIvs(ivs, F) && j < |ivs| && ParentOk(ivs, F, j)
    ensures r.Some? ==> r.value <= j && ivs[r.value].name in F
    decreases j
  {
    if ivs[j].name in F then Some(j)
    else match ParentIndex(ivs, F, j)
      case None => None
      case Some(p) => Nearest(ivs, F, p)
  }

  /** The nearest strict ancestor of `i` whose name is in `F`. */
  ghost function NearestAbove(ivs: seq<IvStream>, F: set<string>, i: nat): (r: Option<nat>)
    requires WellFormedIvs(ivs, F) && i < |ivs| && ParentOk(ivs, F, i)
    ensures r.Some? ==> r.value < i && ivs[r.value].name in F
  {
    match ParentIndex(ivs, F, i)
    case None => None
    case Some(p) => Nearest(ivs, F, p)
  }

  /** Chain length of induction variable `i` over the supported set `F` (lines 93-97). */
  ghost function ChainLen(ivs: seq<IvStream>, F: set<string>, i: nat): nat
    requires WellFormedIvs(ivs, F) && i < |ivs| && ivs[i].name in F
    decreases i
  {
    match NearestAbove(ivs, F, i)
    case None => 1
    case Some(k) => ChainLen(ivs, F, k) + 1
  }

  /** The running maximum of line 98 after the first `n` induction variables. */
  ghost function MaxChain(ivs: seq<IvStream>, F: set<string>, n: nat): nat
    requires WellFormedIvs(ivs, F) && n <= |ivs|
  {
    if n == 0 then 0
    else
      var m := MaxChain(ivs, F, n - 1);
      if ivs[n - 1].name in F then Max(m, ChainLen(ivs, F, n - 1)) else m
  }

  /** `MaxChain` bounds the chain length of every supported induction variable among the first `n`. */
  lemma {:induction false} MaxChainIsUpperBound(ivs: seq<IvStream>, F: set<string>, n: nat)
    requires WellFormedIvs(ivs, F) && n <= |ivs|
    ensures forall j | 0 <= j < n && ivs[j].name in F :: ChainLen(ivs, F, j) <= MaxChain(ivs, F, n)
  {
    if n > 0 {
      MaxChainIsUpperBound(ivs, F, n - 1);
    }
  }

  /** `MaxChain` is 0 exactly when none of the first `n` induction variables is supported. */
  lemma {:induction false} MaxChainZeroIff(ivs: seq<IvStream>, F: set<string>, n: nat)
    requires WellFormedIvs(ivs, F) && n <= |ivs|
    ensures MaxChain(ivs, F, n) == 0 <==> forall j | 0 <= j < n :: ivs[j].name !in F
  {
    if n > 0 {
      MaxChainZeroIff(ivs, F, n - 1);
      if ivs[n - 1].name in F {
        ChainLenPositive(ivs, F, n - 1);
      }
    }
  }

  /** A non-zero `MaxChain` is the chain length of some supported induction variable among the first `n`. */
  lemma {:induction false} MaxChainAttained(ivs: seq<IvStream>, F: set<string>, n: nat) returns (j: nat)
    requires WellFormedIvs(ivs, F) && n <= |ivs| && MaxChain(ivs, F, n) > 0
    ensures j < n && ivs[j].name in F && ChainLen(ivs, F, j) == MaxChain(ivs, F, n)
  {
    var m := MaxChain(ivs, F, n - 1);
    if ivs[n - 1].name in F && m <= ChainLen(ivs, F, n - 1) {
      j := n - 1;
    } else {
      j := MaxChainAttained(ivs, F, n - 1);
    }
  }

  lemma ChainLenPositive(ivs: seq<IvStream>, F: set<string>, i: nat)
    requires WellFormedIvs(ivs, F) && i < |ivs| && ivs[i].name in F
    ensures ChainLen(ivs, F, i) >= 1
  {
  }

  /** A chain is no longer than the position of its induction variable plus one. */
  lemma {:induction false} ChainLenBound(ivs: seq<IvStream>, F: set<string>, i: nat)
    requires WellFormedIvs(ivs, F) && i < |ivs| && ivs[i].name in F
    ensures ChainLen(ivs, F, i) <= i + 1
    decreases i
  {
    match NearestAbove(ivs, F, i)
    case None =>
    case Some(k) => ChainLenBound(ivs, F, k);
  }

  /** The maximum chain length never exceeds the number of induction variables. */
  lemma {:induction false} MaxChainBound(ivs: seq<IvStream>, F: set<string>, n: nat)
    requires WellFormedIvs(ivs, F) && n <= |ivs|
    ensures MaxChain(ivs, F, n) <= n
  {
    if n > 0 {
      MaxChainBound(ivs, F, n - 1);
      if ivs[n - 1].name in F {
        ChainLenBound(ivs, F, n - 1);
      }
    }
  }

  /** `j` followed by all its ancestors, nearest first. */
  ghost function AncestorsFrom(ivs: seq<IvStream>, F: set<string>, j: nat): (s: seq<nat>)
    requires WellFormedIvs(ivs, F) && j < |ivs| && ParentOk(ivs, F, j)
    ensures forall k | k in s :: k <= j
    decreases j
  {
    [j] + match ParentIndex(ivs, F, j)
      case None => []
      case Some(p) => AncestorsFrom(ivs, F, p)
  }

  /** How many of the positions in `s` hold a name in `F`. */
  ghost function CountIn(ivs: seq<IvStream>, F: set<string>, s: seq<nat>): nat
    requires forall k | k in s :: k < |ivs|
  {
    if s == [] then 0
    else
      assert s[0] in s;
      assert forall k | k in s[1..] :: k in s;
      (if ivs[s[0]].name in F then 1 else 0) + CountIn(ivs, F, s[1..])
  }

  /** The number of strict ancestors of `i` whose name is in `F`. */
  ghost function SupportedAncestors(ivs: seq<IvStream>, F: set<string>, i: nat): nat
    requires WellFormedIvs(ivs, F) && i < |ivs| && ParentOk(ivs, F, i)
  {
    match ParentIndex(ivs, F, i)
    case None => 0
    case Some(p) => CountIn(ivs, F, AncestorsFrom(ivs, F, p))
  }

  lemma {:induction false} CountFromNearest(ivs: seq<IvStream>, F: set<string>, j: nat)
    requires WellFormedIvs(ivs, F) && j < |ivs| && ParentOk(ivs, F, j)
    ensures CountIn(ivs, F, AncestorsFrom(ivs, F, j)) ==
      match Nearest(ivs, F, j)
      case None => 0
      case Some(k) => 1 + SupportedAncestors(ivs, F, k)
    decreases j
  {
    var s := AncestorsFrom(ivs, F, j);
    assert s[0] == j;
    match ParentIndex(ivs, F, j)
    case None =>
      assert s[1..] == [];
    case Some(p) =>
      assert s[1..] == AncestorsFrom(ivs, F, p);
      CountFromNearest(ivs, F, p);
  }

  /**
   * The chain length of an induction variable is one plus the number of its
   * supported ancestors: unsupported ancestors are skipped over, each
   * supported one adds 1.
   */
  lemma {:induction false} ChainLenCountsSupportedAncestors(ivs: seq<IvStream>, F: set<string>, i: nat)
    requires WellFormedIvs(ivs, F) && i < |ivs| && ivs[i].name in F
    ensures ChainLen(ivs, F, i) == 1 + SupportedAncestors(ivs, F, i)
    decreases i
  {
    match ParentIndex(ivs, F, i)
    case None =>
    case Some(p) =>
      CountFromNearest(ivs, F, p);
      match Nearest(ivs, F, p)
      case None =>
      case Some(k) => ChainLenCountsSupportedAncestors(ivs, F, k);
  }

  /** grandparent -> parent -> child, all supported: the child's chain length is 3. */
  lemma ThreeSupportedGenerations(g: IvStream, p: IvStream, c: IvStream, F: set<string>)
    requires g.parent == None && p.parent == Some(g.name) && c.parent == Some(p.name)
    requires g.name != p.name && p.name != c.name && g.name != c.name
    requires g.name in F && p.name in F && c.name in F
    ensures WellFormedIvs([g, p, c], F) && ChainLen([g, p, c], F, 2) == 3
  {
    var ivs := [g, p, c];
    assert ivs[0].name == g.name && ivs[1].name == p.name;
    assert ParentOk(ivs, F, 0);
    assert ParentOk(ivs, F, 1);
    assert ParentOk(ivs, F, 2);
    assert WellFormedIvs(ivs, F);
    assert ParentIndex(ivs, F, 1) == Some(0);
    assert ParentIndex(ivs, F, 2) == Some(1);
    assert ChainLen(ivs, F, 0) == 1;
    assert ChainLen(ivs, F, 1) == 2;
  }

  // ===========================================================================
  // Memory-operation counters (__check_mem_ops)

  /** The six counters of lines 26-31. */
  datatype OpCounts = OpCounts(
    loads: nat, streamLoads: nat, indirectStreamLoads: nat,
    stores: nat, streamStores: nat, indirectStreamStores: nat)

  /** The counters after classifying `ops` against the supported and indirect sets (lines 101-111). */
  function CountOps(ops: seq<MemOp>, supported: set<string>, indirect: set<string>): OpCounts
  {
    if ops == [] then OpCounts(0, 0, 0, 0, 0, 0)
    else
      var c := CountOps(ops[..|ops| - 1], supported, indirect);
      var op := ops[|ops| - 1];
      var s := if op.memStream in supported then 1 else 0;
      var d := if op.memStream in indirect then 1 else 0;
      match op.memOpcode
      case Load => c.(loads := c.loads + 1, streamLoads := c.streamLoads + s,
                      indirectStreamLoads := c.indirectStreamLoads + d)
      case Store => c.(stores := c.stores + 1, streamStores := c.streamStores + s,
                       indirectStreamStores := c.indirectStreamStores + d)
      case OtherOpcode(_) => c
  }

  /**
   * With indirect streams among the supported ones, indirect-stream counts
   * are at most stream counts, which are at most the totals; operations that
   * are neither loads nor stores are counted nowhere.
   */
  lemma {:induction false} CountOpsBounds(ops: seq<MemOp>, supported: set<string>, indirect: set<string>)
    requires indirect <= supported
    ensures var c := CountOps(ops, supported, indirect);
      && c.indirectStreamLoads <= c.streamLoads <= c.loads
      && c.indirectStreamStores <= c.streamStores <= c.stores
      && c.loads + c.stores <= |ops|
  {
    if ops != [] {
      CountOpsBounds(ops[..|ops| - 1], supported, indirect);
    }
  }

  // ===========================================================================
  // The whole classification

  /**
   * A sufficient condition for the classifier to terminate without a
   * `KeyError`; it is stronger than the source needs (see `Ranked` and `ParentOk`).
   */
  ghost predicate WellFormed(info: LoopInfo)
  {
    Acyclic(PoolOf(info.memStreams)) && WellFormedIvs(info.inductionVariableStreams, SupportedIvsOf(info))
  }

  /** Everything a `StreamInfo` holds after construction. */
  datatype Classification = Classification(
    numMss: nat,
    supportedMss: set<string>,
    indirectSupportedMss: set<string>,
    supportedIvs: set<string>,
    numIvs: nat,
    maxIvChainLen: nat,
    ops: OpCounts)

  /** The induction variables still supported after `__check_ivs`. */
  ghost function SupportedIvsOf(info: LoopInfo): set<string>
    requires Acyclic(PoolOf(info.memStreams))
  {
    var pool := PoolOf(info.memStreams);
    IvRefs(pool, AcceptedSet(pool, SomeRank(pool))) - NonIncreasingNames(info.inductionVariableStreams)
  }

  /** The classification of one loop. */
  ghost function Classify(info: LoopInfo): Classification
    requires WellFormed(info)
  {
    var pool := PoolOf(info.memStreams);
    var rank := SomeRank(pool);
    var accepted := AcceptedSet(pool, rank);
    var indirect := IndirectSet(pool, rank);
    var ivs := info.inductionVariableStreams;
    var F := SupportedIvsOf(info);
    Classification(|info.memStreams|, accepted, indirect, F, |ivs|,
                   MaxChain(ivs, F, |ivs|), CountOps(info.memOps, accepted, indirect))
  }

  /** The indirect set is a subset of the supported set; a stream is indirect exactly when supported and having a `memory` factor. */
  lemma IndirectIsSupportedWithMemoryFactor(info: LoopInfo, n: string)
    requires WellFormed(info)
    ensures Classify(info).indirectSupportedMss <= Classify(info).supportedMss
    ensures n in Classify(info).indirectSupportedMss <==>
      n in Classify(info).supportedMss && HasMemoryFactor(PoolOf(info.memStreams)[n])
  {
  }

  /**
   * A supported stream is a read or written stream of the input whose
   * `notAStream` factors are invariant and whose `memory` factors name
   * supported streams.
   */
  lemma SupportedStreamsPass(info: LoopInfo, n: string)
    requires WellFormed(info)
    requires n in Classify(info).supportedMss
    ensures exists ms | ms in info.memStreams :: ms.name == n && Active(ms)
    ensures n in PoolOf(info.memStreams)
    ensures var fs := PoolOf(info.memStreams)[n].factors;
      forall i | 0 <= i < |fs| ::
        && (fs[i].depStreamKind == NotAStream ==> fs[i].isInvariant)
        && (fs[i].depStreamKind == Memory ==> fs[i].depStream in Classify(info).supportedMss)
  {
    var pool := PoolOf(info.memStreams);
    assert pool[n] in info.memStreams;
    var rank := SomeRank(pool);
    assert Accepted(pool, rank, n);
    var fs := pool[n].factors;
    forall i | 0 <= i < |fs|
      ensures fs[i].depStreamKind == NotAStream ==> fs[i].isInvariant
      ensures fs[i].depStreamKind == Memory ==> fs[i].depStream in Classify(info).supportedMss
    {
      assert FactorOk(pool, rank, n, i);
      if fs[i].depStreamKind == Memory {
        assert fs[i].depStream in pool && Accepted(pool, rank, fs[i].depStream);
        assert fs[i].depStream in AcceptedSet(pool, rank);
      }
    }
  }

  /** A stream that is neither read nor written (under every declaration of its name) is never supported. */
  lemma UnreadNeverSupported(info: LoopInfo, n: string)
    requires WellFormed(info)
    requires forall ms | ms in info.memStreams && ms.name == n :: !Active(ms)
    ensures n !in Classify(info).supportedMss
  {
  }

  /**
   * At most `numMss` streams are supported; when some stream is neither read
   * nor written, strictly fewer, so the loop can never be fully streamizable.
   */
  lemma SupportedCountBound(info: LoopInfo)
    requires WellFormed(info)
    ensures |Classify(info).supportedMss| <= Classify(info).numMss
    ensures (exists i | 0 <= i < |info.memStreams| :: !Active(info.memStreams[i])) ==>
      |Classify(info).supportedMss| < Classify(info).numMss
  {
    var pool := PoolOf(info.memStreams);
    PoolSizeBound(info.memStreams);
    SubsetCardinality(Classify(info).supportedMss, pool.Keys);
    if exists i | 0 <= i < |info.memStreams| :: !Active(info.memStreams[i]) {
      var i :| 0 <= i < |info.memStreams| && !Active(info.memStreams[i]);
      InactiveStreamLowersCount(info.memStreams, i);
    }
  }

  /**
   * An induction variable is supported exactly when an `inductionVariable`
   * factor of a supported stream references it and no declaration of that name
   * is non-increasing; a referenced name that is never declared stays supported.
   */
  lemma SupportedIvsCharacterised(info: LoopInfo, x: string)
    requires WellFormed(info)
    ensures x in Classify(info).supportedIvs <==>
      (exists n | n in Classify(info).supportedMss :: x in IvRefsOf(PoolOf(info.memStreams)[n]))
      && !(exists i | 0 <= i < |info.inductionVariableStreams| ::
             info.inductionVariableStreams[i].name == x && !info.inductionVariableStreams[i].increasing)
  {
  }

  /** An induction variable is supported only through a supported memory stream, so a loop with one has a supported stream. */
  lemma SupportedIvNeedsSupportedStream(info: LoopInfo)
    requires WellFormed(info)
    ensures |Classify(info).supportedIvs| > 0 ==> |Classify(info).supportedMss| > 0
  {
    var c := Classify(info);
    if |c.supportedIvs| > 0 {
      assert c.supportedIvs != {};
      var x :| x in c.supportedIvs;
      SupportedIvsCharacterised(info, x);
    }
  }

  /** The maximum chain length is bounded by the number of induction variables, and 0 exactly when none is supported. */
  lemma MaxChainOfClassification(info: LoopInfo)
    requires WellFormed(info)
    ensures Classify(info).maxIvChainLen <= Classify(info).numIvs
    ensures Classify(info).maxIvChainLen == 0 <==>
      forall j | 0 <= j < |info.inductionVariableStreams| ::
        info.inductionVariableStreams[j].name !in Classify(info).supportedIvs
  {
    var ivs := info.inductionVariableStreams;
    MaxChainBound(ivs, SupportedIvsOf(info), |ivs|);
    MaxChainZeroIff(ivs, SupportedIvsOf(info), |ivs|);
  }

  /** The load and store counters of a classification are ordered as `CountOpsBounds` says. */
  lemma CountersOfClassification(info: LoopInfo)
    requires WellFormed(info)
    ensures var c := Classify(info).ops;
      && c.indirectStreamLoads <= c.streamLoads <= c.loads
      && c.indirectStreamStores <= c.streamStores <= c.stores
      && c.loads + c.stores <= |info.memOps|
  {
    var pool := PoolOf(info.memStreams);
    var rank := SomeRank(pool);
    CountOpsBounds(info.memOps, AcceptedSet(pool, rank), IndirectSet(pool, rank));
  }

  /** Reordering memory streams whose names are distinct changes nothing in the classification. */
  lemma ClassificationIgnoresStreamOrder(info: LoopInfo, streams: seq<MemStream>)
    requires DistinctNames(info.memStreams) && DistinctNames(streams)
    requires multiset(info.memStreams) == multiset(streams)
    requires WellFormed(info)
    ensures WellFormed(info.(memStreams := streams))
    ensures Classify(info.(memStreams := streams)) == Classify(info)
  {
    PoolOfPermutation(info.memStreams, streams);
    assert |streams| == |multiset(streams)| == |info.memStreams|;
  }

  /**
   * An induction variable that no supported stream references may name a
   * parent declared after it, since `__check_ivs` leaves it at line 84: here
   * "j" names the later "i", and the loop is still classified, with "i"
   * supported at chain length 1.
   */
  lemma UnreferencedIvWithLaterParentExample()
    ensures var a := MemStream("A", true, false, [Factor(InductionVariable, "i", false)]);
      var ivs := [IvStream("j", Some("i"), true, ""), IvStream("i", None, true, "")];
      var info := LoopInfo([a], ivs, []);
      && WellFormed(info)
      && Classify(info).supportedIvs == {"i"}
      && Classify(info).maxIvChainLen == 1
  {
    var a := MemStream("A", true, false, [Factor(InductionVariable, "i", false)]);
    var ivs := [IvStream("j", Some("i"), true, ""), IvStream("i", None, true, "")];
    var info := LoopInfo([a], ivs, []);
    var pool := PoolOf(info.memStreams);
    assert pool == map["A" := a];
    assert Ranked(pool, map[]);
    var rank := SomeRank(pool);
    assert FactorOk(pool, rank, "A", 0);
    assert Accepted(pool, rank, "A");
    assert AcceptedSet(pool, rank) == {"A"};
    assert IvNames(a.factors) == {"i"};
    assert "A" in pool && "i" in IvRefsOf(pool["A"]);
    assert "i" in IvRefs(pool, {"A"});
    assert forall x | x in IvRefs(pool, {"A"}) :: x in IvRefsOf(pool["A"]);
    assert IvRefs(pool, {"A"}) == {"i"};
    assert NonIncreasingNames(ivs) == {};
    var F := SupportedIvsOf(info);
    assert F == {"i"};
    assert ParentOk(ivs, F, 1);
    assert WellFormedIvs(ivs, F);
    assert ChainLen(ivs, F, 1) == 1;
    assert MaxChain(ivs, F, 1) == 0;
  }

  /**
   * A stream may reference an induction variable the record does not
   * declare: it stays supported, but `__check_ivs` never sees it, so the
   * loop's chain length is 0.
   */
  lemma UndeclaredIvExample()
    ensures var a := MemStream("A", true, false, [Factor(InductionVariable, "i", false)]);
      var info := LoopInfo([a], [], []);
      && WellFormed(info)
      && Classify(info).supportedIvs == {"i"}
      && Classify(info).maxIvChainLen == 0
  {
    var a := MemStream("A", true, false, [Factor(InductionVariable, "i", false)]);
    var info := LoopInfo([a], [], []);
    var pool := PoolOf(info.memStreams);
    assert pool == map["A" := a];
    assert Ranked(pool, map[]);
    var rank := SomeRank(pool);
    assert FactorOk(pool, rank, "A", 0);
    assert AcceptedSet(pool, rank) == {"A"};
    assert IvNames(a.factors) == {"i"};
    assert "A" in pool && "i" in IvRefsOf(pool["A"]);
    assert forall x | x in IvRefs(pool, {"A"}) :: x in IvRefsOf(pool["A"]);
    assert IvRefs(pool, {"A"}) == {"i"};
    assert NonIncreasingNames([]) == {};
  }

  /** A loop with one read stream "A" over an invariant non-stream factor, and one load of it. */
  lemma SingleInvariantStreamExample()
    ensures var a := MemStream("A", true, false, [Factor(NotAStream, "", true)]);
      var info := LoopInfo([a], [], [MemOp(Load, "A")]);
      && WellFormed(info)
      && Classify(info).supportedMss == {"A"}
      && Classify(info).indirectSupportedMss == {}
      && Classify(info).ops == OpCounts(1, 1, 0, 0, 0, 0)
  {
    var a := MemStream("A", true, false, [Factor(NotAStream, "", true)]);
    var info := LoopInfo([a], [], [MemOp(Load, "A")]);
    var pool := PoolOf(info.memStreams);
    assert pool == map["A" := a];
    assert Ranked(pool, map[]);
    var rank := SomeRank(pool);
    assert FactorOk(pool, rank, "A", 0);
    assert Accepted(pool, rank, "A");
    assert AcceptedSet(pool, rank) == {"A"};
    assert !HasMemoryFactor(a);
    assert IndirectSet(pool, rank) == {};
    assert [MemOp(Load, "A")][..0] == [];
  }
}
