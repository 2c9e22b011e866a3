/**
 * `StreamInfo` of result_analysis.py: the per-loop stream classifier. The
 * constructor gives every field its initial value, runs the three checks in
 * source order and leaves the object holding exactly `Classify(info)`
 * (stream_spec.dfy). The source sets `num_ivs`, `max_iv_chain_len` and the
 * counters between the checks; no check reads a field set after it, so the
 * outcome is the same.
 */
module ResultAnalysis {
  import opened Common
  import opened Document
  import opened StreamSpec

  /**
   * The local dictionary `mss` of `__check_mss`, which `__check_ms` deletes
   * from in place: its entries and the insertion order of its keys.
   */
  class MsPool {
    var entries: map<string, MemStream>
    var order: seq<string>

    ghost predicate Valid()
      reads this
    {
      Distinct(order) && forall k :: k in entries <==> k in order
    }

    constructor ()
      ensures Valid() && entries == map[] && order == []
    {
      entries, order := map[], [];
    }

    /** `mss[k] = v`: a new key goes to the end of the order, an existing one keeps its place. */
    method Put(k: string, v: MemStream)
      requires Valid()
      modifies this
      ensures Valid()
      ensures entries == old(entries)[k := v]
      ensures order == if k in old(entries) then old(order) else old(order) + [k]
    {
      if k !in entries {
        AppendKeepsDistinct(order, k);
        order := order + [k];
      }
      entries := entries[k := v];
    }

    /** `del mss[k]`, which the source only ever does for a present key. */
    method Delete(k: string)
      requires Valid() && k in entries
      modifies this
      ensures Valid()
      ensures entries == old(entries) - {k}
      ensures order == Without(old(order), k)
    {
      WithoutKeepsDistinct(order, k);
      entries := entries - {k};
      order := Without(order, k);
    }

    /** `list(mss.values())`: a snapshot of the values in key order. */
    method Values() returns (vs: seq<MemStream>)
      requires Valid()
      ensures |vs| == |order|
      ensures forall i | 0 <= i < |order| :: vs[i] == entries[order[i]]
    {
      vs := [];
      var i := 0;
      while i < |order|
        invariant 0 <= i <= |order|
        invariant |vs| == i
        invariant forall j | 0 <= j < i :: vs[j] == entries[order[j]]
      {
        assert order[i] in order;
        vs := vs + [entries[order[i]]];
        i := i + 1;
      }
    }
  }

  class StreamInfo {
    var numMss: nat
    var supportedMss: set<string>
    var indirectSupportedMss: set<string>
    var supportedIvs: set<string>
    var numIvs: nat
    var maxIvChainLen: nat
    var numLoads: nat
    var numStores: nat
    var numStreamLoads: nat
    var numStreamStores: nat
    var numIndirectStreamLoads: nat
    var numIndirectStreamStores: nat

    /** The classification the fields hold. */
    function State(): Classification
      reads this
    {
      Classification(numMss, supportedMss, indirectSupportedMss, supportedIvs, numIvs, maxIvChainLen,
        OpCounts(numLoads, numStreamLoads, numIndirectStreamLoads, numStores, numStreamStores, numIndirectStreamStores))
    }

    /** The six memory-operation counters. */
    function Counters(): OpCounts
      reads this
    {
      State().ops
    }

    /** Classifies one loop (lines 14-32). */
    constructor (info: LoopInfo)
      requires WellFormed(info)
      ensures State() == Classify(info)
    {
      numMss := |info.memStreams|;
      supportedMss, indirectSupportedMss, supportedIvs := {}, {}, {};
      numIvs := |info.inductionVariableStreams|;
      maxIvChainLen := 0;
      numLoads, numStores, numStreamLoads, numStreamStores := 0, 0, 0, 0;
      numIndirectStreamLoads, numIndirectStreamStores := 0, 0;
      new;
      CheckMss(info);
      CheckIvs(info);
      CheckMemOps(info);
    }

    /** `is_supported_iv`, the query prof_analysis.py makes. */
    function IsSupportedIv(name: string): bool
      reads this
    {
      name in supportedIvs
    }

    /** `is_indirect_supported_ms`, the query prof_analysis.py makes. */
    function IsIndirectSupportedMs(name: string): bool
      reads this
    {
      name in indirectSupportedMss
    }

    /**
     * What holds between calls of `__check_ms` over the pool `init` as first
     * filled, `good` being its acceptable streams: the current pool is a part
     * of `init` that still holds every acceptable stream, the supported set
     * holds acceptable streams only, and the indirect and induction-variable
     * sets are those of the supported set.
     */
    static ghost predicate MssInv(entries: Pool, supported: set<string>, indirect: set<string>, ivs: set<string>,
                                  init: Pool, good: set<string>)
    {
      && (forall n | n in init :: init[n].name == n)
      && (forall n | n in entries :: n in init && entries[n] == init[n])
      && good <= entries.Keys
      && supported <= good
      && indirect <= supported
      && (forall n | n in supported :: n in indirect <==> HasMemoryFactor(init[n]))
      && ivs == IvRefs(init, supported)
    }

    /** Deleting a stream that is not acceptable keeps `MssInv`. */
    static lemma DeleteKeepsInv(entries: Pool, supported: set<string>, indirect: set<string>, ivs: set<string>,
                                init: Pool, good: set<string>, n: string)
      requires MssInv(entries, supported, indirect, ivs, init, good) && n !in good
      ensures MssInv(entries - {n}, supported, indirect, ivs, init, good)
    {
    }

    /** Adding an acceptable stream to the supported set, with the indirect and induction-variable sets updated, keeps `MssInv`. */
    static lemma AcceptKeepsInv(entries: Pool, supported: set<string>, indirect: set<string>, ivs: set<string>,
                                init: Pool, good: set<string>, n: string)
      requires MssInv(entries, supported, indirect, ivs, init, good) && n in good && n in init
      ensures MssInv(entries, supported + {n}, if HasMemoryFactor(init[n]) then indirect + {n} else indirect,
                     ivs + IvRefsOf(init[n]), init, good)
    {
      IvRefsAdd(init, supported, n);
    }

    /** Fills the pool and checks every stream of a snapshot of it (lines 34-40). */
    method CheckMss(info: LoopInfo)
      requires Acyclic(PoolOf(info.memStreams))
      requires supportedMss == {} && indirectSupportedMss == {} && supportedIvs == {}
      modifies this`supportedMss, this`indirectSupportedMss, this`supportedIvs
      ensures var pool := PoolOf(info.memStreams);
        && supportedMss == AcceptedSet(pool, SomeRank(pool))
        && indirectSupportedMss == IndirectSet(pool, SomeRank(pool))
        && supportedIvs == IvRefs(pool, supportedMss)
    {
      var mss := FillPool(info.memStreams);
      ghost var init := mss.entries;
      ghost var rank := SomeRank(init);
      ghost var good := AcceptedSet(init, rank);
      var snapshot := mss.Values();
      CheckEach(mss, snapshot, init, rank, good);
    }

    /** The second loop of `__check_mss`: `__check_ms` on every stream of the snapshot (lines 38-39). */
    method CheckEach(mss: MsPool, snapshot: seq<MemStream>, ghost init: Pool, ghost rank: map<string, nat>,
                     ghost good: set<string>)
      requires Ranked(init, rank) && good == AcceptedSet(init, rank)
      requires mss.Valid() && mss.entries == init && |snapshot| == |mss.order|
      requires forall k | 0 <= k < |snapshot| :: snapshot[k] == init[mss.order[k]]
      requires forall n | n in init :: init[n].name == n
      requires supportedMss == {} && indirectSupportedMss == {} && supportedIvs == {}
      modifies this`supportedMss, this`indirectSupportedMss, this`supportedIvs, mss
      ensures supportedMss == good
      ensures indirectSupportedMss == IndirectSet(init, rank)
      ensures supportedIvs == IvRefs(init, supportedMss)
    {
      ghost var keys := mss.order;
      var j := 0;
      while j < |snapshot|
        invariant 0 <= j <= |snapshot|
        invariant mss.Valid() && MssInv(mss.entries, supportedMss, indirectSupportedMss, supportedIvs, init, good)
        invariant forall k | 0 <= k < j :: keys[k] in good ==> keys[k] in supportedMss
      {
        ghost var name := keys[j];
        assert name in init && snapshot[j] == init[name] && snapshot[j].name == name;
        ghost var before := supportedMss;
        var ok := CheckMs(mss, snapshot[j], init, rank, good);
        assert before <= supportedMss;
        assert name in good ==> name in supportedMss;
        j := j + 1;
      }
      forall n | n in good ensures n in supportedMss {
        var k :| 0 <= k < |keys| && keys[k] == n;
      }
    }

    /** The first loop of `__check_mss`: the pool of read or written streams (lines 35-37). */
    static method FillPool(streams: seq<MemStream>) returns (mss: MsPool)
      ensures fresh(mss) && mss.Valid() && mss.entries == PoolOf(streams)
    {
      mss := new MsPool();
      var i := 0;
      while i < |streams|
        invariant 0 <= i <= |streams|
        invariant fresh(mss) && mss.Valid() && mss.entries == PoolOf(streams[..i])
      {
        var ms := streams[i];
        assert streams[..i + 1][..i] == streams[..i];
        if ms.read || ms.written {
          mss.Put(ms.name, ms);
        }
        i := i + 1;
      }
      assert streams[..i] == streams;
    }

    /** Whether the stream `ms` is supported, memoising the answer (lines 42-75). */
    method CheckMs(mss: MsPool, ms: MemStream, ghost init: Pool, ghost rank: map<string, nat>, ghost good: set<string>)
      returns (ok: bool)
      requires Ranked(init, rank) && good == AcceptedSet(init, rank)
      requires mss.Valid() && MssInv(mss.entries, supportedMss, indirectSupportedMss, supportedIvs, init, good)
      requires ms.name in init && init[ms.name] == ms
      modifies this`supportedMss, this`indirectSupportedMss, this`supportedIvs, mss
      ensures mss.Valid() && MssInv(mss.entries, supportedMss, indirectSupportedMss, supportedIvs, init, good)
      ensures ok == (ms.name in good)
      ensures ok ==> ms.name in supportedMss
      ensures !ok ==> ms.name !in mss.entries
      ensures old(supportedMss) <= supportedMss
      ensures mss.entries.Keys <= old(mss.entries.Keys)
      ensures forall n | RankOf(rank, n) > RankOf(rank, ms.name) ::
        (n in supportedMss <==> n in old(supportedMss)) && (n in mss.entries <==> n in old(mss.entries))
      ensures old(ms.name in supportedMss) ==> unchanged(this) && unchanged(mss)
      ensures old(ms.name !in supportedMss && ms.name !in mss.entries) ==> unchanged(this) && unchanged(mss)
      decreases RankOf(rank, ms.name), 2
    {
      var name := ms.name;
      if name in supportedMss {
        return true;
      }
      if name !in mss.entries {
        return false;
      }
      var isIndirect;
      ok, isIndirect := CheckFactors(mss, ms, init, rank, good);
      if !ok {
        return false;
      }
      ghost var checked := supportedMss;
      Accept(ms, isIndirect, mss.entries, init, good);
      forall n | RankOf(rank, n) > RankOf(rank, name)
        ensures (n in supportedMss <==> n in old(supportedMss)) && (n in mss.entries <==> n in old(mss.entries))
      {
        assert n != name;
      }
    }

    /** The end of `__check_ms` for an accepted stream: it becomes supported, indirect when it has a `memory` factor, and its induction variables supported (lines 68-74). */
    method Accept(ms: MemStream, isIndirect: bool, ghost entries: Pool, ghost init: Pool, ghost good: set<string>)
      requires MssInv(entries, supportedMss, indirectSupportedMss, supportedIvs, init, good)
      requires ms.name in good && ms.name in init && init[ms.name] == ms && isIndirect == HasMemoryFactor(ms)
      modifies this`supportedMss, this`indirectSupportedMss, this`supportedIvs
      ensures MssInv(entries, supportedMss, indirectSupportedMss, supportedIvs, init, good)
      ensures supportedMss == old(supportedMss) + {ms.name}
    {
      AcceptKeepsInv(entries, supportedMss, indirectSupportedMss, supportedIvs, init, good, ms.name);
      supportedMss := supportedMss + {ms.name};
      if isIndirect {
        indirectSupportedMss := indirectSupportedMss + {ms.name};
      }
      AddIvRefs(ms);
    }

    /**
     * The factor loop of `__check_ms` (lines 54-67): a variant non-stream
     * factor, or a `memory` factor whose stream is gone from the pool or
     * unsupported, deletes `ms` from the pool and rejects it; otherwise `ms`
     * is accepted, indirect when it has a `memory` factor.
     */
    method CheckFactors(mss: MsPool, ms: MemStream, ghost init: Pool, ghost rank: map<string, nat>, ghost good: set<string>)
      returns (ok: bool, isIndirect: bool)
      requires Ranked(init, rank) && good == AcceptedSet(init, rank)
      requires mss.Valid() && MssInv(mss.entries, supportedMss, indirectSupportedMss, supportedIvs, init, good)
      requires ms.name in init && init[ms.name] == ms && ms.name in mss.entries
      modifies this`supportedMss, this`indirectSupportedMss, this`supportedIvs, mss
      ensures mss.Valid() && MssInv(mss.entries, supportedMss, indirectSupportedMss, supportedIvs, init, good)
      ensures ok == (ms.name in good)
      ensures ok ==> ms.name in mss.entries && isIndirect == HasMemoryFactor(ms)
      ensures !ok ==> ms.name !in mss.entries
      ensures old(supportedMss) <= supportedMss
      ensures mss.entries.Keys <= old(mss.entries.Keys)
      ensures forall n | RankOf(rank, n) >= RankOf(rank, ms.name) && n != ms.name ::
        (n in supportedMss <==> n in old(supportedMss)) && (n in mss.entries <==> n in old(mss.entries))
      ensures ms.name in supportedMss <==> old(ms.name in supportedMss)
      decreases RankOf(rank, ms.name), 1
    {
      var name := ms.name;
      isIndirect := false;
      ok := true;
      var i := 0;
      while ok && i < |ms.factors|
        invariant 0 <= i <= |ms.factors|
        invariant mss.Valid() && MssInv(mss.entries, supportedMss, indirectSupportedMss, supportedIvs, init, good)
        invariant name in mss.entries
        invariant FactorsOkBefore(init, rank, name, i)
        invariant !ok ==> name !in good
        invariant isIndirect == MemoryBefore(ms.factors, i)
        invariant old(supportedMss) <= supportedMss
        invariant mss.entries.Keys <= old(mss.entries.Keys)
        invariant forall n | RankOf(rank, n) >= RankOf(rank, name) ::
          (n in supportedMss <==> n in old(supportedMss)) && (n in mss.entries <==> n in old(mss.entries))
        decreases |ms.factors| - i, ok
      {
        ok := CheckFactor(mss, ms, i, init, rank, good);
        if ok {
          if ms.factors[i].depStreamKind == Memory {
            isIndirect := true;
          }
          i := i + 1;
        }
      }
      if ok {
        FactorsOkAccepted(init, rank, ms);
      } else {
        Reject(mss, name, init, good);
      }
    }

    /** The first `i` factors of stream `n` pass. */
    static ghost predicate FactorsOkBefore(init: Pool, rank: map<string, nat>, n: string, i: nat)
      requires Ranked(init, rank) && n in init && i <= |init[n].factors|
    {
      i == 0 || (FactorsOkBefore(init, rank, n, i - 1) && FactorOk(init, rank, n, i - 1))
    }

    /** One of the first `i` factors is a `memory` factor. */
    static predicate MemoryBefore(fs: seq<Factor>, i: nat)
      requires i <= |fs|
    {
      i > 0 && (fs[i - 1].depStreamKind == Memory || MemoryBefore(fs, i - 1))
    }

    static lemma {:induction false} FactorsOkBeforeAll(init: Pool, rank: map<string, nat>, n: string, i: nat)
      requires Ranked(init, rank) && n in init && i <= |init[n].factors|
      requires FactorsOkBefore(init, rank, n, i)
      ensures forall j | 0 <= j < i :: FactorOk(init, rank, n, j)
    {
      if i > 0 {
        FactorsOkBeforeAll(init, rank, n, i - 1);
      }
    }

    static lemma {:induction false} MemoryBeforeExists(fs: seq<Factor>, i: nat)
      requires i <= |fs|
      ensures MemoryBefore(fs, i) <==> exists j | 0 <= j < i :: fs[j].depStreamKind == Memory
    {
      if i > 0 {
        MemoryBeforeExists(fs, i - 1);
      }
    }

    /** A pooled stream all of whose factors pass is acceptable, and indirect exactly when a factor is `memory`. */
    static lemma FactorsOkAccepted(init: Pool, rank: map<string, nat>, ms: MemStream)
      requires Ranked(init, rank) && ms.name in init && init[ms.name] == ms
      requires FactorsOkBefore(init, rank, ms.name, |ms.factors|)
      ensures ms.name in AcceptedSet(init, rank)
      ensures HasMemoryFactor(ms) == MemoryBefore(ms.factors, |ms.factors|)
    {
      FactorsOkBeforeAll(init, rank, ms.name, |ms.factors|);
      MemoryBeforeExists(ms.factors, |ms.factors|);
      assert Accepted(init, rank, ms.name);
      if HasMemoryFactor(ms) {
        var f :| f in ms.factors && f.depStreamKind == Memory;
        var j :| 0 <= j < |ms.factors| && ms.factors[j] == f;
      }
    }

    /** `del mss[name]` for a stream with an unsupported factor (lines 59 and 64). */
    method Reject(mss: MsPool, name: string, ghost init: Pool, ghost good: set<string>)
      requires mss.Valid() && MssInv(mss.entries, supportedMss, indirectSupportedMss, supportedIvs, init, good)
      requires name in mss.entries && name !in good
      modifies mss
      ensures mss.Valid() && MssInv(mss.entries, supportedMss, indirectSupportedMss, supportedIvs, init, good)
      ensures mss.entries == old(mss.entries) - {name}
    {
      DeleteKeepsInv(mss.entries, supportedMss, indirectSupportedMss, supportedIvs, init, good, name);
      mss.Delete(name);
    }

    /**
     * One factor of `ms` (lines 55-67): a loop-variant value that is not a
     * stream fails; a `memory` factor holds when its stream is still in the
     * pool and `__check_ms` supports it; every other factor holds.
     */
    method CheckFactor(mss: MsPool, ms: MemStream, i: nat, ghost init: Pool, ghost rank: map<string, nat>, ghost good: set<string>)
      returns (ok: bool)
      requires Ranked(init, rank) && good == AcceptedSet(init, rank)
      requires mss.Valid() && MssInv(mss.entries, supportedMss, indirectSupportedMss, supportedIvs, init, good)
      requires ms.name in init && init[ms.name] == ms && ms.name in mss.entries && i < |ms.factors|
      modifies this`supportedMss, this`indirectSupportedMss, this`supportedIvs, mss
      ensures mss.Valid() && MssInv(mss.entries, supportedMss, indirectSupportedMss, supportedIvs, init, good)
      ensures ok == FactorOk(init, rank, ms.name, i)
      ensures !ok ==> ms.name !in good
      ensures old(supportedMss) <= supportedMss
      ensures mss.entries.Keys <= old(mss.entries.Keys)
      ensures forall n | RankOf(rank, n) >= RankOf(rank, ms.name) ::
        (n in supportedMss <==> n in old(supportedMss)) && (n in mss.entries <==> n in old(mss.entries))
      decreases RankOf(rank, ms.name), 0
    {
      var factor := ms.factors[i];
      if factor.depStreamKind == NotAStream && !factor.isInvariant {
        // a loop-variant value that is not a stream
        return false;
      }
      if factor.depStreamKind == Memory {
        ok := false;
        if factor.depStream in mss.entries {
          assert IsPoolDep(init, init[ms.name].factors[i]);
          ok := CheckMs(mss, mss.entries[factor.depStream], init, rank, good);
        }
        return;
      }
      ok := true;
    }

    /** The last loop of `__check_ms`: every induction variable a factor of `ms` uses becomes supported (lines 72-74). */
    method AddIvRefs(ms: MemStream)
      modifies this`supportedIvs
      ensures supportedIvs == old(supportedIvs) + IvRefsOf(ms)
    {
      ghost var before := supportedIvs;
      var k := 0;
      while k < |ms.factors|
        invariant 0 <= k <= |ms.factors|
        invariant supportedIvs == before + IvNames(ms.factors[..k])
      {
        ghost var prefix := ms.factors[..k + 1];
        assert prefix[..k] == ms.factors[..k] && prefix[k] == ms.factors[k];
        assert IvNames(prefix) == IvNames(ms.factors[..k]) +
          (if ms.factors[k].depStreamKind == InductionVariable then {ms.factors[k].depStream} else {});
        if ms.factors[k].depStreamKind == InductionVariable {
          supportedIvs := supportedIvs + {ms.factors[k].depStream};
        }
        k := k + 1;
      }
      assert ms.factors[..k] == ms.factors;
    }

    /**
     * Drops the non-increasing induction variables from the supported set and
     * computes the chain length of every remaining declared one, skipping
     * unsupported ancestors and compressing `iv_parent` (lines 77-98).
     */
    method CheckIvs(info: LoopInfo)
      requires WellFormedIvs(info.inductionVariableStreams, supportedIvs - NonIncreasingNames(info.inductionVariableStreams))
      modifies this`supportedIvs, this`maxIvChainLen
      ensures supportedIvs == old(supportedIvs) - NonIncreasingNames(info.inductionVariableStreams)
      ensures maxIvChainLen ==
        Max(old(maxIvChainLen), MaxChain(info.inductionVariableStreams, supportedIvs, |info.inductionVariableStreams|))
    {
      var ivs := info.inductionVariableStreams;
      ghost var S0 := supportedIvs;
      ghost var F := S0 - NonIncreasingNames(ivs);
      ghost var m0 := maxIvChainLen;
      var ivParent: map<string, Option<string>> := map[];
      var ivChainLen: map<string, nat> := map[];
      var i := 0;
      while i < |ivs|
        invariant 0 <= i <= |ivs|
        invariant supportedIvs == S0 - NonIncreasingNames(ivs[..i])
        invariant ParentsRecorded(ivs, F, ivParent, i)
        invariant ChainsRecorded(ivs, F, ivChainLen, i)
        invariant maxIvChainLen == Max(m0, MaxChain(ivs, F, i))
      {
        SupportedAtStep(ivs, S0, i);
        var iv := ivs[i];
        var name, parent := iv.name, iv.parent;
        RecordParent(ivs, F, ivParent, i, parent);
        ivParent := ivParent[name := parent];
        if name in supportedIvs {
          if !iv.increasing {
            supportedIvs := supportedIvs - {name};
          } else {
            ivParent, ivChainLen := UpdateChain(ivs, F, ivParent, ivChainLen, i);
          }
        }
        assert ivs[..i + 1][..i] == ivs[..i];
        i := i + 1;
      }
      assert ivs[..i] == ivs;
    }

    /**
     * Lines 88-98 for a supported, increasing `ivs[i]`: finds the nearest
     * supported ancestor, records it as the compressed parent, and records and
     * folds into the maximum the chain length one more than that ancestor's.
     */
    method UpdateChain(ivs: seq<IvStream>, ghost F: set<string>, ivParent: map<string, Option<string>>,
                       ivChainLen: map<string, nat>, i: nat)
      returns (parents: map<string, Option<string>>, chains: map<string, nat>)
      requires WellFormedIvs(ivs, F) && i < |ivs| && ivs[i].name in F
      requires ParentsRecorded(ivs, F, ivParent, i + 1) && ChainsRecorded(ivs, F, ivChainLen, i)
      requires forall j | 0 <= j < i :: ivs[j].name in supportedIvs <==> ivs[j].name in F
      modifies this`maxIvChainLen
      ensures ParentsRecorded(ivs, F, parents, i + 1) && ChainsRecorded(ivs, F, chains, i + 1)
      ensures maxIvChainLen == Max(old(maxIvChainLen), ChainLen(ivs, F, i))
    {
      var name, parent := ivs[i].name, ivs[i].parent;
      parents := ivParent;
      if parent.Some? && parent.value !in supportedIvs {
        parent := WalkParents(ivs, F, supportedIvs, parents, i);
        parents := parents[name := parent];
      } else if parent.Some? {
        assert ivs[ParentIndex(ivs, F, i).value].name in F;
      }
      ghost var q := NearestAbove(ivs, F, i);
      assert parent.None? <==> q.None?;
      assert parent.Some? ==> ivs[q.value].name == parent.value;
      var chainLen: nat;
      if parent.None? {
        chainLen := 1;
      } else {
        chainLen := ivChainLen[parent.value] + 1;
      }
      RecordChain(ivs, F, ivChainLen, i, chainLen);
      chains := ivChainLen[name := chainLen];
      maxIvChainLen := Max(maxIvChainLen, chainLen);
    }

    /**
     * The `while` of lines 90-91: starting from the declared parent of
     * `ivs[i]`, follows `iv_parent` past unsupported names. The result names
     * the nearest supported ancestor, or is `None` when there is none.
     */
    static method WalkParents(ivs: seq<IvStream>, ghost F: set<string>, supported: set<string>,
                              ivParent: map<string, Option<string>>, i: nat) returns (parent: Option<string>)
      requires WellFormedIvs(ivs, F) && i < |ivs| && ivs[i].name in F && ParentsRecorded(ivs, F, ivParent, i + 1)
      requires forall j | 0 <= j < i :: ivs[j].name in supported <==> ivs[j].name in F
      ensures parent.None? <==> NearestAbove(ivs, F, i).None?
      ensures parent.Some? ==> ivs[NearestAbove(ivs, F, i).value].name == parent.value
    {
      parent := ivs[i].parent;
      ghost var q: nat := if parent.Some? then ParentIndex(ivs, F, i).value else 0;
      while parent.Some? && parent.value !in supported
        invariant parent.Some? ==> q < i && ivs[q].name == parent.value && ParentOk(ivs, F, q)
        invariant parent.Some? ==> Nearest(ivs, F, q) == NearestAbove(ivs, F, i)
        invariant parent.None? ==> NearestAbove(ivs, F, i) == None
        decreases if parent.Some? then q + 1 else 0
      {
        assert ivs[q].name !in F;
        parent := ivParent[parent.value];
        if parent.Some? {
          q := ParentIndex(ivs, F, q).value;
        }
      }
    }

    /** Counts loads and stores, and those on supported and on indirect streams (lines 100-111). */
    method CheckMemOps(info: LoopInfo)
      requires numLoads == numStores == numStreamLoads == numStreamStores == 0
      requires numIndirectStreamLoads == numIndirectStreamStores == 0
      modifies this`numLoads, this`numStores, this`numStreamLoads, this`numStreamStores,
        this`numIndirectStreamLoads, this`numIndirectStreamStores
      ensures Counters() == CountOps(info.memOps, supportedMss, indirectSupportedMss)
    {
      var ops := info.memOps;
      var i := 0;
      while i < |ops|
        invariant 0 <= i <= |ops|
        invariant Counters() == CountOps(ops[..i], supportedMss, indirectSupportedMss)
      {
        assert ops[..i + 1][..i] == ops[..i];
        var op := ops[i];
        var supported := if op.memStream in supportedMss then 1 else 0;
        var indirect := if op.memStream in indirectSupportedMss then 1 else 0;
        match op.memOpcode {
          case Load =>
            numLoads := numLoads + 1;
            numStreamLoads := numStreamLoads + supported;
            numIndirectStreamLoads := numIndirectStreamLoads + indirect;
          case Store =>
            numStores := numStores + 1;
            numStreamStores := numStreamStores + supported;
            numIndirectStreamStores := numIndirectStreamStores + indirect;
          case OtherOpcode(_) =>
        }
        i := i + 1;
      }
      assert ops[..i] == ops;
    }
  }

  // ---------------------------------------------------------------------------
  // What `__check_ivs` keeps in its two dictionaries

  /**
   * `iv_parent` after `n` steps: every name declared so far has an entry, and
   * that of an unsupported name is still its declared parent (only supported
   * names have their entry compressed).
   */
  ghost predicate ParentsRecorded(ivs: seq<IvStream>, F: set<string>, ivParent: map<string, Option<string>>, n: nat)
    requires WellFormedIvs(ivs, F) && n <= |ivs|
  {
    forall j | 0 <= j < n :: ivs[j].name in ivParent && (ivs[j].name !in F ==> ivParent[ivs[j].name] == ivs[j].parent)
  }

  /** `iv_chain_len` after `n` steps: the chain length of every supported name declared so far. */
  ghost predicate ChainsRecorded(ivs: seq<IvStream>, F: set<string>, ivChainLen: map<string, nat>, n: nat)
    requires WellFormedIvs(ivs, F) && n <= |ivs|
  {
    forall j | 0 <= j < n && ivs[j].name in F :: ivs[j].name in ivChainLen && ivChainLen[ivs[j].name] == ChainLen(ivs, F, j)
  }

  lemma RecordParent(ivs: seq<IvStream>, F: set<string>, ivParent: map<string, Option<string>>, i: nat, v: Option<string>)
    requires WellFormedIvs(ivs, F) && i < |ivs| && ParentsRecorded(ivs, F, ivParent, i)
    requires ivs[i].name !in F ==> v == ivs[i].parent
    ensures ParentsRecorded(ivs, F, ivParent[ivs[i].name := v], i + 1)
  {
  }

  lemma RecordChain(ivs: seq<IvStream>, F: set<string>, ivChainLen: map<string, nat>, i: nat, v: nat)
    requires WellFormedIvs(ivs, F) && i < |ivs| && ChainsRecorded(ivs, F, ivChainLen, i)
    requires ivs[i].name in F && v == ChainLen(ivs, F, i)
    ensures ChainsRecorded(ivs, F, ivChainLen[ivs[i].name := v], i + 1)
  {
    var m := ivChainLen[ivs[i].name := v];
    forall j | 0 <= j < i + 1 && ivs[j].name in F
      ensures ivs[j].name in m && m[ivs[j].name] == ChainLen(ivs, F, j)
    {
      if j < i {
        assert ivs[j].name != ivs[i].name;
      }
    }
  }

  /**
   * At step `i` the supported set `S0 - NonIncreasingNames(ivs[..i])` agrees
   * with the final one on every name declared before `i`, and holds
   * `ivs[i].name` exactly when `S0` does.
   */
  lemma SupportedAtStep(ivs: seq<IvStream>, S0: set<string>, i: nat)
    requires DistinctIvNames(ivs) && i < |ivs|
    ensures var S, F := S0 - NonIncreasingNames(ivs[..i]), S0 - NonIncreasingNames(ivs);
      && (ivs[i].name in S <==> ivs[i].name in S0)
      && (ivs[i].name in F <==> ivs[i].name in S0 && ivs[i].increasing)
      && (forall j | 0 <= j < i :: ivs[j].name in S <==> ivs[j].name in F)
      && S0 - NonIncreasingNames(ivs[..i + 1]) == if ivs[i].increasing then S else S - {ivs[i].name}
  {
    NonIncreasingPrefix(ivs, i);
  }
}
