/**
 * The loop-profile join of prof_analysis.py: loop identifiers taken from
 * debug locations, the loop tree and the dictionary of analysis results
 * built from parsed JSON, the lookup of a profiled loop's analysis result
 * (falling back to its top-level loop), and the two tri-state answers one
 * profile record gets: whether its loop is streamizable and whether it has
 * an indirect stream access.
 */
module ProfAnalysis {
  import opened Common
  import opened Text
  import opened Document
  import opened StreamSpec
  import opened ResultAnalysis

  // ===========================================================================
  // get_loop_id

  /** The loop ID of a debug location: the base name of the stripped text before the first "@[" (lines 16-22). */
  function GetLoopId(debugLoc: string): string
  {
    Basename(Strip(BeforeMarker(debugLoc)))
  }

  /** A loop ID is a file name: it holds no '/'. */
  lemma LoopIdHasNoSlash(debugLoc: string)
    ensures '/' !in GetLoopId(debugLoc)
  {
    BasenameIsLastSegment(Strip(BeforeMarker(debugLoc)));
  }

  /** The inlined-at part after "@[" never affects the loop ID. */
  lemma LoopIdIgnoresInlinedAt(loc: string, inlinedAt: string)
    requires forall i | 0 <= i < |loc| :: !MarkerAt(loc, i)
    ensures GetLoopId(loc + "@[" + inlinedAt) == GetLoopId(loc)
  {
    BeforeMarkerOfUnmarked(loc, inlinedAt);
    BeforeMarkerIsPrefix(loc);
    assert BeforeMarker(loc) == loc;
  }

  /** For a location `dir/name` without whitespace or "@[", the loop ID is `name`. */
  lemma LoopIdOfPath(dir: string, name: string)
    requires '/' !in name
    requires var s := dir + "/" + name; forall i | 0 <= i < |s| :: !IsSpace(s[i]) && !MarkerAt(s, i)
    ensures GetLoopId(dir + "/" + name) == name
  {
    var s := dir + "/" + name;
    BeforeMarkerIsPrefix(s);
    assert BeforeMarker(s) == s;
    StripWithoutSpace(s);
    BasenameAfterSlash(dir, name);
  }

  // ===========================================================================
  // build_loop_tree

  /** Loop ID to the IDs of its parent loops (`None` for a top-level entry). */
  type LoopTree = map<string, seq<Option<string>>>

  /** Line 34: the parent records with each location replaced by its loop ID. */
  function ParentIds(records: seq<Option<string>>): (r: seq<Option<string>>)
    ensures |r| == |records|
    ensures forall i | 0 <= i < |records| :: r[i].None? <==> records[i].None?
    ensures forall i | 0 <= i < |records| && records[i].Some? :: r[i].value == GetLoopId(records[i].value)
  {
    if records == [] then []
    else
      var last := records[|records| - 1];
      ParentIds(records[..|records| - 1]) + [if last.None? then None else Some(GetLoopId(last.value))]
  }

  /** The tree after the entries `data` of a `.loops.json` object, in file order (lines 31-34). */
  function LoopTreeOf(data: seq<(string, seq<Option<string>>)>): LoopTree
  {
    if data == [] then map[]
    else
      var (loc, records) := data[|data| - 1];
      LoopTreeOf(data[..|data| - 1])[GetLoopId(loc) := ParentIds(records)]
  }

  /** `build_loop_tree` on the already parsed object, given as its entries in file order (lines 25-35). */
  method BuildLoopTree(data: seq<(string, seq<Option<string>>)>) returns (tree: LoopTree)
    ensures tree == LoopTreeOf(data)
  {
    tree := map[];
    var i := 0;
    while i < |data|
      invariant 0 <= i <= |data| && tree == LoopTreeOf(data[..i])
    {
      assert data[..i + 1][..i] == data[..i];
      var (loc, records) := data[i];
      var id := GetLoopId(loc);
      tree := tree[id := ParentIds(records)];
      i := i + 1;
    }
    assert data[..i] == data;
  }

  /** The tree has an entry for the loop ID of every location and no other. */
  lemma {:induction false} LoopTreeHasEntry(data: seq<(string, seq<Option<string>>)>, id: string)
    ensures id in LoopTreeOf(data) <==> exists k | 0 <= k < |data| :: GetLoopId(data[k].0) == id
  {
    if data != [] {
      var front := data[..|data| - 1];
      LoopTreeHasEntry(front, id);
      assert forall k | 0 <= k < |front| :: front[k] == data[k];
    }
  }

  /** When several locations share a loop ID, the records of the last one win. */
  lemma {:induction false} LoopTreeLastWins(data: seq<(string, seq<Option<string>>)>, k: nat)
    requires k < |data|
    requires forall j | k < j < |data| :: GetLoopId(data[j].0) != GetLoopId(data[k].0)
    ensures GetLoopId(data[k].0) in LoopTreeOf(data)
    ensures LoopTreeOf(data)[GetLoopId(data[k].0)] == ParentIds(data[k].1)
  {
    if k < |data| - 1 {
      var front := data[..|data| - 1];
      assert front[k] == data[k];
      LoopTreeLastWins(front, k);
    }
  }

  // ===========================================================================
  // build_smx_dict

  /** Loop ID to parent function to analysis result. */
  type SmxDict = map<string, map<string, SmxResult>>

  /** The dictionary after the results `data` of an `.smx.json` file (lines 45-50). */
  function SmxDictOf(data: seq<SmxResult>): SmxDict
  {
    if data == [] then map[]
    else
      var d := SmxDictOf(data[..|data| - 1]);
      var result := data[|data| - 1];
      var id := GetLoopId(result.loop.startLoc);
      var inner := if id in d then d[id] else map[];
      d[id := inner[result.loop.parentFunc := result]]
  }

  /** `build_smx_dict` on the already parsed list of results (lines 38-51). */
  method BuildSmxDict(data: seq<SmxResult>) returns (smxDict: SmxDict)
    ensures smxDict == SmxDictOf(data)
  {
    smxDict := map[];
    var i := 0;
    while i < |data|
      invariant 0 <= i <= |data| && smxDict == SmxDictOf(data[..i])
    {
      assert data[..i + 1][..i] == data[..i];
      var result := data[i];
      var loopInfo := result.loop;
      var id := GetLoopId(loopInfo.startLoc);
      var func := loopInfo.parentFunc;
      var inner := if id in smxDict then smxDict[id] else map[];
      smxDict := smxDict[id := inner[func := result]];
      i := i + 1;
    }
    assert data[..i] == data;
  }

  /** Result `r` is filed under loop ID `id` and function `func`. */
  predicate FiledUnder(r: SmxResult, id: string, func: string)
  {
    GetLoopId(r.loop.startLoc) == id && r.loop.parentFunc == func
  }

  /** The dictionary holds an entry for `(id, func)` exactly when some result of that loop ID and function exists. */
  lemma {:induction false} SmxDictHasEntry(data: seq<SmxResult>, id: string, func: string)
    ensures (id in SmxDictOf(data) && func in SmxDictOf(data)[id]) <==>
      exists k | 0 <= k < |data| :: FiledUnder(data[k], id, func)
  {
    if data != [] {
      var front := data[..|data| - 1];
      SmxDictHasEntry(front, id, func);
      assert forall k | 0 <= k < |front| :: front[k] == data[k];
    }
  }

  /** The entry for `(id, func)` is the last result of that loop ID and function. */
  lemma {:induction false} SmxDictLastWins(data: seq<SmxResult>, id: string, func: string, k: nat)
    requires k < |data| && FiledUnder(data[k], id, func)
    requires forall j | k < j < |data| :: !FiledUnder(data[j], id, func)
    ensures id in SmxDictOf(data) && func in SmxDictOf(data)[id] && SmxDictOf(data)[id][func] == data[k]
  {
    if k < |data| - 1 {
      var front := data[..|data| - 1];
      assert front[k] == data[k];
      SmxDictLastWins(front, id, func, k);
    }
  }

  /** Every entry of the dictionary is one of the results, filed under its own loop ID and function. */
  lemma {:induction false} SmxDictConsistent(data: seq<SmxResult>)
    ensures forall id, func | id in SmxDictOf(data) && func in SmxDictOf(data)[id] ::
      SmxDictOf(data)[id][func] in data && FiledUnder(SmxDictOf(data)[id][func], id, func)
  {
    if data != [] {
      SmxDictConsistent(data[..|data| - 1]);
      assert forall r | r in data[..|data| - 1] :: r in data;
    }
  }

  // ===========================================================================
  // get_top_level_loop

  /** `rank` witnesses that following single parents in `loops` never returns to a loop. */
  ghost predicate TreeRanked(loops: LoopTree, rank: map<string, nat>)
  {
    forall id | id in loops && |loops[id]| == 1 && loops[id][0].Some? ::
      RankOf(rank, loops[id][0].value) < RankOf(rank, id)
  }

  /**
   * Following single parents terminates from every loop of the tree. This is
   * more than `get_top_level_loop` needs: it recurses forever only when the
   * walk from the queried loop enters a cycle, and a cycle elsewhere is harmless.
   */
  ghost predicate TreeAcyclic(loops: LoopTree)
  {
    exists rank :: TreeRanked(loops, rank)
  }

  ghost function SomeTreeRank(loops: LoopTree): (rank: map<string, nat>)
    requires TreeAcyclic(loops)
    ensures TreeRanked(loops, rank)
  {
    var rank :| TreeRanked(loops, rank); rank
  }

  /**
   * The top-level loop of `id`, following the parent of loops that have
   * exactly one parent record; `None` when a loop is unknown or has no or
   * several parent records (lines 120-132). A top-level loop's only record
   * is `None`.
   */
  function GetTopLevelLoop(id: string, loops: LoopTree): (r: Option<string>)
    requires TreeAcyclic(loops)
    ensures r.Some? ==> r.value in loops && loops[r.value] == [None]
    decreases RankOf(SomeTreeRank(loops), id)
  {
    if id !in loops || |loops[id]| != 1 then None
    else match loops[id][0]
      case None =>
        assert loops[id] == [None];
        Some(id)
      case Some(parent) => GetTopLevelLoop(parent, loops)
  }

  /** `p` walks from `p[0]` to its last element, each step to the single parent of a loop. */
  predicate ParentChain(loops: LoopTree, p: seq<string>)
  {
    p != [] && forall k | 0 <= k < |p| - 1 :: p[k] in loops && loops[p[k]] == [Some(p[k + 1])]
  }

  /** A top-level loop found for `id` is reached from `id` through single parents. */
  lemma TopLevelHasChain(id: string, loops: LoopTree) returns (p: seq<string>)
    requires TreeAcyclic(loops) && GetTopLevelLoop(id, loops).Some?
    ensures ParentChain(loops, p) && p[0] == id && p[|p| - 1] == GetTopLevelLoop(id, loops).value
    decreases RankOf(SomeTreeRank(loops), id)
  {
    if loops[id][0].None? {
      p := [id];
    } else {
      var parent := loops[id][0].value;
      assert loops[id] == [Some(parent)];
      var q := TopLevelHasChain(parent, loops);
      p := [id] + q;
      assert forall k | 1 <= k < |p| :: p[k] == q[k - 1];
    }
  }

  /** Conversely, a chain of single parents from `id` that ends at a top-level loop leads `get_top_level_loop` there. */
  lemma {:induction false} ChainLeadsToTopLevel(loops: LoopTree, p: seq<string>)
    requires TreeAcyclic(loops) && ParentChain(loops, p)
    requires p[|p| - 1] in loops && loops[p[|p| - 1]] == [None]
    ensures GetTopLevelLoop(p[0], loops) == Some(p[|p| - 1])
  {
    if |p| > 1 {
      var q := p[1..];
      assert ParentChain(loops, q) by {
        assert forall k | 0 <= k < |q| :: q[k] == p[k + 1];
      }
      ChainLeadsToTopLevel(loops, q);
      assert loops[p[0]] == [Some(p[1])];
    }
  }

  /** The top-level loop of a top-level loop is itself. */
  lemma TopLevelIsFixedPoint(id: string, loops: LoopTree)
    requires TreeAcyclic(loops) && GetTopLevelLoop(id, loops).Some?
    ensures GetTopLevelLoop(GetTopLevelLoop(id, loops).value, loops) == GetTopLevelLoop(id, loops)
  {
    var t := GetTopLevelLoop(id, loops).value;
    assert loops[t][0] == None;
  }

  // ===========================================================================
  // get_smx_result_of_loop

  /**
   * The analysis result for the loop `id` in function `func`: that of the
   * loop itself when the loop has results, otherwise that of its top-level
   * loop (lines 135-154).
   */
  function GetSmxResultOfLoop(id: string, func: string, loops: LoopTree, smxs: SmxDict): (r: Option<SmxResult>)
    requires id !in smxs ==> TreeAcyclic(loops)
    ensures r.Some? ==> exists key | key in smxs :: func in smxs[key] && r.value == smxs[key][func]
  {
    if id in smxs then
      if func in smxs[id] then Some(smxs[id][func]) else None
    else match GetTopLevelLoop(id, loops)
      case None => None
      case Some(top) =>
        if top in smxs && func in smxs[top] then Some(smxs[top][func]) else None
  }

  /**
   * A loop with results of its own never falls back to its top-level loop,
   * not even when it has none for `func`; a loop without results uses only
   * its top-level loop's.
   */
  lemma SmxResultSource(id: string, func: string, loops: LoopTree, smxs: SmxDict)
    requires id !in smxs ==> TreeAcyclic(loops)
    ensures id in smxs ==>
      (GetSmxResultOfLoop(id, func, loops, smxs).Some? <==> func in smxs[id])
    ensures id in smxs && func in smxs[id] ==> GetSmxResultOfLoop(id, func, loops, smxs) == Some(smxs[id][func])
    ensures id !in smxs && GetSmxResultOfLoop(id, func, loops, smxs).Some? ==>
      exists top | top in loops && loops[top] == [None] && top in smxs && func in smxs[top] ::
        GetTopLevelLoop(id, loops) == Some(top) &&
        GetSmxResultOfLoop(id, func, loops, smxs) == Some(smxs[top][func])
  {
  }

  /** Over a dictionary built by `build_smx_dict`, a found result is a result of the requested function. */
  lemma FoundResultIsOfFunction(id: string, func: string, loops: LoopTree, data: seq<SmxResult>)
    requires id !in SmxDictOf(data) ==> TreeAcyclic(loops)
    ensures var r := GetSmxResultOfLoop(id, func, loops, SmxDictOf(data));
      r.Some? ==> r.value in data && r.value.loop.parentFunc == func
  {
    SmxDictConsistent(data);
  }

  // ===========================================================================
  // ProfResult

  /** The fields of a profile record the join reads; the others are only printed. */
  datatype ProfRecord = ProfRecord(location: string, functionName: string)

  /** The induction variable `iv` belongs to the loop with ID `loopId`. */
  predicate InLoop(iv: IvStream, loopId: string)
  {
    GetLoopId(iv.loopStartLoc) == loopId
  }

  /** The index of the last of `ivs[..hi]` that belongs to the loop `loopId`, or -1. */
  function LastMatch(ivs: seq<IvStream>, loopId: string, hi: nat): (k: int)
    requires hi <= |ivs|
    ensures -1 <= k < hi
    ensures k >= 0 ==> InLoop(ivs[k], loopId)
    ensures forall j | k < j < hi :: !InLoop(ivs[j], loopId)
  {
    if hi == 0 then -1
    else if InLoop(ivs[hi - 1], loopId) then hi - 1
    else LastMatch(ivs, loopId, hi - 1)
  }

  /** Lines 69-72: the name of the last induction variable of the loop `loopId`, if any. */
  function LastMatchingIv(ivs: seq<IvStream>, loopId: string): Option<string>
  {
    var k := LastMatch(ivs, loopId, |ivs|);
    if k < 0 then None else Some(ivs[k].name)
  }

  /** No induction variable is chosen exactly when none belongs to the loop; otherwise the last one that does. */
  lemma LastMatchingIvCharacterised(ivs: seq<IvStream>, loopId: string)
    ensures LastMatchingIv(ivs, loopId).None? <==> forall k | 0 <= k < |ivs| :: !InLoop(ivs[k], loopId)
    ensures LastMatchingIv(ivs, loopId).Some? ==> exists k | 0 <= k < |ivs| ::
      && ivs[k].name == LastMatchingIv(ivs, loopId).value && InLoop(ivs[k], loopId)
      && forall j | k < j < |ivs| :: !InLoop(ivs[j], loopId)
  {
    var k := LastMatch(ivs, loopId, |ivs|);
    if k >= 0 {
      assert InLoop(ivs[k], loopId);
    }
  }

  /** Factor `j` of `ms` is an `inductionVariable` factor on `iv`, and `ms` is an indirect stream. */
  predicate IndirectFactor(ms: MemStream, j: nat, iv: string, indirect: set<string>)
  {
    && j < |ms.factors|
    && ms.factors[j].depStreamKind == InductionVariable && ms.factors[j].depStream == iv
    && ms.name in indirect
  }

  /** Some indirect stream of `streams` has an address factor on the induction variable `iv` (lines 82-89). */
  predicate HasIndirectAccess(streams: seq<MemStream>, iv: string, indirect: set<string>)
  {
    exists i, j | 0 <= i < |streams| && 0 <= j < |streams[i].factors| :: IndirectFactor(streams[i], j, iv, indirect)
  }

  /** The analysis can be done: a loop with a matching induction variable has a well-formed record. */
  ghost predicate Classifiable(prof: ProfRecord, smx: SmxResult)
  {
    LastMatchingIv(smx.info.inductionVariableStreams, GetLoopId(prof.location)).Some? ==> WellFormed(smx.info)
  }

  /**
   * The two answers for a profile record: both undetermined without a result
   * or a matching induction variable; otherwise whether that variable is
   * supported, and whether it is and some indirect stream depends on it.
   */
  ghost function TriStates(prof: ProfRecord, smx: Option<SmxResult>): (Option<bool>, Option<bool>)
    requires smx.Some? ==> Classifiable(prof, smx.value)
  {
    if smx.None? then (None, None)
    else
      var info := smx.value.info;
      match LastMatchingIv(info.inductionVariableStreams, GetLoopId(prof.location))
      case None => (None, None)
      case Some(iv) =>
        var c := Classify(info);
        if iv in c.supportedIvs then (Some(true), Some(HasIndirectAccess(info.memStreams, iv, c.indirectSupportedMss)))
        else (Some(false), Some(false))
  }

  /** Both answers are determined together, and an indirect access is only reported for a streamizable loop. */
  lemma TriStatesConsistent(prof: ProfRecord, smx: Option<SmxResult>)
    requires smx.Some? ==> Classifiable(prof, smx.value)
    ensures TriStates(prof, smx).0.None? <==> TriStates(prof, smx).1.None?
    ensures TriStates(prof, smx).1 == Some(true) ==> TriStates(prof, smx).0 == Some(true)
    ensures TriStates(prof, smx).0.None? <==>
      smx.None? || LastMatchingIv(smx.value.info.inductionVariableStreams, GetLoopId(prof.location)).None?
  {
  }

  /**
   * A streamizable loop's induction variable is referenced by a supported
   * memory stream and no declaration of it is non-increasing.
   */
  lemma StreamizableMeansSupportedIv(prof: ProfRecord, smx: SmxResult)
    requires Classifiable(prof, smx)
    requires TriStates(prof, Some(smx)).0 == Some(true)
    ensures var info := smx.info;
      var iv := LastMatchingIv(info.inductionVariableStreams, GetLoopId(prof.location)).value;
      && (exists n | n in Classify(info).supportedMss :: iv in IvRefsOf(PoolOf(info.memStreams)[n]))
      && forall i | 0 <= i < |info.inductionVariableStreams| && info.inductionVariableStreams[i].name == iv ::
           info.inductionVariableStreams[i].increasing
  {
    var info := smx.info;
    var iv := LastMatchingIv(info.inductionVariableStreams, GetLoopId(prof.location)).value;
    SupportedIvsCharacterised(info, iv);
  }

  /**
   * An indirect access is a supported memory stream that has both a `memory`
   * factor and an address factor on the loop's induction variable.
   */
  lemma IndirectAccessMeansMemoryFactor(prof: ProfRecord, smx: SmxResult)
    requires Classifiable(prof, smx)
    requires TriStates(prof, Some(smx)).1 == Some(true)
    ensures var info := smx.info;
      var iv := LastMatchingIv(info.inductionVariableStreams, GetLoopId(prof.location)).value;
      exists i, j | 0 <= i < |info.memStreams| && 0 <= j < |info.memStreams[i].factors| ::
        && info.memStreams[i].factors[j].depStreamKind == InductionVariable
        && info.memStreams[i].factors[j].depStream == iv
        && info.memStreams[i].name in Classify(info).supportedMss
        && HasMemoryFactor(PoolOf(info.memStreams)[info.memStreams[i].name])
  {
    var info := smx.info;
    var iv := LastMatchingIv(info.inductionVariableStreams, GetLoopId(prof.location)).value;
    var c := Classify(info);
    var i, j :| 0 <= i < |info.memStreams| && 0 <= j < |info.memStreams[i].factors| && IndirectFactor(info.memStreams[i], j, iv, c.indirectSupportedMss);
    IndirectIsSupportedWithMemoryFactor(info, info.memStreams[i].name);
  }

  /** `__tri_state_to_str` (lines 101-107). */
  function TriStateToString(tri: Option<bool>): (s: string)
    ensures s == "undetermined" <==> tri.None?
    ensures s == "yes" <==> tri == Some(true)
    ensures s == "no" <==> tri == Some(false)
  {
    if tri.None? then "undetermined" else if tri.value then "yes" else "no"
  }

  /** Distinct tri-states print as distinct words, so the CSV cell determines the tri-state. */
  lemma TriStateToStringInjective(a: Option<bool>, b: Option<bool>)
    ensures TriStateToString(a) == TriStateToString(b) ==> a == b
  {
  }

  /** The analysis answers for one profile record (lines 54-89). */
  class ProfResult {
    var prof: ProfRecord
    var streamizable: Option<bool>
    var hasIndirectAccess: Option<bool>

    /** The two answers. */
    function Answers(): (Option<bool>, Option<bool>)
      reads this
    {
      (streamizable, hasIndirectAccess)
    }

    /** Lines 59-64. */
    constructor (prof: ProfRecord, smx: Option<SmxResult>)
      requires smx.Some? ==> Classifiable(prof, smx.value)
      ensures this.prof == prof && Answers() == TriStates(prof, smx)
    {
      this.prof := prof;
      streamizable := None;
      hasIndirectAccess := None;
      new;
      if smx.Some? {
        UpdatedStreamInfo(smx.value);
      }
    }

    /** `__updated_stream_info` (lines 66-89). */
    method UpdatedStreamInfo(smx: SmxResult)
      requires Classifiable(prof, smx) && Answers() == (None, None)
      modifies this`streamizable, this`hasIndirectAccess
      ensures Answers() == TriStates(prof, Some(smx))
    {
      // get induction variable stream of the profile record's loop
      var loopId := GetLoopId(prof.location);
      var ivName := FindIv(smx.info.inductionVariableStreams, loopId);
      if ivName.None? {
        return;
      }
      // check if the induction variable stream is supported
      var info := new StreamInfo(smx.info);
      streamizable := Some(info.IsSupportedIv(ivName.value));
      hasIndirectAccess := Some(false);
      if !streamizable.value {
        return;
      }
      // check if there are indirect stream accesses in the loop
      var found := FindIndirectAccess(smx.info.memStreams, ivName.value, info);
      if found {
        hasIndirectAccess := Some(true);
      }
    }

    /** The loop of lines 69-72: the last induction variable of the loop wins. */
    static method FindIv(ivs: seq<IvStream>, loopId: string) returns (ivName: Option<string>)
      ensures ivName == LastMatchingIv(ivs, loopId)
    {
      ivName := None;
      var i := 0;
      while i < |ivs|
        invariant 0 <= i <= |ivs|
        invariant ivName == (var k := LastMatch(ivs, loopId, i); if k < 0 then None else Some(ivs[k].name))
      {
        if GetLoopId(ivs[i].loopStartLoc) == loopId {
          ivName := Some(ivs[i].name);
        }
        i := i + 1;
      }
    }

    /** The nested loop of lines 82-89, returning where the source sets the flag and returns. */
    static method FindIndirectAccess(streams: seq<MemStream>, ivName: string, info: StreamInfo) returns (found: bool)
      ensures found == HasIndirectAccess(streams, ivName, info.indirectSupportedMss)
    {
      var i := 0;
      while i < |streams|
        invariant 0 <= i <= |streams|
        invariant forall i', j | 0 <= i' < i && 0 <= j < |streams[i'].factors| :: !IndirectFactor(streams[i'], j, ivName, info.indirectSupportedMss)
      {
        var ms := streams[i];
        var name := ms.name;
        var j := 0;
        while j < |ms.factors|
          invariant 0 <= j <= |ms.factors|
          invariant forall j' | 0 <= j' < j :: !IndirectFactor(ms, j', ivName, info.indirectSupportedMss)
        {
          var factor := ms.factors[j];
          if factor.depStreamKind == InductionVariable && factor.depStream == ivName && info.IsIndirectSupportedMs(name) {
            assert IndirectFactor(streams[i], j, ivName, info.indirectSupportedMss);
            return true;
          }
          j := j + 1;
        }
        i := i + 1;
      }
      return false;
    }
  }

  // ===========================================================================
  // gen_prof_results

  /** The analysis result the join finds for a profile record. */
  function SmxOf(prof: ProfRecord, loops: LoopTree, smxs: SmxDict): Option<SmxResult>
    requires GetLoopId(prof.location) !in smxs ==> TreeAcyclic(loops)
  {
    GetSmxResultOfLoop(GetLoopId(prof.location), prof.functionName, loops, smxs)
  }

  /** The join of a profile record terminates and, when it finds a result, can classify it. */
  ghost predicate Resolvable(prof: ProfRecord, loops: LoopTree, smxs: SmxDict)
  {
    && (GetLoopId(prof.location) !in smxs ==> TreeAcyclic(loops))
    && (SmxOf(prof, loops, smxs).Some? ==> Classifiable(prof, SmxOf(prof, loops, smxs).value))
  }

  /** The two answers the join gives a profile record. */
  ghost function AnswersFor(prof: ProfRecord, loops: LoopTree, smxs: SmxDict): (Option<bool>, Option<bool>)
    requires Resolvable(prof, loops, smxs)
  {
    TriStates(prof, SmxOf(prof, loops, smxs))
  }

  /** `gen_prof_results` (lines 157-169): one new result object per profile record, in order. */
  method GenProfResults(profs: seq<ProfRecord>, loops: LoopTree, smxs: SmxDict) returns (results: seq<ProfResult>)
    requires forall i | 0 <= i < |profs| :: Resolvable(profs[i], loops, smxs)
    ensures |results| == |profs|
    ensures forall i | 0 <= i < |profs| ::
      && fresh(results[i]) && results[i].prof == profs[i]
      && results[i].Answers() == AnswersFor(profs[i], loops, smxs)
  {
    results := [];
    var i := 0;
    while i < |profs|
      invariant 0 <= i <= |profs| && |results| == i
      invariant forall k | 0 <= k < i ::
        && fresh(results[k]) && results[k].prof == profs[k]
        && results[k].Answers() == AnswersFor(profs[k], loops, smxs)
    {
      var prof := profs[i];
      var id := GetLoopId(prof.location);
      var func := prof.functionName;
      var smx := GetSmxResultOfLoop(id, func, loops, smxs);
      var result := new ProfResult(prof, smx);
      results := results + [result];
      i := i + 1;
    }
  }
}
