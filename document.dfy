/**
 * The per-loop analysis record produced by the stream-memory analysis pass
 * (one element of an `.smx.json` file), as the scripts read it after JSON
 * parsing. Only the fields the scripts consult are kept.
 */
module Document {
  import opened Common

  /** `depStreamKind` of an address factor. */
  datatype DepKind = NotAStream | InductionVariable | Memory

  /**
   * One address factor of a memory stream. `depStream` names an induction
   * variable or a memory stream, depending on the kind; it is not consulted
   * for a `NotAStream` factor.
   */
  datatype Factor = Factor(depStreamKind: DepKind, depStream: string, isInvariant: bool)

  /** A memory stream of the loop. */
  datatype MemStream = MemStream(name: string, read: bool, written: bool, factors: seq<Factor>)

  /** An induction-variable stream: `parent` is the enclosing induction variable, if any. */
  datatype IvStream = IvStream(name: string, parent: Option<string>, increasing: bool, loopStartLoc: string)

  /** `memOpcode` of a memory operation: "load", "store", or any other text. */
  datatype MemOpcode = Load | Store | OtherOpcode(text: string)

  /** A memory operation and the memory stream it accesses (which may be absent). */
  datatype MemOp = MemOp(memOpcode: MemOpcode, memStream: string)

  /** The three collections the classifier reads. */
  datatype LoopInfo = LoopInfo(memStreams: seq<MemStream>, inductionVariableStreams: seq<IvStream>, memOps: seq<MemOp>)

  /** The `loop` entry of an analysis result: where the loop starts and which function holds it. */
  datatype LoopMeta = LoopMeta(startLoc: string, parentFunc: string)

  /** One analysis result as `prof_analysis.py` reads it: the loop entry and the three collections. */
  datatype SmxResult = SmxResult(loop: LoopMeta, info: LoopInfo)
}
