/** Fixed data of the SASS optimisation checker (optcheck/optcheck.py): the two
    hardware-generation instruction maps, the carrier opcodes of the embedded
    specification, the fence categories, and the reasons a run is abandoned. */
module Sass {

  /** Why a run stops before a verdict: a failing `assert` or a `bail_err`
      call in the checker, each of which ends the process with exit code 1. */
  datatype Fault =
    | TooFewInstructions   // fewer than six instruction lines
    | BadCarrierOperands   // a carrier instruction without exactly three operands
    | BadImmediate         // a carrier's third operand is not a base-16 integer
    | TypeOutOfRange       // a decoded type index outside the instruction map
    | NoSpecification      // "No specification found"
    | MissingItem          // "Missing item in order specification"
    | OrderGap             // "Order gap in specification"

  /** `-mapping pre-maxwell` (the default) or `-mapping maxwell`. */
  datatype Variant = PreMaxwell | Maxwell

  /** One instruction-map entry: the SASS opcodes a type index stands for, the
      position of the link register among the operands, and whether that
      operand is a memory address such as `[R4]`. */
  datatype MapEntry = MapEntry(aliases: seq<string>, linkPos: nat, isMem: bool)

  /** `imap_pm` and `imap_ma`: ten entries each, indexed by the type field of a
      specification item. */
  function IMap(v: Variant): (r: seq<MapEntry>)
    ensures |r| == 10
    ensures forall i :: 0 <= i < |r| ==> r[i].linkPos == 0 && |r[i].aliases| >= 1
  {
    match v
    case PreMaxwell => [
      MapEntry(["ST.E"], 0, true),                    // 00, st.ca
      MapEntry(["LD.E"], 0, false),                   // 01, ld.ca
      MapEntry(["ST.E.CG", "ST.E.CG.S"], 0, true),    // 02, st.cg
      MapEntry(["LD.E.CG", "LD.E.CG.S"], 0, false),   // 03, ld.cg
      MapEntry(["STS"], 0, true),                     // 04, st.shared
      MapEntry(["LDS"], 0, false),                    // 05, ld.shared
      MapEntry(["ATOM.E.CAS"], 0, false),             // 06, atom.cas
      MapEntry(["ATOM.E.EXCH", "ATOM.E.INC"], 0, false), // 07, atom.exch
      MapEntry(["ST.E.WT"], 0, true),                 // 08, st.cv
      MapEntry(["LD.E.CV"], 0, false)                 // 09, ld.cv
    ]
    case Maxwell => [
      MapEntry(["ST.E"], 0, true),
      MapEntry(["LD.E"], 0, false),
      MapEntry(["ST.E", "ST.E.S"], 0, true),
      MapEntry(["LD.E", "LD.E.S"], 0, false),
      MapEntry(["STS"], 0, true),
      MapEntry(["LDS"], 0, false),
      MapEntry(["ATOM.E.CAS"], 0, false),
      MapEntry(["ATOM.E.EXCH", "ATOM.E.INC"], 0, false),
      MapEntry(["ST.E"], 0, true),
      MapEntry(["LD.E"], 0, false)
    ]
  }

  /** The number of entries of either map, `len(imap)`. */
  const MapSize: nat := 10

  /** `sins`: the arithmetic instructions whose immediates carry the specification. */
  const Carriers: seq<string> := ["IADD32I", "LOP32I.XOR"]

  /** `fl`: the fence categories counted in the instruction stream. */
  const Fences: seq<string> := ["membar.cta", "membar.gl", "membar.sys"]

  /** Counters of the fence categories (`source` and `target`). */
  type Counters = map<string, int>

  predicate HasFences(c: Counters) {
    forall f :: f in Fences ==> f in c
  }

  /** Both counter maps start with every category at zero. */
  function ZeroCounters(): (c: Counters)
    ensures HasFences(c) && c.Keys == set f | f in Fences
    ensures forall f :: f in c ==> c[f] == 0
  {
    map f | f in Fences :: 0
  }
}
