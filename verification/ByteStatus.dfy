/**
 * The status word the online shadow memory keeps for one byte: its fields, and how they are packed
 * into 64 bits.
 */
module ByteStatus {

  datatype Status = DEFAULT | READ | GLOBAL_READ | WRITE | RACE
  datatype Space = GM | UB

  /** The fields of a status word; `pc` is the 32 bits stored above bit 32. */
  datatype Cell = Cell(status: Status, thread: nat, pc: nat, space: Space, atomic: bool, raceable: bool)

  const MAX_THREADS: nat := 2048
  const WARP_SIZE: nat := 32
  const PC_RANGE: nat := 0x1_0000_0000
  const PC_SEEN: nat := 0x1_0000   // ExtractPc keeps sixteen bits only

  /** The all-zero word. */
  const EMPTY: Cell := Cell(DEFAULT, 0, 0, GM, false, false)

  function Construct(status: Status, thread: nat, pc: nat, space: Space, atomic: bool): Cell {
    Cell(status, thread % MAX_THREADS, pc % PC_RANGE, space, atomic, true)
  }

  function ExtractPc(cell: Cell): nat { cell.pc % PC_SEEN }

  // ------------------------------------------------------------------ the packed form

  datatype Fields = Fields(pc: bv64, sync: bv64, space: bv64, atomic: bv64, status: bv64, thread: bv64)

  function Pack(f: Fields): bv64 {
    (f.pc << 32) | ((f.sync & 1) << 31) | ((f.space & 1) << 30) | ((f.atomic & 1) << 15)
    | ((f.status & 0xF) << 11) | (f.thread & 0x7FF)
  }

  function PackedPc(w: bv64): bv64 { (w >> 32) & 0xFFFF }
  function PackedSync(w: bv64): bv64 { (w >> 31) & 1 }
  function PackedSpace(w: bv64): bv64 { (w >> 30) & 1 }
  function PackedAtomic(w: bv64): bv64 { (w >> 15) & 1 }
  function PackedStatus(w: bv64): bv64 { (w >> 11) & 0xF }
  function PackedThread(w: bv64): bv64 { w & 0x7FF }

  predicate InRange(f: Fields) {
    && f.pc <= 0xFFFF_FFFF && f.sync <= 1 && f.space <= 1 && f.atomic <= 1 && f.status <= 0xF && f.thread <= 0x7FF
  }

  /** Every field but the pc comes back; the pc comes back exactly when it fits in sixteen bits. */
  lemma UnpackPack(f: Fields)
    requires InRange(f)
    ensures var w := Pack(f);
            && PackedSync(w) == f.sync && PackedSpace(w) == f.space && PackedAtomic(w) == f.atomic
            && PackedStatus(w) == f.status && PackedThread(w) == f.thread
            && (PackedPc(w) == f.pc <==> f.pc <= 0xFFFF)
  {
  }

  lemma FullPc(f: Fields)
    requires InRange(f)
    ensures Pack(f) >> 32 == f.pc
  {
  }

  /** A compare-and-swap on words is a compare-and-swap on fields: the word determines every field. */
  lemma PackInjective(f: Fields, g: Fields)
    requires InRange(f) && InRange(g) && Pack(f) == Pack(g)
    ensures f == g
  {
    UnpackPack(f);
    UnpackPack(g);
    FullPc(f);
    FullPc(g);
  }
}
