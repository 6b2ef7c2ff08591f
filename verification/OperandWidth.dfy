/** How many bytes the memory operand of an EVEX instruction has: the unit of its
    displacements of one byte (Intel SDM volume 2, section 2.7.5). */
module OperandWidth {
  import opened Basics
  import opened EaDecoding

  /** 16 bytes, twice that or four times that. */
  function VectorBytes(ll: nat): nat
    requires ll <= 3
  {
    if ll == 0 then 16 else 2 * VectorBytes(ll - 1)
  }

  function ElementBytes(w: nat): nat {
    if w == 0 then 4 else 8
  }

  /** What part of the vector is in memory, or how many elements of which size. */
  datatype Extent = Vector(share: int) | Elements(count: nat) | Bytes(count: nat)

  predicate Measures(x: Extent, w: nat, ll: nat, n: int)
    requires ll <= 3
  {
    match x
    case Vector(share) => share * n == VectorBytes(ll)
    case Elements(count) => n == count * ElementBytes(w)
    case Bytes(count) => n == count
  }

  /** The extent of the operand of a tuple type; `b` stands for a broadcast of one element. */
  function ExtentOf(t: Tuple, b: bool, ll: nat): Extent {
    match t
    case NoTuple => Bytes(1)
    case FV => if b then Elements(1) else Vector(1)
    case HV => if b then Elements(1) else Vector(2)
    case FVM => Vector(1)
    case HVM => Vector(2)
    case QVM => Vector(4)
    case OVM => Vector(8)
    case T1S => Elements(1)
    case T2 => Elements(2)
    case T4 => Elements(4)
    case T8 => Elements(8)
    case T1S8 => Bytes(1)
    case T1S16 => Bytes(2)
    case T1F32 => Bytes(4)
    case T1F64 => Bytes(8)
    case M128 => Bytes(16)
    case DUP => if ll == 0 then Vector(2) else Vector(1)
  }

  /** The unit of a displacement is the number of bytes of the operand. */
  lemma UnitMeasures(t: Tuple, b: bool, w: nat, ll: nat)
    requires w <= 1 && ll <= 3
    ensures Measures(ExtentOf(t, b, ll), w, ll, Unit(Disp8Shift(t, b, w, ll)))
  {
    assert VectorBytes(0) == 16 && VectorBytes(1) == 32 && VectorBytes(2) == 64 && VectorBytes(3) == 128;
  }

  /** There is one such number. */
  lemma OneMeasure(x: Extent, w: nat, ll: nat, n: int, n2: int)
    requires ll <= 3 && (x.Vector? ==> x.share > 0) && Measures(x, w, ll, n) && Measures(x, w, ll, n2)
    ensures n == n2
  {
    if x.Vector? {
      MulOnce(x.share, n, n2);
    }
  }

  lemma MulOnce(s: int, n: int, n2: int)
    requires s > 0 && s * n == s * n2
    ensures n == n2
  {
  }
}
