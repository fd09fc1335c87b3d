// Integers extended with both infinities (common/extended_int.py).

module ExtendedInts {
  import opened Batches

  datatype ExtendedInt = NegInf | Fin(value: int) | PosInf {

    predicate Less(other: ExtendedInt) {
      if this == other then false
      else if Fin? && other.Fin? then value < other.value
      else !(PosInf? || other.NegInf?)
    }

    predicate AtLeast(other: ExtendedInt) {
      !Less(other)
    }

    function Plus(k: int): ExtendedInt {
      match this
      case Fin(v) => Fin(v + k)
      case _ => this
    }

    function Minus(k: int): ExtendedInt {
      Plus(-k)
    }

    function ToOptionalInt(): Option<int> {
      match this
      case Fin(v) => Some(v)
      case _ => None
    }

    /** The integers at or below this one: an independent reading of the order. */
    ghost predicate Covers(k: int) {
      match this
      case NegInf => false
      case Fin(v) => k <= v
      case PosInf => true
    }
  }

  function FromOptionalInt(value: Option<int>, noneAs: ExtendedInt): ExtendedInt {
    match value
    case Some(v) => Fin(v)
    case None => noneAs
  }

  function Larger(a: ExtendedInt, b: ExtendedInt): ExtendedInt {
    if a.Less(b) then b else a
  }

  function Smaller(a: ExtendedInt, b: ExtendedInt): ExtendedInt {
    if b.Less(a) then b else a
  }

  /** The hand-written comparison is inclusion of the integers below, so it is a total order. */
  lemma OrderIsInclusion(a: ExtendedInt, b: ExtendedInt)
    ensures b.AtLeast(a) <==> forall k: int :: a.Covers(k) ==> b.Covers(k)
    ensures forall k: int :: Larger(a, b).Covers(k) <==> a.Covers(k) || b.Covers(k)
    ensures forall k: int :: Smaller(a, b).Covers(k) <==> a.Covers(k) && b.Covers(k)
    ensures forall k: int, d: int :: a.Plus(d).Covers(k) <==> a.Covers(k - d)
  {
    if !b.AtLeast(a) {
      var k := match a case Fin(v) => v case PosInf => (match b case Fin(w) => w + 1 case _ => 0) case NegInf => 0;
      assert a.Covers(k) && !b.Covers(k);
    }
  }
}
