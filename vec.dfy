/** Vec<std::tuple<int, ..., int>>: the integer fixed-arity vectors Vec2Int,
    Vec3Int and Vec4Int (arity 2, 3 and 4). The tuple becomes a sequence whose
    length is the arity; get<Index> hands out a mutable reference, modelled as
    a read (Get) and a write through it (Set). The index is a template
    argument in the source, checked when compiling, so here it is a
    precondition. */
module Vectors {

  class Vec {
    const arity: nat
    var components: seq<int>

    predicate Valid()
      reads this
    {
      |components| == arity
    }

    /** Vec(): every component value-initialised, which is 0 for int. */
    constructor Default(arity: nat)
      ensures Valid() && this.arity == arity
      ensures forall i :: 0 <= i < arity ==> components[i] == 0
    {
      this.arity := arity;
      components := seq(arity, _ => 0);
    }

    /** Vec(args...): the arguments stored in the order given. */
    constructor (args: seq<int>)
      ensures Valid() && arity == |args| && components == args
    {
      arity := |args|;
      components := args;
    }

    /** The copy constructor: an independent vector with the same components. */
    constructor Copy(other: Vec)
      requires other.Valid()
      ensures Valid() && arity == other.arity && components == other.components
    {
      arity := other.arity;
      components := other.components;
    }

    /** Reading through get<index>(). */
    function Get(index: nat): (x: int)
      reads this
      requires Valid() && index < arity
      ensures x == components[index]
    {
      components[index]
    }

    /** Writing v through get<index>(): only that component changes. */
    method Set(index: nat, v: int)
      requires Valid() && index < arity
      modifies this`components
      ensures Valid()
      ensures Get(index) == v
      ensures forall i :: 0 <= i < arity && i != index ==> Get(i) == old(Get(i))
    {
      components := components[index := v];
    }

    /** operator==: the tuples are equal, component by component. Only
        vectors of the same type, hence the same arity, can be compared. */
    function Equals(other: Vec): (equal: bool)
      reads this, other
      requires Valid() && other.Valid() && arity == other.arity
      ensures equal <==> forall i :: 0 <= i < arity ==> components[i] == other.components[i]
    {
      components == other.components
    }

    /** operator!=: the negation of ==, so some component differs. */
    function NotEquals(other: Vec): (different: bool)
      reads this, other
      requires Valid() && other.Valid() && arity == other.arity
      ensures different <==> exists i :: 0 <= i < arity && components[i] != other.components[i]
    {
      !Equals(other)
    }
  }

  /** Vec2Int(5, 3) stores 5 then 3, and a copy of Vec2Int(10, 72) has the
      same components and compares equal. */
  method ConstructionExamples() returns (first: int, second: int, copyFirst: int, copySecond: int, copyEqual: bool)
    ensures first == 5 && second == 3
    ensures copyFirst == 10 && copySecond == 72 && copyEqual
  {
    var v := new Vec([5, 3]);
    first, second := v.Get(0), v.Get(1);
    var w := new Vec([10, 72]);
    var copy := new Vec.Copy(w);
    copyFirst, copySecond := copy.Get(0), copy.Get(1);
    copyEqual := copy.Equals(w);
  }

  /** Component assignment through get: (1, 2) with both components
      multiplied by 6 becomes (6, 12); (5, 7) with component 0 multiplied by
      component 1 has component 0 equal to 35. */
  method AssignmentExamples() returns (scaled0: int, scaled1: int, product: int)
    ensures scaled0 == 6 && scaled1 == 12 && product == 35
  {
    var v := new Vec([1, 2]);
    v.Set(0, v.Get(0) * 6);
    v.Set(1, v.Get(1) * 6);
    scaled0, scaled1 := v.Get(0), v.Get(1);
    var w := new Vec([5, 7]);
    w.Set(0, w.Get(0) * w.Get(1));
    product := w.Get(0);
  }
}
