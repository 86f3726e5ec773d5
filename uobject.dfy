/** CoreUObject.h: the class descriptor `UClass` and its superclass-chain walk `IsChildOf`. */
module UObjects {

  class UClass {
    var Name: string
    var SuperClass: UClass?

    constructor (inName: string, inSuperClass: UClass?)
      ensures Name == inName && SuperClass == inSuperClass
    {
      Name := inName;
      SuperClass := inSuperClass;
    }

    /** `chain` is the superclass chain starting at `start`: each entry's SuperClass is the next entry and the
        last one's is null. Its existence is what makes the chain acyclic (a cycle has no finite chain). */
    static ghost predicate IsChain(start: UClass, chain: seq<UClass>)
      reads set c | c in chain
    {
      && |chain| > 0
      && chain[0] == start
      && (forall i :: 0 <= i < |chain| - 1 ==> chain[i].SuperClass == chain[i + 1])
      && chain[|chain| - 1].SuperClass == null
    }

    /** Walks the SuperClass pointers from this class and reports whether `other` is met before null. */
    method IsChildOf(other: UClass?, ghost chain: seq<UClass>) returns (r: bool)
      requires IsChain(this, chain)
      ensures r <==> other != null && other in chain
    {
      var current: UClass? := this;
      ghost var i := 0;
      while current != null
        invariant 0 <= i <= |chain|
        invariant current == (if i < |chain| then chain[i] else null)
        invariant forall j :: 0 <= j < i ==> chain[j] != other
        decreases |chain| - i
      {
        if current == other {
          return true;
        }
        current := current.SuperClass;
        i := i + 1;
      }
      return false;
    }
  }

  /** The chain of a class met in the chain of another is the rest of that chain. */
  lemma {:induction false} ChainSuffix(a: UClass, ca: seq<UClass>, k: nat, cb: seq<UClass>)
    requires UClass.IsChain(a, ca)
    requires k < |ca|
    requires UClass.IsChain(ca[k], cb)
    ensures cb == ca[k..]
    decreases |ca| - k
  {
    assert k < |ca| - 1 ==> ca[k].SuperClass == ca[k + 1];
    assert |cb| > 1 ==> cb[0].SuperClass == cb[1];
    if ca[k].SuperClass == null {
      assert k == |ca| - 1;
      assert |cb| == 1;
    } else {
      assert k < |ca| - 1;
      assert |cb| > 1;
      var rest := cb[1..];
      assert UClass.IsChain(ca[k + 1], rest) by {
        assert cb[0].SuperClass == cb[1];
        assert forall i :: 0 <= i < |rest| - 1 ==> rest[i] == cb[i + 1];
      }
      ChainSuffix(a, ca, k + 1, rest);
      assert cb == [cb[0]] + rest;
    }
  }

  /** Every class is a child of itself. */
  lemma IsChildOfReflexive(a: UClass, ca: seq<UClass>)
    requires UClass.IsChain(a, ca)
    ensures a in ca
  {
  }

  /** A child of a child is a child: if B is in A's chain and C in B's, then C is in A's. */
  lemma IsChildOfTransitive(a: UClass, ca: seq<UClass>, b: UClass, cb: seq<UClass>, c: UClass)
    requires UClass.IsChain(a, ca) && UClass.IsChain(b, cb)
    requires b in ca && c in cb
    ensures c in ca
  {
    var k :| 0 <= k < |ca| && ca[k] == b;
    ChainSuffix(a, ca, k, cb);
    var j :| 0 <= j < |cb| && cb[j] == c;
    assert ca[k + j] == c;
  }

  /** A class whose SuperClass is null is a child of itself only. */
  lemma RootIsChildOnlyOfItself(a: UClass, ca: seq<UClass>, other: UClass)
    requires UClass.IsChain(a, ca)
    requires a.SuperClass == null
    ensures other in ca <==> other == a
  {
    ChainSuffix(a, ca, 0, [a]);
  }

  /** The chain of a class is determined by the pointers: two chains from one class are equal. */
  lemma ChainUnique(a: UClass, c1: seq<UClass>, c2: seq<UClass>)
    requires UClass.IsChain(a, c1) && UClass.IsChain(a, c2)
    ensures c1 == c2
  {
    ChainSuffix(a, c1, 0, c2);
  }
}
