/** A cursor over a native `char` array that hands out its elements one at a time, in order,
    in the manner of `java.util.Enumeration`. */
module CharEnum {
  import opened Wrappers

  class CharEnumeration {
    const charArray: array<char>
    var pointer: int

    /** The cursor never leaves the array (it starts at 0 and moves by one only while elements
        remain). */
    ghost predicate Valid()
      reads this
    {
      0 <= pointer <= charArray.Length
    }

    constructor (charArray: array<char>)
      ensures this.charArray == charArray
      ensures pointer == 0 && Valid()
    {
      this.charArray := charArray;
      pointer := 0;
    }

    /** True exactly when at least one more element can be handed out. */
    method HasMoreElements() returns (r: bool)
      requires Valid()
      ensures r <==> pointer < charArray.Length
    {
      r := pointer < charArray.Length;
    }

    /** The next element, moving past it; `None` (Java's `NoSuchElementException`) when the
        enumeration is exhausted, in which case nothing moves. */
    method NextElement() returns (r: Option<char>)
      requires Valid()
      modifies this`pointer
      ensures Valid()
      ensures old(pointer) < charArray.Length ==>
        r == Some(charArray[old(pointer)]) && pointer == old(pointer) + 1
      ensures old(pointer) == charArray.Length ==> r == None && pointer == old(pointer)
    {
      var more := HasMoreElements();
      if !more {
        return None;
      }
      r := Some(charArray[pointer]);
      pointer := pointer + 1;
    }
  }

  /** The loop of the class documentation: takes every remaining element, in order, until the
      enumeration reports that none is left. */
  method Drain(e: CharEnumeration) returns (taken: seq<char>)
    requires e.Valid()
    modifies e`pointer
    ensures e.Valid() && e.pointer == e.charArray.Length
    ensures taken == e.charArray[old(e.pointer)..]
  {
    taken := [];
    var more := e.HasMoreElements();
    while more
      invariant e.Valid() && old(e.pointer) <= e.pointer
      invariant taken == e.charArray[old(e.pointer)..e.pointer]
      invariant more <==> e.pointer < e.charArray.Length
      decreases e.charArray.Length - e.pointer
    {
      var c := e.NextElement();
      taken := taken + [c.value];
      more := e.HasMoreElements();
    }
  }
}
