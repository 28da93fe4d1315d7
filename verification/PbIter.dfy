// The circular field iterator.
module PbIter {
  import opened PbTypes
  import opened PbFormat

  class FieldIter {
    const fs: seq<Field>
    var pos: nat
    var requiredIndex: nat

    // pos is at a field, or at the terminator of an empty list.
    ghost predicate Valid()
      reads this
    {
      (if |fs| == 0 then pos == 0 else pos < |fs|) && requiredIndex == RequiredBefore(fs, pos)
    }

    constructor (fs: seq<Field>)
      ensures this.fs == fs && pos == 0 && Valid()
    {
      this.fs := fs;
      pos, requiredIndex := 0, 0;
    }

    method Begin() returns (any: bool)
      modifies this
      ensures Valid() && pos == 0 && any == (|fs| > 0)
    {
      pos, requiredIndex := 0, 0;
      any := |fs| > 0;
    }

    // False when the end is passed; the iterator is then back at the start.
    method Next() returns (more: bool)
      requires Valid()
      modifies this
      ensures Valid() && more == (old(pos) + 1 < |fs|) && pos == if more then old(pos) + 1 else 0
    {
      if |fs| == 0 {
        return false;
      }
      if pos + 1 == |fs| {
        var any := Begin();
        return false;
      }
      if fs[pos].htype.Required? {
        requiredIndex := requiredIndex + 1;
      }
      pos := pos + 1;
      return true;
    }

    // The tag the iterator is at; the terminator has tag 0.
    function Tag(): nat
      requires Valid()
      reads this
    {
      if |fs| == 0 then 0 else fs[pos].tag
    }

    // Searches from here, going round once. A miss leaves the iterator where it was.
    method Find(tag: nat) returns (found: bool)
      requires Valid()
      modifies this
      ensures Valid() && found == (if |fs| == 0 then tag == 0 else exists i :: 0 <= i < |fs| && fs[i].tag == tag)
      ensures found ==> Tag() == tag
      ensures !found ==> pos == old(pos)
    {
      var start := pos;
      if Tag() == tag {
        return true;
      }
      var more := Next();
      while pos != start
        invariant Valid() && (|fs| > 0 ==> start < |fs|)
        invariant |fs| > 0 && pos >= start ==> forall i :: start <= i < pos ==> fs[i].tag != tag
        invariant |fs| > 0 && pos < start ==> forall i :: 0 <= i < pos || start <= i < |fs| ==> fs[i].tag != tag
        invariant |fs| == 0 ==> tag != 0
        invariant |fs| > 0 && pos == start ==> forall i :: 0 <= i < |fs| ==> fs[i].tag != tag
        decreases |fs| + start - if pos > start then pos else pos + |fs|
      {
        if Tag() == tag {
          return true;
        }
        more := Next();
      }
      return false;
    }
  }
}
