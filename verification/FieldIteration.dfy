/** The cyclic iterator over the fields of a message (pb_common.c). */
module FieldIteration {
  import opened Descriptor
  import opened Decoding

  class FieldIter {
    const start: seq<Field>
    var pos: nat             // the terminator is at |start|; only an empty list leaves pos there
    var requiredIndex: nat
    var cell: nat            // where pData points

    /** Everything the iterator carries is a function of its position. */
    ghost predicate Valid()
      reads this
    {
      (forall i :: 0 <= i < |start| ==> start[i].tag != 0)
      && (if start == [] then pos == 0 && requiredIndex == 0 && cell == 0
          else pos < |start| && requiredIndex == RequiredBefore(start, pos) && cell == CellOf(start, pos))
    }

    /** The tag at the position; the terminator has tag 0. */
    function Tag(): nat
      reads this
    {
      if pos < |start| then start[pos].tag else 0
    }

    /** pb_field_iter_begin */
    constructor (fields: seq<Field>)
      requires forall i :: 0 <= i < |fields| ==> fields[i].tag != 0
      ensures Valid() && start == fields && pos == 0
    {
      start := fields;
      pos, requiredIndex, cell := 0, 0, 0;
    }

    /** pb_field_iter_next: false when it wrapped around, or the message type is empty. */
    method Next() returns (more: bool)
      requires Valid()
      modifies this
      ensures Valid()
      ensures more <==> old(pos) + 1 < |start|
      ensures pos == if more then old(pos) + 1 else 0
    {
      if Tag() == 0 {
        return false;
      }
      var prev := start[pos];
      pos := pos + 1;
      if Tag() == 0 {
        pos, requiredIndex, cell := 0, 0, 0;
        return false;
      }
      if prev.htype.Oneof? && start[pos].htype.Oneof? && start[pos].joined {
        return true;
      }
      if prev.htype.Required? {
        requiredIndex := requiredIndex + 1;
      }
      cell := cell + 1;
      return true;
    }

    /** pb_field_iter_find: once around from the current position, and back to it when in vain. */
    method Find(tag: nat) returns (found: bool)
      requires Valid()
      modifies this
      ensures Valid()
      ensures start != [] ==> (found <==> Decoding.Find(start, old(pos), tag).Some?)
      ensures start == [] ==> (found <==> tag == 0)
      ensures start != [] && found ==> pos == Decoding.Find(start, old(pos), tag).value
      ensures !found ==> pos == old(pos)
    {
      var from := pos;
      if Tag() == tag {
        return true;
      }
      var more := Next();
      ghost var left := |start| - 1;
      while pos != from
        invariant Valid()
        invariant start != [] ==>
                  0 <= left < |start|
                  && pos == (if from + (|start| - left) < |start| then from + (|start| - left) else from - left)
        invariant start == [] ==> pos == from && tag != 0
        invariant start != [] ==> Decoding.Find(start, from, tag) == Search(start, tag, pos, left)
        decreases left
      {
        if Tag() == tag {
          return true;
        }
        more := Next();
        left := left - 1;
      }
      return false;
    }
  }
}
