/** The class links of hasse.h: a link (from, to) between two classes, given
    by their 0-based positions in the partition, and the growable link array
    that build_class_links fills and removeTransitiveLinks compacts. */
module Links {

  datatype Link = Link(from: int, to: int)

  /** t_link_array: a buffer whose length is the capacity, of which the first
      `size` cells are in use. The C array starts out as NULL with capacity
      0; here it is a buffer of length 0. */
  class LinkArray {
    var data: array<Link>
    var size: int

    ghost predicate Valid()
      reads this
    {
      0 <= size <= data.Length
    }

    /** The links in use, in array order. */
    function Contents(): seq<Link>
      reads this, data
      requires Valid()
    {
      data[..size]
    }

    /** No links and no buffer (lines 309-311 of tarjan.c). */
    constructor ()
      ensures Valid() && size == 0 && data.Length == 0 && fresh(data)
    {
      data := new Link[0];
      size := 0;
    }

    /** push_link: when the buffer is full it is reallocated with capacity 8,
        or twice the old one from 8 on, keeping the links in use; then
        (a, b) goes in at position size. */
    method Push(a: int, b: int)
      requires Valid()
      modifies this, data
      ensures Valid() && Contents() == old(Contents()) + [Link(a, b)]
      ensures data.Length == if old(size) < old(data.Length) then old(data.Length)
                             else if old(data.Length) < 8 then 8 else 2 * old(data.Length)
      ensures data == old(data) || fresh(data)
    {
      if size >= data.Length {
        var nc := if data.Length < 8 then 8 else data.Length * 2;
        var nd := new Link[nc];
        forall i | 0 <= i < size {
          nd[i] := data[i];
        }
        data := nd;
      }
      data[size] := Link(a, b);
      size := size + 1;
    }

    /** link_exists: whether (from, to) is among the links in use. */
    method Exists(from: int, to: int) returns (b: bool)
      requires Valid()
      ensures b <==> Link(from, to) in Contents()
    {
      var i := 0;
      while i < size
        invariant 0 <= i <= size
        invariant Link(from, to) !in data[..i]
      {
        if data[i].from == from && data[i].to == to {
          assert data[..size][i] == Link(from, to);
          return true;
        }
        assert data[..i + 1] == data[..i] + [data[i]];
        i := i + 1;
      }
      return false;
    }
  }
}
