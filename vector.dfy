/** The two output iterators the decoder is given (src/base64.h:202-226):
    a `back_insert_iterator` that appends to a `std::vector<std::byte>`, and
    an iterator into a vector that was sized in advance, which overwrites. */
module ByteVectors {
  import opened Base64Types

  /** `std::vector<std::byte>`: its elements, reassigned by each operation. */
  class ByteVector {
    var elems: seq<byte>

    /** `std::vector<std::byte> v(n)`: `n` value-initialised bytes. */
    constructor (n: nat)
      ensures elems == seq(n, _ => 0)
    {
      elems := seq(n, _ => 0);
    }

    /** `push_back`. */
    method PushBack(b: byte)
      modifies this
      ensures elems == old(elems) + [b]
    {
      elems := elems + [b];
    }

    /** `*it = b` for an iterator at position `i`. */
    method Set(i: nat, b: byte)
      requires i < |elems|
      modifies this
      ensures elems == old(elems)[i := b]
    {
      elems := elems[i := b];
    }

    /** `resize(n)`: truncate, or extend with zero bytes. */
    method Resize(n: nat)
      modifies this
      ensures n <= |old(elems)| ==> elems == old(elems)[..n]
      ensures n > |old(elems)| ==> elems == old(elems) + seq(n - |old(elems)|, _ => 0)
    {
      if n <= |elems| {
        elems := elems[..n];
      } else {
        elems := elems + seq(n - |elems|, _ => 0);
      }
    }
  }

  /** An output iterator over a vector: appending, or at a position. */
  datatype OutIter = BackInserter | Position(index: nat)

  /** The iterator after `n` writes. */
  function Advance(it: OutIter, n: nat): (next: OutIter)
    ensures next.Position? <==> it.Position?
    ensures it.Position? ==> next.index == it.index + n
  {
    match it
    case BackInserter => BackInserter
    case Position(i) => Position(i + n)
  }

  /** Room for `n` writes: unlimited for the appending iterator, the
      elements from the position on for the other. */
  predicate HasRoom(elems: seq<byte>, it: OutIter, n: nat)
  {
    it.Position? ==> it.index + n <= |elems|
  }

  /** The elements after `bs` were written through `it`, one byte after the
      other. */
  function Store(elems: seq<byte>, it: OutIter, bs: seq<byte>): (r: seq<byte>)
    requires HasRoom(elems, it, |bs|)
    ensures |r| == if it.Position? then |elems| else |elems| + |bs|
  {
    match it
    case BackInserter => elems + bs
    case Position(i) => elems[..i] + bs + elems[i + |bs|..]
  }

  /** Writing `bs` and then `more` is writing `bs + more`. */
  lemma StoreMore(elems: seq<byte>, it: OutIter, bs: seq<byte>, more: seq<byte>)
    requires HasRoom(elems, it, |bs| + |more|)
    ensures HasRoom(Store(elems, it, bs), Advance(it, |bs|), |more|)
    ensures Store(Store(elems, it, bs), Advance(it, |bs|), more) == Store(elems, it, bs + more)
  {
    if it.Position? {
      var i := it.index;
      var n := |bs|;
      var head := elems[..i] + bs;
      var e1 := head + elems[i + n..];
      assert e1 == Store(elems, it, bs);
      assert e1[..i + n] == head;
      assert e1[i + n..] == elems[i + n..];
      assert e1[i + n + |more|..] == elems[i + n..][|more|..] == elems[i + n + |more|..];
      assert head + more == elems[..i] + (bs + more);
    } else {
      assert (elems + bs) + more == elems + (bs + more);
    }
  }

  /** `*out++ = b`: one write through the iterator, which then moves on. */
  method Put(v: ByteVector, it: OutIter, b: byte) returns (next: OutIter)
    requires HasRoom(v.elems, it, 1)
    modifies v
    ensures v.elems == Store(old(v.elems), it, [b])
    ensures next == Advance(it, 1)
  {
    match it
    case BackInserter =>
      v.PushBack(b);
      next := BackInserter;
    case Position(i) =>
      v.Set(i, b);
      next := Position(i + 1);
  }
}
