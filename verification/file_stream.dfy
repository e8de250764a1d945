/** The input file as an in-memory byte sequence with a read position,
    read the way Python's binary `read(size)` reads a file. */
module FileStream {
  import opened BigEndian
  import opened Wrappers

  datatype Stream = Stream(data: seq<Byte>, pos: nat) {
    predicate Valid() {
      pos <= |data|
    }

    function Remaining(): nat
      requires Valid()
    {
      |data| - pos
    }
  }

  /** `read(size)` of the `BufferedReader` that `open(path, 'rb')` returns:
      at most `size` bytes, fewer when the file ends first (a short read is
      not an error); `-1` reads to the end, and any size below `-1` raises
      `ValueError`. */
  function Read(st: Stream, size: int): (r: Option<(seq<Byte>, Stream)>)
    requires st.Valid()
    ensures r.Some? <==> size >= -1
    ensures r.Some? ==> r.value.1.Valid() && r.value.1.data == st.data && st.pos <= r.value.1.pos
    ensures r.Some? ==> r.value.0 == st.data[st.pos..r.value.1.pos]
    ensures 0 <= size <= st.Remaining() ==> r.Some? && |r.value.0| == size
    ensures (size == -1 || size > st.Remaining()) ==> r.Some? && r.value.1.pos == |st.data|
  {
    if size < -1 then None
    else
      var end := if size == -1 || size > st.Remaining() then |st.data| else st.pos + size;
      Some((st.data[st.pos..end], Stream(st.data, end)))
  }

  /** Two reads of `a` and then `b` bytes return what one read of `a + b`
      bytes returns, split after the first `a`, and stop at the same place. */
  lemma ReadSplit(st: Stream, a: nat, b: nat)
    requires st.Valid()
    ensures var first := Read(st, a).value;
      var second := Read(first.1, b).value;
      var whole := Read(st, a + b).value;
      first.0 + second.0 == whole.0 && second.1 == whole.1
  {
    var first := Read(st, a).value;
    var second := Read(first.1, b).value;
    var whole := Read(st, a + b).value;
    assert st.data[st.pos..first.1.pos] + st.data[first.1.pos..second.1.pos]
      == st.data[st.pos..second.1.pos];
  }

  /** A `read(size)` whose result must fill a numpy buffer of exactly `size`
      bytes: a negative size (a negative array dimension) or a short read fails. */
  function ReadExactly(st: Stream, size: int): (r: Option<(seq<Byte>, Stream)>)
    requires st.Valid()
    ensures r.Some? <==> 0 <= size <= st.Remaining()
    ensures r.Some? ==> |r.value.0| == size
    ensures r.Some? ==> r.value.0 == st.data[st.pos..st.pos + size]
    ensures r.Some? ==> r.value.1 == Stream(st.data, st.pos + size)
  {
    if size < 0 then None
    else
      var (chunk, next) := Read(st, size).value;
      if |chunk| < size then None else Some((chunk, next))
  }
}
