/** DynamicBuffer (src/libs/netcomm/utils/dynamic_buffer.cpp): the packed list of records in a message, which
    grows by doubling, and the iterator that reads it. */
module ListBuffer {
  import opened ScalarText
  import opened NetCodec

  const ELEMENT_HEADER: nat := 2
  const MAX_ELEMENT: nat := 65533
  const INITIAL_SIZE: nat := 1024
  const MAX_BUFFER: nat := 0xFFFF_FFFF

  // ---- The bytes of the list ----

  /** A record behind its length in network byte order. */
  function Element(data: seq<Byte>): seq<Byte>
    requires |data| <= MAX_ELEMENT
  {
    [|data| / 256, |data| % 256] + data
  }

  ghost predicate Packable(records: seq<seq<Byte>>) {
    forall r :: r in records ==> |r| <= MAX_ELEMENT
  }

  function Packed(records: seq<seq<Byte>>): seq<Byte>
    requires Packable(records)
  {
    if records == [] then [] else Element(records[0]) + Packed(records[1..])
  }

  lemma {:induction false} PackedMore(records: seq<seq<Byte>>, data: seq<Byte>)
    requires Packable(records) && |data| <= MAX_ELEMENT
    ensures Packable(records + [data]) && Packed(records + [data]) == Packed(records) + Element(data)
  {
    hide Element, Packable;
    PackableMore(records, data);
    if records == [] {
      assert records + [data] == [data] && [data][1..] == [];
    } else {
      PackableRest(records);
      PackedMore(records[1..], data);
      FirstAndLast(records, data);
      Regrouped(Element(records[0]), Packed(records[1..]), Element(data));
    }
  }

  lemma PackableMore(records: seq<seq<Byte>>, data: seq<Byte>)
    requires Packable(records) && |data| <= MAX_ELEMENT
    ensures Packable(records + [data])
  {
  }

  lemma FirstAndLast<T>(s: seq<T>, x: T)
    requires s != []
    ensures (s + [x])[0] == s[0] && (s + [x])[1..] == s[1..] + [x]
  {
  }

  lemma Regrouped<T>(a: seq<T>, b: seq<T>, c: seq<T>)
    ensures a + (b + c) == a + b + c
  {
  }

  /** The length field at the start of some bytes. */
  function LengthField(b: seq<Byte>): nat
    requires |b| >= ELEMENT_HEADER
  {
    256 * b[0] as int + b[1] as int
  }

  /** The first record of some bytes, or None where it would be read past their end. */
  function First(b: seq<Byte>): (r: Option<seq<Byte>>)
    ensures r.Some? ==> ELEMENT_HEADER + |r.value| <= |b|
  {
    if |b| < ELEMENT_HEADER || |b| < ELEMENT_HEADER + LengthField(b) then None
    else Some(b[ELEMENT_HEADER..ELEMENT_HEADER + LengthField(b)])
  }

  function Rest(b: seq<Byte>): seq<Byte>
    requires First(b).Some?
  {
    b[ELEMENT_HEADER + |First(b).value|..]
  }

  /** The first n records of some bytes. */
  function Unpacked(b: seq<Byte>, n: nat): Option<seq<seq<Byte>>>
    decreases n
  {
    if n == 0 then Some([])
    else if First(b).None? then None
    else Prepended([First(b).value], Unpacked(Rest(b), n - 1))
  }

  lemma FirstPacked(data: seq<Byte>, b: seq<Byte>)
    requires |data| <= MAX_ELEMENT
    ensures First(Element(data) + b) == Some(data) && Rest(Element(data) + b) == b
  {
    var all := Element(data) + b;
    assert LengthField(all) == |data|;
    assert all[ELEMENT_HEADER..ELEMENT_HEADER + |data|] == data;
  }

  /** What was packed is read back record by record. */
  lemma {:induction false} UnpackPacked(records: seq<seq<Byte>>, n: nat)
    requires Packable(records) && n <= |records|
    ensures Unpacked(Packed(records), n) == Some(records[..n])
    decreases n
  {
    hide First, Rest, Element, Packable;
    if n > 0 {
      PackableRest(records);
      FirstPacked(records[0], Packed(records[1..]));
      UnpackPacked(records[1..], n - 1);
      FirstAndMore(records, n);
    }
  }

  lemma PackableRest(records: seq<seq<Byte>>)
    requires Packable(records) && records != []
    ensures Packable(records[1..]) && |records[0]| <= MAX_ELEMENT
  {
  }

  lemma FirstAndMore<T>(s: seq<T>, n: nat)
    requires 0 < n <= |s|
    ensures [s[0]] + s[1..][..n - 1] == s[..n]
  {
  }

  // ---- Room for a record ----

  /** increase */
  function Increased(capacity: nat): Option<nat> {
    if capacity >= MAX_BUFFER / 2 then if capacity == MAX_BUFFER then None else Some(MAX_BUFFER)
    else Some(2 * capacity)
  }

  /** The capacity once a record of n bytes was appended, or None where that throws: the buffer is increased at
      most once. */
  function Added(size: nat, capacity: nat, n: nat): Option<nat> {
    if n > MAX_ELEMENT then None
    else if size + n + ELEMENT_HEADER <= capacity then Some(capacity)
    else if Increased(capacity).Some? && size + n + ELEMENT_HEADER <= Increased(capacity).value then Increased(capacity)
    else None
  }

  function Total(sizes: seq<nat>): nat {
    if sizes == [] then 0 else Total(sizes[..|sizes| - 1]) + sizes[|sizes| - 1] + ELEMENT_HEADER
  }

  /** The capacity once records of these sizes were appended to a new buffer. */
  function Grown(sizes: seq<nat>): Option<nat> {
    if sizes == [] then Some(INITIAL_SIZE)
    else
      var before := Grown(sizes[..|sizes| - 1]);
      if before.None? then None else Added(Total(sizes[..|sizes| - 1]), before.value, sizes[|sizes| - 1])
  }

  lemma GrownMore(sizes: seq<nat>, n: nat)
    ensures Total(sizes + [n]) == Total(sizes) + n + ELEMENT_HEADER
    ensures Grown(sizes + [n]) == if Grown(sizes).None? then None else Added(Total(sizes), Grown(sizes).value, n)
  {
    assert (sizes + [n])[..|sizes|] == sizes;
  }

  /** A record that found no room leaves none for what comes after it. */
  lemma {:induction false} NoRoomLater(sizes: seq<nat>, more: seq<nat>)
    requires Grown(sizes).None?
    ensures Grown(sizes + more).None?
    decreases |more|
  {
    if more == [] {
      assert sizes + more == sizes;
    } else {
      var n := |more| - 1;
      assert sizes + more == sizes + more[..n] + [more[n]];
      NoRoomLater(sizes, more[..n]);
      GrownMore(sizes + more[..n], more[n]);
    }
  }

  lemma {:induction false} GrownBounds(sizes: seq<nat>)
    requires Grown(sizes).Some?
    ensures INITIAL_SIZE <= Grown(sizes).value <= MAX_BUFFER && Total(sizes) <= Grown(sizes).value
    ensures forall n :: n in sizes ==> n <= MAX_ELEMENT
    decreases |sizes|
  {
    if sizes != [] {
      GrownBounds(sizes[..|sizes| - 1]);
      assert sizes == sizes[..|sizes| - 1] + [sizes[|sizes| - 1]];
    }
  }

  /** Records of at most 1022 bytes are refused exactly if together they exceed four gigabytes. */
  lemma {:induction false} SmallRecordsFit(sizes: seq<nat>)
    requires forall n :: n in sizes ==> n + ELEMENT_HEADER <= INITIAL_SIZE
    ensures Grown(sizes).Some? <==> Total(sizes) <= MAX_BUFFER
    decreases |sizes|
  {
    if Grown(sizes).Some? { GrownBounds(sizes); }
    if sizes != [] {
      var before, n := sizes[..|sizes| - 1], sizes[|sizes| - 1];
      assert n in sizes && forall k :: k in before ==> k in sizes;
      SmallRecordsFit(before);
      if Grown(before).Some? { GrownBounds(before); }
    }
  }

  /** The first record finds room exactly with at most 2046 bytes, although up to 65533 are promised. */
  lemma FirstRecordIsSmall(n: nat)
    ensures Grown([n]).Some? <==> n <= 2046
  {
    GrownMore([], n);
    assert [] + [n] == [n];
  }

  /** A record finds room exactly if it has at most 65533 bytes and fits, with two more for its length, into the buffer
      as it is or as it is after growing once: twice as large, or four gigabytes less a byte from half of that on. */
  lemma RoomExactly(size: nat, capacity: nat, n: nat)
    requires capacity <= 4294967295
    ensures var larger := if capacity < 2147483647 then 2 * capacity else 4294967295;
            && (Added(size, capacity, n).Some? <==>
               n <= 65533 && (size + n + 2 <= capacity || size + n + 2 <= larger))
            && (Added(size, capacity, n).Some? ==>
               Added(size, capacity, n).value == if size + n + 2 <= capacity then capacity else larger)
  {
  }

  /** A record in the buffer: its length in two bytes, the higher one first, and its bytes. */
  lemma ElementBytes(data: seq<Byte>)
    requires |data| <= 65533
    ensures var e := Element(data);
            && |e| == |data| + 2 && 256 * e[0] as int + e[1] as int == |data| && e[2..] == data
            && First(e) == Some(data)
  {
    assert Element(data)[2..2 + |data|] == data;
  }

  function Sizes(records: seq<seq<Byte>>): seq<nat> {
    seq(|records|, i requires 0 <= i < |records| => |records[i]|)
  }

  lemma SizesMore(records: seq<seq<Byte>>, data: seq<Byte>)
    ensures Sizes(records + [data]) == Sizes(records) + [|data|]
  {
  }

  lemma {:induction false} PackedSize(records: seq<seq<Byte>>)
    requires Packable(records)
    ensures |Packed(records)| == Total(Sizes(records))
    decreases |records|
  {
    if records != [] {
      var before, last := records[..|records| - 1], records[|records| - 1];
      assert records == before + [last];
      PackedSize(before);
      PackedMore(before, last);
      SizesMore(before, last);
      GrownMore(Sizes(before), |last|);
    }
  }

  /** What next gives: an exception, a record that reaches past the end of the buffer, or a record. */
  datatype Fetched = NoElement | PastEnd | Fetched(data: seq<Byte>)

  function FetchedOf(r: Option<seq<Byte>>): Fetched {
    if r.Some? then Fetched(r.value) else PastEnd
  }

  class DynamicBuffer {
    /** The used part of the buffer, its whole size, and the number of elements as it is counted. */
    var buffer: seq<Byte>
    var bufferSize: nat
    var numElements: nat
    const readOnly: bool
    /** The iterator: where the current record begins, and how many have been fetched. */
    var head: nat
    var fetched: nat

    /** The write constructor. */
    constructor (initial: nat)
      ensures buffer == [] && bufferSize == initial && numElements == 0 && !readOnly
    {
      buffer, bufferSize, numElements, readOnly, head, fetched := [], initial, 0, false, 0, 0;
    }

    /** The read constructor. */
    constructor Read(b: seq<Byte>, n: nat)
      ensures buffer == b && bufferSize == |b| && numElements == n && readOnly && fetched == 0 && Positioned()
              && Remaining() == b
    {
      buffer, bufferSize, numElements, readOnly, head, fetched := b, |b|, n, true, 0, 0;
      new;
      assert buffer[0..] == buffer;
    }

    /** increase; false where it throws. */
    method Increase() returns (ok: bool)
      modifies this`bufferSize
      ensures ok <==> Increased(old(bufferSize)).Some?
      ensures bufferSize == if ok then Increased(old(bufferSize)).value else old(bufferSize)
    {
      if bufferSize >= MAX_BUFFER / 2 {
        if bufferSize == MAX_BUFFER {
          return false;
        }
        bufferSize := MAX_BUFFER;
      } else {
        bufferSize := 2 * bufferSize;
      }
      ok := true;
    }

    /** append; false where it throws, which leaves the list as it was. */
    method Append(data: seq<Byte>) returns (ok: bool)
      modifies this`buffer, this`bufferSize, this`numElements
      ensures ok <==> !readOnly && Added(old(|buffer|), old(bufferSize), |data|).Some?
      ensures !ok ==> buffer == old(buffer) && numElements == old(numElements)
      ensures ok ==>
                && |data| <= MAX_ELEMENT
                && buffer == old(buffer) + Element(data)
                && numElements == (old(numElements) + 1) % 65536
      ensures ok ==> bufferSize == Added(old(|buffer|), old(bufferSize), |data|).value
    {
      if readOnly {
        return false;
      }
      if |data| > 0xFFFF - ELEMENT_HEADER {
        return false;
      }
      if |buffer| + |data| + ELEMENT_HEADER > bufferSize {
        ok := Increase();
        if !ok || |buffer| + |data| + ELEMENT_HEADER > bufferSize {
          return false;
        }
      }
      buffer := buffer + [|data| / 256, |data| % 256] + data;
      assert buffer == old(buffer) + Element(data);
      numElements := (numElements + 1) % 65536;
      ok := true;
    }

    /** The iterator is before the list or at a whole record of it. */
    ghost predicate Positioned()
      reads this
    {
      head <= |buffer| && if fetched == 0 then head == 0 else First(buffer[head..]).Some?
    }

    /** What the iterator has not fetched yet. */
    ghost function Remaining(): seq<Byte>
      requires Positioned()
      reads this
    {
      if fetched == 0 then buffer[head..] else Rest(buffer[head..])
    }

    /** has_next */
    function HasNext(): bool
      reads this
    {
      readOnly && fetched < numElements
    }

    /** next: throws when no element is left, which changes nothing. */
    method Next() returns (f: Fetched)
      requires Positioned()
      modifies this`head, this`fetched
      ensures f.NoElement? <==> !old(HasNext())
      ensures f.NoElement? ==> head == old(head) && fetched == old(fetched)
      ensures old(HasNext()) ==> fetched == old(fetched) + 1 && f == FetchedOf(First(old(Remaining())))
      ensures f.Fetched? ==> Positioned() && Remaining() == Rest(old(Remaining()))
    {
      if !HasNext() {
        return NoElement;
      }
      if fetched > 0 {
        var size := 256 * buffer[head] as int + buffer[head + 1] as int;
        assert buffer[head..][0] == buffer[head] && buffer[head..][1] == buffer[head + 1];
        Onward(buffer, head);
        head := head + ELEMENT_HEADER + size;
      }
      fetched := fetched + 1;
      f := FetchedOf(First(buffer[head..]));
    }
  }

  lemma Onward(b: seq<Byte>, at: nat)
    requires at <= |b| && First(b[at..]).Some?
    ensures at + ELEMENT_HEADER + LengthField(b[at..]) <= |b|
    ensures Rest(b[at..]) == b[at + ELEMENT_HEADER + LengthField(b[at..])..]
  {
  }
}
