/** Asking for a single value over the network: the answer of ConfigNetworkHandler::send_value
    (src/libs/config/net_handler.cpp, net_handler.h) against the getters of NetConfValueIterator
    (src/libs/config/netconf.cpp). */
module ValueMessage {
  import opened ScalarText
  import opened CStrings
  import opened NetCodec

  /** sizeof(config_descriptor_t) */
  const DESCRIPTOR: nat := 132

  datatype Message = Message(id: Byte, payload: seq<Byte>)

  // ---- send_value ----

  /** A count as an int16_t. */
  function Short(n: nat): int {
    if n % 65536 >= 32768 then n % 65536 - 65536 else n % 65536
  }

  /** The number of values that are copied. For signed numbers and truth values the count is held in an int16_t,
      so that the loop does not run for lists of 32768 and more. */
  function Copied(e: Entity): (n: nat)
    ensures n <= Count(e.values) || !e.isList
  {
    if !e.isList then 1
    else if e.values.Ints? || e.values.Bools? then if Short(Count(e.values)) < 0 then 0 else Short(Count(e.values))
    else Count(e.values) % 65536
  }

  function PayloadSize(e: Entity): nat {
    DESCRIPTOR + if e.values.Strings? then Offset(e.values.strings, |e.values.strings|)
        else 4 * if e.isList then Count(e.values) % 65536 else 1
  }

  /** The fields of the descriptor in a message that is large enough. */
  ghost predicate DescriptorFields(b: seq<Byte>, e: Entity)
    requires |b| >= DESCRIPTOR
  {
    && (forall i :: 0 <= i < |Shortened(e.path)| && i < PATH_LENGTH ==> b[i] == Shortened(e.path)[i] as int)
    && (forall i :: |Shortened(e.path)| <= i < PATH_LENGTH ==> b[i] == 0)
    && ReadU16(b, 128) == (if e.isDefault then 1 else 0)
    && ReadU16(b, 130) == (if e.isList then Count(e.values) % 65536 else 0)
  }

  ghost predicate Carries(m: Message, e: Entity)
    requires !e.isList ==> Count(e.values) == 1
  {
    && m.id == TypeOf(e.values) && |m.payload| == PayloadSize(e) && DescriptorFields(m.payload, e)
    && if e.values.Strings? then StringFields(m.payload, DESCRIPTOR, e.values.strings, |e.values.strings|)
       else WordFields(m.payload, DESCRIPTOR, e.values, Copied(e)) && forall k ::
           DESCRIPTOR + 4 * Copied(e) <= k < |m.payload| ==> m.payload[k] == 0
  }

  /** The message for numbers, byte by byte: the words from byte 132 on, as many as the count in 16 bits says, but for
      signed numbers and truth values none if that count is 32768 or more; what is not set is zero. */
  lemma MessageBytes(m: Message, e: Entity, k: nat)
    requires (!e.isList ==> Count(e.values) == 1) && Carries(m, e) && !e.values.Strings?
    ensures var count := if e.isList then Count(e.values) % 65536 else 1;
            var sent := if (e.values.Ints? || e.values.Bools?) && e.isList && count >= 32768 then 0 else count;
            && |m.payload| == 132 + 4 * count && m.id == TypeOf(e.values)
            && (forall i :: 0 <= i < Length(e.path) && i < 127 ==> m.payload[i] == e.path[i] as int)
            && (forall i :: Length(e.path) <= i < 128 ==> m.payload[i] == 0) && m.payload[127] == 0
            && m.payload[128] == (if e.isDefault then 1 else 0) && m.payload[129] == 0
            && m.payload[130] == (if e.isList then count % 256 else 0)
            && m.payload[131] == (if e.isList then count / 256 else 0)
            && (k < sent ==> k < Count(e.values) && WordBytes(m.payload, 132 + 4 * k, WordOf(e.values, k)))
            && (132 + 4 * sent <= k < |m.payload| ==> m.payload[k] == 0)
  {
    hide WordBytes, ReadU16, ReadU32, WordOf;
    LittleEndian(m.payload, 128);
    LittleEndian(m.payload, 130);
    var sent := Copied(e);
    if k < sent { LittleEndian(m.payload, 132 + 4 * k); }
  }

  /** The path, the flag and the count of a cleared message. */
  method PutDescriptor(data: array<Byte>, e: Entity)
    requires data.Length >= DESCRIPTOR && IsText(e.path) && forall k :: 0 <= k < data.Length ==> data[k] == 0
    modifies data
    ensures DescriptorFields(data[..], e)
    ensures forall k :: DESCRIPTOR <= k < data.Length ==> data[k] == 0
  {
    var path := Shortened(e.path);
    var i := 0;
    while i < |path| && i < PATH_LENGTH
      invariant 0 <= i <= |path| && i <= PATH_LENGTH
      invariant forall k :: 0 <= k < i ==> data[k] == path[k] as int
      invariant forall k :: i <= k < data.Length ==> data[k] == 0
    {
      data[i] := path[i] as int;
      i := i + 1;
    }
    data[128] := if e.isDefault then 1 else 0;
    PutU16(data, 130, if e.isList then Count(e.values) else 0);
  }

  lemma DescriptorFrame(b: seq<Byte>, b': seq<Byte>, e: Entity)
    requires |b| >= DESCRIPTOR && DescriptorFields(b, e) && |b'| == |b| && forall k :: 0 <= k < DESCRIPTOR ==>
             b'[k] == b[k]
    ensures DescriptorFields(b', e)
  {
  }

  /** send_value, up to handing the message to the hub. */
  method SendValue(e: Entity) returns (m: Message)
    requires Texts(e) && (e.values.Strings? ==> forall s :: s in e.values.strings ==> |s| < 65536)
    ensures Carries(m, e)
  {
    var size;
    if e.values.Strings? {
      size := StringsSize(e.values.strings);
    } else {
      size := 4 * if e.isList then Count(e.values) % 65536 else 1;
    }
    var data := new Byte[DESCRIPTOR + size](_ => 0);
    PutDescriptor(data, e);
    ghost var before := data[..];
    if e.values.Strings? {
      PutStrings(data, DESCRIPTOR, e.values.strings);
    } else {
      PutWords(data, DESCRIPTOR, e.values, Copied(e));
    }
    DescriptorFrame(before, data[..], e);
    m := Message(TypeOf(e.values), data[..]);
  }

  // ---- The getters of the iterator ----

  /** The constructor takes only value messages that have something after the descriptor. */
  predicate IsAnswer(m: Message) {
    FLOAT_VALUE <= m.id <= STRING_VALUE + 1 && |m.payload| > DESCRIPTOR
  }

  /** The message type that a getter insists on. For lists of truth values it is the one for signed numbers. */
  function Expected(kind: Byte, list: bool): Byte {
    if kind == BOOL_VALUE && list then INT_VALUE else kind
  }

  /** What the getter for values of a kind, alone or as a list, returns: none where it throws or would read past
      the end. A list of one element counts as no list. */
  function Get(m: Message, kind: Byte, list: bool): Option<Values> {
    if !IsAnswer(m) || m.id != Expected(kind, list) then None
    else
      var n := ReadU16(m.payload, 130);
      if (list && n <= 1) || (!list && n > 0) then None
      else if kind == STRING_VALUE then
        var ss := StringsFrom(m.payload, DESCRIPTOR, ReadCount(n)); if ss.None? then None else Some(Strings(ss.value))
      else if DESCRIPTOR + 4 * ReadCount(n) > |m.payload| then None
      else Some(ValuesOf(kind, WordsFrom(m.payload, DESCRIPTOR, ReadCount(n))))
  }

  /** The getters, with their loops over the list. */
  method GetValues(m: Message, kind: Byte, list: bool) returns (r: Option<Values>)
    ensures r == Get(m, kind, list)
  {
    if !IsAnswer(m) || m.id != Expected(kind, list) {
      return None;
    }
    var n := ReadU16(m.payload, 130);
    if (list && n <= 1) || (!list && n > 0) {
      return None;
    }
    if kind == STRING_VALUE {
      var ss := ReadStrings(m.payload, DESCRIPTOR, ReadCount(n));
      return if ss.None? then None else Some(Strings(ss.value));
    }
    if DESCRIPTOR + 4 * ReadCount(n) > |m.payload| {
      return None;
    }
    var ws := ReadWords(m.payload, DESCRIPTOR, ReadCount(n));
    return Some(ValuesOf(kind, ws));
  }

  // ---- Which values arrive ----

  predicate AllZero(v: Values) {
    v.Ints? ==> forall i :: 0 <= i < |v.ints| ==> v.ints[i] == 0
  }

  /** The lists of numbers that arrive: of two to 65535 elements, none of truth values, and of signed numbers only
      up to 32767 elements unless they are all zero. */
  predicate Arrives(v: Values) {
    && 2 <= Count(v) < 65536
    && !v.Bools?
    && (v.Ints? && Count(v) >= 32768 ==> AllZero(v))
  }

  lemma ZeroWords(b: seq<Byte>, n: nat)
    requires DESCRIPTOR + 4 * n <= |b| && forall k :: DESCRIPTOR <= k < |b| ==> b[k] == 0
    ensures ValuesOf(INT_VALUE, WordsFrom(b, DESCRIPTOR, n)) == Ints(seq(n, _ => 0))
  {
    var ws := WordsFrom(b, DESCRIPTOR, n);
    assert forall j :: 0 <= j < n ==> ws[j] == 0;
    assert ValuesOf(INT_VALUE, ws).ints == seq(n, _ => 0);
  }

  lemma CountRead(m: Message, e: Entity)
    requires Texts(e) && Carries(m, e)
    ensures |m.payload| == PayloadSize(e) >= DESCRIPTOR && m.id == TypeOf(e.values)
    ensures ReadU16(m.payload, 130) == if e.isList then Count(e.values) % 65536 else 0
  {
  }

  lemma ValuesCount(kind: Byte, ws: seq<Uint32>)
    ensures Count(ValuesOf(kind, ws)) == |ws|
  {
  }

  lemma ZerosOnly(v: Values, n: nat)
    requires v.Ints? && |v.ints| == n
    ensures v == Ints(seq(n, _ => 0)) <==> AllZero(v)
  {
    if AllZero(v) { assert v.ints == seq(n, _ => 0); }
  }

  /** Asking for numbers gives back what was there if and only if it is a single value or a list that arrives. In
      all other cases the answer is an exception, or, for long lists of signed numbers, zeros. */
  lemma NumbersArrive(m: Message, e: Entity)
    requires Texts(e) && !e.values.Strings? && Carries(m, e)
    ensures Get(m, TypeOf(e.values), e.isList) == Some(e.values) <==> (e.isList ==> Arrives(e.values))
  {
    hide WordFields, WordsFrom, ValuesOf, AllZero, DescriptorFields;
    CountRead(m, e);
    var n, v := Count(e.values), e.values;
    if !e.isList {
      WordsRead(m.payload, DESCRIPTOR, v);
    } else if 2 <= n < 65536 && !v.Bools? {
      if v.Ints? && n >= 32768 {
        ZeroWords(m.payload, n);
        ZerosOnly(v, n);
      } else {
        WordsRead(m.payload, DESCRIPTOR, v);
      }
    } else if n >= 65536 && !v.Bools? {
      TooMany(m, e);
    }
  }

  lemma TooMany(m: Message, e: Entity)
    requires Texts(e) && !e.values.Strings? && Carries(m, e) && e.isList && Count(e.values) >= 65536
    ensures Get(m, TypeOf(e.values), true) != Some(e.values)
  {
    hide WordFields, WordsFrom, ValuesOf, DescriptorFields;
    CountRead(m, e);
    var n := Count(e.values) % 65536;
    if DESCRIPTOR + 4 * ReadCount(n) <= |m.payload| {
      ValuesCount(TypeOf(e.values), WordsFrom(m.payload, DESCRIPTOR, ReadCount(n)));
      WordsCount(m.payload, ReadCount(n));
    }
  }

  /** A single value does not arrive where a list is asked for, nor a list where a single value is. */
  lemma AskedOtherwise(m: Message, e: Entity, kind: Byte)
    requires (!e.isList ==> Count(e.values) == 1) && Carries(m, e) && (e.values.Strings? ==> Count(e.values) < 65536)
    ensures Get(m, kind, !e.isList).None?
  {
    hide StringFields, WordFields, StringsFrom, WordsFrom, ValuesOf;
  }

  lemma WordsCount(b: seq<Byte>, n: nat)
    requires DESCRIPTOR + 4 * n <= |b|
    ensures |WordsFrom(b, DESCRIPTOR, n)| == n
  {
  }

  /** Strings that can be sent arrive if and only if there is one alone, or a list of two to 65535 of them. */
  lemma StringsArrive(m: Message, e: Entity)
    requires Texts(e) && e.values.Strings? && Carries(m, e) && forall s :: s in e.values.strings ==> Sendable(s)
    ensures Get(m, STRING_VALUE, e.isList) == Some(e.values) <==> (e.isList ==> 2 <= |e.values.strings| < 65536)
  {
    hide StringAt, StringFields, StringsFrom, DescriptorFields, IsText, Sendable, Offset;
    CountRead(m, e);
    var ss := e.values.strings;
    var n := if e.isList then |ss| % 65536 else 0;
    NoOffset(ss);
    if ss == [] {
    } else {
      SomeOffset(ss);
      StringsRead(m.payload, DESCRIPTOR, ss, 0, if ReadCount(n) <= |ss| then ReadCount(n) else 0);
      assert |ss| == ReadCount(n) ==> ss[0..ReadCount(n)] == ss;
    }
  }

  lemma SomeOffset(ss: seq<string>)
    requires ss != []
    ensures Offset(ss, |ss|) > 0
  {
  }
}
