/** One record of a configuration list message: ConfigListContent::append
    (src/libs/config/net_list_content.cpp) against the decoder in NetworkConfiguration::inbound_received
    (src/libs/config/netconf.cpp), over the structures of src/libs/config/net_messages.h. */
module NetCodec {
  import opened ScalarText
  import opened CStrings

  type Byte = n: int | 0 <= n < 256

  const PATH_LENGTH: nat := 128
  const HEADER: nat := 136
  const STRING_HEADER: nat := 4

  const FLOAT_VALUE: Byte := 30
  const UINT_VALUE: Byte := 31
  const INT_VALUE: Byte := 32
  const BOOL_VALUE: Byte := 33
  const STRING_VALUE: Byte := 34

  /** The values of one entry. A float is carried as its 32 bits. */
  datatype Values =
    | Floats(bits: seq<Uint32>)
    | Uints(uints: seq<Uint32>)
    | Ints(ints: seq<Int32>)
    | Bools(bools: seq<bool>)
    | Strings(strings: seq<string>)

  datatype Entity = Entity(path: string, isDefault: bool, isList: bool, values: Values)

  function Count(v: Values): nat {
    match v
    case Floats(bits) => |bits|
    case Uints(uints) => |uints|
    case Ints(ints) => |ints|
    case Bools(bools) => |bools|
    case Strings(strings) => |strings|
  }

  function TypeOf(v: Values): Byte {
    match v
    case Floats(_) => FLOAT_VALUE
    case Uints(_) => UINT_VALUE
    case Ints(_) => INT_VALUE
    case Bools(_) => BOOL_VALUE
    case Strings(_) => STRING_VALUE
  }

  /** A signed number as the 32 bits of its two's complement. */
  function Bits(n: Int32): Uint32 {
    if n < 0 then n + TWO_32 else n
  }

  function Signed(w: Uint32): Int32 {
    if w >= TWO_31 then w - TWO_32 else w
  }

  /** The 32-bit word that is sent for a number. */
  function WordOf(v: Values, j: nat): Uint32
    requires !v.Strings? && j < Count(v)
  {
    match v
    case Floats(bits) => bits[j]
    case Uints(uints) => uints[j]
    case Ints(ints) => Bits(ints[j])
    case Bools(bools) => if bools[j] then 1 else 0
  }

  // ---- Texts as C strings ----

  predicate IsText(s: string) {
    forall i :: 0 <= i < |s| ==> s[i] as int < 256
  }

  /** What strncpy keeps of a path: at most 127 characters, so that a terminator remains. */
  function Shortened(path: string): string {
    path[..if Length(path) < PATH_LENGTH - 1 then Length(path) else PATH_LENGTH - 1]
  }

  // ---- Little-endian numbers ----

  function ReadU16(b: seq<Byte>, i: nat): nat
    requires i + 2 <= |b|
  {
    b[i] as int + 256 * b[i + 1] as int
  }

  function ReadU32(b: seq<Byte>, i: nat): Uint32
    requires i + 4 <= |b|
  {
    b[i] as int + 256 * b[i + 1] as int + 65536 * b[i + 2] as int + 16777216 * b[i + 3] as int
  }

  // ---- The layout of a record ----

  /** How far into the body the j-th of several strings starts. */
  function Offset(ss: seq<string>, j: nat): nat
    requires j <= |ss|
  {
    if j == 0 then 0 else Offset(ss, j - 1) + STRING_HEADER + |ss[j - 1]| + 1
  }

  lemma {:induction false} OffsetGrows(ss: seq<string>, i: nat, j: nat)
    requires i <= j <= |ss|
    ensures Offset(ss, i) <= Offset(ss, j)
    ensures i < j ==> Offset(ss, i) + STRING_HEADER + |ss[i]| + 1 <= Offset(ss, j)
    decreases j
  {
    if i < j { OffsetGrows(ss, i, j - 1); }
  }

  function BodySize(v: Values): nat {
    if v.Strings? then Offset(v.strings, |v.strings|) else 4 * Count(v)
  }

  ghost predicate PathField(b: seq<Byte>, path: string)
    requires |b| >= HEADER
  {
    && (forall i :: 0 <= i < |path| && i < PATH_LENGTH ==> b[i] == path[i] as int)
    && (forall i :: |path| <= i < PATH_LENGTH ==> b[i] == 0)
  }

  ghost predicate HeaderFields(b: seq<Byte>, e: Entity) {
    && |b| >= HEADER
    && PathField(b, Shortened(e.path))
    && ReadU16(b, 128) == (if e.isDefault then 1 else 0)
    && ReadU16(b, 130) == (if e.isList then Count(e.values) % 65536 else 0)
    && b[132] == TypeOf(e.values) && b[133] == b[134] == b[135] == 0
  }

  /** A string at an offset: its length in 16 bits, two bytes that nobody sets, and the characters up to the
      first terminator. */
  ghost predicate StringAt(b: seq<Byte>, o: nat, s: string) {
    && o + STRING_HEADER + |s| + 1 <= |b|
    && ReadU16(b, o) == |s| % 65536
    && (forall k :: 0 <= k < Length(s) ==> b[o + STRING_HEADER + k] == s[k] as int)
    && b[o + STRING_HEADER + Length(s)] == 0
  }

  ghost predicate StringFields(b: seq<Byte>, base: nat, ss: seq<string>, n: nat)
    requires n <= |ss|
  {
    forall j :: 0 <= j < n ==> StringAt(b, base + Offset(ss, j), ss[j])
  }

  ghost predicate WordFields(b: seq<Byte>, base: nat, v: Values, n: nat)
    requires !v.Strings? && n <= Count(v)
  {
    |b| >= base + 4 * n && forall j :: 0 <= j < n ==> ReadU32(b, base + 4 * j) == WordOf(v, j)
  }

  /** The bytes hold the entity. */
  ghost predicate Represents(b: seq<Byte>, e: Entity) {
    && |b| == HEADER + BodySize(e.values)
    && HeaderFields(b, e)
    && if e.values.Strings? then StringFields(b, HEADER, e.values.strings, |e.values.strings|)
       else WordFields(b, HEADER, e.values, Count(e.values))
  }

  /** A number in four bytes, the lowest first. */
  predicate WordBytes(b: seq<Byte>, i: nat, w: Uint32) {
    i + 4 <= |b| && b[i] == w % 256 && b[i + 1] == w / 256 % 256 && b[i + 2] == w / 256 / 256 % 256
    && b[i + 3] == w / 256 / 256 / 256
  }

  /** The 136 bytes in front: the path in 128 bytes up to a terminator, the flag, the count in 16 bits and, behind the
      type, three bytes that are not used. */
  ghost predicate HeaderBytes(b: seq<Byte>, path: string, isDefault: bool, count: nat) {
    && |b| >= 136
    && (forall i :: 0 <= i < Length(path) && i < 127 ==> b[i] == path[i] as int)
    && (forall i :: Length(path) <= i < 128 ==> b[i] == 0) && b[127] == 0
    && b[128] == (if isDefault then 1 else 0) && b[129] == 0
    && b[130] == count % 256 && b[131] == count / 256 % 256
    && b[133] == b[134] == b[135] == 0
  }

  lemma LittleEndian(b: seq<Byte>, i: nat)
    requires i + 2 <= |b|
    ensures b[i] == ReadU16(b, i) % 256 && b[i + 1] == ReadU16(b, i) / 256
    ensures i + 4 <= |b| ==> WordBytes(b, i, ReadU32(b, i))
  {
    LowByte(b[i], b[i + 1]);
    if i + 4 <= |b| {
      LowByte(b[i + 2], b[i + 3]);
      LowByte(b[i + 1], b[i + 2] as int + 256 * b[i + 3] as int);
      LowByte(b[i], b[i + 1] as int + 256 * (b[i + 2] as int + 256 * b[i + 3] as int));
    }
  }

  lemma LowByte(low: Byte, high: nat)
    ensures (low as int + 256 * high) % 256 == low && (low as int + 256 * high) / 256 == high
  {
  }

  lemma RecordHeader(b: seq<Byte>, e: Entity)
    requires Represents(b, e)
    ensures HeaderBytes(b, e.path, e.isDefault, if e.isList then Count(e.values) else 0) && b[132] == TypeOf(e.values)
  {
    hide StringFields, WordFields, ReadU16, ReadU32, WordBytes, PathField, HeaderBytes;
    LittleEndian(b, 128);
    LittleEndian(b, 130);
    PathBytes(b, e.path);
    LowerBytes(if e.isList then Count(e.values) else 0);
    HeaderIs(b, e.path, e.isDefault, if e.isList then Count(e.values) else 0);
  }

  lemma LowerBytes(n: nat)
    ensures n % 65536 % 256 == n % 256 && n % 65536 / 256 == n / 256 % 256
  {
  }

  lemma PathBytes(b: seq<Byte>, path: string)
    requires |b| >= HEADER && PathField(b, Shortened(path))
    ensures forall i :: 0 <= i < Length(path) && i < 127 ==> b[i] == path[i] as int
    ensures (forall i :: Length(path) <= i < 128 ==> b[i] == 0) && b[127] == 0
  {
    hide ReadU16, ReadU32;
  }

  lemma HeaderIs(b: seq<Byte>, path: string, isDefault: bool, count: nat)
    requires |b| >= 136
    requires forall i :: 0 <= i < Length(path) && i < 127 ==> b[i] == path[i] as int
    requires (forall i :: Length(path) <= i < 128 ==> b[i] == 0) && b[127] == 0
    requires b[128] == (if isDefault then 1 else 0) && b[129] == 0
    requires b[130] == count % 256 && b[131] == count / 256 % 256 && b[133] == b[134] == b[135] == 0
    ensures HeaderBytes(b, path, isDefault, count)
  {
  }

  /** The j-th number of a record is at byte 136 + 4 j. */
  lemma RecordWord(b: seq<Byte>, e: Entity, j: nat)
    requires Represents(b, e) && !e.values.Strings? && j < Count(e.values)
    ensures WordBytes(b, 136 + 4 * j, WordOf(e.values, j))
  {
    hide HeaderFields, StringFields, WordBytes, ReadU32;
    LittleEndian(b, 136 + 4 * j);
  }

  /** The first string of a record is at byte 136, and each one is 5 bytes and its characters further on. */
  lemma RecordString(b: seq<Byte>, e: Entity, j: nat)
    requires Represents(b, e) && e.values.Strings? && j < |e.values.strings|
    ensures StringBytes(b, 136 + Offset(e.values.strings, j), e.values.strings[j])
    ensures Offset(e.values.strings, 0) == 0
    ensures Offset(e.values.strings, j + 1) == Offset(e.values.strings, j) + 4 + |e.values.strings[j]| + 1
  {
    hide HeaderFields, Offset, StringAt, StringBytes, StringFields;
    var ss := e.values.strings;
    FieldAt(b, HEADER, ss, j);
    BytesOfString(b, HEADER + Offset(ss, j), ss[j]);
    NoOffset(ss);
  }

  lemma BytesOfString(b: seq<Byte>, o: nat, s: string)
    requires StringAt(b, o, s)
    ensures StringBytes(b, o, s)
  {
    hide ReadU16, WordBytes;
    LittleEndian(b, o);
    LowerBytes(|s|);
  }

  /** A string at an offset: its length in 16 bits, two bytes that nobody sets, its characters and a terminator. */
  ghost predicate StringBytes(b: seq<Byte>, o: nat, s: string) {
    && o + 4 + |s| + 1 <= |b|
    && b[o] == |s| % 256 && b[o + 1] == |s| / 256 % 256
    && (forall k :: 0 <= k < Length(s) ==> b[o + 4 + k] == s[k] as int)
    && b[o + 4 + Length(s)] == 0
  }

  // ---- append ----

  ghost predicate Texts(e: Entity) {
    && IsText(e.path)
    && (e.values.Strings? ==> forall s :: s in e.values.strings ==> IsText(s))
    && (!e.isList ==> Count(e.values) == 1)
  }

  method PutU16(data: array<Byte>, i: nat, n: nat)
    requires i + 2 <= data.Length
    modifies data
    ensures ReadU16(data[..], i) == n % 65536
    ensures forall k :: 0 <= k < data.Length && !(i <= k < i + 2) ==> data[k] == old(data[k])
  {
    data[i] := n % 256;
    data[i + 1] := n / 256 % 256;
  }

  method PutU32(data: array<Byte>, i: nat, w: Uint32)
    requires i + 4 <= data.Length
    modifies data
    ensures ReadU32(data[..], i) == w
    ensures forall k :: 0 <= k < data.Length && !(i <= k < i + 4) ==> data[k] == old(data[k])
  {
    var a := w / 256;
    var b := a / 256;
    var c := b / 256;
    data[i], data[i + 1], data[i + 2], data[i + 3] := w % 256, a % 256, b % 256, c;
    assert w == w % 256 + 256 * a && a == a % 256 + 256 * b && b == b % 256 + 256 * c;
  }

  /** strcpy to a place in the record; returns past the terminator. */
  method CopyString(data: array<Byte>, at: nat, s: string)
    requires IsText(s) && at + |s| + 1 <= data.Length
    modifies data
    ensures forall k :: 0 <= k < Length(s) ==> data[at + k] == s[k] as int
    ensures data[at + Length(s)] == 0
    ensures forall k :: 0 <= k < data.Length && !(at <= k < at + |s| + 1) ==> data[k] == old(data[k])
  {
    var n, k := Length(s), 0;
    while k < n
      invariant 0 <= k <= n
      invariant forall i :: 0 <= i < k ==> data[at + i] == s[i] as int
      invariant forall i :: 0 <= i < data.Length && !(at <= i < at + k) ==> data[i] == old(data[i])
    {
      data[at + k] := s[k] as int;
      k := k + 1;
    }
    data[at + n] := 0;
  }

  /** The header: cleared, then filled field by field. */
  method PutHeader(data: array<Byte>, e: Entity)
    requires data.Length >= HEADER && IsText(e.path)
    modifies data
    ensures HeaderFields(data[..], e)
    ensures forall k :: HEADER <= k < data.Length ==> data[k] == old(data[k])
  {
    var i := 0;
    while i < HEADER
      invariant 0 <= i <= HEADER
      invariant forall k :: 0 <= k < i ==> data[k] == 0
      invariant forall k :: HEADER <= k < data.Length ==> data[k] == old(data[k])
    {
      data[i] := 0;
      i := i + 1;
    }
    var path := Shortened(e.path);
    i := 0;
    while i < |path|
      invariant 0 <= i <= |path|
      invariant forall k :: 0 <= k < i ==> data[k] == path[k] as int
      invariant forall k :: i <= k < HEADER ==> data[k] == 0
      invariant forall k :: HEADER <= k < data.Length ==> data[k] == old(data[k])
    {
      data[i] := path[i] as int;
      i := i + 1;
    }
    data[128] := if e.isDefault then 1 else 0;
    PutU16(data, 130, if e.isList then Count(e.values) else 0);
    data[132] := TypeOf(e.values);
  }

  lemma HeaderFrame(b: seq<Byte>, b': seq<Byte>, e: Entity)
    requires HeaderFields(b, e) && |b'| == |b| && forall k :: 0 <= k < HEADER ==> b'[k] == b[k]
    ensures HeaderFields(b', e)
  {
  }

  /** The loops over numbers, for the first n of them. */
  method PutWords(data: array<Byte>, base: nat, v: Values, n: nat)
    requires !v.Strings? && n <= Count(v) && data.Length >= base + 4 * n
    modifies data
    ensures WordFields(data[..], base, v, n)
    ensures forall k :: 0 <= k < data.Length && !(base <= k < base + 4 * n) ==> data[k] == old(data[k])
  {
    var j := 0;
    while j < n
      invariant 0 <= j <= n
      invariant WordFields(data[..], base, v, j)
      invariant forall k :: 0 <= k < data.Length && !(base <= k < base + 4 * j) ==> data[k] == old(data[k])
    {
      ghost var before := data[..];
      PutU32(data, base + 4 * j, WordOf(v, j));
      WordsFrame(before, data[..], base, v, j);
      j := j + 1;
    }
  }

  lemma WordsFrame(b: seq<Byte>, b': seq<Byte>, base: nat, v: Values, n: nat)
    requires !v.Strings? && n <= Count(v) && WordFields(b, base, v, n)
    requires |b'| == |b| && forall k :: 0 <= k < base + 4 * n ==> b'[k] == b[k]
    ensures WordFields(b', base, v, n)
  {
    forall j | 0 <= j < n ensures ReadU32(b', base + 4 * j) == WordOf(v, j) {
      assert ReadU32(b', base + 4 * j) == ReadU32(b, base + 4 * j);
    }
  }

  lemma StringFrame(b: seq<Byte>, b': seq<Byte>, o: nat, s: string)
    requires StringAt(b, o, s) && |b'| == |b|
    requires forall k :: o <= k < o + STRING_HEADER + |s| + 1 ==> b'[k] == b[k]
    ensures StringAt(b', o, s)
  {
  }

  lemma StringsFrame(b: seq<Byte>, b': seq<Byte>, base: nat, ss: seq<string>, n: nat)
    requires n <= |ss| && StringFields(b, base, ss, n)
    requires |b'| == |b| && forall k :: 0 <= k < base + Offset(ss, n) && k < |b| ==> b'[k] == b[k]
    ensures StringFields(b', base, ss, n)
  {
    hide StringAt, Offset;
    forall j | 0 <= j < n ensures StringAt(b', base + Offset(ss, j), ss[j]) {
      OffsetGrows(ss, j, n);
      StringBound(b, base + Offset(ss, j), ss[j]);
      StringFrame(b, b', base + Offset(ss, j), ss[j]);
    }
  }

  lemma StringBound(b: seq<Byte>, o: nat, s: string)
    requires StringAt(b, o, s)
    ensures o + STRING_HEADER + |s| + 1 <= |b|
  {
  }

  method PutString(data: array<Byte>, at: nat, s: string)
    requires IsText(s) && at + STRING_HEADER + |s| + 1 <= data.Length
    modifies data
    ensures StringAt(data[..], at, s)
    ensures forall k :: 0 <= k < data.Length && !(at <= k < at + STRING_HEADER + |s| + 1) ==> data[k] == old(data[k])
  {
    PutU16(data, at, |s|);
    ghost var before := data[..];
    CopyString(data, at + STRING_HEADER, s);
    assert ReadU16(data[..], at) == ReadU16(before, at);
  }

  /** The loop over strings, with a pointer that moves past each of them. */
  method PutStrings(data: array<Byte>, base: nat, ss: seq<string>)
    requires (forall s :: s in ss ==> IsText(s)) && data.Length == base + Offset(ss, |ss|)
    modifies data
    ensures StringFields(data[..], base, ss, |ss|)
    ensures forall k :: 0 <= k < base ==> data[k] == old(data[k])
  {
    hide StringAt, StringFields;
    var at, j := base, 0;
    NoStrings(data[..], base, ss);
    while j < |ss|
      invariant 0 <= j <= |ss| && at == base + Offset(ss, j)
      invariant StringFields(data[..], base, ss, j)
      invariant forall k :: 0 <= k < base ==> data[k] == old(data[k])
    {
      ghost var before := data[..];
      OffsetGrows(ss, j, |ss|);
      PutString(data, at, ss[j]);
      StringsFrame(before, data[..], base, ss, j);
      OneMoreString(data[..], base, ss, j);
      at := at + STRING_HEADER + |ss[j]| + 1;
      j := j + 1;
    }
  }

  lemma NoStrings(b: seq<Byte>, base: nat, ss: seq<string>)
    ensures StringFields(b, base, ss, 0)
  {
  }

  lemma OneMoreString(b: seq<Byte>, base: nat, ss: seq<string>, n: nat)
    requires n < |ss| && StringFields(b, base, ss, n) && StringAt(b, base + Offset(ss, n), ss[n])
    ensures StringFields(b, base, ss, n + 1)
  {
    hide StringAt, Offset;
  }

  /** data_size for strings is added up in a loop. */
  method StringsSize(ss: seq<string>) returns (size: nat)
    ensures size == Offset(ss, |ss|)
  {
    size := 0;
    var j := 0;
    while j < |ss|
      invariant 0 <= j <= |ss| && size == Offset(ss, j)
    {
      size := size + STRING_HEADER + |ss[j]| + 1;
      j := j + 1;
    }
  }

  /** append: a buffer of exactly the computed size that holds the entity. */
  method Append(e: Entity) returns (data: array<Byte>)
    requires Texts(e)
    ensures fresh(data) && data.Length == HEADER + BodySize(e.values)
    ensures Represents(data[..], e)
  {
    var size;
    if e.values.Strings? {
      size := StringsSize(e.values.strings);
    } else {
      size := 4 * Count(e.values);
    }
    data := new Byte[HEADER + size];
    PutHeader(data, e);
    ghost var before := data[..];
    if e.values.Strings? {
      PutStrings(data, HEADER, e.values.strings);
    } else {
      PutWords(data, HEADER, e.values, Count(e.values));
    }
    HeaderFrame(before, data[..], e);
  }

  // ---- The decoder ----

  /** What becomes of a record: an entity, a record of a type that is ignored, or a read past the end. */
  datatype Decoded = Got(entity: Entity) | Ignored | OutOfBounds

  function Prepended<T>(s: seq<T>, r: Option<seq<T>>): Option<seq<T>> {
    if r.None? then None else Some(s + r.value)
  }

  lemma PrependNothing<T>(r: Option<seq<T>>)
    ensures Prepended([], r) == r
  {
    if r.Some? { assert [] + r.value == r.value; }
  }

  lemma PrependMore<T>(s: seq<T>, x: T, r: Option<seq<T>>)
    ensures Prepended(s, Prepended([x], r)) == Prepended(s + [x], r)
  {
    if r.Some? { assert s + ([x] + r.value) == s + [x] + r.value; }
  }

  lemma PrependToEnd<T>(s: seq<T>)
    ensures Prepended(s, Some([])) == Some(s)
  {
    assert s + [] == s;
  }

  function CStringFrom(b: seq<Byte>, i: nat): Option<string>
    decreases |b| - i
  {
    if i >= |b| then None
    else if b[i] == 0 then Some("")
    else Prepended([b[i] as char], CStringFrom(b, i + 1))
  }

  /** The strings at consecutive places, each advancing by its header, its length and one terminator. */
  function StringsFrom(b: seq<Byte>, at: nat, n: nat): Option<seq<string>>
    decreases n
  {
    if n == 0 then Some([])
    else if at + STRING_HEADER > |b| then None
    else
      var length := ReadU16(b, at);
      if at + STRING_HEADER + length > |b| then None
      else Prepended([Characters(b[at + STRING_HEADER..at + STRING_HEADER + length])],
          StringsFrom(b, at + STRING_HEADER + length + 1, n - 1))
  }

  function Characters(b: seq<Byte>): string {
    seq(|b|, i requires 0 <= i < |b| => b[i] as char)
  }

  function WordsFrom(b: seq<Byte>, base: nat, n: nat): seq<Uint32>
    requires base + 4 * n <= |b|
  {
    seq(n, j requires 0 <= j < n => ReadU32(b, base + 4 * j))
  }

  /** The numbers that words of a record of some type stand for. */
  function ValuesOf(kind: Byte, ws: seq<Uint32>): Values {
    if kind == FLOAT_VALUE then Floats(ws)
    else if kind == INT_VALUE then Ints(seq(|ws|, j requires 0 <= j < |ws| => Signed(ws[j])))
    else if kind == BOOL_VALUE then Bools(seq(|ws|, j requires 0 <= j < |ws| => ws[j] != 0))
    else Uints(ws)
  }

  predicate IsNumberType(kind: Byte) {
    kind == FLOAT_VALUE || kind == UINT_VALUE || kind == INT_VALUE || kind == BOOL_VALUE
  }

  /** The number of values that the decoder reads: a record with no count holds one. */
  function ReadCount(n: nat): nat {
    if n > 0 then n else 1
  }

  function Decode(b: seq<Byte>): (r: Decoded)
    ensures r.Got? && !r.entity.isList ==> Count(r.entity.values) == 1
  {
    if |b| < HEADER then OutOfBounds
    else
      var path := CStringFrom(b, 0);
      var n := ReadU16(b, 130);
      if path.None? then OutOfBounds
      else if IsNumberType(b[132]) then
        if HEADER + 4 * ReadCount(n) > |b| then OutOfBounds
        else Got(Entity(path.value, b[128] % 2 == 1, n > 0, ValuesOf(b[132], WordsFrom(b, HEADER, ReadCount(n)))))
      else if b[132] == STRING_VALUE then
        var ss := StringsFrom(b, HEADER, ReadCount(n));
        if ss.None? then OutOfBounds else Got(Entity(path.value, b[128] % 2 == 1, n > 0, Strings(ss.value)))
      else Ignored
  }

  method ReadCString(b: seq<Byte>) returns (r: Option<string>)
    ensures r == CStringFrom(b, 0)
  {
    var s, i := "", 0;
    PrependNothing(CStringFrom(b, 0));
    while i < |b| && b[i] != 0
      invariant 0 <= i <= |b|
      invariant CStringFrom(b, 0) == Prepended(s, CStringFrom(b, i))
    {
      PrependMore(s, b[i] as char, CStringFrom(b, i + 1));
      s := s + [b[i] as char];
      i := i + 1;
    }
    if i == |b| {
      return None;
    }
    PrependToEnd(s);
    return Some(s);
  }

  /** The loops that fill a vector of numbers. */
  method ReadWords(b: seq<Byte>, base: nat, n: nat) returns (ws: seq<Uint32>)
    requires base + 4 * n <= |b|
    ensures ws == WordsFrom(b, base, n)
  {
    ws := [];
    var j := 0;
    while j < n
      invariant 0 <= j <= n && |ws| == j
      invariant forall i :: 0 <= i < j ==> ws[i] == ReadU32(b, base + 4 * i)
    {
      ws := ws + [ReadU32(b, base + 4 * j)];
      j := j + 1;
    }
  }

  /** The loop over strings, with a pointer that moves past each of them. */
  method ReadStrings(b: seq<Byte>, base: nat, n: nat) returns (r: Option<seq<string>>)
    ensures r == StringsFrom(b, base, n)
  {
    hide Characters;
    var ss: seq<string> := [];
    var at: nat, j: nat := base, 0;
    PrependNothing(StringsFrom(b, base, n));
    while j < n
      invariant 0 <= j <= n
      invariant StringsFrom(b, base, n) == Prepended(ss, StringsFrom(b, at, n - j))
    {
      if at + STRING_HEADER > |b| {
        return None;
      }
      var length := ReadU16(b, at);
      if at + STRING_HEADER + length > |b| {
        return None;
      }
      var s := Characters(b[at + STRING_HEADER..at + STRING_HEADER + length]);
      PrependMore(ss, s, StringsFrom(b, at + STRING_HEADER + length + 1, n - j - 1));
      ss := ss + [s];
      at := at + STRING_HEADER + length + 1;
      j := j + 1;
    }
    PrependToEnd(ss);
    return Some(ss);
  }

  /** The branches of the list decoder for one record. */
  method DecodeRecord(b: seq<Byte>) returns (r: Decoded)
    ensures r == Decode(b)
  {
    if |b| < HEADER {
      return OutOfBounds;
    }
    var path := ReadCString(b);
    var n := ReadU16(b, 130);
    if path.None? {
      return OutOfBounds;
    }
    if IsNumberType(b[132]) {
      if HEADER + 4 * ReadCount(n) > |b| {
        return OutOfBounds;
      }
      var ws := ReadWords(b, HEADER, ReadCount(n));
      return Got(Entity(path.value, b[128] % 2 == 1, n > 0, ValuesOf(b[132], ws)));
    }
    if b[132] != STRING_VALUE {
      return Ignored;
    }
    var ss := ReadStrings(b, HEADER, ReadCount(n));
    if ss.None? {
      return OutOfBounds;
    }
    return Got(Entity(path.value, b[128] % 2 == 1, n > 0, Strings(ss.value)));
  }

  // ---- What the decoder makes of any record ----

  lemma {:induction false} Terminator(b: seq<Byte>, i: nat)
    requires i <= |b|
    ensures CStringFrom(b, i).Some? <==> 0 in b[i..]
    decreases |b| - i
  {
    if i < |b| {
      assert b[i..] == [b[i]] + b[i + 1..];
      Terminator(b, i + 1);
    }
  }

  /** A record is ignored exactly if it has a header with a terminated path and a type that is none of the five. */
  lemma IgnoredExactly(b: seq<Byte>)
    ensures Decode(b) == Ignored <==> |b| >= 136 && 0 in b && !(30 <= b[132] <= 34)
  {
    hide StringsFrom, ValuesOf, WordsFrom;
    Terminator(b, 0);
    assert b[0..] == b;
  }

  /** A record of numbers is read exactly if it has as many bytes as its count says, one number for a count of zero, and
      the numbers are those of its words: the bits of a float, the word itself, its two's complement, or whether it is
      not zero. */
  lemma NumbersDecoded(b: seq<Byte>)
    requires |b| >= 136 && 30 <= b[132] <= 33
    ensures var count := b[130] as int + 256 * b[131] as int;
            var n := if count == 0 then 1 else count;
            && (Decode(b).Got? <==> 0 in b && |b| >= 136 + 4 * n)
            && (Decode(b).Got? ==>
               && Count(Decode(b).entity.values) == n && Decode(b).entity.isList == (count > 0)
               && Decode(b).entity.isDefault == (b[128] % 2 == 1)
               && forall j :: 0 <= j < n ==> NumberAt(b, Decode(b).entity.values, j))
  {
    hide StringsFrom, CStringFrom;
    Terminator(b, 0);
    assert b[0..] == b;
  }

  /** The j-th value of a record of numbers, in terms of its four bytes. */
  ghost predicate NumberAt(b: seq<Byte>, v: Values, j: nat)
    requires |b| >= 136 + 4 * (j + 1)
  {
    var w := b[136 + 4 * j] as int + 256 * b[137 + 4 * j] as int + 65536 * b[138 + 4 * j] as int
             + 16777216 * b[139 + 4 * j] as int;
    && (b[132] == 30 ==> v.Floats? && j < |v.bits| && v.bits[j] == w)
    && (b[132] == 31 ==> v.Uints? && j < |v.uints| && v.uints[j] == w)
    && (b[132] == 32 ==> v.Ints? && j < |v.ints| && (v.ints[j] == w || v.ints[j] == w - 0x1_0000_0000))
    && (b[132] == 33 ==> v.Bools? && j < |v.bools| && (v.bools[j] <==> w != 0))
  }

  /** A record of a single string is read exactly if it has as many bytes behind the length as that says. */
  lemma StringDecoded(b: seq<Byte>)
    requires |b| >= 136 && b[132] == 34 && b[130] == b[131] == 0
    ensures Decode(b).Got? <==> 0 in b && |b| >= 140 && |b| >= 140 + b[136] as int + 256 * b[137] as int
    ensures Decode(b).Got? ==>
            var length := b[136] as int + 256 * b[137] as int;
            var e := Decode(b).entity;
            && !e.isList && e.values.Strings? && |e.values.strings| == 1 && |e.values.strings[0]| == length
            && forall k :: 0 <= k < length ==> e.values.strings[0][k] as int == b[140 + k]
  {
    hide CStringFrom, Characters;
    Terminator(b, 0);
    assert b[0..] == b;
    if |b| >= 140 {
      NoneRead(b, 140 + ReadU16(b, 136) + 1);
      if |b| >= 140 + ReadU16(b, 136) { CharactersOf(b[140..140 + ReadU16(b, 136)]); }
    }
  }

  lemma CharactersOf(b: seq<Byte>)
    ensures |Characters(b)| == |b| && forall k :: 0 <= k < |b| ==> Characters(b)[k] as int == b[k]
  {
  }

  // ---- The round trip ----

  lemma {:induction false} CStringIs(b: seq<Byte>, i: nat, s: string)
    requires IsText(s) && NUL !in s && i + |s| < |b| && b[i + |s|] == 0
    requires forall k :: 0 <= k < |s| ==> b[i + k] == s[k] as int
    ensures CStringFrom(b, i) == Some(s)
    decreases |s|
  {
    if s != "" {
      assert s == [s[0]] + s[1..];
      assert b[i + 0] == s[0] as int;
      CStringIs(b, i + 1, s[1..]);
    }
  }

  lemma ShortenedText(path: string)
    requires IsText(path)
    ensures IsText(Shortened(path)) && NUL !in Shortened(path) && |Shortened(path)| < PATH_LENGTH
    ensures NUL !in path && |path| < PATH_LENGTH ==> Shortened(path) == path
  {
    if NUL !in path { LengthIs(path); }
  }

  lemma PathRead(b: seq<Byte>, path: string)
    requires |b| >= HEADER && IsText(path) && PathField(b, Shortened(path))
    ensures CStringFrom(b, 0) == Some(Shortened(path))
  {
    ShortenedText(path);
    CStringIs(b, 0, Shortened(path));
  }

  /** The strings that are sent as they are: no terminator inside, and a length that fits in 16 bits. */
  predicate Sendable(s: string) {
    NUL !in s && |s| < 65536
  }

  lemma StringRead(b: seq<Byte>, o: nat, s: string)
    requires StringAt(b, o, s) && IsText(s) && Sendable(s)
    ensures ReadU16(b, o) == |s| && Characters(b[o + STRING_HEADER..o + STRING_HEADER + |s|]) == s
  {
    LengthIs(s);
    CharactersAt(b, o + STRING_HEADER, s);
  }

  lemma CharactersAt(b: seq<Byte>, o: nat, s: string)
    requires o + |s| <= |b| && forall k :: 0 <= k < |s| ==> b[o + k] == s[k] as int
    ensures Characters(b[o..o + |s|]) == s
  {
    var c := b[o..o + |s|];
    assert forall k :: 0 <= k < |s| ==> c[k] == b[o + k] && Characters(c)[k] == c[k] as char;
  }

  lemma OneStringRead(b: seq<Byte>, at: nat, n: nat, s: string)
    requires n > 0 && StringAt(b, at, s) && IsText(s) && Sendable(s)
    ensures StringsFrom(b, at, n) == Prepended([s], StringsFrom(b, at + STRING_HEADER + |s| + 1, n - 1))
  {
    hide StringAt, Characters, IsText, Sendable;
    StringBound(b, at, s);
    StringRead(b, at, s);
  }

  lemma NoneRead(b: seq<Byte>, at: nat)
    ensures StringsFrom(b, at, 0) == Some([])
  {
  }

  lemma FieldAt(b: seq<Byte>, base: nat, ss: seq<string>, j: nat)
    requires j < |ss| && StringFields(b, base, ss, |ss|)
    ensures StringAt(b, base + Offset(ss, j), ss[j])
    ensures Offset(ss, j + 1) == Offset(ss, j) + STRING_HEADER + |ss[j]| + 1
  {
  }

  /** Reading n strings from the place of the j-th one on gives the n strings from there. */
  lemma {:induction false} StringsRead(b: seq<Byte>, base: nat, ss: seq<string>, j: nat, n: nat)
    requires j + n <= |ss| && StringFields(b, base, ss, |ss|) && forall s :: s in ss ==> IsText(s) && Sendable(s)
    ensures StringsFrom(b, base + Offset(ss, j), n) == Some(ss[j..j + n])
    decreases n
  {
    hide StringAt, StringFields, StringsFrom, IsText, Sendable, Offset;
    if n > 0 {
      FieldAt(b, base, ss, j);
      OneStringRead(b, base + Offset(ss, j), n, ss[j]);
      StringsRead(b, base, ss, j + 1, n - 1);
      assert ss[j..j + n] == [ss[j]] + ss[j + 1..j + n];
    } else {
      NoneRead(b, base + Offset(ss, j));
    }
  }

  lemma WordsRead(b: seq<Byte>, base: nat, v: Values)
    requires !v.Strings? && WordFields(b, base, v, Count(v))
    ensures ValuesOf(TypeOf(v), WordsFrom(b, base, Count(v))) == v
  {
    var ws := WordsFrom(b, base, Count(v));
    assert forall j :: 0 <= j < Count(v) ==> ws[j] == WordOf(v, j);
    match v
    case Floats(bits) => assert ws == bits;
    case Uints(uints) => assert ws == uints;
    case Ints(ints) => assert ValuesOf(TypeOf(v), ws).ints == ints;
    case Bools(bools) => assert ValuesOf(TypeOf(v), ws).bools == bools;
  }

  /** What reaches the other side: the values unchanged, the path up to the 127 characters that fit. */
  function Received(e: Entity): Entity {
    e.(path := Shortened(e.path))
  }

  predicate FitsCount(e: Entity) {
    e.isList ==> 0 < Count(e.values) < 65536
  }

  lemma HeaderRead(b: seq<Byte>, e: Entity)
    requires HeaderFields(b, e) && IsText(e.path)
    ensures CStringFrom(b, 0) == Some(Shortened(e.path)) && (b[128] % 2 == 1 <==> e.isDefault)
    ensures ReadU16(b, 130) == (if e.isList then Count(e.values) % 65536 else 0) && b[132] == TypeOf(e.values)
  {
    PathRead(b, e.path);
  }

  /** The numbers of an entity come back exactly if a list has at least one and fewer than 65536 of them: of
      an empty list the decoder reads a value that was never written. */
  lemma NumbersRoundTrip(b: seq<Byte>, e: Entity)
    requires Texts(e) && !e.values.Strings? && Represents(b, e)
    ensures Decode(b) == Got(Received(e)) <==> FitsCount(e)
    ensures e.isList && Count(e.values) == 0 ==> Decode(b) == OutOfBounds
  {
    hide HeaderFields, WordFields, WordsFrom, ValuesOf, CStringFrom;
    HeaderRead(b, e);
    HeaderSize(b, e);
    var n := ReadU16(b, 130);
    if FitsCount(e) {
      WordsRead(b, HEADER, e.values);
    } else if Count(e.values) > 0 {
      CountLost(b, n, e);
    }
  }

  lemma HeaderSize(b: seq<Byte>, e: Entity)
    requires HeaderFields(b, e)
    ensures |b| >= HEADER
  {
  }

  lemma CountLost(b: seq<Byte>, n: nat, e: Entity)
    requires e.isList && Count(e.values) >= 65536 && n == Count(e.values) % 65536
    requires HEADER + 4 * ReadCount(n) <= |b| && !e.values.Strings?
    ensures Count(ValuesOf(TypeOf(e.values), WordsFrom(b, HEADER, ReadCount(n)))) != Count(e.values)
  {
  }

  lemma NoOffset(ss: seq<string>)
    ensures Offset(ss, 0) == 0
  {
  }

  /** Strings come back unchanged if they hold no terminator and neither they nor the list are too long. */
  lemma StringsRoundTrip(b: seq<Byte>, e: Entity)
    requires Texts(e) && e.values.Strings? && Represents(b, e) && FitsCount(e)
    requires forall s :: s in e.values.strings ==> Sendable(s)
    ensures Decode(b) == Got(Received(e))
  {
    hide HeaderFields, StringAt, StringFields, Offset, CStringFrom, StringsFrom, IsText, Sendable;
    HeaderRead(b, e);
    HeaderSize(b, e);
    var ss := e.values.strings;
    StringsRead(b, HEADER, ss, 0, |ss|);
    NoOffset(ss);
    assert ss[0..|ss|] == ss;
  }
}
