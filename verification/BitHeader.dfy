/**
 The header of a configuration bitstream and its parser (bitstream_parse_header in
 xdma-bit.c).
 */
module BitHeader {
  import opened Words

  const EVEN_MAGIC_BYTE: Byte := 0x0f
  const ODD_MAGIC_BYTE: Byte := 0xf0

  const TAG_A: Byte := 97
  const TAG_B: Byte := 98
  const TAG_C: Byte := 99
  const TAG_D: Byte := 100
  const TAG_E: Byte := 101

  datatype Header = Header(
    magicLength: nat, designName: seq<Byte>, partName: seq<Byte>, date: seq<Byte>, time: seq<Byte>,
    bitstreamLength: nat)

  /** `next` is the index after what was read; Outside is a read beyond the buffer, which the parser does not guard against. */
  datatype Parsed<+T> = Ok(value: T, next: nat) | Rejected | Outside

  // ----- The format -----

  function MagicByte(k: nat): Byte {
    if k % 2 == 0 then EVEN_MAGIC_BYTE else ODD_MAGIC_BYTE
  }

  function MagicBytes(n: nat): (r: seq<Byte>)
    ensures |r| == n
  {
    seq(n, (k: nat) => MagicByte(k))
  }

  function Bytes16(x: nat): (r: seq<Byte>)
    requires x < 0x1_0000
    ensures |r| == 2
  {
    [x / 256, x % 256]
  }

  function Bytes32(x: Word): (r: seq<Byte>)
    ensures |r| == 4
  {
    [x / 256 / 256 / 256, x / 256 / 256 % 256, x / 256 % 256, x % 256]
  }

  /** A string with its final NUL, as long as its length field allows. */
  predicate GoodString(s: seq<Byte>) {
    0 < |s| < 0x1_0000 && s[|s| - 1] == 0
  }

  function FieldBytes(tag: Byte, s: seq<Byte>): (r: seq<Byte>)
    requires GoodString(s)
    ensures |r| == 3 + |s|
  {
    [tag] + Bytes16(|s|) + s
  }

  predicate WellFormed(h: Header) {
    && 0 < h.magicLength < 0x1_0000 && h.bitstreamLength < TWO_32
    && GoodString(h.designName) && GoodString(h.partName) && GoodString(h.date) && GoodString(h.time)
  }

  /** The magic with its unchecked last byte, and the half word 1. */
  function Preamble(magicLength: nat, filler: Byte): (r: seq<Byte>)
    requires 0 < magicLength < 0x1_0000
    ensures |r| == magicLength + 4
  {
    Bytes16(magicLength) + MagicBytes(magicLength - 1) + [filler, 0, 1]
  }

  function Print(h: Header, filler: Byte): seq<Byte>
    requires WellFormed(h)
  {
    Preamble(h.magicLength, filler)
    + FieldBytes(TAG_A, h.designName) + FieldBytes(TAG_B, h.partName)
    + FieldBytes(TAG_C, h.date) + FieldBytes(TAG_D, h.time)
    + ([TAG_E] + Bytes32(h.bitstreamLength))
  }

  // ----- The parser -----

  /** (x << 8) | b */
  function Push(x: nat, b: Byte): nat {
    256 * x + b
  }

  /** Comparing n magic bytes at index i, from the k-th on. */
  function Magic(data: seq<Byte>, i: nat, k: nat, n: nat): Parsed<()>
    requires k <= n
    decreases n - k
  {
    if k == n then Ok((), i + n)
    else if i + k >= |data| then Outside
    else if data[i + k] != MagicByte(k) then Rejected
    else Magic(data, i, k + 1, n)
  }

  function ParsePreamble(data: seq<Byte>): Parsed<nat> {
    if |data| < 2 then Outside
    else
      var magicLength := Push(data[0], data[1]);
      match Magic(data, 2, 0, SubWord(magicLength, 1))
      case Rejected => Rejected
      case Outside => Outside
      case Ok(_, i) =>
        if i + 3 > |data| then Outside
        else if Push(data[i + 1], data[i + 2]) != 1 then Rejected
        else Ok(magicLength, i + 3)
  }

  function ParseField(data: seq<Byte>, i: nat, tag: Byte): Parsed<seq<Byte>> {
    if i >= |data| then Outside
    else if data[i] != tag then Rejected
    else if i + 3 > |data| then Outside
    else
      var len := Push(data[i + 1], data[i + 2]);
      if len == 0 || i + 3 + len > |data| then Outside
      else if data[i + 3 + len - 1] != 0 then Rejected
      else Ok(data[i + 3..i + 3 + len], i + 3 + len)
  }

  function ParseLength(data: seq<Byte>, i: nat): Parsed<Word> {
    if i >= |data| then Outside
    else if data[i] != TAG_E then Rejected
    else if i + 5 > |data| then Outside
    else Ok(Push(Push(Push(data[i + 1], data[i + 2]), data[i + 3]), data[i + 4]), i + 5)
  }

  datatype Strings = Strings(designName: seq<Byte>, partName: seq<Byte>, date: seq<Byte>, time: seq<Byte>)

  /** Failures of the second parser replace those of the first only if the first succeeds. */
  function Fail<T, U>(p: Parsed<T>): Parsed<U>
    requires !p.Ok?
  {
    if p.Rejected? then Rejected else Outside
  }

  function ParseStrings(data: seq<Byte>, i: nat): Parsed<Strings> {
    var a := ParseField(data, i, TAG_A);
    if !a.Ok? then Fail(a)
    else
      var b := ParseField(data, a.next, TAG_B);
      if !b.Ok? then Fail(b)
      else
        var c := ParseField(data, b.next, TAG_C);
        if !c.Ok? then Fail(c)
        else
          var d := ParseField(data, c.next, TAG_D);
          if !d.Ok? then Fail(d) else Ok(Strings(a.value, b.value, c.value, d.value), d.next)
  }

  function Parse(data: seq<Byte>): Parsed<Header> {
    var p := ParsePreamble(data);
    if !p.Ok? then Fail(p)
    else
      var s := ParseStrings(data, p.next);
      if !s.Ok? then Fail(s)
      else
        var e := ParseLength(data, s.next);
        if !e.Ok? then Fail(e)
        else
          Ok(Header(p.value, s.value.designName, s.value.partName, s.value.date, s.value.time, e.value), e.next)
  }

  // ----- The parser in the driver's form -----

  /** Reading one tagged string: the bytes are copied one at a time. */
  method ReadField(data: seq<Byte>, start: nat, tag: Byte) returns (r: Parsed<seq<Byte>>)
    ensures r == ParseField(data, start, tag)
  {
    var index := start;
    if index >= |data| {
      return Outside;
    }
    var tmp := data[index];
    index := index + 1;
    if tmp != tag {
      return Rejected;
    }
    if index + 2 > |data| {
      return Outside;
    }
    var len: nat := data[index];
    len := Push(len, data[index + 1]);
    index := index + 2;
    var name: seq<Byte> := [];
    var i := 0;
    while i < len
      invariant 0 <= i <= len && index == start + 3 + i <= |data| && name == data[start + 3..index]
    {
      if index >= |data| {
        return Outside;
      }
      name := name + [data[index]];
      index := index + 1;
      i := i + 1;
    }
    if len == 0 {
      return Outside;
    }
    if name[len - 1] != 0 {
      return Rejected;
    }
    r := Ok(name, index);
  }

  method ReadPreamble(data: seq<Byte>) returns (r: Parsed<nat>)
    ensures r == ParsePreamble(data)
  {
    if |data| < 2 {
      return Outside;
    }
    var magicLength: nat := data[0];
    magicLength := Push(magicLength, data[1]);
    var index := 2;
    var i: nat, n: nat := 0, SubWord(magicLength, 1);
    while i < n
      invariant 0 <= i <= n && index == 2 + i
      invariant Magic(data, 2, i, n) == Magic(data, 2, 0, n)
    {
      if index >= |data| {
        return Outside;
      }
      var tmp := data[index];
      index := index + 1;
      if i % 2 == 0 && tmp != EVEN_MAGIC_BYTE {
        return Rejected;
      }
      if i % 2 == 1 && tmp != ODD_MAGIC_BYTE {
        return Rejected;
      }
      i := i + 1;
    }
    if index + 3 > |data| {
      return Outside;
    }
    var tmp := Push(data[index + 1], data[index + 2]);
    index := index + 3;
    if tmp != 1 {
      return Rejected;
    }
    r := Ok(magicLength, index);
  }

  /** bitstream_parse_header */
  method ParseHeader(data: seq<Byte>) returns (r: Parsed<Header>)
    ensures r == Parse(data)
  {
    var p := ReadPreamble(data);
    if !p.Ok? {
      return Fail(p);
    }
    var a := ReadField(data, p.next, TAG_A);
    if !a.Ok? {
      return Fail(a);
    }
    var b := ReadField(data, a.next, TAG_B);
    if !b.Ok? {
      return Fail(b);
    }
    var c := ReadField(data, b.next, TAG_C);
    if !c.Ok? {
      return Fail(c);
    }
    var d := ReadField(data, c.next, TAG_D);
    if !d.Ok? {
      return Fail(d);
    }
    var index := d.next;
    if index >= |data| {
      return Outside;
    }
    if data[index] != TAG_E {
      return Rejected;
    }
    if index + 5 > |data| {
      return Outside;
    }
    var length: nat := data[index + 1];
    length := Push(length, data[index + 2]);
    length := Push(length, data[index + 3]);
    length := Push(length, data[index + 4]);
    r := Ok(Header(p.value, a.value, b.value, c.value, d.value, length), index + 5);
  }

  // ----- The parser accepts exactly the format -----

  /** `bytes` stand at index i, up to next. */
  predicate At(data: seq<Byte>, i: nat, bytes: seq<Byte>, next: nat) {
    i + |bytes| == next <= |data| && data[i..next] == bytes
  }

  lemma AtAppend(data: seq<Byte>, i: nat, a: seq<Byte>, mid: nat, b: seq<Byte>, next: nat)
    ensures i + |a| == mid ==> (At(data, i, a + b, next) <==> At(data, i, a, mid) && At(data, mid, b, next))
  {
    if i + |a| == mid {
      if At(data, i, a + b, next) {
        assert data[i..next][..|a|] == data[i..mid] && data[i..next][|a|..] == data[mid..next];
        assert (a + b)[..|a|] == a && (a + b)[|a|..] == b;
      }
      if At(data, i, a, mid) && At(data, mid, b, next) {
        assert data[i..next] == data[i..mid] + data[mid..next];
      }
    }
  }

  lemma {:induction false} MagicExact(data: seq<Byte>, i: nat, k: nat, n: nat)
    requires k <= n
    ensures Magic(data, i, k, n).Ok? <==>
      (k == n || i + n <= |data|) && forall j :: k <= j < n ==> data[i + j] == MagicByte(j)
    ensures Magic(data, i, k, n).Ok? ==> Magic(data, i, k, n).next == i + n
    decreases n - k
  {
    if k < n && i + k < |data| && data[i + k] == MagicByte(k) {
      MagicExact(data, i, k + 1, n);
    }
  }

  lemma MagicIsAt(data: seq<Byte>, i: nat, n: nat)
    requires i <= |data|
    ensures Magic(data, i, 0, n).Ok? <==> At(data, i, MagicBytes(n), i + n)
  {
    MagicExact(data, i, 0, n);
    if Magic(data, i, 0, n).Ok? {
      forall j | 0 <= j < n
        ensures data[i..i + n][j] == MagicBytes(n)[j]
      {
        assert data[i + j] == MagicByte(j);
      }
    }
    if At(data, i, MagicBytes(n), i + n) {
      forall j | 0 <= j < n
        ensures data[i + j] == MagicByte(j)
      {
        assert data[i..i + n][j] == MagicBytes(n)[j];
      }
    }
  }

  lemma PreambleExact(data: seq<Byte>, magicLength: nat, next: nat)
    requires |data| < TWO_32
    ensures ParsePreamble(data) == Ok(magicLength, next) <==>
      0 < magicLength < 0x1_0000 && next == magicLength + 4 <= |data|
      && At(data, 0, Preamble(magicLength, data[next - 3]), next)
  {
    if |data| >= 2 {
      var m := Push(data[0], data[1]);
      var n := SubWord(m, 1);
      MagicExact(data, 2, 0, n);
      if 0 < magicLength < 0x1_0000 && next == magicLength + 4 <= |data| {
        MagicIsAt(data, 2, magicLength - 1);
        PreambleParts(data, magicLength, next);
      }
    }
  }

  lemma PreambleParts(data: seq<Byte>, magicLength: nat, next: nat)
    requires 0 < magicLength < 0x1_0000 && next == magicLength + 4 <= |data|
    ensures At(data, 0, Preamble(magicLength, data[next - 3]), next) <==>
      && Push(data[0], data[1]) == magicLength
      && At(data, 2, MagicBytes(magicLength - 1), next - 3)
      && Push(data[next - 2], data[next - 1]) == 1
  {
    var f := data[next - 3];
    AtAppend(data, 0, Bytes16(magicLength) + MagicBytes(magicLength - 1), next - 3, [f, 0, 1], next);
    AtAppend(data, 0, Bytes16(magicLength), 2, MagicBytes(magicLength - 1), next - 3);
    assert data[0..2] == [data[0], data[1]];
    assert data[next - 3..next] == [f, data[next - 2], data[next - 1]];
  }

  lemma FieldExact(data: seq<Byte>, i: nat, tag: Byte, s: seq<Byte>, next: nat)
    ensures ParseField(data, i, tag) == Ok(s, next) <==> GoodString(s) && At(data, i, FieldBytes(tag, s), next)
  {
    if GoodString(s) && i + 3 <= |data| {
      AtAppend(data, i, [tag] + Bytes16(|s|), i + 3, s, next);
      assert data[i..i + 3] == [data[i], data[i + 1], data[i + 2]];
    }
  }

  lemma LengthExact(data: seq<Byte>, i: nat, length: Word, next: nat)
    ensures ParseLength(data, i) == Ok(length, next) <==> At(data, i, [TAG_E] + Bytes32(length), next)
  {
    if i + 5 <= |data| {
      assert data[i..i + 5] == [data[i], data[i + 1], data[i + 2], data[i + 3], data[i + 4]];
      FourBytes(data[i + 1], data[i + 2], data[i + 3], data[i + 4], length);
    }
  }

  lemma FourBytes(a: Byte, b: Byte, c: Byte, d: Byte, x: Word)
    ensures Push(Push(Push(a, b), c), d) == x <==> Bytes32(x) == [a, b, c, d]
  {
    LowByte(Push(Push(a, b), c), d, x);
    LowByte(Push(a, b), c, x / 256);
    LowByte(a, b, x / 256 / 256);
  }

  lemma LowByte(high: nat, b: Byte, x: nat)
    ensures Push(high, b) == x <==> x / 256 == high && x % 256 == b
  {
  }

  function StringBytes(s: Strings): seq<Byte>
    requires GoodString(s.designName) && GoodString(s.partName) && GoodString(s.date) && GoodString(s.time)
  {
    FieldBytes(TAG_A, s.designName) + FieldBytes(TAG_B, s.partName)
    + FieldBytes(TAG_C, s.date) + FieldBytes(TAG_D, s.time)
  }

  lemma StringsExact(data: seq<Byte>, i: nat, s: Strings, next: nat)
    ensures ParseStrings(data, i) == Ok(s, next) <==>
      GoodString(s.designName) && GoodString(s.partName) && GoodString(s.date) && GoodString(s.time)
      && At(data, i, StringBytes(s), next)
  {
    var a, b, c := i + 3 + |s.designName|, i + 6 + |s.designName| + |s.partName|,
      i + 9 + |s.designName| + |s.partName| + |s.date|;
    FieldExact(data, i, TAG_A, s.designName, a);
    FieldExact(data, a, TAG_B, s.partName, b);
    FieldExact(data, b, TAG_C, s.date, c);
    FieldExact(data, c, TAG_D, s.time, next);
    if GoodString(s.designName) && GoodString(s.partName) && GoodString(s.date) && GoodString(s.time) {
      var fa, fb, fc := FieldBytes(TAG_A, s.designName), FieldBytes(TAG_B, s.partName), FieldBytes(TAG_C, s.date);
      AtAppend(data, i, fa, a, fb, b);
      AtAppend(data, i, fa + fb, b, fc, c);
      AtAppend(data, i, fa + fb + fc, c, FieldBytes(TAG_D, s.time), next);
    }
  }

  /**
   The parser succeeds on exactly the printed headers, with every field and the
   length of the header; only the byte after the magic is free.
   */
  lemma ParseExact(data: seq<Byte>, h: Header, next: nat)
    requires |data| < TWO_32
    ensures Parse(data) == Ok(h, next) <==>
      WellFormed(h) && h.magicLength + 4 <= |data| && At(data, 0, Print(h, data[h.magicLength + 1]), next)
  {
    if Parse(data) == Ok(h, next) {
      var p := ParsePreamble(data);
      var s := ParseStrings(data, p.next);
      PreambleExact(data, p.value, p.next);
      StringsExact(data, p.next, s.value, s.next);
      LengthExact(data, s.next, h.bitstreamLength, next);
      PrintAt(data, h, s.value, next);
    }
    if WellFormed(h) && h.magicLength + 4 <= |data| && At(data, 0, Print(h, data[h.magicLength + 1]), next) {
      var s := Strings(h.designName, h.partName, h.date, h.time);
      var p := h.magicLength + 4;
      var q := p + |StringBytes(s)|;
      PrintAt(data, h, s, next);
      PreambleExact(data, h.magicLength, p);
      StringsExact(data, p, s, q);
      LengthExact(data, q, h.bitstreamLength, next);
    }
  }

  lemma PrintAt(data: seq<Byte>, h: Header, s: Strings, next: nat)
    requires WellFormed(h) && h.magicLength + 4 <= |data| && s == Strings(h.designName, h.partName, h.date, h.time)
    ensures var f, p, q := data[h.magicLength + 1], h.magicLength + 4, h.magicLength + 4 + |StringBytes(s)|;
      At(data, 0, Print(h, f), next) <==>
        At(data, 0, Preamble(h.magicLength, f), p) && At(data, p, StringBytes(s), q)
        && At(data, q, [TAG_E] + Bytes32(h.bitstreamLength), next)
  {
    var f, p, q := data[h.magicLength + 1], h.magicLength + 4, h.magicLength + 4 + |StringBytes(s)|;
    PrintParts(h, f);
    AtAppend(data, 0, Preamble(h.magicLength, f), p, StringBytes(s), q);
    AtAppend(data, 0, Preamble(h.magicLength, f) + StringBytes(s), q, [TAG_E] + Bytes32(h.bitstreamLength), next);
  }

  lemma PrintParts(h: Header, filler: Byte)
    requires WellFormed(h)
    ensures Print(h, filler) == (Preamble(h.magicLength, filler)
      + StringBytes(Strings(h.designName, h.partName, h.date, h.time))) + ([TAG_E] + Bytes32(h.bitstreamLength))
  {
  }

  /** Parsing a printed header gives it back, whatever follows. */
  lemma RoundTrip(h: Header, filler: Byte, payload: seq<Byte>)
    requires WellFormed(h) && |Print(h, filler)| + |payload| < TWO_32
    ensures Parse(Print(h, filler) + payload) == Ok(h, |Print(h, filler)|)
  {
    var data := Print(h, filler) + payload;
    PrintParts(h, filler);
    assert data[h.magicLength + 1] == Preamble(h.magicLength, filler)[h.magicLength + 1] == filler;
    assert data[0..|Print(h, filler)|] == Print(h, filler);
    ParseExact(data, h, |Print(h, filler)|);
  }
}
