/** The wire format of the client protocol: the free Put and Get functions of ByteBuffer.cpp.
    A `char *` into a buffer is an array with a position. */
module WireCodec {

  newtype Byte = x: int | 0 <= x < 256

  type Int32 = x: int | -0x8000_0000 <= x < 0x8000_0000

  type Bytes = seq<Byte>

  /** The low byte of a number, in two's complement. */
  function Low(x: int): Byte {
    (x % 256) as Byte
  }

  // ---- the format -----------------------------------------------------------------------

  datatype Field = ByteField(b: Int32) | ShortField(s: Int32) | IntField(i: Int32) | StringField(text: Bytes)

  function Encoded(f: Field): (r: Bytes) {
    match f
    case ByteField(b) => [Low(b)]
    case ShortField(s) => [Low(s / 256), Low(s)]
    case IntField(i) => [Low(i / 0x1_000000), Low(i / 0x1_0000), Low(i / 256), Low(i)]
    case StringField(text) =>
      if |text| < 255 then [|text| as Byte] + text
      else [0xFF, Low(|text| / 256), Low(|text|)] + text
  }

  /** The sizes announced by the Req functions. */
  function Required(f: Field): nat {
    match f
    case ByteField(_) => 1
    case ShortField(_) => 2
    case IntField(_) => 4
    case StringField(text) => if |text| < 255 then |text| + 1 else |text| + 3
  }

  lemma RequiredIsSize(f: Field)
    ensures |Encoded(f)| == Required(f)
  {
  }

  // ---- writing --------------------------------------------------------------------------

  ghost predicate Wrote(now: Bytes, was: Bytes, at: nat, data: Bytes)
    requires |now| == |was| && at + |data| <= |was|
  {
    now == was[..at] + data + was[at + |data|..]
  }

  method PutByte(buffer: array<Byte>, at: nat, val: Int32) returns (n: nat)
    requires at + 1 <= buffer.Length
    modifies buffer
    ensures n == 1 && Wrote(buffer[..], old(buffer[..]), at, Encoded(ByteField(val)))
  {
    buffer[at] := Low(val);
    n := 1;
  }

  method PutShort(buffer: array<Byte>, at: nat, val: Int32) returns (n: nat)
    requires at + 2 <= buffer.Length
    modifies buffer
    ensures n == 2 && Wrote(buffer[..], old(buffer[..]), at, Encoded(ShortField(val)))
  {
    buffer[at] := Low(val / 256);
    buffer[at + 1] := Low(val);
    n := 2;
  }

  method PutInteger(buffer: array<Byte>, at: nat, val: Int32) returns (n: nat)
    requires at + 4 <= buffer.Length
    modifies buffer
    ensures n == 4 && Wrote(buffer[..], old(buffer[..]), at, Encoded(IntField(val)))
  {
    buffer[at] := Low(val / 0x1_000000);
    buffer[at + 1] := Low(val / 0x1_0000);
    buffer[at + 2] := Low(val / 256);
    buffer[at + 3] := Low(val);
    n := 4;
  }

  /** Copies the text of a string behind its header. */
  method CopyBytes(buffer: array<Byte>, at: nat, data: Bytes, ghost was: Bytes, ghost head: Bytes)
    requires |was| == buffer.Length && |head| <= at && at + |data| <= buffer.Length
    requires Wrote(buffer[..], was, at - |head|, head)
    modifies buffer
    ensures Wrote(buffer[..], was, at - |head|, head + data)
  {
    ghost var mid := buffer[..];
    forall i | 0 <= i < |data| {
      buffer[at + i] := data[i];
    }
    assert buffer[..] == mid[..at] + data + mid[at + |data|..];
    WroteNext(buffer[..], mid, was, at - |head|, head, data);
  }

  /** Writing one piece and then another behind it writes the two together: messages are
      written field by field. */
  lemma WroteNext(now: Bytes, mid: Bytes, was: Bytes, at: nat, head: Bytes, text: Bytes)
    requires |now| == |mid| == |was| && at + |head| + |text| <= |was|
    requires Wrote(mid, was, at, head) && Wrote(now, mid, at + |head|, text)
    ensures Wrote(now, was, at, head + text)
  {
    assert mid[..at + |head|] == was[..at] + head;
    assert mid[at + |head| + |text|..] == was[at + |head| + |text|..];
  }

  method PutLongHeader(buffer: array<Byte>, at: nat, hi: Byte, lo: Byte)
    requires at + 3 <= buffer.Length
    modifies buffer
    ensures Wrote(buffer[..], old(buffer[..]), at, [0xFF, hi, lo])
  {
    buffer[at] := 0xFF;
    buffer[at + 2] := lo;
    buffer[at + 1] := hi;
  }

  method PutStringUTF(buffer: array<Byte>, at: nat, tocopy: Bytes) returns (n: nat)
    requires at + Required(StringField(tocopy)) <= buffer.Length
    modifies buffer
    ensures n == Required(StringField(tocopy))
    ensures Wrote(buffer[..], old(buffer[..]), at, Encoded(StringField(tocopy)))
  {
    var len := |tocopy|;
    ghost var was := buffer[..];
    if len < 255 {
      buffer[at] := len as Byte;
      CopyBytes(buffer, at + 1, tocopy, was, [len as Byte]);
      n := len + 1;
    } else {
      PutLongHeader(buffer, at, Low(len / 256), Low(len));
      CopyBytes(buffer, at + 3, tocopy, was, [0xFF, Low(len / 256), Low(len)]);
      n := len + 3;
    }
  }

  // ---- reading --------------------------------------------------------------------------

  datatype Kind = AByte | AShort | AnInt | AString(bufsize: nat)

  function ShortAt(data: Bytes, at: nat): nat
    requires at + 2 <= |data|
  {
    data[at] as int * 256 + data[at + 1] as int
  }

  function Signed(n: int): int {
    if n < 0x8000_0000 then n else n - 0x1_0000_0000
  }

  /** Where the text of a string starts and how long it is announced to be. */
  function TextStart(data: Bytes, at: nat): nat
    requires at < |data|
  {
    if data[at] == 0xFF then at + 3 else at + 1
  }

  function TextLength(data: Bytes, at: nat): nat
    requires at < |data| && TextStart(data, at) <= |data|
  {
    if data[at] == 0xFF then ShortAt(data, at + 1) else data[at] as int
  }

  /** The number of bytes a read needs; a string's text only as far as it is copied. */
  predicate Readable(data: Bytes, at: nat, k: Kind) {
    match k
    case AByte => at + 1 <= |data|
    case AShort => at + 2 <= |data|
    case AnInt => at + 4 <= |data|
    case AString(bufsize) =>
      bufsize > 0 && at < |data| && TextStart(data, at) <= |data| &&
      TextStart(data, at) + Copied(TextLength(data, at), bufsize) <= |data|
  }

  /** One byte of the receiving buffer is kept for the terminator. */
  function Copied(len: nat, bufsize: nat): nat
    requires bufsize > 0
  {
    if len > bufsize - 1 then bufsize - 1 else len
  }

  function Decoded(data: Bytes, at: nat, k: Kind): (Field, nat)
    requires Readable(data, at, k)
  {
    match k
    case AByte => (ByteField(data[at] as int), at + 1)
    case AShort => (ShortField(ShortAt(data, at)), at + 2)
    case AnInt => (IntField(Signed(ShortAt(data, at) * 0x1_0000 + ShortAt(data, at + 2))), at + 4)
    case AString(bufsize) =>
      var start, len := TextStart(data, at), TextLength(data, at);
      (StringField(data[start..start + Copied(len, bufsize)]), start + len)
  }

  method GetByte(buffer: array<Byte>, at: nat) returns (v: nat, advance: nat)
    requires Readable(buffer[..], at, AByte)
    ensures v < 256 && (ByteField(v), advance) == Decoded(buffer[..], at, AByte)
  {
    v, advance := buffer[at] as int, at + 1;
  }

  method GetShort(buffer: array<Byte>, at: nat) returns (v: nat, advance: nat)
    requires Readable(buffer[..], at, AShort)
    ensures v < 0x1_0000 && (ShortField(v), advance) == Decoded(buffer[..], at, AShort)
  {
    v, advance := buffer[at] as int * 256 + buffer[at + 1] as int, at + 2;
  }

  method GetInteger(buffer: array<Byte>, at: nat) returns (v: int, advance: nat)
    requires Readable(buffer[..], at, AnInt)
    ensures -0x8000_0000 <= v < 0x8000_0000 && (IntField(v), advance) == Decoded(buffer[..], at, AnInt)
  {
    var n := buffer[at] as int * 0x1_000000 + buffer[at + 1] as int * 0x1_0000 +
             buffer[at + 2] as int * 256 + buffer[at + 3] as int;
    v, advance := Signed(n), at + 4;
  }

  /** The text goes into `recbuf`, terminated; `bufsize` may be smaller than the text. */
  method GetStringUTF(buffer: array<Byte>, at: nat, recbuf: array<Byte>, bufsize: nat) returns (advance: nat)
    requires buffer != recbuf && 0 < bufsize <= recbuf.Length
    requires Readable(buffer[..], at, AString(bufsize))
    modifies recbuf
    ensures var (f, next) := Decoded(buffer[..], at, AString(bufsize));
            advance == next && |f.text| < bufsize && recbuf[..|f.text|] == f.text && recbuf[|f.text|] == 0
  {
    var len, pos := buffer[at] as int, 1;
    if len == 0xFF {
      len := buffer[at + 1] as int * 256 + buffer[at + 2] as int;
      pos := 3;
    }
    var tocopy := len;
    if tocopy > bufsize - 1 {
      tocopy := bufsize - 1;
    }
    ReceiveText(buffer, at + pos, recbuf, tocopy);
    advance := at + len + pos;
  }

  method ReceiveText(buffer: array<Byte>, from: nat, recbuf: array<Byte>, n: nat)
    requires buffer != recbuf && n < recbuf.Length && from + n <= buffer.Length
    modifies recbuf
    ensures recbuf[..n] == buffer[..][from..from + n] && recbuf[n] == 0
  {
    forall i | 0 <= i < n {
      recbuf[i] := buffer[from + i];
    }
    recbuf[n] := 0;
  }

  // ---- round trips ----------------------------------------------------------------------

  ghost predicate KindOf(f: Field, k: Kind) {
    match f
    case ByteField(_) => k.AByte?
    case ShortField(_) => k.AShort?
    case IntField(_) => k.AnInt?
    case StringField(_) => k.AString? && k.bufsize > 0
  }

  /** What a reader of the given kind can recover: bytes and shorts up to their width, and as
      much of a string as its buffer holds. */
  function Recovered(f: Field, k: Kind): Field
    requires KindOf(f, k)
  {
    match f
    case ByteField(b) => ByteField(b % 256)
    case ShortField(s) => ShortField(s % 0x1_0000)
    case IntField(i) => f
    case StringField(text) => StringField(text[..Copied(|text|, k.bufsize)])
  }

  predicate Fits(f: Field) {
    f.StringField? ==> |f.text| <= 65535
  }

  ghost predicate Holds(data: Bytes, at: nat, piece: Bytes) {
    at + |piece| <= |data| && forall i :: 0 <= i < |piece| ==> data[at + i] == piece[i]
  }

  /** What has been written can be read, and stays readable while later pieces are written
      behind it. */
  lemma WrittenHolds(now: Bytes, was: Bytes, at: nat, piece: Bytes, from: nat, earlier: Bytes)
    requires |now| == |was| && at + |piece| <= |was| && Wrote(now, was, at, piece)
    requires from + |earlier| <= at && Holds(was, from, earlier)
    ensures Holds(now, at, piece) && Holds(now, from, earlier)
  {
    forall i | 0 <= i < |piece| ensures now[at + i] == piece[i] {}
    forall i | 0 <= i < |earlier| ensures now[from + i] == earlier[i] {}
  }

  lemma HoldsAt(data: Bytes, at: nat, piece: Bytes, i: nat)
    requires Holds(data, at, piece) && i < |piece|
    ensures data[at + i] == piece[i]
  {
  }

  lemma IntBytes(i: Int32)
    ensures Signed(((Low(i / 0x1_000000) as int * 256 + Low(i / 0x1_0000) as int) * 0x1_0000 +
                    Low(i / 256) as int * 256 + Low(i) as int)) == i
  {
    assert i / 0x1_0000 / 256 == i / 0x1_000000;
    assert i / 256 / 256 == i / 0x1_0000;
  }

  lemma ShortBytes(s: int)
    ensures Low(s / 256) as int * 256 + Low(s) as int == s % 0x1_0000
  {
  }

  /** One field, wherever it stands: it is recovered and the reader lands on the next field,
      even when the receiving buffer is too small for the string. */
  lemma FieldRoundTrip(data: Bytes, at: nat, f: Field, k: Kind)
    requires KindOf(f, k) && Fits(f) && Holds(data, at, Encoded(f))
    ensures Readable(data, at, k) && Decoded(data, at, k) == (Recovered(f, k), at + Required(f))
  {
    match f
    case ByteField(b) => HoldsAt(data, at, Encoded(f), 0);
    case ShortField(s) => ShortReads(data, at, s);
    case IntField(i) => IntReads(data, at, i);
    case StringField(text) => StringReads(data, at, text, k.bufsize);
  }

  lemma ShortReads(data: Bytes, at: nat, s: Int32)
    requires Holds(data, at, Encoded(ShortField(s)))
    ensures at + 2 <= |data| && ShortAt(data, at) == s % 0x1_0000
  {
    HoldsAt(data, at, Encoded(ShortField(s)), 0);
    HoldsAt(data, at, Encoded(ShortField(s)), 1);
    ShortBytes(s);
  }

  lemma IntReads(data: Bytes, at: nat, i: Int32)
    requires Holds(data, at, Encoded(IntField(i)))
    ensures at + 4 <= |data| && Signed(ShortAt(data, at) * 0x1_0000 + ShortAt(data, at + 2)) == i
  {
    var e := Encoded(IntField(i));
    HoldsAt(data, at, e, 0);
    HoldsAt(data, at, e, 1);
    HoldsAt(data, at, e, 2);
    HoldsAt(data, at, e, 3);
    IntBytes(i);
  }

  /** The header says where the text starts and, up to 65535 bytes, how long it is. */
  lemma StringHeader(data: Bytes, at: nat, text: Bytes)
    requires Holds(data, at, Encoded(StringField(text)))
    ensures at < |data| && TextStart(data, at) == at + Required(StringField(text)) - |text| <= |data|
    ensures TextLength(data, at) == |text| % 0x1_0000
  {
    var e := Encoded(StringField(text));
    HoldsAt(data, at, e, 0);
    if |text| >= 255 {
      HoldsAt(data, at, e, 1);
      HoldsAt(data, at, e, 2);
      ShortBytes(|text|);
    }
  }

  lemma StringReads(data: Bytes, at: nat, text: Bytes, bufsize: nat)
    requires bufsize > 0 && |text| <= 65535 && Holds(data, at, Encoded(StringField(text)))
    ensures Readable(data, at, AString(bufsize))
    ensures Decoded(data, at, AString(bufsize)) ==
            (StringField(text[..Copied(|text|, bufsize)]), at + Required(StringField(text)))
  {
    StringHeader(data, at, text);
    var e, c := Encoded(StringField(text)), Copied(|text|, bufsize);
    HoldsPart(data, at, e, |e| - |text|, c);
    TextOfEncoded(text, c);
  }

  lemma TextOfEncoded(text: Bytes, c: nat)
    requires c <= |text|
    ensures var e := Encoded(StringField(text)); |e| >= |text| && e[|e| - |text|..][..c] == text[..c]
  {
    var e := Encoded(StringField(text));
    if |text| < 255 {
      assert e[1..] == text;
    } else {
      assert e[3..] == text;
    }
  }

  lemma HoldsPart(data: Bytes, at: nat, e: Bytes, from: nat, n: nat)
    requires Holds(data, at, e) && from + n <= |e|
    ensures data[at + from..at + from + n] == e[from..][..n]
  {
    assert forall i :: 0 <= i < n ==> e[from..][..n][i] == e[from + i];
  }

  /** The reader of one string lands on the next field exactly when the text has at most
      65535 bytes; a longer text is written in full under a wrapped length. */
  lemma StringLandsIff(data: Bytes, at: nat, text: Bytes, bufsize: nat)
    requires bufsize > 0 && Holds(data, at, Encoded(StringField(text)))
    ensures Readable(data, at, AString(bufsize))
    ensures Decoded(data, at, AString(bufsize)).1 == at + Required(StringField(text)) <==> |text| <= 65535
  {
    StringHeader(data, at, text);
  }

  // ---- messages -------------------------------------------------------------------------

  function Laid(pieces: seq<Bytes>, n: nat): Bytes
    requires n <= |pieces|
  {
    if n == 0 then [] else Laid(pieces, n - 1) + pieces[n - 1]
  }

  function Encodings(fs: seq<Field>): (r: seq<Bytes>)
    ensures |r| == |fs| && forall i :: 0 <= i < |fs| ==> r[i] == Encoded(fs[i])
  {
    seq(|fs|, i requires 0 <= i < |fs| => Encoded(fs[i]))
  }

  /** The fields of a message, written one after the other. */
  function Message(fs: seq<Field>): Bytes {
    Laid(Encodings(fs), |fs|)
  }

  /** What the Req functions announce for the first `n` fields. */
  function Offset(fs: seq<Field>, n: nat): nat
    requires n <= |fs|
  {
    if n == 0 then 0 else Offset(fs, n - 1) + Required(fs[n - 1])
  }

  lemma {:induction false} LaidSize(pieces: seq<Bytes>, fs: seq<Field>, n: nat)
    requires n <= |pieces| == |fs| && forall i :: 0 <= i < |fs| ==> |pieces[i]| == Required(fs[i])
    ensures |Laid(pieces, n)| == Offset(fs, n)
  {
    if n > 0 {
      LaidSize(pieces, fs, n - 1);
    }
  }

  lemma HoldsBoth(data: Bytes, at: nat, a: Bytes, b: Bytes)
    requires Holds(data, at, a + b)
    ensures Holds(data, at, a) && Holds(data, at + |a|, b)
  {
    forall i | 0 <= i < |a| ensures data[at + i] == a[i] {
      assert (a + b)[i] == a[i];
    }
    forall i | 0 <= i < |b| ensures data[at + |a| + i] == b[i] {
      assert (a + b)[|a| + i] == b[i];
    }
  }

  lemma {:induction false} PieceLies(data: Bytes, at: nat, pieces: seq<Bytes>, n: nat, i: nat)
    requires i < n <= |pieces| && Holds(data, at, Laid(pieces, n))
    ensures Holds(data, at + |Laid(pieces, i)|, pieces[i])
  {
    HoldsBoth(data, at, Laid(pieces, n - 1), pieces[n - 1]);
    if i < n - 1 {
      PieceLies(data, at, pieces, n - 1, i);
    }
  }

  /** Reading a message field by field, each from where the one before it ended: every field
      is recovered, and the reader ends behind the bytes written. */
  ghost predicate ReadsBack(data: Bytes, at: nat, fs: seq<Field>, ks: seq<Kind>)
    requires |fs| == |ks|
  {
    && Offset(fs, |fs|) == |Message(fs)|
    && forall i :: 0 <= i < |fs| ==> FieldReadsBack(data, at, fs, ks, i)
  }

  ghost predicate FieldReadsBack(data: Bytes, at: nat, fs: seq<Field>, ks: seq<Kind>, i: nat)
    requires i < |fs| == |ks|
  {
    var here := at + Offset(fs, i);
    && Readable(data, here, ks[i])
    && KindOf(fs[i], ks[i])
    && Decoded(data, here, ks[i]) == (Recovered(fs[i], ks[i]), at + Offset(fs, i + 1))
  }

  /** Any message of any fields, wherever it stands in the data, reads back. */
  lemma MessageRoundTrip(data: Bytes, at: nat, fs: seq<Field>, ks: seq<Kind>)
    requires |fs| == |ks| && forall i :: 0 <= i < |fs| ==> KindOf(fs[i], ks[i]) && Fits(fs[i])
    requires Holds(data, at, Message(fs))
    ensures ReadsBack(data, at, fs, ks)
  {
    EncodingSizes(fs);
    LaidSize(Encodings(fs), fs, |fs|);
    forall i | 0 <= i < |fs| ensures FieldReadsBack(data, at, fs, ks, i) {
      LaidSize(Encodings(fs), fs, i);
      PieceLies(data, at, Encodings(fs), |fs|, i);
      PieceReadsBack(data, at, fs, ks, i, Encodings(fs)[i]);
    }
  }

  lemma EncodingSizes(fs: seq<Field>)
    ensures forall i :: 0 <= i < |fs| ==> |Encodings(fs)[i]| == Required(fs[i])
  {
    forall i | 0 <= i < |fs| ensures |Encodings(fs)[i]| == Required(fs[i]) {
      RequiredIsSize(fs[i]);
    }
  }

  lemma PieceReadsBack(data: Bytes, at: nat, fs: seq<Field>, ks: seq<Kind>, i: nat, piece: Bytes)
    requires i < |fs| == |ks| && KindOf(fs[i], ks[i]) && Fits(fs[i])
    requires piece == Encoded(fs[i]) && Holds(data, at + Offset(fs, i), piece)
    ensures FieldReadsBack(data, at, fs, ks, i)
  {
    FieldRoundTrip(data, at + Offset(fs, i), fs[i], ks[i]);
    OffsetNext(fs, i);
  }

  lemma OffsetNext(fs: seq<Field>, i: nat)
    requires i < |fs|
    ensures Offset(fs, i + 1) == Offset(fs, i) + Required(fs[i])
  {
  }

  // ---- writing and reading messages -----------------------------------------------------

  method PutField(buffer: array<Byte>, at: nat, f: Field) returns (n: nat)
    requires at + Required(f) <= buffer.Length
    modifies buffer
    ensures n == Required(f) == |Encoded(f)| && Wrote(buffer[..], old(buffer[..]), at, Encoded(f))
  {
    match f {
      case ByteField(b) => n := PutByte(buffer, at, b);
      case ShortField(s) => n := PutShort(buffer, at, s);
      case IntField(i) => n := PutInteger(buffer, at, i);
      case StringField(text) => n := PutStringUTF(buffer, at, text);
    }
    RequiredIsSize(f);
  }

  /** One Put call behind the pieces already written. */
  method PutNext(buffer: array<Byte>, at: nat, f: Field, ghost was: Bytes, ghost head: Bytes, ghost piece: Bytes)
    returns (n: nat)
    requires IsPiece(piece, f) && |was| == buffer.Length && |head| <= at && at + |piece| <= buffer.Length
    requires Wrote(buffer[..], was, at - |head|, head)
    modifies buffer
    ensures n == |piece| && Wrote(buffer[..], was, at - |head|, head + piece)
  {
    ghost var mid := buffer[..];
    RequiredIsSize(f);
    n := PutField(buffer, at, f);
    WroteNext(buffer[..], mid, was, at - |head|, head, piece);
  }

  ghost predicate IsPiece(piece: Bytes, f: Field) {
    piece == Encoded(f)
  }

  lemma LaidGrows(pieces: seq<Bytes>, i: nat)
    requires i < |pieces|
    ensures Laid(pieces, i + 1) == Laid(pieces, i) + pieces[i]
    ensures |Laid(pieces, i)| + |pieces[i]| == |Laid(pieces, i + 1)| <= |Laid(pieces, |pieces|)|
  {
    LaidMonotone(pieces, i + 1, |pieces|);
  }

  lemma {:induction false} LaidMonotone(pieces: seq<Bytes>, m: nat, n: nat)
    requires m <= n <= |pieces|
    ensures |Laid(pieces, m)| <= |Laid(pieces, n)|
  {
    if m < n {
      LaidMonotone(pieces, m, n - 1);
    }
  }

  ghost predicate ArePieces(pieces: seq<Bytes>, fs: seq<Field>) {
    |pieces| == |fs| && forall j :: 0 <= j < |fs| ==> IsPiece(pieces[j], fs[j])
  }

  /** The first `i` pieces have been written, and `wpos` is the position behind them. */
  ghost predicate Progress(now: Bytes, was: Bytes, at: nat, pieces: seq<Bytes>, i: nat, wpos: nat) {
    && i <= |pieces| && |now| == |was| && wpos == at + |Laid(pieces, i)| <= |was|
    && Wrote(now, was, at, Laid(pieces, i))
  }

  method PutAt(buffer: array<Byte>, at: nat, wpos: nat, fs: seq<Field>, i: nat, ghost pieces: seq<Bytes>, ghost was: Bytes)
    returns (next: nat)
    requires ArePieces(pieces, fs) && i < |fs| && at + |Laid(pieces, |pieces|)| <= |was|
    requires Progress(buffer[..], was, at, pieces, i, wpos)
    modifies buffer
    ensures Progress(buffer[..], was, at, pieces, i + 1, next)
  {
    assert IsPiece(pieces[i], fs[i]);
    LaidGrows(pieces, i);
    var n := PutNext(buffer, wpos, fs[i], was, Laid(pieces, i), pieces[i]);
    next := wpos + n;
  }

  method PutPieces(buffer: array<Byte>, at: nat, fs: seq<Field>, ghost pieces: seq<Bytes>) returns (wpos: nat)
    requires ArePieces(pieces, fs) && at + |Laid(pieces, |pieces|)| <= buffer.Length
    modifies buffer
    ensures Progress(buffer[..], old(buffer[..]), at, pieces, |pieces|, wpos)
  {
    wpos := at;
    ghost var was := buffer[..];
    NothingYet(was, at, pieces);
    for i := 0 to |fs|
      invariant Progress(buffer[..], was, at, pieces, i, wpos)
    {
      wpos := PutAt(buffer, at, wpos, fs, i, pieces, was);
    }
  }

  lemma NothingYet(was: Bytes, at: nat, pieces: seq<Bytes>)
    requires at <= |was|
    ensures Progress(was, was, at, pieces, 0, at)
  {
  }

  /** Messages are built by Put calls, each behind the one before it. */
  method PutMessage(buffer: array<Byte>, at: nat, fs: seq<Field>) returns (wpos: nat)
    requires at + Offset(fs, |fs|) <= buffer.Length
    modifies buffer
    ensures wpos == at + Offset(fs, |fs|) == at + |Message(fs)|
    ensures Wrote(buffer[..], old(buffer[..]), at, Message(fs))
  {
    EncodingSizes(fs);
    LaidSize(Encodings(fs), fs, |fs|);
    wpos := PutPieces(buffer, at, fs, Encodings(fs));
  }

  function RecoveredAll(fs: seq<Field>, ks: seq<Kind>): (r: seq<Field>)
    requires |fs| == |ks| && forall i :: 0 <= i < |fs| ==> KindOf(fs[i], ks[i])
    ensures |r| == |fs| && forall i :: 0 <= i < |fs| ==> r[i] == Recovered(fs[i], ks[i])
  {
    seq(|fs|, i requires 0 <= i < |fs| => Recovered(fs[i], ks[i]))
  }

  method GetField(buffer: array<Byte>, at: nat, k: Kind) returns (f: Field, next: nat)
    requires Readable(buffer[..], at, k)
    ensures (f, next) == Decoded(buffer[..], at, k)
  {
    match k {
      case AByte =>
        var v, a := GetByte(buffer, at);
        f, next := ByteField(v), a;
      case AShort =>
        var v, a := GetShort(buffer, at);
        f, next := ShortField(v), a;
      case AnInt =>
        var v, a := GetInteger(buffer, at);
        f, next := IntField(v), a;
      case AString(bufsize) =>
        var recbuf := new Byte[bufsize];
        ghost var data := buffer[..];
        next := GetStringUTF(buffer, at, recbuf, bufsize);
        assert buffer[..] == data;
        f := StringField(recbuf[..Copied(TextLength(buffer[..], at), bufsize)]);
    }
  }

  /** One Get call at the place of field `i`. */
  method GetNext(buffer: array<Byte>, here: nat, ks: seq<Kind>, i: nat, ghost at: nat, ghost fs: seq<Field>, ghost r: Field)
    returns (f: Field, next: nat)
    requires i < |fs| == |ks| && here == at + Offset(fs, i) && FieldReadsBack(buffer[..], at, fs, ks, i)
    requires IsRecovered(r, fs[i], ks[i])
    ensures f == r && next == at + Offset(fs, i + 1)
  {
    f, next := GetField(buffer, here, ks[i]);
  }

  ghost predicate IsRecovered(r: Field, f: Field, k: Kind) {
    KindOf(f, k) && r == Recovered(f, k)
  }

  method GetFields(buffer: array<Byte>, at: nat, ks: seq<Kind>, ghost fs: seq<Field>, ghost rs: seq<Field>)
    returns (got: seq<Field>, next: nat)
    requires |rs| == |fs| == |ks| && forall i :: 0 <= i < |fs| ==> IsRecovered(rs[i], fs[i], ks[i])
    requires forall i :: 0 <= i < |fs| ==> FieldReadsBack(buffer[..], at, fs, ks, i)
    ensures got == rs && next == at + Offset(fs, |fs|)
  {
    got, next := [], at;
    ghost var data := buffer[..];
    for i := 0 to |ks|
      invariant buffer[..] == data && next == at + Offset(fs, i) && got == rs[..i]
    {
      assert FieldReadsBack(data, at, fs, ks, i);
      var f, n := GetNext(buffer, next, ks, i, at, fs, rs[i]);
      assert rs[..i + 1] == rs[..i] + [rs[i]];
      got, next := got + [f], n;
    }
    assert rs[..|ks|] == rs;
  }

  /** Reading a written message by Get calls, each from where the one before it stopped. */
  method GetMessage(buffer: array<Byte>, at: nat, ks: seq<Kind>, ghost fs: seq<Field>)
    returns (got: seq<Field>, next: nat)
    requires |fs| == |ks| && forall i :: 0 <= i < |fs| ==> KindOf(fs[i], ks[i]) && Fits(fs[i])
    requires Holds(buffer[..], at, Message(fs))
    ensures got == RecoveredAll(fs, ks) && next == at + Offset(fs, |fs|)
  {
    MessageRoundTrip(buffer[..], at, fs, ks);
    got, next := GetFields(buffer, at, ks, fs, RecoveredAll(fs, ks));
  }

  /** Whatever was in the buffer: what PutMessage writes, GetMessage can read. */
  lemma WrittenReadsBack(now: Bytes, was: Bytes, at: nat, fs: seq<Field>, ks: seq<Kind>)
    requires |fs| == |ks| && forall i :: 0 <= i < |fs| ==> KindOf(fs[i], ks[i]) && Fits(fs[i])
    requires |now| == |was| && at + |Message(fs)| <= |was| && Wrote(now, was, at, Message(fs))
    ensures Holds(now, at, Message(fs)) && ReadsBack(now, at, fs, ks)
  {
    WrittenHolds(now, was, at, Message(fs), 0, []);
    MessageRoundTrip(now, at, fs, ks);
  }

  // ---- the byte order -------------------------------------------------------------------

  /** The value that bytes stand for, most significant first. */
  function BigEndian(bytes: Bytes): nat {
    if |bytes| == 0 then 0 else 256 * BigEndian(bytes[..|bytes| - 1]) + bytes[|bytes| - 1] as int
  }

  /** Numbers are written most significant byte first, negative ones in two's complement. */
  lemma NumbersBigEndian(v: Int32)
    ensures BigEndian(Encoded(ByteField(v))) == v % 0x100
    ensures BigEndian(Encoded(ShortField(v))) == v % 0x1_0000
    ensures BigEndian(Encoded(IntField(v))) == v % 0x1_0000_0000
  {
    BigEndian1(Low(v));
    BigEndian2(Low(v / 256), Low(v));
    BigEndian4(Low(v / 0x1_000000), Low(v / 0x1_0000), Low(v / 256), Low(v));
    ShortBytes(v);
    IntBytes(v);
    UnsignedOf(v, BigEndian(Encoded(IntField(v))));
  }

  lemma BigEndian1(a: Byte)
    ensures BigEndian([a]) == a as int
  {
    assert [a][..0] == [];
  }

  lemma BigEndian2(a: Byte, b: Byte)
    ensures BigEndian([a, b]) == a as int * 256 + b as int
  {
    BigEndian1(a);
    assert [a, b][..1] == [a];
  }

  lemma BigEndian4(a: Byte, b: Byte, c: Byte, d: Byte)
    ensures BigEndian([a, b, c, d]) == (a as int * 256 + b as int) * 0x1_0000 + c as int * 256 + d as int
  {
    BigEndian2(a, b);
    assert [a, b, c][..2] == [a, b];
    assert BigEndian([a, b, c]) == 256 * BigEndian([a, b]) + c as int;
    assert [a, b, c, d][..3] == [a, b, c];
  }

  lemma UnsignedOf(v: Int32, n: nat)
    requires n < 0x1_0000_0000 && Signed(n) == v
    ensures n == v % 0x1_0000_0000
  {
  }

  /** A text of up to 254 bytes follows one byte with its length; a longer one follows 0xFF and
      two bytes, most significant first. */
  lemma TextHeader(text: Bytes)
    ensures var e := Encoded(StringField(text));
            && (|text| <= 254 ==> |e| == 1 + |text| && e[0] as int == |text| && e[1..] == text)
            && (|text| >= 255 ==> |e| == 3 + |text| && e[0] == 255 && BigEndian(e[1..3]) == |text| % 0x1_0000 && e[3..] == text)
  {
    var e := Encoded(StringField(text));
    if |text| >= 255 {
      var hi, lo := Low(|text| / 256), Low(|text|);
      BigEndian2(hi, lo);
      ShortBytes(|text|);
      LongHeader([0xFF, hi, lo], text);
    } else {
      assert e[1..] == text;
    }
  }

  lemma LongHeader(head: Bytes, text: Bytes)
    requires |head| == 3
    ensures (head + text)[1..3] == [head[1], head[2]] && (head + text)[3..] == text && (head + text)[0] == head[0]
  {
  }

  // ---- what is recovered ----------------------------------------------------------------

  /** Bytes and shorts come back unsigned, integers as they were, and of a text as many bytes as
      leave room for the terminator: the whole of it exactly if the buffer is longer. */
  lemma RecoveredIs(v: Int32, text: Bytes, bufsize: nat)
    requires bufsize > 0
    ensures Recovered(ByteField(v), AByte) == ByteField(v % 256)
    ensures Recovered(ShortField(v), AShort) == ShortField(v % 65536)
    ensures Recovered(IntField(v), AnInt) == IntField(v)
    ensures Recovered(StringField(text), AString(bufsize)) ==
            StringField(if |text| < bufsize then text else text[..bufsize - 1])
  {
    assert text[..|text|] == text;
  }
}
