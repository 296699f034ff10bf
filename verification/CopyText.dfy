/**
 * The text format of COPY for one attribute: the escaping encoder and the unescaping decoder
 * (encoder.go:24-81, decoder.go:24-153, common.go:17-20).
 */
module CopyText {

  type Byte = b: int | 0 <= b < 256

  const TAB: Byte := 9
  const BACKSLASH: Byte := 92
  const LETTER_N: Byte := 78
  const DOT: Byte := 46
  const LETTER_X: Byte := 120

  const NULL_SEQ: seq<Byte> := [BACKSLASH, LETTER_N]
  const TERMINATION_SEQ: seq<Byte> := [BACKSLASH, DOT]

  datatype RawValue = Null | Data(data: seq<Byte>)

  // ---------------------------------------------------------------- encoding

  /** The text starts with the NULL marker or with the end-of-data marker. */
  predicate Marker(d: seq<Byte>) {
    NULL_SEQ <= d || TERMINATION_SEQ <= d
  }

  /** Control bytes with a letter escape: backspace, tab, newline, vertical tab, form feed, carriage return. */
  predicate Listed(b: Byte) {
    8 <= b <= 13
  }

  predicate Unlisted(b: Byte) {
    b < 32 && !Listed(b)
  }

  function Letter(b: Byte): (r: Byte)
    requires Listed(b)
    ensures Named(r) && Meaning(r) == b
  {
    [98, 116, 110, 118, 102, 114][b - 8]
  }

  function EncodeByte(b: Byte): seq<Byte> {
    if Listed(b) then [BACKSLASH, Letter(b)]
    else if b < 32 then [b, BACKSLASH, b]
    else if b == BACKSLASH then [BACKSLASH, BACKSLASH]
    else [b]
  }

  function From(d: seq<Byte>, i: nat): (rest: seq<Byte>)
    ensures 0 < i && d != [] ==> |rest| < |d|
  {
    if i <= |d| then d[i..] else []
  }

  /** A marker is escaped as a whole and the byte after it is passed over. */
  function Encoded(d: seq<Byte>): seq<Byte>
    decreases |d|
  {
    if d == [] then []
    else if Marker(d) then [BACKSLASH, BACKSLASH, d[1]] + Encoded(From(d, 3))
    else EncodeByte(d[0]) + Encoded(d[1..])
  }

  method EncodeAttr(v: RawValue, buf: seq<Byte>) returns (text: seq<Byte>)
    ensures v.Null? ==> text == NULL_SEQ
    ensures v.Data? ==> text == buf + Encoded(v.data)
  {
    if v.Null? {
      return NULL_SEQ;
    }
    var data := v.data;
    text := buf;
    var i := 0;
    while i < |data|
      invariant 0 <= i
      invariant text + Encoded(From(data, i)) == buf + Encoded(data)
    {
      FromShifts(data, i);
      ghost var before, start := text, i;
      if |data| - i >= |NULL_SEQ| && data[i..i + |NULL_SEQ|] == NULL_SEQ {
        text := text + [BACKSLASH] + NULL_SEQ;
        i := i + |NULL_SEQ|;
      } else if |data| - i >= |TERMINATION_SEQ| && data[i..i + |TERMINATION_SEQ|] == TERMINATION_SEQ {
        text := text + [BACKSLASH] + TERMINATION_SEQ;
        i := i + |TERMINATION_SEQ|;
      } else {
        var c := data[i];
        if c < 32 {
          match c {
            case 8 => c := 98;
            case 12 => c := 102;
            case 10 => c := 110;
            case 13 => c := 114;
            case 9 => c := 116;
            case 11 => c := 118;
            case _ =>
              if c != TAB {
                text := text + [c];
              }
          }
          text := text + [BACKSLASH, c];
        } else if c == BACKSLASH || c == TAB {
          text := text + [BACKSLASH, c];
        } else {
          text := text + [c];
        }
        assert text == before + EncodeByte(data[i]) by {
          hide Encoded;
        }
      }
      i := i + 1;
      EncodedStep(before, text, data, start, i);
    }
  }

  lemma EncodedStep(before: seq<Byte>, text: seq<Byte>, d: seq<Byte>, i: nat, next: nat)
    requires i < |d|
    requires if Marker(From(d, i)) then next == i + 3 && text == before + [BACKSLASH, BACKSLASH, d[i + 1]]
             else next == i + 1 && text == before + EncodeByte(d[i])
    ensures text + Encoded(From(d, next)) == before + Encoded(From(d, i))
  {
    hide Encoded, Marker, From, EncodeByte;
    FromShifts(d, i);
    UnfoldEncoded(From(d, i));
  }

  lemma UnfoldEncoded(d: seq<Byte>)
    requires d != []
    ensures if Marker(d) then |d| >= 2 && Encoded(d) == [BACKSLASH, BACKSLASH, d[1]] + Encoded(From(d, 3))
            else Encoded(d) == EncodeByte(d[0]) + Encoded(d[1..])
  {
  }

  lemma FromShifts(d: seq<Byte>, i: nat)
    requires i < |d|
    ensures From(d, i) != [] && From(d, i)[0] == d[i] && (|From(d, i)| >= 2 ==> From(d, i)[1] == d[i + 1])
    ensures From(d, i)[1..] == From(d, i + 1) && From(From(d, i), 3) == From(d, i + 3)
    ensures NULL_SEQ <= From(d, i) <==> |d| - i >= 2 && d[i..i + 2] == NULL_SEQ
    ensures TERMINATION_SEQ <= From(d, i) <==> |d| - i >= 2 && d[i..i + 2] == TERMINATION_SEQ
  {
    if |d| - i >= 2 {
      assert From(d, i)[..2] == d[i..i + 2];
    }
  }

  // ---------------------------------------------------------------- decoding

  predicate IsOctal(c: Byte) {
    48 <= c <= 55
  }

  predicate IsDecimal(c: Byte) {
    48 <= c <= 57
  }

  predicate IsHexDigit(c: Byte) {
    IsDecimal(c) || 97 <= c <= 102 || 65 <= c <= 70
  }

  /** The letters of the control escapes. */
  predicate Named(c: Byte) {
    c in [98, 102, 110, 114, 116, 118]
  }

  function Meaning(c: Byte): Byte
    requires Named(c)
  {
    match c
    case 98 => 8
    case 102 => 12
    case 110 => 10
    case 114 => 13
    case 116 => 9
    case _ => 11
  }

  function HexValue(c: Byte): (r: Byte)
    requires IsHexDigit(c)
    ensures r < 16
  {
    if IsDecimal(c) then c - 48 else if c <= 70 then c - 65 + 10 else c - 97 + 10
  }

  /** One unit of the text: how many bytes it takes, the byte it stands for, whether it asks for a UTF-8 check. */
  datatype Unit = Unit(size: nat, byte: Byte, nonAscii: bool)

  /** Up to three octal digits; the value is kept in one byte. */
  function OctalUnit(raw: seq<Byte>): Unit
    requires |raw| >= 2 && IsOctal(raw[1])
  {
    var a: int := raw[1] - 48;
    if |raw| == 2 || !IsOctal(raw[2]) then ByteUnit(2, a)
    else if |raw| == 3 || !IsOctal(raw[3]) then ByteUnit(3, 8 * a + (raw[2] - 48))
    else ByteUnit(4, (64 * a + 8 * (raw[2] - 48) + (raw[3] - 48)) % 256)
  }

  function ByteUnit(size: nat, value: Byte): Unit {
    Unit(size, value, value == 0 || value >= 128)
  }

  /** Up to two hexadecimal digits, without any the escape stands for a zero byte; no UTF-8 check is asked for. */
  function HexUnit(raw: seq<Byte>): Unit
    requires |raw| >= 2
  {
    if |raw| == 2 || !IsHexDigit(raw[2]) then Unit(2, 0, false)
    else if |raw| == 3 || !IsHexDigit(raw[3]) then Unit(3, HexValue(raw[2]), false)
    else Unit(4, 16 * HexValue(raw[2]) + HexValue(raw[3]), false)
  }

  predicate LoneBackslash(raw: seq<Byte>) {
    raw == [BACKSLASH]
  }

  function FirstUnit(raw: seq<Byte>): (u: Unit)
    requires raw != [] && !LoneBackslash(raw)
    ensures 0 < u.size <= |raw|
  {
    if raw[0] != BACKSLASH then Unit(1, raw[0], false)
    else if IsOctal(raw[1]) then OctalUnit(raw)
    else if raw[1] == LETTER_X then HexUnit(raw)
    else if Named(raw[1]) then Unit(2, Meaning(raw[1]), false)
    else Unit(2, raw[1], false)
  }

  datatype Text = Broken | Bytes(bytes: seq<Byte>, nonAscii: bool)

  function Prepend(u: Unit, rest: Text): Text {
    if rest.Broken? then Broken else Bytes([u.byte] + rest.bytes, u.nonAscii || rest.nonAscii)
  }

  /** The bytes that an escaped text stands for; `Broken` when it ends in a backslash with nothing to escape. */
  function Unescaped(raw: seq<Byte>): Text {
    if raw == [] then Bytes([], false)
    else if LoneBackslash(raw) then Broken
    else var u := FirstUnit(raw); Prepend(u, Unescaped(raw[u.size..]))
  }

  datatype AttrResult = Panic | Value(value: RawValue)

  function Decoded(raw: seq<Byte>, buf: seq<Byte>, validUtf8: seq<Byte> -> bool): AttrResult {
    if raw == NULL_SEQ then Value(Null)
    else var t := Unescaped(raw);
      if t.Broken? || (t.nonAscii && !validUtf8(buf + t.bytes)) then Panic else Value(Data(buf + t.bytes))
  }

  method DecodeAttr(raw: seq<Byte>, buf: seq<Byte>, validUtf8: seq<Byte> -> bool) returns (outcome: AttrResult)
    ensures outcome == Decoded(raw, buf, validUtf8)
  {
    hide FirstUnit, Resume, Prepend;
    if raw == NULL_SEQ {
      return Value(Null);
    }
    var out := buf;
    var sawNonAscii := false;
    var i := 0;
    ResumeFresh(buf, Unescaped(raw));
    assert raw[0..] == raw;
    while i < |raw|
      invariant 0 <= i <= |raw|
      invariant Resume(out, sawNonAscii, Unescaped(raw[i..])) == Resume(buf, false, Unescaped(raw))
    {
      ghost var out0, saw0, start := out, sawNonAscii, i;
      FirstUnitAt(raw, i);
      var c := raw[i];
      if c == BACKSLASH {
        if i + 1 >= |raw| {
          NothingToResume(out, sawNonAscii, buf, raw, i);
          return Panic;
        }
        i := i + 1;
        c := raw[i];
        if IsOctal(c) {
          i, c := ReadOctal(raw, i);
          if c == 0 || c >= 128 {
            sawNonAscii := true;
          }
        } else if c == LETTER_X {
          i, c := ReadHex(raw, i);
          if c == 0 && c >= 128 {
            sawNonAscii := true;
          }
        } else {
          match c {
            case 98 => c := 8;
            case 102 => c := 12;
            case 110 => c := 10;
            case 114 => c := 13;
            case 116 => c := 9;
            case 118 => c := 11;
            case _ =>
          }
        }
      }
      out := out + [c];
      i := i + 1;
      ghost var u := FirstUnit(raw[start..]);
      assert u.size == i - start && u.byte == c && sawNonAscii == (saw0 || u.nonAscii);
      assert raw[start..][i - start..] == raw[i..];
      ResumeStep(out0, saw0, u, Unescaped(raw[i..]));
    }
    NothingLeft(out, sawNonAscii, buf, raw);
    if sawNonAscii && !validUtf8(out) {
      return Panic;
    }
    return Value(Data(out));
  }

  /** Up to two further octal digits after the one at `i`, in byte arithmetic; `at` is the last digit read. */
  method ReadOctal(raw: seq<Byte>, i: nat) returns (at: nat, c: Byte)
    requires 0 < i < |raw| && IsOctal(raw[i])
    ensures i <= at < |raw| && at + 1 == i - 1 + OctalUnit(raw[i - 1..]).size && c == OctalUnit(raw[i - 1..]).byte
  {
    ghost var rest := raw[i - 1..];
    assert rest[1] == raw[i] && (|rest| > 2 ==> rest[2] == raw[i + 1]) && (|rest| > 3 ==> rest[3] == raw[i + 2]);
    at, c := i, raw[i];
    OctalInByte(rest);
    hide ShiftOctal, OctalUnit;
    var val: Byte := c - 48;
    if at + 1 < |raw| && IsOctal(raw[at + 1]) {
      at := at + 1;
      val := ShiftOctal(val, raw[at] - 48);
      if at + 1 < |raw| && IsOctal(raw[at + 1]) {
        at := at + 1;
        val := ShiftOctal(val, raw[at] - 48);
      }
    }
    c := val;
  }

  lemma OctalInByte(rest: seq<Byte>)
    requires |rest| >= 2 && IsOctal(rest[1])
    ensures var u := OctalUnit(rest); var a := rest[1] - 48;
            if |rest| == 2 || !IsOctal(rest[2]) then u.size == 2 && u.byte == a
            else
              var ab := ShiftOctal(a, rest[2] - 48);
              if |rest| == 3 || !IsOctal(rest[3]) then u.size == 3 && u.byte == ab
              else u.size == 4 && u.byte == ShiftOctal(ab, rest[3] - 48)
  {
    var a: int := rest[1] - 48;
    if |rest| > 2 && IsOctal(rest[2]) {
      var b: int := rest[2] - 48;
      assert ShiftOctal(a, b) == 8 * a + b;
      if |rest| > 3 && IsOctal(rest[3]) {
        var c: int := rest[3] - 48;
        assert 8 * (8 * a + b) + c == 64 * a + 8 * b + c;
      }
    }
  }

  /** `(val << 3) + digit` on one byte. */
  function ShiftOctal(val: Byte, digit: Byte): (r: Byte)
    ensures r == (8 * val + digit) % 256
  {
    (val * 8 % 256 + digit) % 256
  }

  /** `(val << 4) + digit` on one byte. */
  function ShiftHex(val: Byte, digit: Byte): (r: Byte)
    ensures val < 16 && digit < 16 ==> r == 16 * val + digit
  {
    var shifted := val * 16 % 256;
    assert val < 16 ==> shifted == 16 * val;
    (shifted + digit) % 256
  }

  /** Up to two hexadecimal digits after the `x` at `i`. */
  method ReadHex(raw: seq<Byte>, i: nat) returns (at: nat, c: Byte)
    requires 0 < i < |raw|
    ensures i <= at < |raw| && at + 1 == i - 1 + HexUnit(raw[i - 1..]).size && c == HexUnit(raw[i - 1..]).byte
  {
    ghost var rest := raw[i - 1..];
    assert (|rest| > 2 ==> rest[2] == raw[i + 1]) && (|rest| > 3 ==> rest[3] == raw[i + 2]);
    at := i;
    var val: Byte := 0;
    hide ShiftHex, HexValue;
    if at + 1 < |raw| && IsHexDigit(raw[at + 1]) {
      at := at + 1;
      val := HexValue(raw[at]);
      if at + 1 < |raw| && IsHexDigit(raw[at + 1]) {
        at := at + 1;
        val := ShiftHex(val, HexValue(raw[at]));
      }
    }
    c := val;
  }

  lemma FirstUnitAt(raw: seq<Byte>, i: nat)
    requires i < |raw|
    ensures raw[i..] != []
    ensures LoneBackslash(raw[i..]) <==> raw[i] == BACKSLASH && i + 1 == |raw|
    ensures !LoneBackslash(raw[i..]) ==>
              var rest := raw[i..]; var u := FirstUnit(rest);
              Unescaped(rest) == Prepend(u, Unescaped(rest[u.size..])) &&
              if raw[i] != BACKSLASH then u == Unit(1, raw[i], false)
              else if IsOctal(raw[i + 1]) then u == OctalUnit(rest) && u.nonAscii == (u.byte == 0 || u.byte >= 128)
              else if raw[i + 1] == LETTER_X then u == HexUnit(rest) && !u.nonAscii
              else u == Unit(2, if Named(raw[i + 1]) then Meaning(raw[i + 1]) else raw[i + 1], false)
  {
    if !LoneBackslash(raw[i..]) && raw[i] == BACKSLASH {
      assert raw[i..][1] == raw[i + 1];
    }
  }

  lemma ResumeFresh(buf: seq<Byte>, t: Text)
    ensures t.Broken? ==> Resume(buf, false, t) == Broken
    ensures t.Bytes? ==> Resume(buf, false, t) == Bytes(buf + t.bytes, t.nonAscii)
  {
  }

  lemma NothingToResume(out: seq<Byte>, saw: bool, buf: seq<Byte>, raw: seq<Byte>, i: nat)
    requires i < |raw| && LoneBackslash(raw[i..])
    requires Resume(out, saw, Unescaped(raw[i..])) == Resume(buf, false, Unescaped(raw))
    ensures Unescaped(raw).Broken?
  {
  }

  lemma NothingLeft(out: seq<Byte>, saw: bool, buf: seq<Byte>, raw: seq<Byte>)
    requires Resume(out, saw, Unescaped(raw[|raw|..])) == Resume(buf, false, Unescaped(raw))
    ensures Unescaped(raw).Bytes? && out == buf + Unescaped(raw).bytes && saw == Unescaped(raw).nonAscii
  {
  }

  /** What decoding yields when `out` was produced already and `t` is still to come. */
  function Resume(out: seq<Byte>, saw: bool, t: Text): Text {
    if t.Broken? then Broken else Bytes(out + t.bytes, saw || t.nonAscii)
  }

  lemma ResumeStep(out: seq<Byte>, saw: bool, u: Unit, t: Text)
    ensures Resume(out + [u.byte], saw || u.nonAscii, t) == Resume(out, saw, Prepend(u, t))
  {
    if t.Bytes? {
      assert out + [u.byte] + t.bytes == out + ([u.byte] + t.bytes);
    }
  }

  // ---------------------------------------------------------------- what the encoding never contains

  /** No raw tab, newline or carriage return: the text is one field of one line. */
  lemma {:induction false} EncodedIsOneField(d: seq<Byte>)
    ensures forall b :: b in Encoded(d) ==> !Listed(b)
    decreases |d|
  {
    if d != [] {
      UnfoldEncoded(d);
      EncodedIsOneField(if Marker(d) then From(d, 3) else d[1..]);
    }
  }

  /** Data is never mistaken for NULL or for the end of the stream. */
  lemma EncodedIsNoMarker(d: seq<Byte>)
    ensures !Marker(Encoded(d))
  {
    if d != [] {
      UnfoldEncoded(d);
      if Marker(d) {
        NoMarkerAhead([BACKSLASH, BACKSLASH, d[1]], Encoded(From(d, 3)));
      } else {
        NoMarkerAhead(EncodeByte(d[0]), Encoded(d[1..]));
      }
    }
  }

  lemma NoMarkerAhead(e: seq<Byte>, rest: seq<Byte>)
    requires e != [] && (e[0] == BACKSLASH ==> |e| >= 2 && e[1] != LETTER_N && e[1] != DOT)
    ensures !Marker(e + rest)
  {
    var text := e + rest;
    assert text[0] == e[0] && (|e| >= 2 ==> text[1] == e[1]);
  }

  // ---------------------------------------------------------------- what comes back

  /**
   * The bytes that encoding and decoding leave: the byte after a marker is gone, and a control byte
   * without a letter escape comes back twice.
   */
  function Lossy(d: seq<Byte>): seq<Byte>
    decreases |d|
  {
    if d == [] then []
    else if Marker(d) then d[..2] + Lossy(From(d, 3))
    else if Unlisted(d[0]) then [d[0], d[0]] + Lossy(d[1..])
    else [d[0]] + Lossy(d[1..])
  }

  lemma PlainFirst(b: Byte, rest: seq<Byte>)
    requires b != BACKSLASH && Unescaped(rest).Bytes?
    ensures Unescaped([b] + rest) == Bytes([b] + Unescaped(rest).bytes, Unescaped(rest).nonAscii)
  {
    var text := [b] + rest;
    assert text[0] == b && text[1..] == rest;
    assert FirstUnit(text) == Unit(1, b, false);
  }

  lemma EscapeFirst(c: Byte, rest: seq<Byte>)
    requires !IsOctal(c) && c != LETTER_X && Unescaped(rest).Bytes?
    ensures Unescaped([BACKSLASH, c] + rest)
         == Bytes([if Named(c) then Meaning(c) else c] + Unescaped(rest).bytes, Unescaped(rest).nonAscii)
  {
    assert ([BACKSLASH, c] + rest)[2..] == rest;
  }

  lemma MarkerComesBack(m: Byte, rest: seq<Byte>)
    requires (m == LETTER_N || m == DOT) && Unescaped(rest).Bytes?
    ensures Unescaped([BACKSLASH, BACKSLASH, m] + rest)
         == Bytes([BACKSLASH, m] + Unescaped(rest).bytes, Unescaped(rest).nonAscii)
  {
    hide Unescaped, FirstUnit;
    PlainFirst(m, rest);
    EscapeFirst(BACKSLASH, [m] + rest);
    assert [BACKSLASH, BACKSLASH, m] + rest == [BACKSLASH, BACKSLASH] + ([m] + rest);
    assert [BACKSLASH] + ([m] + Unescaped(rest).bytes) == [BACKSLASH, m] + Unescaped(rest).bytes;
  }

  lemma ByteComesBack(b: Byte, rest: seq<Byte>)
    requires Unescaped(rest).Bytes?
    ensures Unescaped(EncodeByte(b) + rest)
         == Bytes((if Unlisted(b) then [b, b] else [b]) + Unescaped(rest).bytes, Unescaped(rest).nonAscii)
  {
    hide Unescaped, FirstUnit;
    if Listed(b) {
      EscapeFirst(Letter(b), rest);
    } else if b < 32 {
      EscapeFirst(b, rest);
      PlainFirst(b, [BACKSLASH, b] + rest);
      assert EncodeByte(b) + rest == [b] + ([BACKSLASH, b] + rest);
      assert [b] + ([b] + Unescaped(rest).bytes) == [b, b] + Unescaped(rest).bytes;
    } else if b == BACKSLASH {
      EscapeFirst(b, rest);
    } else {
      PlainFirst(b, rest);
    }
  }

  lemma {:induction false} DecodedIsLossy(d: seq<Byte>)
    ensures Unescaped(Encoded(d)) == Bytes(Lossy(d), false)
    decreases |d|
  {
    hide Unescaped, FirstUnit, EncodeByte, Encoded;
    if d == [] {
      EmptyText();
    } else {
      UnfoldEncoded(d);
      if Marker(d) {
        DecodedIsLossy(From(d, 3));
        MarkerComesBack(d[1], Encoded(From(d, 3)));
        assert d[..2] == [BACKSLASH, d[1]];
      } else {
        DecodedIsLossy(d[1..]);
        ByteComesBack(d[0], Encoded(d[1..]));
      }
    }
  }

  lemma EmptyText()
    ensures Encoded([]) == [] && Unescaped([]) == Bytes([], false)
  {
  }

  /**
   * Encoding then decoding never panics, whatever the UTF-8 check says, keeps NULL apart from data and
   * gives the lossy image of the data.
   */
  lemma CodecIsLossy(d: seq<Byte>, validUtf8: seq<Byte> -> bool)
    ensures Decoded(Encoded(d), [], validUtf8) == Value(Data(Lossy(d)))
    ensures Decoded(NULL_SEQ, [], validUtf8) == Value(Null)
  {
    hide Unescaped, Encoded, Lossy;
    EncodedIsNoMarker(d);
    DecodedIsLossy(d);
    assert [] + Lossy(d) == Lossy(d);
  }

  // ---------------------------------------------------------------- exactly when the data survives

  /**
   * A marker is followed by nothing, or by the same unlisted control byte twice (one is dropped, the
   * other doubled); elsewhere there are no unlisted control bytes.
   */
  predicate Faithful(d: seq<Byte>)
    decreases |d|
  {
    if d == [] then true
    else if Marker(d) then |d| == 2 || (|d| >= 4 && Unlisted(d[2]) && d[3] == d[2] && Faithful(d[4..]))
    else !Unlisted(d[0]) && Faithful(d[1..])
  }

  /** A pushed byte can only be absorbed by the doubling of an unlisted control byte. */
  lemma {:induction false} ShiftedLossy(x: Byte, d: seq<Byte>)
    ensures Lossy(d) == [x] + d <==> d != [] && Unlisted(d[0]) && x == d[0] && Lossy(d[1..]) == d[1..]
    decreases |d|
  {
    if d != [] {
      var shifted := [x] + d;
      assert shifted[0] == x && shifted[1] == d[0] && shifted[1..] == d;
      if Marker(d) {
        assert Lossy(d)[0] == BACKSLASH && Lossy(d)[1] == d[1];
      } else if Unlisted(d[0]) {
        assert Lossy(d)[2..] == Lossy(d[1..]) && shifted[2..] == d[1..];
        assert Lossy(d) == [d[0], d[0]] + Lossy(d[1..]);
        assert shifted == [x, d[0]] + d[1..];
      } else {
        ShiftedLossy(d[0], d[1..]);
        assert Lossy(d)[1..] == Lossy(d[1..]) && [d[0]] + d[1..] == d;
      }
    }
  }

  /** Doubling a first byte is never made up for by what follows. */
  lemma {:induction false} RepeatedLossy(c: Byte, n: nat, d: seq<Byte>)
    requires n > 0 && Unlisted(c)
    ensures Repeat(c, n) + Lossy(d) != d
    decreases |d|
  {
    if Repeat(c, n) + Lossy(d) == d {
      assert d[0] == (Repeat(c, n) + Lossy(d))[0] == c;
      PeelRepeat(c, n, Lossy(d[1..]), d);
      RepeatedLossy(c, n + 1, d[1..]);
    }
  }

  lemma PeelRepeat(c: Byte, n: nat, l: seq<Byte>, d: seq<Byte>)
    requires n > 0 && Repeat(c, n) + ([c, c] + l) == d
    ensures d != [] && Repeat(c, n + 1) + l == d[1..]
  {
    assert Repeat(c, n) == [c] + Repeat(c, n - 1);
    assert Repeat(c, n + 1) == Repeat(c, n - 1) + [c, c];
    assert d == [c] + (Repeat(c, n - 1) + [c, c] + l);
  }

  function Repeat(c: Byte, n: nat): seq<Byte> {
    seq(n, _ => c)
  }

  /** The round trip gives the data back exactly when it is faithful. */
  lemma {:induction false} SurvivesIff(d: seq<Byte>)
    ensures Lossy(d) == d <==> Faithful(d)
    decreases |d|
  {
    hide Unlisted, Lossy, Faithful, Marker, Repeat;
    FaithfulUnfolds(d);
    LossyUnfolds(d);
    if d == [] {
    } else if Marker(d) {
      if |d| >= 4 {
        SurvivesIff(d[4..]);
      }
      MarkerSurvivesIff(d);
    } else if Unlisted(d[0]) {
      RepeatedLossy(d[0], 1, d[1..]);
      assert [d[0]] == Repeat(d[0], 1) by { RepeatOnce(d[0]); }
      assert Lossy(d)[1..] == [d[0]] + Lossy(d[1..]);
    } else {
      SurvivesIff(d[1..]);
      assert Lossy(d)[1..] == Lossy(d[1..]);
      assert d == [d[0]] + d[1..];
    }
  }

  lemma FaithfulUnfolds(d: seq<Byte>)
    ensures d == [] ==> Faithful(d)
    ensures d != [] && Marker(d) ==>
              |d| >= 2 &&
              (Faithful(d) <==> |d| == 2 || (|d| >= 4 && Unlisted(d[2]) && d[3] == d[2] && Faithful(d[4..])))
    ensures d != [] && !Marker(d) ==> (Faithful(d) <==> !Unlisted(d[0]) && Faithful(d[1..]))
  {
    hide Unlisted;
  }

  lemma LossyUnfolds(d: seq<Byte>)
    ensures d == [] ==> Lossy(d) == []
    ensures d != [] && !Marker(d) ==>
              Lossy(d) == (if Unlisted(d[0]) then [d[0], d[0]] else [d[0]]) + Lossy(d[1..])
  {
    hide Unlisted, Marker, From;
  }

  lemma RepeatOnce(c: Byte)
    ensures Repeat(c, 1) == [c]
  {
  }

  lemma MarkerSurvivesIff(d: seq<Byte>)
    requires d != [] && Marker(d)
    ensures |d| == 2 ==> Lossy(d) == d
    ensures |d| > 2 ==> (Lossy(d) == d <==> |d| >= 4 && Unlisted(d[3]) && d[2] == d[3] && Lossy(d[4..]) == d[4..])
  {
    hide Unlisted, Lossy, Marker, From;
    LossyMarker(d);
    if |d| == 2 {
      assert From(d, 2) == [] by { FromEnd(d); }
    } else {
      var tail := d[3..];
      assert From(d, 3) == tail by { FromIs(d, 3); }
      SameTail(d, Lossy(d), Lossy(tail));
      ShiftedLossy(d[2], tail);
      if |d| >= 4 {
        assert tail[1..] == d[4..] && tail[0] == d[3];
      }
    }
  }

  lemma FromIs(d: seq<Byte>, i: nat)
    requires i <= |d|
    ensures From(d, i) == d[i..]
  {
  }

  lemma FromEnd(d: seq<Byte>)
    ensures From(d, |d|) == []
  {
  }

  lemma SameTail(d: seq<Byte>, l: seq<Byte>, t: seq<Byte>)
    requires |d| > 2 && l == d[..2] + t
    ensures l == d <==> t == [d[2]] + d[3..]
  {
    assert d == d[..2] + ([d[2]] + d[3..]);
    assert l[2..] == t;
  }

  lemma LossyMarker(d: seq<Byte>)
    requires d != [] && Marker(d)
    ensures |d| >= 2 && Lossy(d) == d[..2] + Lossy(From(d, 3))
    ensures From(d, 2) == [] ==> Lossy(d) == d
  {
  }

  /** The round trip over every byte string. */
  lemma RoundTripIff(d: seq<Byte>, validUtf8: seq<Byte> -> bool)
    ensures Decoded(Encoded(d), [], validUtf8) == Value(Data(d)) <==> Faithful(d)
  {
    CodecIsLossy(d, validUtf8);
    SurvivesIff(d);
  }

  /** In particular text without unlisted control bytes and without a marker before its last two bytes. */
  lemma {:induction false} OrdinaryTextSurvives(d: seq<Byte>)
    requires forall b :: b in d ==> !Unlisted(b)
    requires forall i :: 0 <= i < |d| - 2 ==> !(d[i] == BACKSLASH && (d[i + 1] == LETTER_N || d[i + 1] == DOT))
    ensures Faithful(d)
    decreases |d|
  {
    if d != [] {
      if Marker(d) {
        assert d[0] == BACKSLASH && (d[1] == LETTER_N || d[1] == DOT);
      } else {
        OrdinaryTextSurvives(d[1..]);
      }
    }
  }

  /** The byte after the marker is lost, and the unit separator byte comes back twice. */
  lemma MarkerEatsNextByte()
    ensures !Faithful([BACKSLASH, LETTER_N, 97]) && Lossy([BACKSLASH, LETTER_N, 97]) == [BACKSLASH, LETTER_N]
    ensures !Faithful([31]) && Lossy([31]) == [31, 31]
  {
    var d: seq<Byte> := [BACKSLASH, LETTER_N, 97];
    assert Marker(d) && From(d, 3) == [];
  }

  // ---------------------------------------------------------------- exactly when unescaping breaks

  function TrailingBackslashes(raw: seq<Byte>): nat {
    if raw == [] || raw[|raw| - 1] != BACKSLASH then 0 else 1 + TrailingBackslashes(raw[..|raw| - 1])
  }

  lemma {:induction false} TrailingAcross(a: seq<Byte>, b: seq<Byte>)
    ensures TrailingBackslashes(b) <= |b|
    ensures TrailingBackslashes(a + b)
         == if TrailingBackslashes(b) == |b| then |b| + TrailingBackslashes(a) else TrailingBackslashes(b)
  {
    if b == [] {
      assert a + b == a;
    } else {
      assert (a + b)[..|a + b| - 1] == a + b[..|b| - 1];
      TrailingAcross(a, b[..|b| - 1]);
    }
  }

  lemma FirstUnitTrailing(raw: seq<Byte>)
    requires raw != [] && !LoneBackslash(raw)
    ensures TrailingBackslashes(raw[..FirstUnit(raw).size]) in {0, 2}
  {
    var u := FirstUnit(raw);
    var head := raw[..u.size];
    assert head[|head| - 1] == raw[u.size - 1];
    if head[|head| - 1] == BACKSLASH {
      assert head == [BACKSLASH, BACKSLASH];
      assert head[..1] == [BACKSLASH] && [BACKSLASH][..0] == [];
      assert TrailingBackslashes([BACKSLASH]) == 1;
    }
  }

  /** Decoding meets a lone backslash exactly when the text ends in an odd number of backslashes. */
  lemma {:induction false} BrokenIff(raw: seq<Byte>)
    ensures Unescaped(raw).Broken? <==> TrailingBackslashes(raw) % 2 == 1
    decreases |raw|
  {
    hide FirstUnit;
    if raw == [] {
    } else if LoneBackslash(raw) {
      assert raw[..0] == [];
    } else {
      var u := FirstUnit(raw);
      var head, rest := raw[..u.size], raw[u.size..];
      BrokenIff(rest);
      FirstUnitTrailing(raw);
      ParityAcross(head, rest);
      assert head + rest == raw;
    }
  }

  lemma ParityAcross(a: seq<Byte>, b: seq<Byte>)
    requires TrailingBackslashes(a) in {0, 2}
    ensures TrailingBackslashes(a + b) % 2 == TrailingBackslashes(b) % 2
  {
    TrailingAcross(a, b);
  }

  // ---------------------------------------------------------------- exactly when UTF-8 is checked

  /** An octal escape for a zero byte or a byte of 128 or more; an even run of backslashes before it escapes nothing. */
  predicate OctalAt(raw: seq<Byte>, i: nat) {
    && i + 1 < |raw| && raw[i] == BACKSLASH && TrailingBackslashes(raw[..i]) % 2 == 0 && IsOctal(raw[i + 1])
    && var b := OctalUnit(raw[i..]).byte; b == 0 || b >= 128
  }

  lemma OctalFirst(raw: seq<Byte>)
    requires raw != [] && !LoneBackslash(raw)
    ensures OctalAt(raw, 0) <==> FirstUnit(raw).nonAscii
  {
    assert raw[..0] == [] && raw[0..] == raw;
  }

  lemma OctalInside(raw: seq<Byte>, i: nat)
    requires raw != [] && !LoneBackslash(raw) && 0 < i < FirstUnit(raw).size
    ensures !OctalAt(raw, i)
  {
    var u := FirstUnit(raw);
    if raw[i] == BACKSLASH {
      FirstUnitTrailing(raw);
      assert raw[..u.size][i] == BACKSLASH;
      assert raw[0] == BACKSLASH && i == 1;
      assert raw[..i] == [BACKSLASH] && [BACKSLASH][..0] == [];
      assert TrailingBackslashes([BACKSLASH]) == 1;
    }
  }

  lemma OctalBehind(raw: seq<Byte>, i: nat)
    requires raw != [] && !LoneBackslash(raw) && FirstUnit(raw).size <= i
    ensures var u := FirstUnit(raw); OctalAt(raw, i) <==> OctalAt(raw[u.size..], i - u.size)
  {
    hide FirstUnit, OctalUnit, TrailingBackslashes;
    var u := FirstUnit(raw);
    var head, rest := raw[..u.size], raw[u.size..];
    if i < |raw| {
      FirstUnitTrailing(raw);
      ParityAcross(head, rest[..i - u.size]);
      assert head + rest[..i - u.size] == raw[..i];
      assert raw[i..] == rest[i - u.size..];
    }
  }

  /** A check of the text is asked for exactly by such octal escapes, never by hexadecimal ones. */
  lemma {:induction false} NonAsciiIff(raw: seq<Byte>)
    requires Unescaped(raw).Bytes?
    ensures Unescaped(raw).nonAscii <==> exists i: nat :: OctalAt(raw, i)
    decreases |raw|
  {
    hide FirstUnit, OctalAt;
    if raw == [] {
      assert forall i: nat :: !OctalAt(raw, i) by { NoOctalInEmpty(); }
    } else {
      var u := FirstUnit(raw);
      var rest := raw[u.size..];
      NonAsciiIff(rest);
      OctalFirst(raw);
      if i: nat :| OctalAt(rest, i) {
        OctalBehind(raw, i + u.size);
      }
      forall i: nat | OctalAt(raw, i)
        ensures i == 0 || (i >= u.size && OctalAt(rest, i - u.size))
      {
        if 0 < i < u.size {
          OctalInside(raw, i);
        } else if i > 0 {
          OctalBehind(raw, i);
        }
      }
    }
  }

  lemma NoOctalInEmpty()
    ensures forall i: nat :: !OctalAt([], i)
  {
  }

  /** When decoding panics: a backslash with nothing to escape, or such an octal escape in bytes that are not UTF-8. */
  lemma PanicIff(raw: seq<Byte>, buf: seq<Byte>, validUtf8: seq<Byte> -> bool)
    ensures TrailingBackslashes(raw) % 2 == 1 ==> Decoded(raw, buf, validUtf8).Panic?
    ensures TrailingBackslashes(raw) % 2 == 0 ==>
              Unescaped(raw).Bytes? &&
              (Decoded(raw, buf, validUtf8).Panic? <==>
               raw != NULL_SEQ && (exists i: nat :: OctalAt(raw, i)) && !validUtf8(buf + Unescaped(raw).bytes))
  {
    hide OctalAt, TrailingBackslashes, Unescaped;
    BrokenIff(raw);
    assert TrailingBackslashes(NULL_SEQ) == 0 by { NullDoesNotTrail(); }
    if Unescaped(raw).Bytes? {
      NonAsciiIff(raw);
    }
  }

  lemma NullDoesNotTrail()
    ensures TrailingBackslashes(NULL_SEQ) == 0
  {
  }

  /** The byte 255 written in hexadecimal passes any UTF-8 check; written in octal it does not. */
  lemma HexSkipsTheCheck(validUtf8: seq<Byte> -> bool)
    requires !validUtf8([255])
    ensures Decoded([BACKSLASH, LETTER_X, 102, 102], [], validUtf8) == Value(Data([255]))
    ensures Decoded([BACKSLASH, 51, 55, 55], [], validUtf8) == Panic
  {
    OneEscape([BACKSLASH, LETTER_X, 102, 102]);
    OneEscape([BACKSLASH, 51, 55, 55]);
    assert [] + [255] == [255];
  }

  lemma OneEscape(raw: seq<Byte>)
    requires |raw| > 1 && FirstUnit(raw).size == |raw|
    ensures Unescaped(raw) == Bytes([FirstUnit(raw).byte], FirstUnit(raw).nonAscii)
  {
    hide FirstUnit;
    assert raw[|raw|..] == [];
  }

  // ---------------------------------------------------------------- the bytes of the format

  /** Backslash and `N`, or backslash and a dot. */
  predicate AtMarker(d: seq<Byte>) {
    |d| >= 2 && d[0] == 92 && (d[1] == 78 || d[1] == 46)
  }

  lemma MarkerMeans(d: seq<Byte>)
    ensures Marker(d) <==> AtMarker(d)
  {
    if |d| >= 2 {
      assert d == [d[0], d[1]] + d[2..];
    }
  }

  /** The encoder looks at position `i`: it is not inside a marker and not passed over behind one. */
  predicate LooksAt(d: seq<Byte>, i: nat)
    decreases i
  {
    i == 0 || (d != [] && if AtMarker(d) then i >= 3 && LooksAt(From(d, 3), i - 3) else LooksAt(d[1..], i - 1))
  }

  lemma {:induction false} EncodedSplits(d: seq<Byte>, i: nat)
    requires i < |d| && LooksAt(d, i)
    ensures Encoded(d) == Encoded(d[..i]) + Encoded(d[i..])
    decreases i
  {
    hide Encoded, Marker, AtMarker;
    MarkerMeans(d);
    if i == 0 {
      EmptyText();
      assert d[..0] == [] && d[0..] == d;
    } else {
      SamePrefix(d, i);
      UnfoldEncoded(d);
      UnfoldEncoded(d[..i]);
      if AtMarker(d) {
        EncodedSplits(d[3..], i - 3);
        assert d[3..][..i - 3] == d[..i][3..] && d[3..][i - 3..] == d[i..];
      } else {
        EncodedSplits(d[1..], i - 1);
        assert d[1..][..i - 1] == d[..i][1..] && d[1..][i - 1..] == d[i..];
      }
    }
  }

  lemma SamePrefix(d: seq<Byte>, i: nat)
    requires 0 < i < |d| && LooksAt(d, i)
    ensures d[..i] != [] && d[..i][0] == d[0] && (Marker(d[..i]) <==> Marker(d)) && (AtMarker(d) ==> i >= 3)
  {
    MarkerMeans(d);
    MarkerMeans(d[..i]);
    assert i == 1 && AtMarker(d) ==> !LooksAt(d, i);
  }

  /** What each byte is written as, wherever the encoder looks at it. */
  lemma WrittenAs(d: seq<Byte>, i: nat)
    requires i < |d| && LooksAt(d, i)
    ensures Encoded(d) == Encoded(d[..i]) +
              (if AtMarker(d[i..]) then [92, 92, d[i + 1]]
               else if d[i] == 8 then [92, 98]
               else if d[i] == 9 then [92, 116]
               else if d[i] == 10 then [92, 110]
               else if d[i] == 11 then [92, 118]
               else if d[i] == 12 then [92, 102]
               else if d[i] == 13 then [92, 114]
               else if d[i] < 32 then [d[i], 92, d[i]]
               else if d[i] == 92 then [92, 92]
               else [d[i]]) + Encoded(From(d, if AtMarker(d[i..]) then i + 3 else i + 1))
  {
    hide Encoded, LooksAt;
    EncodedSplits(d, i);
    MarkerMeans(d[i..]);
    UnfoldEncoded(d[i..]);
    if AtMarker(d[i..]) {
      assert From(d[i..], 3) == From(d, i + 3);
    } else {
      assert d[i..][1..] == From(d, i + 1);
    }
  }

  /** The markers themselves: an encoded text starts with neither, and the first one stands for NULL. */
  lemma MarkersMean(d: seq<Byte>, validUtf8: seq<Byte> -> bool)
    ensures AttrOf(Null) == [92, 78] && AttrOf(Data(d)) == Encoded(d)
    ensures !([92, 78] <= Encoded(d)) && !([92, 46] <= Encoded(d))
    ensures Decoded([92, 78], [], validUtf8) == Value(Null)
  {
    EncodedIsNoMarker(d);
    MarkerMeans(Encoded(d));
  }

  /** The text of an attribute, as `EncodeAttr` proves it. */
  function AttrOf(v: RawValue): seq<Byte> {
    if v.Null? then NULL_SEQ else Encoded(v.data)
  }

  function Concat(a: Text, b: Text): Text {
    if a.Broken? || b.Broken? then Broken else Bytes(a.bytes + b.bytes, a.nonAscii || b.nonAscii)
  }

  /** Behind an even run of backslashes a text that does not start with a digit is decoded on its own. */
  lemma {:induction false} UnescapedAcross(a: seq<Byte>, s: seq<Byte>)
    requires TrailingBackslashes(a) % 2 == 0 && (s != [] ==> !IsHexDigit(s[0]))
    ensures Unescaped(a + s) == Concat(Unescaped(a), Unescaped(s))
    decreases |a|
  {
    hide FirstUnit, Unescaped, TrailingBackslashes, Prepend, LoneBackslash;
    if a == [] {
      EmptyText();
      assert a + s == s;
      ConcatNothing(Unescaped(s));
    } else {
      NotLone(a);
      var u := FirstUnit(a);
      FirstUnitStays(a, s);
      RestIsEven(a);
      UnescapedAcross(a[u.size..], s);
      assert (a + s)[u.size..] == a[u.size..] + s;
      ConcatPrepend(u, Unescaped(a[u.size..]), Unescaped(s));
      UnfoldUnescaped(a);
      UnfoldUnescaped(a + s);
    }
  }

  lemma UnfoldUnescaped(raw: seq<Byte>)
    requires raw != [] && !LoneBackslash(raw)
    ensures Unescaped(raw) == Prepend(FirstUnit(raw), Unescaped(raw[FirstUnit(raw).size..]))
  {
  }

  lemma ConcatNothing(t: Text)
    ensures Concat(Bytes([], false), t) == t
  {
    if t.Bytes? {
      assert [] + t.bytes == t.bytes;
    }
  }

  lemma ConcatPrepend(u: Unit, a: Text, b: Text)
    ensures Concat(Prepend(u, a), b) == Prepend(u, Concat(a, b))
  {
    if a.Bytes? && b.Bytes? {
      assert [u.byte] + a.bytes + b.bytes == [u.byte] + (a.bytes + b.bytes);
    }
  }

  lemma NotLone(a: seq<Byte>)
    requires TrailingBackslashes(a) % 2 == 0
    ensures !LoneBackslash(a)
  {
    assert [BACKSLASH][..0] == [];
  }

  lemma RestIsEven(a: seq<Byte>)
    requires a != [] && !LoneBackslash(a) && TrailingBackslashes(a) % 2 == 0
    ensures TrailingBackslashes(a[FirstUnit(a).size..]) % 2 == 0
  {
    hide FirstUnit;
    var u := FirstUnit(a);
    FirstUnitTrailing(a);
    ParityAcross(a[..u.size], a[u.size..]);
    assert a[..u.size] + a[u.size..] == a;
  }

  lemma FirstUnitStays(a: seq<Byte>, s: seq<Byte>)
    requires a != [] && !LoneBackslash(a) && (s != [] ==> !IsHexDigit(s[0]))
    ensures a + s != [] && !LoneBackslash(a + s) && FirstUnit(a + s) == FirstUnit(a)
  {
    var t := a + s;
    assert forall i :: 0 <= i < |a| ==> t[i] == a[i];
    assert s != [] ==> t[|a|] == s[0];
  }

  /** A whole escape in the middle of a text: the bytes before and after it are those of the two sides. */
  lemma EscapeInContext(a: seq<Byte>, e: seq<Byte>, b: seq<Byte>, v: Byte, check: bool)
    requires TrailingBackslashes(a) % 2 == 0 && e != [] && e[0] == 92
    requires UnitAt(e + b) == Unit(|e|, v, check)
    ensures Unescaped(a + e + b) == Concat(Unescaped(a), Prepend(Unit(|e|, v, check), Unescaped(b)))
  {
    hide FirstUnit, Unescaped;
    var s := e + b;
    UnescapedAcross(a, s);
    assert a + e + b == a + s && s[|e|..] == b;
    UnfoldUnescaped(s);
  }

  function UnitAt(raw: seq<Byte>): Unit {
    if raw == [] || LoneBackslash(raw) then Unit(0, 0, false) else FirstUnit(raw)
  }

  /** What each escape stands for, wherever it begins; `c` is the byte behind the backslash. */
  lemma EscapesMean(a: seq<Byte>, c: Byte, b: seq<Byte>)
    requires TrailingBackslashes(a) % 2 == 0 && !(48 <= c <= 55) && c != 120
    ensures Unescaped(a + [92, c] + b) == Concat(Unescaped(a), Prepend(
              Unit(2, if c == 98 then 8 else if c == 116 then 9 else if c == 110 then 10 else if c == 118 then 11
                      else if c == 102 then 12 else if c == 114 then 13 else c, false), Unescaped(b)))
  {
    var e: seq<Byte> := [92, c];
    var s := e + b;
    assert s[0] == 92 && s[1] == c;
    var u := FirstUnit(s);
    EscapeInContext(a, e, b, u.byte, false);
  }

  /** Three octal digits `x`, `y` and `z`, read in one byte. */
  lemma OctalMeans(a: seq<Byte>, x: nat, y: nat, z: nat, b: seq<Byte>)
    requires TrailingBackslashes(a) % 2 == 0 && x < 8 && y < 8 && z < 8
    ensures var v := (64 * x + 8 * y + z) % 256;
            Unescaped(a + [92, 48 + x, 48 + y, 48 + z] + b) ==
              Concat(Unescaped(a), Prepend(Unit(4, v, v == 0 || v >= 128), Unescaped(b)))
  {
    var e: seq<Byte> := [92, 48 + x, 48 + y, 48 + z];
    var s := e + b;
    assert s[0] == 92 && s[1] == 48 + x && s[2] == 48 + y && s[3] == 48 + z;
    var v := (64 * x + 8 * y + z) % 256;
    ThreeDigits(s, x, y, z);
    hide OctalUnit, Unescaped, UnitAt;
    EscapeInContext(a, e, b, v, v == 0 || v >= 128);
  }

  lemma ThreeDigits(s: seq<Byte>, x: nat, y: nat, z: nat)
    requires |s| >= 4 && s[0] == 92 && s[1] == 48 + x && s[2] == 48 + y && s[3] == 48 + z && x < 8 && y < 8 && z < 8
    ensures var v := (64 * x + 8 * y + z) % 256; UnitAt(s) == Unit(4, v, v == 0 || v >= 128)
  {
    hide HexUnit;
  }

  /** One or two octal digits, when no further one follows. */
  lemma ShortOctalMeans(a: seq<Byte>, x: nat, y: nat, b: seq<Byte>)
    requires TrailingBackslashes(a) % 2 == 0 && x < 8 && y < 8 && (b != [] ==> !(48 <= b[0] <= 55))
    ensures Unescaped(a + [92, 48 + x] + b) == Concat(Unescaped(a), Prepend(Unit(2, x, x == 0), Unescaped(b)))
    ensures var v := 8 * x + y;
            Unescaped(a + [92, 48 + x, 48 + y] + b) == Concat(Unescaped(a), Prepend(Unit(3, v, v == 0), Unescaped(b)))
  {
    var e, f: seq<Byte> := [92, 48 + x], [92, 48 + x, 48 + y];
    OneDigit(e + b, x);
    TwoDigits(f + b, x, y);
    hide OctalUnit, Unescaped, UnitAt;
    EscapeInContext(a, e, b, x, x == 0);
    EscapeInContext(a, f, b, 8 * x + y, 8 * x + y == 0);
  }

  lemma OneDigit(s: seq<Byte>, x: nat)
    requires |s| >= 2 && s[0] == 92 && s[1] == 48 + x && x < 8 && (|s| > 2 ==> !(48 <= s[2] <= 55))
    ensures UnitAt(s) == Unit(2, x, x == 0)
  {
    hide HexUnit;
  }

  lemma TwoDigits(s: seq<Byte>, x: nat, y: nat)
    requires |s| >= 3 && s[0] == 92 && s[1] == 48 + x && s[2] == 48 + y && x < 8 && y < 8
    requires |s| > 3 ==> !(48 <= s[3] <= 55)
    ensures UnitAt(s) == Unit(3, 8 * x + y, 8 * x + y == 0)
  {
    hide HexUnit;
  }

  /** One hexadecimal digit, or none, when no further one follows. */
  lemma ShortHexMeans(a: seq<Byte>, c: Byte, x: nat, b: seq<Byte>)
    requires TrailingBackslashes(a) % 2 == 0 && StandsFor(c, x)
    requires b != [] ==> !(48 <= b[0] <= 57 || 65 <= b[0] <= 70 || 97 <= b[0] <= 102)
    ensures Unescaped(a + [92, 120, c] + b) == Concat(Unescaped(a), Prepend(Unit(3, x, false), Unescaped(b)))
    ensures Unescaped(a + [92, 120] + b) == Concat(Unescaped(a), Prepend(Unit(2, 0, false), Unescaped(b)))
  {
    var e, f: seq<Byte> := [92, 120, c], [92, 120];
    NoSecondDigit(e + b, c, x);
    NoDigit(f + b);
    hide HexUnit, Unescaped, UnitAt;
    EscapeInContext(a, e, b, x, false);
    EscapeInContext(a, f, b, 0, false);
  }

  lemma NoSecondDigit(s: seq<Byte>, c: Byte, x: nat)
    requires |s| >= 3 && s[0] == 92 && s[1] == 120 && s[2] == c && StandsFor(c, x)
    requires |s| > 3 ==> !(48 <= s[3] <= 57 || 65 <= s[3] <= 70 || 97 <= s[3] <= 102)
    ensures UnitAt(s) == Unit(3, x, false)
  {
  }

  lemma NoDigit(s: seq<Byte>)
    requires |s| >= 2 && s[0] == 92 && s[1] == 120
    requires |s| > 2 ==> !(48 <= s[2] <= 57 || 65 <= s[2] <= 70 || 97 <= s[2] <= 102)
    ensures UnitAt(s) == Unit(2, 0, false)
  {
  }

  /** The value of a hexadecimal digit: `0` to `9`, `A` to `F` and `a` to `f`. */
  predicate StandsFor(c: Byte, x: nat) {
    x < 16 && if x < 10 then c == 48 + x else c == 55 + x || c == 87 + x
  }

  lemma HexMeans(a: seq<Byte>, c: Byte, d: Byte, x: nat, y: nat, b: seq<Byte>)
    requires TrailingBackslashes(a) % 2 == 0 && StandsFor(c, x) && StandsFor(d, y)
    ensures Unescaped(a + [92, 120, c, d] + b) ==
              Concat(Unescaped(a), Prepend(Unit(4, 16 * x + y, false), Unescaped(b)))
  {
    var e: seq<Byte> := [92, 120, c, d];
    var s := e + b;
    assert s[0] == 92 && s[1] == 120 && s[2] == c && s[3] == d;
    TwoHexDigits(s, c, d, x, y);
    hide HexUnit, Unescaped, UnitAt;
    EscapeInContext(a, e, b, 16 * x + y, false);
  }

  lemma TwoHexDigits(s: seq<Byte>, c: Byte, d: Byte, x: nat, y: nat)
    requires |s| >= 4 && s[0] == 92 && s[1] == 120 && s[2] == c && s[3] == d && StandsFor(c, x) && StandsFor(d, y)
    ensures UnitAt(s) == Unit(4, 16 * x + y, false)
  {
    hide OctalUnit;
  }
}
