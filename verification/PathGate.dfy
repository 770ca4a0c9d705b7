/**
The path gate of src/middleware/pathGate.ts: percent-decoding to a fixed point, resolution of
`.` and `..` segments (RFC 3986, section 5.2.4), and matching against the allowed paths.
Strings are sequences of UTF-16 code units, as in the program.
*/
module PathGate {
  import opened Common

  type Unit = u: int | 0 <= u < 0x10000
  type Text = seq<Unit>

  const PERCENT: Unit := 0x25
  const DOT: Unit := 0x2E
  const SLASH: Unit := 0x2F
  const BACKSLASH: Unit := 0x5C

  // ---------------------------------------------------------------- decodeURIComponent

  function HexValue(u: Unit): (r: Option<int>)
    ensures r.Some? ==> 0 <= r.value < 16
  {
    if 0x30 <= u <= 0x39 then Some(u - 0x30)
    else if 0x41 <= u <= 0x46 then Some(u - 0x37)
    else if 0x61 <= u <= 0x66 then Some(u - 0x57)
    else None
  }

  /** The byte of an escape `%XY` at the front of the text. */
  function EscapedByte(s: Text): (r: Option<int>)
    ensures r.Some? ==> 0 <= r.value < 0x100 && |s| >= 3 && s[0] == PERCENT
  {
    if |s| >= 3 && s[0] == PERCENT && HexValue(s[1]).Some? && HexValue(s[2]).Some? then
      Some(16 * HexValue(s[1]).value + HexValue(s[2]).value)
    else None
  }

  /** The same for a continuation byte `10xxxxxx` of UTF-8: its six payload bits. */
  function Continuation(s: Text): (r: Option<int>)
    ensures r.Some? ==> 0 <= r.value < 0x40 && |s| >= 3
  {
    var b := EscapedByte(s);
    if b.Some? && 0x80 <= b.value < 0xC0 then Some(b.value - 0x80) else None
  }

  /** A code point above U+FFFF is two code units. */
  function Utf16(v: int): (r: Text)
    requires 0 <= v <= 0x10FFFF
    ensures 1 <= |r| <= 2
  {
    if v < 0x10000 then [v] else [0xD800 + (v - 0x10000) / 0x400, 0xDC00 + (v - 0x10000) % 0x400]
  }

  /** The code units that one escaped character stands for, and the length of its escapes. */
  datatype Group = Group(units: Text, length: nat)

  /** The escaped character at the front; `None` where `decodeURIComponent` throws. */
  function FirstGroup(s: Text): (r: Option<Group>)
    ensures r.Some? ==> 3 <= r.value.length <= |s| && 1 <= |r.value.units| <= 2
  {
    var b := EscapedByte(s);
    if b.None? then None
    else if b.value < 0x80 then Some(Group([b.value], 3))
    else
      var c1 := Continuation(s[3..]);
      if c1.None? || b.value < 0xC0 then None
      else if b.value < 0xE0 then
        var v := (b.value - 0xC0) * 0x40 + c1.value;
        if v < 0x80 then None else Some(Group(Utf16(v), 6))
      else
        var c2 := Continuation(s[6..]);
        if c2.None? then None
        else if b.value < 0xF0 then
          var v := ((b.value - 0xE0) * 0x40 + c1.value) * 0x40 + c2.value;
          if v < 0x800 || 0xD800 <= v < 0xE000 then None else Some(Group(Utf16(v), 9))
        else
          var c3 := Continuation(s[9..]);
          if c3.None? || b.value >= 0xF8 then None
          else
            var v := (((b.value - 0xF0) * 0x40 + c1.value) * 0x40 + c2.value) * 0x40 + c3.value;
            if v < 0x10000 || v > 0x10FFFF then None else Some(Group(Utf16(v), 12))
  }

  /** `decodeURIComponent`, with `None` for the exception on a malformed escape. */
  function Decode(s: Text): (r: Option<Text>) {
    if s == [] then Some([])
    else if s[0] != PERCENT then
      match Decode(s[1..]) case Some(rest) => Some([s[0]] + rest) case None => None
    else
      match FirstGroup(s)
      case None => None
      case Some(g) => match Decode(s[g.length..]) case Some(rest) => Some(g.units + rest) case None => None
  }

  /** Decoding leaves a text without `%` alone, and makes every other text strictly shorter. */
  lemma {:induction false} DecodeShortens(s: Text)
    ensures PERCENT !in s ==> Decode(s) == Some(s)
    ensures PERCENT in s && Decode(s).Some? ==> |Decode(s).value| < |s|
    ensures Decode(s).Some? && s != [] && s[0] != PERCENT ==> |Decode(s).value| > 0 && Decode(s).value[0] == s[0]
    decreases |s|
  {
    if s != [] {
      if s[0] != PERCENT {
        DecodeShortens(s[1..]);
        assert s == [s[0]] + s[1..];
      } else if FirstGroup(s).Some? {
        DecodeShortens(s[FirstGroup(s).value.length..]);
      }
    }
  }

  // ---------------------------------------------------------------- escapes and UTF-8

  /** The hexadecimal digits, in either case. */
  lemma HexValueIff(u: Unit, d: nat)
    requires d < 16
    ensures HexValue(u) == Some(d) <==> u == "0123456789abcdef"[d] as int || u == "0123456789ABCDEF"[d] as int
  {
  }

  predicate Scalar(v: int) { 0 <= v < 0xD800 || 0xE000 <= v <= 0x10FFFF }

  /** UTF-8 (RFC 3629, section 3). */
  function Utf8(v: int): (bytes: seq<int>)
    requires 0 <= v <= 0x10FFFF
    ensures 1 <= |bytes| <= 4 && forall i :: 0 <= i < |bytes| ==> 0 <= bytes[i] < 0x100
  {
    if v < 0x80 then [v]
    else if v < 0x800 then [0xC0 + v / 0x40, 0x80 + v % 0x40]
    else if v < 0x1_0000 then [0xE0 + v / 0x1000, 0x80 + v / 0x40 % 0x40, 0x80 + v % 0x40]
    else [0xF0 + v / 0x4_0000, 0x80 + v / 0x1000 % 0x40, 0x80 + v / 0x40 % 0x40, 0x80 + v % 0x40]
  }

  /** The text begins with the escapes of these bytes. */
  predicate Spells(s: Text, bytes: seq<int>) {
    bytes == [] || (EscapedByte(s) == Some(bytes[0]) && Spells(s[3..], bytes[1..]))
  }

  lemma Spells1(s: Text, a: int)
    ensures Spells(s, [a]) <==> EscapedByte(s) == Some(a)
  {
    assert [a][1..] == [];
  }

  lemma Spells2(s: Text, a: int, b: int)
    ensures Spells(s, [a, b]) <==> EscapedByte(s) == Some(a) && EscapedByte(s[3..]) == Some(b)
  {
    if EscapedByte(s) == Some(a) {
      assert [a, b][1..] == [b];
      Spells1(s[3..], b);
    }
  }

  lemma Spells3(s: Text, a: int, b: int, c: int)
    ensures Spells(s, [a, b, c])
            <==> EscapedByte(s) == Some(a) && EscapedByte(s[3..]) == Some(b) && EscapedByte(s[6..]) == Some(c)
  {
    if EscapedByte(s) == Some(a) {
      assert [a, b, c][1..] == [b, c];
      Spells2(s[3..], b, c);
      assert EscapedByte(s[3..]).Some? ==> s[3..][3..] == s[6..];
    }
  }

  lemma Spells4(s: Text, a: int, b: int, c: int, d: int)
    ensures Spells(s, [a, b, c, d])
            <==> EscapedByte(s) == Some(a) && EscapedByte(s[3..]) == Some(b) && EscapedByte(s[6..]) == Some(c)
                 && EscapedByte(s[9..]) == Some(d)
  {
    if EscapedByte(s) == Some(a) {
      assert [a, b, c, d][1..] == [b, c, d];
      Spells3(s[3..], b, c, d);
      assert EscapedByte(s[3..]).Some? ==> s[3..][3..] == s[6..];
      assert EscapedByte(s[3..]).Some? && EscapedByte(s[6..]).Some? ==> s[3..][6..] == s[9..];
    }
  }

  /** A code point above U+FFFF is a high and a low surrogate, ten bits each (RFC 2781, section 2.1). */
  lemma SurrogatePair(v: int)
    requires 0x1_0000 <= v <= 0x10FFFF
    ensures |Utf16(v)| == 2
    ensures var h, l := Utf16(v)[0], Utf16(v)[1];
            0xD800 <= h < 0xDC00 <= l < 0xE000 && v == 0x1_0000 + (h - 0xD800) * 0x400 + (l - 0xDC00)
  {
  }

  /** The group that a scalar value makes. */
  function GroupOf(v: int): Group
    requires 0 <= v <= 0x10FFFF
  {
    Group(Utf16(v), 3 * |Utf8(v)|)
  }

  predicate Six(x: int) { 0 <= x < 0x40 }

  lemma Utf8Of2(a: int, b: int)
    requires Six(b) && 2 <= a < 0x20
    ensures Utf8(a * 0x40 + b) == [0xC0 + a, 0x80 + b]
  {
  }

  lemma Utf8Of3(a: int, b: int, c: int)
    requires Six(b) && Six(c) && 0 <= a < 0x10 && (a * 0x40 + b) * 0x40 + c >= 0x800
    ensures Utf8((a * 0x40 + b) * 0x40 + c) == [0xE0 + a, 0x80 + b, 0x80 + c]
  {
    var v := (a * 0x40 + b) * 0x40 + c;
    assert v / 0x40 == a * 0x40 + b && v / 0x1000 == a;
  }

  lemma Utf8Of4(a: int, b: int, c: int, d: int)
    requires Six(b) && Six(c) && Six(d) && 0 <= a < 8 && 0x1_0000 <= ((a * 0x40 + b) * 0x40 + c) * 0x40 + d <= 0x10FFFF
    ensures Utf8(((a * 0x40 + b) * 0x40 + c) * 0x40 + d) == [0xF0 + a, 0x80 + b, 0x80 + c, 0x80 + d]
  {
    var v := ((a * 0x40 + b) * 0x40 + c) * 0x40 + d;
    assert v / 0x40 == (a * 0x40 + b) * 0x40 + c && v / 0x1000 == a * 0x40 + b && v / 0x4_0000 == a;
  }

  lemma Group2(s: Text, a: int, b: int)
    requires Six(b) && 2 <= a < 0x20
    requires EscapedByte(s) == Some(0xC0 + a) && EscapedByte(s[3..]) == Some(0x80 + b)
    ensures FirstGroup(s) == Some(Group(Utf16(a * 0x40 + b), 6))
  {
  }

  lemma Group3(s: Text, a: int, b: int, c: int)
    requires Six(b) && Six(c) && 0 <= a < 0x10
    requires var v := (a * 0x40 + b) * 0x40 + c; v >= 0x800 && Scalar(v)
    requires EscapedByte(s) == Some(0xE0 + a) && EscapedByte(s[3..]) == Some(0x80 + b) && EscapedByte(s[6..]) == Some(0x80 + c)
    ensures FirstGroup(s) == Some(Group(Utf16((a * 0x40 + b) * 0x40 + c), 9))
  {
  }

  lemma Group4(s: Text, a: int, b: int, c: int, d: int)
    requires Six(b) && Six(c) && Six(d) && 0 <= a < 8
    requires var v := ((a * 0x40 + b) * 0x40 + c) * 0x40 + d; v >= 0x1_0000 && Scalar(v)
    requires EscapedByte(s) == Some(0xF0 + a) && EscapedByte(s[3..]) == Some(0x80 + b)
    requires EscapedByte(s[6..]) == Some(0x80 + c) && EscapedByte(s[9..]) == Some(0x80 + d)
    ensures FirstGroup(s) == Some(Group(Utf16(((a * 0x40 + b) * 0x40 + c) * 0x40 + d), 12))
  {
  }

  /** What begins with the UTF-8 escapes of a scalar value decodes to it. */
  lemma SpelledDecodes(s: Text, v: int)
    requires Scalar(v) && Spells(s, Utf8(v))
    ensures FirstGroup(s) == Some(GroupOf(v))
  {
    if v < 0x80 {
      Spells1(s, v);
    } else if v < 0x800 {
      SpelledTwo(s, v, v / 0x40, v % 0x40);
    } else if v < 0x1_0000 {
      SpelledThree(s, v, v / 0x1000, v / 0x40 % 0x40, v % 0x40);
    } else {
      FourSixes(v);
      SpelledFour(s, v, v / 0x4_0000, v / 0x1000 % 0x40, v / 0x40 % 0x40, v % 0x40);
    }
  }

  lemma SpelledTwo(s: Text, v: int, a: int, b: int)
    requires 0x80 <= v < 0x800 && a == v / 0x40 && b == v % 0x40 && Spells(s, Utf8(v))
    ensures FirstGroup(s) == Some(GroupOf(v))
  {
    assert v == a * 0x40 + b && 2 <= a < 0x20;
    Spells2(s, 0xC0 + a, 0x80 + b);
    Group2(s, a, b);
  }

  lemma SpelledThree(s: Text, v: int, a: int, b: int, c: int)
    requires 0x800 <= v < 0x1_0000 && Scalar(v) && a == v / 0x1000 && b == v / 0x40 % 0x40 && c == v % 0x40 && Spells(s, Utf8(v))
    ensures FirstGroup(s) == Some(GroupOf(v))
  {
    ThreeSixes(v);
    Utf8Of3(a, b, c);
    Spells3(s, 0xE0 + a, 0x80 + b, 0x80 + c);
    Group3(s, a, b, c);
  }

  lemma ThreeSixes(v: int)
    requires 0 <= v
    ensures v == (v / 0x1000 * 0x40 + v / 0x40 % 0x40) * 0x40 + v % 0x40
  {
    assert v / 0x1000 == v / 0x40 / 0x40;
  }

  lemma FourSixes(v: int)
    requires 0 <= v
    ensures v == ((v / 0x4_0000 * 0x40 + v / 0x1000 % 0x40) * 0x40 + v / 0x40 % 0x40) * 0x40 + v % 0x40
  {
    ThreeSixes(v);
    assert v / 0x4_0000 == v / 0x1000 / 0x40;
  }

  lemma SpelledFour(s: Text, v: int, a: int, b: int, c: int, d: int)
    requires 0x1_0000 <= v <= 0x10FFFF && v == ((a * 0x40 + b) * 0x40 + c) * 0x40 + d
    requires Six(b) && Six(c) && Six(d) && 0 <= a < 8 && Spells(s, Utf8(v))
    ensures FirstGroup(s) == Some(GroupOf(v))
  {
    Utf8Of4(a, b, c, d);
    Spells4(s, 0xF0 + a, 0x80 + b, 0x80 + c, 0x80 + d);
    Group4(s, a, b, c, d);
  }

  /** And nothing else decodes: an accepted group is the UTF-8 of a scalar value, in its shortest form. */
  lemma DecodedIsSpelled(s: Text) returns (v: int)
    requires FirstGroup(s).Some?
    ensures Scalar(v) && Spells(s, Utf8(v)) && FirstGroup(s) == Some(GroupOf(v))
  {
    var e := EscapedByte(s).value;
    if e < 0x80 {
      v := e;
      Spells1(s, v);
    } else {
      v := LongIsSpelled(s, e);
      SpelledDecodes(s, v);
    }
  }

  lemma LongIsSpelled(s: Text, e: int) returns (v: int)
    requires FirstGroup(s).Some? && EscapedByte(s) == Some(e) && e >= 0x80
    ensures Scalar(v) && Spells(s, Utf8(v))
  {
    if e < 0xE0 {
      v := TwoIsSpelled(s, e - 0xC0, Continuation(s[3..]).value);
    } else if e < 0xF0 {
      v := ThreeIsSpelled(s, e - 0xE0, Continuation(s[3..]).value, Continuation(s[6..]).value);
    } else {
      v := FourIsSpelled(s, e - 0xF0, Continuation(s[3..]).value, Continuation(s[6..]).value, Continuation(s[9..]).value);
    }
  }

  lemma TwoIsSpelled(s: Text, a: int, b: int) returns (v: int)
    requires EscapedByte(s) == Some(0xC0 + a) && EscapedByte(s[3..]) == Some(0x80 + b)
    requires Six(b) && 2 <= a < 0x20
    ensures Scalar(v) && Spells(s, Utf8(v))
  {
    v := a * 0x40 + b;
    Utf8Of2(a, b);
    Spells2(s, 0xC0 + a, 0x80 + b);
  }

  lemma ThreeIsSpelled(s: Text, a: int, b: int, c: int) returns (v: int)
    requires EscapedByte(s) == Some(0xE0 + a) && EscapedByte(s[3..]) == Some(0x80 + b) && EscapedByte(s[6..]) == Some(0x80 + c)
    requires Six(b) && Six(c) && 0 <= a < 0x10
    requires var u := (a * 0x40 + b) * 0x40 + c; u >= 0x800 && Scalar(u)
    ensures Scalar(v) && Spells(s, Utf8(v))
  {
    v := (a * 0x40 + b) * 0x40 + c;
    Utf8Of3(a, b, c);
    Spells3(s, 0xE0 + a, 0x80 + b, 0x80 + c);
  }

  lemma FourIsSpelled(s: Text, a: int, b: int, c: int, d: int) returns (v: int)
    requires EscapedByte(s) == Some(0xF0 + a) && EscapedByte(s[3..]) == Some(0x80 + b)
    requires EscapedByte(s[6..]) == Some(0x80 + c) && EscapedByte(s[9..]) == Some(0x80 + d)
    requires Six(b) && Six(c) && Six(d) && 0 <= a < 8
    requires var u := ((a * 0x40 + b) * 0x40 + c) * 0x40 + d; u >= 0x1_0000 && Scalar(u)
    ensures Scalar(v) && Spells(s, Utf8(v))
  {
    v := ((a * 0x40 + b) * 0x40 + c) * 0x40 + d;
    Utf8Of4(a, b, c, d);
    Spells4(s, 0xF0 + a, 0x80 + b, 0x80 + c, 0x80 + d);
  }

  const MAX_DECODES := 16

  /** At most `n` decodes, stopping at a fixed point or a malformed escape. */
  function DecodeUpTo(s: Text, n: nat): Text
    decreases n
  {
    if n == 0 then s
    else match Decode(s)
      case None => s
      case Some(next) => if next == s then s else DecodeUpTo(next, n - 1)
  }

  method SafeDecode(rawPath: Text) returns (current: Text)
    ensures current == DecodeUpTo(rawPath, MAX_DECODES)
  {
    current := rawPath;
    for i := 0 to MAX_DECODES
      invariant DecodeUpTo(current, MAX_DECODES - i) == DecodeUpTo(rawPath, MAX_DECODES)
    {
      var next := Decode(current);
      if next.None? || next.value == current {
        return;
      }
      current := next.value;
    }
  }

  /** `x` is `s` encoded `n` times: each of `n` decodes changes it, and the last gives `s`. */
  ghost predicate EncodedTimes(x: Text, s: Text, n: nat)
    decreases n
  {
    if n == 0 then x == s
    else Decode(x).Some? && Decode(x).value != x && EncodedTimes(Decode(x).value, s, n - 1)
  }

  /** Decoding up to `m` times undoes exactly up to `m` encodings. */
  lemma {:induction false} DecodeUpToUndoes(x: Text, s: Text, n: nat, m: nat)
    requires PERCENT !in s && EncodedTimes(x, s, n)
    ensures n <= m ==> DecodeUpTo(x, m) == s
    ensures n > m ==> PERCENT in DecodeUpTo(x, m)
    decreases n
  {
    DecodeShortens(s);
    if n > 0 {
      DecodeShortens(x);
      if m > 0 {
        DecodeUpToUndoes(Decode(x).value, s, n - 1, m - 1);
      }
    }
  }

  /** Sixteen-fold encoding is fully removed, seventeen-fold is not. */
  lemma SixteenFold(x: Text, s: Text, n: nat)
    requires PERCENT !in s && EncodedTimes(x, s, n)
    ensures DecodeUpTo(x, MAX_DECODES) == s <==> n <= 16
  {
    DecodeUpToUndoes(x, s, n, MAX_DECODES);
  }

  function HexDigit(d: int): Unit
    requires 0 <= d < 16
  {
    if d < 10 then 0x30 + d else 0x61 + (d - 10)
  }

  predicate Ascii(s: Text) {
    forall i :: 0 <= i < |s| ==> s[i] < 0x80
  }

  /** Every character of an ASCII text escaped. */
  function EncodeAll(s: Text): (x: Text)
    requires Ascii(s)
    ensures Ascii(x)
    ensures |x| == 3 * |s|
  {
    if s == [] then [] else [PERCENT, HexDigit(s[0] / 16), HexDigit(s[0] % 16)] + EncodeAll(s[1..])
  }

  lemma {:induction false} DecodeInvertsEncodeAll(s: Text)
    requires Ascii(s)
    ensures Decode(EncodeAll(s)) == Some(s)
  {
    if s != [] {
      var x := EncodeAll(s);
      assert x[0] == PERCENT && x[1] == HexDigit(s[0] / 16) && x[2] == HexDigit(s[0] % 16);
      assert EscapedByte(x) == Some(s[0]);
      assert FirstGroup(x) == Some(Group([s[0]], 3));
      assert [s[0]] + s[1..] == s;
      assert x[3..] == EncodeAll(s[1..]);
      DecodeInvertsEncodeAll(s[1..]);
    }
  }

  function EncodeTimes(s: Text, n: nat): (x: Text)
    requires Ascii(s)
    ensures Ascii(x)
  {
    if n == 0 then s else EncodeAll(EncodeTimes(s, n - 1))
  }

  lemma {:induction false} EncodeTimesEncodes(s: Text, n: nat)
    requires s != [] && Ascii(s)
    ensures EncodedTimes(EncodeTimes(s, n), s, n) && EncodeTimes(s, n) != []
  {
    if n > 0 {
      EncodeTimesEncodes(s, n - 1);
      DecodeInvertsEncodeAll(EncodeTimes(s, n - 1));
    }
  }

  // ---------------------------------------------------------------- segments

  function Forward(s: Text): (r: Text)
    ensures |r| == |s| && forall i :: 0 <= i < |s| ==> r[i] == if s[i] == BACKSLASH then SLASH else s[i]
  {
    seq(|s|, i requires 0 <= i < |s| => if s[i] == BACKSLASH then SLASH else s[i])
  }

  /** `split('/')` */
  function Split(t: Text): (segs: seq<Text>)
    ensures |segs| > 0
  {
    if t == [] then [[]]
    else
      var rest := Split(t[1..]);
      if t[0] == SLASH then [[]] + rest else [[t[0]] + rest[0]] + rest[1..]
  }

  /** `join('/')` */
  function Join(segs: seq<Text>): Text {
    if segs == [] then [] else if |segs| == 1 then segs[0] else segs[0] + [SLASH] + Join(segs[1..])
  }

  /** One segment of the loop in `canonicalizePath`. */
  function Walk(resolved: seq<Text>, segment: Text): seq<Text> {
    if segment == [] || segment == [DOT] then resolved
    else if segment == [DOT, DOT] then (if resolved == [] then [] else resolved[..|resolved| - 1])
    else resolved + [segment]
  }

  function Resolve(resolved: seq<Text>, segments: seq<Text>): seq<Text>
    decreases |segments|
  {
    if segments == [] then resolved else Resolve(Walk(resolved, segments[0]), segments[1..])
  }

  function Canonical(decoded: Text): Text {
    [SLASH] + Join(Resolve([], Split(Forward(decoded))))
  }

  function Canonicalized(rawPath: Text): Text {
    Canonical(DecodeUpTo(rawPath, MAX_DECODES))
  }

  method CanonicalizePath(rawPath: Text) returns (path: Text)
    ensures path == Canonicalized(rawPath)
  {
    var decoded := SafeDecode(rawPath);
    var segments := Split(Forward(decoded));
    var resolved: seq<Text> := [];
    for n := 0 to |segments|
      invariant Resolve(resolved, segments[n..]) == Resolve([], segments)
    {
      var segment := segments[n];
      assert segments[n..][1..] == segments[n + 1..];
      if segment == [] || segment == [DOT] {
        continue;
      }
      if segment == [DOT, DOT] {
        resolved := if resolved == [] then [] else resolved[..|resolved| - 1];
        continue;
      }
      resolved := resolved + [segment];
    }
    path := [SLASH] + Join(resolved);
  }

  /** A segment that may stand in a canonical path. */
  ghost predicate Plain(seg: Text) {
    seg != [] && seg != [DOT] && seg != [DOT, DOT] && SLASH !in seg && BACKSLASH !in seg
  }

  ghost predicate AllPlain(segs: seq<Text>) {
    forall i :: 0 <= i < |segs| ==> Plain(segs[i])
  }

  ghost predicate SlashFree(segs: seq<Text>) {
    forall i :: 0 <= i < |segs| ==> SLASH !in segs[i]
  }

  lemma {:induction false} SplitPieces(t: Text)
    requires BACKSLASH !in t
    ensures forall i :: 0 <= i < |Split(t)| ==> SLASH !in Split(t)[i] && BACKSLASH !in Split(t)[i]
  {
    if t != [] {
      SplitPieces(t[1..]);
    }
  }

  lemma {:induction false} ResolvePlain(resolved: seq<Text>, segments: seq<Text>)
    requires AllPlain(resolved)
    requires forall i :: 0 <= i < |segments| ==> SLASH !in segments[i] && BACKSLASH !in segments[i]
    ensures AllPlain(Resolve(resolved, segments))
    decreases |segments|
  {
    if segments != [] {
      ResolvePlain(Walk(resolved, segments[0]), segments[1..]);
    }
  }

  /**
  Whatever the raw path: the result is one slash and then segments joined by slashes, none of
  them empty, `.` or `..`, and none containing a slash of either kind.
  */
  lemma AlwaysCanonical(rawPath: Text)
    ensures exists segs :: AllPlain(segs) && Canonicalized(rawPath) == [SLASH] + Join(segs)
  {
    var segments := Split(Forward(DecodeUpTo(rawPath, MAX_DECODES)));
    SplitPieces(Forward(DecodeUpTo(rawPath, MAX_DECODES)));
    ResolvePlain([], segments);
    assert AllPlain(Resolve([], segments));
  }

  // ---------------------------------------------------------------- which segments survive

  /** The pieces of a text between slashes of either kind. */
  function Pieces(s: Text): (ps: seq<Text>)
    ensures |ps| > 0
  {
    if s == [] then [[]]
    else
      var rest := Pieces(s[1..]);
      if s[0] == SLASH || s[0] == BACKSLASH then [[]] + rest else [[s[0]] + rest[0]] + rest[1..]
  }

  lemma {:induction false} SplitIsPieces(s: Text)
    ensures Split(Forward(s)) == Pieces(s)
  {
    if s == [] {
      assert Forward(s) == [];
    } else {
      SplitIsPieces(s[1..]);
      assert Forward(s)[1..] == Forward(s[1..]);
    }
  }

  /**
  The segments that survive, read from the right: each `..` takes away the nearest segment to
  its left that is not taken yet, if there is one.
  */
  function Survivors(segs: seq<Text>, pops: nat): seq<Text>
    decreases |segs|
  {
    if segs == [] then []
    else
      var front, last := segs[..|segs| - 1], segs[|segs| - 1];
      if last == [] || last == [DOT] then Survivors(front, pops)
      else if last == [DOT, DOT] then Survivors(front, pops + 1)
      else if pops > 0 then Survivors(front, pops - 1)
      else Survivors(front, 0) + [last]
  }

  function WithoutLast(segs: seq<Text>, n: nat): seq<Text> {
    if n <= |segs| then segs[..|segs| - n] else []
  }

  lemma {:induction false} ResolveAppend(resolved: seq<Text>, a: seq<Text>, b: seq<Text>)
    ensures Resolve(resolved, a + b) == Resolve(Resolve(resolved, a), b)
    decreases |a|
  {
    if a == [] {
      assert a + b == b;
    } else {
      ResolveAppend(Walk(resolved, a[0]), a[1..], b);
      assert (a + b)[1..] == a[1..] + b;
    }
  }

  lemma ResolveOne(resolved: seq<Text>, segment: Text)
    ensures Resolve(resolved, [segment]) == Walk(resolved, segment)
  {
    var one: seq<Text> := [segment];
    assert one[1..] == [];
  }

  lemma {:induction false} ResolveFromRight(segs: seq<Text>, pops: nat)
    ensures WithoutLast(Resolve([], segs), pops) == Survivors(segs, pops)
    decreases |segs|
  {
    if segs != [] {
      var front, last := segs[..|segs| - 1], segs[|segs| - 1];
      assert segs == front + [last];
      ResolveAppend([], front, [last]);
      ResolveOne(Resolve([], front), last);
      ResolveFromRight(front, if last == [DOT, DOT] then pops + 1 else if last == [] || last == [DOT] then pops else if pops > 0 then pops - 1 else 0);
    }
  }

  /** The canonical form of a decoded path, in full: its surviving pieces. */
  lemma CanonicalForm(decoded: Text)
    ensures Canonical(decoded) == [SLASH] + Join(Survivors(Pieces(decoded), 0))
  {
    SplitIsPieces(decoded);
    ResolveFromRight(Pieces(decoded), 0);
    var r := Resolve([], Pieces(decoded));
    assert WithoutLast(r, 0) == r;
  }

  /** The path over segments. */
  function Over(segs: seq<Text>): Text { [SLASH] + Join(segs) }

  ghost predicate NoSlashes(segs: seq<Text>) {
    forall i :: 0 <= i < |segs| ==> SLASH !in segs[i] && BACKSLASH !in segs[i]
  }

  lemma CanonicalOver(segs: seq<Text>)
    requires NoSlashes(segs)
    ensures Canonical(Over(segs)) == Over(Resolve([], segs))
  {
    var path := Over(segs);
    UnitInJoinIff(segs, BACKSLASH);
    assert Forward(path) == path;
    if segs == [] {
      var empty: seq<Text> := [[]];
      assert path[1..] == [] && Split(path) == empty + empty;
      ResolveOne([], []);
      assert (empty + empty)[1..] == empty;
    } else {
      SplitRooted(segs);
      assert ([[]] + segs)[1..] == segs;
    }
  }

  /** `..` takes back the segment before it, and nothing else. */
  lemma ParentGoesBack(front: seq<Text>, seg: Text, rest: seq<Text>)
    requires NoSlashes(front) && Plain(seg) && NoSlashes(rest)
    ensures Canonical(Over(front + [seg, [DOT, DOT]] + rest)) == Canonical(Over(front + rest))
  {
    var r := Resolve([], front);
    var there, back := [seg, [DOT, DOT]], [[DOT, DOT]];
    CanonicalOver(front + there + rest);
    CanonicalOver(front + rest);
    ResolveAppend([], front + there, rest);
    ResolveAppend([], front, there);
    ResolveAppend([], front, rest);
    assert there[1..] == back;
    ResolveOne(r + [seg], [DOT, DOT]);
    assert Resolve(r, there) == Resolve(r + [seg], back) == r;
  }

  /** Empty segments and `.` change nothing, nor does `..` at the root. */
  lemma NeutralSegments(front: seq<Text>, x: Text, rest: seq<Text>)
    requires NoSlashes(front) && NoSlashes(rest) && (x == [] || x == [DOT] || (front == [] && x == [DOT, DOT]))
    ensures Canonical(Over(front + [x] + rest)) == Canonical(Over(front + rest))
  {
    CanonicalOver(front + [x] + rest);
    CanonicalOver(front + rest);
    ResolveAppend([], front + [x], rest);
    ResolveAppend([], front, [x]);
    ResolveAppend([], front, rest);
    ResolveOne(Resolve([], front), x);
  }

  // ---------------------------------------------------------------- idempotence

  /** Splitting at a slash splits both sides. */
  lemma {:induction false} SplitAtSlash(a: Text, b: Text)
    ensures Split(a + [SLASH] + b) == Split(a) + Split(b)
  {
    var t := a + [SLASH] + b;
    if a == [] {
      assert t == [SLASH] + b;
      assert t[1..] == b;
    } else {
      assert t[1..] == a[1..] + [SLASH] + b;
      SplitAtSlash(a[1..], b);
    }
  }

  lemma {:induction false} SplitOne(seg: Text)
    requires SLASH !in seg
    ensures Split(seg) == [seg]
  {
    if seg != [] {
      SplitOne(seg[1..]);
      assert [seg[0]] + seg[1..] == seg;
    }
  }

  /** Splitting undoes joining. */
  lemma {:induction false} SplitJoin(segs: seq<Text>)
    requires segs != [] && SlashFree(segs)
    ensures Split(Join(segs)) == segs
  {
    SplitOne(segs[0]);
    if |segs| > 1 {
      SplitJoin(segs[1..]);
      SplitAtSlash(segs[0], Join(segs[1..]));
    }
  }

  lemma SplitRooted(segs: seq<Text>)
    requires segs != [] && SlashFree(segs)
    ensures Split([SLASH] + Join(segs)) == [[]] + segs
  {
    SplitJoin(segs);
    assert ([SLASH] + Join(segs))[1..] == Join(segs);
  }

  lemma {:induction false} ResolveKeepsPlain(resolved: seq<Text>, segs: seq<Text>)
    requires AllPlain(segs)
    ensures Resolve(resolved, segs) == resolved + segs
    decreases |segs|
  {
    if segs != [] {
      ResolveKeepsPlain(resolved + [segs[0]], segs[1..]);
      assert resolved + [segs[0]] + segs[1..] == resolved + segs;
    }
  }

  lemma {:induction false} JoinHasNoBackslash(segs: seq<Text>)
    requires AllPlain(segs)
    ensures BACKSLASH !in Join(segs)
  {
    if |segs| > 1 {
      JoinHasNoBackslash(segs[1..]);
    }
  }

  /** Resolving a path that is canonical already changes nothing. */
  lemma CanonicalFixed(segs: seq<Text>)
    requires AllPlain(segs)
    ensures Canonical([SLASH] + Join(segs)) == [SLASH] + Join(segs)
  {
    var path := [SLASH] + Join(segs);
    JoinHasNoBackslash(segs);
    assert Forward(path) == path;
    if segs == [] {
      assert path == [SLASH];
      assert path[1..] == [];
      assert Split(path) == [[], []];
      assert Resolve([], [[], []]) == Resolve([], [[], []][1..]) == Resolve([], [[]]) == Resolve([], [[]][1..]);
    } else {
      SplitRooted(segs);
      assert ([[]] + segs)[1..] == segs;
      ResolveKeepsPlain([], segs);
      assert [] + segs == segs;
      assert Resolve([], [[]] + segs) == Resolve([], segs);
    }
  }

  /** The length of a rooted path over these segments, not counting the root alone. */
  function Weight(segs: seq<Text>): nat {
    if segs == [] then 0 else |segs[0]| + 1 + Weight(segs[1..])
  }

  lemma {:induction false} JoinLength(segs: seq<Text>)
    requires segs != []
    ensures |Join(segs)| + 1 == Weight(segs)
  {
    if |segs| > 1 {
      JoinLength(segs[1..]);
    } else {
      assert segs[1..] == [];
    }
  }

  lemma {:induction false} SplitWeight(t: Text)
    ensures Weight(Split(t)) == |t| + 1
  {
    if t != [] {
      SplitWeight(t[1..]);
      var rest := Split(t[1..]);
      if t[0] == SLASH {
        assert ([[]] + rest)[1..] == rest;
      } else {
        assert ([[t[0]] + rest[0]] + rest[1..])[1..] == rest[1..];
      }
    } else {
      assert Weight([[]]) == 1;
    }
  }

  lemma {:induction false} WeightAppend(segs: seq<Text>, seg: Text)
    ensures Weight(segs + [seg]) == Weight(segs) + |seg| + 1
  {
    if segs == [] {
      assert segs + [seg] == [seg];
      assert [seg][1..] == [];
    } else {
      WeightAppend(segs[1..], seg);
      assert (segs + [seg])[1..] == segs[1..] + [seg];
    }
  }

  lemma WalkWeight(resolved: seq<Text>, segment: Text)
    ensures Weight(Walk(resolved, segment)) <= Weight(resolved) + |segment| + 1
  {
    if segment == [DOT, DOT] && resolved != [] {
      var front := resolved[..|resolved| - 1];
      assert resolved == front + [resolved[|resolved| - 1]];
      WeightAppend(front, resolved[|resolved| - 1]);
    } else {
      WeightAppend(resolved, segment);
    }
  }

  lemma {:induction false} ResolveWeight(resolved: seq<Text>, segments: seq<Text>)
    ensures Weight(Resolve(resolved, segments)) <= Weight(resolved) + Weight(segments)
    decreases |segments|
  {
    if segments != [] {
      WalkWeight(resolved, segments[0]);
      ResolveWeight(Walk(resolved, segments[0]), segments[1..]);
    }
  }

  /** Resolving a rooted path never makes it longer. */
  lemma CanonicalNotLonger(t: Text)
    requires t != [] && t[0] == SLASH
    ensures |Canonical(t)| <= |t|
  {
    var f := Forward(t);
    SplitWeight(f[1..]);
    assert Split(f) == [[]] + Split(f[1..]);
    assert ([[]] + Split(f[1..]))[1..] == Split(f[1..]);
    var segs := Resolve([], Split(f));
    assert segs == Resolve([], Split(f[1..]));
    ResolveWeight([], Split(f[1..]));
    if segs != [] {
      JoinLength(segs);
    }
  }

  lemma {:induction false} DecodeUpToShortens(s: Text, n: nat)
    requires s != [] && s[0] == SLASH
    ensures |DecodeUpTo(s, n)| <= |s| && DecodeUpTo(s, n) != [] && DecodeUpTo(s, n)[0] == SLASH
    decreases n
  {
    if n > 0 && Decode(s).Some? && Decode(s).value != s {
      DecodeShortens(s);
      DecodeUpToShortens(Decode(s).value, n - 1);
    }
  }

  /** The same, read off the result. */
  lemma SecondPassChangesIff(rawPath: Text)
    ensures var c := Canonicalized(rawPath);
            Canonicalized(c) == c <==> PERCENT !in c || Decode(c).None?
  {
    var c := Canonicalized(rawPath);
    AlwaysCanonical(rawPath);
    var segs :| AllPlain(segs) && c == [SLASH] + Join(segs);
    DecodeShortens(c);
    if PERCENT !in c || Decode(c).None? {
      assert DecodeUpTo(c, MAX_DECODES) == c;
      CanonicalFixed(segs);
    } else {
      var next := Decode(c).value;
      assert DecodeUpTo(c, MAX_DECODES) == DecodeUpTo(next, MAX_DECODES - 1);
      DecodeUpToShortens(next, MAX_DECODES - 1);
      CanonicalNotLonger(DecodeUpTo(next, MAX_DECODES - 1));
    }
  }

  // No escape reaches across a slash.

  lemma GroupBeforeSlash(a: Text, b: Text)
    ensures FirstGroup(a + [SLASH] + b) == FirstGroup(a)
  {
    var s := a + [SLASH] + b;
    ByteBeforeSlash(a, b);
    if |a| >= 3 {
      assert s[3..] == a[3..] + [SLASH] + b;
      ByteBeforeSlash(a[3..], b);
    }
    if |a| >= 6 {
      assert s[6..] == a[6..] + [SLASH] + b;
      ByteBeforeSlash(a[6..], b);
    }
    if |a| >= 9 {
      assert s[9..] == a[9..] + [SLASH] + b;
      ByteBeforeSlash(a[9..], b);
    }
  }

  lemma ByteBeforeSlash(a: Text, b: Text)
    ensures EscapedByte(a + [SLASH] + b) == EscapedByte(a)
  {
    var s := a + [SLASH] + b;
    assert forall i :: 0 <= i < |a| ==> s[i] == a[i];
    assert s[|a|] == SLASH;
  }

  lemma {:induction false} DecodesAroundSlash(a: Text, b: Text)
    ensures Decode(a + [SLASH] + b).Some? <==> Decode(a).Some? && Decode(b).Some?
    decreases |a|
  {
    var s := a + [SLASH] + b;
    if a == [] {
      assert s[1..] == b;
    } else if a[0] != PERCENT {
      assert s[1..] == a[1..] + [SLASH] + b;
      DecodesAroundSlash(a[1..], b);
    } else {
      GroupBeforeSlash(a, b);
      if FirstGroup(a).Some? {
        var n := FirstGroup(a).value.length;
        assert s[n..] == a[n..] + [SLASH] + b;
        DecodesAroundSlash(a[n..], b);
      }
    }
  }

  lemma {:induction false} JoinDecodesIff(segs: seq<Text>)
    ensures Decode(Join(segs)).Some? <==> forall i :: 0 <= i < |segs| ==> Decode(segs[i]).Some?
  {
    if |segs| > 1 {
      JoinDecodesIff(segs[1..]);
      DecodesAroundSlash(segs[0], Join(segs[1..]));
      assert forall i :: 0 < i < |segs| ==> segs[i] == segs[1..][i - 1];
      assert forall i :: 0 <= i < |segs| - 1 ==> segs[1..][i] == segs[i + 1];
    }
  }

  lemma {:induction false} UnitInJoinIff(segs: seq<Text>, u: Unit)
    requires u != SLASH
    ensures u in Join(segs) <==> exists i :: 0 <= i < |segs| && u in segs[i]
  {
    if |segs| > 1 {
      UnitInJoinIff(segs[1..], u);
      if i :| 0 <= i < |segs| && u in segs[i] {
        assert i > 0 ==> u in segs[1..][i - 1];
      }
      if i :| 0 <= i < |segs[1..]| && u in segs[1..][i] {
        assert u in segs[i + 1];
      }
    }
  }

  /** The segments that are left of the decoded path when it has been resolved. */
  function Surviving(rawPath: Text): seq<Text> {
    Resolve([], Split(Forward(DecodeUpTo(rawPath, MAX_DECODES))))
  }

  /**
  Canonicalizing twice is canonicalizing once exactly when the segments that survive resolving
  are all free of `%`, or one of them is malformed, which stops the second decoding as a whole.
  */
  lemma IdempotentIff(rawPath: Text)
    ensures var segs := Surviving(rawPath);
            Canonicalized(Canonicalized(rawPath)) == Canonicalized(rawPath)
            <==> || (forall i :: 0 <= i < |segs| ==> PERCENT !in segs[i])
                 || (exists i :: 0 <= i < |segs| && Decode(segs[i]).None?)
  {
    var segs := Surviving(rawPath);
    var c := Canonicalized(rawPath);
    assert c == [] + [SLASH] + Join(segs);
    SecondPassChangesIff(rawPath);
    JoinDecodesIff(segs);
    DecodesAroundSlash([], Join(segs));
    UnitInJoinIff(segs, PERCENT);
  }

  /** A path and its encodings, up to sixteen-fold, have the same canonical form. */
  lemma EncodingsShareCanonicalForm(s: Text, n: nat)
    requires s != [] && Ascii(s) && PERCENT !in s && n <= 16
    ensures Canonicalized(EncodeTimes(s, n)) == Canonicalized(s)
  {
    EncodeTimesEncodes(s, n);
    SixteenFold(EncodeTimes(s, n), s, n);
    EncodeTimesEncodes(s, 0);
    SixteenFold(s, s, 0);
  }

  lemma {:induction false} SplitUnits(t: Text, u: Unit)
    requires u !in t
    ensures forall i :: 0 <= i < |Split(t)| ==> u !in Split(t)[i]
  {
    if t != [] {
      SplitUnits(t[1..], u);
    }
  }

  lemma {:induction false} ResolveUnits(resolved: seq<Text>, segments: seq<Text>, u: Unit)
    requires forall i :: 0 <= i < |resolved| ==> u !in resolved[i]
    requires forall i :: 0 <= i < |segments| ==> u !in segments[i]
    ensures forall i :: 0 <= i < |Resolve(resolved, segments)| ==> u !in Resolve(resolved, segments)[i]
    decreases |segments|
  {
    if segments != [] {
      ResolveUnits(Walk(resolved, segments[0]), segments[1..], u);
    }
  }

  /** In particular it is idempotent wherever decoding reached its fixed point. */
  lemma IdempotentAtFixedPoint(rawPath: Text)
    requires PERCENT !in DecodeUpTo(rawPath, MAX_DECODES)
    ensures Canonicalized(Canonicalized(rawPath)) == Canonicalized(rawPath)
  {
    var f := Forward(DecodeUpTo(rawPath, MAX_DECODES));
    SplitUnits(f, PERCENT);
    ResolveUnits([], Split(f), PERCENT);
    IdempotentIff(rawPath);
  }

  // ---------------------------------------------------------------- a malformed escape shields the others

  /** `%zz`, `%2e%2e` and `x` */
  const MALFORMED: Text := [0x25, 0x7A, 0x7A]
  const ENCODED_DOTS: Text := [0x25, 0x32, 0x65, 0x25, 0x32, 0x65]
  const LETTER_X: Text := [0x78]

  /**
  `/%zz/../%2e%2e/x` is not decoded at all, because `%zz` is malformed; resolving removes just
  that segment, and the result `/%2e%2e/x` still holds an encoded `..`. A second pass gives `/x`.
  */
  lemma EncodedDotsSurvive()
    ensures var raw := Over([MALFORMED, [DOT, DOT], ENCODED_DOTS, LETTER_X]);
            && Canonicalized(raw) == Over([ENCODED_DOTS, LETTER_X])
            && Canonicalized(Canonicalized(raw)) == Over([LETTER_X])
  {
    var segs, left := [MALFORMED, [DOT, DOT], ENCODED_DOTS, LETTER_X], [ENCODED_DOTS, LETTER_X];
    assert segs[0] == MALFORMED && Decode(segs[0]).None? by {
      assert MALFORMED[0] == PERCENT && MALFORMED[1] == 0x7A;
    }
    JoinDecodesIff(segs);
    assert Over(segs) == [] + [SLASH] + Join(segs);
    DecodesAroundSlash([], Join(segs));
    assert Canonicalized(Over(segs)) == Canonical(Over(segs));
    assert segs == [] + [MALFORMED, [DOT, DOT]] + left && [] + left == left;
    assert ENCODED_DOTS[0] == PERCENT && LETTER_X[0] == 0x78;
    ParentGoesBack([], MALFORMED, left);
    CanonicalFixed(left);
    SecondPass();
  }

  lemma SecondPass()
    ensures Canonicalized(Over([ENCODED_DOTS, LETTER_X])) == Over([LETTER_X])
  {
    var path, decoded := Over([ENCODED_DOTS, LETTER_X]), Over([[DOT, DOT], LETTER_X]);
    DecodeSecond(path);
    var segs := [[DOT, DOT], LETTER_X];
    assert segs[1..] == [LETTER_X] && Join(segs) == [DOT, DOT] + [SLASH] + LETTER_X;
    assert decoded == [SLASH] + ([DOT, DOT] + [SLASH] + LETTER_X) == [SLASH, DOT, DOT, SLASH, 0x78];
    DecodedOnce(path, decoded, MAX_DECODES);
    assert [[DOT, DOT], LETTER_X] == [] + [[DOT, DOT]] + [LETTER_X] && [] + [LETTER_X] == [LETTER_X];
    assert LETTER_X[0] == 0x78;
    NeutralSegments([], [DOT, DOT], [LETTER_X]);
    CanonicalFixed([LETTER_X]);
  }

  lemma DecodedOnce(path: Text, decoded: Text, n: nat)
    requires n >= 2 && Decode(path) == Some(decoded) && path != decoded && PERCENT !in decoded
    ensures DecodeUpTo(path, n) == decoded
  {
    DecodeShortens(decoded);
    assert DecodeUpTo(decoded, n - 1) == decoded;
  }

  lemma DecodeSecond(path: Text)
    requires path == Over([ENCODED_DOTS, LETTER_X])
    ensures Decode(path) == Some([SLASH, DOT, DOT, SLASH, 0x78]) && path != [SLASH, DOT, DOT, SLASH, 0x78]
  {
    assert [ENCODED_DOTS, LETTER_X][1..] == [LETTER_X];
    assert Join([ENCODED_DOTS, LETTER_X]) == ENCODED_DOTS + [SLASH] + LETTER_X;
    var p1: Text := ENCODED_DOTS + [SLASH] + LETTER_X;
    var p2: Text := [0x25, 0x32, 0x65] + [SLASH] + LETTER_X;
    var p3: Text := [SLASH] + LETTER_X;
    assert path[1..] == p1 && p1[3..] == p2 && p2[3..] == p3;
    assert p3 == [SLASH, 0x78];
    DecodeShortens(p3);
    assert EscapedByte(p2) == Some(0x2E) && EscapedByte(p1) == Some(0x2E);
    assert Decode(p2) == Some([DOT] + p3);
    assert Decode(p1) == Some([DOT] + ([DOT] + p3));
    assert [SLASH] + ([DOT] + ([DOT] + p3)) == [SLASH, DOT, DOT, SLASH, 0x78];
  }

  // ---------------------------------------------------------------- allowed paths

  predicate Matches(path: Text, allowed: Text) {
    path == allowed || allowed + [SLASH] <= path
  }

  method IsPathAllowed(canonicalPath: Text, allowedPaths: seq<Text>) returns (ok: bool)
    ensures ok <==> exists i :: 0 <= i < |allowedPaths| && Matches(canonicalPath, allowedPaths[i])
  {
    for n := 0 to |allowedPaths|
      invariant forall i :: 0 <= i < n ==> !Matches(canonicalPath, allowedPaths[i])
    {
      var allowed := allowedPaths[n];
      if canonicalPath == allowed {
        return true;
      }
      if allowed + [SLASH] <= canonicalPath {
        return true;
      }
    }
    return false;
  }

  lemma {:induction false} JoinAppend(a: seq<Text>, b: seq<Text>)
    requires a != [] && b != []
    ensures Join(a + b) == Join(a) + [SLASH] + Join(b)
  {
    if |a| == 1 {
      assert (a + b)[1..] == b;
    } else {
      JoinAppend(a[1..], b);
      assert (a + b)[1..] == a[1..] + b;
      assert a[0] + [SLASH] + (Join(a[1..]) + [SLASH] + Join(b)) == a[0] + [SLASH] + Join(a[1..]) + [SLASH] + Join(b);
    }
  }

  lemma PrefixMatches(path: seq<Text>, entry: seq<Text>)
    requires entry != [] && entry <= path
    ensures Matches([SLASH] + Join(path), [SLASH] + Join(entry))
  {
    var rest := path[|entry|..];
    assert path == entry + rest;
    if rest == [] {
      assert path == entry;
    } else {
      JoinAppend(entry, rest);
      var p, e := [SLASH] + Join(path), [SLASH] + Join(entry);
      assert p == (e + [SLASH]) + Join(rest);
      assert e + [SLASH] <= p;
    }
  }

  lemma ExtensionIsPrefix(path: seq<Text>, entry: seq<Text>, rest: Text)
    requires SlashFree(path) && SlashFree(entry) && entry != [] && path != []
    requires Join(path) == Join(entry) + [SLASH] + rest
    ensures entry <= path
  {
    SplitJoin(path);
    SplitJoin(entry);
    SplitAtSlash(Join(entry), rest);
  }

  lemma MatchIsExtension(path: Text, entry: Text)
    requires Matches([SLASH] + path, [SLASH] + entry) && path != entry
    ensures exists rest :: path == entry + [SLASH] + rest
  {
    var p, e := [SLASH] + path, [SLASH] + entry;
    assert p != e by {
      assert p[1..] == path && e[1..] == entry;
    }
    var rest := p[|e| + 1..];
    assert p == (e + [SLASH]) + rest;
    assert path == p[1..] == entry + [SLASH] + rest;
  }

  /**
  Matching is by whole segments: a canonical path matches a canonical entry other than the
  root exactly when the entry's segments are the first segments of the path.
  */
  lemma MatchIsSegmentPrefix(path: seq<Text>, entry: seq<Text>)
    requires AllPlain(path) && AllPlain(entry) && entry != []
    ensures Matches([SLASH] + Join(path), [SLASH] + Join(entry)) <==> entry <= path
  {
    if entry <= path {
      PrefixMatches(path, entry);
    }
    if Matches([SLASH] + Join(path), [SLASH] + Join(entry)) {
      SplitJoin(entry);
      if Join(path) != Join(entry) {
        MatchIsExtension(Join(path), Join(entry));
        var rest :| Join(path) == Join(entry) + [SLASH] + rest;
        assert path != [];
        ExtensionIsPrefix(path, entry, rest);
      } else {
        assert Join(entry) != [] by {
          JoinLength(entry);
          assert |entry[0]| > 0;
          assert Weight(entry) == |entry[0]| + 1 + Weight(entry[1..]);
        }
        SplitJoin(path);
      }
    }
  }

  /** The root as an entry allows the root only. */
  lemma RootMatchesRoot(path: seq<Text>)
    requires AllPlain(path)
    ensures Matches([SLASH] + Join(path), [SLASH] + Join([])) <==> path == []
  {
    if path != [] {
      assert |path[0]| > 0 && path[0][0] in path[0];
      var p := [SLASH] + Join(path);
      assert p[1] == Join(path)[0] == path[0][0];
      assert ([SLASH] + Join([]) + [SLASH])[1] == SLASH;
    }
  }
}
