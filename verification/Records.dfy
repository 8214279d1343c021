/** The rows of lib/matu.h and their encoding as bytes. */
module Records {
  import opened Slots

  type Int32 = x: int | -0x8000_0000 <= x < 0x8000_0000

  datatype RowData = RowData(id: Int32, sex: bool, name: seq<Byte>, number: seq<Byte>, email: seq<Byte>)

  /** Conversion of a size to u16. */
  function U16(n: nat): (r: nat)
    ensures r < 0x1_0000 && r <= n
    ensures n < 0x1_0000 ==> r == n
  {
    n % 0x1_0000
  }

  function U16Bytes(n: nat): (b: seq<Byte>)
    requires n < 0x1_0000
    ensures |b| == 2
  {
    [n % 0x100, n / 0x100]
  }

  function ReadU16(b: seq<Byte>, at: nat): (n: nat)
    requires at + 2 <= |b|
    ensures n < 0x1_0000
  {
    var lo: int, hi: int := b[at], b[at + 1];
    lo + 0x100 * hi
  }

  /** Two's complement, least significant byte first. */
  function IntBytes(x: Int32): (b: seq<Byte>)
    ensures |b| == 4
  {
    var u := if x < 0 then x + 0x1_0000_0000 else x;
    [u % 0x100, u / 0x100 % 0x100, u / 0x1_0000 % 0x100, u / 0x100_0000]
  }

  function ReadInt(b: seq<Byte>, at: nat): Int32
    requires at + 4 <= |b|
  {
    var u := ReadU16(b, at) + 0x1_0000 * ReadU16(b, at + 2);
    if u >= 0x8000_0000 then u - 0x1_0000_0000 else u
  }

  lemma IntRoundTrip(x: Int32)
    ensures ReadInt(IntBytes(x), 0) == x
  {
    var u := if x < 0 then x + 0x1_0000_0000 else x;
    assert u / 0x1_0000 == u / 0x100 / 0x100;
    assert u / 0x100_0000 == u / 0x100 / 0x100 / 0x100;
  }

  /** A C string: the bytes up to the first NUL. */
  function CString(b: seq<Byte>, at: nat): seq<Byte>
    decreases |b| - at
  {
    if at >= |b| || b[at] == 0 then [] else [b[at]] + CString(b, at + 1)
  }

  predicate NoNul(s: seq<Byte>) {
    forall i :: 0 <= i < |s| ==> s[i] != 0
  }

  /** The bytes of the string that are copied: as many as its u16 length says. */
  function Text(s: seq<Byte>): seq<Byte> {
    s[..U16(|s|)]
  }

  /** The bytes of a row: total length, three lengths, id, sex, and three strings each with
      a NUL at its end. */
  function Encoded(r: RowData): (b: seq<Byte>)
    ensures |b| == 16 + U16(|r.name|) + U16(|r.number|) + U16(|r.email|)
  {
    Head(r) + Text(r.name) + [0] + Text(r.number) + [0] + Text(r.email) + [0]
  }

  function Head(r: RowData): (b: seq<Byte>)
    ensures |b| == 13
  {
    U16Bytes(U16(16 + U16(|r.name|) + U16(|r.number|) + U16(|r.email|)))
    + U16Bytes(U16(|r.name|)) + U16Bytes(U16(|r.number|)) + U16Bytes(U16(|r.email|))
    + IntBytes(r.id) + [if r.sex then 1 else 0]
  }

  /** The total length at the head of an encoded row, which insert and update hand to the tree. */
  lemma TotalRead(r: RowData)
    ensures |Encoded(r)| < 0x1_0000 ==> ReadU16(Encoded(r), 0) == |Encoded(r)|
  {
    assert Encoded(r)[0] == Head(r)[0] && Encoded(r)[1] == Head(r)[1];
  }

  /** decode: strings are read up to their NUL, from where the lengths say they begin. */
  function Decoded(b: seq<Byte>): RowData
    requires |b| >= 13
  {
    var nameLen, numLen := ReadU16(b, 2), ReadU16(b, 4);
    RowData(ReadInt(b, 8), b[12] != 0, CString(b, 13), CString(b, 14 + nameLen), CString(b, 15 + nameLen + numLen))
  }

  /** The string and a NUL after it stand at `at`. */
  ghost predicate StandsAt(b: seq<Byte>, at: nat, s: seq<Byte>) {
    at + |s| < |b| && b[at..at + |s|] == s && b[at + |s|] == 0
  }

  lemma {:induction false} CStringOf(b: seq<Byte>, at: nat, s: seq<Byte>)
    requires StandsAt(b, at, s)
    ensures CString(b, at) == s <==> NoNul(s)
    ensures |CString(b, at)| <= |s|
    decreases |s|
  {
    if s != [] {
      assert b[at] == s[0];
      assert b[at + 1..at + 1 + |s[1..]|] == s[1..];
      CStringOf(b, at + 1, s[1..]);
      if b[at] != 0 {
        if NoNul(s[1..]) {
          assert s == [s[0]] + s[1..];
        }
        if CString(b, at) == s {
          assert CString(b, at + 1) == s[1..];
          assert forall i :: 0 <= i < |s| ==> s[i] != 0 by {
            forall i | 0 <= i < |s| ensures s[i] != 0 {
              if i > 0 { assert s[1..][i - 1] == s[i]; }
            }
          }
        }
      }
    }
  }

  /** What is read back of a string: of the bytes that are copied those before the first NUL. */
  function ReadBack(s: seq<Byte>): seq<Byte> {
    CString(Text(s), 0)
  }

  lemma {:induction false} CStringAt(b: seq<Byte>, at: nat, s: seq<Byte>, i: nat)
    requires StandsAt(b, at, s) && i <= |s|
    ensures CString(b, at + i) == CString(s, i)
    decreases |s| - i
  {
    if i < |s| {
      assert b[at + i] == b[at..at + |s|][i] == s[i];
      CStringAt(b, at, s, i + 1);
    }
  }

  lemma {:induction false} CStringPlain(b: seq<Byte>, at: nat)
    ensures NoNul(CString(b, at)) && |CString(b, at)| <= if at <= |b| then |b| - at else 0
    decreases |b| - at
  {
    if at < |b| && b[at] != 0 {
      CStringPlain(b, at + 1);
    }
  }

  /** A string without a NUL whose length fits in u16 is read back as it was, and what is read
      back is such a string. */
  lemma ReadBackSame(s: seq<Byte>)
    ensures ReadBack(s) == s <==> NoNul(s) && |s| < 0x1_0000
    ensures NoNul(ReadBack(s)) && |ReadBack(s)| < 0x1_0000
  {
    hide CString, NoNul;
    var b := Text(s) + [0];
    CStringAt(b, 0, Text(s), 0);
    TextReads(b, 0, s);
    CStringPlain(Text(s), 0);
  }

  /** What decode makes of an encoded row. */
  lemma DecodedParts(r: RowData, b: seq<Byte>)
    requires Encoded(r) <= b
    ensures Decoded(b) == RowData(r.id, r.sex, ReadBack(r.name), ReadBack(r.number), ReadBack(r.email))
  {
    hide Head, Encoded, CString, ReadU16, ReadInt, Text, U16;
    HeadReads(r, b) by { TextPlaces(r, b); }
    TextsRead(r, b);
  }

  lemma TextsRead(r: RowData, b: seq<Byte>)
    requires Encoded(r) <= b
    ensures var n, m := U16(|r.name|), U16(|r.number|);
      CString(b, 13) == ReadBack(r.name) && CString(b, 14 + n) == ReadBack(r.number)
        && CString(b, 15 + n + m) == ReadBack(r.email)
  {
    hide Head, Encoded, CString, ReadU16, ReadInt, StandsAt, Text, U16;
    TextPlaces(r, b);
    CStringAt(b, 13, Text(r.name), 0);
    CStringAt(b, 14 + U16(|r.name|), Text(r.number), 0);
    CStringAt(b, 15 + U16(|r.name|) + U16(|r.number|), Text(r.email), 0);
  }

  /** The rows that survive encoding: no NUL in a string, and lengths that fit in u16. */
  predicate Plain(r: RowData) {
    && NoNul(r.name) && |r.name| < 0x1_0000
    && NoNul(r.number) && |r.number| < 0x1_0000
    && NoNul(r.email) && |r.email| < 0x1_0000
  }

  /** What decode reads in the first 13 bytes of an encoded row. */
  lemma HeadReads(r: RowData, b: seq<Byte>)
    requires Head(r) <= b
    ensures ReadU16(b, 2) == U16(|r.name|) && ReadU16(b, 4) == U16(|r.number|)
    ensures ReadInt(b, 8) == r.id && (b[12] != 0) == r.sex
  {
    var h := Head(r);
    assert b[2] == h[2] && b[3] == h[3] && b[4] == h[4] && b[5] == h[5] && b[12] == h[12];
    assert IntBytes(r.id) == h[8..12] == b[8..12];
    IntRoundTrip(r.id);
    assert ReadInt(b, 8) == ReadInt(b[8..12], 0);
  }

  /** Where the strings stand in an encoded row. */
  lemma TextPlaces(r: RowData, b: seq<Byte>)
    requires Encoded(r) <= b
    ensures Head(r) <= b
    ensures var n, m := U16(|r.name|), U16(|r.number|);
      && StandsAt(b, 13, Text(r.name)) && StandsAt(b, 14 + n, Text(r.number)) && StandsAt(b, 15 + n + m, Text(r.email))
  {
    PartsAt(Head(r), Text(r.name), Text(r.number), Text(r.email), b);
  }

  lemma PartsAt(a: seq<Byte>, c: seq<Byte>, d: seq<Byte>, e: seq<Byte>, b: seq<Byte>)
    requires |a| == 13 && a + c + [0] + d + [0] + e + [0] <= b
    ensures a <= b && StandsAt(b, 13, c) && StandsAt(b, 14 + |c|, d) && StandsAt(b, 15 + |c| + |d|, e)
  {
    var s := a + c + [0] + d + [0] + e + [0];
    assert s == b[..|s|];
    assert s[13..13 + |c|] == c && s[14 + |c|..14 + |c| + |d|] == d;
    assert s[15 + |c| + |d|..15 + |c| + |d| + |e|] == e;
  }

  /** Decoding what was encoded gives the row back exactly for the rows whose strings hold
      no NUL and fit their lengths, whatever bytes follow. */
  lemma RoundTrip(r: RowData, b: seq<Byte>)
    requires Encoded(r) <= b
    ensures Decoded(b) == r <==> Plain(r)
    ensures Decoded(b).id == r.id && Decoded(b).sex == r.sex
  {
    hide Head, Encoded, CString, ReadU16, ReadInt, NoNul, U16;
    HeadReads(r, b) by { TextPlaces(r, b); }
    StringsRead(r, b);
  }

  lemma StringsRead(r: RowData, b: seq<Byte>)
    requires Encoded(r) <= b
    ensures var n, m := U16(|r.name|), U16(|r.number|);
      && (CString(b, 13) == r.name <==> NoNul(r.name) && |r.name| < 0x1_0000)
      && (CString(b, 14 + n) == r.number <==> NoNul(r.number) && |r.number| < 0x1_0000)
      && (CString(b, 15 + n + m) == r.email <==> NoNul(r.email) && |r.email| < 0x1_0000)
  {
    hide Head, Encoded, CString, NoNul, Text, U16, StandsAt;
    TextPlaces(r, b);
    TextReads(b, 13, r.name);
    TextReads(b, 14 + U16(|r.name|), r.number);
    TextReads(b, 15 + U16(|r.name|) + U16(|r.number|), r.email);
  }

  /** A string is read back exactly when it holds no NUL and its length fits. */
  lemma TextReads(b: seq<Byte>, at: nat, s: seq<Byte>)
    requires StandsAt(b, at, Text(s))
    ensures CString(b, at) == s <==> NoNul(s) && |s| < 0x1_0000
  {
    hide CString, NoNul;
    CStringOf(b, at, Text(s));
    assert |s| < 0x1_0000 ==> Text(s) == s;
    assert |s| >= 0x1_0000 ==> |Text(s)| < |s|;
  }

  lemma Lengths(r: RowData)
    ensures |Text(r.name)| == U16(|r.name|) && |Text(r.number)| == U16(|r.number|) && |Text(r.email)| == U16(|r.email|)
    ensures forall s :: |s| < 0x1_0000 <==> Text(s) == s
  {
  }

  /** memcpy into `r` at `p`. */
  method Copy(r: array<Byte>, p: nat, s: seq<Byte>) returns (end: nat)
    requires p + |s| <= r.Length
    modifies r
    ensures end == p + |s| && r[..end] == old(r[..p]) + s
  {
    forall i | 0 <= i < |s| {
      r[p + i] := s[i];
    }
    end := p + |s|;
  }

  /** encode: the fields are written one after the other. */
  method Encode(data: RowData) returns (r: array<Byte>)
    ensures fresh(r) && r[..] == Encoded(data)
  {
    var nameLen, numLen, emailLen := U16(|data.name|), U16(|data.number|), U16(|data.email|);
    r := new Byte[16 + nameLen + emailLen + numLen];
    var p := EncodeHead(data, r);
    p := Copy(r, p, data.name[..nameLen]);
    p := Copy(r, p, [0]);
    p := Copy(r, p, data.number[..numLen]);
    p := Copy(r, p, [0]);
    p := Copy(r, p, data.email[..emailLen]);
    p := Copy(r, p, [0]);
    assert r[..] == r[..p];
  }

  method EncodeHead(data: RowData, r: array<Byte>) returns (p: nat)
    requires r.Length >= 13
    modifies r
    ensures p == 13 && r[..p] == Head(data)
  {
    var nameLen, numLen, emailLen := U16(|data.name|), U16(|data.number|), U16(|data.email|);
    p := Copy(r, 0, U16Bytes(U16(16 + nameLen + emailLen + numLen)));
    p := Copy(r, p, U16Bytes(nameLen));
    p := Copy(r, p, U16Bytes(numLen));
    p := Copy(r, p, U16Bytes(emailLen));
    p := Copy(r, p, IntBytes(data.id));
    p := Copy(r, p, [if data.sex then 1 else 0]);
  }
}
