/** Validation of UTF-8 by a table of byte ranges, and what it accepts: the encodings of Unicode scalar values of
    RFC 3629, sections 3 and 4. */
module Utf8 {
  import opened Messages

  type Bytes = seq<Byte>

  // ---------- encodings ----------

  predicate IsScalar(c: nat) {
    c <= 0x10FFFF && !(0xD800 <= c <= 0xDFFF)
  }

  /** Section 3 of RFC 3629. */
  function Encode(c: nat): Bytes
    requires IsScalar(c)
  {
    if c < 0x80 then [c]
    else if c < 0x800 then [0xC0 + c / 64, 0x80 + c % 64]
    else if c < 0x10000 then [0xE0 + c / 64 / 64, 0x80 + c / 64 % 64, 0x80 + c % 64]
    else [0xF0 + c / 64 / 64 / 64, 0x80 + c / 64 / 64 % 64, 0x80 + c / 64 % 64, 0x80 + c % 64]
  }

  ghost predicate AreScalars(cs: seq<nat>) {
    forall i :: 0 <= i < |cs| ==> IsScalar(cs[i])
  }

  ghost function EncodeAll(cs: seq<nat>): Bytes
    requires AreScalars(cs)
  {
    if cs == [] then [] else Encode(cs[0]) + EncodeAll(cs[1..])
  }

  ghost predicate IsUtf8(s: Bytes) {
    exists cs: seq<nat> :: AreScalars(cs) && EncodeAll(cs) == s
  }

  // ---------- the table ----------

  datatype Range = Range(lower: Byte, upper: Byte)

  datatype Row = Row(len: nat, bytes: seq<Range>)

  const TAIL := Range(0x80, 0xBF)

  const VALID_RANGES: seq<Row> := [
    Row(1, [Range(0x00, 0x7F)]),
    Row(2, [Range(0xC2, 0xDF), TAIL]),
    Row(3, [Range(0xE0, 0xE0), Range(0xA0, 0xBF), TAIL]),
    Row(3, [Range(0xE1, 0xEC), TAIL, TAIL]),
    Row(3, [Range(0xED, 0xED), Range(0x80, 0x9F), TAIL]),
    Row(3, [Range(0xEE, 0xEF), TAIL, TAIL]),
    Row(4, [Range(0xF0, 0xF0), Range(0x90, 0xBF), TAIL, TAIL]),
    Row(4, [Range(0xF1, 0xF3), TAIL, TAIL, TAIL]),
    Row(4, [Range(0xF4, 0xF4), Range(0x80, 0x8F), TAIL, TAIL])]

  predicate InRange(b: Byte, r: Range) {
    r.lower <= b <= r.upper
  }

  predicate RowMatches(row: Row, s: Bytes) {
    |row.bytes| == row.len && |s| >= row.len && forall j :: 0 <= j < row.len ==> InRange(s[j], row.bytes[j])
  }

  ghost predicate Matches(charlen: nat, s: Bytes) {
    exists i :: 0 <= i < |VALID_RANGES| && VALID_RANGES[i].len == charlen && RowMatches(VALID_RANGES[i], s)
  }

  /** The number of bytes that the first one announces. */
  function CharLength(b: Byte): nat {
    if b < 0x80 then 1 else if b >= 0xF0 then 4 else if b >= 0xE0 then 3 else 2
  }

  // ---------- the table describes the encodings ----------

  /** The encoding is a character of the table, with no NUL in it unless it is the NUL. */
  ghost predicate IsDescribed(s: Bytes, c: nat) {
    && s != [] && |s| == CharLength(s[0]) && Matches(|s|, s)
    && (c != 0 ==> forall i :: 0 <= i < |s| ==> s[i] != 0)
  }

  lemma EncodingMatches(c: nat)
    requires IsScalar(c)
    ensures IsDescribed(Encode(c), c)
  {
    if c < 0x80 {
      assert RowMatches(VALID_RANGES[0], Encode(c));
    } else if c < 0x800 {
      assert RowMatches(VALID_RANGES[1], Encode(c));
    } else if c < 0x10000 {
      ThreeBytesMatch(c);
    } else {
      FourBytesMatch(c);
    }
  }

  lemma ThreeBytesMatch(c: nat)
    requires IsScalar(c) && 0x800 <= c < 0x10000
    ensures IsDescribed(Encode(c), c)
  {
    assert c / 64 / 64 == 0 ==> c / 64 % 64 >= 32;
    assert c / 64 / 64 == 13 ==> c / 64 % 64 < 32;
    var i := if c < 0x1000 then 2 else if c < 0xD000 then 3 else if c < 0xE000 then 4 else 5;
    assert RowMatches(VALID_RANGES[i], Encode(c));
  }

  lemma FourBytesMatch(c: nat)
    requires IsScalar(c) && 0x10000 <= c
    ensures IsDescribed(Encode(c), c)
  {
    assert c / 64 / 64 / 64 == 0 ==> c / 64 / 64 % 64 >= 16;
    assert c / 64 / 64 / 64 == 4 ==> c / 64 / 64 % 64 < 16;
    var i := if c < 0x40000 then 6 else if c < 0x100000 then 7 else 8;
    assert RowMatches(VALID_RANGES[i], Encode(c));
  }

  /** The rows of the table, written out. */
  predicate WellFormed(s: Bytes) {
    match |s|
    case 1 => s[0] < 0x80
    case 2 => 0xC2 <= s[0] <= 0xDF && InRange(s[1], TAIL)
    case 3 =>
      && 0xE0 <= s[0] <= 0xEF && InRange(s[1], TAIL) && InRange(s[2], TAIL)
      && (s[0] == 0xE0 ==> s[1] >= 0xA0) && (s[0] == 0xED ==> s[1] <= 0x9F)
    case 4 =>
      && 0xF0 <= s[0] <= 0xF4 && InRange(s[1], TAIL) && InRange(s[2], TAIL) && InRange(s[3], TAIL)
      && (s[0] == 0xF0 ==> s[1] >= 0x90) && (s[0] == 0xF4 ==> s[1] <= 0x8F)
    case _ => false
  }

  lemma MatchingIsWellFormed(s: Bytes)
    requires s != [] && Matches(|s|, s)
    ensures WellFormed(s)
  {
    var i :| 0 <= i < |VALID_RANGES| && VALID_RANGES[i].len == |s| && RowMatches(VALID_RANGES[i], s);
    var row := VALID_RANGES[i];
    assert InRange(s[0], row.bytes[0]);
    assert |s| > 1 ==> InRange(s[1], row.bytes[1]);
    assert |s| > 2 ==> InRange(s[2], row.bytes[2]);
    assert |s| > 3 ==> InRange(s[3], row.bytes[3]);
  }

  /** The scalar value that some bytes encode. */
  function Decode(s: Bytes): int {
    var b := (i: nat) => if i < |s| then s[i] as int - 0x80 else 0;
    match |s|
    case 1 => b(0) + 0x80
    case 2 => (b(0) - 0x40) * 64 + b(1)
    case 3 => ((b(0) - 0x60) * 64 + b(1)) * 64 + b(2)
    case _ => (((b(0) - 0x70) * 64 + b(1)) * 64 + b(2)) * 64 + b(3)
  }

  lemma Digits(a: nat, b: nat)
    requires b < 64
    ensures (a * 64 + b) / 64 == a && (a * 64 + b) % 64 == b
  {
  }

  lemma ThreeBytes(s: Bytes)
    requires |s| == 3 && WellFormed(s)
    ensures Decode(s) >= 0 && IsScalar(Decode(s)) && Encode(Decode(s)) == s
  {
    var high := (s[0] as int - 0xE0) * 64 + (s[1] as int - 0x80);
    Digits(s[0] as int - 0xE0, s[1] as int - 0x80);
    Digits(high, s[2] as int - 0x80);
  }

  lemma FourBytes(s: Bytes)
    requires |s| == 4 && WellFormed(s)
    ensures Decode(s) >= 0 && IsScalar(Decode(s)) && Encode(Decode(s)) == s
  {
    var high := (s[0] as int - 0xF0) * 64 + (s[1] as int - 0x80);
    var middle := high * 64 + (s[2] as int - 0x80);
    Digits(s[0] as int - 0xF0, s[1] as int - 0x80);
    Digits(high, s[2] as int - 0x80);
    Digits(middle, s[3] as int - 0x80);
  }

  lemma MatchingIsEncoding(s: Bytes)
    requires s != [] && Matches(|s|, s)
    ensures Decode(s) >= 0 && IsScalar(Decode(s)) && Encode(Decode(s)) == s
    ensures |s| <= 4 && forall i :: 1 <= i < |s| ==> s[i] >= 0x80
  {
    MatchingIsWellFormed(s);
    match |s| {
      case 1 =>
      case 2 => Digits(s[0] as int - 0xC0, s[1] as int - 0x80);
      case 3 => ThreeBytes(s);
      case 4 => FourBytes(s);
    }
  }

  // ---------- what the validator does ----------

  /** UTF8_char_validate: where the next character begins. The length is that of the whole string. */
  ghost function CharEnd(len: nat, mem: Bytes, pos: nat): Option<nat>
    requires pos < |mem|
  {
    var n := CharLength(mem[pos]);
    if n <= len && pos + n <= |mem| && Matches(n, mem[pos..pos + n]) then Some(pos + n) else None
  }

  /** The loop of UTF8_validate: where it ends. */
  ghost function Scan(len: nat, mem: Bytes, pos: nat): Option<nat>
    requires pos < len <= |mem|
    decreases len - pos
  {
    match CharEnd(len, mem, pos)
    case None => None
    case Some(p) => if p < len then Scan(len, mem, p) else Some(p)
  }

  ghost predicate Accepts(len: nat, mem: Bytes)
    requires len <= |mem|
  {
    len == 0 || Scan(len, mem, 0).Some?
  }

  lemma EncodeAllParts(cs: seq<nat>, s: Bytes)
    requires AreScalars(cs) && EncodeAll(cs) == s && s != []
    ensures cs != [] && s == Encode(cs[0]) + EncodeAll(cs[1..]) && IsUtf8(EncodeAll(cs[1..]))
  {
  }

  lemma OneMore(c: nat, rest: Bytes)
    requires IsScalar(c) && IsUtf8(rest)
    ensures IsUtf8(Encode(c) + rest)
  {
    var cs: seq<nat> :| AreScalars(cs) && EncodeAll(cs) == rest;
    var more := [c] + cs;
    assert more[1..] == cs;
    assert EncodeAll(more) == Encode(c) + rest;
  }

  /** If some bytes and what follows them are UTF-8, the validator finds the first character. */
  lemma FirstCharFound(len: nat, mem: Bytes, pos: nat, cs: seq<nat>)
    requires pos < len <= |mem| && AreScalars(cs) && EncodeAll(cs) == mem[pos..len]
    ensures CharEnd(len, mem, pos).Some? && CharEnd(len, mem, pos).value <= len
    ensures IsUtf8(mem[CharEnd(len, mem, pos).value..len])
  {
    hide IsUtf8, Matches, Encode;
    var s := mem[pos..len];
    EncodeAllParts(cs, s);
    EncodingMatches(cs[0]);
    SlicesAgree(mem, pos, len, Encode(cs[0]), EncodeAll(cs[1..]));
  }

  lemma SlicesAgree(mem: Bytes, pos: nat, len: nat, e: Bytes, rest: Bytes)
    requires pos < len <= |mem| && mem[pos..len] == e + rest && e != []
    ensures pos + |e| <= len && mem[pos] == e[0]
    ensures mem[pos..pos + |e|] == e && mem[pos + |e|..len] == rest
  {
    var s := mem[pos..len];
    assert s[0] == mem[pos];
    assert mem[pos..pos + |e|] == s[..|e|];
    assert mem[pos + |e|..len] == s[|e|..];
  }

  /** The scan ends exactly at `len` when the rest is UTF-8, and only then. */
  lemma {:induction false} ScanIsUtf8(len: nat, mem: Bytes, pos: nat)
    requires pos < len <= |mem|
    ensures IsUtf8(mem[pos..len]) <==> Scan(len, mem, pos) == Some(len)
    decreases len - pos
  {
    hide IsUtf8, Matches;
    if IsUtf8(mem[pos..len]) {
      SomeScalars(mem, pos, len);
      var p := CharEnd(len, mem, pos).value;
      if p < len {
        ScanIsUtf8(len, mem, p);
      }
    } else if Scan(len, mem, pos) == Some(len) {
      var p := CharEnd(len, mem, pos).value;
      if p < len {
        ScanIsUtf8(len, mem, p);
      } else {
        NothingIsUtf8();
      }
      CharThenRest(len, mem, pos, p);
    }
  }

  lemma SomeScalars(mem: Bytes, pos: nat, len: nat)
    requires pos < len <= |mem| && IsUtf8(mem[pos..len])
    ensures CharEnd(len, mem, pos).Some? && CharEnd(len, mem, pos).value <= len
    ensures IsUtf8(mem[CharEnd(len, mem, pos).value..len])
  {
    var cs: seq<nat> :| AreScalars(cs) && EncodeAll(cs) == mem[pos..len];
    FirstCharFound(len, mem, pos, cs);
  }

  lemma CharThenRest(len: nat, mem: Bytes, pos: nat, p: nat)
    requires pos < len <= |mem| && CharEnd(len, mem, pos) == Some(p) && p <= len && IsUtf8(mem[p..len])
    ensures IsUtf8(mem[pos..len])
  {
    var s := mem[pos..p];
    MatchingIsEncoding(s);
    assert mem[pos..len] == s + mem[p..len];
    OneMore(Decode(s), mem[p..len]);
  }

  lemma NothingIsUtf8()
    ensures IsUtf8([])
  {
    var cs: seq<nat> := [];
    assert EncodeAll(cs) == [];
  }

  /** The bytes up to where the next character begins encode a scalar value, and only the first may be below 0x80. */
  lemma EndIsEncoding(len: nat, mem: Bytes, pos: nat)
    requires pos < |mem| && CharEnd(len, mem, pos).Some?
    ensures var q := CharEnd(len, mem, pos).value;
            && pos < q <= |mem| && q - pos <= len
            && Decode(mem[pos..q]) >= 0 && IsScalar(Decode(mem[pos..q])) && Encode(Decode(mem[pos..q])) == mem[pos..q]
            && forall k :: pos < k < q ==> mem[k] >= 0x80
  {
    hide Matches, IsScalar, Encode, Decode;
    var q := CharEnd(len, mem, pos).value;
    var s := mem[pos..q];
    MatchingIsEncoding(s);
    forall k | pos < k < q
      ensures mem[k] >= 0x80
    {
      assert mem[k] == s[k - pos];
    }
  }

  /** No character goes over a terminating NUL. */
  lemma {:induction false} ScanStopsAtNul(len: nat, mem: Bytes, pos: nat)
    requires pos < len < |mem| && mem[len] == 0
    ensures Scan(len, mem, pos).Some? ==> Scan(len, mem, pos) == Some(len)
    decreases len - pos
  {
    hide Matches, Encode, Decode;
    var e := CharEnd(len, mem, pos);
    if e.Some? {
      EndIsEncoding(len, mem, pos);
      if e.value < len {
        ScanStopsAtNul(len, mem, e.value);
      }
    }
  }

  /** With a NUL after it, a string is accepted exactly when it is UTF-8. */
  lemma AcceptsUtf8(len: nat, mem: Bytes)
    requires len < |mem| && mem[len] == 0
    ensures Accepts(len, mem) <==> IsUtf8(mem[..len])
  {
    if len == 0 {
      NothingIsUtf8();
    } else {
      ScanIsUtf8(len, mem, 0);
      ScanStopsAtNul(len, mem, 0);
      assert mem[0..len] == mem[..len];
    }
  }

  // ---------- without a NUL ----------

  /** At `p` there is a character that begins before `len` and goes over it, and is not longer than `len`. */
  ghost predicate CrossesAt(len: nat, mem: Bytes, p: nat, c: nat) {
    && p < len && IsScalar(c) && |Encode(c)| <= len
    && len < p + |Encode(c)| <= |mem| && mem[p..p + |Encode(c)|] == Encode(c)
  }

  lemma CharFound(len: nat, mem: Bytes, pos: nat, c: nat)
    requires IsScalar(c) && |Encode(c)| <= len && pos + |Encode(c)| <= |mem|
    requires mem[pos..pos + |Encode(c)|] == Encode(c)
    ensures pos < |mem| && CharEnd(len, mem, pos) == Some(pos + |Encode(c)|)
  {
    EncodingMatches(c);
    assert mem[pos] == mem[pos..pos + |Encode(c)|][0];
  }

  /** A scan that ends beyond `len` has passed whole characters and then one that crosses the end. */
  lemma {:induction false} OverrunCrosses(len: nat, mem: Bytes, pos: nat) returns (p: nat, c: nat)
    requires pos < len <= |mem| && Scan(len, mem, pos).Some? && Scan(len, mem, pos) != Some(len)
    ensures pos <= p && CrossesAt(len, mem, p, c) && IsUtf8(mem[pos..p])
    decreases len - pos
  {
    hide IsUtf8, Matches, Encode;
    var q := CharEnd(len, mem, pos).value;
    EndIsEncoding(len, mem, pos);
    if q < len {
      p, c := OverrunCrosses(len, mem, q);
      OneMore(Decode(mem[pos..q]), mem[q..p]);
      assert mem[pos..p] == mem[pos..q] + mem[q..p];
    } else {
      p, c := pos, Decode(mem[pos..q]);
      NothingIsUtf8();
      assert mem[pos..p] == [];
    }
  }

  /** And where whole characters are followed by one that crosses the end, the scan accepts. */
  lemma {:induction false} CrossingIsAccepted(len: nat, mem: Bytes, pos: nat, p: nat, c: nat)
    requires pos <= p && len <= |mem| && CrossesAt(len, mem, p, c) && IsUtf8(mem[pos..p])
    ensures Scan(len, mem, pos).Some? && Scan(len, mem, pos) != Some(len)
    decreases p - pos
  {
    hide IsUtf8, Matches, Encode;
    if pos == p {
      CharFound(len, mem, p, c);
    } else {
      SomeScalars(mem, pos, p);
      EndIsEncoding(p, mem, pos);
      CrossingIsAccepted(len, mem, CharEnd(p, mem, pos).value, p, c);
    }
  }

  /** Without a NUL the answer is wrong exactly where whole characters are followed by one that begins before the end,
      goes over it into the memory behind, and is not longer than the whole string; */
  lemma AcceptsWithoutNul(len: nat, mem: Bytes)
    requires 0 < len <= |mem|
    ensures (Accepts(len, mem) <==> IsUtf8(mem[..len]))
            <==> !exists p: nat, c: nat :: CrossesAt(len, mem, p, c) && IsUtf8(mem[..p])
  {
    hide IsUtf8, Matches, Encode;
    ScanIsUtf8(len, mem, 0);
    assert mem[0..len] == mem[..len];
    if p: nat, c: nat :| CrossesAt(len, mem, p, c) && IsUtf8(mem[..p]) {
      assert mem[0..p] == mem[..p];
      CrossingIsAccepted(len, mem, 0, p, c);
    } else if Accepts(len, mem) && !IsUtf8(mem[..len]) {
      var p, c := OverrunCrosses(len, mem, 0);
    }
  }

  /** such as an A and the first byte of a two-byte character, of which the second byte follows. */
  lemma CutCharacterIsAccepted()
    ensures var mem: Bytes := [0x41, 0xC3, 0xA9];
            Accepts(2, mem) && !IsUtf8(mem[..2])
  {
    var mem: Bytes := [0x41, 0xC3, 0xA9];
    assert mem[0..1] == [0x41] && mem[1..3] == [0xC3, 0xA9];
    assert RowMatches(VALID_RANGES[0], mem[0..1]) && RowMatches(VALID_RANGES[1], mem[1..3]);
    assert CharEnd(2, mem, 0) == Some(1) && CharEnd(2, mem, 1) == Some(3);
    assert Scan(2, mem, 1) == Some(3);
    ScanIsUtf8(2, mem, 0);
    assert mem[0..2] == mem[..2];
  }

  // ---------- the loops ----------

  /** The value of a byte as a char, which may be signed. */
  function Value(b: Byte, signed: bool): int {
    if signed && b >= 0x80 then b - 0x100 else b
  }

  /** Whether chars are signed makes no difference to the comparisons with the ranges of the table. */
  lemma SignDoesNotMatter(b: Byte, r: Range, signed: bool)
    requires r.lower <= r.upper && ((r.upper < 0x80 && b < 0x80) || 0x80 <= r.lower)
    ensures Value(b, signed) < Value(r.lower, signed) || Value(b, signed) > Value(r.upper, signed) <==> !InRange(b, r)
  {
  }

  lemma RowRanges(i: nat)
    requires i < |VALID_RANGES|
    ensures var row := VALID_RANGES[i];
            && 1 <= row.len == |row.bytes| <= 4
            && (forall j :: 0 <= j < row.len ==> row.bytes[j].lower >= 0x80 || (i == 0 && row.bytes[j].upper < 0x80))
            && (forall j :: 0 <= j < row.len ==> row.bytes[j].lower <= row.bytes[j].upper)
            && (row.len == 1 <==> i == 0)
  {
  }

  /** A read from `pos` on stops at a NUL, or has four bytes. */
  ghost predicate Readable(mem: Bytes, pos: nat) {
    pos < |mem| && (pos + 4 <= |mem| || exists z :: pos <= z < |mem| && mem[z] == 0)
  }

  lemma NextIsReadable(mem: Bytes, pos: nat, i: nat, j: nat)
    requires i < |VALID_RANGES| && Readable(mem, pos) && pos + j <= |mem|
             && j < VALID_RANGES[i].len == |VALID_RANGES[i].bytes|
    requires forall k :: 0 <= k < j ==> InRange(mem[pos + k], VALID_RANGES[i].bytes[k])
    ensures pos + j < |mem|
  {
    RowRanges(i);
    if j > 0 && pos + 4 > |mem| {
      var z :| pos <= z < |mem| && mem[z] == 0;
      assert z < pos + j ==> InRange(mem[pos + (z - pos)], VALID_RANGES[i].bytes[z - pos]);
    }
  }

  /** The inner loop of UTF8_char_validate: it reads no byte after one that does not fit. */
  method RowGood(mem: array<Byte>, pos: nat, i: nat, signed: bool) returns (good: bool)
    requires i < |VALID_RANGES| && Readable(mem[..], pos) && VALID_RANGES[i].len == CharLength(mem[pos])
    ensures good <==> pos + VALID_RANGES[i].len <= mem.Length
                      && RowMatches(VALID_RANGES[i], mem[pos..pos + VALID_RANGES[i].len])
  {
    RowRanges(i);
    var row := VALID_RANGES[i];
    good := true;
    var j := 0;
    while j < row.len
      invariant 0 <= j <= row.len && pos + j <= mem.Length
      invariant forall k :: 0 <= k < j ==> InRange(mem[pos + k], row.bytes[k])
    {
      NextIsReadable(mem[..], pos, i, j);
      SignDoesNotMatter(mem[pos + j], row.bytes[j], signed);
      if Value(mem[pos + j], signed) < Value(row.bytes[j].lower, signed)
         || Value(mem[pos + j], signed) > Value(row.bytes[j].upper, signed) {
        good := false;
        assert pos + row.len <= mem.Length ==> mem[pos..pos + row.len][j] == mem[pos + j];
        return;
      }
      j := j + 1;
    }
  }

  /** UTF8_char_validate. */
  method CharValidate(len: nat, mem: array<Byte>, pos: nat, signed: bool) returns (rc: Option<nat>)
    requires Readable(mem[..], pos)
    ensures rc == CharEnd(len, mem[..], pos)
  {
    var charlen := 2;
    if mem[pos] < 0x80 {
      charlen := 1;
    } else if mem[pos] >= 0xF0 {
      charlen := 4;
    } else if mem[pos] >= 0xE0 {
      charlen := 3;
    }
    if charlen > len {
      return None;
    }
    var i := 0;
    while i < |VALID_RANGES|
      invariant 0 <= i <= |VALID_RANGES|
      invariant pos + charlen <= mem.Length ==> forall k :: 0 <= k < i && VALID_RANGES[k].len == charlen ==>
                  !RowMatches(VALID_RANGES[k], mem[pos..pos + charlen])
    {
      if VALID_RANGES[i].len == charlen {
        var good := RowGood(mem, pos, i, signed);
        if good {
          return Some(pos + charlen);
        }
      }
      i := i + 1;
    }
    rc := None;
  }

  /** UTF8_validate, for memory that has a NUL after the string, or three more bytes. */
  method Validate(len: nat, mem: array<Byte>, signed: bool) returns (ok: bool)
    requires len <= mem.Length && (len + 3 <= mem.Length || (len < mem.Length && mem[len] == 0))
    ensures ok <==> Accepts(len, mem[..])
  {
    if len == 0 {
      return true;
    }
    StaysReadable(mem[..], len, 0);
    var curdata := CharValidate(len, mem, 0, signed);
    while curdata.Some? && curdata.value < len
      invariant Accepts(len, mem[..]) <==>
                  curdata.Some? && (curdata.value >= len || Scan(len, mem[..], curdata.value).Some?)
      decreases if curdata.Some? then len + 4 - curdata.value else 0
    {
      StaysReadable(mem[..], len, curdata.value);
      curdata := CharValidate(len, mem, curdata.value, signed);
    }
    ok := curdata.Some?;
  }

  lemma StaysReadable(mem: Bytes, len: nat, pos: nat)
    requires pos < len <= |mem| && (len + 3 <= |mem| || (len < |mem| && mem[len] == 0))
    ensures Readable(mem, pos)
    ensures CharEnd(len, mem, pos).Some? ==> pos < CharEnd(len, mem, pos).value <= len + 3
  {
  }

  /** UTF8_validateString: exactly the strings that are UTF-8 are accepted, and nothing after the NUL is read. */
  method ValidateString(mem: array<Byte>, len: nat, signed: bool) returns (ok: bool)
    requires mem.Length == len + 1 && mem[len] == 0 && forall i :: 0 <= i < len ==> mem[i] != 0
    ensures ok <==> IsUtf8(mem[..len])
  {
    ok := Validate(len, mem, signed);
    AcceptsUtf8(len, mem[..]);
    assert mem[..][..len] == mem[..len];
  }
}
