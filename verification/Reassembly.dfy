/** What it means that bytes read so far are held for a socket, and how a packet is put together from them. */
module Reassembly {
  import opened Messages
  import opened Codec

  /** The packets of what was received have been handed on, and what is left of it is held. */
  ghost predicate Holding(received: Bytes, taken: seq<Frame>, header: Bytes, data: Bytes) {
    Frames(received) == taken && Rest(received) == header + data
  }

  /** Data follows a complete header, and there is not all of it yet. */
  ghost predicate IsPart(header: Bytes, data: Bytes) {
    match ReadStart(header)
    case Start(begin, remaining) => begin == |header| && |data| < remaining
    case Short => data == []
    case Bad => false
  }

  lemma PartIsNoFrame(header: Bytes, data: Bytes)
    requires IsPart(header, data)
    ensures FrameLength(header + data) == 0
  {
    if ReadStart(header).Start? {
      StartIsStable(header, data);
    } else {
      assert header + data == header;
    }
  }

  lemma HoldMore(received: Bytes, taken: seq<Frame>, header: Bytes, data: Bytes, more: Bytes, header': Bytes,
                 data': Bytes)
    requires Holding(received, taken, header, data) && IsPart(header', data')
    requires header' + data' == header + data + more
    ensures Holding(received + more, taken, header', data')
  {
    ParseGoesOn(received, more);
    PartIsNoFrame(header', data');
  }

  lemma HoldAll(received: Bytes, taken: seq<Frame>, header: Bytes, data: Bytes, more: Bytes, header': Bytes,
                data': Bytes)
    requires Holding(received, taken, header, data)
    requires header' + data' == header + data + more
    requires ReadStart(header') == Start(|header'|, |data'|)
    ensures header' != []
    ensures Holding(received + more, taken + [Frame(header'[0], data')], [], [])
  {
    ParseGoesOn(received, more);
    StartIsStable(header', data');
    var s := header' + data';
    assert s[|header'|..] == data';
    assert FrameLength(s) == |s| && s[|s|..] == [];
    assert FirstFrame(s) == Frame(header'[0], data');
  }

  lemma HoldBad(received: Bytes, taken: seq<Frame>, header: Bytes, data: Bytes, more: Bytes)
    requires Holding(received, taken, header, data)
    ensures ReadStart(header + data + more) == Bad ==> ReadStart(Rest(received + more)) == Bad
  {
    ParseGoesOn(received, more);
  }

  lemma {:induction false} LengthIsShort(s: Bytes, k: nat)
    requires DecodeLength(s, k) == Short
    ensures |s| < k
  {
    if s != [] {
      LengthIsShort(s[1..], k - 1);
    }
  }

  /** A header that is good so far has at most five bytes. */
  lemma HeaderIsShort(header: Bytes)
    requires match ReadStart(header) case Start(begin, _) => begin == |header| case Short => true case Bad => false
    ensures |header| <= 5
  {
    if header != [] {
      if ReadStart(header) == Short {
        LengthIsShort(header[1..], MAX_REMAINING_LENGTH_BYTES);
      } else {
        BeginIsPositive(header[1..], MAX_REMAINING_LENGTH_BYTES);
      }
    }
  }

  // ---------- the length, byte by byte ----------

  /** The sum of the digits of bytes with the top bit set. */
  function Digits(s: Bytes): nat {
    if s == [] then 0 else s[0] % 128 + 128 * Digits(s[1..])
  }

  lemma {:induction false} DigitsAppend(s: Bytes, c: Byte)
    ensures Digits(s + [c]) == Digits(s) + c % 128 * Pow128(|s|)
  {
    if s == [] {
      assert [c][1..] == [];
    } else {
      assert (s + [c])[1..] == s[1..] + [c];
      DigitsAppend(s[1..], c);
      assert 128 * (c % 128 * Pow128(|s| - 1)) == c % 128 * (128 * Pow128(|s| - 1)) by {
        Rearrange(c % 128, Pow128(|s| - 1));
      }
    }
  }

  lemma Rearrange(a: nat, b: nat)
    ensures 128 * (a * b) == a * (128 * b)
  {
  }

  ghost predicate Continue(s: Bytes) {
    forall i :: 0 <= i < |s| ==> s[i] >= 128
  }

  /** A run of bytes with the top bit set, and then one without it: the end of the length. */
  lemma {:induction false} LengthEnds(s: Bytes, c: Byte, k: nat)
    requires Continue(s) && c < 128 && |s| < k
    ensures DecodeLength(s + [c], k) == Start(|s| + 1, Digits(s + [c]))
  {
    if s != [] {
      assert (s + [c])[1..] == s[1..] + [c];
      LengthEnds(s[1..], c, k - 1);
    } else {
      assert [c][1..] == [];
    }
  }

  lemma {:induction false} LengthGoesOn(s: Bytes, k: nat)
    requires Continue(s) && |s| <= k
    ensures DecodeLength(s, k) == if |s| < k then Short else Bad
  {
    if s != [] {
      LengthGoesOn(s[1..], k - 1);
    }
  }

  /** The header is not complete while all length bytes have the top bit set, and it is bad after four of them. */
  lemma HeaderGoesOn(header: Bytes)
    requires 1 <= |header| <= 5 && Continue(header[1..])
    ensures ReadStart(header) == if |header| < 5 then Short else Bad
  {
    LengthGoesOn(header[1..], MAX_REMAINING_LENGTH_BYTES);
  }

  lemma HeaderEnds(header: Bytes)
    requires 2 <= |header| <= 5 && Continue(header[1..|header| - 1]) && header[|header| - 1] < 128
    ensures ReadStart(header) == Start(|header|, Digits(header[1..]))
  {
    var n := |header| - 1;
    assert header[1..] == header[1..n] + [header[n]];
    LengthEnds(header[1..n], header[n], MAX_REMAINING_LENGTH_BYTES);
  }

  /** A header that is part of a longer one is not complete. */
  lemma PartOfHeader(header: Bytes, n: nat)
    requires n <= |header| && ReadStart(header[..n]).Start?
    ensures ReadStart(header) == ReadStart(header[..n])
  {
    StartIsStable(header[..n], header[n..]);
    assert header[..n] + header[n..] == header;
  }
}
