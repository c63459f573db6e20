/**
 * UTF-8 as the string helpers use it (section 3 of RFC 3629, and the `utf8.h`
 * helpers `utf8size_lazy`, `utf8len` and `utf8codepoint`). A C string is the
 * sequence of its bytes before the NUL terminator (`CString`); its byte size
 * is the length of that sequence, its codepoints start where stepping by the
 * length each lead byte announces lands (`Starts`), and its length is the
 * number of those starts (`CodepointCount`).
 */
module Utf8 {
  import opened ColErrors

  /** The bytes of a C string: none of them is the NUL terminator. */
  predicate CString(s: seq<bv8>)
  {
    forall k :: 0 <= k < |s| ==> s[k] != 0
  }

  /** The byte a pointer q bytes into the string reads: the NUL at the end. */
  function At(s: seq<bv8>, q: nat): (b: bv8)
  {
    if q < |s| then s[q] else 0
  }

  /** The C string held in a byte buffer: the bytes before its first NUL. */
  function CStrOf(buf: seq<bv8>): (s: seq<bv8>)
    ensures CString(s) && s <= buf
    ensures |s| < |buf| ==> buf[|s|] == 0
  {
    if |buf| == 0 || buf[0] == 0 then [] else [buf[0]] + CStrOf(buf[1..])
  }

  // ----- RFC 3629 section 3: encoding and lead bytes

  /** The number of encoded bytes for a scalar value: 1 below 0x80, 2 below 0x800, 3 below 0x10000, 4 otherwise. */
  function EncodedLength(cp: bv32): nat
  {
    if cp < 0x80 then 1 else if cp < 0x800 then 2 else if cp < 0x1_0000 then 3 else 4
  }

  /**
   * The UTF-8 encoding of a scalar value (section 3 of RFC 3629): a lead byte
   * 0xxxxxxx, 110xxxxx, 1110xxxx or 11110xxx carrying the high bits, followed
   * by continuation bytes 10xxxxxx carrying six bits each.
   */
  function Utf8Encode(cp: bv32): (e: seq<bv8>)
    requires cp < 0x11_0000
    ensures |e| == EncodedLength(cp)
  {
    if cp < 0x80 then [cp as bv8]
    else if cp < 0x800 then [(0xC0 | (cp >> 6)) as bv8, (0x80 | (cp & 0x3F)) as bv8]
    else if cp < 0x1_0000 then
      [(0xE0 | (cp >> 12)) as bv8, (0x80 | ((cp >> 6) & 0x3F)) as bv8, (0x80 | (cp & 0x3F)) as bv8]
    else
      [(0xF0 | (cp >> 18)) as bv8, (0x80 | ((cp >> 12) & 0x3F)) as bv8,
       (0x80 | ((cp >> 6) & 0x3F)) as bv8, (0x80 | (cp & 0x3F)) as bv8]
  }

  /** The length a lead byte announces: 11110xxx 4, 1110xxxx 3, 110xxxxx 2, anything else 1. */
  function LeadLength(b: bv8): (n: nat)
    ensures 1 <= n <= 4
  {
    if b & 0xF8 == 0xF0 then 4 else if b & 0xF0 == 0xE0 then 3 else if b & 0xE0 == 0xC0 then 2 else 1
  }

  /** A continuation byte 10xxxxxx. */
  predicate Continuation(b: bv8)
  {
    b & 0xC0 == 0x80
  }

  /** The scalar value of the codepoint starting at p, as `utf8codepoint` assembles it from its bytes. */
  function DecodeAt(s: seq<bv8>, p: nat): bv32
    requires p < |s| && p + LeadLength(s[p]) <= |s|
  {
    match LeadLength(s[p])
    case 1 => s[p] as bv32
    case 2 => Decode2(s[p], s[p + 1])
    case 3 => Decode3(s[p], s[p + 1], s[p + 2])
    case 4 => Decode4(s[p], s[p + 1], s[p + 2], s[p + 3])
  }

  function Decode2(b0: bv8, b1: bv8): bv32
  {
    ((b0 as bv32 & 0x1F) << 6) | (b1 as bv32 & 0x3F)
  }

  function Decode3(b0: bv8, b1: bv8, b2: bv8): bv32
  {
    ((b0 as bv32 & 0x0F) << 12) | ((b1 as bv32 & 0x3F) << 6) | (b2 as bv32 & 0x3F)
  }

  function Decode4(b0: bv8, b1: bv8, b2: bv8, b3: bv8): bv32
  {
    ((b0 as bv32 & 0x07) << 18) | ((b1 as bv32 & 0x3F) << 12) | ((b2 as bv32 & 0x3F) << 6) | (b3 as bv32 & 0x3F)
  }

  /**
   * The encoding is read back as one codepoint: its lead byte announces its
   * length, the other bytes are continuation bytes, it decodes to cp, and it
   * holds no NUL unless cp is 0.
   */
  lemma EncodeDecode(cp: bv32)
    requires cp < 0x11_0000
    ensures LeadLength(Utf8Encode(cp)[0]) == |Utf8Encode(cp)|
    ensures forall k :: 1 <= k < |Utf8Encode(cp)| ==> Continuation(Utf8Encode(cp)[k])
    ensures DecodeAt(Utf8Encode(cp), 0) == cp
    ensures cp != 0 ==> CString(Utf8Encode(cp))
  {
    var e := Utf8Encode(cp);
    if cp < 0x80 {
    } else if cp < 0x800 {
      EncodeDecode2(cp);
    } else if cp < 0x1_0000 {
      EncodeDecode3(cp);
    } else {
      EncodeDecode4(cp);
    }
  }

  lemma EncodeDecode2(cp: bv32)
    requires 0x80 <= cp < 0x800
    ensures LeadLength(Utf8Encode(cp)[0]) == 2
    ensures Continuation(Utf8Encode(cp)[1])
    ensures DecodeAt(Utf8Encode(cp), 0) == cp
  {
    Bytes2(cp);
  }

  lemma Bytes2(cp: bv32)
    requires 0x80 <= cp < 0x800
    ensures LeadLength((0xC0 | (cp >> 6)) as bv8) == 2
    ensures Continuation((0x80 | (cp & 0x3F)) as bv8)
    ensures Decode2((0xC0 | (cp >> 6)) as bv8, (0x80 | (cp & 0x3F)) as bv8) == cp
  {
  }

  lemma EncodeDecode3(cp: bv32)
    requires 0x800 <= cp < 0x1_0000
    ensures LeadLength(Utf8Encode(cp)[0]) == 3
    ensures Continuation(Utf8Encode(cp)[1]) && Continuation(Utf8Encode(cp)[2])
    ensures DecodeAt(Utf8Encode(cp), 0) == cp
  {
    Bytes3(cp);
  }

  lemma Bytes3(cp: bv32)
    requires 0x800 <= cp < 0x1_0000
    ensures LeadLength((0xE0 | (cp >> 12)) as bv8) == 3
    ensures Continuation((0x80 | ((cp >> 6) & 0x3F)) as bv8) && Continuation((0x80 | (cp & 0x3F)) as bv8)
    ensures Decode3((0xE0 | (cp >> 12)) as bv8, (0x80 | ((cp >> 6) & 0x3F)) as bv8, (0x80 | (cp & 0x3F)) as bv8) == cp
  {
  }

  lemma EncodeDecode4(cp: bv32)
    requires 0x1_0000 <= cp < 0x11_0000
    ensures LeadLength(Utf8Encode(cp)[0]) == 4
    ensures Continuation(Utf8Encode(cp)[1]) && Continuation(Utf8Encode(cp)[2]) && Continuation(Utf8Encode(cp)[3])
    ensures DecodeAt(Utf8Encode(cp), 0) == cp
  {
    Bytes4(cp);
  }

  lemma Bytes4(cp: bv32)
    requires 0x1_0000 <= cp < 0x11_0000
    ensures LeadLength((0xF0 | (cp >> 18)) as bv8) == 4
    ensures Continuation((0x80 | ((cp >> 12) & 0x3F)) as bv8)
    ensures Continuation((0x80 | ((cp >> 6) & 0x3F)) as bv8) && Continuation((0x80 | (cp & 0x3F)) as bv8)
    ensures Decode4((0xF0 | (cp >> 18)) as bv8, (0x80 | ((cp >> 12) & 0x3F)) as bv8,
                    (0x80 | ((cp >> 6) & 0x3F)) as bv8, (0x80 | (cp & 0x3F)) as bv8) == cp
  {
  }

  // ----- utf8.h: walking a string codepoint by codepoint

  /**
   * `utf8codepoint`: the position of the codepoint after the one starting at
   * p, reached by skipping the number of bytes the lead byte announces; a
   * codepoint cut short by the end of the string ends there.
   */
  function Next(s: seq<bv8>, p: nat): (q: nat)
    requires p < |s|
    ensures p < q <= |s|
    ensures q == |s| || q == p + LeadLength(s[p])
  {
    if p + LeadLength(s[p]) <= |s| then p + LeadLength(s[p]) else |s|
  }

  /** The positions where the codepoints from p onwards start. */
  function StartsFrom(s: seq<bv8>, p: nat): (r: seq<nat>)
    decreases |s| - p
    ensures forall k :: 0 <= k < |r| ==> p <= r[k] < |s|
    ensures p < |s| <==> |r| > 0
    ensures |r| > 0 ==> r[0] == p
  {
    if p >= |s| then [] else [p] + StartsFrom(s, Next(s, p))
  }

  /** The positions where the codepoints of s start. */
  function Starts(s: seq<bv8>): seq<nat>
  {
    StartsFrom(s, 0)
  }

  /** `utf8len` (`str_len`): the number of codepoints, at most the number of bytes. */
  function CodepointCount(s: seq<bv8>): (n: nat)
    ensures n <= |s|
    ensures n == 0 <==> |s| == 0
  {
    StartsCount(s, 0);
    |Starts(s)|
  }

  /** There are no more codepoint starts from p on than bytes. */
  lemma {:induction false} StartsCount(s: seq<bv8>, p: nat)
    ensures |StartsFrom(s, p)| <= |s| - p || p > |s|
    decreases |s| - p
  {
    if p < |s| {
      StartsCount(s, Next(s, p));
    }
  }

  /**
   * The byte offset of the codepoint with index k, or the end of the string
   * when s has no more than k codepoints.
   */
  function BytePos(s: seq<bv8>, k: nat): (q: nat)
    ensures q <= |s|
    ensures k < CodepointCount(s) ==> q < |s|
  {
    if k < CodepointCount(s) then Starts(s)[k] else |s|
  }

  /** The codepoint starts are strictly increasing. */
  lemma {:induction false} StartsIncreasing(s: seq<bv8>, p: nat)
    ensures forall i, j :: 0 <= i < j < |StartsFrom(s, p)| ==> StartsFrom(s, p)[i] < StartsFrom(s, p)[j]
    decreases |s| - p
  {
    if p < |s| {
      StartsIncreasing(s, Next(s, p));
      var r, rest := StartsFrom(s, p), StartsFrom(s, Next(s, p));
      assert r == [p] + rest;
      forall i, j | 0 <= i < j < |r|
        ensures r[i] < r[j]
      {
        assert r[j] == rest[j - 1] && Next(s, p) <= rest[j - 1];
        if i > 0 {
          assert r[i] == rest[i - 1];
        }
      }
    }
  }

  /** Codepoint offsets grow with the codepoint index. */
  lemma BytePosMonotone(s: seq<bv8>, i: nat, j: nat)
    requires i <= j
    ensures BytePos(s, i) <= BytePos(s, j)
  {
    StartsIncreasing(s, 0);
    assert CodepointCount(s) == |Starts(s)| && Starts(s) == StartsFrom(s, 0);
  }

  /** Index 0 is the start of the string, and the count is the end of the string. */
  lemma BytePosEnds(s: seq<bv8>)
    ensures BytePos(s, 0) == 0
    ensures BytePos(s, CodepointCount(s)) == |s|
  {
  }

  /**
   * Walking from p lands exactly on the end of s: no codepoint from p on is
   * cut short.
   */
  predicate CompleteFrom(s: seq<bv8>, p: nat)
    decreases |s| - p
  {
    p == |s| || (p < |s| && p + LeadLength(s[p]) <= |s| && CompleteFrom(s, p + LeadLength(s[p])))
  }

  /** A string whose last codepoint is not cut short. */
  predicate Complete(s: seq<bv8>)
  {
    CompleteFrom(s, 0)
  }

  /** Behind a string a, the codepoints of b start at the same places, shifted by |a|. */
  lemma {:induction false} StartsShift(a: seq<bv8>, b: seq<bv8>, q: nat)
    ensures |StartsFrom(a + b, |a| + q)| == |StartsFrom(b, q)|
    decreases |b| - q
  {
    if q < |b| {
      assert (a + b)[|a| + q] == b[q];
      assert Next(a + b, |a| + q) == |a| + Next(b, q);
      StartsShift(a, b, Next(b, q));
    }
  }

  /** Codepoints of a complete prefix are walked the same way in a longer string. */
  lemma {:induction false} StartsAppend(a: seq<bv8>, b: seq<bv8>, p: nat)
    requires CompleteFrom(a, p)
    ensures |StartsFrom(a + b, p)| == |StartsFrom(a, p)| + |StartsFrom(b, 0)|
    decreases |a| - p
  {
    if p == |a| {
      StartsShift(a, b, 0);
    } else {
      assert (a + b)[p] == a[p];
      assert Next(a + b, p) == Next(a, p);
      StartsAppend(a, b, Next(a, p));
    }
  }

  /** Appending to a complete string adds the codepoints of the appended one. */
  lemma CountAppend(a: seq<bv8>, b: seq<bv8>)
    requires Complete(a)
    ensures CodepointCount(a + b) == CodepointCount(a) + CodepointCount(b)
  {
    StartsAppend(a, b, 0);
  }

  /** The encoding of a scalar value is one complete codepoint. */
  lemma EncodingIsOneCodepoint(cp: bv32)
    requires cp < 0x11_0000
    ensures Complete(Utf8Encode(cp))
    ensures Starts(Utf8Encode(cp)) == [0]
    ensures CodepointCount(Utf8Encode(cp)) == 1
  {
    var e := Utf8Encode(cp);
    EncodeDecode(cp);
    assert Next(e, 0) == |e|;
    assert CompleteFrom(e, |e|);
  }

  /**
   * Where the encoding of cp sits in s, the codepoint starting there is cp:
   * its lead byte announces the encoding's length, and those bytes decode to cp.
   */
  lemma MatchedEncodingDecodes(s: seq<bv8>, p: nat, cp: bv32)
    requires cp < 0x11_0000
    requires p <= |s| && Utf8Encode(cp) <= s[p..]
    ensures p < |s| && p + LeadLength(s[p]) <= |s|
    ensures DecodeAt(s, p) == cp
  {
    var e := Utf8Encode(cp);
    EncodeDecode(cp);
    assert forall k :: 0 <= k < |e| ==> s[p + k] == e[k];
    assert s[p] == e[0];
    if |e| >= 2 { assert s[p + 1] == e[1]; }
    if |e| >= 3 { assert s[p + 2] == e[2]; }
    if |e| >= 4 { assert s[p + 3] == e[3]; }
  }
}
