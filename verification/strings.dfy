/**
 * The string operations of string.c over C strings. A string is the sequence
 * of its bytes before the NUL terminator; a possibly NULL `char *` is an
 * `Option`, and an allocation that may fail takes its outcome as the
 * parameter `allocFails`, a failure giving NULL.
 */
module Strings {
  import opened ColErrors
  import opened Utf8

  /** The bytes of a possibly NULL string: none for NULL. */
  function BytesOf(str: Option<seq<bv8>>): seq<bv8>
  {
    if str.None? then [] else str.value
  }

  /** A possibly NULL pointer to a C string. */
  predicate IsCStr(str: Option<seq<bv8>>)
  {
    str.Some? ==> CString(str.value)
  }

  function Min(a: nat, b: nat): nat
  {
    if a <= b then a else b
  }

  // ----- str_of_empty, str_nbof, str_of

  /** `str_of_empty()`: a fresh empty string, or NULL when the allocation fails. */
  function OfEmpty(allocFails: bool): (r: Option<seq<bv8>>)
    ensures r.Some? <==> !allocFails
    ensures r.Some? ==> |r.value| == 0
  {
    if allocFails then None else Some([])
  }

  /**
   * `str_nbof(s, nb)`: a fresh copy of the first nb bytes of s, nb clamped to
   * the size of s; the empty string for NULL or nb == 0; NULL when the
   * allocation fails.
   */
  function NbOf(s: Option<seq<bv8>>, nb: nat, allocFails: bool): (r: Option<seq<bv8>>)
    requires IsCStr(s)
    ensures r.Some? <==> !allocFails
    ensures r.Some? ==> r.value <= BytesOf(s) && |r.value| == Min(nb, |BytesOf(s)|)
    ensures IsCStr(r)
  {
    if s.None? || nb == 0 then OfEmpty(allocFails)
    else
      var n := if nb > |s.value| then |s.value| else nb;
      if n == 0 then OfEmpty(allocFails)
      else if allocFails then None
      else Some(s.value[..n])
  }

  /** `str_of(s)`: a fresh clone of s, the empty string for NULL, NULL when the allocation fails. */
  function Of(s: Option<seq<bv8>>, allocFails: bool): (r: Option<seq<bv8>>)
    requires IsCStr(s)
    ensures r.Some? <==> !allocFails
    ensures !allocFails && |BytesOf(s)| <= SIZE_MAX ==> r == Some(BytesOf(s))
  {
    var r := NbOf(s, SIZE_MAX, allocFails);
    var b := BytesOf(s);
    assert !allocFails && |b| <= SIZE_MAX ==> r.value == b[..|b|] == b;
    r
  }

  // ----- str_append

  /**
   * `str_append(str, s)` as its documentation describes it: str unchanged when
   * s is NULL or empty, a clone of s when str is NULL, otherwise str followed by
   * s, or NULL when the reallocation fails.
   */
  function Append(str: Option<seq<bv8>>, s: Option<seq<bv8>>, allocFails: bool): (r: Option<seq<bv8>>)
    requires IsCStr(str) && IsCStr(s)
    ensures s.None? || |s.value| == 0 ==> r == str
    ensures IsCStr(r)
    ensures str.Some? && s.Some? && |s.value| > 0 ==> (r.Some? <==> !allocFails)
    ensures str.Some? && s.Some? && r.Some? ==> r.value == str.value + s.value
    ensures str.None? && s.Some? && |s.value| > 0 ==> (r.Some? <==> !allocFails)
    ensures str.None? && s.Some? && r.Some? && |s.value| <= SIZE_MAX ==> r.value == s.value
  {
    if s.None? || |s.value| == 0 then str
    else if str.None? then Of(s, allocFails)
    else if allocFails then None
    else Some(str.value + s.value)
  }

  /**
   * `str_append(str, s)` as written: the block of str is reallocated first and
   * its bytes are then copied from the old pointer. When the reallocation moved
   * the block (`moved`), the old block has been released and the copy reads
   * whatever it now holds (`stale`).
   */
  function AppendAsWritten(str: Option<seq<bv8>>, s: Option<seq<bv8>>, allocFails: bool,
                           moved: bool, stale: seq<bv8>): (r: Option<seq<bv8>>)
    requires IsCStr(str) && IsCStr(s)
    requires str.Some? ==> |stale| == |str.value|
    ensures str.Some? && s.Some? && |s.value| > 0 && r.Some? ==> |r.value| == |str.value| + |s.value|
    ensures str.Some? && s.Some? && |s.value| > 0 && moved && r.Some? ==> r.value == stale + s.value
  {
    if s.None? || |s.value| == 0 then str
    else if str.None? then Of(s, allocFails)
    else if allocFails then None
    else if moved then Some(stale + s.value)
    else Some(str.value + s.value)
  }

  /** When the reallocation keeps the block in place, the copy is harmless. */
  lemma AppendInPlaceAgrees(str: Option<seq<bv8>>, s: Option<seq<bv8>>, allocFails: bool, stale: seq<bv8>)
    requires IsCStr(str) && IsCStr(s)
    requires str.Some? ==> |stale| == |str.value|
    ensures AppendAsWritten(str, s, allocFails, false, stale) == Append(str, s, allocFails)
  {
  }

  /**
   * Appending "b" to "a" when the reallocation moves the block reads the
   * released block: if it now holds "x", the result is "xb" instead of "ab".
   */
  lemma AppendReadsReleasedBlock()
    ensures AppendAsWritten(Some([0x61]), Some([0x62]), false, true, [0x78]) == Some([0x78, 0x62])
    ensures Append(Some([0x61]), Some([0x62]), false) == Some([0x61, 0x62])
  {
    var a, b, x: seq<bv8> := [0x61], [0x62], [0x78];
    assert CString(a) && CString(b);
    assert x + b == [0x78, 0x62] && a + b == [0x61, 0x62];
  }

  /**
   * Appending to a string whose last codepoint is complete adds the
   * codepoints of s to those of str, and the bytes of s to those of str.
   */
  lemma AppendCounts(str: seq<bv8>, s: seq<bv8>, allocFails: bool)
    requires CString(str) && CString(s) && Complete(str) && !allocFails
    ensures Append(Some(str), Some(s), allocFails).Some?
    ensures |Append(Some(str), Some(s), allocFails).value| == |str| + |s|
    ensures CodepointCount(Append(Some(str), Some(s), allocFails).value) == CodepointCount(str) + CodepointCount(s)
  {
    CountAppend(str, s);
  }

  /** Appending the encoding of a scalar value adds one codepoint. */
  lemma AppendRuneAddsOne(str: seq<bv8>, cp: bv32)
    requires CString(str) && Complete(str) && 0 < cp < 0x11_0000
    ensures CString(Utf8Encode(cp))
    ensures CodepointCount(str + Utf8Encode(cp)) == CodepointCount(str) + 1
  {
    EncodeDecode(cp);
    EncodingIsOneCodepoint(cp);
    CountAppend(str, Utf8Encode(cp));
  }

  // ----- str_index_string, str_index_rune

  /** lookup occurs in s at byte offset p. */
  predicate MatchesAt(s: seq<bv8>, lookup: seq<bv8>, p: nat)
  {
    p <= |s| && lookup <= s[p..]
  }

  /**
   * The codepoint index, counted from count at byte offset p, of the first
   * codepoint start from p on where lookup occurs; -1 when there is none.
   */
  function IndexFrom(s: seq<bv8>, lookup: seq<bv8>, p: nat, count: nat): (r: int)
    decreases |s| - p
    ensures r == -1 || r >= count
  {
    if p >= |s| then -1
    else if MatchesAt(s, lookup, p) then count
    else IndexFrom(s, lookup, Next(s, p), count + 1)
  }

  /**
   * What `str_index_string(str, lookup)` returns: -1 when either is NULL, 0
   * for an empty lookup, otherwise the index of the first codepoint at which
   * lookup occurs, or -1.
   */
  function IndexOf(str: Option<seq<bv8>>, lookup: Option<seq<bv8>>): int
  {
    if str.None? || lookup.None? then -1
    else if |lookup.value| == 0 then 0
    else IndexFrom(str.value, lookup.value, 0, 0)
  }

  /** No codepoint start among the first n of st is an occurrence of lookup. */
  predicate NoMatchBefore(s: seq<bv8>, lookup: seq<bv8>, st: seq<nat>, n: nat)
    requires n <= |st|
  {
    forall k :: 0 <= k < n ==> !MatchesAt(s, lookup, st[k])
  }

  /** The search from p finds nothing exactly when no codepoint start from p on is an occurrence. */
  lemma {:induction false} IndexFromNone(s: seq<bv8>, lookup: seq<bv8>, p: nat, count: nat)
    ensures IndexFrom(s, lookup, p, count) == -1 <==>
      NoMatchBefore(s, lookup, StartsFrom(s, p), |StartsFrom(s, p)|)
    decreases |s| - p
  {
    var st := StartsFrom(s, p);
    if p < |s| {
      var rest := StartsFrom(s, Next(s, p));
      assert st == [p] + rest;
      IndexFromNone(s, lookup, Next(s, p), count + 1);
      if !MatchesAt(s, lookup, p) && NoMatchBefore(s, lookup, rest, |rest|) {
        forall k | 0 <= k < |st|
          ensures !MatchesAt(s, lookup, st[k])
        {
          if k > 0 {
            assert st[k] == rest[k - 1];
          }
        }
      }
      if NoMatchBefore(s, lookup, st, |st|) {
        assert !MatchesAt(s, lookup, st[0]);
        forall k | 0 <= k < |rest|
          ensures !MatchesAt(s, lookup, rest[k])
        {
          assert rest[k] == st[k + 1];
        }
      }
    }
  }

  /**
   * A search from p that finds something answers the codepoint index, counted
   * from count, of an occurrence with none before it.
   */
  lemma {:induction false} IndexFromFound(s: seq<bv8>, lookup: seq<bv8>, p: nat, count: nat)
    requires IndexFrom(s, lookup, p, count) >= 0
    ensures IndexFrom(s, lookup, p, count) - count < |StartsFrom(s, p)|
    ensures MatchesAt(s, lookup, StartsFrom(s, p)[IndexFrom(s, lookup, p, count) - count])
    ensures NoMatchBefore(s, lookup, StartsFrom(s, p), IndexFrom(s, lookup, p, count) - count)
    decreases |s| - p
  {
    var st := StartsFrom(s, p);
    if !MatchesAt(s, lookup, p) {
      var rest := StartsFrom(s, Next(s, p));
      assert st == [p] + rest;
      IndexFromFound(s, lookup, Next(s, p), count + 1);
      var r := IndexFrom(s, lookup, p, count);
      assert st[r - count] == rest[r - count - 1];
      forall k | 0 <= k < r - count
        ensures !MatchesAt(s, lookup, st[k])
      {
        if k > 0 {
          assert st[k] == rest[k - 1];
        }
      }
    }
  }

  /**
   * `str_index_string` finds the first occurrence at a codepoint start: a
   * result of -1 means lookup occurs at no codepoint start, any other result k
   * is a codepoint index where lookup occurs and it occurs at none before.
   */
  lemma IndexOfIsFirstMatch(s: seq<bv8>, lookup: seq<bv8>)
    requires |lookup| > 0
    ensures IndexOf(Some(s), Some(lookup)) == -1 <==>
      forall k :: 0 <= k < CodepointCount(s) ==> !MatchesAt(s, lookup, Starts(s)[k])
    ensures var r := IndexOf(Some(s), Some(lookup));
      r >= 0 ==> r < CodepointCount(s) && MatchesAt(s, lookup, Starts(s)[r])
    ensures var r := IndexOf(Some(s), Some(lookup));
      r >= 0 ==> forall k :: 0 <= k < r ==> !MatchesAt(s, lookup, Starts(s)[k])
  {
    assert CodepointCount(s) == |Starts(s)| && Starts(s) == StartsFrom(s, 0);
    IndexFromNone(s, lookup, 0, 0);
    if IndexOf(Some(s), Some(lookup)) >= 0 {
      IndexFromFound(s, lookup, 0, 0);
    }
  }

  /**
   * `str_index_string(str, lookup)`: walks str codepoint by codepoint and, at
   * each start, compares the bytes of str with those of lookup until they
   * differ or either ends.
   */
  method IndexString(str: Option<seq<bv8>>, lookup: Option<seq<bv8>>) returns (r: int)
    requires IsCStr(str) && IsCStr(lookup)
    ensures r == IndexOf(str, lookup)
  {
    if str.None? || lookup.None? {
      return -1;
    }
    var s, l := str.value, lookup.value;
    if At(l, 0) == 0 {
      return 0;
    }
    var count := 0;
    var p := 0;
    while At(s, p) != 0
      invariant p <= |s|
      invariant IndexOf(str, lookup) == IndexFrom(s, l, p, count)
      decreases |s| - p
    {
      var maybeMatch := p;
      var n := 0;
      while At(s, p) == At(l, n) && At(s, p) != 0 && At(l, n) != 0
        invariant maybeMatch <= p <= |s| && n <= |l| && p == maybeMatch + n
        invariant s[maybeMatch..p] == l[..n]
        decreases |s| - p
      {
        assert s[p] == l[n];
        assert s[maybeMatch..p + 1] == s[maybeMatch..p] + [s[p]] && l[..n + 1] == l[..n] + [l[n]];
        n := n + 1;
        p := p + 1;
      }
      if At(l, n) == 0 {
        assert l == s[maybeMatch..p];
        return count;
      }
      assert !MatchesAt(s, l, maybeMatch);
      p := Next(s, maybeMatch);
      count := count + 1;
    }
    return -1;
  }

  /**
   * `str_index_rune(str, chr)`: 0 for the NUL rune, otherwise the index of the
   * first codepoint at which the encoding of chr occurs.
   */
  method IndexRune(str: Option<seq<bv8>>, chr: bv32) returns (r: int)
    requires IsCStr(str)
    ensures chr == 0 ==> r == 0
    ensures 0 < chr < 0x11_0000 ==> r == IndexOf(str, Some(Utf8Encode(chr)))
  {
    if chr == 0 {
      return 0;
    }
    var c := new bv8[5];
    RuneToChars(chr, c);
    if chr < 0x11_0000 {
      EncodeDecode(chr);
      CStrOfPadded(Utf8Encode(chr), c[|Utf8Encode(chr)|..]);
      assert c[..] == Utf8Encode(chr) + c[|Utf8Encode(chr)|..];
    }
    r := IndexString(str, Some(CStrOf(c[..])));
  }

  /** A C string followed by its NUL terminator is read back as itself. */
  lemma {:induction false} CStrOfPadded(e: seq<bv8>, z: seq<bv8>)
    requires CString(e) && |z| > 0 && z[0] == 0
    ensures CStrOf(e + z) == e
  {
    if |e| > 0 {
      assert (e + z)[1..] == e[1..] + z;
      CStrOfPadded(e[1..], z);
    }
  }

  /**
   * The rune `str_index_rune` finds is a codepoint equal to it: at the
   * codepoint index it returns, the string holds a codepoint that decodes to chr.
   */
  lemma IndexRuneFindsCodepoint(s: seq<bv8>, chr: bv32)
    requires 0 < chr < 0x11_0000
    requires IndexOf(Some(s), Some(Utf8Encode(chr))) >= 0
    ensures var k := IndexOf(Some(s), Some(Utf8Encode(chr)));
      k < CodepointCount(s) && MatchesAt(s, Utf8Encode(chr), Starts(s)[k])
    ensures var k := IndexOf(Some(s), Some(Utf8Encode(chr)));
      k < CodepointCount(s) && Starts(s)[k] + LeadLength(s[Starts(s)[k]]) <= |s| &&
      DecodeAt(s, Starts(s)[k]) == chr
  {
    EncodeDecode(chr);
    IndexOfIsFirstMatch(s, Utf8Encode(chr));
    var k := IndexOf(Some(s), Some(Utf8Encode(chr)));
    MatchedEncodingDecodes(s, Starts(s)[k], chr);
  }

  /**
   * `str_rune_to_chars(rune, chars)`: all five bytes cleared, then for a
   * nonzero rune the 1-, 2-, 3- or 4-byte pattern chosen by the masks
   * 0xffffff80, 0xfffff800 and 0xffff0000. A rune above the Unicode range
   * (negative ones included) takes the 4-byte pattern with its high bits
   * spilling into the lead byte.
   */
  method RuneToChars(rune: bv32, chars: array<bv8>)
    requires chars.Length == 5
    modifies chars
    ensures rune == 0 ==> chars[..] == [0, 0, 0, 0, 0]
    ensures 0 < rune < 0x11_0000 ==> chars[..] == Utf8Encode(rune) + seq(5 - |Utf8Encode(rune)|, _ => 0)
    ensures rune >= 0x11_0000 ==> chars[4] == 0 && chars[0] & 0xF0 == 0xF0
    ensures rune >= 0x11_0000 ==> Continuation(chars[1]) && Continuation(chars[2]) && Continuation(chars[3])
  {
    MaskRanges(rune);
    chars[0], chars[1], chars[2], chars[3], chars[4] := 0, 0, 0, 0, 0;
    if rune == 0 {
      return;
    } else if rune & 0xFFFF_FF80 == 0 {
      chars[0] := rune as bv8;
    } else if rune & 0xFFFF_F800 == 0 {
      chars[0] := (0xC0 | ((rune >> 6) & 0xFF)) as bv8;
      chars[1] := (0x80 | (rune & 0x3F)) as bv8;
    } else if rune & 0xFFFF_0000 == 0 {
      chars[0] := (0xE0 | ((rune >> 12) & 0xFF)) as bv8;
      chars[1] := (0x80 | ((rune >> 6) & 0x3F)) as bv8;
      chars[2] := (0x80 | (rune & 0x3F)) as bv8;
    } else {
      chars[0] := ((0xF0 | (rune >> 18)) & 0xFF) as bv8;
      chars[1] := (0x80 | ((rune >> 12) & 0x3F)) as bv8;
      chars[2] := (0x80 | ((rune >> 6) & 0x3F)) as bv8;
      chars[3] := (0x80 | (rune & 0x3F)) as bv8;
      FourByteLead(rune);
    }
  }

  /** The masks of `str_rune_to_chars` test the ranges of section 3 of RFC 3629. */
  lemma MaskRanges(rune: bv32)
    ensures rune & 0xFFFF_FF80 == 0 <==> rune < 0x80
    ensures rune & 0xFFFF_F800 == 0 <==> rune < 0x800
    ensures rune & 0xFFFF_0000 == 0 <==> rune < 0x1_0000
    ensures rune < 0x800 ==> (0xC0 | ((rune >> 6) & 0xFF)) == 0xC0 | (rune >> 6)
    ensures rune < 0x1_0000 ==> (0xE0 | ((rune >> 12) & 0xFF)) == 0xE0 | (rune >> 12)
    ensures rune < 0x11_0000 ==> (0xF0 | (rune >> 18)) & 0xFF == 0xF0 | (rune >> 18)
  {
  }

  /** However large the rune, the 4-byte branch writes a lead byte 1111xxxx. */
  lemma FourByteLead(rune: bv32)
    ensures (((0xF0 | (rune >> 18)) & 0xFF) as bv8) & 0xF0 == 0xF0
  {
  }

  // ----- str_codepoint_byte_pos, str_substring

  /**
   * `str_scan_token`: the codepoint index asked for, the position found for it
   * (a byte offset into the string, None for NULL) and the codepoint index
   * the position belongs to.
   */
  datatype Token = Token(scanIndex: nat, mem: Option<nat>, codepointIndex: nat)

  /**
   * `str_codepoint_byte_pos(str, tok_start, tok_end)`: one walk over str
   * resolves both tokens to the byte offset of the codepoint they ask for, or
   * to the end of the string when it has fewer codepoints. A NULL string
   * leaves both tokens unchanged.
   */
  method CodepointBytePos(str: Option<seq<bv8>>, tokStart: Token, tokEnd: Token)
    returns (start: Token, end: Token)
    requires IsCStr(str)
    ensures str.None? ==> start == tokStart && end == tokEnd
    ensures str.Some? ==> start == Resolved(str.value, tokStart.scanIndex)
    ensures str.Some? ==> end == Resolved(str.value, tokEnd.scanIndex)
  {
    start, end := tokStart, tokEnd;
    if str.None? {
      return;
    }
    var s := str.value;
    if start.scanIndex == 0 {
      start := start.(mem := Some(0), codepointIndex := 0);
    }
    if end.scanIndex == 0 {
      end := end.(mem := Some(0), codepointIndex := 0);
    }
    var count := 0;
    var p := 0;
    while At(s, p) != 0
      invariant p <= |s| && count <= CodepointCount(s)
      invariant StartsFrom(s, p) == Starts(s)[count..]
      invariant ScanSoFar(start, tokStart, Starts(s), count) && ScanSoFar(end, tokEnd, Starts(s), count)
      decreases |s| - p
    {
      DropOne(Starts(s), count, p, StartsFrom(s, Next(s, p)));
      var maybeMatch := p;
      ScanStep(start, tokStart, Starts(s), count);
      ScanStep(end, tokEnd, Starts(s), count);
      if count == start.scanIndex {
        start := start.(mem := Some(maybeMatch), codepointIndex := count);
      }
      if count == end.scanIndex {
        end := end.(mem := Some(maybeMatch), codepointIndex := count);
      }
      p := Next(s, maybeMatch);
      count := count + 1;
    }
    assert count == CodepointCount(s) && p == |s|;
    ScanFinish(s, start, tokStart);
    ScanFinish(s, end, tokEnd);
    if count <= start.scanIndex {
      start := start.(mem := Some(p), codepointIndex := count);
    }
    if count <= end.scanIndex {
      end := end.(mem := Some(p), codepointIndex := count);
    }
  }

  /**
   * The token a scan of s resolves for codepoint index k: the offset of that
   * codepoint and k itself, or the end of s and the codepoint count when s has
   * no more than k codepoints.
   */
  function Resolved(s: seq<bv8>, k: nat): (t: Token)
    ensures t.scanIndex == k && t.mem.Some? && t.mem.value <= |s|
    ensures t.codepointIndex <= k && t.codepointIndex <= CodepointCount(s)
    ensures t.mem.value == BytePos(s, t.codepointIndex)
  {
    Token(k, Some(BytePos(s, k)), Min(k, CodepointCount(s)))
  }

  /**
   * A token while the scan has visited the first count codepoint starts st:
   * resolved once its index has been visited, still as given otherwise (an
   * index of 0 is resolved before the walk begins).
   */
  ghost predicate ScanSoFar(tok: Token, given: Token, st: seq<nat>, count: nat)
    requires count <= |st|
  {
    tok.scanIndex == given.scanIndex &&
    (if tok.scanIndex < count then tok == Token(tok.scanIndex, Some(st[tok.scanIndex]), tok.scanIndex)
     else if tok.scanIndex == 0 then tok == Token(0, Some(0), 0)
     else tok == given)
  }

  /** The walk moves past the front of the codepoint starts still ahead. */
  lemma DropOne(st: seq<nat>, count: nat, p: nat, rest: seq<nat>)
    requires count <= |st| && st[count..] == [p] + rest
    ensures count < |st| && st[count] == p && st[count + 1..] == rest
  {
    assert st[count..][0] == st[count];
    assert st[count + 1..] == st[count..][1..];
  }

  /** Visiting the codepoint start st[count] resolves the token whose index it is. */
  lemma ScanStep(tok: Token, given: Token, st: seq<nat>, count: nat)
    requires count < |st| && ScanSoFar(tok, given, st, count)
    requires tok.scanIndex == 0 ==> count > 0 || st[0] == 0
    ensures ScanSoFar(if count == tok.scanIndex then tok.(mem := Some(st[count]), codepointIndex := count) else tok,
                      given, st, count + 1)
  {
  }

  /** After the walk, a token not yet resolved is resolved to the end of the string. */
  lemma ScanFinish(s: seq<bv8>, tok: Token, given: Token)
    requires ScanSoFar(tok, given, Starts(s), CodepointCount(s))
    ensures (if CodepointCount(s) <= tok.scanIndex then tok.(mem := Some(|s|), codepointIndex := CodepointCount(s)) else tok)
      == Resolved(s, given.scanIndex)
  {
  }

  /**
   * The bytes of the codepoints with indices from min(i, j) up to max(i, j),
   * indices past the end standing for the end.
   */
  function Slice(s: seq<bv8>, i: nat, j: nat): (r: seq<bv8>)
    ensures CString(s) ==> CString(r)
  {
    var lo, hi := Min(i, j), if i <= j then j else i;
    BytePosMonotone(s, lo, hi);
    s[BytePos(s, lo)..BytePos(s, hi)]
  }

  /** The slice of all codepoints is the whole string. */
  lemma SliceWhole(s: seq<bv8>)
    ensures Slice(s, 0, CodepointCount(s)) == s
  {
    BytePosEnds(s);
  }

  /** Adjacent slices join into one. */
  lemma SliceJoin(s: seq<bv8>, i: nat, j: nat, k: nat)
    requires i <= j <= k
    ensures Slice(s, i, j) + Slice(s, j, k) == Slice(s, i, k)
  {
    BytePosMonotone(s, i, j);
    BytePosMonotone(s, j, k);
  }

  /**
   * `str_substring(str, start, end)`: the codepoints from the smaller index
   * up to the larger one, as a fresh string; the empty string for equal
   * indices or a NULL str; NULL when the allocation fails.
   */
  method Substring(str: Option<seq<bv8>>, start: nat, end: nat, allocFails: bool) returns (r: Option<seq<bv8>>)
    requires IsCStr(str)
    ensures r.Some? <==> !allocFails
    ensures r.Some? ==> r.value == if str.None? then [] else Slice(str.value, start, end)
  {
    if start == end {
      return OfEmpty(allocFails);
    }
    var a, b := start, end;
    if a > b {
      a, b := b, a;
    }
    var tokStart := Token(a, None, 0);
    var tokEnd := Token(b, None, 0);
    tokStart, tokEnd := CodepointBytePos(str, tokStart, tokEnd);
    if str.None? {
      return NbOf(None, 0, allocFails);
    }
    var s := str.value;
    var from, to := tokStart.mem.value, tokEnd.mem.value;
    BytePosMonotone(s, a, b);
    r := NbOf(Some(s[from..]), to - from, allocFails);
  }

  // ----- the strings of the string tests

  /** "a", U+732B, U+1F34C, "c": 1 + 3 + 4 + 1 bytes. */
  const Sample: seq<bv8> := [0x61, 0xE7, 0x8C, 0xAB, 0xF0, 0x9F, 0x8D, 0x8C, 0x63]

  /** The encodings of U+732B and U+1F34C, and where the four codepoints of Sample start. */
  lemma SampleCodepoints()
    ensures Utf8Encode(0x732B) == Sample[1..4]
    ensures Utf8Encode(0x1F34C) == Sample[4..8]
    ensures Starts(Sample) == [0, 1, 4, 8]
    ensures CodepointCount(Sample) == 4 && CodepointCount(Sample[..8]) == 3 && |Sample[..8]| == 8
  {
    assert Next(Sample, 0) == 1 && Next(Sample, 1) == 4 && Next(Sample, 4) == 8 && Next(Sample, 8) == 9;
    assert StartsFrom(Sample, 8) == [8];
    assert StartsFrom(Sample, 4) == [4, 8];
    assert StartsFrom(Sample, 1) == [1, 4, 8];
    var t := Sample[..8];
    assert Next(t, 0) == 1 && Next(t, 1) == 4 && Next(t, 4) == 8;
    assert StartsFrom(t, 4) == [4];
    assert StartsFrom(t, 1) == [1, 4];
  }

  /** Substrings of Sample by codepoint index, the larger index past the end standing for the end. */
  lemma SampleSubstrings()
    ensures Slice(Sample, 1, 2) == Sample[1..4]
    ensures Slice(Sample, 0, 4) == Sample
    ensures Slice(Sample, 1, 10) == Sample[1..]
    ensures Slice(Sample, 2, 1) == Sample[1..4]
  {
    SampleCodepoints();
  }

  /** The codepoint indices `str_index_rune` finds in Sample: 0, 1, 2, 3 for its codepoints, -1 for "b". */
  lemma SampleIndices()
    ensures IndexOf(Some(Sample), Some(Utf8Encode(0x61))) == 0
    ensures IndexOf(Some(Sample), Some(Utf8Encode(0x732B))) == 1
    ensures IndexOf(Some(Sample), Some(Utf8Encode(0x1F34C))) == 2
    ensures IndexOf(Some(Sample), Some(Utf8Encode(0x63))) == 3
    ensures IndexOf(Some(Sample), Some(Utf8Encode(0x62))) == -1
  {
    SampleCodepoints();
    assert Utf8Encode(0x61) == Sample[0..1];
    assert Utf8Encode(0x63) == Sample[8..9];
    assert Utf8Encode(0x62) == [0x62];
    assert MatchesAt(Sample, Sample[1..4], 1) && MatchesAt(Sample, Sample[4..8], 4) && MatchesAt(Sample, Sample[8..9], 8);
    assert !MatchesAt(Sample, Sample[1..4], 0);
    assert !MatchesAt(Sample, Sample[4..8], 0) && !MatchesAt(Sample, Sample[4..8], 1);
    assert !MatchesAt(Sample, Sample[8..9], 0) && !MatchesAt(Sample, Sample[8..9], 1) && !MatchesAt(Sample, Sample[8..9], 4);
    assert !MatchesAt(Sample, [0x62], 0) && !MatchesAt(Sample, [0x62], 1) && !MatchesAt(Sample, [0x62], 4) && !MatchesAt(Sample, [0x62], 8);
  }
}
