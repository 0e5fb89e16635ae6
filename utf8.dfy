/**
 * Bytes and UTF-8 as RFC 3629 section 4 defines them: which byte strings are
 * well formed, and the Unicode scalar values they decode to. Rust's
 * `std::str::from_utf8` accepts exactly the well-formed strings, and
 * `String::len` counts the bytes of this encoding.
 */
module Utf8 {
  import opened Wrappers

  /** One byte of a file. */
  type Byte = b: int | 0 <= b < 256

  /** The line terminator `b'\n'`. */
  const NEWLINE: Byte := 0x0A

  /** UTF8-tail = %x80-BF */
  predicate IsTail(b: Byte) { 0x80 <= b <= 0xBF }

  /** s is exactly one UTF8-char of the grammar in RFC 3629 section 4. */
  predicate IsChar(s: seq<Byte>)
  {
    || (|s| == 1 && s[0] <= 0x7F)
    || (|s| == 2 && 0xC2 <= s[0] <= 0xDF && IsTail(s[1]))
    || (|s| == 3 && IsTail(s[2]) &&
        (|| (s[0] == 0xE0 && 0xA0 <= s[1] <= 0xBF)
         || (0xE1 <= s[0] <= 0xEC && IsTail(s[1]))
         || (s[0] == 0xED && 0x80 <= s[1] <= 0x9F)
         || (0xEE <= s[0] <= 0xEF && IsTail(s[1]))))
    || (|s| == 4 && IsTail(s[2]) && IsTail(s[3]) &&
        (|| (s[0] == 0xF0 && 0x90 <= s[1] <= 0xBF)
         || (0xF1 <= s[0] <= 0xF3 && IsTail(s[1]))
         || (s[0] == 0xF4 && 0x80 <= s[1] <= 0x8F)))
  }

  /** Length of the character s starts with, decided by its lead byte, or 0 when s does not start with a well-formed character. */
  function LeadWidth(s: seq<Byte>): (k: nat)
    ensures k <= 4 && k <= |s|
  {
    if |s| == 0 then 0
    else if s[0] <= 0x7F then 1
    else if 0xC2 <= s[0] <= 0xDF then
      if |s| >= 2 && IsTail(s[1]) then 2 else 0
    else if 0xE0 <= s[0] <= 0xEF then
      if |s| >= 3 && IsChar(s[..3]) then 3 else 0
    else if 0xF0 <= s[0] <= 0xF4 then
      if |s| >= 4 && IsChar(s[..4]) then 4 else 0
    else 0
  }

  /** A non-zero lead width spans exactly one well-formed character. */
  lemma LeadWidthIsChar(s: seq<Byte>)
    ensures LeadWidth(s) > 0 ==> IsChar(s[..LeadWidth(s)])
  {
  }

  /** The first byte fixes the length of a character: no character is a proper prefix of another. */
  lemma CharLengthUnique(s: seq<Byte>, j: nat)
    requires 1 <= j <= |s| && IsChar(s[..j])
    ensures LeadWidth(s) == j
  {
    assert s[..j][0] == s[0];
  }

  /** UTF8-octets = *( UTF8-char ): s is a sequence of whole characters. */
  predicate WellFormed(s: seq<Byte>)
    decreases |s|
  {
    s == [] || (LeadWidth(s) > 0 && WellFormed(s[LeadWidth(s)..]))
  }

  /** The Unicode scalar value of one encoded character. */
  function ScalarValue(s: seq<Byte>): (v: int)
    requires IsChar(s)
    ensures 0 <= v < 0xD800 || 0xE000 <= v < 0x11_0000
    ensures Width(v) == |s|
  {
    var b: seq<int> := s;
    if |b| == 1 then b[0]
    else if |b| == 2 then (b[0] - 0xC0) * 0x40 + (b[1] - 0x80)
    else if |b| == 3 then (b[0] - 0xE0) * 0x1000 + (b[1] - 0x80) * 0x40 + (b[2] - 0x80)
    else (b[0] - 0xF0) * 0x4_0000 + (b[1] - 0x80) * 0x1000 + (b[2] - 0x80) * 0x40 + (b[3] - 0x80)
  }

  /** Number of bytes the encoding of scalar value v takes. */
  function Width(v: int): nat
  {
    if v < 0x80 then 1 else if v < 0x800 then 2 else if v < 0x1_0000 then 3 else 4
  }

  /** `String::len`: the number of bytes of the UTF-8 encoding of cs. */
  function EncodedLength(cs: seq<char>): nat
  {
    if cs == [] then 0 else Width(cs[0] as int) + EncodedLength(cs[1..])
  }

  /** Decoding: the scalar values of a well-formed string, None for any other. */
  function Decode(s: seq<Byte>): (r: Option<seq<char>>)
    ensures r.Some? <==> WellFormed(s)
    decreases |s|
  {
    if s == [] then Some([])
    else
      var k := LeadWidth(s);
      if k == 0 then None
      else
        match Decode(s[k..])
        case None => None
        case Some(rest) =>
          LeadWidthIsChar(s);
          Some([ScalarValue(s[..k]) as char] + rest)
  }

  /** Re-encoding the decoded scalar values takes exactly the bytes decoded: `String::len` of a decoded line is its byte length. */
  lemma {:induction false} DecodedLength(s: seq<Byte>)
    requires WellFormed(s)
    ensures EncodedLength(Decode(s).value) == |s|
    decreases |s|
  {
    if s != [] {
      var k := LeadWidth(s);
      DecodedLength(s[k..]);
      var cs := Decode(s).value;
      assert cs[1..] == Decode(s[k..]).value;
    }
  }

  /** One step of Decode, for a string whose first character is k bytes long. */
  function DecodeStep(s: seq<Byte>, k: nat): Option<seq<char>>
    requires 0 < k <= |s| && IsChar(s[..k])
  {
    match Decode(s[k..])
    case None => None
    case Some(rest) => Some([ScalarValue(s[..k]) as char] + rest)
  }

  /** A prefix that holds the whole first character starts with the same character. */
  lemma LeadWidthOfPrefix(s: seq<Byte>, i: nat)
    requires 0 < LeadWidth(s) <= i <= |s|
    ensures LeadWidth(s[..i]) == LeadWidth(s)
  {
    var k := LeadWidth(s);
    assert s[..i][..k] == s[..k];
    CharLengthUnique(s[..i], k);
  }

  /** Decoding a concatenation whose first part is well formed decodes the parts. */
  lemma {:induction false} DecodeAppend(a: seq<Byte>, b: seq<Byte>)
    requires WellFormed(a)
    ensures Decode(a + b).Some? <==> Decode(b).Some?
    ensures Decode(a + b).Some? ==> Decode(a + b).value == Decode(a).value + Decode(b).value
    decreases |a|
  {
    if a == [] {
      assert a + b == b;
    } else {
      var k := LeadWidth(a);
      var ab := a + b;
      assert ab[..k] == a[..k];
      CharLengthUnique(ab, k);
      assert ab[k..] == a[k..] + b;
      DecodeAppend(a[k..], b);
      assert Decode(ab) == DecodeStep(ab, k);
      assert Decode(a) == DecodeStep(a, k);
    }
  }

  /** A newline byte is never part of a multi-byte character, so the bytes of a well-formed string up to a newline are well formed. */
  lemma {:induction false} PrefixThroughNewline(s: seq<Byte>, i: nat)
    requires WellFormed(s) && 0 < i <= |s| && s[i - 1] == NEWLINE
    ensures WellFormed(s[..i])
    decreases |s|
  {
    var k := LeadWidth(s);
    if i <= k {
      assert k == 1;
      assert s[..i][1..] == [];
    } else {
      var t := s[k..];
      assert t[i - k - 1] == s[i - 1];
      PrefixThroughNewline(t, i - k);
      LeadWidthOfPrefix(s, i);
      assert s[..i][k..] == t[..i - k];
    }
  }

  /** Splitting a well-formed string just after a newline gives two well-formed parts whose decodings concatenate to the whole. */
  lemma DecodeSplitAfterNewline(s: seq<Byte>, i: nat)
    requires WellFormed(s) && 0 < i <= |s| && s[i - 1] == NEWLINE
    ensures WellFormed(s[..i]) && WellFormed(s[i..])
    ensures Decode(s).value == Decode(s[..i]).value + Decode(s[i..]).value
  {
    PrefixThroughNewline(s, i);
    assert s == s[..i] + s[i..];
    DecodeAppend(s[..i], s[i..]);
  }
}
