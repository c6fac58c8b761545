/** Well-formed UTF-8 (Table 3-7 of the Unicode Standard, which RFC 3629
    restates). The server only ever asks whether bytes are valid UTF-8 (Rust's
    `String::from_utf8` and `str::from_utf8` succeed exactly on these); it
    never looks at the decoded scalar values, so no decoding is modelled. */
module Utf8 {
  import opened Bytes

  predicate InRange(b: byte, lo: int, hi: int) { lo <= b as int <= hi }

  /** Length of the well-formed sequence `s` starts with, or 0 if it starts
      with none. */
  function LeadLength(s: seq<byte>): (n: nat)
    requires |s| > 0
    ensures n <= 4 && n <= |s|
  {
    var b := s[0];
    if InRange(b, 0x00, 0x7F) then 1
    else if InRange(b, 0xC2, 0xDF) then
      (if |s| >= 2 && InRange(s[1], 0x80, 0xBF) then 2 else 0)
    else if InRange(b, 0xE0, 0xEF) then
      (if |s| >= 3 && InRange(s[1], if b == 0xE0 then 0xA0 else 0x80, if b == 0xED then 0x9F else 0xBF)
          && InRange(s[2], 0x80, 0xBF) then 3 else 0)
    else if InRange(b, 0xF0, 0xF4) then
      (if |s| >= 4 && InRange(s[1], if b == 0xF0 then 0x90 else 0x80, if b == 0xF4 then 0x8F else 0xBF)
          && InRange(s[2], 0x80, 0xBF) && InRange(s[3], 0x80, 0xBF) then 4 else 0)
    else 0
  }

  /** `s` is a concatenation of well-formed UTF-8 sequences. */
  predicate Valid(s: seq<byte>)
    decreases |s|
  {
    |s| == 0 || (LeadLength(s) > 0 && Valid(s[LeadLength(s)..]))
  }

  predicate Ascii(s: seq<byte>) { forall i :: 0 <= i < |s| ==> s[i] < 0x80 }

  /** ASCII text is valid UTF-8. */
  lemma {:induction false} AsciiValid(s: seq<byte>)
    requires Ascii(s)
    ensures Valid(s)
    decreases |s|
  {
    if |s| > 0 {
      assert LeadLength(s) == 1;
      AsciiValid(s[1..]);
    }
  }

  /** Valid text stays valid when more valid text follows. */
  lemma {:induction false} ValidConcat(a: seq<byte>, b: seq<byte>)
    requires Valid(a) && Valid(b)
    ensures Valid(a + b)
    decreases |a|
  {
    if |a| == 0 {
      assert a + b == b;
    } else {
      var n := LeadLength(a);
      LeadExtends(a, b);
      assert (a + b)[n..] == a[n..] + b;
      ValidConcat(a[n..], b);
    }
  }

  /** What follows a well-formed sequence does not change its length. */
  lemma LeadExtends(a: seq<byte>, b: seq<byte>)
    requires |a| > 0 && LeadLength(a) > 0
    ensures LeadLength(a + b) == LeadLength(a)
  {
    var s := a + b;
    assert s[0] == a[0];
    assert |a| > 1 ==> s[1] == a[1];
    assert |a| > 2 ==> s[2] == a[2];
    assert |a| > 3 ==> s[3] == a[3];
  }

  /** A continuation byte or an illegal lead byte cannot start valid text. */
  lemma InvalidLead(s: seq<byte>)
    requires |s| > 0 && (InRange(s[0], 0x80, 0xC1) || InRange(s[0], 0xF5, 0xFF))
    ensures !Valid(s)
  {
  }

  /** U+FFFD REPLACEMENT CHARACTER in UTF-8. */
  const Replacement: seq<byte> := [0xEF, 0xBF, 0xBD]

  /** The length of the maximal subpart of an ill-formed sequence at the
      start of `s`: the longest prefix that could still begin a well-formed
      sequence, and at least one byte. */
  function InvalidLength(s: seq<byte>): (n: nat)
    requires |s| > 0
    ensures 1 <= n <= |s| && n <= 3
  {
    var b := s[0];
    if InRange(b, 0xE0, 0xEF) then
      (if |s| >= 2 && InRange(s[1], if b == 0xE0 then 0xA0 else 0x80, if b == 0xED then 0x9F else 0xBF)
       then 2 else 1)
    else if InRange(b, 0xF0, 0xF4) then
      (if |s| >= 2 && InRange(s[1], if b == 0xF0 then 0x90 else 0x80, if b == 0xF4 then 0x8F else 0xBF)
       then (if |s| >= 3 && InRange(s[2], 0x80, 0xBF) then 3 else 2)
       else 1)
    else 1
  }

  /** `String::from_utf8_lossy`: every maximal subpart of an ill-formed
      sequence becomes one U+FFFD, well-formed sequences are kept. */
  function Lossy(s: seq<byte>): seq<byte>
    decreases |s|
  {
    if |s| == 0 then []
    else if LeadLength(s) > 0 then s[..LeadLength(s)] + Lossy(s[LeadLength(s)..])
    else Replacement + Lossy(s[InvalidLength(s)..])
  }

  /** Valid text comes back from `from_utf8_lossy` unchanged. */
  lemma {:induction false} LossyOfValid(s: seq<byte>)
    requires Valid(s)
    ensures Lossy(s) == s
    decreases |s|
  {
    if |s| > 0 {
      var n := LeadLength(s);
      LossyOfValid(s[n..]);
      assert s == s[..n] + s[n..];
    }
  }

  /** One well-formed sequence is valid text. */
  lemma LeadValid(s: seq<byte>)
    requires |s| > 0 && LeadLength(s) > 0
    ensures Valid(s[..LeadLength(s)])
  {
    var n := LeadLength(s);
    assert LeadLength(s[..n]) == n;
    assert s[..n][n..] == [];
  }

  /** `from_utf8_lossy` always yields valid text. */
  lemma {:induction false} LossyIsValid(s: seq<byte>)
    ensures Valid(Lossy(s))
    decreases |s|
  {
    if |s| > 0 {
      if LeadLength(s) > 0 {
        LeadValid(s);
        LossyIsValid(s[LeadLength(s)..]);
        ValidConcat(s[..LeadLength(s)], Lossy(s[LeadLength(s)..]));
      } else {
        assert LeadLength(Replacement) == 3;
        assert Replacement[3..] == [];
        LossyIsValid(s[InvalidLength(s)..]);
        ValidConcat(Replacement, Lossy(s[InvalidLength(s)..]));
      }
    }
  }
}
