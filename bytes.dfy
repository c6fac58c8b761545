/** Bytes as the parser generation of the server handles them, and the ASCII
    case mappings its verbs go through. Rust's `to_lowercase` and
    `to_uppercase` are Unicode-aware; this model maps only ASCII letters. */
module Bytes {

  newtype byte = x: int | 0 <= x < 256

  const SP: byte := 32
  const LF: byte := 10
  const CR: byte := 13

  /** The bytes of an ASCII string literal (one byte per character). */
  function Of(s: string): (r: seq<byte>)
    ensures |r| == |s|
    ensures forall i :: 0 <= i < |s| && (s[i] as int) < 256 ==> r[i] as int == s[i] as int
  {
    seq(|s|, i requires 0 <= i < |s| => (s[i] as int % 256) as byte)
  }

  predicate IsAsciiUpper(b: byte) { 'A' as byte <= b <= 'Z' as byte }
  predicate IsAsciiLower(b: byte) { 'a' as byte <= b <= 'z' as byte }

  function LowerByte(b: byte): (r: byte)
    ensures IsAsciiUpper(b) ==> r as int == b as int + 32
    ensures !IsAsciiUpper(b) ==> r == b
    ensures !IsAsciiUpper(r)
  {
    if IsAsciiUpper(b) then b + 32 else b
  }

  /** ASCII lower-casing of a byte string. */
  function Lower(s: seq<byte>): (r: seq<byte>)
    ensures |r| == |s|
    ensures forall i :: 0 <= i < |s| ==> r[i] == LowerByte(s[i])
  {
    seq(|s|, i requires 0 <= i < |s| => LowerByte(s[i]))
  }

  /** Lower-casing twice is lower-casing once. */
  lemma LowerIdempotent(s: seq<byte>)
    ensures Lower(Lower(s)) == Lower(s)
  {
  }
}

/** ASCII case mappings on Dafny strings (the server generation's `String`). */
module Chars {

  predicate IsUpper(c: char) { 'A' <= c <= 'Z' }
  predicate IsLower(c: char) { 'a' <= c <= 'z' }

  function UpperChar(c: char): (r: char)
    ensures IsLower(c) ==> r as int == c as int - 32
    ensures !IsLower(c) ==> r == c
    ensures !IsLower(r)
  {
    if IsLower(c) then (c as int - 32) as char else c
  }

  function LowerChar(c: char): (r: char)
    ensures IsUpper(c) ==> r as int == c as int + 32
    ensures !IsUpper(c) ==> r == c
    ensures !IsUpper(r)
  {
    if IsUpper(c) then (c as int + 32) as char else c
  }

  /** ASCII upper-casing (Rust's `to_uppercase` on ASCII text). */
  function Upper(s: string): (r: string)
    ensures |r| == |s|
    ensures forall i :: 0 <= i < |s| ==> r[i] == UpperChar(s[i])
  {
    seq(|s|, i requires 0 <= i < |s| => UpperChar(s[i]))
  }

  /** Rust's `eq_ignore_ascii_case`. */
  predicate EqIgnoreAsciiCase(a: string, b: string) {
    |a| == |b| && forall i :: 0 <= i < |a| ==> LowerChar(a[i]) == LowerChar(b[i])
  }

  /** Spellings that differ only in ASCII case upper-case to the same text. */
  lemma UpperOfEqIgnoreCase(a: string, b: string)
    requires EqIgnoreAsciiCase(a, b)
    ensures Upper(a) == Upper(b)
  {
    forall i | 0 <= i < |a| ensures UpperChar(a[i]) == UpperChar(b[i]) {
      assert LowerChar(a[i]) == LowerChar(b[i]);
    }
  }

  /** Upper-casing twice is upper-casing once. */
  lemma UpperIdempotent(s: string)
    ensures Upper(Upper(s)) == Upper(s)
  {
  }
}
