/** UTF-8 well-formedness as defined by the syntax in section 4 of RFC 3629
    (the rule `std::str::from_utf8` applies), and the removal of NUL
    characters performed by `str::replace('\0', "")`. */
module Utf8 {
  import opened Bytes

  /** UTF8-tail = %x80-BF */
  predicate IsTail(b: uint8) {
    0x80 <= b <= 0xBF
  }

  /** The byte after the lead byte of a three-byte sequence: restricted after
      E0 (no overlong forms) and ED (no surrogates). */
  predicate SecondOfThree(lead: uint8, b: uint8) {
    if lead == 0xE0 then 0xA0 <= b <= 0xBF
    else if lead == 0xED then 0x80 <= b <= 0x9F
    else IsTail(b)
  }

  /** The byte after the lead byte of a four-byte sequence: restricted after
      F0 (no overlong forms) and F4 (nothing above U+10FFFF). */
  predicate SecondOfFour(lead: uint8, b: uint8) {
    if lead == 0xF0 then 0x90 <= b <= 0xBF
    else if lead == 0xF4 then 0x80 <= b <= 0x8F
    else IsTail(b)
  }

  /** The length of the well-formed character that starts `s`, or 0 when `s`
      does not start with one. */
  function LeadWidth(s: seq<uint8>): (w: nat)
    ensures w <= 4 && w <= |s|
  {
    if |s| == 0 then 0
    else if s[0] <= 0x7F then 1
    else if 0xC2 <= s[0] <= 0xDF then
      if 2 <= |s| && IsTail(s[1]) then 2 else 0
    else if 0xE0 <= s[0] <= 0xEF then
      if 3 <= |s| && SecondOfThree(s[0], s[1]) && IsTail(s[2]) then 3 else 0
    else if 0xF0 <= s[0] <= 0xF4 then
      if 4 <= |s| && SecondOfFour(s[0], s[1]) && IsTail(s[2]) && IsTail(s[3]) then 4 else 0
    else 0
  }

  /** `s` is a sequence of well-formed UTF-8 characters. */
  predicate IsValid(s: seq<uint8>)
    decreases |s|
  {
    |s| == 0 || (LeadWidth(s) > 0 && IsValid(s[LeadWidth(s)..]))
  }

  /** `s` with every zero byte dropped, the rest in order. In UTF-8 the zero
      byte occurs only as the character U+0000. */
  function RemoveNul(s: seq<uint8>): (r: seq<uint8>)
    ensures 0 !in r
    ensures |r| <= |s|
    ensures 0 !in s ==> r == s
  {
    if |s| == 0 then []
    else (if s[0] == 0 then [] else [s[0]]) + RemoveNul(s[1..])
  }

  /** A character's width is decided by its own bytes: what follows does not matter. */
  lemma LeadWidthOfPrefix(a: seq<uint8>, b: seq<uint8>)
    requires LeadWidth(a) > 0
    ensures LeadWidth(a + b) == LeadWidth(a)
  {
    var w := LeadWidth(a);
    assert forall i :: 0 <= i < w ==> (a + b)[i] == a[i];
  }

  /** Concatenating two valid texts gives a valid text. */
  lemma {:induction false} ConcatValid(a: seq<uint8>, b: seq<uint8>)
    requires IsValid(a) && IsValid(b)
    ensures IsValid(a + b)
    decreases |a|
  {
    if |a| == 0 {
      assert a + b == b;
    } else {
      var w := LeadWidth(a);
      LeadWidthOfPrefix(a, b);
      assert (a + b)[w..] == a[w..] + b;
      ConcatValid(a[w..], b);
    }
  }

  /** A run of zero bytes is valid text (each byte is U+0000). */
  lemma {:induction false} ZerosValid(n: nat)
    ensures IsValid(Zeros(n))
  {
    if n > 0 {
      assert Zeros(n)[1..] == Zeros(n - 1);
      ZerosValid(n - 1);
    }
  }

  /** Zero-padding valid text keeps it valid. */
  lemma PaddedValid(s: seq<uint8>, n: nat)
    requires IsValid(s)
    ensures IsValid(s + Zeros(n))
  {
    ZerosValid(n);
    ConcatValid(s, Zeros(n));
  }

  lemma {:induction false} RemoveNulConcat(a: seq<uint8>, b: seq<uint8>)
    ensures RemoveNul(a + b) == RemoveNul(a) + RemoveNul(b)
    decreases |a|
  {
    if |a| == 0 {
      assert a + b == b;
    } else {
      assert (a + b)[1..] == a[1..] + b;
      RemoveNulConcat(a[1..], b);
    }
  }

  /** Dropping the NULs of zero-padded text that holds no NUL of its own
      gives back the text. */
  lemma RemoveNulPadding(s: seq<uint8>, n: nat)
    requires 0 !in s
    ensures RemoveNul(s + Zeros(n)) == s
  {
    RemoveNulConcat(s, Zeros(n));
    assert 0 !in s;
    RemoveNulZeros(n);
  }

  lemma {:induction false} RemoveNulZeros(n: nat)
    ensures RemoveNul(Zeros(n)) == []
  {
    if n > 0 {
      assert Zeros(n)[1..] == Zeros(n - 1);
      RemoveNulZeros(n - 1);
    }
  }

  /** The bytes of any character other than U+0000 are all non-zero. */
  lemma CharHasNoNul(s: seq<uint8>)
    requires LeadWidth(s) > 0
    requires s[0] != 0
    ensures 0 !in s[..LeadWidth(s)]
  {
    var w := LeadWidth(s);
    forall i | 0 <= i < w
      ensures s[..w][i] != 0
    {
      assert s[..w][i] == s[i];
    }
  }

  /** One character on its own is valid text. */
  lemma CharValid(s: seq<uint8>)
    requires LeadWidth(s) > 0
    ensures IsValid(s[..LeadWidth(s)])
  {
    var w := LeadWidth(s);
    assert s[..w] + s[w..] == s;
    LeadWidthOfPrefix(s[..w], s[w..]);
    assert s[..w][w..] == [];
  }

  /** Dropping the NULs of valid text leaves valid text. */
  lemma {:induction false} RemoveNulValid(s: seq<uint8>)
    requires IsValid(s)
    ensures IsValid(RemoveNul(s))
    decreases |s|
  {
    if |s| > 0 {
      var w := LeadWidth(s);
      var head, tail := s[..w], s[w..];
      assert s == head + tail;
      RemoveNulConcat(head, tail);
      RemoveNulValid(tail);
      if s[0] == 0 {
        assert w == 1 && head == [0];
        assert RemoveNul(s) == RemoveNul(tail);
      } else {
        CharHasNoNul(s);
        CharValid(s);
        ConcatValid(head, RemoveNul(tail));
        assert RemoveNul(s) == head + RemoveNul(tail);
      }
    }
  }
}
