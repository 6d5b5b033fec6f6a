/**
 The names the parser accepts are exactly the UTF-8 encodings (section 3 of RFC 3629)
 of sequences of Unicode scalar values.
 */
module Utf8 {
  import opened Wrappers
  import opened Cpio

  /** A Unicode scalar value: no surrogate, at most 0x10FFFF. */
  type scalar = x: int | 0 <= x <= 0x10FFFF && !(0xD800 <= x <= 0xDFFF)

  function Tail(x: nat): byte {
    0x80 + x % 64
  }

  function Encode(c: scalar): (s: seq<byte>)
    ensures 1 <= |s| <= 4
  {
    if c < 0x80 then [c]
    else if c < 0x800 then [0xC0 + c / 64, Tail(c)]
    else if c < 0x1_0000 then [0xE0 + c / 4096, Tail(c / 64), Tail(c)]
    else [0xF0 + c / 262144, Tail(c / 4096), Tail(c / 64), Tail(c)]
  }

  function EncodeAll(cs: seq<scalar>): seq<byte> {
    if cs == [] then [] else Encode(cs[0]) + EncodeAll(cs[1..])
  }

  /** `s` holds the encoding of `c` at position `i`. */
  predicate EncodedAt(s: seq<byte>, i: nat, c: scalar) {
    i + |Encode(c)| <= |s| && forall k :: 0 <= k < |Encode(c)| ==> s[i + k] == Encode(c)[k]
  }

  // ---- encodings are accepted ----

  lemma TwoAccepted(s: seq<byte>, i: nat, c: scalar)
    requires 0x80 <= c < 0x800 && EncodedAt(s, i, c)
    ensures SequenceLength(s, i) == 2
  {
    assert s[i] == Encode(c)[0] && s[i + 1] == Encode(c)[1];
  }

  lemma ThreeAccepted(s: seq<byte>, i: nat, c: scalar)
    requires 0x800 <= c < 0x1_0000 && EncodedAt(s, i, c)
    ensures SequenceLength(s, i) == 3
  {
    assert s[i] == Encode(c)[0] && s[i + 1] == Encode(c)[1] && s[i + 2] == Encode(c)[2];
  }

  lemma FourAccepted(s: seq<byte>, i: nat, c: scalar)
    requires 0x1_0000 <= c && EncodedAt(s, i, c)
    ensures SequenceLength(s, i) == 4
  {
    assert s[i] == Encode(c)[0] && s[i + 1] == Encode(c)[1] && s[i + 2] == Encode(c)[2] && s[i + 3] == Encode(c)[3];
  }

  lemma EncodingAccepted(s: seq<byte>, i: nat, c: scalar)
    requires EncodedAt(s, i, c)
    ensures SequenceLength(s, i) == |Encode(c)|
  {
    if c < 0x80 {
      assert s[i] == Encode(c)[0];
    } else if c < 0x800 {
      TwoAccepted(s, i, c);
    } else if c < 0x1_0000 {
      ThreeAccepted(s, i, c);
    } else {
      FourAccepted(s, i, c);
    }
  }

  // ---- what is accepted is an encoding ----

  lemma TwoDecodes(s: seq<byte>, i: nat) returns (c: scalar)
    requires i < |s| && SequenceLength(s, i) == 2
    ensures EncodedAt(s, i, c) && |Encode(c)| == 2
  {
    var a: int, b: int := s[i], s[i + 1];
    c := (a - 0xC0) * 64 + (b - 0x80);
    assert c / 64 == s[i] - 0xC0 && c % 64 == s[i + 1] - 0x80;
  }

  lemma ThreeDecodes(s: seq<byte>, i: nat) returns (c: scalar)
    requires i < |s| && SequenceLength(s, i) == 3
    ensures EncodedAt(s, i, c) && |Encode(c)| == 3
  {
    var a: int, b: int, d: int := s[i], s[i + 1], s[i + 2];
    FourParts(0, a - 0xE0, b - 0x80, d - 0x80);
    c := (a - 0xE0) * 4096 + (b - 0x80) * 64 + (d - 0x80);
  }

  lemma FourDecodes(s: seq<byte>, i: nat) returns (c: scalar)
    requires i < |s| && SequenceLength(s, i) == 4
    ensures EncodedAt(s, i, c) && |Encode(c)| == 4
  {
    var a: int, b: int, d: int, e: int := s[i], s[i + 1], s[i + 2], s[i + 3];
    FourParts(a - 0xF0, b - 0x80, d - 0x80, e - 0x80);
    c := (a - 0xF0) * 262144 + (b - 0x80) * 4096 + (d - 0x80) * 64 + (e - 0x80);
  }

  lemma FourParts(a: int, b: int, d: int, e: int)
    requires 0 <= a <= 4 && 0 <= b < 64 && 0 <= d < 64 && 0 <= e < 64
    ensures var c := a * 262144 + b * 4096 + d * 64 + e;
      c / 262144 == a && c / 4096 % 64 == b && c / 64 % 64 == d && c % 64 == e
  {
    var c := a * 262144 + b * 4096 + d * 64 + e;
    assert c / 64 == a * 4096 + b * 64 + d;
    assert c / 4096 == a * 64 + b;
  }

  lemma SequenceDecodes(s: seq<byte>, i: nat) returns (c: scalar)
    requires i < |s| && SequenceLength(s, i) > 0
    ensures EncodedAt(s, i, c) && |Encode(c)| == SequenceLength(s, i)
  {
    if SequenceLength(s, i) == 1 {
      c := s[i];
    } else if SequenceLength(s, i) == 2 {
      c := TwoDecodes(s, i);
    } else if SequenceLength(s, i) == 3 {
      c := ThreeDecodes(s, i);
    } else {
      c := FourDecodes(s, i);
    }
  }

  // ---- whole strings ----

  lemma SplitFirst(s: seq<byte>, i: nat, c: scalar, rest: seq<byte>)
    requires i <= |s| && s[i..] == Encode(c) + rest
    ensures EncodedAt(s, i, c) && s[i + |Encode(c)|..] == rest
  {
    var e := Encode(c);
    assert forall k :: 0 <= k < |e| ==> s[i + k] == s[i..][k];
    assert s[i..][|e|..] == rest;
  }

  lemma JoinFirst(s: seq<byte>, i: nat, c: scalar)
    requires EncodedAt(s, i, c)
    ensures s[i..] == Encode(c) + s[i + |Encode(c)|..]
  {}

  lemma {:induction false} EncodedIsValid(s: seq<byte>, i: nat, cs: seq<scalar>)
    requires i <= |s| && s[i..] == EncodeAll(cs)
    ensures Utf8From(s, i)
    decreases |cs|
  {
    if cs != [] {
      var c, rest := cs[0], cs[1..];
      SplitFirst(s, i, c, EncodeAll(rest));
      EncodingAccepted(s, i, c);
      EncodedIsValid(s, i + |Encode(c)|, rest);
    }
  }

  lemma {:induction false} ValidIsEncoded(s: seq<byte>, i: nat) returns (cs: seq<scalar>)
    requires i <= |s| && Utf8From(s, i)
    ensures s[i..] == EncodeAll(cs)
    decreases |s| - i
  {
    if i == |s| {
      cs := [];
    } else {
      var c := SequenceDecodes(s, i);
      var rest := ValidIsEncoded(s, i + |Encode(c)|);
      cs := [c] + rest;
      JoinFirst(s, i, c);
    }
  }

  /** `core::str::from_utf8` accepts exactly the encodings of sequences of scalar values. */
  lemma ValidUtf8Iff(s: seq<byte>)
    ensures ValidUtf8(s) <==> exists cs: seq<scalar> :: EncodeAll(cs) == s
  {
    assert s[0..] == s;
    if ValidUtf8(s) {
      var cs := ValidIsEncoded(s, 0);
      assert EncodeAll(cs) == s;
    }
    if cs: seq<scalar> :| EncodeAll(cs) == s {
      EncodedIsValid(s, 0, cs);
    }
  }
}
