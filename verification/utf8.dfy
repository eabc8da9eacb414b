/** UTF-8 as in lib/libjansson/utf.c (section 3 of RFC 3629). */
module Utf8 {
  import opened Common

  type Bytes = seq<nat>

  predicate IsBytes(s: Bytes) {
    forall i :: 0 <= i < |s| ==> s[i] < 256
  }

  /** Code points that have an encoding: no surrogate halves. */
  predicate Scalar(c: nat) {
    c <= 0x10FFFF && !(0xD800 <= c <= 0xDFFF)
  }

  /** `utf8_encode`. */
  function Encode(c: nat): (r: Bytes)
    requires c <= 0x10FFFF
    ensures 1 <= |r| <= 4
  {
    if c < 0x80 then [c]
    else if c < 0x800 then [0xC0 + c / 64, 0x80 + c % 64]
    else if c < 0x10000 then [0xE0 + c / 4096, 0x80 + c / 64 % 64, 0x80 + c % 64]
    else [0xF0 + c / 262144, 0x80 + c / 4096 % 64, 0x80 + c / 64 % 64, 0x80 + c % 64]
  }

  /** `utf8_check_first`: length of the sequence that starts with this byte, 0 if none does. */
  function CheckFirst(u: nat): nat {
    if u < 0x80 then 1
    else if u <= 0xC1 then 0
    else if u <= 0xDF then 2
    else if u <= 0xEF then 3
    else if u <= 0xF4 then 4
    else 0
  }

  predicate Continues(u: nat) {
    0x80 <= u <= 0xBF
  }

  /** The bits that a sequence of `size` bytes stands for. */
  function Value(s: Bytes, size: nat): nat
    requires 2 <= size <= 4 && size <= |s|
  {
    var v := if size == 2 then s[0] % 32 else if size == 3 then s[0] % 16 else s[0] % 8;
    var v1 := v * 64 + s[1] % 64;
    if size == 2 then v1
    else
      var v2 := v1 * 64 + s[2] % 64;
      if size == 3 then v2 else v2 * 64 + s[3] % 64
  }

  /** `utf8_check_full`. */
  function CheckFull(s: Bytes, size: nat): Option<nat>
    requires 2 <= size <= 4 && size <= |s|
  {
    if !(forall i :: 1 <= i < size ==> Continues(s[i])) then None
    else
      var v := Value(s, size);
      if v > 0x10FFFF || 0xD800 <= v <= 0xDFFF then None
      else if (size == 2 && v < 0x80) || (size == 3 && v < 0x800) || (size == 4 && v < 0x10000) then None
      else Some(v)
  }

  /** The loop of `utf8_check_full`. */
  method CheckFullLoop(s: Bytes, size: nat) returns (r: Option<nat>)
    requires size <= |s| && 1 <= |s|
    ensures 2 <= size <= 4 ==> r == CheckFull(s, size)
    ensures !(2 <= size <= 4) ==> r == None
  {
    var value;
    if size == 2 {
      value := s[0] % 32;
    } else if size == 3 {
      value := s[0] % 16;
    } else if size == 4 {
      value := s[0] % 8;
    } else {
      return None;
    }
    ghost var first := value;
    var i := 1;
    while i < size
      invariant 1 <= i <= size && forall k :: 1 <= k < i ==> Continues(s[k])
      invariant i == 1 ==> value == first
      invariant i == 2 ==> value == first * 64 + s[1] % 64
      invariant i == 3 ==> value == (first * 64 + s[1] % 64) * 64 + s[2] % 64
      invariant i == 4 ==> value == ((first * 64 + s[1] % 64) * 64 + s[2] % 64) * 64 + s[3] % 64
    {
      if s[i] < 0x80 || s[i] > 0xBF {
        return None;
      }
      value := value * 64 + s[i] % 64;
      i := i + 1;
    }
    if value > 0x10FFFF {
      return None;
    } else if 0xD800 <= value <= 0xDFFF {
      return None;
    } else if (size == 2 && value < 0x80) || (size == 3 && value < 0x800) || (size == 4 && value < 0x10000) {
      return None;
    }
    return Some(value);
  }

  datatype Step = Step(codepoint: nat, count: nat)

  /** `utf8_iterate` on a non-empty buffer: the first code point and its length. */
  function Iterate(s: Bytes): (r: Option<Step>)
    requires |s| != 0
    ensures r.Some? ==> 1 <= r.value.count <= 4 && r.value.count <= |s| && Scalar(r.value.codepoint)
  {
    var count := CheckFirst(s[0]);
    if count == 0 then None
    else if count == 1 then Some(Step(s[0], 1))
    else if count > |s| then None
    else
      match CheckFull(s, count)
      case None => None
      case Some(v) => Some(Step(v, count))
  }

  /** What is read off the front is the encoding of the code point. */
  lemma IterateEncodes(s: Bytes)
    requires |s| != 0 && IsBytes(s) && Iterate(s).Some?
    ensures var r := Iterate(s).value; Encode(r.codepoint) == s[..r.count]
  {
    var r := Iterate(s).value;
    if r.count == 2 {
      Two(s);
    } else if r.count == 3 {
      Three(s);
    } else if r.count == 4 {
      Four(s);
    }
    assert s[..r.count] == if r.count == 1 then [s[0]] else if r.count == 2 then [s[0], s[1]]
      else if r.count == 3 then [s[0], s[1], s[2]] else [s[0], s[1], s[2], s[3]];
  }

  /** Six bits at a time. */
  lemma SixBits(v: nat, d: nat)
    requires d < 64
    ensures (v * 64 + d) / 64 == v && (v * 64 + d) % 64 == d
  {
  }

  lemma Quotients(c: nat)
    ensures c / 4096 == c / 64 / 64 && c / 262144 == c / 64 / 64 / 64
  {
  }

  lemma Two(s: Bytes)
    requires |s| >= 2 && 0xC2 <= s[0] <= 0xDF && CheckFull(s, 2).Some?
    ensures var v := CheckFull(s, 2).value; v < 0x800 && Encode(v) == [s[0], s[1]]
  {
    assert Continues(s[1]);
    SixBits(s[0] % 32, s[1] % 64);
  }

  lemma Three(s: Bytes)
    requires |s| >= 3 && 0xE0 <= s[0] <= 0xEF && CheckFull(s, 3).Some?
    ensures var v := CheckFull(s, 3).value; v < 0x10000 && Encode(v) == [s[0], s[1], s[2]]
  {
    assert Continues(s[1]) && Continues(s[2]);
    var a, b, c := s[0] % 16, s[1] % 64, s[2] % 64;
    var v1 := a * 64 + b;
    var v := v1 * 64 + c;
    SixBits(a, b);
    SixBits(v1, c);
    Quotients(v);
    assert Value(s, 3) == v;
    hide Value;
  }

  lemma Four(s: Bytes)
    requires |s| >= 4 && 0xF0 <= s[0] <= 0xF4 && CheckFull(s, 4).Some?
    ensures var v := CheckFull(s, 4).value; Encode(v) == [s[0], s[1], s[2], s[3]]
  {
    assert Continues(s[1]) && Continues(s[2]) && Continues(s[3]);
    var a, b, c, d := s[0] % 8, s[1] % 64, s[2] % 64, s[3] % 64;
    var v1 := a * 64 + b;
    var v2 := v1 * 64 + c;
    var v := v2 * 64 + d;
    SixBits(a, b);
    SixBits(v1, c);
    SixBits(v2, d);
    Quotients(v);
    assert Value(s, 4) == v;
    EncodeFour(v, a, b, c, d);
    hide Value, Encode;
  }

  lemma EncodeFour(v: nat, a: nat, b: nat, c: nat, d: nat)
    requires 0x10000 <= v <= 0x10FFFF && v / 64 / 64 / 64 == a && v / 64 / 64 % 64 == b && v / 64 % 64 == c
    requires v % 64 == d
    ensures Encode(v) == [0xF0 + a, 0x80 + b, 0x80 + c, 0x80 + d]
  {
    Quotients(v);
  }

  /** Encoding a code point and reading it back. */
  lemma EncodeIterates(c: nat, tail: Bytes)
    requires Scalar(c)
    ensures IsBytes(Encode(c)) && Iterate(Encode(c) + tail) == Some(Step(c, |Encode(c)|))
  {
    if c < 0x80 {
      assert (Encode(c) + tail)[0] == c;
    } else if c < 0x800 {
      EncodedTwo(c, Encode(c) + tail);
    } else if c < 0x10000 {
      EncodedThree(c, Encode(c) + tail);
    } else {
      EncodedFour(c, Encode(c) + tail);
    }
  }

  lemma EncodedTwo(c: nat, s: Bytes)
    requires 0x80 <= c < 0x800 && |s| >= 2 && s[0] == 0xC0 + c / 64 && s[1] == 0x80 + c % 64
    ensures Iterate(s) == Some(Step(c, 2))
  {
    assert CheckFirst(s[0]) == 2 && Continues(s[1]);
    assert Value(s, 2) == c;
  }

  lemma EncodedThree(c: nat, s: Bytes)
    requires 0x800 <= c < 0x10000 && Scalar(c) && |s| >= 3
    requires s[0] == 0xE0 + c / 4096 && s[1] == 0x80 + c / 64 % 64 && s[2] == 0x80 + c % 64
    ensures Iterate(s) == Some(Step(c, 3))
  {
    Quotients(c);
    var v1 := c / 64;
    assert v1 == v1 / 64 * 64 + v1 % 64 && c == v1 * 64 + c % 64;
    assert CheckFirst(s[0]) == 3 && Continues(s[1]) && Continues(s[2]);
    assert s[0] % 16 == v1 / 64 && s[1] % 64 == v1 % 64 && s[2] % 64 == c % 64;
    assert Value(s, 3) == c;
    hide Value;
  }

  lemma EncodedFour(c: nat, s: Bytes)
    requires 0x10000 <= c <= 0x10FFFF && |s| >= 4
    requires s[0] == 0xF0 + c / 262144 && s[1] == 0x80 + c / 4096 % 64 && s[2] == 0x80 + c / 64 % 64
    requires s[3] == 0x80 + c % 64
    ensures Iterate(s) == Some(Step(c, 4))
  {
    Quotients(c);
    var v2 := c / 64;
    var v1 := v2 / 64;
    assert v1 == v1 / 64 * 64 + v1 % 64 && v2 == v1 * 64 + v2 % 64 && c == v2 * 64 + c % 64;
    assert CheckFirst(s[0]) == 4 && Continues(s[1]) && Continues(s[2]) && Continues(s[3]);
    assert s[0] % 8 == v1 / 64 && s[1] % 64 == v1 % 64 && s[2] % 64 == v2 % 64 && s[3] % 64 == c % 64;
    assert Value(s, 4) == c;
    hide Value;
  }

  /** `utf8_check_string`. */
  predicate Valid(s: Bytes)
    decreases |s|
  {
    if |s| == 0 then true
    else
      match Iterate(s)
      case None => false
      case Some(r) => Valid(s[r.count..])
  }

  /** The front of a longer string. */
  lemma IterateMore(s: Bytes, t: Bytes)
    requires |s| != 0 && Iterate(s).Some?
    ensures Iterate(s + t) == Iterate(s)
  {
    var n := Iterate(s).value.count;
    assert (s + t)[0] == s[0];
    if n != 1 {
      assert forall i :: 0 <= i < n ==> (s + t)[i] == s[i];
    }
  }

  lemma {:induction false} ValidAppend(s: Bytes, t: Bytes)
    requires Valid(s) && Valid(t)
    ensures Valid(s + t)
    decreases |s|
  {
    hide Iterate;
    if |s| == 0 {
      assert s + t == t;
    } else {
      var n := Iterate(s).value.count;
      IterateMore(s, t);
      ValidAppend(s[n..], t);
      assert (s + t)[n..] == s[n..] + t;
    }
  }

  /** ASCII text is valid. */
  lemma {:induction false} AsciiValid(s: Bytes)
    requires forall i :: 0 <= i < |s| ==> s[i] < 0x80
    ensures Valid(s)
    decreases |s|
  {
    if |s| != 0 {
      AsciiValid(s[1..]);
    }
  }

  lemma EncodeValid(c: nat)
    requires Scalar(c)
    ensures Valid(Encode(c))
  {
    EncodeIterates(c, []);
    assert Encode(c) + [] == Encode(c);
    assert Encode(c)[|Encode(c)|..] == [];
  }

  /** Section 3 of RFC 3629 by places: up to three bytes carry six bits each behind a mark, the
      first byte the rest behind a mark that tells the number of bytes. */
  lemma EncodePlaces(c: nat)
    requires c <= 0x10FFFF
    ensures var e := Encode(c);
      && (c < 0x80 ==> e == [c])
      && (0x80 <= c < 0x800 ==>
            |e| == 2 && 0xC0 <= e[0] < 0xE0 && Continues(e[1]) && c == 64 * (e[0] - 0xC0) + (e[1] - 0x80))
      && (0x800 <= c < 0x10000 ==>
            && |e| == 3 && 0xE0 <= e[0] < 0xF0 && Continues(e[1]) && Continues(e[2])
            && c == 4096 * (e[0] - 0xE0) + 64 * (e[1] - 0x80) + (e[2] - 0x80))
      && (0x10000 <= c ==>
            && |e| == 4 && 0xF0 <= e[0] < 0xF5 && Continues(e[1]) && Continues(e[2]) && Continues(e[3])
            && c == 262144 * (e[0] - 0xF0) + 4096 * (e[1] - 0x80) + 64 * (e[2] - 0x80) + (e[3] - 0x80))
  {
    Quotients(c);
    var v2 := c / 64;
    var v1 := v2 / 64;
    assert v1 == v1 / 64 * 64 + v1 % 64 && v2 == v1 * 64 + v2 % 64 && c == v2 * 64 + c % 64;
  }

  /** A valid text may be cut before any ASCII byte. */
  lemma {:induction false} CutValid(s: Bytes, n: nat)
    requires Valid(s) && IsBytes(s) && n <= |s| && (n < |s| ==> s[n] < 0x80)
    ensures Valid(s[..n]) && Valid(s[n..])
    decreases |s|
  {
    if n == 0 {
      assert s[0..] == s;
    } else {
      FirstPoint(s);
      hide Iterate, Valid;
      var k := Iterate(s).value.count;
      InsideHigh(s);
      assert k <= n;
      CutValid(s[k..], n - k);
      Slices(s, k, n);
      FrontValid(s, k);
      ValidAppend(s[..k], s[k..n]);
    }
  }

  lemma FirstPoint(s: Bytes)
    requires |s| != 0 && Valid(s)
    ensures Iterate(s).Some? && Valid(s[Iterate(s).value.count..])
  {
    hide Iterate;
  }

  lemma Slices(s: Bytes, k: nat, n: nat)
    requires k <= n <= |s|
    ensures s[k..][n - k..] == s[n..] && s[k..][..n - k] == s[k..n] && s[..k] + s[k..n] == s[..n]
  {
  }

  /** The bytes inside the first code point are not ASCII. */
  lemma InsideHigh(s: Bytes)
    requires |s| != 0 && Iterate(s).Some?
    ensures forall i :: 1 <= i < Iterate(s).value.count ==> 0x80 <= s[i]
  {
    if Iterate(s).value.count != 1 {
      assert forall i :: 1 <= i < CheckFirst(s[0]) ==> Continues(s[i]);
    }
  }

  lemma FrontValid(s: Bytes, k: nat)
    requires |s| != 0 && IsBytes(s) && Iterate(s).Some? && k == Iterate(s).value.count
    ensures Valid(s[..k])
  {
    hide Iterate, Valid;
    IterateEncodes(s);
    EncodeValid(Iterate(s).value.codepoint);
  }
}
