/** Well-formed UTF-8, as both MQTT payloads and Bluetooth names are checked for it. */
module Utf8 {
  import opened Wrappers

  /** How many bytes the well-formed UTF-8 sequence at the front has, 0 if there is none
      (table 3-7 of the Unicode standard, which core::str::from_utf8 follows). */
  function Utf8Unit(s: seq<byte>): (n: nat)
    requires s != []
    ensures n <= 4 && n <= |s|
  {
    var a := s[0];
    var b := if |s| > 1 then s[1] else 0;
    var c := |s| > 2 && 0x80 <= s[2] <= 0xBF;
    var d := |s| > 3 && 0x80 <= s[3] <= 0xBF;
    if a < 0x80 then 1
    else if 0xC2 <= a <= 0xDF && 0x80 <= b <= 0xBF then 2
    else if a == 0xE0 && 0xA0 <= b <= 0xBF && c then 3
    else if (0xE1 <= a <= 0xEC || 0xEE <= a <= 0xEF) && 0x80 <= b <= 0xBF && c then 3
    else if a == 0xED && 0x80 <= b <= 0x9F && c then 3
    else if a == 0xF0 && 0x90 <= b <= 0xBF && c && d then 4
    else if 0xF1 <= a <= 0xF3 && 0x80 <= b <= 0xBF && c && d then 4
    else if a == 0xF4 && 0x80 <= b <= 0x8F && c && d then 4
    else 0
  }

  predicate ValidUtf8(s: seq<byte>)
    decreases |s|
  {
    s == [] || (Utf8Unit(s) > 0 && ValidUtf8(s[Utf8Unit(s)..]))
  }

  // ---------------------------------------------------------------------------
  // What is well-formed: the code of a sequence of characters
  // ---------------------------------------------------------------------------

  /** A Unicode scalar value. */
  ghost predicate IsScalar(u: nat) {
    u < 0xD800 || 0xE000 <= u <= 0x10FFFF
  }

  ghost predicate AllScalars(us: seq<nat>) {
    forall i :: 0 <= i < |us| ==> IsScalar(us[i])
  }

  /** A byte that continues a sequence, with the low six bits of a number. */
  function Continuation(u: nat): byte { 0x80 + u % 64 }

  /** The bytes of a character (section 3 of RFC 3629). */
  function Coded(u: nat): seq<byte>
    requires u <= 0x10FFFF
  {
    if u < 0x80 then [u]
    else if u < 0x800 then [0xC0 + u / 64, Continuation(u)]
    else if u < 0x1_0000 then [0xE0 + u / 4096, Continuation(u / 64), Continuation(u)]
    else [0xF0 + u / 262144, Continuation(u / 4096), Continuation(u / 64), Continuation(u)]
  }

  ghost function CodedAll(us: seq<nat>): seq<byte>
    requires AllScalars(us)
  {
    if us == [] then [] else Coded(us[0]) + CodedAll(us[1..])
  }

  /** The code of a character is one unit, whatever follows. */
  lemma UnitOfCoded(u: nat, rest: seq<byte>)
    requires IsScalar(u)
    ensures Utf8Unit(Coded(u) + rest) == |Coded(u)|
  {
    var s := Coded(u) + rest;
    assert forall i :: 0 <= i < |Coded(u)| ==> s[i] == Coded(u)[i];
  }

  /** The number a unit stands for. */
  function Value(s: seq<byte>, n: nat): nat
    requires n <= |s| && 1 <= n <= 4
  {
    if n == 1 then s[0]
    else if n == 2 then (s[0] as int) % 32 * 64 + (s[1] as int) % 64
    else if n == 3 then (s[0] as int) % 16 * 4096 + (s[1] as int) % 64 * 64 + (s[2] as int) % 64
    else (s[0] as int) % 8 * 262144 + (s[1] as int) % 64 * 4096 + (s[2] as int) % 64 * 64 + (s[3] as int) % 64
  }

  /** Every unit is the code of a character. */
  lemma UnitIsCoded(s: seq<byte>)
    requires s != [] && Utf8Unit(s) > 0
    ensures IsScalar(Value(s, Utf8Unit(s))) && s[..Utf8Unit(s)] == Coded(Value(s, Utf8Unit(s)))
  {
    var n := Utf8Unit(s);
    var u := Value(s, n);
    if n == 1 {
      assert s[..1] == Coded(u);
    } else if n == 2 {
      TwoBytes(s[0], s[1], u);
    } else if n == 3 {
      ThreeBytes(s[0], s[1], s[2], u);
    } else {
      FourBytes(s[0], s[1], s[2], s[3], u);
    }
  }

  lemma TwoBytes(a: byte, b: byte, u: nat)
    requires 0xC2 <= a <= 0xDF && 0x80 <= b <= 0xBF && u == a % 32 * 64 + b % 64
    ensures IsScalar(u) && Coded(u) == [a, b]
  {
  }

  lemma ThreeBytes(a: byte, b: byte, c: byte, u: nat)
    requires 0xE0 <= a <= 0xEF && 0x80 <= b <= 0xBF && 0x80 <= c <= 0xBF
    requires (a == 0xE0 ==> b >= 0xA0) && (a == 0xED ==> b <= 0x9F)
    requires u == a % 16 * 4096 + b % 64 * 64 + c % 64
    ensures IsScalar(u) && Coded(u) == [a, b, c]
  {
    var x, y: nat := a - 0xE0, b - 0x80;
    SixBits(x, y);
    SixBits(x * 64 + y, c - 0x80);
    assert u == (x * 64 + y) * 64 + (c - 0x80);
  }

  lemma SixBits(high: nat, low: nat)
    requires low < 64
    ensures (high * 64 + low) / 64 == high && (high * 64 + low) % 64 == low
  {
  }

  lemma FourBytes(a: byte, b: byte, c: byte, d: byte, u: nat)
    requires 0xF0 <= a <= 0xF4 && 0x80 <= b <= 0xBF && 0x80 <= c <= 0xBF && 0x80 <= d <= 0xBF
    requires (a == 0xF0 ==> b >= 0x90) && (a == 0xF4 ==> b <= 0x8F)
    requires u == a % 8 * 262144 + b % 64 * 4096 + c % 64 * 64 + d % 64
    ensures IsScalar(u) && Coded(u) == [a, b, c, d]
  {
    FourParts(a - 0xF0, b - 0x80, c - 0x80, d - 0x80, u);
  }

  lemma FourParts(x: nat, y: nat, z: nat, w: nat, u: nat)
    requires y < 64 && z < 64 && w < 64 && u == x * 262144 + y * 4096 + z * 64 + w
    ensures u % 64 == w && u / 64 % 64 == z && u / 4096 % 64 == y && u / 262144 == x
  {
    var high, middle := x * 64 + y, (x * 64 + y) * 64 + z;
    SixBits(x, y);
    SixBits(high, z);
    SixBits(middle, w);
    assert u == middle * 64 + w;
    SplitsTwice(u);
  }

  lemma SplitsTwice(u: nat)
    ensures u / 4096 == u / 64 / 64 && u / 262144 == u / 64 / 64 / 64
  {
  }

  lemma {:induction false} CodedIsValid(us: seq<nat>)
    requires AllScalars(us)
    ensures ValidUtf8(CodedAll(us))
  {
    if us != [] {
      var rest := CodedAll(us[1..]);
      UnitOfCoded(us[0], rest);
      CodedIsValid(us[1..]);
      assert (Coded(us[0]) + rest)[|Coded(us[0])|..] == rest;
    }
  }

  lemma {:induction false} ValidIsCoded(s: seq<byte>) returns (us: seq<nat>)
    requires ValidUtf8(s)
    ensures AllScalars(us) && s == CodedAll(us)
    decreases |s|
  {
    if s == [] {
      us := [];
    } else {
      var n := Utf8Unit(s);
      UnitIsCoded(s);
      var later := ValidIsCoded(s[n..]);
      us := [Value(s, n)] + later;
      CodedStep(s[..n], s[n..], Value(s, n), later);
      assert s == s[..n] + s[n..];
    }
  }

  lemma CodedStep(unit: seq<byte>, rest: seq<byte>, u: nat, later: seq<nat>)
    requires IsScalar(u) && AllScalars(later) && unit == Coded(u) && rest == CodedAll(later)
    ensures AllScalars([u] + later) && CodedAll([u] + later) == unit + rest
  {
    assert ([u] + later)[1..] == later;
  }

  /** The bytes that are accepted are exactly the codes of sequences of characters. */
  lemma ValidExactly(s: seq<byte>)
    ensures ValidUtf8(s) <==> exists us :: AllScalars(us) && s == CodedAll(us)
  {
    if ValidUtf8(s) {
      var us := ValidIsCoded(s);
    }
    if us :| AllScalars(us) && s == CodedAll(us) {
      CodedIsValid(us);
    }
  }
}
