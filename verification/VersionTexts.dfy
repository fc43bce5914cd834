/** The order of versions as they are written: major, minor and patch decide, in this order,
    and what stands around them does not matter. */
module VersionTexts {
  import opened Wrappers
  import opened Decimals
  import opened Texts
  import opened Versions
  import J = Json
  import JS = JsonScan

  function CoreText(a: nat, b: nat, c: nat): string {
    J.Decimal(a) + "." + J.Decimal(b) + "." + J.Decimal(c)
  }

  /** A version text for these numbers: an optional v, the core, and anything but a digit next,
      with white space around it. */
  ghost predicate Writes(version: string, a: nat, b: nat, c: nat) {
    exists before, prefix, suffix, after :: WrittenWith(version, before, prefix, suffix, after, a, b, c)
  }

  ghost predicate WrittenWith(version: string, before: string, prefix: string, suffix: string, after: string,
                              a: nat, b: nat, c: nat)
  {
    && Blank(before) && Blank(after) && (prefix == "" || prefix == "v" || prefix == "V")
    && (suffix == "" || (!IsDigit(suffix[0]) && !IsSpace(suffix[|suffix| - 1])))
    && version == before + (prefix + CoreText(a, b, c) + suffix + after)
  }

  lemma {:induction false} DotAt(digits: string, rest: string, from: nat)
    requires from <= |digits| && '.' !in digits && (rest == "" || rest[0] == '.')
    ensures IndexOfDot(digits + rest, from) == |digits|
    decreases |digits| - from
  {
    var s := digits + rest;
    if from < |digits| {
      assert s[from] == digits[from] && digits[from] in digits;
      DotAt(digits, rest, from + 1);
    }
  }

  lemma FirstPiece(digits: string, rest: string, n: nat)
    requires '.' !in digits
    ensures Piece(digits + "." + rest, 0) == Some(digits)
    ensures n > 0 ==> Piece(digits + "." + rest, n) == Piece(rest, n - 1)
  {
    var s := digits + ("." + rest);
    assert s == digits + "." + rest;
    DotAt(digits, "." + rest, 0);
    assert s[..|digits|] == digits && s[|digits| + 1..] == rest;
  }

  lemma OnlyPiece(digits: string)
    requires '.' !in digits
    ensures Piece(digits, 0) == Some(digits)
  {
    assert digits + "" == digits && digits[..|digits|] == digits;
    DotAt(digits, "", 0);
  }

  lemma PartsOf(x: string, y: string, z: string)
    requires '.' !in x && '.' !in y && '.' !in z
    ensures var core := x + "." + y + "." + z;
      Piece(core, 0) == Some(x) && Piece(core, 1) == Some(y) && Piece(core, 2) == Some(z)
  {
    var rest := y + "." + z;
    assert x + "." + rest == x + "." + y + "." + z;
    FirstPiece(x, rest, 1);
    FirstPiece(x, rest, 2);
    FirstPiece(y, z, 1);
    OnlyPiece(z);
  }

  lemma DecimalPart(n: nat)
    ensures '.' !in J.Decimal(n) && ParseU32OrZero(J.Decimal(n)) == if n <= U32_MAX then n else 0
  {
    JS.DecimalDigits(n);
    DigitsOfDecimal(n);
  }

  lemma CoreIsCore(x: string, y: string, z: string)
    requires x != "" && y != "" && z != ""
    requires forall i :: 0 <= i < |x| ==> IsDigit(x[i])
    requires forall i :: 0 <= i < |y| ==> IsDigit(y[i])
    requires forall i :: 0 <= i < |z| ==> IsDigit(z[i])
    ensures IsCore(x + "." + y + "." + z)
  {
    var core := x + "." + y + "." + z;
    var a, b := |x|, |x| + 1 + |y|;
    forall i | 0 <= i < |core| && i != a && i != b ensures IsDigit(core[i]) {
      if i < a {
        assert core[i] == x[i];
      } else if i < b {
        assert core[i] == y[i - a - 1];
      } else {
        assert core[i] == z[i - b - 1];
      }
    }
    assert IsCoreAt(core, a, b);
  }

  lemma CoreTextIsCore(a: nat, b: nat, c: nat)
    ensures IsCore(CoreText(a, b, c))
  {
    JS.DecimalDigits(a);
    JS.DecimalDigits(b);
    JS.DecimalDigits(c);
    CoreIsCore(J.Decimal(a), J.Decimal(b), J.Decimal(c));
  }

  lemma StartOfCore(prefix: string, rest: string)
    requires rest != "" && IsDigit(rest[0]) && (prefix == "" || prefix == "v" || prefix == "V")
    ensures CoreStart(prefix + rest) == |prefix|
  {
    assert (prefix + rest)[0] == if prefix == "" then rest[0] else prefix[0];
  }

  lemma ContainsCore(prefix: string, core: string, suffix: string)
    requires IsCore(core) && (prefix == "" || prefix == "v" || prefix == "V")
    requires suffix == "" || !IsDigit(suffix[0])
    ensures Contains(prefix + core + suffix, core)
  {
    var trimmed, start := prefix + core + suffix, |prefix|;
    CoreEnds(core);
    assert trimmed == prefix + (core + suffix);
    StartOfCore(prefix, core + suffix);
    assert trimmed[start..start + |core|] == core;
    assert suffix != "" ==> trimmed[start + |core|] == suffix[0];
  }

  lemma CoreEnds(core: string)
    requires IsCore(core)
    ensures core != "" && IsDigit(core[0]) && IsDigit(core[|core| - 1])
  {
    var a: nat, b: nat :| IsCoreAt(core, a, b);
  }

  lemma EndsOfText(prefix: string, core: string, suffix: string)
    requires IsCore(core) && (prefix == "" || prefix == "v" || prefix == "V")
    requires suffix == "" || !IsSpace(suffix[|suffix| - 1])
    ensures var text := prefix + core + suffix;
      text != "" && !IsSpace(text[0]) && !IsSpace(text[|text| - 1])
  {
    var text := prefix + core + suffix;
    CoreEnds(core);
    assert text[0] == if prefix == "" then core[0] else prefix[0];
    assert text[|text| - 1] == if suffix == "" then core[|core| - 1] else suffix[|suffix| - 1];
  }

  /** The core of such a text is what was written. */
  lemma CoreOfWritten(version: string, a: nat, b: nat, c: nat)
    requires Writes(version, a, b, c)
    ensures Core(version) == CoreText(a, b, c)
  {
    var before, prefix, suffix, after :| WrittenWith(version, before, prefix, suffix, after, a, b, c);
    var core := CoreText(a, b, c);
    CoreTextIsCore(a, b, c);
    CoreFound(before, prefix, core, suffix, after, version);
  }

  lemma CoreFound(before: string, prefix: string, core: string, suffix: string, after: string, version: string)
    requires Blank(before) && Blank(after) && IsCore(core) && (prefix == "" || prefix == "v" || prefix == "V")
    requires suffix == "" || (!IsDigit(suffix[0]) && !IsSpace(suffix[|suffix| - 1]))
    requires version == before + (prefix + core + suffix + after)
    ensures Core(version) == core
  {
    EndsOfText(prefix, core, suffix);
    TrimsAround(before, prefix + core + suffix, after);
    ContainsCore(prefix, core, suffix);
    CoreExact(version, core);
  }

  function Fitting(n: nat): nat { if n <= U32_MAX then n else 0 }

  /** And its rank is the numbers written, except that one which does not fit counts as 0. */
  lemma RankOfWritten(version: string, a: nat, b: nat, c: nat)
    requires Writes(version, a, b, c)
    ensures RankOf(version) == Release(Fitting(a), Fitting(b), Fitting(c))
  {
    CoreOfWritten(version, a, b, c);
    DecimalPart(a);
    DecimalPart(b);
    DecimalPart(c);
    PartsOf(J.Decimal(a), J.Decimal(b), J.Decimal(c));
  }

  lemma OrderOfNumbers(a: nat, b: nat, c: nat, x: nat, y: nat, z: nat, left: Rank, right: Rank)
    requires left == Release(a, b, c) && right == Release(x, y, z)
    ensures Order(left, right) < 0 <==> a < x || (a == x && (b < y || (b == y && c < z)))
    ensures Order(left, right) == 0 <==> a == x && b == y && c == z
    ensures Order(left, right) > 0 <==> a > x || (a == x && (b > y || (b == y && c > z)))
  {
  }

  /** So major decides first, then minor, then patch. */
  lemma OrderOfWritten(left: string, right: string, a: nat, b: nat, c: nat, x: nat, y: nat, z: nat)
    requires Writes(left, a, b, c) && Writes(right, x, y, z)
    requires a <= U32_MAX && b <= U32_MAX && c <= U32_MAX && x <= U32_MAX && y <= U32_MAX && z <= U32_MAX
    ensures Compare(left, right) < 0 <==> a < x || (a == x && (b < y || (b == y && c < z)))
    ensures Compare(left, right) == 0 <==> a == x && b == y && c == z
    ensures Compare(left, right) > 0 <==> a > x || (a == x && (b > y || (b == y && c > z)))
  {
    RankOfWritten(left, a, b, c);
    RankOfWritten(right, x, y, z);
    OrderOfNumbers(a, b, c, x, y, z, RankOf(left), RankOf(right));
  }

  /** Any release comes after a text that holds none. */
  lemma WrittenIsAbove(left: string, right: string, a: nat, b: nat, c: nat)
    requires Writes(left, a, b, c) && !HasCore(Trim(right))
    ensures Compare(left, right) > 0
  {
    RankOfWritten(left, a, b, c);
  }
}
