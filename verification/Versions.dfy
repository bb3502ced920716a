// compareVersions of internal/control/store.go, on top of strconv.Atoi with its
// error ignored.
module Versions {
  import Text

  // ----- strconv.Atoi on 64 bits -----

  const MAX_UINT64: int := 0xFFFF_FFFF_FFFF_FFFF
  const MAX_INT64: int := 0x7FFF_FFFF_FFFF_FFFF
  const CUTOFF: int := MAX_UINT64 / 10 + 1

  datatype Parsed = Number(n: nat) | Syntax | Range

  predicate IsDigit(c: char) { '0' <= c <= '9' }

  function DigitValue(c: char): (d: nat)
    requires IsDigit(c)
    ensures d < 10
  {
    c as int - '0' as int
  }

  // ParseUint scans from the left and stops at the first character that is not
  // a digit or that overflows, whichever comes first.
  function ParseUint(s: string, acc: nat): (r: Parsed)
    ensures r.Number? && acc <= MAX_UINT64 ==> r.n <= MAX_UINT64
  {
    if s == "" then Number(acc)
    else if !IsDigit(s[0]) then Syntax
    else if acc >= CUTOFF || acc * 10 + DigitValue(s[0]) > MAX_UINT64 then Range
    else ParseUint(s[1..], acc * 10 + DigitValue(s[0]))
  }

  // The value Atoi returns next to its error: 0 on a syntax error, the nearest
  // representable number on overflow.
  function Atoi(s: string): (n: int)
    ensures -MAX_INT64 - 1 <= n <= MAX_INT64
  {
    var negative := s != "" && s[0] == '-';
    var digits := if s != "" && (s[0] == '-' || s[0] == '+') then s[1..] else s;
    if digits == "" then 0
    else
      match ParseUint(digits, 0)
      case Syntax => 0
      case Range => if negative then -MAX_INT64 - 1 else MAX_INT64
      case Number(n) =>
        if negative then (if n > MAX_INT64 then -MAX_INT64 - 1 else 0 - n as int)
        else (if n > MAX_INT64 then MAX_INT64 else n)
  }

  // ----- compareVersions -----

  // The version without what follows its first hyphen.
  function CoreOf(v: string): string {
    if '-' in v then Text.Before(v, '-') else v
  }

  function Numbers(v: string): (r: seq<int>)
    ensures |r| == 3
  {
    var parts := Text.Split(CoreOf(v), '.');
    seq(3, i requires 0 <= i < 3 => if i < |parts| then Atoi(parts[i]) else 0)
  }

  method Parse(v: string) returns (out: array<int>)
    ensures fresh(out) && out[..] == Numbers(v)
  {
    var parts := Text.Split(CoreOf(v), '.');
    out := new int[3](i => 0);
    var i := 0;
    while i < |parts| && i < 3
      invariant 0 <= i <= 3 && i <= |parts|
      invariant forall k :: 0 <= k < 3 ==> out[k] == if k < i then Atoi(parts[k]) else 0
    {
      out[i] := Atoi(parts[i]);
      i := i + 1;
    }
  }

  // The sign of the first difference.
  function Lexicographic(x: seq<int>, y: seq<int>): int
    requires |x| == |y|
  {
    if x == [] then 0
    else if x[0] < y[0] then -1
    else if x[0] > y[0] then 1
    else Lexicographic(x[1..], y[1..])
  }

  // The order of versions: by their numbers, then by their spelling.
  function Order(a: string, b: string): int {
    var n := Lexicographic(Numbers(a), Numbers(b));
    if n != 0 then n else Text.Compare(a, b)
  }

  method CompareVersions(a: string, b: string) returns (r: int)
    ensures r == Order(a, b)
    ensures r in {-1, 0, 1} && (r == 0 <==> a == b)
    ensures Numbers(a) == Numbers(b) ==> (r <= 0 <==> Text.InOrder(a, b))
  {
    ComparedBySpelling(a, b);
    var av := Parse(a);
    var bv := Parse(b);
    ghost var x, y := Numbers(a), Numbers(b);
    var i := 0;
    while i < 3
      invariant 0 <= i <= 3 && av[..] == x && bv[..] == y
      invariant Lexicographic(x[i..], y[i..]) == Lexicographic(x, y)
    {
      assert x[i..][1..] == x[i + 1..] && y[i..][1..] == y[i + 1..];
      assert av[i] == x[i] && bv[i] == y[i];
      if av[i] < bv[i] {
        return -1;
      }
      if av[i] > bv[i] {
        return 1;
      }
      i := i + 1;
    }
    r := Text.Compare(a, b);
  }

  // ----- a total order on all strings -----

  lemma {:induction false} LexicographicOrder(x: seq<int>, y: seq<int>, z: seq<int>)
    requires |x| == |y| == |z|
    ensures Lexicographic(x, y) == -Lexicographic(y, x)
    ensures Lexicographic(x, y) == 0 <==> x == y
    ensures Lexicographic(x, y) <= 0 && Lexicographic(y, z) <= 0 ==> Lexicographic(x, z) <= 0
    ensures Lexicographic(x, y) <= 0 && Lexicographic(y, z) <= 0 && Lexicographic(x, z) == 0 ==> x == y == z
  {
    if x != [] {
      LexicographicOrder(x[1..], y[1..], z[1..]);
      assert x == [x[0]] + x[1..] && y == [y[0]] + y[1..] && z == [z[0]] + z[1..];
    }
  }

  lemma CompareOrder(a: string, b: string, c: string)
    ensures Text.Compare(a, b) == -Text.Compare(b, a)
    ensures Text.Compare(a, b) == 0 <==> a == b
    ensures Text.Compare(a, b) <= 0 && Text.Compare(b, c) <= 0 ==> Text.Compare(a, c) <= 0
  {
    Text.LessTotal(a, b);
    if Text.Less(a, b) && Text.Less(b, a) { Text.LessTransitive(a, b, a); Text.LessIrreflexive(a); }
    if Text.Less(a, b) && Text.Less(b, c) { Text.LessTransitive(a, b, c); }
  }

  // compareVersions orders all strings totally: antisymmetric, transitive, and
  // zero for equal strings only.
  lemma OrderIsTotal(a: string, b: string, c: string)
    ensures Order(a, b) == -Order(b, a)
    ensures Order(a, b) == 0 <==> a == b
    ensures Order(a, b) <= 0 && Order(b, c) <= 0 ==> Order(a, c) <= 0
  {
    LexicographicOrder(Numbers(a), Numbers(b), Numbers(c));
    CompareOrder(a, b, c);
  }

  // Versions with the same numbers are ordered as they are spelled.
  lemma ComparedBySpelling(a: string, b: string)
    ensures Order(a, b) in {-1, 0, 1} && (Order(a, b) == 0 <==> a == b)
    ensures Numbers(a) == Numbers(b) ==> (Order(a, b) <= 0 <==> Text.InOrder(a, b))
  {
    hide Numbers;
    LexicographicSigns(Numbers(a), Numbers(b));
    LexicographicOrder(Numbers(a), Numbers(b), Numbers(b));
    Text.CompareByPosition(a, b);
  }

  lemma {:induction false} LexicographicSigns(x: seq<int>, y: seq<int>)
    requires |x| == |y|
    ensures Lexicographic(x, y) in {-1, 0, 1}
  {
    if x != [] { LexicographicSigns(x[1..], y[1..]); }
  }

  // ----- printed versions -----

  function Digit(d: nat): (c: char)
    requires d < 10
    ensures IsDigit(c) && DigitValue(c) == d
  {
    ('0' as int + d) as char
  }

  // strconv.Itoa of a natural number.
  function Decimal(n: nat): (s: string)
    ensures s != "" && forall c :: c in s ==> IsDigit(c)
  {
    if n < 10 then [Digit(n)] else Decimal(n / 10) + [Digit(n % 10)]
  }

  function Value(s: string, acc: nat): nat
    requires forall c :: c in s ==> IsDigit(c)
  {
    if s == "" then acc else Value(s[1..], acc * 10 + DigitValue(s[0]))
  }

  lemma {:induction false} ValueGrows(s: string, acc: nat)
    requires forall c :: c in s ==> IsDigit(c)
    ensures Value(s, acc) >= acc
  {
    if s != "" { ValueGrows(s[1..], acc * 10 + DigitValue(s[0])); }
  }

  lemma {:induction false} ValueSnoc(s: string, c: char, acc: nat)
    requires (forall c :: c in s ==> IsDigit(c)) && IsDigit(c)
    ensures forall d :: d in s + [c] ==> IsDigit(d)
    ensures Value(s + [c], acc) == Value(s, acc) * 10 + DigitValue(c)
  {
    if s == "" {
      assert s + [c] == [c] && [c][1..] == "";
    } else {
      assert (s + [c])[1..] == s[1..] + [c];
      ValueSnoc(s[1..], c, acc * 10 + DigitValue(s[0]));
    }
  }

  lemma {:induction false} DecimalValue(n: nat)
    ensures Value(Decimal(n), 0) == n
  {
    if n >= 10 {
      DecimalValue(n / 10);
      ValueSnoc(Decimal(n / 10), Digit(n % 10), 0);
    } else {
      assert Decimal(n)[1..] == "";
    }
  }

  // Scanning digits computes their value, or reports that it is too large,
  // unless something else follows.
  lemma {:induction false} ParseDigits(s: string, rest: string, acc: nat)
    requires (forall c :: c in s ==> IsDigit(c)) && acc <= MAX_UINT64
    ensures Value(s, acc) <= MAX_UINT64 ==> ParseUint(s + rest, acc) == ParseUint(rest, Value(s, acc))
    ensures Value(s, acc) > MAX_UINT64 ==> ParseUint(s + rest, acc) == Range
    decreases |s|
  {
    if s == "" {
      assert s + rest == rest;
    } else {
      var next := acc * 10 + DigitValue(s[0]);
      assert (s + rest)[1..] == s[1..] + rest;
      ValueGrows(s[1..], next);
      if next <= MAX_UINT64 { ParseDigits(s[1..], rest, next); }
    }
  }

  function Clamp(n: nat): int { if n > MAX_INT64 then MAX_INT64 else n }

  // Parsing inverts printing, up to the largest integer.
  lemma AtoiDecimal(n: nat)
    ensures Atoi(Decimal(n)) == Clamp(n)
    ensures Atoi(Decimal(n)) == if n <= 9223372036854775807 then n else 9223372036854775807
  {
    DecimalValue(n);
    ParseDigits(Decimal(n), "", 0);
    assert Decimal(n) + "" == Decimal(n);
    assert IsDigit(Decimal(n)[0]) by { assert Decimal(n)[0] in Decimal(n); }
  }

  function Print(major: nat, minor: nat, patch: nat): string {
    Decimal(major) + "." + (Decimal(minor) + "." + Decimal(patch))
  }

  lemma PrintParts(major: nat, minor: nat, patch: string)
    ensures Text.Split(Decimal(major) + "." + (Decimal(minor) + "." + patch), '.')
            == [Decimal(major), Decimal(minor)] + Text.Split(patch, '.')
  {
    Text.SplitCons(Decimal(major), Decimal(minor) + "." + patch, '.');
    Text.SplitCons(Decimal(minor), patch, '.');
  }

  // What may follow the three numbers: nothing, or a hyphen and a pre-release.
  predicate IsPreRelease(suffix: string) { suffix == "" || suffix[0] == '-' }

  lemma CoreOfPrinted(core: string, suffix: string)
    requires '-' !in core && IsPreRelease(suffix)
    ensures CoreOf(core + suffix) == core
  {
    var v := core + suffix;
    if suffix == "" {
      assert v == core;
    } else {
      assert v[|core|] == '-';
      var b := Text.Before(v, '-');
      assert b == v[..|b|] && core == v[..|core|];
    }
  }

  lemma PrintedNumbers(major: nat, minor: nat, patch: nat, suffix: string)
    requires IsPreRelease(suffix)
    ensures Numbers(Print(major, minor, patch) + suffix) == [Clamp(major), Clamp(minor), Clamp(patch)]
  {
    var core := Print(major, minor, patch);
    assert '-' !in core;
    CoreOfPrinted(core, suffix);
    PrintParts(major, minor, Decimal(patch));
    Text.SplitOne(Decimal(patch), '.');
    AtoiDecimal(major);
    AtoiDecimal(minor);
    AtoiDecimal(patch);
  }

  lemma {:induction false} ComparePrefix(p: string, a: string, b: string)
    ensures Text.Compare(p + a, p + b) == Text.Compare(a, b)
  {
    if p == "" {
      assert p + a == a && p + b == b;
    } else {
      assert (p + a)[1..] == p[1..] + a && (p + b)[1..] == p[1..] + b;
      ComparePrefix(p[1..], a, b);
      assert p + a == [p[0]] + (p[1..] + a) && p + b == [p[0]] + (p[1..] + b);
    }
  }

  // Printed triples below 2^63, each alone or with a pre-release behind it, are
  // ordered numerically, as item 11.2 of Semantic Versioning 2.0.0 asks; equal
  // triples are ordered by how their suffixes are spelled.
  lemma OrderIsNumeric(x: (nat, nat, nat), y: (nat, nat, nat), sx: string, sy: string)
    requires x.0 <= MAX_INT64 && x.1 <= MAX_INT64 && x.2 <= MAX_INT64
    requires y.0 <= MAX_INT64 && y.1 <= MAX_INT64 && y.2 <= MAX_INT64
    requires IsPreRelease(sx) && IsPreRelease(sy)
    ensures Order(Print(x.0, x.1, x.2) + sx, Print(y.0, y.1, y.2) + sy) ==
            if x == y then Text.Compare(sx, sy) else Lexicographic([x.0, x.1, x.2], [y.0, y.1, y.2])
  {
    PrintedNumbers(x.0, x.1, x.2, sx);
    PrintedNumbers(y.0, y.1, y.2, sy);
    LexicographicOrder([x.0, x.1, x.2], [y.0, y.1, y.2], [y.0, y.1, y.2]);
    if x == y {
      ComparePrefix(Print(x.0, x.1, x.2), sx, sy);
    } else {
      assert [x.0, x.1, x.2] != [y.0, y.1, y.2] by {
        assert [x.0, x.1, x.2][0] == x.0 && [x.0, x.1, x.2][1] == x.1 && [x.0, x.1, x.2][2] == x.2;
        assert [y.0, y.1, y.2][0] == y.0 && [y.0, y.1, y.2][1] == y.1 && [y.0, y.1, y.2][2] == y.2;
      }
    }
  }

  // Equal triples are ordered by the code points of what follows them.
  lemma PreReleasesBySpelling(x: (nat, nat, nat), sx: string, sy: string)
    requires x.0 <= MAX_INT64 && x.1 <= MAX_INT64 && x.2 <= MAX_INT64
    requires IsPreRelease(sx) && IsPreRelease(sy)
    ensures Order(Print(x.0, x.1, x.2) + sx, Print(x.0, x.1, x.2) + sy) == -1
            <==> Text.ComesBefore(sx, sy)
  {
    hide Print;
    OrderIsNumeric(x, x, sx, sy);
    Text.CompareByPosition(sx, sy);
  }

  // Against item 11.3 of Semantic Versioning 2.0.0, every pre-release is
  // ordered after its own release.
  lemma PreReleaseAfterRelease(x: (nat, nat, nat), suffix: string)
    requires suffix != "" && suffix[0] == '-'
    ensures Order(Print(x.0, x.1, x.2), Print(x.0, x.1, x.2) + suffix) == -1
  {
    var p := Print(x.0, x.1, x.2);
    PrintedNumbers(x.0, x.1, x.2, "");
    PrintedNumbers(x.0, x.1, x.2, suffix);
    assert p + "" == p;
    LexicographicOrder(Numbers(p), Numbers(p + suffix), Numbers(p));
    ComparePrefix(p, "", suffix);
  }

  // Build metadata makes the patch number unreadable, so it counts as zero: the
  // version is ordered below every later patch, and even below earlier ones.
  lemma BuildMetadataLosesPatch(x: (nat, nat, nat), build: string)
    requires x.2 <= MAX_INT64
    ensures Numbers(Print(x.0, x.1, x.2) + "+" + build) == [Clamp(x.0), Clamp(x.1), 0]
    ensures forall q: nat :: 0 < q ==> Order(Print(x.0, x.1, x.2) + "+" + build, Print(x.0, x.1, q)) == -1
  {
    BuildMetadataNumbers(x, build);
    forall q: nat | 0 < q ensures Order(Print(x.0, x.1, x.2) + "+" + build, Print(x.0, x.1, q)) == -1 {
      PrintedNumbers(x.0, x.1, q, "");
      assert Print(x.0, x.1, q) + "" == Print(x.0, x.1, q);
      var n := [Clamp(x.0), Clamp(x.1), 0];
      var m := [Clamp(x.0), Clamp(x.1), Clamp(q)];
      assert n[1..] == [Clamp(x.1), 0] && m[1..] == [Clamp(x.1), Clamp(q)];
      assert n[1..][1..] == [0] && m[1..][1..] == [Clamp(q)];
      assert Lexicographic(n, m) == Lexicographic(n[1..], m[1..]) == Lexicographic(n[1..][1..], m[1..][1..]) == -1;
    }
  }

  lemma BuildMetadataNumbers(x: (nat, nat, nat), build: string)
    requires x.2 <= MAX_INT64
    ensures Numbers(Print(x.0, x.1, x.2) + "+" + build) == [Clamp(x.0), Clamp(x.1), 0]
  {
    hide Decimal, Atoi, Text.Split;
    var v := Print(x.0, x.1, x.2) + "+" + build;
    var rest := "+" + CoreOf(build);
    CoreAfter(Print(x.0, x.1, x.2) + "+", build);
    var patch := Decimal(x.2);
    assert CoreOf(v) == Decimal(x.0) + "." + (Decimal(x.1) + "." + (patch + rest));
    PrintParts(x.0, x.1, patch + rest);
    Text.SplitPrefix(patch, rest, '.');
    StaysUnreadable(CoreOf(build));
    UnreadablePatch(x.2, Text.Split(rest, '.')[0]);
    AtoiDecimal(x.0);
    AtoiDecimal(x.1);
  }

  lemma StaysUnreadable(s: string)
    ensures var first := Text.Split("+" + s, '.')[0]; first != "" && first[0] == '+'
  {
    Text.SplitPrefix("+", s, '.');
  }

  lemma CoreAfter(p: string, s: string)
    requires '-' !in p
    ensures CoreOf(p + s) == p + CoreOf(s)
  {
    if '-' in s {
      var b := Text.Before(s, '-');
      assert (p + s)[|p + b|] == '-';
      var c := Text.Before(p + s, '-');
      assert c == (p + s)[..|c|] && p + b == (p + s)[..|p + b|];
    }
  }

  lemma UnreadablePatch(n: nat, rest: string)
    requires n <= MAX_INT64 && rest != "" && rest[0] == '+'
    ensures Atoi(Decimal(n) + rest) == 0
  {
    var s := Decimal(n) + rest;
    DecimalValue(n);
    ParseDigits(Decimal(n), rest, 0);
    assert s[0] == Decimal(n)[0] && Decimal(n)[0] in Decimal(n);
  }

  // ----- when build metadata does no harm -----

  lemma {:induction false} NoLeadingZero(n: nat)
    requires n > 0
    ensures '0' < Decimal(n)[0]
  {
    if n >= 10 { NoLeadingZero(n / 10); }
  }

  // What may follow the three numbers of a valid version.
  predicate IsSuffix(s: string) { IsPreRelease(s) || HasBuild(s) }

  // Build metadata directly behind the numbers.
  predicate HasBuild(s: string) { s != "" && s[0] == '+' }

  lemma SuffixedNumbers(x: (nat, nat, nat), s: string)
    requires x.0 <= MAX_INT64 && x.1 <= MAX_INT64 && x.2 <= MAX_INT64 && IsSuffix(s)
    ensures Numbers(Print(x.0, x.1, x.2) + s) == [x.0, x.1, if HasBuild(s) then 0 else x.2]
  {
    hide Numbers, Print;
    if HasBuild(s) {
      BuildMetadataNumbers(x, s[1..]);
      assert s == "+" + s[1..];
      assert Print(x.0, x.1, x.2) + s == Print(x.0, x.1, x.2) + "+" + s[1..];
    } else {
      PrintedNumbers(x.0, x.1, x.2, s);
    }
  }

  lemma PatchCompares(x: (nat, nat, nat), y: (nat, nat, nat), sx: string, sy: string)
    requires x.0 == y.0 && x.1 == y.1
    ensures Text.Compare(Print(x.0, x.1, x.2) + sx, Print(y.0, y.1, y.2) + sy)
            == Text.Compare(Decimal(x.2) + sx, Decimal(y.2) + sy)
  {
    hide Decimal, Text.Compare;
    var p := Decimal(x.0) + "." + (Decimal(x.1) + ".");
    assert Print(x.0, x.1, x.2) + sx == p + (Decimal(x.2) + sx);
    assert Print(y.0, y.1, y.2) + sy == p + (Decimal(y.2) + sy);
    ComparePrefix(p, Decimal(x.2) + sx, Decimal(y.2) + sy);
  }

  lemma AfterZero(n: nat, sx: string, sy: string)
    requires n > 0
    ensures Text.Compare(Decimal(n) + sx, Decimal(0) + sy) == 1
  {
    hide Decimal;
    ZeroIsPrinted();
    NoLeadingZero(n);
    assert (Decimal(n) + sx)[0] == Decimal(n)[0];
  }

  // A plus sign comes before all digits, so what follows it does not matter.
  lemma {:induction false} CompareDigits(p: string, q: string, s: string, t: string)
    requires (forall c :: c in p ==> IsDigit(c)) && (forall c :: c in q ==> IsDigit(c)) && p != q
    requires HasBuild(s) && HasBuild(t)
    ensures Text.Compare(p + s, q + t) == Text.Compare(p, q)
    decreases |p|
  {
    if p == "" {
      assert (q + t)[0] == q[0] && q[0] in q;
    } else if q == "" {
      assert (p + s)[0] == p[0] && p[0] in p;
    } else if p[0] == q[0] {
      CompareDigits(p[1..], q[1..], s, t);
      assert p == [p[0]] + p[1..] && q == [q[0]] + q[1..];
      ComparePrefix([p[0]], p[1..], q[1..]);
      assert p + s == [p[0]] + (p[1..] + s) && q + t == [q[0]] + (q[1..] + t);
      ComparePrefix([p[0]], p[1..] + s, q[1..] + t);
    } else {
      assert (p + s)[0] == p[0] && (q + t)[0] == q[0];
    }
  }

  lemma ZeroIsPrinted()
    ensures Decimal(0) == "0"
  {
  }

  lemma LexicographicTriple(a: int, b: int, c: int, d: int, e: int, f: int)
    ensures Lexicographic([a, b, c], [d, e, f]) ==
            if a != d then (if a < d then -1 else 1)
            else if b != e then (if b < e then -1 else 1)
            else if c != f then (if c < f then -1 else 1) else 0
  {
    assert [a, b, c][1..] == [b, c] && [d, e, f][1..] == [e, f];
    assert [b, c][1..] == [c] && [e, f][1..] == [f];
    assert Lexicographic([c], [f]) == if c < f then -1 else if c > f then 1 else 0;
    assert Lexicographic([b, c], [e, f]) == if b < e then -1 else if b > e then 1 else Lexicographic([c], [f]);
  }

  // Where build metadata does not get in the way of the patch numbers: it hides
  // them, and if both versions have it they are compared as they are spelled.
  predicate PatchesTell(x: nat, y: nat, sx: string, sy: string) {
    if HasBuild(sx) && HasBuild(sy) then Text.Compare(Decimal(x), Decimal(y)) == if x < y then -1 else 1
    else if HasBuild(sx) then !(0 < y < x)
    else if HasBuild(sy) then !(0 < x < y)
    else true
  }

  // Valid versions with different triples below 2^63, with any pre-release and build
  // metadata, are ordered numerically exactly unless they have the same minor and
  // build metadata gets in the way of their patches.
  lemma BuildMetadataExactly(x: (nat, nat, nat), y: (nat, nat, nat), sx: string, sy: string)
    requires x.0 <= MAX_INT64 && x.1 <= MAX_INT64 && x.2 <= MAX_INT64
    requires y.0 <= MAX_INT64 && y.1 <= MAX_INT64 && y.2 <= MAX_INT64
    requires IsSuffix(sx) && IsSuffix(sy) && x != y
    ensures Order(Print(x.0, x.1, x.2) + sx, Print(y.0, y.1, y.2) + sy)
              == Lexicographic([x.0, x.1, x.2], [y.0, y.1, y.2])
            <==> (x.0 == y.0 && x.1 == y.1 ==> PatchesTell(x.2, y.2, sx, sy))
  {
    hide Numbers, Print, Lexicographic, Decimal, Text.Compare;
    SuffixedNumbers(x, sx);
    SuffixedNumbers(y, sy);
    LexicographicTriple(x.0, x.1, x.2, y.0, y.1, y.2);
    var u, v := (if HasBuild(sx) then 0 else x.2), (if HasBuild(sy) then 0 else y.2);
    LexicographicTriple(x.0, x.1, u, y.0, y.1, v);
    if x.0 == y.0 && x.1 == y.1 && u == v {
      PatchCompares(x, y, sx, sy);
      if HasBuild(sx) && HasBuild(sy) {
        DecimalsDiffer(x.2, y.2);
        CompareDigits(Decimal(x.2), Decimal(y.2), sx, sy);
      } else if HasBuild(sx) {
        AfterZero(x.2, sx, sy);
      } else {
        AfterZero(y.2, sy, sx);
        CompareOrder(Decimal(x.2) + sx, Decimal(y.2) + sy, "");
      }
    }
  }

  lemma DecimalsDiffer(n: nat, m: nat)
    requires n != m
    ensures Decimal(n) != Decimal(m)
  {
    DecimalValue(n);
    DecimalValue(m);
  }

  // Two builds: the patch numbers 2 and 10 are compared as they are spelled.
  lemma BuildTwoAfterTen()
    ensures Order("1.0.2+a", "1.0.10+b") == 1
  {
    hide Order;
    var x: (nat, nat, nat), y: (nat, nat, nat) := (1, 0, 2), (1, 0, 10);
    SmallDecimals();
    assert Print(1, 0, 2) + "+a" == "1.0.2+a";
    assert Print(1, 0, 10) + "+b" == "1.0.10+b";
    SuffixedNumbers(x, "+a");
    SuffixedNumbers(y, "+b");
    TiedOrder("1.0.2+a", "1.0.10+b");
    PatchCompares(x, y, "+a", "+b");
    assert ("2" + "+a")[0] == '2' && ("10" + "+b")[0] == '1';
  }

  lemma TiedOrder(v: string, w: string)
    requires Numbers(v) == Numbers(w)
    ensures Order(v, w) == Text.Compare(v, w)
  {
    LexicographicOrder(Numbers(v), Numbers(w), Numbers(w));
  }

  lemma SmallDecimals()
    ensures Decimal(0) == "0" && Decimal(1) == "1" && Decimal(2) == "2" && Decimal(10) == "10"
  {
    assert Decimal(10) == Decimal(1) + [Digit(0)];
  }

  // ----- what is not plain digits -----

  // A sign is read, and clamps at its own end of the range.
  lemma AtoiSigned(n: nat)
    ensures Atoi("+" + Decimal(n)) == if n <= 9223372036854775807 then n else 9223372036854775807
    ensures Atoi("-" + Decimal(n)) == if n <= 9223372036854775808 then 0 - n as int else -9223372036854775808
  {
    DecimalValue(n);
    ParseDigits(Decimal(n), "", 0);
    assert Decimal(n) + "" == Decimal(n);
    assert ("+" + Decimal(n))[1..] == Decimal(n) && ("-" + Decimal(n))[1..] == Decimal(n);
  }

  // Anything else, other than digits too many, reads as zero.
  lemma AtoiOther(n: nat, c: char, rest: string)
    requires !IsDigit(c) && n <= 18446744073709551615
    ensures Atoi(Decimal(n) + ([c] + rest)) == 0
    ensures c != '+' && c != '-' ==> Atoi([c] + rest) == 0
    ensures Atoi("") == 0
  {
    var s := Decimal(n) + ([c] + rest);
    DecimalValue(n);
    ParseDigits(Decimal(n), [c] + rest, 0);
    assert s[0] == Decimal(n)[0] && Decimal(n)[0] in Decimal(n);
  }

  // Of the parts between dots the first three count, and missing ones are zero.
  lemma NumbersAre(v: string)
    requires '-' !in v
    ensures var parts := Text.Split(v, '.');
            Numbers(v) == [Atoi(parts[0]), if |parts| > 1 then Atoi(parts[1]) else 0,
                           if |parts| > 2 then Atoi(parts[2]) else 0]
  {
    hide Atoi;
  }
}
