// String operations shared by every component: byte order, splitting, joining
// and trimming. A string is a sequence of Unicode code points, whose order is
// the order of the UTF-8 bytes that Go compares.
module Text {

  // ----- order -----

  predicate Less(a: string, b: string) {
    if b == "" then false
    else if a == "" then true
    else if a[0] != b[0] then a[0] < b[0]
    else Less(a[1..], b[1..])
  }

  lemma {:induction false} LessIrreflexive(a: string)
    ensures !Less(a, a)
  {
    if a != "" { LessIrreflexive(a[1..]); }
  }

  lemma {:induction false} LessTransitive(a: string, b: string, c: string)
    requires Less(a, b) && Less(b, c)
    ensures Less(a, c)
  {
    if a != "" && a[0] == b[0] == c[0] { LessTransitive(a[1..], b[1..], c[1..]); }
  }

  lemma {:induction false} LessTotal(a: string, b: string)
    ensures Less(a, b) || a == b || Less(b, a)
  {
    if a != "" && b != "" && a[0] == b[0] {
      LessTotal(a[1..], b[1..]);
      assert a == [a[0]] + a[1..] && b == [b[0]] + b[1..];
    }
  }

  // a and b agree up to n, where a ends or has the smaller character.
  ghost predicate Precedes(a: string, b: string, n: nat) {
    n <= |a| && n < |b| && a[..n] == b[..n] && (n == |a| || a[n] < b[n])
  }

  ghost predicate ComesBefore(a: string, b: string) { exists n: nat :: Precedes(a, b, n) }

  // The order is that of dictionaries, by code points.
  lemma {:induction false} LessByPosition(a: string, b: string)
    ensures Less(a, b) <==> ComesBefore(a, b)
  {
    if b != "" && a != "" {
      LessByPosition(a[1..], b[1..]);
      if a[0] == b[0] {
        if n: nat :| Precedes(a[1..], b[1..], n) {
          assert a[..n + 1] == [a[0]] + a[1..][..n] && b[..n + 1] == [b[0]] + b[1..][..n];
          assert Precedes(a, b, n + 1);
        }
        if n: nat :| Precedes(a, b, n) {
          assert n > 0;
          assert a[..n][1..] == a[1..][..n - 1] && b[..n][1..] == b[1..][..n - 1];
          assert Precedes(a[1..], b[1..], n - 1);
        }
      } else {
        if n: nat :| Precedes(a, b, n) {
          if n > 0 { SameStart(a, b, n); }
        }
        if a[0] < b[0] { assert Precedes(a, b, 0); }
      }
    } else if b != "" {
      assert Precedes(a, b, 0);
    }
  }

  lemma SameStart(a: string, b: string, n: nat)
    requires 0 < n <= |a| && n <= |b| && a[..n] == b[..n]
    ensures a[0] == b[0]
  {
    assert a[..n][0] == a[0];
  }

  // a comes before b, or is the same.
  ghost predicate InOrder(a: string, b: string) { a == b || ComesBefore(a, b) }

  lemma NotLess(a: string, b: string)
    ensures !Less(a, b) <==> InOrder(b, a)
  {
    LessByPosition(b, a);
    LessTotal(a, b);
    if a == b { LessIrreflexive(a); }
    if Less(a, b) && Less(b, a) {
      LessTransitive(a, b, a);
      LessIrreflexive(a);
    }
  }

  lemma CompareByPosition(a: string, b: string)
    ensures Compare(a, b) <= 0 <==> InOrder(a, b)
    ensures Compare(a, b) in {-1, 0, 1} && (Compare(a, b) == 0 <==> a == b)
    ensures Compare(a, b) == -1 <==> ComesBefore(a, b)
    ensures Compare(a, b) == 1 <==> ComesBefore(b, a)
  {
    LessByPosition(a, b);
    LessByPosition(b, a);
    LessTotal(a, b);
    if a == b { LessIrreflexive(a); }
    if Less(a, b) && Less(b, a) {
      LessTransitive(a, b, a);
      LessIrreflexive(a);
    }
  }

  // strings.Compare
  function Compare(a: string, b: string): int {
    if a == b then 0 else if Less(a, b) then -1 else 1
  }

  // ----- splitting and joining on one separator -----

  // strings.Split with a one-character separator.
  function Split(s: string, sep: char): (parts: seq<string>)
    ensures |parts| > 0
    ensures forall part :: part in parts ==> sep !in part
  {
    if s == "" then [""]
    else
      var rest := Split(s[1..], sep);
      if s[0] == sep then [""] + rest else [[s[0]] + rest[0]] + rest[1..]
  }

  function Join(parts: seq<string>, sep: char): string
    requires |parts| > 0
  {
    if |parts| == 1 then parts[0] else parts[0] + [sep] + Join(parts[1..], sep)
  }

  lemma {:induction false} JoinSplit(s: string, sep: char)
    ensures Join(Split(s, sep), sep) == s
  {
    if s != "" {
      var rest := Split(s[1..], sep);
      JoinSplit(s[1..], sep);
      if s[0] == sep {
        assert ([""] + rest)[1..] == rest;
      } else if |rest| > 1 {
        assert ([[s[0]] + rest[0]] + rest[1..])[1..] == rest[1..];
      }
    }
  }

  lemma {:induction false} JoinGrows(parts: seq<string>, all: seq<string>, sep: char)
    requires parts != [] && parts < all
    ensures |Join(parts, sep)| < |Join(all, sep)|
  {
    if |parts| > 1 {
      assert parts[1..] < all[1..];
      JoinGrows(parts[1..], all[1..], sep);
    }
  }

  lemma {:induction false} SplitPrefix(part: string, s: string, sep: char)
    requires sep !in part
    ensures Split(part + s, sep) == [part + Split(s, sep)[0]] + Split(s, sep)[1..]
  {
    if part == "" {
      assert part + s == s && part + Split(s, sep)[0] == Split(s, sep)[0];
    } else {
      assert (part + s)[1..] == part[1..] + s;
      SplitPrefix(part[1..], s, sep);
      assert [part[0]] + (part[1..] + Split(s, sep)[0]) == part + Split(s, sep)[0];
    }
  }

  lemma {:induction false} SplitOne(part: string, sep: char)
    requires sep !in part
    ensures Split(part, sep) == [part]
  {
    SplitPrefix(part, "", sep);
    assert part + "" == part;
  }

  lemma {:induction false} SplitCons(part: string, s: string, sep: char)
    requires sep !in part
    ensures Split(part + [sep] + s, sep) == [part] + Split(s, sep)
  {
    SplitPrefix(part, [sep] + s, sep);
    assert ([sep] + s)[1..] == s;
    assert part + [sep] + s == part + ([sep] + s);
    assert part + "" == part;
  }

  lemma {:induction false} SplitJoinFree(parts: seq<string>, sep: char)
    requires |parts| > 0
    requires forall part :: part in parts ==> sep !in part
    ensures Split(Join(parts, sep), sep) == parts
  {
    if |parts| == 1 {
      SplitOne(parts[0], sep);
    } else {
      SplitCons(parts[0], Join(parts[1..], sep), sep);
      SplitJoinFree(parts[1..], sep);
    }
  }

  // The text before the first c: strings.SplitN(s, c, 2)[0].
  function Before(s: string, c: char): (r: string)
    requires c in s
    ensures |r| < |s| && r == s[..|r|] && s[|r|] == c && c !in r
  {
    if s[0] == c then "" else [s[0]] + Before(s[1..], c)
  }

  // ----- white space, case and size -----

  // unicode.IsSpace
  predicate IsSpace(c: char) {
    || '\t' <= c <= '\r' || c == ' ' || c == '\U{85}' || c == '\U{A0}' || c == '\U{1680}'
    || '\U{2000}' <= c <= '\U{200A}' || c == '\U{2028}' || c == '\U{2029}' || c == '\U{202F}'
    || c == '\U{205F}' || c == '\U{3000}'
  }

  function TrimLeft(s: string): (r: string)
    ensures r != "" ==> !IsSpace(r[0])
    ensures s != "" && !IsSpace(s[|s| - 1]) ==> r != "" && r[|r| - 1] == s[|s| - 1]
    ensures forall c :: c in r ==> c in s
  {
    if s != "" && IsSpace(s[0]) then TrimLeft(s[1..]) else s
  }

  function TrimRight(s: string): (r: string)
    ensures r <= s
    ensures r != "" ==> !IsSpace(r[|r| - 1])
  {
    if s != "" && IsSpace(s[|s| - 1]) then TrimRight(s[..|s| - 1]) else s
  }

  // Neither end is white space.
  predicate IsTrimmed(s: string) { s == "" || (!IsSpace(s[0]) && !IsSpace(s[|s| - 1])) }

  // strings.TrimSpace
  function TrimSpace(s: string): (r: string)
    ensures IsTrimmed(r) && (IsTrimmed(s) ==> r == s)
    ensures forall c :: c in r ==> c in s
  {
    TrimLeft(TrimRight(s))
  }

  lemma {:induction false} TrimLeftKeeps(s: string, c: char)
    requires c in s && !IsSpace(c)
    ensures c in TrimLeft(s)
  {
    if IsSpace(s[0]) { TrimLeftKeeps(s[1..], c); }
  }

  lemma {:induction false} TrimRightKeeps(s: string, c: char)
    requires c in s && !IsSpace(c)
    ensures c in TrimRight(s)
  {
    var n := |s| - 1;
    if IsSpace(s[n]) {
      assert s == s[..n] + [s[n]];
      TrimRightKeeps(s[..n], c);
    }
  }

  // What trims to nothing is white space throughout.
  lemma BlankIsSpace(s: string)
    requires TrimSpace(s) == ""
    ensures forall c :: c in s ==> IsSpace(c)
  {
    forall c | c in s ensures IsSpace(c) {
      if !IsSpace(c) {
        TrimRightKeeps(s, c);
        TrimLeftKeeps(TrimRight(s), c);
      }
    }
  }

  // unicode.ToLower, as far as it yields ASCII: besides A to Z the Kelvin sign and
  // the dotted capital I have lower-case forms there. Other letters are kept.
  function LowerChar(c: char): char {
    if 'A' <= c <= 'Z' then (c as int + 32) as char
    else if c == '\U{212A}' then 'k'
    else if c == '\U{130}' then 'i'
    else c
  }

  function Lower(s: string): (r: string)
    ensures |r| == |s| && forall i :: 0 <= i < |s| ==> r[i] == LowerChar(s[i])
  {
    seq(|s|, i requires 0 <= i < |s| => LowerChar(s[i]))
  }

  // Simple case folding, as far as it yields ASCII: besides A to Z the Kelvin sign
  // and the long s fold there. Other letters are kept.
  function FoldChar(c: char): char {
    if 'A' <= c <= 'Z' then (c as int + 32) as char
    else if c == '\U{212A}' then 'k'
    else if c == '\U{17F}' then 's'
    else c
  }

  // strings.EqualFold where one side is ASCII.
  predicate EqualFold(a: string, b: string) {
    |a| == |b| && forall i :: 0 <= i < |a| ==> FoldChar(a[i]) == FoldChar(b[i])
  }

  predicate IsAscii(s: string) { forall i :: 0 <= i < |s| ==> s[i] < '\U{80}' }

  // Lower case and case folding of all letters. They are given; what Go's tables say
  // of ASCII and of white space is IsGoCasing.
  datatype Casing = Casing(lower: char -> char, fold: char -> char)

  ghost predicate IsGoCasing(casing: Casing) {
    && (forall c :: casing.lower(c) < '\U{80}' || LowerChar(c) < '\U{80}' ==> casing.lower(c) == LowerChar(c))
    && (forall c :: casing.fold(c) < '\U{80}' || FoldChar(c) < '\U{80}' ==> casing.fold(c) == FoldChar(c))
    && (forall c :: IsSpace(c) || IsSpace(casing.fold(c)) ==> casing.fold(c) == c)
  }

  function LowerAll(casing: Casing, s: string): (r: string)
    ensures |r| == |s| && forall i :: 0 <= i < |s| ==> r[i] == casing.lower(s[i])
  {
    seq(|s|, i requires 0 <= i < |s| => casing.lower(s[i]))
  }

  predicate FoldsTo(casing: Casing, a: string, b: string) {
    |a| == |b| && forall i :: 0 <= i < |a| ==> casing.fold(a[i]) == casing.fold(b[i])
  }

  // len: the number of bytes in UTF-8.
  function ByteLength(s: string): nat {
    if s == "" then 0
    else
      var c := s[0];
      (if c < '\U{80}' then 1 else if c < '\U{800}' then 2 else if c < '\U{10000}' then 3 else 4) + ByteLength(s[1..])
  }

  lemma {:induction false} Short(s: string)
    ensures ByteLength(s) <= 4 * |s|
  {
    if s != "" { Short(s[1..]); }
  }

  lemma {:induction false} AsciiLength(s: string)
    ensures |s| <= ByteLength(s) && (IsAscii(s) <==> ByteLength(s) == |s|)
  {
    if s != "" {
      AsciiLength(s[1..]);
      if IsAscii(s[1..]) && s[0] < '\U{80}' {
        assert forall i :: 0 < i < |s| ==> s[i] == s[1..][i - 1];
      }
      if IsAscii(s) { assert forall i :: 0 <= i < |s[1..]| ==> s[1..][i] == s[i + 1]; }
    }
  }

  lemma {:induction false} ByteLengthConcat(s: string, t: string)
    ensures ByteLength(s + t) == ByteLength(s) + ByteLength(t)
  {
    if s == "" {
      assert s + t == t;
    } else {
      assert (s + t)[1..] == s[1..] + t;
      ByteLengthConcat(s[1..], t);
    }
  }

  // ----- the tables, spelled out -----

  const WHITE_SPACE := "\t\n\U{B}\U{C}\r \U{85}\U{A0}\U{1680}"
      + "\U{2000}\U{2001}\U{2002}\U{2003}\U{2004}\U{2005}\U{2006}"
                       + "\U{2007}\U{2008}\U{2009}\U{200A}\U{2028}\U{2029}\U{202F}\U{205F}\U{3000}"

  lemma SpacesAre(c: char)
    ensures IsSpace(c) <==> c in WHITE_SPACE
  {
  }

  // Trimming takes white space off both ends and nothing else.
  lemma TrimSpaceExactly(s: string)
    ensures exists p, q :: s == p + TrimSpace(s) + q && (forall c :: c in p + q ==> c in WHITE_SPACE)
    ensures TrimSpace(s) != "" ==>
              TrimSpace(s)[0] !in WHITE_SPACE && TrimSpace(s)[|TrimSpace(s)| - 1] !in WHITE_SPACE
  {
    hide IsSpace;
    var p := TrimmedLeft(TrimRight(s));
    var q := TrimmedRight(s);
    assert s == p + TrimSpace(s) + q;
    forall c ensures IsSpace(c) <==> c in WHITE_SPACE { SpacesAre(c); }
  }

  lemma Trimmed(s: string) returns (p: string, q: string)
    ensures s == p + TrimSpace(s) + q && forall c :: c in p + q ==> IsSpace(c)
  {
    hide IsSpace;
    p := TrimmedLeft(TrimRight(s));
    q := TrimmedRight(s);
  }

  // What is trimmed of a text is what its white space surrounds.
  lemma TrimsTo(p: string, x: string, q: string)
    requires (forall c :: c in p + q ==> IsSpace(c)) && IsTrimmed(x)
    ensures x != "" ==> TrimSpace(p + x + q) == x
    ensures x == "" ==> TrimSpace(p + x + q) == ""
  {
    hide IsSpace;
    if x != "" {
      TrimRightTo(p + x, q);
      TrimLeftTo(p, x);
    } else {
      var r := TrimSpace(p + x + q);
      assert forall c :: c in p + x + q ==> c in p + q;
    }
  }

  lemma {:induction false} TrimRightTo(s: string, q: string)
    requires s != "" && !IsSpace(s[|s| - 1]) && forall c :: c in q ==> IsSpace(c)
    ensures TrimRight(s + q) == s
    decreases |q|
  {
    if q == "" {
      assert s + q == s;
    } else {
      assert (s + q)[..|s + q| - 1] == s + q[..|q| - 1];
      TrimRightTo(s, q[..|q| - 1]);
    }
  }

  lemma {:induction false} TrimLeftTo(p: string, x: string)
    requires x != "" && !IsSpace(x[0]) && forall c :: c in p ==> IsSpace(c)
    ensures TrimLeft(p + x) == x
    decreases |p|
  {
    if p == "" {
      assert p + x == x;
    } else {
      assert (p + x)[1..] == p[1..] + x;
      TrimLeftTo(p[1..], x);
    }
  }

  lemma {:induction false} TrimmedLeft(s: string) returns (p: string)
    ensures s == p + TrimLeft(s) && forall c :: c in p ==> IsSpace(c)
  {
    if s != "" && IsSpace(s[0]) {
      p := TrimmedLeft(s[1..]);
      p := [s[0]] + p;
    } else {
      p := "";
    }
  }

  lemma {:induction false} TrimmedRight(s: string) returns (q: string)
    ensures s == TrimRight(s) + q && forall c :: c in q ==> IsSpace(c)
  {
    if s != "" && IsSpace(s[|s| - 1]) {
      q := TrimmedRight(s[..|s| - 1]);
      q := q + [s[|s| - 1]];
    } else {
      q := "";
    }
  }

  const UPPER_CASE := "ABCDEFGHIJKLMNOPQRSTUVWXYZ"
  const LOWER_CASE := "abcdefghijklmnopqrstuvwxyz"

  const DIGITS := "0123456789"

  lemma LowerCaseAre(c: char)
    ensures c in LOWER_CASE <==> 'a' <= c <= 'z'
  {
    assert forall i :: 0 <= i < 26 ==> LOWER_CASE[i] as int == 'a' as int + i;
    if 'a' <= c <= 'z' { assert LOWER_CASE[c as int - 'a' as int] == c; }
  }

  lemma UpperCaseAre(c: char)
    ensures c in UPPER_CASE <==> 'A' <= c <= 'Z'
  {
    assert forall i :: 0 <= i < 26 ==> UPPER_CASE[i] as int == 'A' as int + i;
    if 'A' <= c <= 'Z' { assert UPPER_CASE[c as int - 'A' as int] == c; }
  }

  lemma DigitsAre(c: char)
    ensures c in DIGITS <==> '0' <= c <= '9'
  {
    assert forall i :: 0 <= i < 10 ==> DIGITS[i] as int == '0' as int + i;
    if '0' <= c <= '9' { assert DIGITS[c as int - '0' as int] == c; }
  }

  // Lower-casing and folding pair the letters of the alphabet, treat the Kelvin
  // sign, the dotted capital I and the long s as Unicode does, and keep the rest.
  lemma CasesAre(c: char)
    ensures forall i :: 0 <= i < 26 && c == UPPER_CASE[i] ==> LowerChar(c) == FoldChar(c) == LOWER_CASE[i]
    ensures c == '\U{212A}' ==> LowerChar(c) == FoldChar(c) == 'k'
    ensures c == '\U{130}' ==> LowerChar(c) == 'i' && FoldChar(c) == c
    ensures c == '\U{17F}' ==> LowerChar(c) == c && FoldChar(c) == 's'
    ensures c !in UPPER_CASE && c !in "\U{212A}\U{130}\U{17F}" ==> LowerChar(c) == c && FoldChar(c) == c
  {
    assert forall i :: 0 <= i < 26 ==> UPPER_CASE[i] as int == 'A' as int + i && LOWER_CASE[i] as int == 'a' as int + i;
    if 'A' <= c <= 'Z' { assert UPPER_CASE[c as int - 'A' as int] == c; }
  }

  // A character takes one byte below 2^7, two below 2^11, three below 2^16, else four.
  lemma BytesAre(c: char)
    ensures var n := ByteLength([c]);
            && 1 <= n <= 4 && (n == 1 <==> (c as int) / 128 == 0)
            && (n <= 2 <==> (c as int) / 2048 == 0) && (n <= 3 <==> (c as int) / 65536 == 0)
  {
    assert [c][1..] == "";
  }
}
