// Secret redaction of strings, internal/evidence/evidence.go: the two regular
// expressions as matchers over code points, the bearer-token replacement and
// the cut at the first equals sign.
module Redaction {
  import opened Text

  const REDACTED := "[REDACTED]"

  // ----- (?i): simple case folding of a lower-case letter -----

  predicate Folds(c: char, letter: char) {
    || c == letter
    || ('a' <= letter <= 'z' && 'A' <= c <= 'Z' && (c as int) + 32 == letter as int)
    || (letter == 's' && c == '\U{17F}')
    || (letter == 'k' && c == '\U{212A}')
  }

  predicate WordAt(s: string, i: nat, word: string) {
    i + |word| <= |s| && forall k :: 0 <= k < |word| ==> Folds(s[i + k], word[k])
  }

  // head.?tail
  predicate GapAt(s: string, i: nat, head: string, tail: string) {
    && WordAt(s, i, head)
    && (|| WordAt(s, i + |head|, tail)
        || (i + |head| < |s| && s[i + |head|] != '\n' && WordAt(s, i + |head| + 1, tail)))
  }

  // sensitiveKey.MatchString
  predicate Sensitive(s: string) {
    exists i :: 0 <= i < |s| &&
      (|| WordAt(s, i, "authorization") || WordAt(s, i, "password") || WordAt(s, i, "passwd")
       || WordAt(s, i, "secret") || WordAt(s, i, "token") || GapAt(s, i, "api", "key")
       || GapAt(s, i, "access", "key") || GapAt(s, i, "private", "key") || GapAt(s, i, "client", "secret")
       || WordAt(s, i, "credential") || WordAt(s, i, "cookie"))
  }

  // ----- (?i)\b(bearer|basic)\s+[A-Za-z0-9._~+/=-]+ -----

  predicate IsWordChar(c: char) {
    'a' <= c <= 'z' || 'A' <= c <= 'Z' || '0' <= c <= '9' || c == '_'
  }

  predicate IsBlank(c: char) {
    c == ' ' || c == '\t' || c == '\n' || c == '\r' || c == '\U{C}'
  }

  predicate IsTokenChar(c: char) {
    || IsWordChar(c) || c == '.' || c == '~' || c == '+' || c == '/' || c == '=' || c == '-'
    || c == '\U{17F}' || c == '\U{212A}'
  }

  // The length of the scheme word that starts s, 0 if there is none.
  function Scheme(s: string): (n: nat)
    ensures n <= |s|
  {
    if WordAt(s, 0, "bearer") then 6 else if WordAt(s, 0, "basic") then 5 else 0
  }

  function Span(s: string, p: char -> bool): (n: nat)
    ensures n <= |s| && (forall k :: 0 <= k < n ==> p(s[k])) && (n < |s| ==> !p(s[n]))
  {
    if s == "" || !p(s[0]) then 0 else 1 + Span(s[1..], p)
  }

  // The length of the longest match that starts s, 0 if there is none.
  function MatchLength(s: string): (n: nat)
    ensures n <= |s|
    ensures n > 0 ==> n > Scheme(s) > 0
  {
    var w := Scheme(s);
    var spaces := Span(s[w..], IsBlank);
    var token := Span(s[w + spaces..], IsTokenChar);
    if w > 0 && spaces > 0 && token > 0 then w + spaces + token else 0
  }

  // bearerValue.ReplaceAllString(s, "$1 [REDACTED]"), scanning from the left;
  // word tells whether the character before s is a word character.
  function Replace(word: bool, s: string): string
    decreases |s|
  {
    var n := MatchLength(s);
    if s == "" then ""
    else if !word && n > 0 then s[..Scheme(s)] + " " + REDACTED + Replace(IsWordChar(s[n - 1]), s[n..])
    else [s[0]] + Replace(IsWordChar(s[0]), s[1..])
  }

  function RedactString(value: string): string {
    var v := Replace(false, value);
    if Sensitive(v) && '=' in v then Before(v, '=') + "=" + REDACTED else v
  }

  // ----- what it is for a string to carry a credential -----

  // A scheme word at i, white space from j to k, a token character at k.
  predicate Spells(s: string, i: nat, j: nat, k: nat) {
    && i < j < k < |s|
    && ((WordAt(s, i, "bearer") && j == i + 6) || (WordAt(s, i, "basic") && j == i + 5))
    && (forall m :: j <= m < k ==> IsBlank(s[m]))
    && IsTokenChar(s[k])
  }

  ghost predicate CredentialAt(word: bool, s: string, i: nat) {
    && (if i == 0 then !word else i <= |s| && !IsWordChar(s[i - 1]))
    && exists j: nat, k: nat :: Spells(s, i, j, k)
  }

  // s carries no credential, when it follows a word character or not.
  ghost predicate CleanAfter(word: bool, s: string) {
    forall i: nat :: !CredentialAt(word, s, i)
  }

  ghost predicate Clean(s: string) { CleanAfter(false, s) }

  lemma SchemeLetter(s: string, w: nat, i: nat)
    requires (WordAt(s, 0, "bearer") && w == 6) || (WordAt(s, 0, "basic") && w == 5)
    requires 0 < i < w
    ensures s[i] != 'b' && s[i] != 'B'
    ensures i == 1 ==> (w == 6 <==> Folds(s[i], 'e')) && (w == 5 <==> Folds(s[i], 'a'))
  {
    if WordAt(s, 0, "bearer") && w == 6 {
      assert Folds(s[0 + i], "bearer"[i]);
    } else {
      assert Folds(s[0 + i], "basic"[i]);
    }
  }

  lemma MatchSpells(s: string)
    ensures MatchLength(s) > 0 <==> exists j: nat, k: nat :: Spells(s, 0, j, k)
  {
    var w := Scheme(s);
    var spaces := Span(s[w..], IsBlank);
    if MatchLength(s) > 0 {
      assert forall m :: w <= m < w + spaces ==> s[m] == s[w..][m - w];
      assert Spells(s, 0, w, w + spaces);
    }
    if j: nat, k: nat :| Spells(s, 0, j, k) {
      SchemeLetter(s, w, 1);
      SchemeLetter(s, j, 1);
      assert forall m :: 0 <= m < k - w ==> s[w..][m] == s[w + m];
      assert spaces == k - w;
      assert s[w + spaces..][0] == s[k];
    }
  }

  // ----- the replacement leaves no credential -----

  // How long the output agrees with the input: up to the end of the first
  // replaced scheme word.
  ghost function Agreement(word: bool, s: string): (m: nat)
    ensures m <= |s|
    decreases |s|
  {
    if s == "" then 0
    else if !word && MatchLength(s) > 0 then Scheme(s)
    else 1 + Agreement(IsWordChar(s[0]), s[1..])
  }

  ghost predicate AgreeTo(u: string, s: string, m: nat) {
    m <= |u| && m <= |s| && forall n :: 0 <= n < m ==> u[n] == s[n]
  }

  lemma AgreeCons(c: char, u: string, s: string, m: nat)
    requires AgreeTo(u, s, m)
    ensures AgreeTo([c] + u, [c] + s, m + 1)
  {
  }

  // u goes on with a redaction after the first m characters.
  ghost predicate RedactsAt(u: string, m: nat) {
    m + 1 < |u| && u[m] == ' ' && u[m + 1] == '['
  }

  lemma RedactedInPlace(x: string, y: string)
    ensures RedactsAt(x + " " + REDACTED + y, |x|) && AgreeTo(x + " " + REDACTED + y, x, |x|)
  {
  }

  ghost predicate Agreed(u: string, s: string, m: nat) {
    AgreeTo(u, s, m) && if m == |s| then u == s else RedactsAt(u, m)
  }

  lemma AgreedCons(c: char, u: string, s: string, m: nat)
    requires Agreed(u, s, m)
    ensures Agreed([c] + u, [c] + s, m + 1)
  {
    AgreeCons(c, u, s, m);
  }

  lemma {:induction false} Agrees(word: bool, s: string)
    ensures Agreed(Replace(word, s), s, Agreement(word, s))
    decreases |s|
  {
    hide MatchLength, Scheme, WordAt, Span, Agreed;
    if s == "" {
      NothingAgrees();
    } else if !word && MatchLength(s) > 0 {
      AgreesToMatch(s);
    } else {
      var last, rest := IsWordChar(s[0]), s[1..];
      Agrees(last, rest);
      AgreedCons(s[0], Replace(last, rest), rest, Agreement(last, rest));
      assert s == [s[0]] + rest;
    }
  }

  lemma NothingAgrees()
    ensures Agreed("", "", 0)
  {
  }

  lemma AgreesToMatch(s: string)
    requires MatchLength(s) > 0
    ensures Agreed(Replace(false, s), s, Scheme(s))
  {
    hide MatchLength, Scheme, WordAt, Span;
    var w, n := Scheme(s), MatchLength(s);
    RedactedInPlace(s[..w], Replace(IsWordChar(s[n - 1]), s[n..]));
  }

  lemma SameSpelling(t: string, s: string, i: nat, j: nat, k: nat)
    requires Spells(t, i, j, k) && AgreeTo(t, s, k + 1)
    ensures Spells(s, i, j, k)
  {
  }

  // What a credential needs lies in the agreeing part, so none appears.
  lemma NoNewCredential(c: char, word: bool, s: string, j: nat, k: nat)
    requires Spells([c] + Replace(word, s), 0, j, k)
    ensures Spells([c] + s, 0, j, k)
  {
    var u, m := Replace(word, s), Agreement(word, s);
    Agrees(word, s);
    AgreeCons(c, u, s, m);
    if m < |s| {
      NoCredentialAcross([c] + u, m + 1, j, k);
    }
    SameSpelling([c] + u, [c] + s, 0, j, k);
  }

  // A credential from the start of t ends before a redaction.
  lemma NoCredentialAcross(t: string, m: nat, j: nat, k: nat)
    requires RedactsAt(t, m) && Spells(t, 0, j, k)
    ensures k < m
  {
    SchemeHasNoSpace(t, j);
  }

  lemma SchemeHasNoSpace(t: string, j: nat)
    requires j <= |t|
    requires (WordAt(t, 0, "bearer") && j == 6) || (WordAt(t, 0, "basic") && j == 5)
    ensures forall n :: 0 <= n < j ==> t[n] != ' '
  {
    forall n | 0 <= n < j ensures t[n] != ' ' {
      if WordAt(t, 0, "bearer") && j == 6 {
        assert Folds(t[0 + n], "bearer"[n]);
      } else {
        assert Folds(t[0 + n], "basic"[n]);
      }
    }
  }

  // A credential starts with the letter b and nothing else.
  lemma CredentialStartsWithB(s: string, i: nat, j: nat, k: nat)
    requires Spells(s, i, j, k)
    ensures s[i] == 'b' || s[i] == 'B'
  {
    if WordAt(s, i, "bearer") { assert Folds(s[i + 0], "bearer"[0]); } else { assert Folds(s[i + 0], "basic"[0]); }
  }

  lemma WordShift(p: string, s: string, i: nat, word: string)
    ensures WordAt(p + s, |p| + i, word) <==> WordAt(s, i, word)
  {
    if i + |word| <= |s| {
      forall k | 0 <= k < |word| ensures Folds((p + s)[|p| + i + k], word[k]) <==> Folds(s[i + k], word[k]) {
        assert (p + s)[|p| + i + k] == s[i + k];
      }
    }
  }

  lemma SpellsShift(p: string, s: string, i: nat, j: nat, k: nat)
    ensures Spells(p + s, |p| + i, |p| + j, |p| + k) <==> Spells(s, i, j, k)
  {
    WordShift(p, s, i, "bearer");
    WordShift(p, s, i, "basic");
    if i < j < k < |s| {
      forall m | j <= m < k ensures IsBlank((p + s)[|p| + m]) <==> IsBlank(s[m]) {
      }
      if forall m :: |p| + j <= m < |p| + k ==> IsBlank((p + s)[m]) {
        forall m | j <= m < k ensures IsBlank(s[m]) { assert IsBlank((p + s)[|p| + m]); }
      }
      if forall m :: j <= m < k ==> IsBlank(s[m]) {
        forall m | |p| + j <= m < |p| + k ensures IsBlank((p + s)[m]) { assert IsBlank(s[m - |p|]); }
      }
    }
  }

  // A text in which no credential starts, in front of clean text.
  lemma CleanConcat(word: bool, p: string, s: string)
    requires p != ""
    requires forall i: nat :: i < |p| ==> !CredentialAt(word, p + s, i)
    requires CleanAfter(IsWordChar(p[|p| - 1]), s)
    ensures CleanAfter(word, p + s)
  {
    forall i: nat | i >= |p| ensures !CredentialAt(word, p + s, i) {
      var n: nat := i - |p|;
      assert !CredentialAt(IsWordChar(p[|p| - 1]), s, n);
      forall j: nat, k: nat | Spells(p + s, i, j, k) ensures j >= |p| && k >= |p| && Spells(s, n, j - |p|, k - |p|) {
        SpellsShift(p, s, n, j - |p|, k - |p|);
      }
      assert 0 < n <= |s| ==> (p + s)[i - 1] == s[n - 1];
    }
  }

  lemma {:induction false} ReplaceClean(word: bool, s: string)
    ensures CleanAfter(word, Replace(word, s))
    decreases |s|
  {
    hide MatchLength, Scheme, WordAt, Span;
    var n := MatchLength(s);
    if s == "" {
    } else if !word && n > 0 {
      var w, rest := Scheme(s), s[n..];
      var last := IsWordChar(s[n - 1]);
      var tail := Replace(last, rest);
      var head := s[..w] + " " + REDACTED;
      ReplaceClean(last, rest);
      assert CleanAfter(false, tail) by { TailIsClean(s); }
      HeadIsClean(s, tail);
      CleanConcat(word, head, tail);
      assert Replace(word, s) == head + tail;
    } else {
      var rest := Replace(IsWordChar(s[0]), s[1..]);
      ReplaceClean(IsWordChar(s[0]), s[1..]);
      if CredentialAt(word, [s[0]] + rest, 0) {
        var j: nat, k: nat :| Spells([s[0]] + rest, 0, j, k);
        NoNewCredential(s[0], IsWordChar(s[0]), s[1..], j, k);
        assert [s[0]] + s[1..] == s;
        MatchSpells(s);
      }
      CleanConcat(word, [s[0]], rest);
    }
  }

  // The text after a match does not start with a token character, so it makes
  // no difference what it follows.
  lemma TailIsClean(s: string)
    requires MatchLength(s) > 0
    requires CleanAfter(IsWordChar(s[MatchLength(s) - 1]),
             Replace(IsWordChar(s[MatchLength(s) - 1]), s[MatchLength(s)..]))
    ensures CleanAfter(false, Replace(IsWordChar(s[MatchLength(s) - 1]), s[MatchLength(s)..]))
  {
    var n := MatchLength(s);
    var last, rest := IsWordChar(s[n - 1]), s[n..];
    var tail := Replace(last, rest);
    forall i: nat ensures !CredentialAt(false, tail, i) {
      assert !CredentialAt(last, tail, i);
      if i == 0 {
        if j: nat, k: nat :| Spells(tail, 0, j, k) {
          CredentialStartsWithB(tail, 0, j, k);
          AfterMatch(s);
          assert tail[0] == rest[0] by { var m := Agreement(last, rest); FirstCharacterStays(last, rest); }
        }
      }
    }
  }

  lemma AfterMatch(s: string)
    requires MatchLength(s) > 0
    ensures MatchLength(s) < |s| ==> !IsTokenChar(s[MatchLength(s)])
  {
    var w := Scheme(s);
    var spaces := Span(s[w..], IsBlank);
    var token := Span(s[w + spaces..], IsTokenChar);
    if MatchLength(s) < |s| {
      assert s[w + spaces..][token] == s[MatchLength(s)];
    }
  }

  lemma FirstCharacterStays(word: bool, s: string)
    requires s != ""
    ensures Replace(word, s) != "" && Replace(word, s)[0] == s[0]
  {
    if !word && MatchLength(s) > 0 { assert Scheme(s) > 0; }
  }

  // No credential starts within a replaced match.
  lemma HeadIsClean(s: string, tail: string)
    requires MatchLength(s) > 0
    ensures var head := s[..Scheme(s)] + " " + REDACTED;
            forall i: nat :: i < |head| ==> !CredentialAt(false, head + tail, i)
  {
    hide MatchLength, Span, WordAt, Spells;
    var w := Scheme(s);
    var head := s[..w] + " " + REDACTED;
    var t := head + tail;
    assert forall m :: 0 <= m < |head| ==> t[m] == head[m];
    forall i: nat | i < |head| ensures !CredentialAt(false, t, i) {
      if j: nat, k: nat :| Spells(t, i, j, k) {
        CredentialStartsWithB(t, i, j, k);
        if i == 0 {
          NotOverMark(s, t, j, k);
        } else {
          NotWithinHead(s, i);
        }
      }
    }
  }

  // The mark behind the scheme word is no token.
  lemma NotOverMark(s: string, t: string, j: nat, k: nat)
    requires MatchLength(s) > 0 && (s[..Scheme(s)] + " " + REDACTED) <= t
    ensures !Spells(t, 0, j, k)
  {
    hide MatchLength, Span;
    var w := Scheme(s);
    var head := s[..w] + " " + REDACTED;
    assert t[w] == head[w] == ' ' && t[w + 1] == head[w + 1] == '[';
    assert RedactsAt(t, w);
    if Spells(t, 0, j, k) { NoCredentialAcross(t, w, j, k); SchemeThenNothing(s, t, w, j, k); }
  }

  lemma SchemeThenNothing(s: string, t: string, w: nat, j: nat, k: nat)
    requires w == Scheme(s) > 0 && w <= |t| && s[..w] == t[..w] && Spells(t, 0, j, k)
    ensures k >= w
  {
    assert s[0] == t[0] && s[1] == t[1] by { assert s[..w][0] == t[..w][0] && s[..w][1] == t[..w][1]; }
    SchemeLetter(s, w, 1);
    SchemeLetter(t, j, 1);
  }

  lemma NotWithinHead(s: string, i: nat)
    requires MatchLength(s) > 0
    requires 0 < i < Scheme(s) + 1 + |REDACTED|
    ensures var head := s[..Scheme(s)] + " " + REDACTED; head[i] != 'b' && head[i] != 'B'
  {
    hide MatchLength, Span;
    if i < Scheme(s) { SchemeLetter(s, Scheme(s), i); }
  }

  // ----- redacting is idempotent -----

  // The replacement changes a string exactly when it carries a credential.
  lemma {:induction false} ReplaceFixes(word: bool, s: string)
    requires CleanAfter(word, s)
    ensures Replace(word, s) == s
    decreases |s|
  {
    hide MatchLength, Scheme, WordAt, Span;
    if s != "" {
      assert !CredentialAt(word, s, 0);
      MatchSpells(s);
      CleanSuffix(word, s);
      ReplaceFixes(IsWordChar(s[0]), s[1..]);
    }
  }

  lemma CleanSuffix(word: bool, s: string)
    requires s != "" && CleanAfter(word, s)
    ensures CleanAfter(IsWordChar(s[0]), s[1..])
  {
    forall i: nat ensures !CredentialAt(IsWordChar(s[0]), s[1..], i) {
      assert !CredentialAt(word, s, i + 1);
      assert [s[0]] + s[1..] == s;
      forall j: nat, k: nat | Spells(s[1..], i, j, k) ensures Spells(s, i + 1, j + 1, k + 1) {
        SpellsShift([s[0]], s[1..], i, j, k);
      }
    }
  }

  // A credential spans no bracket, and no equals sign before its token.
  lemma CredentialAlphabet(t: string, i: nat, j: nat, k: nat, m: nat)
    requires Spells(t, i, j, k) && i <= m <= k
    ensures t[m] != '[' && (m < k ==> t[m] != '=')
  {
    if m < j {
      if WordAt(t, i, "bearer") && j == i + 6 {
        assert Folds(t[i + (m - i)], "bearer"[m - i]);
      } else {
        assert Folds(t[i + (m - i)], "basic"[m - i]);
      }
    }
  }

  lemma CutIsClean(v: string)
    requires Clean(v) && '=' in v
    ensures Clean(Before(v, '=') + "=" + REDACTED)
  {
    var n := |Before(v, '=')|;
    var o := Before(v, '=') + "=" + REDACTED;
    assert AgreeTo(o, v, n + 1);
    forall i: nat ensures !CredentialAt(false, o, i) {
      assert !CredentialAt(false, v, i);
      if j: nat, k: nat :| Spells(o, i, j, k) {
        CredentialStartsWithB(o, i, j, k);
        assert forall m :: n < m < |o| ==> o[m] == REDACTED[m - n - 1];
        assert i <= n;
        if k > n { CredentialAlphabet(o, i, j, k, n + 1); }
        SameSpelling(o, v, i, j, k);
        assert i > 0 ==> o[i - 1] == v[i - 1];
      }
    }
  }

  lemma RedactedIsClean(value: string)
    ensures Clean(RedactString(value))
  {
    var v := Replace(false, value);
    ReplaceClean(false, value);
    if Sensitive(v) && '=' in v { CutIsClean(v); }
  }

  // A redacted string: no credential, and nothing but the mark after the first
  // equals sign of a string that names a secret.
  ghost predicate Redacted(s: string) {
    Clean(s) && (Sensitive(s) && '=' in s ==> s == Before(s, '=') + "=" + REDACTED)
  }

  lemma BeforeOfCut(v: string)
    requires '=' in v
    ensures var o := Before(v, '=') + "=" + REDACTED; '=' in o && Before(o, '=') == Before(v, '=')
  {
    var b := Before(v, '=');
    var o := b + "=" + REDACTED;
    assert o[|b|] == '=';
    var c := Before(o, '=');
    assert c == o[..|c|];
    assert c == o[..|b|] == b;
  }

  // Redaction always yields a redacted string and leaves redacted strings, and
  // no others, as they are. Doing it twice is doing it once.
  lemma RedactStringProjects(value: string)
    ensures Redacted(RedactString(value))
    ensures RedactString(value) == value <==> Redacted(value)
    ensures RedactString(RedactString(value)) == RedactString(value)
  {
    RedactedIsClean(value);
    var v := Replace(false, value);
    if Sensitive(v) && '=' in v { BeforeOfCut(v); }
    FixesRedacted(RedactString(value));
    if Redacted(value) { FixesRedacted(value); }
  }

  lemma FixesRedacted(value: string)
    requires Redacted(value)
    ensures RedactString(value) == value
  {
    ReplaceFixes(false, value);
  }

  // ----- a credential cannot be seen in the result -----

  predicate IsScheme(word: string) {
    (|word| == 6 && WordAt(word, 0, "bearer")) || (|word| == 5 && WordAt(word, 0, "basic"))
  }

  // A scheme word, white space and a token, up to where the token ends.
  ghost predicate IsCredential(scheme: string, spaces: string, token: string, rest: string) {
    && IsScheme(scheme)
    && spaces != "" && (forall c :: c in spaces ==> IsBlank(c))
    && token != "" && (forall c :: c in token ==> IsTokenChar(c))
    && (rest != "" ==> !IsTokenChar(rest[0]))
  }

  lemma {:induction false} SpanConcat(x: string, rest: string, p: char -> bool)
    requires forall c :: c in x ==> p(c)
    requires rest != "" ==> !p(rest[0])
    ensures Span(x + rest, p) == |x|
    decreases |x|
  {
    if x == "" {
      assert x + rest == rest;
    } else {
      assert (x + rest)[1..] == x[1..] + rest;
      SpanConcat(x[1..], rest, p);
    }
  }

  lemma SchemeConcat(scheme: string, x: string)
    requires IsScheme(scheme)
    ensures Scheme(scheme + x) == |scheme|
  {
    var t := scheme + x;
    assert forall n :: 0 <= n < |scheme| ==> t[n] == scheme[n];
    if |scheme| == 6 {
      assert WordAt(t, 0, "bearer");
    } else {
      assert WordAt(t, 0, "basic");
      if WordAt(t, 0, "bearer") {
        SchemeLetter(t, 5, 1);
        SchemeLetter(t, 6, 1);
      }
    }
  }

  lemma CredentialLength(scheme: string, spaces: string, token: string, rest: string)
    requires IsCredential(scheme, spaces, token, rest)
    ensures MatchLength(scheme + (spaces + (token + rest))) == |scheme| + |spaces| + |token|
  {
    var s := scheme + (spaces + (token + rest));
    SchemeConcat(scheme, spaces + (token + rest));
    assert s[|scheme|..] == spaces + (token + rest);
    assert token[0] in token;
    SpanConcat(spaces, token + rest, IsBlank);
    assert s[|scheme| + |spaces|..] == token + rest;
    SpanConcat(token, rest, IsTokenChar);
  }

  lemma WordMakesNoDifference(word: bool, s: string)
    requires s != "" ==> !IsTokenChar(s[0])
    ensures Replace(word, s) == Replace(false, s)
  {
    if MatchLength(s) > 0 {
      MatchSpells(s);
      var j: nat, k: nat :| Spells(s, 0, j, k);
      CredentialStartsWithB(s, 0, j, k);
    }
  }

  // No credential of p + scheme + x starts in p and reaches into x, when x
  // starts with white space.
  lemma NoneReachesOver(p: string, scheme: string, x: string, j: nat, k: nat)
    requires p != "" && IsScheme(scheme) && x != "" && IsBlank(x[0])
    requires Spells(p + scheme + x, 0, j, k)
    ensures Spells(p + scheme, 0, j, k)
  {
    var t, e := p + scheme + x, |p| + |scheme|;
    assert t[e] == x[0];
    if k >= e {
      assert forall n :: 0 <= n < |scheme| ==> t[|p| + n] == scheme[n];
      SchemeEndsInLetter(scheme);
      assert !IsBlank(t[e - 1]);
      assert j >= e;
      assert e == 6 && |p| == 1 && j == 6;
      assert WordAt(scheme, 0, "basic") && Folds(scheme[0 + 0], "basic"[0]);
      SchemeLetter(t, 6, 1);
    }
    assert AgreeTo(t, p + scheme, k + 1);
    SameSpelling(t, p + scheme, 0, j, k);
  }

  lemma SchemeEndsInLetter(scheme: string)
    requires IsScheme(scheme)
    ensures !IsBlank(scheme[|scheme| - 1])
  {
    if |scheme| == 6 { assert Folds(scheme[0 + 5], "bearer"[5]); } else { assert Folds(scheme[0 + 4], "basic"[4]); }
  }

  lemma NothingMatchesBefore(word: bool, p: string, scheme: string, x: string)
    requires p != "" && IsScheme(scheme) && x != "" && IsBlank(x[0])
    requires CleanAfter(word, p + scheme)
    ensures word || MatchLength(p + scheme + x) == 0
  {
    if !word && MatchLength(p + scheme + x) > 0 {
      MatchSpells(p + scheme + x);
      var j: nat, k: nat :| Spells(p + scheme + x, 0, j, k);
      NoneReachesOver(p, scheme, x, j, k);
      assert CredentialAt(word, p + scheme, 0);
    }
  }

  lemma CredentialReplaced(scheme: string, spaces: string, token: string, rest: string)
    requires IsCredential(scheme, spaces, token, rest)
    ensures Replace(false, scheme + (spaces + (token + rest))) == Shown(scheme, rest)
  {
    hide MatchLength, Scheme, WordAt, Span;
    var s := scheme + (spaces + (token + rest));
    var n := |scheme| + |spaces| + |token|;
    CredentialLength(scheme, spaces, token, rest);
    SchemeConcat(scheme, spaces + (token + rest));
    assert s[..|scheme|] == scheme && s[n..] == rest;
    WordMakesNoDifference(IsWordChar(s[n - 1]), rest);
  }

  // What is left of a credential and the text behind it.
  function Shown(scheme: string, rest: string): string {
    scheme + " " + REDACTED + Replace(false, rest)
  }

  // Where a credential stands after text that carries none, the result shows
  // its scheme word and the mark: neither token nor white space has a say.
  lemma {:induction false} CredentialIsInvisible(word: bool, p: string, scheme: string, spaces: string, token: string,
      rest: string)
    requires IsCredential(scheme, spaces, token, rest)
    requires CleanAfter(word, p + scheme)
    requires if p == "" then !word else !IsWordChar(p[|p| - 1])
    ensures Replace(word, p + scheme + (spaces + (token + rest))) == p + Shown(scheme, rest)
    decreases |p|
  {
    hide MatchLength, Scheme, WordAt, Span, Replace;
    var x := spaces + (token + rest);
    if p == "" {
      assert p + scheme + x == scheme + x;
      CredentialReplaced(scheme, spaces, token, rest);
      assert p + Shown(scheme, rest) == Shown(scheme, rest);
    } else {
      assert spaces[0] in spaces;
      NothingMatchesBefore(word, p, scheme, x);
      PeelOne(word, p, scheme, x);
      CleanSuffix(word, p + scheme);
      assert (p + scheme)[1..] == p[1..] + scheme;
      CredentialIsInvisible(IsWordChar(p[0]), p[1..], scheme, spaces, token, rest);
      PutBack(p, Shown(scheme, rest));
    }
  }

  lemma PutBack(p: string, y: string)
    requires p != ""
    ensures [p[0]] + (p[1..] + y) == p + y
  {
  }

  lemma PeelOne(word: bool, p: string, scheme: string, x: string)
    requires p != "" && (word || MatchLength(p + scheme + x) == 0)
    ensures Replace(word, p + scheme + x) == [p[0]] + Replace(IsWordChar(p[0]), p[1..] + scheme + x)
  {
    hide MatchLength, Scheme, WordAt, Span;
    assert (p + scheme + x)[1..] == p[1..] + scheme + x;
  }

  lemma CredentialsIndistinguishable(p: string, scheme: string, rest: string,
                                     spaces: string, token: string, spaces': string, token': string)
    requires IsCredential(scheme, spaces, token, rest) && IsCredential(scheme, spaces', token', rest)
    requires Clean(p + scheme) && (p != "" ==> !IsWordChar(p[|p| - 1]))
    ensures RedactString(p + scheme + (spaces + (token + rest)))
            == RedactString(p + scheme + (spaces' + (token' + rest)))
  {
    CredentialIsInvisible(false, p, scheme, spaces, token, rest);
    CredentialIsInvisible(false, p, scheme, spaces', token', rest);
  }

  // ----- nor can what a named secret is set to -----

  // No credential of s starts in its first n characters.
  ghost predicate CleanUpTo(word: bool, s: string, n: nat) {
    forall i: nat :: i < n ==> !CredentialAt(word, s, i)
  }

  lemma CleanUpToSuffix(word: bool, s: string, n: nat)
    requires s != "" && CleanUpTo(word, s, n + 1)
    ensures CleanUpTo(IsWordChar(s[0]), s[1..], n)
  {
    forall i: nat | i < n ensures !CredentialAt(IsWordChar(s[0]), s[1..], i) {
      assert !CredentialAt(word, s, i + 1);
      assert [s[0]] + s[1..] == s;
      forall j: nat, k: nat | Spells(s[1..], i, j, k) ensures Spells(s, i + 1, j + 1, k + 1) {
        SpellsShift([s[0]], s[1..], i, j, k);
      }
    }
  }

  // Text in which no credential starts is kept, whatever follows it.
  lemma {:induction false} ReplacePrefix(word: bool, p: string, y: string)
    requires CleanUpTo(word, p + y, |p|)
    ensures Replace(word, p + y) == p + Replace(if p == "" then word else IsWordChar(p[|p| - 1]), y)
    decreases |p|
  {
    hide MatchLength, Scheme, WordAt, Span;
    if p == "" {
      assert p + y == y;
    } else {
      var s, rest := p + y, p[1..];
      assert s[1..] == rest + y && s[0] == p[0];
      assert !CredentialAt(word, s, 0);
      MatchSpells(s);
      CleanUpToSuffix(word, s, |rest|);
      ReplacePrefix(IsWordChar(p[0]), rest, y);
      PutBack(p, Replace(IsWordChar(p[|p| - 1]), y));
    }
  }

  lemma SensitiveExtends(p: string, y: string)
    requires Sensitive(p)
    ensures Sensitive(p + y)
  {
    forall i: nat, w: string | WordAt(p, i, w) ensures WordAt(p + y, i, w) {
      forall k | 0 <= k < |w| ensures Folds((p + y)[i + k], w[k]) { assert (p + y)[i + k] == p[i + k]; }
    }
    forall i: nat, v: string, w: string | GapAt(p, i, v, w) ensures GapAt(p + y, i, v, w) {
    }
  }

  lemma BeforeUnique(name: string, v: string)
    requires name + "=" <= v && '=' !in name
    ensures '=' in v && Before(v, '=') == name
  {
    assert v[|name|] == (name + "=")[|name|] == '=';
    var b := Before(v, '=');
    assert b == v[..|b|] && name == v[..|name|];
  }

  // The result is the name as it is written and the mark, exactly when the text up
  // to the equals sign carries no credential of its own.
  lemma AssignmentKeepsName(name: string, value: string)
    requires Sensitive(name) && '=' !in name
    ensures RedactString(name + "=" + value) == name + "=" + REDACTED <==> Clean(name + "=")
  {
    if Clean(name + "=") {
      CleanAssignment(name, value);
    } else {
      RedactedIsClean(name + "=" + value);
      var p := name + "=";
      var i: nat :| CredentialAt(false, p, i);
      var j: nat, k: nat :| Spells(p, i, j, k);
      SameSpelling(p, p + REDACTED, i, j, k);
      assert CredentialAt(false, p + REDACTED, i);
    }
  }

  lemma CleanAssignment(name: string, value: string)
    requires Sensitive(name) && '=' !in name && Clean(name + "=")
    ensures RedactString(name + "=" + value) == name + "=" + REDACTED
  {
    hide Sensitive, Replace, CleanUpTo;
    var p := name + "=";
    CleanToEquals(name, value);
    ReplacePrefix(false, p, value);
    var y := Replace(false, value);
    assert p + y == name + ("=" + y);
    BeforeUnique(name, p + y);
    SensitiveExtends(name, "=" + y);
  }

  // No credential reaches over the equals sign of a clean assignment.
  lemma CleanToEquals(name: string, value: string)
    requires '=' !in name && Clean(name + "=")
    ensures CleanUpTo(false, name + "=" + value, |name| + 1)
  {
    var p := name + "=";
    forall i: nat | i < |p| ensures !CredentialAt(false, p + value, i) {
      assert !CredentialAt(false, p, i);
      if j: nat, k: nat :| Spells(p + value, i, j, k) {
        assert (p + value)[|name|] == '=';
        if k >= |p| { CredentialAlphabet(p + value, i, j, k, |name|); }
        SameSpelling(p + value, p, i, j, k);
      }
    }
  }
}
