// Which names are secrets and which texts are credentials, in plain terms, and what
// redaction makes of them.
module Secrets {
  import opened Redaction
  import Hiding
  import Text

  // ----- names -----

  const SECRET_WORDS := ["authorization", "password", "passwd", "secret", "token", "credential", "cookie"]
  const SECRET_PAIRS := [("api", "key"), ("access", "key"), ("private", "key"), ("client", "secret")]

  // x is the word, each letter in either case; the long s and the Kelvin sign are
  // letters s and k.
  predicate Spelled(x: string, word: string) {
    |x| == |word| && forall i :: 0 <= i < |x| ==> Text.FoldChar(x[i]) == word[i]
  }

  ghost predicate ContainsWord(s: string, word: string) {
    exists p, x, q :: s == p + x + q && Spelled(x, word)
  }

  // The two words, next to each other or with one character between them that does
  // not end the line.
  ghost predicate ContainsPair(s: string, head: string, tail: string) {
    exists p, x, gap, y, q :: PairIn(s, head, tail, p, x, gap, y, q)
  }

  predicate PairIn(s: string, head: string, tail: string, p: string, x: string, gap: string, y: string, q: string) {
    s == p + x + gap + y + q && Spelled(x, head) && Spelled(y, tail) && (gap == "" || (|gap| == 1 && gap != "\n"))
  }

  ghost predicate NamesSecret(s: string) {
    || (exists word :: word in SECRET_WORDS && ContainsWord(s, word))
    || (exists pair :: pair in SECRET_PAIRS && ContainsPair(s, pair.0, pair.1))
  }

  predicate LowerWord(word: string) { word != "" && forall c :: c in word ==> 'a' <= c <= 'z' }

  lemma SpelledAt(s: string, i: nat, word: string)
    requires LowerWord(word)
    ensures WordAt(s, i, word) <==> i + |word| <= |s| && Spelled(s[i..i + |word|], word)
  {
    if i + |word| <= |s| {
      var x := s[i..i + |word|];
      forall k | 0 <= k < |word| ensures Folds(s[i + k], word[k]) <==> Text.FoldChar(x[k]) == word[k] {
        assert word[k] in word && x[k] == s[i + k];
      }
      if WordAt(s, i, word) {
        forall k | 0 <= k < |x| ensures Text.FoldChar(x[k]) == word[k] { assert Folds(s[i + k], word[k]); }
      }
      if Spelled(x, word) {
        forall k | 0 <= k < |word| ensures Folds(s[i + k], word[k]) { assert Text.FoldChar(x[k]) == word[k]; }
      }
    }
  }

  lemma WordExactly(s: string, word: string)
    requires LowerWord(word)
    ensures (exists i: nat :: i < |s| && WordAt(s, i, word)) <==> ContainsWord(s, word)
  {
    hide WordAt, Spelled;
    if i: nat :| i < |s| && WordAt(s, i, word) {
      SpelledAt(s, i, word);
      var x := s[i..i + |word|];
      assert s == s[..i] + x + s[i + |word|..];
    }
    if p, x, q :| s == p + x + q && Spelled(x, word) {
      SpelledLength(x, word);
      assert s[|p|..|p| + |word|] == x;
      SpelledAt(s, |p|, word);
      assert WordAt(s, |p|, word);
    }
  }

  lemma SpelledLength(x: string, word: string)
    requires Spelled(x, word)
    ensures |x| == |word|
  {
  }

  lemma PairExactly(s: string, head: string, tail: string)
    requires LowerWord(head) && LowerWord(tail)
    ensures (exists i: nat :: i < |s| && GapAt(s, i, head, tail)) <==> ContainsPair(s, head, tail)
  {
    hide GapAt;
    if i: nat :| i < |s| && GapAt(s, i, head, tail) { PairFound(s, i, head, tail); }
    if p, x, gap, y, q :| PairIn(s, head, tail, p, x, gap, y, q) {
      PairPlaced(p, x, gap, y, q, head, tail);
    }
  }

  lemma PairFound(s: string, i: nat, head: string, tail: string)
    requires LowerWord(head) && LowerWord(tail) && GapAt(s, i, head, tail)
    ensures ContainsPair(s, head, tail)
  {
    hide WordAt, Spelled;
    SpelledAt(s, i, head);
    var n := if WordAt(s, i + |head|, tail) then 0 else 1;
    SpelledAt(s, i + |head| + n, tail);
    CutInFive(s, i, |head|, n, |tail|);
    var gap := s[i + |head|..i + |head| + n];
    assert n == 1 ==> gap[0] == s[i + |head|] && gap != "\n";
    var m := i + |head| + n;
    assert PairIn(s, head, tail, s[..i], s[i..i + |head|], gap, s[m..m + |tail|], s[m + |tail|..]);
  }

  lemma PairPlaced(p: string, x: string, gap: string, y: string, q: string, head: string, tail: string)
    requires LowerWord(head) && LowerWord(tail) && Spelled(x, head) && Spelled(y, tail)
    requires gap == "" || (|gap| == 1 && gap != "\n")
    ensures var s := p + x + gap + y + q; |p| < |s| && GapAt(s, |p|, head, tail)
  {
    hide WordAt, Spelled;
    var s := p + x + gap + y + q;
    SpelledLength(x, head);
    SpelledLength(y, tail);
    FoundInFive(p, x, gap, y, q);
    SpelledAt(s, |p|, head);
    SpelledAt(s, |p| + |head| + |gap|, tail);
  }

  lemma CutInFive(s: string, i: nat, m: nat, n: nat, l: nat)
    requires i + m + n + l <= |s|
    ensures s == s[..i] + s[i..i + m] + s[i + m..i + m + n] + s[i + m + n..i + m + n + l] + s[i + m + n + l..]
  {
  }

  lemma FoundInFive(p: string, x: string, gap: string, y: string, q: string)
    ensures var s, n := p + x + gap + y + q, |p| + |x|;
            && s[|p|..n] == x && s[n + |gap|..n + |gap| + |y|] == y
            && (|gap| == 1 ==> n < |s| && [s[n]] == gap)
  {
    var s, n := p + x + gap + y + q, |p| + |x|;
    Middle(p, x, gap + y + q);
    Middle(p + x + gap, y, q);
    Middle(p + x, gap, y + q);
    assert s == p + x + (gap + y + q) == p + x + gap + (y + q);
    assert |gap| == 1 ==> s[n..n + |gap|] == [s[n]];
  }

  lemma Middle(x: string, y: string, z: string)
    ensures (x + y + z)[|x|..|x| + |y|] == y
  {
  }

  lemma SecretWordsAreLower()
    ensures forall word :: word in SECRET_WORDS ==> LowerWord(word)
  {
    assert LowerWord("authorization") && LowerWord("password") && LowerWord("passwd") && LowerWord("secret");
    assert LowerWord("token") && LowerWord("credential") && LowerWord("cookie");
  }

  lemma SecretPairsAreLower()
    ensures forall pair :: pair in SECRET_PAIRS ==> LowerWord(pair.0) && LowerWord(pair.1)
  {
    assert LowerWord("api") && LowerWord("access") && LowerWord("private") && LowerWord("client");
    assert LowerWord("key") && LowerWord("secret");
  }

  // The names redaction looks for are those that contain one of the words or pairs.
  lemma SensitiveExactly(s: string)
    ensures Sensitive(s) <==> NamesSecret(s)
  {
    hide WordAt, GapAt, ContainsWord, ContainsPair;
    SecretWordsAreLower();
    SecretPairsAreLower();
    forall word | word in SECRET_WORDS
      ensures (exists i: nat :: i < |s| && WordAt(s, i, word)) <==> ContainsWord(s, word)
    {
      WordExactly(s, word);
    }
    forall pair | pair in SECRET_PAIRS
      ensures (exists i: nat :: i < |s| && GapAt(s, i, pair.0, pair.1)) <==> ContainsPair(s, pair.0, pair.1)
    {
      PairExactly(s, pair.0, pair.1);
    }
    AllListed();
  }

  lemma AllListed()
    ensures "authorization" in SECRET_WORDS && "password" in SECRET_WORDS && "passwd" in SECRET_WORDS
    ensures "secret" in SECRET_WORDS && "token" in SECRET_WORDS && "credential" in SECRET_WORDS
            && "cookie" in SECRET_WORDS
    ensures ("api", "key") in SECRET_PAIRS && ("access", "key") in SECRET_PAIRS
    ensures ("private", "key") in SECRET_PAIRS && ("client", "secret") in SECRET_PAIRS
  {
  }

  // ----- credentials -----

  const BLANKS := " \t\n\r\U{C}"

  predicate WordCharacter(c: char) { c in Text.UPPER_CASE || c in Text.LOWER_CASE || c in Text.DIGITS || c == '_' }

  predicate TokenCharacter(c: char) { WordCharacter(c) || c in ".~+/=-\U{17F}\U{212A}" }

  lemma CharactersAre(c: char)
    ensures IsWordChar(c) <==> WordCharacter(c)
    ensures IsTokenChar(c) <==> TokenCharacter(c)
    ensures IsBlank(c) <==> c in BLANKS
  {
    Text.UpperCaseAre(c);
    Text.LowerCaseAre(c);
    Text.DigitsAre(c);
  }

  predicate SchemeWord(x: string) { Spelled(x, "bearer") || Spelled(x, "basic") }

  lemma SchemesAre(x: string)
    ensures IsScheme(x) <==> SchemeWord(x)
  {
    hide WordAt, Spelled;
    SpelledAt(x, 0, "bearer");
    SpelledAt(x, 0, "basic");
    assert x[0..|x|] == x;
    if SchemeWord(x) { SchemeLengths(x); }
  }

  lemma SchemeLengths(x: string)
    requires SchemeWord(x)
    ensures Spelled(x, "bearer") ==> |x| == 6
    ensures Spelled(x, "basic") ==> |x| == 5
  {
  }

  // A scheme word that no word character precedes, white space, and a character of a
  // token.
  ghost predicate CarriesAs(s: string, p: string, x: string, b: string, c: char, q: string) {
    && s == p + x + b + [c] + q
    && SchemeWord(x) && (p == "" || !WordCharacter(p[|p| - 1]))
    && b != "" && (forall d :: d in b ==> d in BLANKS) && TokenCharacter(c)
  }

  ghost predicate CarriesCredential(s: string) { exists p, x, b, c, q :: CarriesAs(s, p, x, b, c, q) }

  lemma SpellsExactly(s: string, i: nat, j: nat, k: nat)
    requires i < j < k < |s|
    ensures Spells(s, i, j, k) <==>
            SchemeWord(s[i..j]) && (forall d :: d in s[j..k] ==> d in BLANKS) && TokenCharacter(s[k])
  {
    hide WordAt, Spelled, TokenCharacter, IsTokenChar, IsBlank;
    CharactersAre(s[k]);
    SpelledAt(s, i, "bearer");
    SpelledAt(s, i, "basic");
    if SchemeWord(s[i..j]) { SchemeLengths(s[i..j]); }
    forall m | j <= m < k ensures IsBlank(s[m]) <==> s[m] in BLANKS { CharactersAre(s[m]); }
    if forall d :: d in s[j..k] ==> d in BLANKS {
      forall m | j <= m < k ensures s[m] in BLANKS { assert s[j..k][m - j] == s[m]; }
    }
  }

  // Clean text is text that carries no credential.
  lemma CleanExactly(s: string)
    ensures Clean(s) <==> !CarriesCredential(s)
  {
    hide Spells, CarriesAs;
    if i: nat :| CredentialAt(false, s, i) {
      var j: nat, k: nat :| Spells(s, i, j, k);
      CarriedWhere(s, i, j, k);
      assert CarriesAs(s, s[..i], s[i..j], s[j..k], s[k], s[k + 1..]);
      assert CarriesCredential(s);
      assert !CleanAfter(false, s);
    } else {
      assert CleanAfter(false, s);
      if p, x, b, c, q :| CarriesAs(s, p, x, b, c, q) {
        FoundWhere(s, p, x, b, c, q);
        assert false;
      }
    }
  }

  lemma CarriedWhere(s: string, i: nat, j: nat, k: nat)
    requires CredentialAt(false, s, i) && Spells(s, i, j, k)
    ensures i < j < k < |s| && CarriesAs(s, s[..i], s[i..j], s[j..k], s[k], s[k + 1..])
  {
    hide SchemeWord, TokenCharacter, IsTokenChar, WordCharacter, IsWordChar, WordAt;
    SpellsExactly(s, i, j, k);
    if i > 0 { CharactersAre(s[i - 1]); }
    assert s == s[..i] + s[i..j] + s[j..k] + [s[k]] + s[k + 1..];
  }

  lemma FoundWhere(s: string, p: string, x: string, b: string, c: char, q: string)
    requires CarriesAs(s, p, x, b, c, q)
    ensures CredentialAt(false, s, |p|)
  {
    hide TokenCharacter, IsTokenChar, WordCharacter, IsWordChar, WordAt, Spelled;
    SchemeLengths(x);
    var i, j, k: nat := |p|, |p| + |x|, |p| + |x| + |b|;
    assert s[i..j] == x && s[j..k] == b && s[k] == c;
    SpellsExactly(s, i, j, k);
    if p != "" {
      CharactersAre(p[|p| - 1]);
      assert s[i - 1] == p[|p| - 1];
    }
  }

  // ----- what redaction makes of them -----

  // Text without credentials is shown as it is, unless it names a secret and has an
  // equals sign: then only what comes before the first one is shown.
  lemma CleanTextShows(s: string)
    requires !CarriesCredential(s)
    ensures RedactString(s) == if NamesSecret(s) && '=' in s then Text.Before(s, '=') + "=[REDACTED]" else s
  {
    hide Sensitive, NamesSecret, CarriesCredential, Replace, RedactString;
    CleanExactly(s);
    ReplaceFixes(false, s);
    SensitiveExactly(s);
    RedactStringOf(s);
  }

  lemma RedactStringOf(s: string)
    ensures var v := Replace(false, s);
            RedactString(s) == if Sensitive(v) && '=' in v then Text.Before(v, '=') + "=[REDACTED]" else v
  {
    hide Sensitive, Replace;
    var v := Replace(false, s);
    if '=' in v { Marked(Text.Before(v, '=')); }
  }

  lemma Marked(x: string)
    ensures x + "=" + REDACTED == x + "=[REDACTED]"
  {
    assert "=" + REDACTED == "=[REDACTED]";
    Hiding.Regroup(x, "=", REDACTED);
  }

  // An assignment to a secret name, without a credential up to its equals sign, shows
  // the name and the mark.
  lemma SecretAssignment(name: string, value: string)
    requires NamesSecret(name) && '=' !in name && !CarriesCredential(name + "=")
    ensures RedactString(name + "=" + value) == name + "=[REDACTED]"
  {
    hide Sensitive, NamesSecret, CarriesCredential, RedactString;
    SensitiveExactly(name);
    CleanExactly(name + "=");
    CleanAssignment(name, value);
    Marked(name);
  }

  // A credential after text that carries none shows its scheme word and the mark,
  // and the rest is treated on its own.
  lemma CredentialShows(p: string, x: string, b: string, token: string, rest: string)
    requires !CarriesCredential(p + x) && SchemeWord(x) && (p == "" || !WordCharacter(p[|p| - 1]))
    requires b != "" && (forall c :: c in b ==> c in BLANKS)
    requires token != "" && (forall c :: c in token ==> TokenCharacter(c))
    requires rest == "" || !TokenCharacter(rest[0])
    ensures Replace(false, p + x + (b + (token + rest))) == p + (x + " [REDACTED]" + Replace(false, rest))
  {
    hide CarriesCredential, SchemeWord, TokenCharacter, WordCharacter, IsTokenChar, IsWordChar, IsBlank, IsScheme,
        Replace;
    CleanExactly(p + x);
    SchemesAre(x);
    if p != "" { CharactersAre(p[|p| - 1]); }
    if rest != "" { CharactersAre(rest[0]); }
    forall c | c in b ensures IsBlank(c) { CharactersAre(c); }
    forall c | c in token ensures IsTokenChar(c) { CharactersAre(c); }
    CredentialIsInvisible(false, p, x, b, token, rest);
    assert x + " " + REDACTED + Replace(false, rest) == x + " [REDACTED]" + Replace(false, rest);
  }

  lemma PasswordIsHidden()
    ensures RedactString("password=hunter2") == "password=[REDACTED]"
  {
    hide NamesSecret, CarriesCredential, RedactString;
    assert NamesSecret("password") by { PasswordIsSecret(); }
    assert "password" + "=" == "password=";
    assert !CarriesCredential("password=") by { NoSchemeWithoutB("password="); }
    SecretAssignment("password", "hunter2");
    assert "password" + "=" + "hunter2" == "password=hunter2";
    assert "password" + "=[REDACTED]" == "password=[REDACTED]";
  }

  lemma PasswordIsSecret()
    ensures NamesSecret("password")
  {
    assert Spelled("password", "password");
    assert "password" == "" + "password" + "";
    assert ContainsWord("password", "password");
    AllListed();
  }

  lemma NoSchemeWithoutB(s: string)
    requires 'b' !in s && 'B' !in s
    ensures !CarriesCredential(s)
  {
    CleanExactly(s);
    forall i: nat ensures !CredentialAt(false, s, i) {
      if j: nat, k: nat :| Spells(s, i, j, k) {
        CredentialStartsWithB(s, i, j, k);
      }
    }
  }
}
