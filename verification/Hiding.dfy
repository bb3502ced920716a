// What string redaction hides, exactly: when the value of an assignment has no
// influence on the result, and which strings redact to the same string.
module Hiding {
  import opened Redaction

  // ----- matches, taken apart -----

  ghost predicate MatchedAs(s: string, scheme: string, spaces: string, token: string, rest: string) {
    && IsCredential(scheme, spaces, token, rest)
    && s == scheme + (spaces + (token + rest))
    && MatchLength(s) == |scheme| + |spaces| + |token|
    && Scheme(s) == |scheme|
  }

  lemma TakeApart(s: string) returns (scheme: string, spaces: string, token: string, rest: string)
    requires MatchLength(s) > 0
    ensures MatchedAs(s, scheme, spaces, token, rest)
    ensures s == scheme + (spaces + token) + rest
  {
    hide Scheme, WordAt, IsBlank, IsTokenChar, IsScheme, MatchLength;
    var w, m, n := MatchParts(s);
    SchemeAlone(s);
    AfterMatch(s);
    scheme, spaces, token, rest := s[..w], s[w..][..m], s[w + m..][..n], s[w + m + n..];
    InFour(s, w, m, n);
    Retail(scheme, spaces, token, rest);
  }

  lemma MatchParts(s: string) returns (w: nat, m: nat, n: nat)
    requires MatchLength(s) > 0
    ensures w == Scheme(s) > 0 && m > 0 && n > 0 && w + m + n == MatchLength(s)
    ensures forall c :: c in s[w..][..m] ==> IsBlank(c)
    ensures forall c :: c in s[w + m..][..n] ==> IsTokenChar(c)
  {
    hide Scheme, WordAt;
    w := Scheme(s);
    m := Span(s[w..], IsBlank);
    n := Span(s[w + m..], IsTokenChar);
  }

  lemma InFour(s: string, w: nat, m: nat, n: nat)
    requires w + m + n <= |s|
    ensures s == s[..w] + (s[w..][..m] + (s[w + m..][..n] + s[w + m + n..]))
  {
  }

  // Replacing the match that starts a string.
  lemma ReplaceMatch(s: string)
    requires MatchLength(s) > 0
    ensures Replace(false, s) ==
            s[..Scheme(s)] + " " + REDACTED + Replace(IsWordChar(s[MatchLength(s) - 1]), s[MatchLength(s)..])
  {
    hide MatchLength, Scheme;
  }

  lemma SchemeAlone(s: string)
    requires Scheme(s) > 0
    ensures IsScheme(s[..Scheme(s)])
  {
    var w := Scheme(s);
    if w == 6 {
      assert forall k :: 0 <= k < 6 ==> Folds(s[0 + k], "bearer"[k]);
    } else {
      assert forall k :: 0 <= k < 5 ==> Folds(s[0 + k], "basic"[k]);
    }
  }

  // A match does not depend on what follows it, if that does not continue it.
  lemma MatchExtends(s: string, x: string, y: string)
    requires MatchLength(s) == |x| > 0 && x <= s
    requires y != "" ==> !IsTokenChar(y[0])
    ensures MatchLength(x + y) == |x|
  {
    hide MatchLength, Scheme, IsScheme, IsBlank, IsTokenChar;
    var scheme, spaces, token, rest := TakeApart(s);
    Regroup(scheme, spaces, token);
    Prefix(s, scheme + (spaces + token), rest, x);
    Retail(scheme, spaces, token, y);
    CredentialLength(scheme, spaces, token, y);
  }

  lemma Prefix(s: string, x: string, rest: string, y: string)
    requires s == x + rest && y <= s && |x| == |y|
    ensures x == y
  {
    assert s[..|x|] == x && s[..|y|] == y;
  }

  lemma Retail(x: string, y: string, z: string, rest: string)
    ensures x + (y + (z + rest)) == x + (y + z) + rest
  {
  }

  lemma MatchIsLocal(s: string, t: string)
    requires 0 < MatchLength(s) < |s| && MatchLength(s) < |t|
    requires s[..MatchLength(s) + 1] == t[..MatchLength(s) + 1]
    ensures MatchLength(t) == MatchLength(s)
  {
    hide MatchLength;
    var n := MatchLength(s);
    AfterMatch(s);
    assert s[n] == s[..n + 1][n] == t[..n + 1][n] == t[n];
    assert s[..n] == s[..n + 1][..n] == t[..n + 1][..n] == t[..n];
    MatchExtends(s, s[..n], t[n..]);
    assert t == s[..n] + t[n..];
  }

  // Passing over a character at which no match starts.
  lemma ReplaceStep(word: bool, s: string)
    requires s != "" && (word || MatchLength(s) == 0)
    ensures Replace(word, s) == [s[0]] + Replace(IsWordChar(s[0]), s[1..])
  {
    hide MatchLength, Scheme;
  }

  // ----- the equals sign of an assignment -----

  // Scanning name and an equals sign, some match has a token that runs on through
  // the equals sign.
  predicate RunsOn(word: bool, name: string)
    decreases |name|
  {
    if name == "" then false
    else
      var s := name + "=";
      var n := MatchLength(s);
      if !word && n > 0 then n == |s| || RunsOn(IsWordChar(s[n - 1]), name[n..])
      else RunsOn(IsWordChar(name[0]), name[1..])
  }

  lemma NoMatchAtEquals(v: string)
    ensures MatchLength("=" + v) == 0
  {
    var s := "=" + v;
    if MatchLength(s) > 0 {
      MatchSpells(s);
      var j: nat, k: nat :| Spells(s, 0, j, k);
      CredentialStartsWithB(s, 0, j, k);
    }
  }

  // Up to the equals sign, what is assigned makes no difference to the scan.
  lemma SameStart(name: string, v: string)
    requires '=' !in name
    ensures MatchLength(name + "=") == 0 ==> MatchLength(name + "=" + v) == 0 && MatchLength(name) == 0
    ensures 0 < MatchLength(name + "=") <= |name| ==>
              MatchLength(name + "=") < |name|
              && MatchLength(name + "=" + v) == MatchLength(name + "=") == MatchLength(name)
  {
    var s := name + "=";
    if MatchLength(s) == 0 {
      NoMatchAppears(name, v);
    } else if MatchLength(s) <= |name| {
      var n := MatchLength(s);
      AfterMatch(s);
      assert s[|name|] == '=' && n != |name|;
      assert s[..n + 1] == (s + v)[..n + 1] == name[..n + 1];
      MatchIsLocal(s, s + v);
      MatchIsLocal(s, name);
    }
  }

  lemma NoMatchAppears(name: string, v: string)
    requires '=' !in name && MatchLength(name + "=") == 0
    ensures MatchLength(name + "=" + v) == 0 && MatchLength(name) == 0
  {
    var s := name + "=";
    MatchSpells(s);
    MatchSpells(name);
    MatchSpells(s + v);
    if j: nat, k: nat :| Spells(name, 0, j, k) {
      SameSpelling(name, s, 0, j, k);
    }
    if j: nat, k: nat :| Spells(s + v, 0, j, k) {
      assert (s + v)[|name|] == '=';
      if k > |name| { CredentialAlphabet(s + v, 0, j, k, |name|); }
      SameSpelling(s + v, s, 0, j, k);
    }
  }

  // If no token runs on, the equals sign divides the scan in two.
  lemma {:induction false} EqualsDivides(word: bool, name: string, v: string)
    requires '=' !in name && !RunsOn(word, name)
    ensures Replace(word, name + "=" + v) == Replace(word, name) + "=" + Replace(false, v)
    decreases |name|
  {
    hide MatchLength, Scheme, Replace;
    var s := name + "=";
    if name == "" {
      NoMatchAtEquals(v);
      assert s + v == "=" + v;
      ReplaceStep(word, s + v);
      EmptyStays(word);
    } else {
      SameStart(name, v);
      if !word && MatchLength(s) > 0 {
        DivideMatch(name, v, MatchLength(s));
      } else {
        var rest := name[1..];
        PassOver(word, name, v);
        ReplaceStep(word, name);
        EqualsDivides(IsWordChar(name[0]), rest, v);
        Regroup([name[0]], Replace(IsWordChar(name[0]), rest), "=" + Replace(false, v));
      }
    }
  }

  lemma EmptyStays(word: bool)
    ensures Replace(word, "") == ""
  {
  }

  lemma PassOver(word: bool, name: string, v: string)
    requires name != "" && (word || MatchLength(name + "=" + v) == 0)
    ensures Replace(word, name + "=" + v) == [name[0]] + Replace(IsWordChar(name[0]), name[1..] + "=" + v)
  {
    hide MatchLength, Replace;
    var t := name + "=" + v;
    assert t[0] == name[0] && t[1..] == name[1..] + "=" + v;
    ReplaceStep(word, t);
  }

  lemma {:induction false} DivideMatch(name: string, v: string, n: nat)
    requires '=' !in name && !RunsOn(false, name)
    requires n == MatchLength(name + "=") == MatchLength(name + "=" + v) == MatchLength(name)
    requires 0 < n < |name|
    ensures Replace(false, name + "=" + v) == Replace(false, name) + "=" + Replace(false, v)
    decreases |name|, 0
  {
    hide MatchLength, Scheme, Replace;
    var s := name + "=";
    var last, rest := IsWordChar(name[n - 1]), name[n..];
    assert s[n - 1] == name[n - 1] == (s + v)[n - 1];
    assert (s + v)[n..] == rest + "=" + v;
    SameScheme(name, s + v);
    EqualsDivides(last, rest, v);
    ReplaceMatch(name);
    ReplaceMatch(s + v);
    Regroup(name[..Scheme(name)] + " " + REDACTED, Replace(last, rest), "=" + Replace(false, v));
  }

  lemma Regroup(x: string, y: string, z: string)
    ensures x + (y + z) == x + y + z
  {
  }

  lemma SameScheme(s: string, t: string)
    requires s <= t && MatchLength(s) > 0
    ensures Scheme(s) == Scheme(t) && s[..Scheme(s)] == t[..Scheme(t)]
  {
    var scheme, spaces, token, rest := TakeApart(s);
    assert t == scheme + t[|scheme|..];
    SchemeConcat(scheme, t[|scheme|..]);
  }

  // If one does, the equals sign is gone, and a value that does not continue the
  // token is scanned on its own.
  lemma {:induction false} EqualsVanishes(word: bool, name: string, v: string)
    requires '=' !in name && RunsOn(word, name)
    requires v != "" ==> !IsTokenChar(v[0])
    ensures '=' !in Replace(word, name + "=")
    ensures Replace(word, name + "=" + v) == Replace(word, name + "=") + Replace(false, v)
    decreases |name|
  {
    hide MatchLength, Scheme, Replace;
    var s := name + "=";
    SameStart(name, v);
    var n := MatchLength(s);
    if !word && n > 0 {
      if n == |s| {
        TokenRunsOn(name, v);
      } else {
        VanishAfterMatch(name, v, n);
      }
    } else {
      var rest := name[1..];
      NothingAdded(name);
      NothingAdded(rest);
      PassOver(word, name, "");
      PassOver(word, name, v);
      EqualsVanishes(IsWordChar(name[0]), rest, v);
      Regroup([name[0]], Replace(IsWordChar(name[0]), rest + "="), Replace(false, v));
    }
  }

  lemma NothingAdded(name: string)
    ensures name + "=" + "" == name + "="
  {
  }

  lemma {:induction false} VanishAfterMatch(name: string, v: string, n: nat)
    requires '=' !in name && RunsOn(false, name)
    requires v != "" ==> !IsTokenChar(v[0])
    requires n == MatchLength(name + "=") == MatchLength(name + "=" + v) && 0 < n < |name|
    ensures '=' !in Replace(false, name + "=")
    ensures Replace(false, name + "=" + v) == Replace(false, name + "=") + Replace(false, v)
    decreases |name|, 0
  {
    hide MatchLength, Scheme, Replace;
    var s := name + "=";
    var last, rest := IsWordChar(name[n - 1]), name[n..];
    assert s[n - 1] == name[n - 1] == (s + v)[n - 1];
    assert s[n..] == rest + "=";
    assert (s + v)[n..] == rest + "=" + v;
    SameScheme(s, s + v);
    ReplaceMatch(s);
    ReplaceMatch(s + v);
    EqualsVanishes(last, rest, v);
    var head := s[..Scheme(s)] + " " + REDACTED;
    SchemeIsName(name);
    Regroup(head, Replace(last, rest + "="), Replace(false, v));
  }

  lemma SchemeIsName(name: string)
    requires '=' !in name && MatchLength(name + "=") > 0
    ensures '=' !in (name + "=")[..Scheme(name + "=")]
  {
    var s := name + "=";
    MatchSpells(s);
    var j: nat, k: nat :| Spells(s, 0, j, k);
    forall m | 0 <= m < Scheme(s) ensures s[m] != '=' {
      SchemeThenNothing(s, s, Scheme(s), j, k);
      CredentialAlphabet(s, 0, j, k, m);
    }
  }

  lemma TokenRunsOn(name: string, v: string)
    requires '=' !in name && MatchLength(name + "=") == |name| + 1
    requires v != "" ==> !IsTokenChar(v[0])
    ensures '=' !in Replace(false, name + "=")
    ensures Replace(false, name + "=" + v) == Replace(false, name + "=") + Replace(false, v)
  {
    hide MatchLength, Scheme, Replace, IsTokenChar;
    var s := name + "=";
    RunOnShown(name);
    MatchExtends(s, s, v);
    SameScheme(s, s + v);
    MatchAll(s, v);
  }

  lemma RunOnShown(name: string)
    requires '=' !in name && MatchLength(name + "=") == |name| + 1
    ensures var s := name + "="; Replace(false, s) == s[..Scheme(s)] + " " + REDACTED
    ensures '=' !in Replace(false, name + "=")
  {
    hide MatchLength, Scheme, Replace;
    var s := name + "=";
    assert s + "" == s;
    MatchAll(s, "");
    EmptyStays(false);
    SchemeIsName(name);
  }

  lemma MatchAll(s: string, v: string)
    requires s != "" && !IsWordChar(s[|s| - 1]) && MatchLength(s + v) == |s|
    ensures Replace(false, s + v) == (s + v)[..Scheme(s + v)] + " " + REDACTED + Replace(false, v)
  {
    hide MatchLength, Scheme, Replace;
    ReplaceMatch(s + v);
    assert (s + v)[|s|..] == v && (s + v)[|s| - 1] == s[|s| - 1];
  }

  // ----- names of secrets around an equals sign -----

  lemma EqualsFoldsNothing(word: string, k: nat)
    requires k < |word| && '=' !in word
    ensures !Folds('=', word[k])
  {
    assert word[k] in word;
  }

  lemma WordBeforeEquals(r: string, y: string, i: nat, word: string)
    requires WordAt(r + "=" + y, i, word) && |y| < 3 <= |word| && '=' !in word
    ensures WordAt(r, i, word)
  {
    var t := r + "=" + y;
    assert i <= |r|;
    if i + |word| > |r| {
      EqualsFoldsNothing(word, |r| - i);
    }
    forall k | 0 <= k < |word| ensures Folds(r[i + k], word[k]) {
      assert t[i + k] == r[i + k];
    }
  }

  lemma GapBeforeEquals(r: string, y: string, i: nat, head: string, tail: string)
    requires GapAt(r + "=" + y, i, head, tail) && |y| < 3 <= |head| && 3 <= |tail|
    requires '=' !in head && '=' !in tail
    ensures GapAt(r, i, head, tail)
  {
    var t := r + "=" + y;
    WordBeforeEquals(r, y, i, head);
    if WordAt(t, i + |head|, tail) {
      WordBeforeEquals(r, y, i + |head|, tail);
    } else {
      WordBeforeEquals(r, y, i + |head| + 1, tail);
      assert t[i + |head|] == r[i + |head|];
    }
  }

  // An equals sign and less than three characters complete no sensitive word.
  lemma SensitiveBeforeEquals(r: string, y: string)
    requires |y| < 3
    ensures Sensitive(r + "=" + y) <==> Sensitive(r)
  {
    var t := r + "=" + y;
    if Sensitive(r) {
      SensitiveExtends(r, "=" + y);
      assert r + ("=" + y) == t;
    }
    forall i: nat, w: string | WordAt(t, i, w) && 3 <= |w| && '=' !in w ensures WordAt(r, i, w) {
      WordBeforeEquals(r, y, i, w);
    }
    forall i: nat, v: string, w: string
      | GapAt(t, i, v, w) && 3 <= |v| && 3 <= |w| && '=' !in v && '=' !in w
      ensures GapAt(r, i, v, w)
    {
      GapBeforeEquals(r, y, i, v, w);
    }
  }

  lemma {:induction false} NoEqualsAppears(word: bool, s: string)
    requires '=' !in s
    ensures '=' !in Replace(word, s)
    decreases |s|
  {
    hide MatchLength, Scheme;
    if s != "" {
      var n := MatchLength(s);
      if !word && n > 0 {
        NoEqualsAppears(IsWordChar(s[n - 1]), s[n..]);
      } else {
        NoEqualsAppears(IsWordChar(s[0]), s[1..]);
      }
    }
  }

  // ----- when the value of an assignment is hidden -----

  function Assigned(name: string, value: string): string { RedactString(name + "=" + value) }

  // What is assigned has no influence on the result, exactly when no token in the
  // name runs on through the equals sign and the name, as it is shown, still
  // names a secret. Then the result is that name and the mark.
  lemma ValueIsHiddenExactly(name: string)
    requires '=' !in name
    ensures (forall v, w :: Assigned(name, v) == Assigned(name, w))
            <==> !RunsOn(false, name) && Sensitive(Replace(false, name))
    ensures !RunsOn(false, name) && Sensitive(Replace(false, name))
            ==> forall v :: Assigned(name, v) == Replace(false, name) + "=" + REDACTED
  {
    hide Sensitive, Replace, RunsOn, Assigned;
    if RunsOn(false, name) {
      SpaceIsShown(name);
    } else if Sensitive(Replace(false, name)) {
      forall v ensures Assigned(name, v) == Replace(false, name) + "=" + REDACTED {
        HiddenValue(name, v);
      }
    } else {
      LetterIsShown(name);
    }
  }

  lemma HiddenValue(name: string, v: string)
    requires '=' !in name && !RunsOn(false, name) && Sensitive(Replace(false, name))
    ensures Assigned(name, v) == Replace(false, name) + "=" + REDACTED
  {
    hide Sensitive, Replace, RunsOn;
    var r, y := Replace(false, name), Replace(false, v);
    EqualsDivides(false, name, v);
    NoEqualsAppears(false, name);
    SensitiveExtends(r, "=" + y);
    assert r + ("=" + y) == r + "=" + y;
    BeforeUnique(r, r + "=" + y);
  }

  lemma SpaceIsShown(name: string)
    requires '=' !in name && RunsOn(false, name)
    ensures Assigned(name, "") != Assigned(name, " ")
  {
    hide Sensitive, RunsOn;
    EmptyStays(false);
    EqualsVanishes(false, name, "");
    EqualsVanishes(false, name, " ");
    OneCharacter(' ');
    assert name + "=" + "" == name + "=";
  }

  lemma OneCharacter(c: char)
    ensures Replace(false, [c]) == [c]
  {
    assert [c][1..] == "";
    if MatchLength([c]) > 0 { MatchSpells([c]); }
  }

  lemma LetterIsShown(name: string)
    requires '=' !in name && !RunsOn(false, name) && !Sensitive(Replace(false, name))
    ensures Assigned(name, "") != Assigned(name, "x")
  {
    hide Sensitive, RunsOn;
    var r := Replace(false, name);
    EqualsDivides(false, name, "");
    EqualsDivides(false, name, "x");
    OneCharacter('x');
    SensitiveBeforeEquals(r, "");
    SensitiveBeforeEquals(r, "x");
    assert r + "=" + "" == r + "=";
    assert name + "=" + "" == name + "=";
  }

  // Where a token does run on, a clean value behind a space is shown in full.
  lemma ValueLeaks(name: string, value: string)
    requires '=' !in name && RunsOn(false, name)
    requires '=' !in value && Clean(" " + value)
    ensures Assigned(name, " " + value) == Replace(false, name + "=") + " " + value
  {
    hide Sensitive, RunsOn, Replace;
    EqualsVanishes(false, name, " " + value);
    ReplaceFixes(false, " " + value);
  }

  // For example the secret behind a named bearer token.
  lemma NamedTokenLeaks()
    ensures RedactString("token Bearer abc=x LEAK") == "token Bearer [REDACTED] LEAK"
    ensures Sensitive("token Bearer abc")
  {
    hide Sensitive, Replace, IsCredential, Clean;
    var p, rest := "token ", " LEAK";
    LeakyCredential();
    ShortIsClean();
    CredentialIsInvisible(false, p, "Bearer", " ", "abc=x", rest);
    ReplaceFixes(false, rest);
    assert p + "Bearer" + (" " + ("abc=x" + rest)) == "token Bearer abc=x LEAK";
    assert p + ("Bearer" + " " + REDACTED + rest) == "token Bearer [REDACTED] LEAK";
    NamesToken();
    assert '=' !in "token Bearer [REDACTED] LEAK";
  }

  lemma LeakyCredential()
    ensures IsCredential("Bearer", " ", "abc=x", " LEAK")
  {
    assert WordAt("Bearer", 0, "bearer");
  }

  lemma NamesToken()
    ensures Sensitive("token Bearer abc")
  {
    assert WordAt("token Bearer abc", 0, "token");
  }

  lemma ShortIsClean()
    ensures Clean("token " + "Bearer") && Clean(" LEAK")
  {
    var s := "token " + "Bearer";
    forall i: nat ensures !CredentialAt(false, s, i) {
      if j: nat, k: nat :| Spells(s, i, j, k) {
        CredentialStartsWithB(s, i, j, k);
      }
    }
    forall i: nat ensures !CredentialAt(false, " LEAK", i) {
      if j: nat, k: nat :| Spells(" LEAK", i, j, k) {
        CredentialStartsWithB(" LEAK", i, j, k);
      }
    }
  }
}
