// Which strings redact to the same string: those that become equal by hiding
// secrets one at a time.
module HidingSteps {
  import opened Redaction
  import opened Text
  import Hiding

  // One credential, after text that carries none, is replaced by its scheme word
  // and the mark.
  ghost predicate HidesToken(s: string, t: string) {
    exists p, scheme, spaces, token, rest :: TokenStep(s, t, p, scheme, spaces, token, rest)
  }

  ghost predicate TokenStep(s: string, t: string, p: string, scheme: string, spaces: string, token: string,
      rest: string) {
    && IsCredential(scheme, spaces, token, rest)
    && Clean(p + scheme) && (p != "" ==> !IsWordChar(p[|p| - 1]))
    && s == p + scheme + (spaces + (token + rest))
    && t == p + scheme + " " + REDACTED + rest
  }

  // In a text without credentials that names a secret, what follows the first
  // equals sign is replaced by the mark.
  ghost predicate HidesValue(s: string, t: string) {
    Clean(s) && Sensitive(s) && '=' in s && t == Before(s, '=') + "=" + REDACTED
  }

  ghost predicate Step(s: string, t: string) { HidesToken(s, t) || HidesValue(s, t) }

  ghost predicate Steps(zs: seq<string>, s: string, t: string) {
    zs != [] && zs[0] == s && zs[|zs| - 1] == t && forall i :: 0 <= i < |zs| - 1 ==> Step(zs[i], zs[i + 1])
  }

  // t is s with some of its secrets hidden.
  ghost predicate Hides(s: string, t: string) { exists zs :: Steps(zs, s, t) }

  lemma HidesNothing(s: string)
    ensures Hides(s, s)
  {
    assert Steps([s], s, s);
  }

  lemma HidesOneMore(s: string, t: string, u: string)
    requires Hides(s, t) && Step(t, u)
    ensures Hides(s, u)
  {
    hide Step;
    var zs :| Steps(zs, s, t);
    var ws := zs + [u];
    forall i | 0 <= i < |ws| - 1 ensures Step(ws[i], ws[i + 1]) {
      if i < |zs| - 1 { assert Step(zs[i], zs[i + 1]); }
    }
    assert Steps(ws, s, u);
  }

  // ----- hiding does not change what redaction yields -----

  // No credential starts in a redacted credential or in the clean text before it.
  lemma HeadStaysClean(p: string, scheme: string, rest: string)
    requires IsScheme(scheme) && Clean(p + scheme)
    ensures var q := p + scheme + " " + REDACTED; CleanUpTo(false, q + rest, |q|)
  {
    hide IsScheme;
    var q := p + scheme + " " + REDACTED;
    var t, e := q + rest, |p + scheme|;
    assert forall m :: 0 <= m < |q| ==> t[m] == q[m];
    forall i: nat | i < |q| ensures !CredentialAt(false, t, i) {
      assert !CredentialAt(false, p + scheme, i);
      if j: nat, k: nat :| Spells(t, i, j, k) && CredentialAt(false, t, i) {
        CredentialStartsWithB(t, i, j, k);
        if i >= e {
          MarkHasNoB(p + scheme, i);
        } else {
          EndsBeforeMark(p + scheme, rest, i, j, k);
          SameSpelling(t, p + scheme, i, j, k);
        }
      }
    }
  }

  lemma MarkHasNoB(x: string, i: nat)
    requires |x| <= i < |x + " " + REDACTED|
    ensures (x + " " + REDACTED)[i] != 'b' && (x + " " + REDACTED)[i] != 'B'
  {
  }

  lemma EndsBeforeMark(x: string, rest: string, i: nat, j: nat, k: nat)
    requires Spells(x + " " + REDACTED + rest, i, j, k) && i < |x|
    ensures k < |x|
  {
    var t := x + " " + REDACTED + rest;
    assert t[|x|] == ' ' && t[|x| + 1] == '[';
    if k > |x| { CredentialAlphabet(t, i, j, k, |x| + 1); }
  }

  lemma TokenStepKeeps(s: string, t: string, p: string, scheme: string, spaces: string, token: string, rest: string)
    requires TokenStep(s, t, p, scheme, spaces, token, rest)
    ensures Replace(false, s) == Replace(false, t)
  {
    hide IsCredential, Replace, CleanUpTo;
    SchemeOfCredential(scheme, spaces, token, rest);
    CredentialIsInvisible(false, p, scheme, spaces, token, rest);
    HeadStaysClean(p, scheme, rest);
    var q := p + scheme + " " + REDACTED;
    ReplacePrefix(false, q, rest);
    assert q[|q| - 1] == ']';
    Regrouped(p, scheme, Replace(false, rest));
  }

  lemma SchemeOfCredential(scheme: string, spaces: string, token: string, rest: string)
    requires IsCredential(scheme, spaces, token, rest)
    ensures IsScheme(scheme)
  {
  }

  lemma Regrouped(p: string, scheme: string, y: string)
    ensures p + (scheme + " " + REDACTED + y) == p + scheme + " " + REDACTED + y
  {
  }

  lemma StepKeeps(s: string, t: string)
    requires Step(s, t)
    ensures RedactString(s) == RedactString(t)
  {
    hide TokenStep, Sensitive, Replace;
    if HidesToken(s, t) {
      var p, scheme, spaces, token, rest :| TokenStep(s, t, p, scheme, spaces, token, rest);
      TokenStepKeeps(s, t, p, scheme, spaces, token, rest);
    } else {
      ReplaceFixes(false, s);
      assert RedactString(s) == t;
      RedactStringProjects(s);
    }
  }

  lemma {:induction false} StepsKeep(zs: seq<string>, s: string, t: string)
    requires Steps(zs, s, t)
    ensures RedactString(s) == RedactString(t)
    decreases |zs|
  {
    hide Step, RedactString;
    if |zs| > 1 {
      var n := |zs| - 1;
      assert Step(zs[n - 1], zs[n]);
      StepKeeps(zs[n - 1], zs[n]);
      var ws := zs[..n];
      forall i | 0 <= i < |ws| - 1 ensures Step(ws[i], ws[i + 1]) { assert Step(zs[i], zs[i + 1]); }
      StepsKeep(ws, s, zs[n - 1]);
    }
  }

  // ----- redaction is such a hiding -----

  // The text q is done; no credential starts in it.
  lemma {:induction false} HidesRest(x: string, q: string, word: bool, s: string)
    requires Hides(x, q + s) && CleanUpTo(false, q + s, |q|)
    requires word == (q != "" && IsWordChar(q[|q| - 1]))
    ensures Hides(x, q + Replace(word, s))
    decreases |s|
  {
    hide Hides, CleanUpTo, Replace, MatchLength;
    if s == "" {
      Hiding.EmptyStays(word);
    } else if !word && MatchLength(s) > 0 {
      HidesMatch(x, q, s);
    } else {
      var c, rest := [s[0]], s[1..];
      assert s == c + rest;
      Hiding.ReplaceStep(word, s);
      Moved(q, s[0], rest);
      OneFurther(q, word, s);
      HidesRest(x, q + c, IsWordChar(s[0]), rest);
      Moved(q, s[0], Replace(IsWordChar(s[0]), rest));
    }
  }

  lemma Moved(q: string, c: char, rest: string)
    ensures q + [c] + rest == q + ([c] + rest)
    ensures (q + [c])[|q + [c]| - 1] == c
  {
  }

  lemma OneFurther(q: string, word: bool, s: string)
    requires CleanUpTo(false, q + s, |q|) && s != ""
    requires word == (q != "" && IsWordChar(q[|q| - 1]))
    requires word || MatchLength(s) == 0
    ensures CleanUpTo(false, q + s, |q + [s[0]]|)
  {
    hide MatchLength;
    MatchSpells(s);
    if CredentialAt(false, q + s, |q|) {
      var j: nat, k: nat :| Spells(q + s, |q|, j, k);
      SpellsShift(q, s, 0, j - |q|, k - |q|);
    }
  }

  // A credential at the end of the done text is hidden.
  lemma {:induction false} HidesMatch(x: string, q: string, s: string)
    requires Hides(x, q + s) && CleanUpTo(false, q + s, |q|)
    requires q == "" || !IsWordChar(q[|q| - 1])
    requires MatchLength(s) > 0
    ensures Hides(x, q + Replace(false, s))
    decreases |s|, 0
  {
    hide Hides, CleanUpTo, Replace, MatchLength, Scheme, IsScheme, IsBlank, IsTokenChar, Step;
    var scheme, spaces, token, rest := Hiding.TakeApart(s);
    CleanBefore(q, scheme, s);
    var done := q + scheme + " " + REDACTED;
    Hiding.Regroup(q, scheme, spaces + (token + rest));
    assert TokenStep(q + s, done + rest, q, scheme, spaces, token, rest);
    TokenStepIsStep(q + s, done + rest, q, scheme, spaces, token, rest);
    HidesOneMore(x, q + s, done + rest);
    HeadStaysClean(q, scheme, rest);
    assert done[|done| - 1] == ']';
    HidesRest(x, done, false, rest);
    CredentialReplaced(scheme, spaces, token, rest);
    Regrouped(q, scheme, Replace(false, rest));
  }

  lemma TokenStepIsStep(s: string, t: string, p: string, scheme: string, spaces: string, token: string, rest: string)
    requires TokenStep(s, t, p, scheme, spaces, token, rest)
    ensures Step(s, t)
  {
  }

  lemma CleanBefore(q: string, scheme: string, s: string)
    requires CleanUpTo(false, q + s, |q|) && IsScheme(scheme) && scheme <= s
    ensures Clean(q + scheme)
  {
    hide IsScheme;
    var y := q + scheme;
    assert y <= q + s;
    forall i: nat ensures !CredentialAt(false, y, i) {
      assert i < |q| ==> !CredentialAt(false, q + s, i);
      if j: nat, k: nat :| Spells(y, i, j, k) && CredentialAt(false, y, i) {
        SameSpelling(y, q + s, i, j, k);
        if i >= |q| {
          SpellsShift(q, scheme, i - |q|, j - |q|, k - |q|);
          NoneInScheme(scheme, i - |q|, j - |q|, k - |q|);
        }
      }
    }
  }

  lemma NoneInScheme(scheme: string, i: nat, j: nat, k: nat)
    requires IsScheme(scheme)
    ensures !Spells(scheme, i, j, k)
  {
  }

  lemma HidesToRedacted(x: string)
    ensures Hides(x, RedactString(x))
  {
    hide Hides, Sensitive, Replace, Step;
    var v := Replace(false, x);
    HidesNothing(x);
    assert "" + x == x && "" + v == v;
    assert CleanUpTo(false, "" + x, 0);
    HidesRest(x, "", false, x);
    if Sensitive(v) && '=' in v {
      ReplaceClean(false, x);
      ValueStep(v);
      HidesOneMore(x, v, RedactString(x));
    }
  }

  lemma ValueStep(v: string)
    requires Clean(v) && Sensitive(v) && '=' in v
    ensures Step(v, Before(v, '=') + "=" + REDACTED)
  {
  }

  // Two strings redact to the same string exactly when hiding credentials and
  // values, one at a time, can make them equal.
  ghost predicate SameUpToSecrets(x: string, y: string) { exists z :: Hides(x, z) && Hides(y, z) }

  lemma RedactionHidesExactly(x: string, y: string)
    ensures RedactString(x) == RedactString(y) <==> SameUpToSecrets(x, y)
  {
    hide RedactString, Steps;
    if RedactString(x) == RedactString(y) {
      HidesToRedacted(x);
      HidesToRedacted(y);
    }
    if z :| Hides(x, z) && Hides(y, z) {
      var xs :| Steps(xs, x, z);
      var ys :| Steps(ys, y, z);
      StepsKeep(xs, x, z);
      StepsKeep(ys, y, z);
    }
  }
}
