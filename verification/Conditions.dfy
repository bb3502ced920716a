// What each operator of a condition means on evidence, as the answer on whether a
// control with that one condition applies.
module Conditions {
  import opened Common
  import opened Controls
  import opened Floats
  import opened Json
  import opened Attestation
  import Text

  // The rule that asks for one condition.
  function OnlyIf(field: string, operator: string, value: GoValue): Option<Applicability> {
    Some(Applicability([Condition(field, operator, value)], []))
  }

  predicate Asks(field: string, operator: string, value: GoValue, evidence: Json, sprint: GoValue -> string) {
    Applies(OnlyIf(field, operator, value), evidence, sprint)
  }

  lemma AsksHolds(field: string, operator: string, value: GoValue, evidence: Json, sprint: GoValue -> string)
    ensures Asks(field, operator, value, evidence, sprint) <==>
            Holds(Condition(field, operator, value), Lookup(evidence, Text.Split(field, '.')), sprint)
  {
    hide Holds;
    var rule := OnlyIf(field, operator, value).value;
    assert rule.all[0] == Condition(field, operator, value);
  }

  // The evidence has x at the field.
  predicate Present(evidence: Json, field: string, x: Json) { Lookup(evidence, Text.Split(field, '.')) == Some(x) }

  // The value is the finite number n.
  predicate IsNumber(value: GoValue, n: real) {
    (value.Int? && value.whole as real == n) || (value.Double? && value.fraction == Real(n))
  }

  // Evidence x is the value as it is written.
  predicate Written(x: Json, value: GoValue) { (value.Int? || !Unmatchable(value)) && x == AsJson(value) }

  lemma EquivalentIsWritten(x: Json, value: GoValue)
    ensures Equivalent(x, value) <==> Written(x, value)
  {
    DeepEqualExactly(x, value);
  }

  // "exists" asks for the field to be there, whatever it holds.
  lemma ExistsMeans(field: string, value: GoValue, evidence: Json, sprint: GoValue -> string)
    ensures Asks(field, "exists", value, evidence, sprint) <==> exists x :: Present(evidence, field, x)
  {
    AsksHolds(field, "exists", value, evidence, sprint);
    var found := Lookup(evidence, Text.Split(field, '.'));
    if found.Some? { assert Present(evidence, field, found.value); }
  }

  // "greaterThan" and "lessThan" compare numbers, as reals, and fail on all else.
  // Every number is greater than minus infinity and less than infinity.
  lemma OrderMeans(field: string, value: GoValue, evidence: Json, x: Json, sprint: GoValue -> string)
    requires Present(evidence, field, x)
    ensures Asks(field, "greaterThan", value, evidence, sprint) <==>
            x.Num? && (value == Double(NegInf) || exists n :: IsNumber(value, n) && x.number > n)
    ensures Asks(field, "lessThan", value, evidence, sprint) <==>
            x.Num? && (value == Double(PosInf) || exists n :: IsNumber(value, n) && x.number < n)
  {
    AsksHolds(field, "greaterThan", value, evidence, sprint);
    AsksHolds(field, "lessThan", value, evidence, sprint);
    if value.Int? { assert IsNumber(value, value.whole as real); }
    if value.Double? && value.fraction.Real? { assert IsNumber(value, value.fraction.value); }
  }

  // "equals" asks for the value as it is written, "notEquals" for anything else.
  lemma EqualsMeans(field: string, value: GoValue, evidence: Json, x: Json, sprint: GoValue -> string)
    requires Present(evidence, field, x)
    ensures Asks(field, "equals", value, evidence, sprint) <==> Written(x, value)
    ensures Asks(field, "notEquals", value, evidence, sprint) <==> !Written(x, value)
  {
    hide Equivalent, Written;
    AsksHolds(field, "equals", value, evidence, sprint);
    AsksHolds(field, "notEquals", value, evidence, sprint);
    EquivalentIsWritten(x, value);
  }

  // Between finite numbers exactly one of less, equal and greater holds.
  lemma ExactlyOne(field: string, value: GoValue, n: real, evidence: Json, x: Json, sprint: GoValue -> string)
    requires Present(evidence, field, x) && x.Num? && IsNumber(value, n)
    ensures Asks(field, "lessThan", value, evidence, sprint) <==> x.number < n
    ensures Asks(field, "equals", value, evidence, sprint) <==> x.number == n
    ensures Asks(field, "greaterThan", value, evidence, sprint) <==> x.number > n
  {
    OrderMeans(field, value, evidence, x, sprint);
    EqualsMeans(field, value, evidence, x, sprint);
  }

  // "contains" asks a text for a part and an array for an element.
  lemma ContainsMeans(field: string, value: GoValue, evidence: Json, x: Json, sprint: GoValue -> string)
    requires Present(evidence, field, x)
    ensures x.Str? && value.GoStr? ==>
              (Asks(field, "contains", value, evidence, sprint) <==> HasPart(x.text, value.text))
    ensures x.Str? && !value.GoStr? ==>
              (Asks(field, "contains", value, evidence, sprint) <==> HasPart(x.text, sprint(value)))
    ensures x.Arr? ==>
              (Asks(field, "contains", value, evidence, sprint)
               <==> exists i :: 0 <= i < |x.items| && Written(x.items[i], value))
    ensures !x.Str? && !x.Arr? ==> !Asks(field, "contains", value, evidence, sprint)
  {
    hide Equivalent, Written, Contains, HasPart, AnyElement;
    AsksHolds(field, "contains", value, evidence, sprint);
    if x.Str? { ContainsExactly(x.text, Sprint(value, sprint)); }
    if x.Arr? { AnyEquivalent(x.items, value); }
  }

  lemma AnyEquivalent(items: seq<Json>, value: GoValue)
    ensures AnyElement(items, value) <==> exists i :: 0 <= i < |items| && Written(items[i], value)
  {
    hide Equivalent, Written;
    if i :| 0 <= i < |items| && Equivalent(items[i], value) { EquivalentIsWritten(items[i], value); }
    if i :| 0 <= i < |items| && Written(items[i], value) { EquivalentIsWritten(items[i], value); }
  }

  ghost predicate HasPart(s: string, part: string) { exists p, q :: s == p + part + q }

  lemma ContainsExactly(s: string, part: string)
    ensures Contains(s, part) <==> HasPart(s, part)
  {
    if i :| 0 <= i <= |s| && part <= s[i..] {
      assert s == s[..i] + part + s[i..][|part|..];
    }
    if p, q :| s == p + part + q {
      assert s[|p|..] == part + q;
    }
  }

  // "in" asks for one of the elements of a list.
  lemma InMeans(field: string, value: GoValue, evidence: Json, x: Json, sprint: GoValue -> string)
    requires Present(evidence, field, x)
    ensures Asks(field, "in", value, evidence, sprint) <==>
            value.List? && exists i :: 0 <= i < |value.items| && Written(x, value.items[i])
  {
    hide Equivalent, Written;
    AsksHolds(field, "in", value, evidence, sprint);
    if value.List? {
      forall i | 0 <= i < |value.items| ensures Equivalent(x, value.items[i]) <==> Written(x, value.items[i]) {
        EquivalentIsWritten(x, value.items[i]);
      }
    }
  }

  // Any other operator asks for what cannot be.
  lemma OthersFail(field: string, operator: string, value: GoValue, evidence: Json, sprint: GoValue -> string)
    requires operator !in {"exists", "equals", "notEquals", "greaterThan", "lessThan", "contains", "in"}
    ensures !Asks(field, operator, value, evidence, sprint)
  {
    AsksHolds(field, operator, value, evidence, sprint);
  }

  // A rule asks for all of its one list and, when it is not empty, for some of the
  // other.
  lemma RuleMeans(rule: Applicability, evidence: Json, sprint: GoValue -> string)
    ensures Applies(Some(rule), evidence, sprint) <==>
            && (forall c :: c in rule.all ==> Asks(c.field, c.operator, c.value, evidence, sprint))
            && (rule.any == [] || exists c :: c in rule.any && Asks(c.field, c.operator, c.value, evidence, sprint))
  {
    hide Matches, Asks;
    forall c: Condition ensures Asks(c.field, c.operator, c.value, evidence, sprint) <==> Matches(c, evidence, sprint) {
      OneCondition(c, evidence, sprint);
    }
    if Applies(Some(rule), evidence, sprint) {
      forall c | c in rule.all ensures Matches(c, evidence, sprint) {
        var i :| 0 <= i < |rule.all| && rule.all[i] == c;
      }
      if rule.any != [] {
        var i :| 0 <= i < |rule.any| && Matches(rule.any[i], evidence, sprint);
        assert rule.any[i] in rule.any;
      }
    }
    if forall c :: c in rule.all ==> Asks(c.field, c.operator, c.value, evidence, sprint) {
      assert forall i :: 0 <= i < |rule.all| ==> rule.all[i] in rule.all;
    }
    if c :| c in rule.any && Asks(c.field, c.operator, c.value, evidence, sprint) {
      var i :| 0 <= i < |rule.any| && rule.any[i] == c;
      assert Matches(rule.any[i], evidence, sprint);
    }
  }

  lemma OneCondition(c: Condition, evidence: Json, sprint: GoValue -> string)
    ensures Asks(c.field, c.operator, c.value, evidence, sprint) <==> Matches(c, evidence, sprint)
  {
    hide Holds;
    AsksHolds(c.field, c.operator, c.value, evidence, sprint);
    assert c == Condition(c.field, c.operator, c.value);
  }
}
