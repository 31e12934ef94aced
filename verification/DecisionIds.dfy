/** What decision ids are made of, and that ordinary thresholds get different ones. */
module DecisionIds {
  import opened Keyed
  import opened Sorting
  import opened DiagramText
  import opened ThresholdChains

  /** A letter, a digit or an underscore. */
  predicate IsIdChar(c: char) {
    'A' <= c <= 'Z' || 'a' <= c <= 'z' || '0' <= c <= '9' || c == '_'
  }

  predicate IsIdText(s: string) { forall k | 0 <= k < |s| :: IsIdChar(s[k]) }

  /** Sanitising keeps letters, digits and underscores where they are and puts an underscore for all else. */
  lemma {:induction false} SanitizeExactly(s: string)
    ensures |SanitizeId(s)| == |s|
    ensures forall k | 0 <= k < |s| :: SanitizeId(s)[k] == if IsIdChar(s[k]) then s[k] else '_'
  {
    if s != [] {
      SanitizeExactly(s[1..]);
    }
  }

  /** What is made of letters, digits and underscores stays as it is, and nothing else does. */
  lemma SanitizeKeepsExactly(s: string)
    ensures SanitizeId(s) == s <==> IsIdText(s)
    ensures IsIdText(SanitizeId(s))
  {
    SanitizeExactly(s);
    if SanitizeId(s) == s {
      forall k | 0 <= k < |s|
        ensures IsIdChar(s[k])
      {
        assert SanitizeId(s)[k] == s[k];
      }
    }
  }

  // ---------------------------------------------------------------------------------------------
  // Numerals
  // ---------------------------------------------------------------------------------------------

  /** Digits and dots after a digit or a sign: how numbers are written without an exponent. */
  predicate IsNumeral(s: string) {
    forall k | 0 <= k < |s| :: '0' <= s[k] <= '9' || (s[k] == '-' && k == 0) || (s[k] == '.' && k > 0)
  }

  lemma {:induction false} FirstDotOnly(s: string)
    ensures |ValToSafe(s)| == |s|
    ensures forall k | 0 <= k < |s| :: ValToSafe(s)[k] == s[k] || (s[k] == '.' && ValToSafe(s)[k] == '_')
  {
    if s != [] && s[0] != '.' {
      FirstDotOnly(s[1..]);
    }
  }

  /** The sanitised form of a numeral has its digits in place, and underscores for its sign and its dots. */
  lemma SafeNumeral(s: string)
    requires IsNumeral(s)
    ensures var safe := SanitizeId(ValToSafe(s));
            |safe| == |s| && forall k | 0 <= k < |s| :: safe[k] == if '0' <= s[k] <= '9' then s[k] else '_'
  {
    FirstDotOnly(s);
    SanitizeExactly(ValToSafe(s));
  }

  lemma NumeralsTell(s: string, t: string)
    requires IsNumeral(s) && IsNumeral(t)
    ensures SanitizeId(ValToSafe(s)) == SanitizeId(ValToSafe(t)) <==> s == t
  {
    SafeNumeral(s);
    SafeNumeral(t);
    if SanitizeId(ValToSafe(s)) == SanitizeId(ValToSafe(t)) {
      forall k | 0 <= k < |s|
        ensures s[k] == t[k]
      {
        assert SanitizeId(ValToSafe(s))[k] == SanitizeId(ValToSafe(t))[k];
      }
    }
  }

  lemma WordBetween(c: Comparison, word: string)
    requires word == if c == Greater then "_gt_" else "_lt_"
    ensures "_" + OpWord(c) + "_" == word && IsIdText(word)
  {
  }

  /** A decision id is the expression, "gt" or "lt" and the numeral, with underscores between and for all else. */
  lemma DecisionIdParts(show: real -> string, lhs: string, c: Comparison, value: real, word: string)
    requires word == if c == Greater then "_gt_" else "_lt_"
    ensures DecisionId(show, lhs, c, value) == SanitizeId(lhs) + word + SanitizeId(ValToSafe(show(value)))
  {
    var safe := ValToSafe(show(value));
    WordBetween(c, word);
    assert lhs + "_" + OpWord(c) + "_" + safe == lhs + ("_" + OpWord(c) + "_" + safe);
    assert "_" + OpWord(c) + "_" + safe == ("_" + OpWord(c) + "_") + safe;
    SanitizeAppend(lhs, word + safe);
    SanitizeAppend(word, safe);
    SanitizeKeepsExactly(word);
    assert SanitizeId(lhs) + (word + SanitizeId(safe)) == SanitizeId(lhs) + word + SanitizeId(safe);
  }

  /** Thresholds whose numerals differ have different decisions, and so have the two comparisons. */
  lemma DecisionIdsTell(show: real -> string, lhs: string, c: Comparison, x: real, d: Comparison, y: real)
    requires IsNumeral(show(x)) && IsNumeral(show(y))
    ensures DecisionId(show, lhs, c, x) == DecisionId(show, lhs, d, y) <==> c == d && show(x) == show(y)
  {
    var a, b := DecisionId(show, lhs, c, x), DecisionId(show, lhs, d, y);
    var n := |SanitizeId(lhs)|;
    DecisionIdParts(show, lhs, c, x, if c == Greater then "_gt_" else "_lt_");
    DecisionIdParts(show, lhs, d, y, if d == Greater then "_gt_" else "_lt_");
    NumeralsTell(show(x), show(y));
    assert a[n + 1] == if c == Greater then 'g' else 'l';
    assert b[n + 1] == if d == Greater then 'g' else 'l';
    assert a[n + 4..] == SanitizeId(ValToSafe(show(x))) && b[n + 4..] == SanitizeId(ValToSafe(show(y)));
  }

  // ---------------------------------------------------------------------------------------------
  // Chains of such thresholds
  // ---------------------------------------------------------------------------------------------

  function Shown(show: real -> string): Threshold -> string { (t: Threshold) => show(t.value) }

  /**
   A chain of thresholds that are written without exponents does what its lines say, for every value, exactly
   when the thresholds are written differently.
   */
  lemma NumeralsFaithfulExactly(show: real -> string, lhs: string, c: Comparison, group: seq<Threshold>)
    requires group != [] && forall t | t in group :: IsNumeral(show(t.value))
    ensures Faithful(show, lhs, c, group)
       <==> forall i, j | 0 <= i < j < |group| :: show(group[i].value) != show(group[j].value)
  {
    CompilationFaithfulExactly(show, lhs, c, group);
    var ts := Arranged(c, group);
    var ids := Ids(show, lhs, c, ts);
    SameElements(group, ts);
    forall i, j | 0 <= i < |ts| && 0 <= j < |ts|
      ensures ids[i] == ids[j] <==> Shown(show)(ts[i]) == Shown(show)(ts[j])
    {
      assert ts[i] in ts && ts[j] in ts;
      DecisionIdsTell(show, lhs, c, ts[i].value, c, ts[j].value);
    }
    assert Distinct(ids) <==> DistinctKeys(Shown(show), ts);
    if DistinctKeys(Shown(show), ts) {
      DistinctPermuted(Shown(show), ts, group);
      assert forall i | 0 <= i < |group| :: Shown(show)(group[i]) == show(group[i].value);
    }
    if forall i, j | 0 <= i < j < |group| :: show(group[i].value) != show(group[j].value) {
      assert DistinctKeys(Shown(show), group);
      DistinctPermuted(Shown(show), group, ts);
    }
  }

  lemma IdOfNumeral(show: real -> string, lhs: string, c: Comparison, value: real, word: string)
    requires word == if c == Greater then "_gt_" else "_lt_"
    requires IsIdText(lhs) && IsNumeral(show(value)) && IsIdText(show(value))
    ensures DecisionId(show, lhs, c, value) == lhs + word + show(value)
  {
    DecisionIdParts(show, lhs, c, value, word);
    SanitizeKeepsExactly(lhs);
    FirstDotOnly(show(value));
    assert ValToSafe(show(value)) == show(value);
    SanitizeKeepsExactly(show(value));
  }

  /** The decision for `x > 5` is called x_gt_5. */
  lemma FiveOnX(show: real -> string, x: string, five: string)
    requires x == "x" && five == "5" && show(5.0) == five
    ensures DecisionId(show, x, Greater, 5.0) == "x_gt_5"
  {
    IdOfNumeral(show, x, Greater, 5.0, "_gt_");
    var id := x + "_gt_" + five;
    assert id == "x_gt_5";
  }

  lemma OnlyFirst(group: seq<Threshold>, o: Outcome)
    requires |group| == 2 && group[0].value == 5.0 && group[1].value == 7.0
    requires Means(Greater, 6.0, group, o)
    ensures o == Reached(SanitizeId(group[0].target))
  {
    assert group[0] in group;
  }

  /** With `if x > 5 -> a` and `if x > 7 -> b` the value 6 is led to a. */
  lemma SixAboveFive(show: real -> string, lhs: string, group: seq<Threshold>, fuel: nat)
    requires |group| == 2 && group[0].value == 5.0 && group[1].value == 7.0 && fuel >= 2
    requires IsNumeral(show(5.0)) && IsNumeral(show(7.0)) && show(5.0) != show(7.0)
    ensures WalkGroup(show, lhs, Greater, group, 6.0, fuel) == Reached(SanitizeId(group[0].target))
  {
    NumeralsFaithfulExactly(show, lhs, Greater, group);
    var v := 6.0;
    OnlyFirst(group, WalkGroup(show, lhs, Greater, group, v, fuel));
  }
}
