/** What changing the case of ASCII letters does and which texts it makes equal; what trimming and searching find. */
module LetterCases {
  import opened Texts

  /** The same character, or one letter in its two cases: these are 32 code points apart. */
  predicate SameLetter(c: char, d: char) {
    || c == d
    || ('A' <= c <= 'Z' && d as int == c as int + 32)
    || ('A' <= d <= 'Z' && c as int == d as int + 32)
  }

  predicate SameButCase(s: string, t: string) {
    |s| == |t| && forall k | 0 <= k < |s| :: SameLetter(s[k], t[k])
  }

  lemma {:induction false} LowerExactly(s: string)
    ensures |AsciiLower(s)| == |s|
    ensures forall k | 0 <= k < |s| ::
              AsciiLower(s)[k] as int == if 'A' <= s[k] <= 'Z' then s[k] as int + 32 else s[k] as int
  {
    if s != [] {
      LowerExactly(s[1..]);
    }
  }

  lemma {:induction false} UpperExactly(s: string)
    ensures |AsciiUpper(s)| == |s|
    ensures forall k | 0 <= k < |s| ::
              AsciiUpper(s)[k] as int == if 'a' <= s[k] <= 'z' then s[k] as int - 32 else s[k] as int
  {
    if s != [] {
      UpperExactly(s[1..]);
    }
  }

  lemma LowerTells(s: string, t: string)
    ensures AsciiLower(s) == AsciiLower(t) <==> SameButCase(s, t)
  {
    LowerExactly(s);
    LowerExactly(t);
    if AsciiLower(s) == AsciiLower(t) {
      forall k | 0 <= k < |s|
        ensures SameLetter(s[k], t[k])
      {
        assert AsciiLower(s)[k] == AsciiLower(t)[k];
      }
    }
    if SameButCase(s, t) {
      forall k | 0 <= k < |s|
        ensures AsciiLower(s)[k] == AsciiLower(t)[k]
      {
        assert SameLetter(s[k], t[k]);
      }
    }
  }

  lemma UpperTells(s: string, t: string)
    ensures AsciiUpper(s) == AsciiUpper(t) <==> SameButCase(s, t)
  {
    UpperExactly(s);
    UpperExactly(t);
    if AsciiUpper(s) == AsciiUpper(t) {
      forall k | 0 <= k < |s|
        ensures SameLetter(s[k], t[k])
      {
        assert AsciiUpper(s)[k] == AsciiUpper(t)[k];
      }
    }
    if SameButCase(s, t) {
      forall k | 0 <= k < |s|
        ensures AsciiUpper(s)[k] == AsciiUpper(t)[k]
      {
        assert SameLetter(s[k], t[k]);
      }
    }
  }

  /** Lower case, and likewise upper case, makes exactly those texts equal that differ in nothing but case. */
  lemma CaseTells(s: string, t: string)
    ensures AsciiLower(s) == AsciiLower(t) <==> SameButCase(s, t)
    ensures AsciiUpper(s) == AsciiUpper(t) <==> SameButCase(s, t)
  {
    LowerTells(s, t);
    UpperTells(s, t);
  }

  lemma LowerOfUpper(s: string)
    ensures AsciiLower(AsciiUpper(s)) == AsciiLower(s)
  {
    UpperExactly(s);
    CaseTells(AsciiUpper(s), s);
  }

  // ---------------------------------------------------------------------------------------------
  // Searching
  // ---------------------------------------------------------------------------------------------

  /** Some slice of `s` is `part`, up to the case of letters. */
  ghost predicate OccursButCase(s: string, part: string) {
    exists i, j :: 0 <= i <= j <= |s| && SameButCase(s[i..j], part)
  }

  lemma {:induction false} ContainsExactly(s: string, part: string)
    ensures Contains(s, part) <==> exists i, j :: 0 <= i <= j <= |s| && s[i..j] == part
  {
    if part <= s {
      assert s[0..|part|] == part;
    }
    if s != [] {
      ContainsExactly(s[1..], part);
      if i, j :| 0 <= i <= j <= |s[1..]| && s[1..][i..j] == part {
        assert s[i + 1..j + 1] == s[1..][i..j];
      }
      if i, j :| 0 <= i <= j <= |s| && s[i..j] == part {
        if i == 0 {
          assert s[0..j] == s[..j];
        } else {
          assert s[1..][i - 1..j - 1] == s[i..j];
        }
      }
    }
  }

  lemma LowerSlice(s: string, i: nat, j: nat)
    requires i <= j <= |s|
    ensures |AsciiLower(s)| == |s| && AsciiLower(s)[i..j] == AsciiLower(s[i..j])
  {
    LowerExactly(s);
    LowerExactly(s[i..j]);
  }

  /** Looking for a lower-case text in a lower-case text is looking for the text up to case. */
  lemma LowerContainsExactly(s: string, part: string)
    ensures Contains(AsciiLower(s), AsciiLower(part)) <==> OccursButCase(s, part)
  {
    var low, lowPart := AsciiLower(s), AsciiLower(part);
    ContainsExactly(low, lowPart);
    LowerExactly(s);
    forall i, j | 0 <= i <= j <= |s|
      ensures low[i..j] == lowPart <==> SameButCase(s[i..j], part)
    {
      LowerSlice(s, i, j);
      LowerTells(s[i..j], part);
    }
    if OccursButCase(s, part) {
      var i, j :| 0 <= i <= j <= |s| && SameButCase(s[i..j], part);
      assert low[i..j] == lowPart;
    }
  }

  // ---------------------------------------------------------------------------------------------
  // Trimming
  // ---------------------------------------------------------------------------------------------

  lemma {:induction false} TrimStartExactly(space: char -> bool, s: string) returns (i: nat)
    ensures i <= |s| && TrimStart(space, s) == s[i..]
    ensures forall k | 0 <= k < i :: space(s[k])
    ensures i < |s| ==> !space(s[i])
  {
    if s == [] || !space(s[0]) {
      i := 0;
    } else {
      i := TrimStartExactly(space, s[1..]);
      forall k | 0 <= k < i + 1
        ensures space(s[k])
      {
        assert k > 0 ==> s[k] == s[1..][k - 1];
      }
      i := i + 1;
    }
  }

  lemma {:induction false} TrimEndExactly(space: char -> bool, s: string) returns (j: nat)
    ensures j <= |s| && TrimEnd(space, s) == s[..j]
    ensures forall k | j <= k < |s| :: space(s[k])
    ensures j > 0 ==> !space(s[j - 1])
  {
    if s == [] || !space(s[|s| - 1]) {
      j := |s|;
    } else {
      var front := s[..|s| - 1];
      j := TrimEndExactly(space, front);
      assert front[..j] == s[..j] && forall k | j <= k < |front| :: s[k] == front[k];
    }
  }

  /** Trimming takes away the blanks at both ends and nothing else. */
  lemma TrimExactly(space: char -> bool, s: string) returns (i: nat, j: nat)
    ensures i <= j <= |s| && Trim(space, s) == s[i..j]
    ensures forall k | 0 <= k < i || j <= k < |s| :: space(s[k])
    ensures i < j ==> !space(s[i]) && !space(s[j - 1])
  {
    i := TrimStartExactly(space, s);
    var n := TrimEndExactly(space, s[i..]);
    j := i + n;
    assert s[i..][..n] == s[i..j];
    forall k | j <= k < |s|
      ensures space(s[k])
    {
      assert s[k] == s[i..][k - i];
    }
  }
}
