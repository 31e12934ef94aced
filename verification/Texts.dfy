/**
 Splitting and trimming of text, as the string methods of the modelled languages do it.

 Which characters are blank differs between those languages, so it is a parameter. Case is changed
 for ASCII letters only, which is all that the modelled code does. A position that a search does not
 find is the length of the text rather than an option or a negative number: the callers only ask
 whether it is inside the text.
 */
module Texts {

  /** Whether `part` starts at the front of `s`. */
  predicate StartsWith(s: string, part: string) { part <= s }

  /** The pieces of `s` between occurrences of `sep`, found from left to right; always at least one. */
  function Split(s: string, sep: string): (r: seq<string>)
    requires sep != []
    ensures |r| >= 1
    decreases |s|
  {
    if s == [] then [[]]
    else if StartsWith(s, sep) then [[]] + Split(s[|sep|..], sep)
    else
      var rest := Split(s[1..], sep);
      [[s[0]] + rest[0]] + rest[1..]
  }

  /** The position of the first occurrence of `part`, or the length of `s`. */
  function IndexOf(s: string, part: string): (i: nat)
    ensures i <= |s|
  {
    if s == [] || StartsWith(s, part) then 0 else 1 + IndexOf(s[1..], part)
  }

  predicate Contains(s: string, part: string) {
    StartsWith(s, part) || (s != [] && Contains(s[1..], part))
  }

  function TrimStart(space: char -> bool, s: string): string {
    if s == [] || !space(s[0]) then s else TrimStart(space, s[1..])
  }

  function TrimEnd(space: char -> bool, s: string): string {
    if s == [] || !space(s[|s| - 1]) then s else TrimEnd(space, s[..|s| - 1])
  }

  function Trim(space: char -> bool, s: string): string {
    TrimEnd(space, TrimStart(space, s))
  }

  function AsciiUpper(s: string): string {
    if s == [] then [] else [if 'a' <= s[0] <= 'z' then s[0] - 'a' + 'A' else s[0]] + AsciiUpper(s[1..])
  }

  function AsciiLower(s: string): string {
    if s == [] then [] else [if 'A' <= s[0] <= 'Z' then s[0] - 'A' + 'a' else s[0]] + AsciiLower(s[1..])
  }

  predicate Trimmed(space: char -> bool, s: string) {
    s != [] && !space(s[0]) && !space(s[|s| - 1])
  }

  /** Blanks around a trimmed text are what trimming takes away. */
  lemma TrimPadded(space: char -> bool, s: string, pad: char)
    requires Trimmed(space, s) && space(pad)
    ensures Trim(space, s) == s && Trim(space, s + [pad]) == s && Trim(space, [pad] + s) == s
  {
    assert ([pad] + s)[1..] == s;
    assert (s + [pad])[..|s|] == s;
  }

  /** An operator that starts nowhere in the text before position `i` but does there is found at `i`. */
  lemma {:induction false} IndexOfFirst(s: string, part: string, i: nat)
    requires i <= |s| && StartsWith(s[i..], part)
    requires i < |s|
    requires forall j | 0 <= j < i :: !StartsWith(s[j..], part)
    ensures IndexOf(s, part) == i
  {
    if i > 0 {
      assert s[0..] == s;
      assert !StartsWith(s[0..], part);
      assert s[1..][i - 1..] == s[i..];
      forall j | 0 <= j < i - 1
        ensures !StartsWith(s[1..][j..], part)
      {
        assert s[1..][j..] == s[j + 1..];
      }
      IndexOfFirst(s[1..], part, i - 1);
    } else {
      assert s[0..] == s;
    }
  }

  lemma {:induction false} IndexOfNowhere(s: string, part: string)
    requires forall j | 0 <= j < |s| :: !StartsWith(s[j..], part)
    ensures IndexOf(s, part) == |s|
  {
    if s != [] {
      assert s[0..] == s;
      assert !StartsWith(s[0..], part);
      forall j | 0 <= j < |s| - 1
        ensures !StartsWith(s[1..][j..], part)
      {
        assert s[1..][j..] == s[j + 1..];
      }
      IndexOfNowhere(s[1..], part);
    }
  }
}
