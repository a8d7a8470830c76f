/** The five counters the policy matcher derives from a Hashcat mask: the length count
    (`len(mask.replace("?", ""))`) and the four class counts, each the number of matches a
    leftmost, non-overlapping scan of a two-character pattern finds. */
module MaskCounts {

  /** The placeholder marker of Hashcat masks. */
  const Marker: char := '?'

  /** The Unicode categories `\p{Ll}`, `\p{Lu}` and `\p{N}` the class patterns use. The
      Unicode tables are not part of this model, so the categories are a parameter. */
  datatype Categories = Categories(isLower: char -> bool, isUpper: char -> bool, isNumber: char -> bool)

  /** What the real Unicode tables say about ASCII: Ll is exactly `a`..`z`, Lu exactly
      `A`..`Z` and N exactly `0`..`9` among the first 128 code points. */
  predicate AsciiFaithful(u: Categories) {
    (forall c: char :: c as int < 128 ==> (u.isLower(c) <==> 'a' <= c <= 'z')) &&
    (forall c: char :: c as int < 128 ==> (u.isUpper(c) <==> 'A' <= c <= 'Z')) &&
    (forall c: char :: c as int < 128 ==> (u.isNumber(c) <==> '0' <= c <= '9'))
  }

  /** The marker itself is in none of the three categories (true of the real tables, where
      `?` is punctuation). */
  predicate MarkerUncategorised(u: Categories) {
    !u.isLower(Marker) && !u.isUpper(Marker) && !u.isNumber(Marker)
  }

  /** The literal alternative of the special pattern: ASCII punctuation except `?` and `\`. */
  const SpecialLiterals: set<char> :=
    {'!', '"', '#', '$', '%', '&', '\'', '(', ')', '*', '+', ',', '-', '.', '/', ':', ';',
     '<', '=', '>', '@', '[', ']', '^', '_', '`', '{', '|', '}', '~'}

  /** The four class counters. */
  datatype CharClass = Lower | Upper | Digit | Special

  /** The selector the placeholder alternative accepts after the marker:
      `\?l`, `\?u`, `\?d` and `\?[s?]`. There is none for `a`. */
  predicate Selects(k: CharClass, c: char) {
    match k
    case Lower => c == 'l'
    case Upper => c == 'u'
    case Digit => c == 'd'
    case Special => c == 's' || c == Marker
  }

  /** The character class of the literal alternative `[^?]\p{..}` (its second character). */
  predicate InClass(u: Categories, k: CharClass, c: char) {
    match k
    case Lower => u.isLower(c)
    case Upper => u.isUpper(c)
    case Digit => u.isNumber(c)
    case Special => c in SpecialLiterals
  }

  /** The pattern of class `k` matches the two characters of `s` at `i` and `i + 1`. The two
      alternatives exclude each other (the first starts with the marker, the second with
      anything else), so their order in the pattern does not matter. */
  function MatchAt(u: Categories, k: CharClass, s: string, i: int): (r: bool)
    ensures r ==> 0 <= i && i + 1 < |s|
    ensures r && MarkerUncategorised(u) ==> s[i + 1] != Marker || (k == Special && s[i] == Marker)
  {
    0 <= i && i + 1 < |s| &&
    if s[i] == Marker then Selects(k, s[i + 1]) else InClass(u, k, s[i + 1])
  }

  /** `r` is the list of match start positions that a leftmost, non-overlapping search of
      `s` from position `i` reports: every entry is a match, entries are at least two apart
      (a match consumes two characters), and every position the search tries without
      reporting it (one that is not the second character of a reported match) is no match. */
  predicate LeftmostMatches(u: Categories, k: CharClass, s: string, i: nat, r: seq<int>) {
    (forall n :: 0 <= n < |r| ==> i <= r[n] && MatchAt(u, k, s, r[n])) &&
    (forall n :: 0 <= n < |r| - 1 ==> r[n] + 2 <= r[n + 1]) &&
    (forall j :: i <= j < |s| && j !in r && j - 1 !in r ==> !MatchAt(u, k, s, j))
  }

  /** The scan `findall` performs: try position `i`; on a match record it and resume two
      positions on, otherwise resume one position on. */
  function MatchStarts(u: Categories, k: CharClass, s: string, i: nat): (r: seq<int>)
    requires i <= |s|
    ensures LeftmostMatches(u, k, s, i, r)
    ensures 2 * |r| <= |s| - i
    decreases |s| - i
  {
    if i + 1 >= |s| then []
    else if MatchAt(u, k, s, i) then [i] + MatchStarts(u, k, s, i + 2)
    else MatchStarts(u, k, s, i + 1)
  }

  /** The search result is determined by the three properties of LeftmostMatches alone. */
  lemma {:induction false} LeftmostMatchesUnique(u: Categories, k: CharClass, s: string, i: nat, r: seq<int>)
    requires i <= |s|
    requires LeftmostMatches(u, k, s, i, r)
    ensures r == MatchStarts(u, k, s, i)
    decreases |s| - i
  {
    if i + 1 >= |s| {
    } else if MatchAt(u, k, s, i) {
      assert i - 1 !in r;
      assert i in r;
      var n :| 0 <= n < |r| && r[n] == i;
      if n > 0 {
        assert r[0] < r[n] by { StepsApart(r, 0, n); }
      }
      assert r == [i] + r[1..];
      forall m | 0 <= m < |r[1..]|
        ensures i + 2 <= r[1..][m]
      {
        StepsApart(r, 0, m + 1);
      }
      assert LeftmostMatches(u, k, s, i + 2, r[1..]) by {
        forall j | i + 2 <= j < |s| && j !in r[1..] && j - 1 !in r[1..]
          ensures !MatchAt(u, k, s, j)
        {
          assert j !in r && j - 1 !in r;
        }
      }
      LeftmostMatchesUnique(u, k, s, i + 2, r[1..]);
    } else {
      assert i !in r;
      assert LeftmostMatches(u, k, s, i + 1, r) by {
        forall n | 0 <= n < |r|
          ensures i + 1 <= r[n]
        {
          assert r[n] != i;
        }
      }
      LeftmostMatchesUnique(u, k, s, i + 1, r);
    }
  }

  /** Entries of a list whose neighbours are at least two apart grow by two per step. */
  lemma {:induction false} StepsApart(r: seq<int>, m: nat, n: nat)
    requires forall x :: 0 <= x < |r| - 1 ==> r[x] + 2 <= r[x + 1]
    requires m <= n < |r|
    ensures r[m] + 2 * (n - m) <= r[n]
    decreases n - m
  {
    if m < n {
      StepsApart(r, m + 1, n);
    }
  }

  /** `len(regex.findall(mask))` for the pattern of class `k`. */
  function ClassCount(u: Categories, k: CharClass, mask: string): (r: nat)
    ensures r <= |mask| / 2
  {
    |MatchStarts(u, k, mask, 0)|
  }

  /** `mask.replace("?", "")`. */
  function Strip(s: string): (r: string)
    ensures Marker !in r
    ensures |r| <= |s|
  {
    if s == [] then []
    else if s[0] == Marker then Strip(s[1..])
    else [s[0]] + Strip(s[1..])
  }

  /** Stripping removes every marker and keeps every other character as often as it occurs. */
  lemma {:induction false} StripMultiset(s: string)
    ensures multiset(Strip(s)) == multiset(s)[Marker := 0]
  {
    if s != [] {
      StripMultiset(s[1..]);
      assert s == [s[0]] + s[1..];
    }
  }

  /** A mask without markers is left as it is. */
  lemma {:induction false} StripWithoutMarkers(s: string)
    requires Marker !in s
    ensures Strip(s) == s
  {
    if s != [] {
      assert s[0] != Marker;
      StripWithoutMarkers(s[1..]);
    }
  }

  /** The length count: the number of characters of the mask that are not the marker. */
  function LengthCount(mask: string): (r: nat)
    ensures r <= |mask|
  {
    |Strip(mask)|
  }

  /** The length count plus the number of markers is the length of the mask. */
  lemma LengthCountComplement(mask: string)
    ensures LengthCount(mask) + multiset(mask)[Marker] == |mask|
  {
    StripMultiset(mask);
    assert |multiset(Strip(mask))| == |Strip(mask)|;
  }

  /** A mask without markers has length count equal to its length. */
  lemma LengthWithoutMarkers(mask: string)
    requires Marker !in mask
    ensures LengthCount(mask) == |mask|
  {
    StripWithoutMarkers(mask);
  }

  /** The five counts `_is_compliant` computes for one mask. */
  datatype Counts = Counts(lower: nat, upper: nat, digit: nat, special: nat, length: nat)

  function CountsOf(u: Categories, mask: string): (c: Counts)
    ensures c.lower <= |mask| / 2 && c.upper <= |mask| / 2
    ensures c.digit <= |mask| / 2 && c.special <= |mask| / 2
  {
    Counts(ClassCount(u, Lower, mask), ClassCount(u, Upper, mask), ClassCount(u, Digit, mask),
           ClassCount(u, Special, mask), LengthCount(mask))
  }

  /** The empty mask has all five counts zero. */
  lemma EmptyMask(u: Categories)
    ensures CountsOf(u, []) == Counts(0, 0, 0, 0, 0)
  {
  }

  /** A run of literal characters of class `k`, none of them the marker, pairs up:
      only every second character is counted. */
  lemma {:induction false} LiteralRun(u: Categories, k: CharClass, s: string)
    requires forall n :: 0 <= n < |s| ==> s[n] != Marker && InClass(u, k, s[n])
    ensures ClassCount(u, k, s) == |s| / 2
  {
    LiteralRunFrom(u, k, s, 0);
  }

  lemma {:induction false} LiteralRunFrom(u: Categories, k: CharClass, s: string, i: nat)
    requires i <= |s|
    requires forall n :: 0 <= n < |s| ==> s[n] != Marker && InClass(u, k, s[n])
    ensures |MatchStarts(u, k, s, i)| == (|s| - i) / 2
    decreases |s| - i
  {
    if i + 1 < |s| {
      assert MatchAt(u, k, s, i);
      LiteralRunFrom(u, k, s, i + 2);
    }
  }

  /** The mask made of one placeholder `?c` per selector character `c`. */
  function Placeholders(selectors: seq<char>): (r: string)
    ensures |r| == 2 * |selectors|
  {
    if selectors == [] then []
    else [Marker, selectors[0]] + Placeholders(selectors[1..])
  }

  /** Placeholder `t` of the mask sits at positions `2 * t` and `2 * t + 1`. */
  lemma {:induction false} PlaceholderAt(selectors: seq<char>, t: nat)
    requires t < |selectors|
    ensures Placeholders(selectors)[2 * t] == Marker
    ensures Placeholders(selectors)[2 * t + 1] == selectors[t]
  {
    if t > 0 {
      PlaceholderAt(selectors[1..], t - 1);
    }
  }

  /** How many of the selectors the placeholder pattern of class `k` accepts. */
  function SelectorCount(k: CharClass, selectors: seq<char>): (r: nat)
    ensures r <= |selectors|
  {
    if selectors == [] then 0
    else (if Selects(k, selectors[0]) then 1 else 0) + SelectorCount(k, selectors[1..])
  }

  /** A mask made only of placeholders: each class counts the placeholders whose selector it
      accepts (`?a` is accepted by none), and the length count is the number of selectors
      other than the marker (`?l` adds one, `??` adds none). */
  lemma {:induction false} PlaceholderCounts(u: Categories, k: CharClass, selectors: seq<char>)
    requires MarkerUncategorised(u)
    ensures ClassCount(u, k, Placeholders(selectors)) == SelectorCount(k, selectors)
    ensures LengthCount(Placeholders(selectors)) == |selectors| - multiset(selectors)[Marker]
  {
    PlaceholderCountsFrom(u, k, selectors, 0);
    PlaceholderMarkers(selectors);
    LengthCountComplement(Placeholders(selectors));
  }

  lemma {:induction false} PlaceholderCountsFrom(u: Categories, k: CharClass, selectors: seq<char>, t: nat)
    requires MarkerUncategorised(u)
    requires t <= |selectors|
    ensures |MatchStarts(u, k, Placeholders(selectors), 2 * t)| == SelectorCount(k, selectors[t..])
    decreases |selectors| - t
  {
    var s := Placeholders(selectors);
    if t < |selectors| {
      PlaceholderAt(selectors, t);
      assert selectors[t..][1..] == selectors[t + 1..];
      PlaceholderCountsFrom(u, k, selectors, t + 1);
      if !MatchAt(u, k, s, 2 * t) {
        if 2 * t + 2 < |s| {
          PlaceholderAt(selectors, t + 1);
          assert s[2 * t + 2] == Marker;
          assert !InClass(u, k, Marker);
          assert !MatchAt(u, k, s, 2 * t + 1);
        }
      }
    }
  }

  lemma {:induction false} PlaceholderMarkers(selectors: seq<char>)
    ensures multiset(Placeholders(selectors))[Marker] == |selectors| + multiset(selectors)[Marker]
  {
    if selectors != [] {
      PlaceholderMarkers(selectors[1..]);
      assert selectors == [selectors[0]] + selectors[1..];
    }
  }

  /** `n` copies of the character `c`. */
  function Repeat(c: char, n: nat): (r: seq<char>)
    ensures |r| == n && forall t :: 0 <= t < n ==> r[t] == c
  {
    if n == 0 then [] else [c] + Repeat(c, n - 1)
  }

  /** The `?a` placeholder is counted in no class: a mask of `n` of them has all four class
      counts zero and length count `n`. */
  lemma AnyPlaceholderUncounted(u: Categories, n: nat)
    requires MarkerUncategorised(u)
    ensures CountsOf(u, Placeholders(Repeat('a', n))) == Counts(0, 0, 0, 0, n)
  {
    var sels := Repeat('a', n);
    forall k | true ensures SelectorCount(k, sels) == 0 {
      NoSelector(k, sels);
    }
    PlaceholderCounts(u, Lower, sels);
    PlaceholderCounts(u, Upper, sels);
    PlaceholderCounts(u, Digit, sels);
    PlaceholderCounts(u, Special, sels);
    assert Marker !in multiset(sels);
  }

  lemma {:induction false} NoSelector(k: CharClass, selectors: seq<char>)
    requires forall t :: 0 <= t < |selectors| ==> !Selects(k, selectors[t])
    ensures SelectorCount(k, selectors) == 0
  {
    if selectors != [] {
      NoSelector(k, selectors[1..]);
    }
  }

  /** Literal letters pair up: only the second letter of each pair is counted. */
  lemma LiteralExamples(u: Categories)
    requires AsciiFaithful(u)
    ensures ClassCount(u, Lower, "a") == 0
    ensures ClassCount(u, Lower, "ab") == 1
    ensures ClassCount(u, Lower, "abcd") == 2
  {
    LiteralRun(u, Lower, "a");
    LiteralRun(u, Lower, "ab");
    LiteralRun(u, Lower, "abcd");
  }

  /** `??` is one special character and adds nothing to the length. */
  lemma EscapedMarkerExample(u: Categories)
    requires AsciiFaithful(u)
    ensures CountsOf(u, "??") == Counts(0, 0, 0, 1, 0)
  {
    assert Placeholders("?") == "??";
    forall k | true ensures ClassCount(u, k, "??") == SelectorCount(k, "?") {
      PlaceholderCounts(u, k, "?");
    }
  }

  /** `?s` is one special character and one character of length. */
  lemma SpecialPlaceholderExample(u: Categories)
    requires AsciiFaithful(u)
    ensures CountsOf(u, "?s") == Counts(0, 0, 0, 1, 1)
  {
    assert Placeholders("s") == "?s";
    forall k | true ensures ClassCount(u, k, "?s") == SelectorCount(k, "s") {
      PlaceholderCounts(u, k, "s");
    }
  }

  /** The length count of a placeholder is one, except for the escaped marker `??`. */
  lemma LengthExamples()
    ensures LengthCount("?l") == 1 && LengthCount("?a") == 1 && LengthCount("??") == 0
    ensures LengthCount("ab?") == 2
  {
    assert Strip("?l") == "l" && Strip("?a") == "a" && Strip("??") == "";
    assert Strip("ab?") == "ab";
  }

  /** Neither the marker nor the backslash is a special literal. */
  lemma SpecialLiteralGaps()
    ensures Marker !in SpecialLiterals && '\\' !in SpecialLiterals
  {
  }

  /** The mask `?a` alone: no class count, length count one. */
  lemma AnyExample(u: Categories)
    requires AsciiFaithful(u)
    ensures CountsOf(u, "?a") == Counts(0, 0, 0, 0, 1)
  {
    AnyPlaceholderUncounted(u, 1);
    assert Placeholders(Repeat('a', 1)) == "?a";
  }

  /** The all-literal mask `Password1!`: the scan pairs `Pa`, `ss`, `wo`, `rd` for the lower
      class, so the lower count is 4; the leading `P` is never the second character of a
      pair, so the upper count is 0; `d1` gives one digit and `1!` one special. */
  lemma PasswordCounts(u: Categories)
    requires AsciiFaithful(u)
    ensures CountsOf(u, "Password1!") == Counts(4, 0, 1, 1, 10)
  {
    PasswordLower(u);
    PasswordUpper(u);
    PasswordDigit(u);
    PasswordSpecial(u);
    assert Marker !in "Password1!";
    LengthWithoutMarkers("Password1!");
  }

  lemma PasswordLower(u: Categories)
    requires AsciiFaithful(u)
    ensures ClassCount(u, Lower, "Password1!") == 4
  {
  }

  lemma PasswordUpper(u: Categories)
    requires AsciiFaithful(u)
    ensures ClassCount(u, Upper, "Password1!") == 0
  {
  }

  lemma PasswordDigit(u: Categories)
    requires AsciiFaithful(u)
    ensures ClassCount(u, Digit, "Password1!") == 1
  {
  }

  lemma PasswordSpecial(u: Categories)
    requires AsciiFaithful(u)
    ensures ClassCount(u, Special, "Password1!") == 1
  {
    var s := "Password1!";
    assert forall n :: 0 <= n < 9 ==> s[n] !in SpecialLiterals;
    assert MatchStarts(u, Special, s, 8) == [8];
  }

  /** The all-placeholder mask `?u?l?l?l?d`: lower 3, upper 1, digit 1, special 0, and
      length 5 (one character per placeholder). */
  lemma PlaceholderMaskCounts(u: Categories)
    requires AsciiFaithful(u)
    ensures CountsOf(u, "?u?l?l?l?d") == Counts(3, 1, 1, 0, 5)
  {
    PlaceholderMaskClass(u, Lower);
    PlaceholderMaskClass(u, Upper);
    PlaceholderMaskClass(u, Digit);
    PlaceholderMaskClass(u, Special);
    PlaceholderMaskLength();
  }

  lemma PlaceholderMaskClass(u: Categories, k: CharClass)
    requires AsciiFaithful(u)
    ensures ClassCount(u, k, "?u?l?l?l?d") == SelectorCount(k, "ullld")
  {
    assert Placeholders("ullld") == "?u?l?l?l?d";
    PlaceholderCounts(u, k, "ullld");
  }

  lemma PlaceholderMaskLength()
    ensures LengthCount("?u?l?l?l?d") == 5
  {
    assert Strip("?u?l?l?l?d") == "ullld";
  }
}
