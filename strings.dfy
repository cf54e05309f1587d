/**
 * The `ext::string` utilities: trimming, case-aware comparison and search,
 * and substring replacement. Narrow and wide strings behave alike, so both
 * are `string` (a sequence of characters) here; every operation returns a
 * new value.
 */
module Strings {

  /** The characters C's `isspace` accepts in the default locale. */
  predicate IsSpace(c: char)
  {
    c == ' ' || c == '\t' || c == '\n' || c == '\U{000B}' || c == '\U{000C}' || c == '\r'
  }

  /** Every character of `s` is white space (true of the empty string). */
  predicate AllSpace(s: string)
  {
    forall i :: 0 <= i < |s| ==> IsSpace(s[i])
  }

  // ---------------------------------------------------------------- trimming

  /** `ltrim`: the suffix left after dropping every leading white-space character. */
  function LTrim(s: string): (r: string)
    ensures |r| <= |s| && r == s[|s| - |r|..]
    ensures forall i :: 0 <= i < |s| - |r| ==> IsSpace(s[i])
    ensures r == [] || !IsSpace(r[0])
  {
    if s != [] && IsSpace(s[0]) then LTrim(s[1..]) else s
  }

  /** `rtrim`: the prefix left after dropping every trailing white-space character. */
  function RTrim(s: string): (r: string)
    ensures |r| <= |s| && r == s[..|r|]
    ensures forall i :: |r| <= i < |s| ==> IsSpace(s[i])
    ensures r == [] || !IsSpace(r[|r| - 1])
  {
    if s != [] && IsSpace(s[|s| - 1]) then RTrim(s[..|s| - 1]) else s
  }

  /**
   * `ltrim` is the only way to cut `s` into white space followed by a part
   * that is empty or starts with a non-space.
   */
  lemma LTrimUnique(s: string, k: nat)
    requires k <= |s| && forall i :: 0 <= i < k ==> IsSpace(s[i])
    requires k == |s| || !IsSpace(s[k])
    ensures LTrim(s) == s[k..]
  {
    var j := |s| - |LTrim(s)|;
    assert j < |s| ==> LTrim(s)[0] == s[j];
  }

  /**
   * `rtrim` is the only way to cut `s` into a part that is empty or ends in
   * a non-space, followed by white space.
   */
  lemma RTrimUnique(s: string, k: nat)
    requires k <= |s| && forall i :: k <= i < |s| ==> IsSpace(s[i])
    requires k == 0 || !IsSpace(s[k - 1])
    ensures RTrim(s) == s[..k]
  {
    var j := |RTrim(s)|;
    assert j > 0 ==> RTrim(s)[j - 1] == s[j - 1];
  }

  /** Left-trimming a prefix that keeps the first non-space character drops the same leading white space. */
  lemma LTrimPrefix(s: string, a: nat, b: nat)
    requires a < b <= |s|
    requires forall i :: 0 <= i < a ==> IsSpace(s[i])
    requires !IsSpace(s[a])
    ensures LTrim(s[..b]) == s[a..b]
  {
    assert s[..b][a] == s[a];
    LTrimUnique(s[..b], a);
  }

  /** Right-trimming a suffix that keeps the last non-space character drops the same trailing white space. */
  lemma RTrimSuffix(s: string, a: nat, b: nat)
    requires a < b <= |s|
    requires forall i :: b <= i < |s| ==> IsSpace(s[i])
    requires !IsSpace(s[b - 1])
    ensures RTrim(s[a..]) == s[a..b]
  {
    assert s[a..][b - a - 1] == s[b - 1];
    RTrimUnique(s[a..], b - a);
  }

  /** Trimming the left end and the right end are independent of each other. */
  lemma TrimCommutes(s: string)
    ensures LTrim(RTrim(s)) == RTrim(LTrim(s))
  {
    if AllSpace(s) {
      LTrimUnique(s, |s|);
      RTrimUnique(s, 0);
    } else {
      var a := |s| - |LTrim(s)|;
      var b := |RTrim(s)|;
      var w :| 0 <= w < |s| && !IsSpace(s[w]);
      assert a <= w < b;
      assert LTrim(s)[0] == s[a] && RTrim(s)[b - 1] == s[b - 1];
      LTrimPrefix(s, a, b);
      RTrimSuffix(s, a, b);
    }
  }

  /** `trim`: white space removed at both ends, whichever end goes first. */
  function Trim(s: string): (r: string)
    ensures r == RTrim(LTrim(s))
    ensures r == [] || (!IsSpace(r[0]) && !IsSpace(r[|r| - 1]))
  {
    TrimCommutes(s);
    LTrim(RTrim(s))
  }

  /** Trimming leaves nothing exactly when the string is all white space. */
  lemma TrimEmpty(s: string)
    ensures Trim(s) == [] <==> AllSpace(s)
  {
    if AllSpace(s) {
      RTrimUnique(s, 0);
    } else {
      var u := RTrim(s);
      assert forall i :: 0 <= i < |u| ==> u[i] == s[i];
    }
  }

  /** Trimming the left end again changes nothing. */
  lemma LTrimIdempotent(s: string)
    ensures LTrim(LTrim(s)) == LTrim(s)
  {
    LTrimUnique(LTrim(s), 0);
  }

  /** Trimming the right end again changes nothing. */
  lemma RTrimIdempotent(s: string)
    ensures RTrim(RTrim(s)) == RTrim(s)
  {
    var r := RTrim(s);
    RTrimUnique(r, |r|);
  }

  /** Trimming both ends again changes nothing. */
  lemma TrimIdempotent(s: string)
    ensures Trim(Trim(s)) == Trim(s)
  {
    var t := Trim(s);
    LTrimUnique(t, 0);
    RTrimUnique(t, |t|);
  }

  // ------------------------------------------------------- case and equality

  /** ASCII lower-casing: `A`-`Z` map to `a`-`z`, every other character is kept. */
  function ToLower(c: char): char
  {
    if 'A' <= c <= 'Z' then (c as int - 'A' as int + 'a' as int) as char else c
  }

  /** A string with every character lower-cased. */
  function Fold(s: string): string
  {
    seq(|s|, i requires 0 <= i < |s| => ToLower(s[i]))
  }

  /** Two characters match: exactly when `caseSensitive`, up to ASCII case otherwise. */
  predicate CharsEqual(x: char, y: char, caseSensitive: bool)
  {
    if caseSensitive then x == y else ToLower(x) == ToLower(y)
  }

  /** Lower-casing maps the two cases of a letter together and changes nothing else. */
  lemma ToLowerFacts(c: char)
    ensures ToLower(ToLower(c)) == ToLower(c)
    ensures ToLower(c) != c <==> 'A' <= c <= 'Z'
  {
  }

  /** `equal(a, b, case_sensitive = false)`: same length, and the characters match pairwise. */
  function Equal(a: string, b: string, caseSensitive: bool := false): (r: bool)
    ensures r <==> |a| == |b| && forall i :: 0 <= i < |a| ==> CharsEqual(a[i], b[i], caseSensitive)
  {
    if |a| != |b| then false
    else if a == [] then true
    else CharsEqual(a[0], b[0], caseSensitive) && Equal(a[1..], b[1..], caseSensitive)
  }

  /** Case-sensitive comparison is plain equality of the strings. */
  lemma EqualCaseSensitive(a: string, b: string)
    ensures Equal(a, b, true) <==> a == b
  {
    if Equal(a, b, true) {
      assert forall i :: 0 <= i < |a| ==> a[i] == b[i];
    }
  }

  /** The default comparison is equality of the lower-cased strings. */
  lemma EqualIgnoringCase(a: string, b: string)
    ensures Equal(a, b) <==> Fold(a) == Fold(b)
  {
    if Fold(a) == Fold(b) {
      forall i | 0 <= i < |a|
        ensures CharsEqual(a[i], b[i], false)
      {
        assert Fold(a)[i] == Fold(b)[i];
      }
    }
  }

  /** Strings equal with case taken into account are equal when it is ignored. */
  lemma EqualSensitiveImpliesInsensitive(a: string, b: string)
    requires Equal(a, b, true)
    ensures Equal(a, b, false)
  {
  }

  /** The default comparison is an equivalence: reflexive, symmetric and transitive. */
  lemma EqualIsEquivalence(a: string, b: string, c: string)
    ensures Equal(a, a)
    ensures Equal(a, b) ==> Equal(b, a)
    ensures Equal(a, b) && Equal(b, c) ==> Equal(a, c)
  {
    EqualIgnoringCase(a, a);
    EqualIgnoringCase(a, b);
    EqualIgnoringCase(b, a);
    EqualIgnoringCase(b, c);
    EqualIgnoringCase(a, c);
  }

  /** Strings that agree except in one position, where the characters match, are equal. */
  lemma EqualExceptOne(p: string, x: char, y: char, q: string, caseSensitive: bool)
    requires CharsEqual(x, y, caseSensitive)
    ensures Equal(p + [x] + q, p + [y] + q, caseSensitive)
  {
    var a, b := p + [x] + q, p + [y] + q;
    forall i | 0 <= i < |a|
      ensures CharsEqual(a[i], b[i], caseSensitive)
    {
      if i != |p| {
        assert a[i] == b[i];
      }
    }
  }

  // ------------------------------------------------------------------ search

  /** `needle` matches the characters of `haystack` starting at index `i`. */
  predicate OccursAt(haystack: string, needle: string, i: int, caseSensitive: bool)
  {
    0 <= i && i + |needle| <= |haystack| && Equal(haystack[i..i + |needle|], needle, caseSensitive)
  }

  /**
   * `search(haystack, needle, case_sensitive = false)`: whether `needle`
   * occurs anywhere in `haystack`, trying the start positions left to right.
   */
  function Search(haystack: string, needle: string, caseSensitive: bool := false): (r: bool)
    ensures r <==> exists i :: OccursAt(haystack, needle, i, caseSensitive)
    decreases |haystack|
  {
    if |haystack| < |needle| then
      false
    else if Equal(haystack[..|needle|], needle, caseSensitive) then
      assert OccursAt(haystack, needle, 0, caseSensitive);
      true
    else
      OccursShift(haystack, needle, caseSensitive);
      Search(haystack[1..], needle, caseSensitive)
  }

  /** An occurrence in the tail is an occurrence one position further right in the whole. */
  lemma OccursShift(haystack: string, needle: string, caseSensitive: bool)
    requires haystack != []
    requires !OccursAt(haystack, needle, 0, caseSensitive)
    ensures (exists i :: OccursAt(haystack[1..], needle, i, caseSensitive))
            <==> (exists i :: OccursAt(haystack, needle, i, caseSensitive))
  {
    forall i | 0 <= i
      ensures OccursAt(haystack[1..], needle, i, caseSensitive) <==> OccursAt(haystack, needle, i + 1, caseSensitive)
    {
      if i + |needle| <= |haystack| - 1 {
        assert haystack[1..][i..i + |needle|] == haystack[i + 1..i + 1 + |needle|];
      }
    }
    if exists i :: OccursAt(haystack, needle, i, caseSensitive) {
      var i :| OccursAt(haystack, needle, i, caseSensitive);
      assert i > 0;
      assert OccursAt(haystack[1..], needle, i - 1, caseSensitive);
    }
  }

  /** The empty needle is found in every haystack, the empty one included. */
  lemma SearchEmptyNeedle(haystack: string, caseSensitive: bool)
    ensures Search(haystack, [], caseSensitive)
  {
    assert OccursAt(haystack, [], 0, caseSensitive);
  }

  /** A match that respects case is also a match that ignores it. */
  lemma SearchSensitiveImpliesInsensitive(haystack: string, needle: string)
    requires Search(haystack, needle, true)
    ensures Search(haystack, needle)
  {
    var i :| OccursAt(haystack, needle, i, true);
    assert OccursAt(haystack, needle, i, false);
  }

  /** The default search is a case-sensitive search of the lower-cased strings. */
  lemma SearchIgnoringCase(haystack: string, needle: string)
    ensures Search(haystack, needle) <==> Search(Fold(haystack), Fold(needle), true)
  {
    var h, n := Fold(haystack), Fold(needle);
    forall i | 0 <= i && i + |needle| <= |haystack|
      ensures OccursAt(haystack, needle, i, false) <==> OccursAt(h, n, i, true)
    {
      var part := haystack[i..i + |needle|];
      assert Fold(part) == h[i..i + |needle|];
      EqualIgnoringCase(part, needle);
      EqualCaseSensitive(Fold(part), n);
    }
    if Search(h, n, true) {
      var i :| OccursAt(h, n, i, true);
      assert OccursAt(haystack, needle, i, false);
    }
    if Search(haystack, needle) {
      var i :| OccursAt(haystack, needle, i, false);
      assert OccursAt(h, n, i, true);
    }
  }

  // ------------------------------------------------------------- replacement

  /**
   * `replace_all(s, from, to)`: every occurrence of `from`, found left to
   * right without overlapping and matching case exactly, becomes `to`; the
   * replacement text is not searched again. An empty `from` leaves `s` as it is.
   */
  function ReplaceAll(s: string, from: string, to: string): string
  {
    if from == [] then s else Replaced(s, from, to)
  }

  /** The scan behind `ReplaceAll`, for a non-empty `from`. */
  function Replaced(s: string, from: string, to: string): string
    requires from != []
    decreases |s|
  {
    if |s| < |from| then s
    else if s[..|from|] == from then to + Replaced(s[|from|..], from, to)
    else [s[0]] + Replaced(s[1..], from, to)
  }

  /** How many occurrences `ReplaceAll` replaces. */
  function Replacements(s: string, from: string): nat
    decreases |s|
  {
    if from == [] || |s| < |from| then 0
    else if s[..|from|] == from then 1 + Replacements(s[|from|..], from)
    else Replacements(s[1..], from)
  }

  /** Each replacement changes the length by the difference in length of `to` and `from`. */
  lemma {:induction false} ReplaceAllLength(s: string, from: string, to: string)
    ensures |ReplaceAll(s, from, to)| == |s| + Replacements(s, from) * (|to| - |from|)
    decreases |s|
  {
    if from != [] && |s| >= |from| {
      var d := |to| - |from|;
      if s[..|from|] == from {
        var rest := s[|from|..];
        ReplaceAllLength(rest, from, to);
        assert (1 + Replacements(rest, from)) * d == d + Replacements(rest, from) * d;
      } else {
        ReplaceAllLength(s[1..], from, to);
      }
    }
  }

  /** Nothing is replaced exactly when `from` is empty or does not occur in `s`. */
  lemma {:induction false} ReplacementsNone(s: string, from: string)
    ensures Replacements(s, from) == 0 <==> from == [] || !Search(s, from, true)
    decreases |s|
  {
    if from != [] && |s| >= |from| {
      EqualCaseSensitive(s[..|from|], from);
      if s[..|from|] != from {
        ReplacementsNone(s[1..], from);
      }
    }
  }

  /** Where `from` does not occur, `ReplaceAll` returns its input. */
  lemma {:induction false} ReplaceAllAbsent(s: string, from: string, to: string)
    requires !Search(s, from, true)
    ensures ReplaceAll(s, from, to) == s
    decreases |s|
  {
    if from != [] && |s| >= |from| {
      EqualCaseSensitive(s[..|from|], from);
      ReplaceAllAbsent(s[1..], from, to);
      assert [s[0]] + s[1..] == s;
    }
  }

  /** Replacing a string by itself changes nothing. */
  lemma {:induction false} ReplaceAllSame(s: string, from: string)
    ensures ReplaceAll(s, from, from) == s
    decreases |s|
  {
    if from != [] && |s| >= |from| {
      if s[..|from|] == from {
        ReplaceAllSame(s[|from|..], from);
        assert from + s[|from|..] == s;
      } else {
        ReplaceAllSame(s[1..], from);
        assert [s[0]] + s[1..] == s;
      }
    }
  }

  /**
   * Text in front of the first occurrence is kept as it is: when `from`
   * starts nowhere inside `prefix + from`, except right after `prefix`, the
   * result is `prefix`, then `to`, then the rest with its own occurrences replaced.
   */
  lemma {:induction false} ReplaceAllFirst(prefix: string, from: string, to: string, rest: string)
    requires from != []
    requires forall i :: 0 <= i < |prefix| ==> !OccursAt(prefix + from + rest, from, i, true)
    ensures ReplaceAll(prefix + from + rest, from, to) == prefix + to + ReplaceAll(rest, from, to)
    decreases |prefix|
  {
    var s := prefix + from + rest;
    if prefix == [] {
      assert s == from + rest;
      assert s[..|from|] == from;
      assert s[|from|..] == rest;
    } else {
      assert !OccursAt(s, from, 0, true);
      EqualCaseSensitive(s[..|from|], from);
      assert s[1..] == prefix[1..] + from + rest;
      forall i | 0 <= i < |prefix| - 1
        ensures !OccursAt(s[1..], from, i, true)
      {
        assert !OccursAt(s, from, i + 1, true);
        assert s[1..][i..i + |from|] == s[i + 1..i + 1 + |from|];
      }
      ReplaceAllFirst(prefix[1..], from, to, rest);
      assert [s[0]] + (prefix[1..] + to + ReplaceAll(rest, from, to)) == prefix + to + ReplaceAll(rest, from, to);
    }
  }

  // ---------------------------------------------------- the tested examples

  /** `ltrim(" test ")` is `"test "`. */
  lemma LTrimExample()
    ensures LTrim(" test ") == "test "
  {
    var s: string := " test ";
    LTrimUnique(s, 1);
    assert s[1..] == "test ";
  }

  /** `rtrim(" test ")` is `" test"`. */
  lemma RTrimExample()
    ensures RTrim(" test ") == " test"
  {
    var s: string := " test ";
    RTrimUnique(s, 5);
    assert s[..5] == " test";
  }

  /** `trim(" test ")` is `"test"`. */
  lemma TrimExample()
    ensures Trim(" test ") == "test"
  {
    LTrimExample();
    var l: string := "test ";
    RTrimUnique(l, 4);
    assert l[..4] == "test";
  }

  /** Searching `"hello, world :-)"` for `"world"` succeeds, with case and without. */
  lemma SearchExampleExact()
    ensures Search("hello, world :-)", "world", true)
    ensures Search("hello, world :-)", "world")
  {
    var h: string := "hello, world :-)";
    assert h[7..12] == "world";
    EqualCaseSensitive(h[7..12], "world");
    assert OccursAt(h, "world", 7, true);
    SearchSensitiveImpliesInsensitive(h, "world");
  }

  /** By default `"World"` is found in `"hello, world :-)"`. */
  lemma SearchExampleIgnoringCase()
    ensures Search("hello, world :-)", "World")
  {
    var h: string := "hello, world :-)";
    assert h[7..12] == [] + ['w'] + "orld";
    EqualExceptOne([], 'w', 'W', "orld", false);
    assert OccursAt(h, "World", 7, false);
  }

  /** A case-sensitive search of `"hello, world :-)"` does not find `"World"`. */
  lemma SearchExampleCaseSensitive()
    ensures !Search("hello, world :-)", "World", true)
  {
    var h: string := "hello, world :-)";
    assert 'W' !in h;
    forall i | OccursAt(h, "World", i, true)
      ensures false
    {
      EqualCaseSensitive(h[i..i + 5], "World");
    }
  }

  /** `"hello, world :-)"` equals itself, with case and without. */
  lemma EqualExampleSame()
    ensures Equal("hello, world :-)", "hello, world :-)", true)
    ensures Equal("hello, world :-)", "hello, world :-)")
  {
    var a: string := "hello, world :-)";
    EqualCaseSensitive(a, a);
    EqualSensitiveImpliesInsensitive(a, a);
  }

  /** By default `"hello, world :-)"` equals `"hello, World :-)"`. */
  lemma EqualExampleIgnoringCase()
    ensures Equal("hello, world :-)", "hello, World :-)")
  {
    assert "hello, world :-)" == "hello, " + ['w'] + "orld :-)";
    assert "hello, World :-)" == "hello, " + ['W'] + "orld :-)";
    EqualExceptOne("hello, ", 'w', 'W', "orld :-)", false);
  }

  /** Compared with case, `"hello, world :-)"` and `"hello, World :-)"` differ. */
  lemma EqualExampleCaseSensitive()
    ensures !Equal("hello, world :-)", "hello, World :-)", true)
  {
    var a: string := "hello, world :-)";
    var b: string := "hello, World :-)";
    EqualCaseSensitive(a, b);
    assert a[7] != b[7];
  }

  /** `replace_all` of `":-"` by `";-"` in `"hello, world :-)"`. */
  lemma ReplaceAllExample()
    ensures ReplaceAll("hello, world :-)", ":-", ";-") == "hello, world ;-)"
  {
    var prefix: string := "hello, world ";
    assert "hello, world :-)" == prefix + ":-" + ")";
    assert ':' !in prefix;
    forall i | 0 <= i < |prefix|
      ensures !OccursAt(prefix + ":-" + ")", ":-", i, true)
    {
      assert (prefix + ":-" + ")")[i] == prefix[i];
    }
    ReplaceAllFirst(prefix, ":-", ";-", ")");
    assert prefix + ";-" + ")" == "hello, world ;-)";
  }
}
