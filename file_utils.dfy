/** `FileUtils.formatStringToYaml`: turns a CamelCase identifier into the
    kebab-case key used in YAML files. Case mapping is that of ASCII; every
    other character is treated as having no case. */
module FileUtils {

  /** `toUpperCase` of a one-character string. */
  function ToUpper(c: char): char {
    if 'a' <= c <= 'z' then (c as int - 32) as char else c
  }

  /** `toLowerCase` of a one-character string. */
  function ToLower(c: char): char {
    if 'A' <= c <= 'Z' then (c as int + 32) as char else c
  }

  /** `s.equals(s.toUpperCase())`: true of capitals, and equally of digits,
      punctuation and every other character without a lower-case form. */
  predicate IsUpperForm(c: char) {
    c == ToUpper(c)
  }

  /** What the character at index `i` contributes to the output: a dash when
      it is not the first character and is its own upper-case form, then the
      character lower-cased. */
  function Piece(s: string, i: nat): string
    requires i < |s|
  {
    (if i > 0 && IsUpperForm(s[i]) then "-" else "") + [ToLower(s[i])]
  }

  /** The kebab-case form of `s`, built one input character at a time. */
  function Kebab(s: string): string
    decreases |s|
  {
    if s == [] then [] else Kebab(s[..|s| - 1]) + Piece(s, |s| - 1)
  }

  /** How many of the first `n` characters of `s` get a dash before them:
      the non-first ones that are their own upper-case form. */
  function DashCount(s: string, n: nat): nat
    requires n <= |s|
  {
    if n <= 1 then 0 else DashCount(s, n - 1) + (if IsUpperForm(s[n - 1]) then 1 else 0)
  }

  /** `formatStringToYaml(string)`: appends to the result, character by
      character, a dash (when the character is its own upper-case form and
      the result is not empty yet) and the character lower-cased. */
  method FormatStringToYaml(s: string) returns (r: string)
    ensures r == Kebab(s)
  {
    r := "";
    for i := 0 to |s|
      invariant r == Kebab(s[..i])
      invariant (|r| == 0) == (i == 0)
    {
      assert s[..i + 1][..i] == s[..i];
      var c := s[i];
      if IsUpperForm(c) && |r| > 0 {
        r := r + "-";
      }
      r := r + [ToLower(c)];
    }
    assert s[..|s|] == s;
  }

  // ---------------------------------------------------------------------
  // Properties of the kebab-case form
  // ---------------------------------------------------------------------

  /** Where input character `i` lands in the output. */
  function Pos(s: string, i: nat): nat
    requires i < |s|
  {
    i + DashCount(s, i + 1)
  }

  /** The dash count of a prefix only depends on the prefix. */
  lemma {:induction false} DashCountPrefix(s: string, m: nat, n: nat)
    requires n <= m <= |s|
    ensures DashCount(s[..m], n) == DashCount(s, n)
    decreases n
  {
    if n > 1 {
      DashCountPrefix(s, m, n - 1);
      assert s[..m][n - 1] == s[n - 1];
    }
  }

  /** Dashes only accumulate along the string. */
  lemma {:induction false} DashCountMonotone(s: string, n: nat, m: nat)
    requires n <= m <= |s|
    ensures DashCount(s, n) <= DashCount(s, m)
    decreases m
  {
    if m > n {
      DashCountMonotone(s, n, m - 1);
    }
  }

  /** Appending one character to the input appends its piece to the
      output. */
  lemma KebabSnoc(s: string, c: char)
    ensures Kebab(s + [c]) == Kebab(s) + (if s != [] && IsUpperForm(c) then "-" else "") + [ToLower(c)]
  {
    assert (s + [c])[..|s|] == s;
  }

  /** The output is one character longer than the input for each inserted
      dash. */
  lemma {:induction false} KebabLength(s: string)
    ensures |Kebab(s)| == |s| + DashCount(s, |s|)
    decreases |s|
  {
    if s != [] {
      KebabLength(s[..|s| - 1]);
      DashCountPrefix(s, |s| - 1, |s| - 1);
    }
  }

  /** Input character `i`, lower-cased, sits at `Pos(s, i)` in the output,
      right after its own dash when it gets one. */
  lemma {:induction false} KebabAt(s: string, i: nat)
    requires i < |s|
    ensures Pos(s, i) < |Kebab(s)| && Kebab(s)[Pos(s, i)] == ToLower(s[i])
    ensures i > 0 && IsUpperForm(s[i]) ==> 0 < Pos(s, i) && Kebab(s)[Pos(s, i) - 1] == '-'
    decreases |s|
  {
    var n := |s|;
    var t := s[..n - 1];
    assert Kebab(s) == Kebab(t) + Piece(s, n - 1);
    KebabLength(t);
    DashCountPrefix(s, n - 1, n - 1);
    if i < n - 1 {
      KebabAt(t, i);
      DashCountPrefix(s, n - 1, i + 1);
      assert t[i] == s[i];
    }
  }

  /** The shape of the output: its length, and where each input character
      lands. As `Pos` is strictly increasing (`PosIncreasing`), every input
      character appears, lower-cased, in the original order. */
  lemma KebabShape(s: string)
    ensures |Kebab(s)| == |s| + DashCount(s, |s|)
    ensures forall i :: 0 <= i < |s| ==> Pos(s, i) < |Kebab(s)| && Kebab(s)[Pos(s, i)] == ToLower(s[i])
    ensures forall i :: 0 < i < |s| && IsUpperForm(s[i]) ==>
              0 < Pos(s, i) < |Kebab(s)| && Kebab(s)[Pos(s, i) - 1] == '-'
  {
    KebabLength(s);
    forall i | 0 <= i < |s|
      ensures Pos(s, i) < |Kebab(s)| && Kebab(s)[Pos(s, i)] == ToLower(s[i])
      ensures i > 0 && IsUpperForm(s[i]) ==> 0 < Pos(s, i) && Kebab(s)[Pos(s, i) - 1] == '-'
    {
      KebabAt(s, i);
    }
  }

  /** Later input characters land further right in the output. */
  lemma PosIncreasing(s: string, i: nat, j: nat)
    requires i < j < |s|
    ensures Pos(s, i) < Pos(s, j)
  {
    DashCountMonotone(s, i + 1, j + 1);
  }

  /** The empty string maps to the empty string. */
  lemma KebabEmpty()
    ensures Kebab("") == ""
  {
  }

  /** No dash is emitted before the first character: the output starts with
      the first input character, lower-cased. */
  lemma KebabHead(s: string)
    requires s != []
    ensures Kebab(s) != [] && Kebab(s)[0] == ToLower(s[0])
  {
    KebabShape(s);
    assert Pos(s, 0) == 0;
  }

  /** The output holds no ASCII capital. */
  lemma {:induction false} KebabNoCapitals(s: string)
    ensures forall k :: 0 <= k < |Kebab(s)| ==> !('A' <= Kebab(s)[k] <= 'Z')
    decreases |s|
  {
    if s != [] {
      KebabNoCapitals(s[..|s| - 1]);
    }
  }

  /** A string of lower-case ASCII letters is already in kebab-case. */
  lemma {:induction false} KebabLowerWord(s: string)
    requires forall k :: 0 <= k < |s| ==> 'a' <= s[k] <= 'z'
    ensures Kebab(s) == s
    decreases |s|
  {
    if s != [] {
      var t := s[..|s| - 1];
      KebabLowerWord(t);
      assert s == t + [s[|s| - 1]];
    }
  }

  /** The example of the documentation comment: "CamelCase" becomes
      "camel-case". */
  lemma KebabCamelCase()
    ensures Kebab("CamelCase") == "camel-case"
  {
    KebabSnoc("", 'C');
    assert [] + ['C'] == "C";
    KebabSnoc("C", 'a');
    assert "C" + ['a'] == "Ca";
    KebabSnoc("Ca", 'm');
    assert "Ca" + ['m'] == "Cam";
    KebabSnoc("Cam", 'e');
    assert "Cam" + ['e'] == "Came";
    KebabSnoc("Came", 'l');
    assert "Came" + ['l'] == "Camel";
    KebabSnoc("Camel", 'C');
    assert "Camel" + ['C'] == "CamelC";
    KebabSnoc("CamelC", 'a');
    assert "CamelC" + ['a'] == "CamelCa";
    KebabSnoc("CamelCa", 's');
    assert "CamelCa" + ['s'] == "CamelCas";
    KebabSnoc("CamelCas", 'e');
    assert "CamelCas" + ['e'] == "CamelCase";
  }

  /** Digits and punctuation are their own upper-case form, so they get a
      dash too: "a1" becomes "a-1", and a dash in the input is doubled. */
  lemma KebabDigitsAndDashes()
    ensures Kebab("a1") == "a-1"
    ensures Kebab("a-b") == "a--b"
  {
    KebabSnoc("", 'a');
    assert [] + ['a'] == "a";
    KebabSnoc("a", '1');
    assert "a" + ['1'] == "a1";
    KebabSnoc("a", '-');
    assert "a" + ['-'] == "a-";
    KebabSnoc("a-", 'b');
    assert "a-" + ['b'] == "a-b";
  }
}
