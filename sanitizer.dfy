/** The login screen's `Sanitizer(value, setFunc, regex)`:
    `value.replace(regex, '')` for a global one-character class, handed to
    a state setter. Frontend/app/index.tsx and app/index.tsx carry the same
    function and call it with the same two classes. */
module Sanitizer {
  import opened Text

  /** `value.replace(/[class]/g, '')`: every character of the class
      removed, the others kept in order. */
  function Sanitize(value: string, inClass: char -> bool): (r: string)
    ensures |r| <= |value|
    ensures forall c :: c in r <==> c in value && !inClass(c)
  {
    Filter(value, c => !inClass(c))
  }

  /** Each character occurs in the output exactly as often as in the input,
      unless it is in the class, when it does not occur at all. */
  lemma {:induction false} SanitizeCounts(value: string, inClass: char -> bool, c: char)
    ensures multiset(Sanitize(value, inClass))[c] == if inClass(c) then 0 else multiset(value)[c]
  {
    if value != [] {
      SanitizeCounts(value[1..], inClass, c);
      assert value == [value[0]] + value[1..];
      assert Sanitize(value, inClass)
          == (if !inClass(value[0]) then [value[0]] else []) + Sanitize(value[1..], inClass);
    }
  }

  /** Sanitising a concatenation sanitises each part in place: the kept
      characters stay in their original order. */
  lemma SanitizeAppend(a: string, b: string, inClass: char -> bool)
    ensures Sanitize(a + b, inClass) == Sanitize(a, inClass) + Sanitize(b, inClass)
  {
    FilterAppend(a, b, c => !inClass(c));
  }

  /** An input with no character of the class comes back unchanged, and
      only such an input does. */
  lemma SanitizeUnchanged(value: string, inClass: char -> bool)
    ensures Sanitize(value, inClass) == value <==> forall i :: 0 <= i < |value| ==> !inClass(value[i])
  {
    if forall i :: 0 <= i < |value| ==> !inClass(value[i]) {
      FilterKeepsAll(value, c => !inClass(c));
    } else {
      var i :| 0 <= i < |value| && inClass(value[i]);
      assert value[i] in value;
      assert value[i] !in Sanitize(value, inClass);
    }
  }

  /** Sanitising twice is sanitising once. */
  lemma SanitizeIdempotent(value: string, inClass: char -> bool)
    ensures Sanitize(Sanitize(value, inClass), inClass) == Sanitize(value, inClass)
  {
    FilterIdempotent(value, c => !inClass(c));
  }

  // ---------------------------------------------------------------------
  // The two classes the login screen uses
  // ---------------------------------------------------------------------

  /** The characters an email field keeps: `[a-zA-Z0-9@.]`. */
  predicate IsEmailChar(c: char) {
    ('a' <= c <= 'z') || ('A' <= c <= 'Z') || ('0' <= c <= '9') || c == '@' || c == '.'
  }

  /** The class `[^a-zA-Z0-9@.]`. */
  predicate OutsideEmailChars(c: char) {
    !IsEmailChar(c)
  }

  /** The class `[<>()]`. */
  predicate IsMarkupChar(c: char) {
    c == '<' || c == '>' || c == '(' || c == ')'
  }

  function SanitizeEmail(value: string): string {
    Sanitize(value, OutsideEmailChars)
  }

  function SanitizePassword(value: string): string {
    Sanitize(value, IsMarkupChar)
  }

  /** The sanitised email holds letters, digits, '@' and '.' only, and every
      such character of the input survives as often as it occurs. */
  lemma SanitizedEmail(value: string, c: char)
    ensures forall i :: 0 <= i < |SanitizeEmail(value)| ==> IsEmailChar(SanitizeEmail(value)[i])
    ensures IsEmailChar(c) ==> multiset(SanitizeEmail(value))[c] == multiset(value)[c]
  {
    var r := SanitizeEmail(value);
    forall i | 0 <= i < |r| ensures IsEmailChar(r[i]) {
      assert r[i] in r;
    }
    SanitizeCounts(value, OutsideEmailChars, c);
  }

  /** The sanitised password holds none of '<', '>', '(' and ')', and every
      other character of the input survives as often as it occurs. */
  lemma SanitizedPassword(value: string, c: char)
    ensures forall i :: 0 <= i < |SanitizePassword(value)| ==> !IsMarkupChar(SanitizePassword(value)[i])
    ensures !IsMarkupChar(c) ==> multiset(SanitizePassword(value))[c] == multiset(value)[c]
  {
    var r := SanitizePassword(value);
    forall i | 0 <= i < |r| ensures !IsMarkupChar(r[i]) {
      assert r[i] in r;
    }
    SanitizeCounts(value, IsMarkupChar, c);
  }

  /** A one-character input is dropped or kept whole. */
  lemma SanitizeChar(c: char, inClass: char -> bool)
    ensures Sanitize([c], inClass) == if inClass(c) then [] else [c]
  {
    assert [c][1..] == [];
  }

  /** A three-character input is sanitised one character at a time. */
  lemma SanitizeThree(x: char, y: char, z: char, inClass: char -> bool)
    ensures Sanitize([x, y, z], inClass)
      == Sanitize([x], inClass) + Sanitize([y], inClass) + Sanitize([z], inClass)
  {
    assert [x, y, z] == [x] + [y] + [z];
    SanitizeAppend([x], [y], inClass);
    SanitizeAppend([x] + [y], [z], inClass);
  }

  /** "a<b" keeps "ab" as an email: '<' is not a letter, digit, '@' or '.'. */
  lemma SanitizeEmailExample()
    ensures SanitizeEmail("a<b") == "ab"
  {
    assert !OutsideEmailChars('a') && OutsideEmailChars('<') && !OutsideEmailChars('b');
    SanitizeThree('a', '<', 'b', OutsideEmailChars);
    SanitizeChar('a', OutsideEmailChars);
    SanitizeChar('<', OutsideEmailChars);
    SanitizeChar('b', OutsideEmailChars);
    assert "a<b" == ['a', '<', 'b'] && "ab" == ['a'] + [] + ['b'];
  }

  /** "a<b" keeps "ab" as a password: '<' is markup. */
  lemma SanitizePasswordExample()
    ensures SanitizePassword("a<b") == "ab"
  {
    assert !IsMarkupChar('a') && IsMarkupChar('<') && !IsMarkupChar('b');
    SanitizeThree('a', '<', 'b', IsMarkupChar);
    SanitizeChar('a', IsMarkupChar);
    SanitizeChar('<', IsMarkupChar);
    SanitizeChar('b', IsMarkupChar);
    assert "a<b" == ['a', '<', 'b'] && "ab" == ['a'] + [] + ['b'];
  }
}
