/** Whitespace removal of src/crypto/utils.ts (`removeSpaces`), used on
    textual statement values before they are read as numbers. */
module Whitespace {

  /** The characters `removeSpaces` deletes: space, tab and newline. */
  predicate IsBlank(c: char) {
    c == ' ' || c == '\t' || c == '\n'
  }

  /** `removeSpaces`: `str.replace(/[ \t\n]/g, "")`. No blank is left. */
  function RemoveSpaces(s: string): (r: string)
    ensures forall i :: 0 <= i < |r| ==> !IsBlank(r[i])
    ensures |r| <= |s|
  {
    if s == [] then []
    else (if IsBlank(s[0]) then [] else [s[0]]) + RemoveSpaces(s[1..])
  }

  /** Every character other than a blank occurs as often as before. */
  lemma {:induction false} RemoveSpacesKeepsOthers(s: string, c: char)
    requires !IsBlank(c)
    ensures multiset(RemoveSpaces(s))[c] == multiset(s)[c]
  {
    if s != [] {
      assert s == [s[0]] + s[1..];
      RemoveSpacesKeepsOthers(s[1..], c);
    }
  }

  /** Removal works piece by piece, so the characters that are kept stay in
      their original order. */
  lemma {:induction false} RemoveSpacesConcat(a: string, b: string)
    ensures RemoveSpaces(a + b) == RemoveSpaces(a) + RemoveSpaces(b)
  {
    if a != [] {
      var head := if IsBlank(a[0]) then [] else [a[0]];
      assert (a + b)[0] == a[0] && (a + b)[1..] == a[1..] + b;
      assert RemoveSpaces(a + b) == head + RemoveSpaces(a[1..] + b);
      RemoveSpacesConcat(a[1..], b);
      assert RemoveSpaces(a) == head + RemoveSpaces(a[1..]);
    } else {
      assert a + b == b;
    }
  }

  /** A kept character sits between what is kept of its left and of its
      right context. */
  lemma KeepsOrder(a: string, c: char, b: string)
    requires !IsBlank(c)
    ensures RemoveSpaces(a + [c] + b) == RemoveSpaces(a) + [c] + RemoveSpaces(b)
  {
    RemoveSpacesConcat(a + [c], b);
    RemoveSpacesConcat(a, [c]);
  }

  /** Text without blanks is left as it is. */
  lemma {:induction false} RemoveSpacesNoBlanks(s: string)
    requires forall i :: 0 <= i < |s| ==> !IsBlank(s[i])
    ensures RemoveSpaces(s) == s
  {
    if s != [] {
      RemoveSpacesNoBlanks(s[1..]);
    }
  }

  /** Removing blanks twice is the same as removing them once. */
  lemma RemoveSpacesIdempotent(s: string)
    ensures RemoveSpaces(RemoveSpaces(s)) == RemoveSpaces(s)
  {
    RemoveSpacesNoBlanks(RemoveSpaces(s));
  }
}
