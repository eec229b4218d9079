/**
 The two string primitives the quote search uses: lower-casing
 (`String.prototype.toLowerCase`) and substring search
 (`String.prototype.includes`). Characters are Unicode scalar values;
 lower-casing folds only the ASCII letters A-Z.
 */
module Text {

  /** `c` is an ASCII capital letter. */
  predicate IsUpper(c: char) {
    'A' <= c <= 'Z'
  }

  /** The lower-case form of one character: A-Z map to a-z, everything else is kept. */
  function LowerChar(c: char): (d: char)
    ensures !IsUpper(d)
    ensures IsUpper(c) ==> d as int == c as int + 32
    ensures !IsUpper(c) ==> d == c
  {
    if IsUpper(c) then (c as int + 32) as char else c
  }

  /** The lower-case form of a string, character by character. */
  function Lower(s: string): (r: string)
    ensures |r| == |s|
    ensures forall i :: 0 <= i < |s| ==> !IsUpper(r[i])
    ensures forall i :: 0 <= i < |s| && !IsUpper(s[i]) ==> r[i] == s[i]
    ensures forall i :: 0 <= i < |s| && IsUpper(s[i]) ==> r[i] as int == s[i] as int + 32
  {
    seq(|s|, i requires 0 <= i < |s| => LowerChar(s[i]))
  }

  /** Lower-casing changes nothing in a string that has no capital letter. */
  lemma LowerFixesLowercase(s: string)
    requires forall i :: 0 <= i < |s| ==> !IsUpper(s[i])
    ensures Lower(s) == s
  {
  }

  /** Lower-casing twice is lower-casing once. */
  lemma LowerIdempotent(s: string)
    ensures Lower(Lower(s)) == Lower(s)
  {
    LowerFixesLowercase(Lower(s));
  }

  /** Lower-casing works character by character, so it distributes over concatenation. */
  lemma LowerAppend(a: string, b: string)
    ensures Lower(a + b) == Lower(a) + Lower(b)
  {
  }

  /** A lower-case letter appears in the lower-cased string only if it or its
      capital appears in the original. */
  lemma LowerLacks(s: string, c: char)
    requires 'a' <= c <= 'z'
    requires c !in s && (c as int - 32) as char !in s
    ensures c !in Lower(s)
  {
  }

  /** `needle` occurs in `hay` as the contiguous block starting at position `i`. */
  ghost predicate OccursAt(needle: string, hay: string, i: int) {
    0 <= i <= |hay| - |needle| && hay[i..i + |needle|] == needle
  }

  /** `needle` occurs in `hay` at some position. */
  ghost predicate IsSubstring(needle: string, hay: string) {
    exists i :: OccursAt(needle, hay, i)
  }

  /** `prefix` is the beginning of `s`. */
  predicate StartsWith(s: string, prefix: string) {
    |prefix| <= |s| && s[..|prefix|] == prefix
  }

  /** `hay.includes(needle)`: try every start position from the left. */
  function Includes(hay: string, needle: string): bool
    decreases |hay|
  {
    StartsWith(hay, needle) || (|hay| > 0 && Includes(hay[1..], needle))
  }

  /** The search procedure answers exactly the substring question. */
  lemma {:induction false} IncludesIsSubstring(hay: string, needle: string)
    ensures Includes(hay, needle) <==> IsSubstring(needle, hay)
    decreases |hay|
  {
    if StartsWith(hay, needle) {
      assert OccursAt(needle, hay, 0);
    } else if |hay| > 0 {
      var tail := hay[1..];
      IncludesIsSubstring(tail, needle);
      if IsSubstring(needle, tail) {
        var i :| OccursAt(needle, tail, i);
        assert hay[i + 1..i + 1 + |needle|] == tail[i..i + |needle|];
        assert OccursAt(needle, hay, i + 1);
      }
      if IsSubstring(needle, hay) {
        var i :| OccursAt(needle, hay, i);
        if i > 0 {
          assert tail[i - 1..i - 1 + |needle|] == hay[i..i + |needle|];
          assert OccursAt(needle, tail, i - 1);
        }
      }
    }
  }

  /** The empty string occurs in every string, so an empty search matches everything. */
  lemma EmptyIncludedEverywhere(hay: string)
    ensures Includes(hay, "")
  {
    assert StartsWith(hay, "");
  }

  /** A needle containing a character that the haystack lacks does not occur in it. */
  lemma MissingCharNotSubstring(hay: string, needle: string, c: char)
    requires c in needle && c !in hay
    ensures !IsSubstring(needle, hay)
  {
    var k :| 0 <= k < |needle| && needle[k] == c;
    forall i | 0 <= i <= |hay| - |needle|
      ensures !OccursAt(needle, hay, i)
    {
      assert hay[i..i + |needle|][k] == hay[i + k];
    }
  }

  /** A character the needle lacks splits the haystack: every occurrence lies
      wholly before it or wholly after it. */
  lemma SeparatorNotSubstring(a: string, c: char, b: string, needle: string)
    requires c !in needle
    requires !IsSubstring(needle, a) && !IsSubstring(needle, b)
    ensures !IsSubstring(needle, a + [c] + b)
  {
    var hay := a + [c] + b;
    var n := |needle|;
    forall i | 0 <= i <= |hay| - n
      ensures !OccursAt(needle, hay, i)
    {
      if i + n <= |a| {
        assert hay[i..i + n] == a[i..i + n];
        assert !OccursAt(needle, a, i);
      } else if i > |a| {
        assert hay[i..i + n] == b[i - |a| - 1..i - |a| - 1 + n];
        assert !OccursAt(needle, b, i - |a| - 1);
      } else {
        assert hay[i..i + n][|a| - i] == c;
      }
    }
  }

  /** The lower-case letter `c` appears in `s` neither in lower nor in upper case. */
  predicate LacksLetter(s: string, c: char) {
    'a' <= c <= 'z' && c !in s && (c as int - 32) as char !in s
  }

  /** A letter of the needle that the haystack lacks in either case rules out
      a case-insensitive match. */
  lemma MissingLetterNotSubstring(hay: string, needle: string, c: char)
    requires LacksLetter(hay, c) && c in needle
    ensures !IsSubstring(needle, Lower(hay))
  {
    LowerLacks(hay, c);
    MissingCharNotSubstring(Lower(hay), needle, c);
  }
}
