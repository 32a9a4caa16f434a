/** String operations the resort list relies on: the case-insensitive
    containment test behind the search field and the ordering of strings
    used by the two sort orders. Strings are sequences of characters; the
    case fold maps the ASCII capitals to lower case and leaves every other
    character alone, and the order is lexicographic on characters. */
module Text {

  /** Lower-case an ASCII capital letter; every other character is kept. */
  function FoldChar(c: char): (d: char)
    ensures 'A' <= c <= 'Z' ==> d as int == c as int + 32
    ensures !('A' <= c <= 'Z') ==> d == c
    ensures !('A' <= d <= 'Z')
  {
    if 'A' <= c <= 'Z' then (c as int + 32) as char else c
  }

  /** The case fold of a whole string, character by character. */
  function Fold(s: string): (t: string)
    ensures |t| == |s|
    ensures forall i :: 0 <= i < |s| ==> t[i] == FoldChar(s[i])
  {
    if s == [] then [] else [FoldChar(s[0])] + Fold(s[1..])
  }

  /** Folding twice changes nothing more than folding once. */
  lemma FoldIdempotent(s: string)
    ensures Fold(Fold(s)) == Fold(s)
  {
    assert forall i :: 0 <= i < |s| ==> FoldChar(FoldChar(s[i])) == FoldChar(s[i]);
  }

  /** Folding commutes with taking a slice. */
  lemma FoldSlice(s: string, i: nat, j: nat)
    requires i <= j <= |s|
    ensures Fold(s)[i..j] == Fold(s[i..j])
  {
    var t, u := Fold(s), Fold(s[i..j]);
    forall k | 0 <= k < j - i
      ensures t[i..j][k] == u[k]
    {
      assert s[i..j][k] == s[i + k];
    }
  }

  /** `needle` occurs in `hay` starting at position `i`. */
  ghost predicate OccursAt(hay: string, needle: string, i: int) {
    0 <= i && i + |needle| <= |hay| && hay[i..i + |needle|] == needle
  }

  /** `p` is a prefix of `s`. */
  predicate IsPrefix(p: string, s: string) {
    |p| <= |s| && s[..|p|] == p
  }

  /** `hay` contains `needle` as a contiguous substring. */
  function Contains(hay: string, needle: string): (b: bool)
    ensures b ==> |needle| <= |hay|
    ensures IsPrefix(needle, hay) ==> b
    decreases |hay|
  {
    IsPrefix(needle, hay) || (hay != [] && Contains(hay[1..], needle))
  }

  /** `Contains` holds exactly when the needle occurs at some position. */
  lemma {:induction false} ContainsIffOccurs(hay: string, needle: string)
    ensures Contains(hay, needle) <==> exists i :: OccursAt(hay, needle, i)
    decreases |hay|
  {
    if IsPrefix(needle, hay) {
      assert OccursAt(hay, needle, 0);
    } else if hay == [] {
      assert forall i :: OccursAt(hay, needle, i) ==> needle == [];
    } else {
      ContainsIffOccurs(hay[1..], needle);
      if Contains(hay[1..], needle) {
        var i :| OccursAt(hay[1..], needle, i);
        assert hay[1..][i..i + |needle|] == hay[i + 1..i + 1 + |needle|];
        assert OccursAt(hay, needle, i + 1);
      }
      if exists i :: OccursAt(hay, needle, i) {
        var i :| OccursAt(hay, needle, i);
        assert i != 0;
        assert hay[1..][i - 1..i - 1 + |needle|] == hay[i..i + |needle|];
        assert OccursAt(hay[1..], needle, i - 1);
      }
    }
  }

  /** Containment is transitive: a substring of a substring is a substring. */
  lemma ContainsTransitive(a: string, b: string, c: string)
    requires Contains(a, b) && Contains(b, c)
    ensures Contains(a, c)
  {
    ContainsIffOccurs(a, b);
    ContainsIffOccurs(b, c);
    var i :| OccursAt(a, b, i);
    var j :| OccursAt(b, c, j);
    var window := a[i + j..i + j + |c|];
    forall k | 0 <= k < |c|
      ensures window[k] == c[k]
    {
      assert a[i..i + |b|][j + k] == b[j + k];
      assert b[j..j + |c|][k] == b[j + k];
    }
    assert window == c;
    assert OccursAt(a, c, i + j);
    ContainsIffOccurs(a, c);
  }

  /** The case-insensitive containment test: both sides are folded and
      the folded search text must occur in the folded string. */
  predicate CaseInsensitiveContains(hay: string, needle: string): (b: bool)
    ensures b <==> exists i :: OccursAt(Fold(hay), Fold(needle), i)
    ensures b ==> |needle| <= |hay|
  {
    ContainsIffOccurs(Fold(hay), Fold(needle));
    var b := Contains(Fold(hay), Fold(needle));
    assert b ==> exists i :: OccursAt(Fold(hay), Fold(needle), i);
    b
  }

  /** An exact occurrence is also a case-insensitive one. */
  lemma ExactMatchIsCaseInsensitiveMatch(hay: string, needle: string)
    requires Contains(hay, needle)
    ensures CaseInsensitiveContains(hay, needle)
  {
    ContainsIffOccurs(hay, needle);
    var i :| OccursAt(hay, needle, i);
    FoldSlice(hay, i, i + |needle|);
    assert OccursAt(Fold(hay), Fold(needle), i);
    ContainsIffOccurs(Fold(hay), Fold(needle));
  }

  /** The test ignores the letter case of either side. */
  lemma CaseInsensitiveContainsIgnoresCase(hay: string, needle: string)
    ensures CaseInsensitiveContains(hay, needle) <==> CaseInsensitiveContains(Fold(hay), Fold(needle))
  {
    FoldIdempotent(hay);
    FoldIdempotent(needle);
  }

  /** Lexicographic strict order on strings: a proper prefix comes first,
      otherwise the first differing character decides. */
  predicate Less(a: string, b: string): (r: bool)
    ensures r ==> a != b
    ensures IsPrefix(a, b) && a != b ==> r
  {
    if a == [] then b != []
    else if b == [] then false
    else if a[0] != b[0] then a[0] < b[0]
    else Less(a[1..], b[1..])
  }

  /** Non-strict companion of `Less`: equal, or strictly before. */
  predicate LessEq(a: string, b: string): (r: bool)
    ensures r <==> a == b || Less(a, b)
  {
    LessTrichotomous(a, b);
    LessAsymmetric(a, b);
    !Less(b, a)
  }

  /** A strict "before" rules out the converse. */
  lemma LessAsymmetric(a: string, b: string)
    ensures !(Less(a, b) && Less(b, a))
  {
    if Less(a, b) && Less(b, a) {
      LessTransitive(a, b, a);
      LessIrreflexive(a);
    }
  }

  lemma {:induction false} LessIrreflexive(a: string)
    ensures !Less(a, a)
  {
    if a != [] {
      LessIrreflexive(a[1..]);
    }
  }

  lemma {:induction false} LessTransitive(a: string, b: string, c: string)
    requires Less(a, b) && Less(b, c)
    ensures Less(a, c)
  {
    if a != [] && a[0] == b[0] && b[0] == c[0] {
      LessTransitive(a[1..], b[1..], c[1..]);
    }
  }

  /** Any two strings are equal or ordered one way or the other. */
  lemma {:induction false} LessTrichotomous(a: string, b: string)
    ensures a == b || Less(a, b) || Less(b, a)
  {
    if a != [] && b != [] && a[0] == b[0] {
      LessTrichotomous(a[1..], b[1..]);
      if a[1..] == b[1..] {
        assert a == [a[0]] + a[1..] && b == [b[0]] + b[1..];
      }
    }
  }

  /** `LessEq` is a total preorder (indeed a total order), so sorting by it
      is well defined. */
  lemma LessEqTotalPreorder(a: string, b: string, c: string)
    ensures LessEq(a, a)
    ensures LessEq(a, b) || LessEq(b, a)
    ensures LessEq(a, b) && LessEq(b, c) ==> LessEq(a, c)
  {
    LessIrreflexive(a);
    LessAsymmetric(a, b);
    if LessEq(a, b) && LessEq(b, c) && Less(c, a) {
      if Less(a, b) {
        LessTransitive(c, a, b);
      }
    }
  }

  /** Two strings that each do not exceed the other are equal. */
  lemma LessEqAntisymmetric(a: string, b: string)
    requires LessEq(a, b) && LessEq(b, a)
    ensures a == b
  {
    LessTrichotomous(a, b);
  }

  /** A string cannot contain a needle holding a character it lacks. */
  lemma MissingCharNotContained(hay: string, needle: string, k: nat)
    requires k < |needle| && needle[k] !in hay
    ensures !Contains(hay, needle)
  {
    ContainsIffOccurs(hay, needle);
  }

  /** The case-insensitive test fails when the folded needle holds a
      character the folded string lacks. */
  lemma MissingCharNoCaseInsensitiveMatch(hay: string, needle: string, k: nat)
    requires k < |needle| && FoldChar(needle[k]) !in Fold(hay)
    ensures !CaseInsensitiveContains(hay, needle)
  {
    MissingCharNotContained(Fold(hay), Fold(needle), k);
  }
}
