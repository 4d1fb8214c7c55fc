/**
 * Regular-expression patterns, reduced to literal ones: a pattern made only
 * of ordinary characters matches a string exactly when it occurs in it as a
 * contiguous substring. Metacharacters are not interpreted.
 */
module Regexes {

  /** A regular expression by its source text (`/ag/` has source "ag"). */
  datatype Regex = Regex(source: string)

  predicate IsPrefix(p: string, s: string) {
    |p| <= |s| && s[..|p|] == p
  }

  /** `p` occurs somewhere in `s`, searched from the left. */
  predicate Occurs(p: string, s: string)
    decreases |s|
  {
    IsPrefix(p, s) || (s != [] && Occurs(p, s[1..]))
  }

  /** `r =~ s` is truthy. */
  predicate RegexMatches(r: Regex, s: string) {
    Occurs(r.source, s)
  }

  /** The text Ruby's `Regexp#to_s` gives a pattern without options. */
  function RegexText(r: Regex): string {
    "(?-mix:" + r.source + ")"
  }

  /** `p` stands in `s` at position `i`. */
  predicate OccursAtPos(p: string, s: string, i: int) {
    0 <= i <= |s| - |p| && s[i..i + |p|] == p
  }

  /** The left-to-right search finds `p` exactly when `p` stands at some position of `s`. */
  lemma {:induction false} OccursAt(p: string, s: string)
    ensures Occurs(p, s) <==> exists i :: OccursAtPos(p, s, i)
  {
    if s == [] {
      if Occurs(p, s) {
        assert OccursAtPos(p, s, 0);
      }
    } else {
      OccursAt(p, s[1..]);
      if exists i :: OccursAtPos(p, s, i) {
        var i :| OccursAtPos(p, s, i);
        if i > 0 {
          assert s[1..][i - 1..i - 1 + |p|] == p;
          assert OccursAtPos(p, s[1..], i - 1);
        }
      }
      if Occurs(p, s) && !IsPrefix(p, s) {
        var i :| OccursAtPos(p, s[1..], i);
        assert s[i + 1..i + 1 + |p|] == p;
        assert OccursAtPos(p, s, i + 1);
      }
      if IsPrefix(p, s) {
        assert OccursAtPos(p, s, 0);
      }
    }
  }

  /** The empty pattern `//` matches every string. */
  lemma EmptyRegexMatchesAll(s: string)
    ensures RegexMatches(Regex(""), s)
  {
    assert IsPrefix("", s);
  }

  /** A pattern holding a character that the string lacks cannot match it. */
  lemma MissingCharNeverMatches(r: Regex, s: string, j: int)
    requires 0 <= j < |r.source| && r.source[j] !in s
    ensures !RegexMatches(r, s)
  {
    var p := r.source;
    OccursAt(p, s);
    forall i | 0 <= i <= |s| - |p|
      ensures !OccursAtPos(p, s, i)
    {
      assert s[i + j] in s;
      assert s[i..i + |p|][j] == s[i + j];
    }
  }
}
