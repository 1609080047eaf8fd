/** Text matching as the store performs `column ILIKE '%pattern%'`: ASCII case
    folding followed by plain substring search. */
module Text {

  /** ASCII lower-casing of one character; every other character is kept. */
  function FoldChar(c: char): char {
    if 'A' <= c <= 'Z' then (c as int + 32) as char else c
  }

  function Fold(s: string): (r: string)
    ensures |r| == |s|
    ensures forall i :: 0 <= i < |s| ==> r[i] == FoldChar(s[i])
    ensures forall i :: 0 <= i < |r| ==> !('A' <= r[i] <= 'Z')
  {
    if s == [] then [] else [FoldChar(s[0])] + Fold(s[1..])
  }

  /** `p` occurs in `s` as a contiguous block starting at position `i`. */
  predicate OccursAt(s: string, p: string, i: nat) {
    i + |p| <= |s| && s[i..i + |p|] == p
  }

  /** `p` occurs somewhere in `s`. */
  predicate Contains(s: string, p: string) {
    exists i: nat | i <= |s| :: OccursAt(s, p, i)
  }

  /** `s ILIKE '%p%'`. */
  predicate ILikeContains(s: string, p: string) {
    Contains(Fold(s), Fold(p))
  }

  /** Folding twice is folding once. */
  lemma FoldIdempotent(s: string)
    ensures Fold(Fold(s)) == Fold(s)
  {
    var f := Fold(s);
    assert forall i :: 0 <= i < |f| ==> Fold(f)[i] == f[i];
  }

  /** The match ignores the case of both the column and the pattern. */
  lemma ILikeIgnoresCase(s: string, p: string)
    ensures ILikeContains(s, p) == ILikeContains(Fold(s), p) == ILikeContains(s, Fold(p))
  {
    FoldIdempotent(s);
    FoldIdempotent(p);
  }

  /** The empty pattern (`'%%'`) matches every column value. */
  lemma EmptyPatternMatchesAll(s: string)
    ensures ILikeContains(s, "")
  {
    assert OccursAt(Fold(s), Fold(""), 0);
  }
}
