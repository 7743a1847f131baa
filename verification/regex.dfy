/**
  The fragment of JavaScript regular expressions the link components use:
  the start-of-input anchor `^`, literal characters, and a negative lookahead
  of one literal character `(?!c)`. `RegExp.prototype.test` on a pattern
  without the global or sticky flag tries every start position from 0 to the
  length of the input and succeeds if the pattern matches at any of them.
 */
module Regex {

  datatype Atom =
    | LineStart                // ^  (no multiline flag: only position 0)
    | Char(c: char)            // a literal character, consuming one input character
    | NotFollowedBy(c: char)   // (?!c), zero-width

  type Pattern = seq<Atom>

  /** The pattern matches the input starting at position `pos`. */
  predicate MatchesAt(p: Pattern, s: string, pos: nat)
    requires pos <= |s|
    decreases |p|
  {
    if |p| == 0 then true
    else match p[0]
      case LineStart => pos == 0 && MatchesAt(p[1..], s, pos)
      case Char(c) => pos < |s| && s[pos] == c && MatchesAt(p[1..], s, pos + 1)
      case NotFollowedBy(c) => !(pos < |s| && s[pos] == c) && MatchesAt(p[1..], s, pos)
  }

  /** The scan over start positions `pos`, `pos + 1`, ..., `|s|`. */
  function SearchFrom(p: Pattern, s: string, pos: nat): bool
    requires pos <= |s|
    decreases |s| - pos
  {
    MatchesAt(p, s, pos) || (pos < |s| && SearchFrom(p, s, pos + 1))
  }

  /** The scan succeeds exactly when some start position at or after `pos` matches. */
  lemma {:induction false} SearchFromFindsMatch(p: Pattern, s: string, pos: nat)
    requires pos <= |s|
    ensures SearchFrom(p, s, pos) ==> exists q: nat :: pos <= q <= |s| && MatchesAt(p, s, q)
    ensures (exists q: nat :: pos <= q <= |s| && MatchesAt(p, s, q)) ==> SearchFrom(p, s, pos)
    decreases |s| - pos
  {
    if MatchesAt(p, s, pos) {
      assert pos <= pos <= |s| && MatchesAt(p, s, pos);
    } else if pos < |s| {
      SearchFromFindsMatch(p, s, pos + 1);
      assert forall q: nat :: pos <= q <= |s| && MatchesAt(p, s, q) ==> pos + 1 <= q;
    }
  }

  /** `pattern.test(s)`. */
  function Test(p: Pattern, s: string): (found: bool)
    ensures found <==> exists q: nat :: 0 <= q <= |s| && MatchesAt(p, s, q)
  {
    SearchFromFindsMatch(p, s, 0);
    SearchFrom(p, s, 0)
  }
}
