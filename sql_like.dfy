/** SQLite's built-in `LIKE` operator, as `searchNotes` uses it with the
    pattern `%term%`: `%` matches any run of characters (possibly empty), `_`
    matches exactly one character, no escape character is set, and letters
    compare case-insensitively for the ASCII range only (`A`..`Z` against
    `a`..`z`); every other character must be equal. */
module SqlLike {
  import opened Text

  /** The case folding `LIKE` applies: ASCII upper-case letters to lower case. */
  function Fold(c: char): (r: char)
    ensures 'A' <= c <= 'Z' ==> 'a' <= r <= 'z' && r as int - 'a' as int == c as int - 'A' as int
    ensures !('A' <= c <= 'Z') ==> r == c
    ensures !('A' <= r <= 'Z')
  {
    if 'A' <= c <= 'Z' then (c as int + ('a' as int - 'A' as int)) as char else c
  }

  /** `s` with every character folded. */
  function Lower(s: string): (r: string)
    ensures |r| == |s|
    ensures forall i :: 0 <= i < |s| ==> r[i] == Fold(s[i])
  {
    seq(|s|, i requires 0 <= i < |s| => Fold(s[i]))
  }

  /** Two characters fold alike exactly when they are equal or are the same
      ASCII letter in its two cases. */
  lemma FoldSameIff(c: char, d: char)
    ensures Fold(c) == Fold(d) <==> c == d || SameLetter(c, d) || SameLetter(d, c)
  {
  }

  /** `u` is an ASCII capital and `l` the small letter in its place. */
  predicate SameLetter(u: char, l: char)
  {
    'A' <= u <= 'Z' && 'a' <= l <= 'z' && l as int - 'a' as int == u as int - 'A' as int
  }

  /** One pattern character that is not `%` against one subject character. */
  predicate CharMatches(pc: char, c: char)
  {
    pc == '_' || Fold(pc) == Fold(c)
  }

  /** Whether `s` matches the `LIKE` pattern `p` as a whole. */
  predicate Like(p: string, s: string)
    decreases |p| + |s|
  {
    if p == [] then s == []
    else if p[0] == '%' then Like(p[1..], s) || (s != [] && Like(p, s[1..]))
    else s != [] && CharMatches(p[0], s[0]) && Like(p[1..], s[1..])
  }

  /** The pattern `searchNotes` binds for a term: `%term%`. */
  function Pattern(term: string): string
  {
    "%" + term + "%"
  }

  /** A term in which `LIKE` sees no wildcard. */
  predicate WildcardFree(t: string)
  {
    forall i :: 0 <= i < |t| ==> t[i] != '%' && t[i] != '_'
  }

  /** A lone `%` matches every string. */
  lemma {:induction false} PercentMatchesAll(s: string)
    ensures Like("%", s)
  {
    if s != [] {
      PercentMatchesAll(s[1..]);
    }
  }

  /** A wildcard-free literal followed by `%` matches exactly the strings that
      start with that literal, up to ASCII case. */
  lemma {:induction false} LiteralPrefix(t: string, s: string)
    requires WildcardFree(t)
    ensures Like(t + "%", s) <==> IsPrefix(Lower(t), Lower(s))
  {
    if t == [] {
      assert t + "%" == "%";
      PercentMatchesAll(s);
    } else {
      var p := t + "%";
      assert p[0] == t[0] && p[1..] == t[1..] + "%";
      if s != [] {
        LiteralPrefix(t[1..], s[1..]);
        assert Lower(t) == [Fold(t[0])] + Lower(t[1..]);
        assert Lower(s) == [Fold(s[0])] + Lower(s[1..]);
      }
    }
  }

  /** For a wildcard-free term, `LIKE '%term%'` is ASCII-case-insensitive
      substring search: it holds exactly when the folded term occurs in the
      folded subject. */
  lemma {:induction false} PatternIsFoldedContains(term: string, s: string)
    requires WildcardFree(term)
    ensures Like(Pattern(term), s) <==> Contains(Lower(s), Lower(term))
  {
    var p := Pattern(term);
    assert p[0] == '%' && p[1..] == term + "%";
    LiteralPrefix(term, s);
    if s != [] {
      PatternIsFoldedContains(term, s[1..]);
      assert Lower(s)[1..] == Lower(s[1..]);
    }
  }

  /** The empty term gives the pattern `%%`, which matches every string. */
  lemma EmptyTermMatchesAll(s: string)
    ensures Like(Pattern(""), s)
  {
    assert Pattern("")[1..] == "%";
    PercentMatchesAll(s);
  }

  /** A `_` typed into the search box is a wildcard: `%_%` matches exactly the
      non-empty strings, whatever they contain. */
  lemma {:induction false} UnderscoreMatchesAnyNonEmpty(s: string)
    ensures Like(Pattern("_"), s) <==> s != []
  {
    var p := Pattern("_");
    assert p[1..] == "_%" && p[1..][1..] == "%";
    if s != [] {
      PercentMatchesAll(s[1..]);
    }
  }
}
