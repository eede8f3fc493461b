/** The character tables, spelled out: what is whitespace, and what folds to what. The model asks
    for whitespace and folding through range tests that are quick to reason about; here every
    character those tests name is listed, as `str.isspace` and the typographic table of
    `scripts/text_fold.py` list them. */
module Characters {
  import opened Prelude
  import opened TextFold

  /** The characters of `str.isspace`. */
  lemma {:induction false} SpacesExactly(c: char)
    ensures IsSpace(c)
      <==> c as int in [9, 10, 11, 12, 13, 28, 29, 30, 31, 32, 0x85, 0xA0, 0x1680, 0x2000, 0x2001, 0x2002, 0x2003,
        0x2004,
        0x2005, 0x2006, 0x2007, 0x2008, 0x2009, 0x200A, 0x2028, 0x2029, 0x202F, 0x205F, 0x3000]
  {
    var n, codes := c as int, WIDE_SPACES;
    FourRanges(n, codes);
    FourRanges(n, codes.rest.rest.rest.rest);
  }

  lemma {:induction false} FourRanges(n: int, c: Codes)
    requires c.Range? && c.rest.Range? && c.rest.rest.Range? && c.rest.rest.rest.Range?
    ensures Within(n, c)
      <==> (c.first <= n <= c.last || c.rest.first <= n <= c.rest.last || c.rest.rest.first <= n <= c.rest.rest.last
            || c.rest.rest.rest.first <= n <= c.rest.rest.rest.last || Within(n, c.rest.rest.rest.rest))
  {
    assert Within(n, c.rest.rest) <==> c.rest.rest.first <= n <= c.rest.rest.last || Within(n, c.rest.rest.rest);
    assert Within(n, c.rest) <==> c.rest.first <= n <= c.rest.last || Within(n, c.rest.rest);
  }

  /** Typographic quotes, primes and dashes fold to the plain ones, and every other character to itself. */
  lemma {:induction false} FoldCharExactly(c: char)
    ensures FoldChar(c) == '\''
      <==> c == '\'' || c as int in [0x2018, 0x2019, 0x201A, 0x201B, 0x2032, 0x02BC, 0x00B4]
    ensures FoldChar(c) == '\"' <==> c == '\"' || c as int in [0x201C, 0x201D, 0x201E, 0x201F, 0x2033]
    ensures FoldChar(c) == '-'
      <==> c == '-' || c as int in [0x2010, 0x2011, 0x2012, 0x2013, 0x2014, 0x2015, 0x2212]
    ensures FoldChar(c) in "'\"-" || FoldChar(c) == c
  {
  }
}
