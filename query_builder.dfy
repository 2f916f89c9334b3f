/** The SQL text builder of the audiobook search app: `generate_query` turns
    a raw search term and the selected category names into one BigQuery
    statement over the audiobook feed table. */
module QueryBuilder {
  import opened PyStr

  /** The categories the multi-select offers. */
  const CategoriesList: seq<string> := ["Fiction", "Non-Fiction", "Mystery", "Romance", "Sci-Fi"]

  /** The base statement, line by line: projection, source table and the
      one predicate that is always present. The summary regex is written
      inside a non-raw Python string, so each `\n` in it is a real line
      feed while `\s` stays a backslash followed by `s`. */
  const BaseLines: seq<string> := [
    "\n",
    "    SELECT\n",
    "      title AS `Book Title`,\n",
    "      ARRAY_TO_STRING(authors, ', ') AS `Author`,\n",
    "      ARRAY_TO_STRING(categories, ', ') AS `Category`,\n",
    "      TRIM(\n",
    "        REGEXP_REPLACE(\n",
    "          summary,\n",
    "          r'(?i)^Shared by:[^\n]*\\s*\n+',\n",
    "          ''\n",
    "        )\n",
    "      ) AS `Summary`,\n",
    "      link AS `Link`,\n",
    "      update_time AS `Record Updated`,\n",
    "      publication_time AS `Published`,\n",
    "      user AS `Uploaded By`\n",
    "    FROM\n",
    "      `mybots-397304.audiobookbay.atom_feed` AS atom_feed\n",
    "    WHERE\n",
    NotNullPredicate
  ]

  const Base: string := Concat(BaseLines)

  /** The lines of a text put back together. */
  function Concat(lines: seq<string>): string {
    if lines == [] then "" else lines[0] + Concat(lines[1..])
  }

  lemma {:induction false} ConcatLast(lines: seq<string>)
    requires lines != []
    ensures Concat(lines) == Concat(lines[..|lines| - 1]) + lines[|lines| - 1]
  {
    if |lines| > 1 {
      ConcatLast(lines[1..]);
      assert lines[1..][..|lines| - 2] == lines[..|lines| - 1][1..];
    }
  }

  /** Each piece appears in the concatenation right after the pieces
      before it. */
  lemma {:induction false} ConcatOccurs(pieces: seq<string>, k: int)
    requires 0 <= k < |pieces|
    ensures OccursAt(Concat(pieces), pieces[k], |Concat(pieces[..k])|)
  {
    var rest := Concat(pieces[1..]);
    if k == 0 {
      assert Concat(pieces[..0]) == "";
      assert (pieces[0] + rest)[..|pieces[0]|] == pieces[0];
    } else {
      ConcatOccurs(pieces[1..], k - 1);
      assert pieces[..k][1..] == pieces[1..][..k - 1];
      assert Concat(pieces[..k]) == pieces[0] + Concat(pieces[1..][..k - 1]);
      OccursInContext(pieces[0], rest, "", pieces[k], |Concat(pieces[1..][..k - 1])|);
      AppendEmpty(pieces[0] + rest);
    }
  }

  /** The last line of the base statement, with the indentation after it. */
  const NotNullPredicate: string := "      title IS NOT NULL\n    "

  const CategoryOpen: string := " AND " + "REGEXP_CONTAINS(ARRAY_TO_STRING(categories, ', '), r'(?i)("
  const CategoryClose: string := ")')"

  const SearchOpen: string := "\n        AND (\n          "
  const OrLine: string := "\n          OR "
  const SearchClose: string := "\n        )\n        "

  /** The four lower-cased columns the search term is matched against. */
  const LikeColumns: seq<string> := [
    "LOWER(title)",
    "LOWER(ARRAY_TO_STRING(authors, ', '))",
    "LOWER(ARRAY_TO_STRING(categories, ', '))",
    "LOWER(user)"
  ]

  const Suffix: string := " ORDER BY update_time DESC LIMIT 20"

  /** `search_term.strip().lower()`. */
  function Normalize(searchTerm: string): string {
    Lower(Strip(searchTerm))
  }

  /** `f"\\b{category}\\b"`: the category name between two regex word
      boundaries (a backslash and `b` on each side). */
  function WordBounded(category: string): string {
    "\\b" + category + "\\b"
  }

  /** `"|".join([f"\\b{category}\\b" for category in selected_categories])`. */
  function CategoryPattern(categories: seq<string>): string {
    Join('|', seq(|categories|, k requires 0 <= k < |categories| => WordBounded(categories[k])))
  }

  /** The category predicate for a given alternation pattern. */
  function CategoryClause(pattern: string): string {
    CategoryOpen + pattern + CategoryClose
  }

  /** One `column LIKE '%term%'` test; the term goes in unescaped. */
  function LikeTest(column: string, term: string): string {
    column + " LIKE '%" + term + "%'"
  }

  /** The lines of the four-way search disjunction for a normalised term. */
  function SearchPieces(term: string): seq<string> {
    [
      SearchOpen,
      LikeTest(LikeColumns[0], term), OrLine,
      LikeTest(LikeColumns[1], term), OrLine,
      LikeTest(LikeColumns[2], term), OrLine,
      LikeTest(LikeColumns[3], term),
      SearchClose
    ]
  }

  function SearchClause(term: string): string {
    Concat(SearchPieces(term))
  }

  /** The category predicate, present only when some category is selected. */
  function CategoryPart(categories: seq<string>): string {
    if categories == [] then "" else CategoryClause(CategoryPattern(categories))
  }

  /** The search predicate, present only for a non-empty normalised term. */
  function SearchPart(term: string): string {
    if term == "" then "" else SearchClause(term)
  }

  /** What `generate_query(searchTerm, categories)` returns: the base
      statement, the optional category predicate, the optional search
      predicate and the ordering and limit, in that order. */
  function Query(searchTerm: string, categories: seq<string>): string {
    Base + CategoryPart(categories) + SearchPart(Normalize(searchTerm)) + Suffix
  }

  /** `generate_query`: starts from the base statement and appends to the
      local `query` under the two conditions, then the fixed suffix. */
  method GenerateQuery(searchTerm: string, selectedCategories: seq<string>) returns (query: string)
    ensures query == Query(searchTerm, selectedCategories)
  {
    var term := Normalize(searchTerm);
    query := Base;
    if selectedCategories != [] {
      var categoriesRegex := CategoryPattern(selectedCategories);
      query := query + CategoryClause(categoriesRegex);
    }
    if term != "" {
      query := query + SearchClause(term);
    }
    query := query + Suffix;
    if selectedCategories == [] { AppendEmpty(Base); }
    if term == "" { AppendEmpty(Base + CategoryPart(selectedCategories)); }
  }

  // Generic facts about concatenation, stated once over arbitrary strings
  // so that the solver never has to look inside the long literals above.

  lemma AppendEmpty(s: string)
    ensures s + "" == s
  {
  }

  lemma Regroup3(x: string, y: string, z: string)
    ensures x + y + z == x + (y + z)
  {
  }

  lemma Regroup4(x: string, y: string, z: string, w: string)
    ensures x + y + z + w == x + (y + z + w)
    ensures x + y + z + w == (x + y) + (z + w)
  {
  }

  lemma EndsWith(x: string, y: string)
    ensures (x + y)[|x + y| - |y|..] == y
  {
  }

  lemma PrefixOfAppend(x: string, y: string)
    ensures x <= x + y
  {
  }

  lemma PrefixTrans(x: string, y: string, z: string)
    requires x <= y && y <= z
    ensures x <= z
  {
  }

  /** A common head changes nothing about being a prefix. */
  lemma PrefixCancel(p: string, x: string, y: string)
    ensures p + x <= p + y <==> x <= y
  {
    if p + x <= p + y {
      assert forall k :: 0 <= k < |x| ==> (p + x)[|p| + k] == x[k] && (p + y)[|p| + k] == y[k];
    }
    if x <= y {
      forall k | 0 <= k < |p + x| ensures (p + x)[k] == (p + y)[k] {
        if k >= |p| { assert (p + x)[k] == x[k - |p|] && (p + y)[k] == y[k - |p|]; }
      }
    }
  }

  /** `x` appears in `s` starting at offset `i`. */
  predicate OccursAt(s: string, x: string, i: int) {
    0 <= i && i + |x| <= |s| && s[i..i + |x|] == x
  }

  lemma OccursInMiddle(a: string, x: string, b: string)
    ensures OccursAt(a + x + b, x, |a|)
  {
    assert (a + x + b)[|a|..|a| + |x|] == x;
  }

  lemma OccursInContext(a: string, s: string, b: string, x: string, i: int)
    requires OccursAt(s, x, i)
    ensures OccursAt(a + s + b, x, |a| + i)
  {
    assert (a + s + b)[|a| + i..|a| + i + |x|] == s[i..i + |x|];
  }

  // Properties of the normalisation of the search term (line 32).

  lemma NormalizeEmptyIff(searchTerm: string)
    ensures Normalize(searchTerm) == "" <==> Strip(searchTerm) == ""
  {
  }

  /** Normalising twice is normalising once. */
  lemma NormalizeIdempotent(searchTerm: string)
    ensures Normalize(Normalize(searchTerm)) == Normalize(searchTerm)
  {
    var m := Strip(searchTerm);
    StripLowerCommute(m);
    StripFixesUnpadded(m);
    LowerIdempotent(m);
  }

  /** Terms that differ only in letter case normalise alike. */
  lemma NormalizeIgnoresCase(t1: string, t2: string)
    requires Lower(t1) == Lower(t2)
    ensures Normalize(t1) == Normalize(t2)
  {
    StripLowerCommute(t1);
    StripLowerCommute(t2);
  }

  // Properties of the search predicate on its own (lines 63-71).

  lemma SearchClauseStarts(term: string)
    ensures SearchOpen <= SearchClause(term)
    ensures |SearchClause(term)| > 0 && SearchClause(term)[0] == '\n'
  {
    var pieces := SearchPieces(term);
    assert SearchClause(term) == SearchOpen + Concat(pieces[1..]);
    PrefixOfAppend(SearchOpen, Concat(pieces[1..]));
  }

  /** Inside the search predicate, each LIKE test holds the term. */
  lemma LikeTestInSearchClause(term: string, k: int)
    requires 0 <= k < |LikeColumns|
    ensures exists i :: OccursAt(SearchClause(term), LikeTest(LikeColumns[k], term), i)
  {
    var pieces := SearchPieces(term);
    assert pieces[2 * k + 1] == LikeTest(LikeColumns[k], term);
    ConcatOccurs(pieces, 2 * k + 1);
    assert OccursAt(SearchClause(term), pieces[2 * k + 1], |Concat(pieces[..2 * k + 1])|);
  }

  // Properties of the whole statement (lines 31-76).

  /** The statement always begins with the base query, whose last
      predicate is `title IS NOT NULL`. */
  lemma QueryStartsWithBase(searchTerm: string, categories: seq<string>)
    ensures Base <= Query(searchTerm, categories)
    ensures |Base| >= |NotNullPredicate| && Base[|Base| - |NotNullPredicate|..] == NotNullPredicate
  {
    var c, s := CategoryPart(categories), SearchPart(Normalize(searchTerm));
    Regroup4(Base, c, s, Suffix);
    PrefixOfAppend(Base, c + s + Suffix);
    ConcatLast(BaseLines);
    EndsWith(Concat(BaseLines[..|BaseLines| - 1]), NotNullPredicate);
  }

  /** The statement always ends with the ordering and limit. */
  lemma QueryEndsWithSuffix(searchTerm: string, categories: seq<string>)
    ensures |Query(searchTerm, categories)| >= |Base| + |Suffix|
    ensures Query(searchTerm, categories)[|Query(searchTerm, categories)| - |Suffix|..] == Suffix
  {
    var c, s := CategoryPart(categories), SearchPart(Normalize(searchTerm));
    EndsWith(Base + c + s, Suffix);
  }

  /** The category predicate follows the base query exactly when some
      category is selected, and it then carries the joined pattern. */
  lemma CategoryClauseIff(searchTerm: string, categories: seq<string>)
    ensures Base + CategoryOpen <= Query(searchTerm, categories) <==> categories != []
    ensures categories != [] ==>
      Base + CategoryClause(CategoryPattern(categories)) <= Query(searchTerm, categories)
  {
    if categories == [] {
      NoCategoryClause(searchTerm);
    } else {
      WithCategoryClause(searchTerm, categories);
    }
  }

  lemma NoCategoryClause(searchTerm: string)
    ensures !(Base + CategoryOpen <= Query(searchTerm, []))
  {
    var s := SearchPart(Normalize(searchTerm));
    var tail := s + Suffix;
    assert CategoryPart([]) == "";
    AppendEmpty(Base);
    Regroup3(Base, s, Suffix);
    assert Query(searchTerm, []) == Base + tail;
    assert !(CategoryOpen <= tail) by {
      if s == "" {
        assert tail == Suffix && |Suffix| < |CategoryOpen|;
      } else {
        SearchClauseStarts(Normalize(searchTerm));
        assert tail[0] == s[0] && CategoryOpen[0] == ' ';
      }
    }
    PrefixCancel(Base, CategoryOpen, tail);
  }

  lemma WithCategoryClause(searchTerm: string, categories: seq<string>)
    requires categories != []
    ensures Base + CategoryOpen <= Base + CategoryClause(CategoryPattern(categories)) <= Query(searchTerm, categories)
  {
    var q := Query(searchTerm, categories);
    var c, s := CategoryPart(categories), SearchPart(Normalize(searchTerm));
    var pattern := CategoryPattern(categories);
    assert c == CategoryOpen + pattern + CategoryClose;
    Regroup3(CategoryOpen, pattern, CategoryClose);
    PrefixOfAppend(CategoryOpen, pattern + CategoryClose);
    PrefixCancel(Base, CategoryOpen, c);
    Regroup3(Base + c, s, Suffix);
    PrefixOfAppend(Base + c, s + Suffix);
  }

  /** The search predicate follows the category part exactly when the
      stripped term is non-empty. */
  lemma SearchClauseIff(searchTerm: string, categories: seq<string>)
    ensures Base + CategoryPart(categories) + SearchOpen <= Query(searchTerm, categories)
       <==> Strip(searchTerm) != ""
  {
    var head := Base + CategoryPart(categories);
    var term := Normalize(searchTerm);
    var s := SearchPart(term);
    Regroup3(head, s, Suffix);
    if term == "" {
      assert s + Suffix == Suffix;
      assert Suffix[0] != SearchOpen[0];
      assert !(SearchOpen <= Suffix);
    } else {
      SearchClauseStarts(term);
      PrefixOfAppend(s, Suffix);
      PrefixTrans(SearchOpen, s, s + Suffix);
    }
    PrefixCancel(head, SearchOpen, s + Suffix);
  }

  /** Each of the four LIKE tests carries the normalised term, verbatim. */
  lemma LikeTestsCarryTerm(searchTerm: string, categories: seq<string>, k: int)
    requires Strip(searchTerm) != "" && 0 <= k < |LikeColumns|
    ensures exists i :: OccursAt(Query(searchTerm, categories), LikeTest(LikeColumns[k], Normalize(searchTerm)), i)
  {
    var term := Normalize(searchTerm);
    var x := LikeTest(LikeColumns[k], term);
    LikeTestInSearchClause(term, k);
    var i :| OccursAt(SearchClause(term), x, i);
    var head := Base + CategoryPart(categories);
    assert SearchPart(term) == SearchClause(term);
    OccursInContext(head, SearchClause(term), Suffix, x, i);
    assert OccursAt(Query(searchTerm, categories), x, |head| + i);
  }

  /** With both predicates present they appear as base, category
      predicate, search predicate, ordering. */
  lemma ClauseOrder(searchTerm: string, categories: seq<string>)
    requires categories != [] && Strip(searchTerm) != ""
    ensures var q, c := Query(searchTerm, categories), CategoryClause(CategoryPattern(categories));
      OccursAt(q, c, |Base|) &&
      OccursAt(q, SearchClause(Normalize(searchTerm)), |Base| + |c|) &&
      OccursAt(q, Suffix, |q| - |Suffix|) &&
      |Base| < |Base| + |c| < |q| - |Suffix|
  {
    var c, s := CategoryClause(CategoryPattern(categories)), SearchClause(Normalize(searchTerm));
    SearchClauseStarts(Normalize(searchTerm));
    Regroup3(Base + c, s, Suffix);
    OccursInMiddle(Base, c, s + Suffix);
    OccursInMiddle(Base + c, s, Suffix);
    AppendEmpty(Base + c + s + Suffix);
    OccursInMiddle(Base + c + s, Suffix, "");
  }

  /** A whitespace-only term gives the same statement as the empty term. */
  lemma WhitespaceTermIsEmpty(searchTerm: string, categories: seq<string>)
    requires AllSpace(searchTerm)
    ensures Query(searchTerm, categories) == Query("", categories)
  {
    StripAllSpace(searchTerm);
    StripAllSpace("");
  }

  /** With no usable term and no category the statement is exactly the
      base query followed by the ordering and limit. */
  lemma EmptyInputs(searchTerm: string)
    requires AllSpace(searchTerm)
    ensures Query(searchTerm, []) == Base + Suffix
  {
    StripAllSpace(searchTerm);
    AppendEmpty(Base);
  }

  /** Only the normalised term matters: letter case and surrounding
      whitespace of the raw term do not change the statement. */
  lemma QueryIgnoresCase(t1: string, t2: string, categories: seq<string>)
    requires Lower(t1) == Lower(t2)
    ensures Query(t1, categories) == Query(t2, categories)
  {
    NormalizeIgnoresCase(t1, t2);
  }

  lemma QueryIgnoresPadding(a: string, searchTerm: string, b: string, categories: seq<string>)
    requires AllSpace(a) && AllSpace(b)
    ensures Query(a + searchTerm + b, categories) == Query(searchTerm, categories)
  {
    StripIgnoresPadding(a, searchTerm, b);
  }

  lemma QueryOfNormalizedTerm(searchTerm: string, categories: seq<string>)
    ensures Query(Normalize(searchTerm), categories) == Query(searchTerm, categories)
  {
    NormalizeIdempotent(searchTerm);
  }

  // The category pattern (line 59) and its inverse.

  /** Drops the two word boundaries `WordBounded` adds. */
  function Unbound(w: string): string {
    if |w| >= 4 then w[2..|w| - 2] else w
  }

  /** Reads the category names back out of an alternation pattern. */
  function ParseCategoryPattern(pattern: string): seq<string> {
    var parts := Split(pattern, '|');
    seq(|parts|, k requires 0 <= k < |parts| => Unbound(parts[k]))
  }

  /** The pattern lists every selected category, in the order given, so
      it can be read back when no name contains the separator `|`. */
  lemma CategoryPatternRoundTrip(categories: seq<string>)
    requires categories != []
    requires forall k :: 0 <= k < |categories| ==> '|' !in categories[k]
    ensures ParseCategoryPattern(CategoryPattern(categories)) == categories
  {
    var bounded := seq(|categories|, k requires 0 <= k < |categories| => WordBounded(categories[k]));
    forall k | 0 <= k < |bounded| ensures '|' !in bounded[k] && Unbound(bounded[k]) == categories[k] {
      var w := bounded[k];
      assert w == "\\b" + categories[k] + "\\b";
      assert w[2..|w| - 2] == categories[k];
    }
    SplitJoin('|', bounded);
  }

  /** Every non-empty selection from the offered list reads back intact. */
  lemma SelectionRoundTrip(categories: seq<string>)
    requires categories != []
    requires forall k :: 0 <= k < |categories| ==> categories[k] in CategoriesList
    ensures ParseCategoryPattern(CategoryPattern(categories)) == categories
  {
    forall c | c in CategoriesList ensures '|' !in c {
    }
    CategoryPatternRoundTrip(categories);
  }

  // Two concrete statements.

  /** A mixed-case, padded term and one category. */
  lemma DuneSciFi(categories: seq<string>)
    requires categories == ["Sci-Fi"]
    ensures Query("  Dune ", categories)
         == Base + CategoryClause("\\bSci-Fi\\b") + SearchClause("dune") + Suffix
  {
    assert "  Dune " == "  " + "Dune" + " ";
    StripUnique("  ", "Dune", " ");
    assert Lower("Dune") == "dune";
    assert CategoryPattern(categories) == "\\bSci-Fi\\b";
  }

  /** The term is not escaped: whichever raw term normalises to `o'brien`,
      its quote ends up inside the LIKE literal as it is, closing that
      literal early. */
  lemma QuoteNotEscaped(searchTerm: string, categories: seq<string>)
    requires Normalize(searchTerm) == "o'brien"
    ensures exists i :: OccursAt(Query(searchTerm, categories), "LOWER(title)" + " LIKE '%" + "o'brien" + "%'", i)
  {
    var x := LikeTest(LikeColumns[0], Normalize(searchTerm));
    assert x == "LOWER(title)" + " LIKE '%" + "o'brien" + "%'";
    LikeTestsCarryTerm(searchTerm, categories, 0);
    var i :| OccursAt(Query(searchTerm, categories), x, i);
  }
}
