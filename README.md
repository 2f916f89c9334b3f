# Audiobook search: the SQL text builder

The audiobook search app is a small Streamlit page over a BigQuery table of
audiobook feed records. The user types a search term and picks categories,
and `generate_query` builds the SQL statement that is sent to BigQuery. This
project models that builder and proves what the text it produces looks like.
The page itself, the credentials and the remote engine are not modelled.

`generate_query(search_term, selected_categories)` works as follows:

1. It normalises the term with `search_term.strip().lower()`.
2. It starts from a fixed base statement. The base statement selects the
   title, authors, categories, cleaned summary, link, dates and uploader
   from the feed table, and it always ends with the predicate
   `title IS NOT NULL`.
3. If any category is selected, it appends a `REGEXP_CONTAINS` predicate.
   The pattern of that predicate is the `|`-join of `\b<name>\b` over the
   selected names, in the order they were selected.
4. If the normalised term is non-empty, it appends a disjunction of four
   `LIKE '%term%'` tests, one each on the lower-cased title, authors,
   categories and uploader. The term is pasted into the text with no
   escaping.
5. It always ends with ` ORDER BY update_time DESC LIMIT 20`.

Layout:

- `py_str.dfy` (module `PyStr`) holds ASCII models of the Python string
  built-ins the builder uses: `str.strip`, `str.lower` and `str.join`. It
  also holds `str.split`, which serves as the inverse of `join`.
- `query_builder.dfy` (module `QueryBuilder`) holds the text fragments of
  the statement and the function `Query`, which says what
  `generate_query` returns. It also holds the method `GenerateQuery`,
  which builds the statement step by step in a local `query` string, as
  the source does. The lemmas about `Query` are in the same module.

The fragments are copied character for character. This includes one
detail of the Python text. The summary regex on line 43 sits inside a
non-raw triple-quoted f-string. So each `\n` in it becomes a real line
feed in the SQL, while `\s` stays a backslash followed by `s`. The
constant `QueryBuilder.BaseLines` reproduces this.

The term is pasted into the SQL text without escaping, so a quote in it
ends the SQL string literal early (see `QuoteNotEscaped`). The selected
categories are a list, and they are joined in list order; the model takes
them as a sequence and keeps that order.

## Model

| member | source | states |
|---|---|---|
| `PyStr.LStrip` | streamlit_app.py:32 | the result is a suffix of the input; everything dropped before it is whitespace; it is empty or starts with a non-whitespace character |
| `PyStr.RStrip` | streamlit_app.py:32 | the result is a prefix of the input; everything dropped after it is whitespace; it is empty or ends with a non-whitespace character |
| `PyStr.Strip` | streamlit_app.py:32 | the result has no whitespace at either end, and it sits inside the input with only whitespace on each side of it |
| `PyStr.StripUnique` | streamlit_app.py:32 | any unpadded core with only whitespace around it is what strip returns, so Strip's two ensures define it completely |
| `PyStr.StripSplit` | streamlit_app.py:32 | every input is whitespace, then its stripped form, then whitespace |
| `PyStr.StripFixesUnpadded` | streamlit_app.py:32 | stripping a string that has no whitespace at either end changes nothing |
| `PyStr.StripAllSpace` | streamlit_app.py:32 | a whitespace-only string strips to the empty string |
| `PyStr.StripIgnoresPadding` | streamlit_app.py:32 | adding whitespace on either side of a string does not change what strip returns |
| `PyStr.Lower` | streamlit_app.py:32 | the result has the input's length, and each character is the ASCII lower-case form of the input character at the same position |
| `PyStr.LowerLeavesNoUpper` | streamlit_app.py:32 | no upper-case ASCII letter is left after lowering |
| `PyStr.LowerIdempotent` | streamlit_app.py:32 | lowering twice is the same as lowering once |
| `PyStr.StripLowerCommute` | streamlit_app.py:32 | stripping and lowering can be done in either order with the same result |
| `PyStr.SplitJoin` | streamlit_app.py:59 | splitting a `join` on its separator gives back the parts, when no part contains the separator |
| `QueryBuilder.GenerateQuery` | streamlit_app.py:31-76 | the string built step by step in the local `query` is exactly `Query(searchTerm, selectedCategories)` |
| `QueryBuilder.NormalizeEmptyIff` | streamlit_app.py:32 | the normalised term is empty exactly when the stripped term is empty |
| `QueryBuilder.NormalizeIdempotent` | streamlit_app.py:32 | normalising a term that is already normalised changes nothing |
| `QueryBuilder.NormalizeIgnoresCase` | streamlit_app.py:32 | two terms that are equal after lower-casing normalise to the same term |
| `QueryBuilder.QueryStartsWithBase` | streamlit_app.py:35-55 | every statement begins with the base query, and the base query ends with the `title IS NOT NULL` line |
| `QueryBuilder.QueryEndsWithSuffix` | streamlit_app.py:74 | every statement ends with exactly ` ORDER BY update_time DESC LIMIT 20` and is at least as long as the base query plus that suffix |
| `QueryBuilder.CategoryClauseIff` | streamlit_app.py:58-60 | the `REGEXP_CONTAINS` opening follows the base query if and only if some category is selected; it is then followed by the joined pattern and the closing |
| `QueryBuilder.NoCategoryClause` | streamlit_app.py:58 | with no category selected, the text after the base query does not start with the category predicate |
| `QueryBuilder.WithCategoryClause` | streamlit_app.py:58-60 | with some category selected, the base query followed by the whole category predicate begins the statement |
| `QueryBuilder.CategoryPatternRoundTrip` | streamlit_app.py:59 | splitting the pattern on the bar separator and removing the `\b` on each side gives back the selected names in their order, when no name contains a bar |
| `QueryBuilder.SelectionRoundTrip` | streamlit_app.py:27-28 | every non-empty selection from the offered category list reads back from its pattern unchanged |
| `QueryBuilder.SearchClauseStarts` | streamlit_app.py:64-65 | the search predicate starts with its `AND (` opening, whose first character is a line feed |
| `QueryBuilder.SearchClauseIff` | streamlit_app.py:63-71 | the `AND (` opening follows the category part if and only if the stripped term is non-empty |
| `QueryBuilder.LikeTestInSearchClause` | streamlit_app.py:64-71 | each of the four `LIKE` tests, with the term in it, occurs in the search predicate |
| `QueryBuilder.LikeTestsCarryTerm` | streamlit_app.py:64-70 | when the stripped term is non-empty, each of the four `column LIKE '%term%'` tests occurs in the statement with the same normalised term, unescaped |
| `QueryBuilder.ClauseOrder` | streamlit_app.py:35-74 | with both predicates present, the category predicate sits right after the base query, the search predicate right after that, and the suffix at the end, at increasing offsets |
| `QueryBuilder.WhitespaceTermIsEmpty` | streamlit_app.py:32-63 | a whitespace-only term gives the same statement as the empty term |
| `QueryBuilder.EmptyInputs` | streamlit_app.py:35-74 | with a blank term and no categories, the statement is exactly the base query followed by the suffix |
| `QueryBuilder.QueryIgnoresCase` | streamlit_app.py:31-32 | two terms that are equal after lower-casing give the same statement |
| `QueryBuilder.QueryIgnoresPadding` | streamlit_app.py:31-32 | whitespace around the term does not change the statement |
| `QueryBuilder.QueryOfNormalizedTerm` | streamlit_app.py:31-32 | passing the normalised term instead of the raw one gives the same statement |
| `QueryBuilder.DuneSciFi` | streamlit_app.py:31-76 | the term `  Dune ` with category `Sci-Fi` gives the base query, the `\bSci-Fi\b` predicate, the search predicate for `dune` and the suffix |
| `QueryBuilder.QuoteNotEscaped` | streamlit_app.py:66-69 | for any term that normalises to `o'brien`, the text `LOWER(title) LIKE '%o'brien%'` occurs in the statement with the quote as is, so the SQL string literal closes early |

## Left out

- Loading credentials from the Streamlit secrets (streamlit_app.py:7-9): external configuration.
- Building the BigQuery client and `run_query` (streamlit_app.py:12, 15-18): remote calls over the network.
- The Streamlit page (streamlit_app.py:21-28, 79-96): the title, text input, multi-select, button and result display. Only the offered category list (line 27) is kept, as `QueryBuilder.CategoriesList`.
- What BigQuery does with the statement: the meaning of `REGEXP_REPLACE`, `REGEXP_CONTAINS` and `LIKE`. Only the text is modelled.
- PyStr.Strip, PyStr.LStrip, PyStr.RStrip: only the ASCII characters that Python's `str.isspace` accepts are whitespace (0x09-0x0D, 0x1C-0x1F, 0x20). Other Unicode whitespace that Python also strips is not modelled.
- PyStr.Lower: only `A`-`Z` are lower-cased. Python's full Unicode lower-casing is not modelled.
- Pagination, page and row-selection state, a count query and bound parameters: none of them appears in streamlit_app.py, so nothing here models them.
