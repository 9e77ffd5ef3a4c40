# Reviewer matrix

A Dafny model of the reviewer matrix of `reviewer-matrix.py`. The function
`make_reviewer_matrix` takes the open pull requests of a repository, with their
reviews and requested reviewers, and the set of collaborator logins. It builds
a table with one row per pull request and one column per collaborator. Each
cell shows a glyph for the strongest thing that collaborator did on that
request:

| category | glyph |
|---|---|
| REQUESTED | ? |
| COMMENTED | 💬 |
| REQUEST_CHANGES | ❌ |
| APPROVED | ✅ |
| AUTHOR | ✏️ |

The categories are ordered from weakest to strongest as listed. Each row also
counts every glyph and gives their sum ⅀. The rows are ranked by ✅ count and
then by ⅀. Around the matrix sit two string maps:
- the API URL of a request becomes its row id `owner/name#number`;
- the spreadsheet links a row id to `https://github.com/owner/name/pull/number`.

Modules:

- `Wrappers`: `Option` and `Result`.
- `ReviewStatus`: the ordered categories, their cast from the API's state
  strings, and the glyph map.
- `StringOrder`: Python's string order (lexicographic by code point), and
  sorting a set of strings.
- `PullUrl`: the id extraction, and the hyperlink.
  - The id comes from `re.search("https://api.github.com/repos/(.*)/pulls/([0-9]+)", url)`.
    It is modelled with Python's search semantics: the leftmost start, a
    greedy `(.*)` that stops at a newline, each `.` of the literal part as a
    wildcard, and the longest run of digits.
  - The hyperlink is `"https://github.com/" + "/pull/".join(id.split("#"))`.
- `ReviewRecords`: the records, the long-form table of (url, login, state)
  entries, and the grouping that keeps the greatest category per (url, login).
- `Summary`: glyph counts and ⅀.
- `ReviewerMatrix`: the reviewer columns, the cells, the kept rows, the
  summary columns, the row order and the failures.

The model keeps the source's behaviour, including these quirks:
- Entries built from requested reviewers carry no url. The grouping on url
  drops them, so no requested reviewer ever gives a cell. "?" appears only
  for a review whose own state string is `REQUESTED`, which the hosting API
  does not send. Their logins still give the grouped
  table a column, so a collaborator who is only ever requested gets a column
  with every cell empty.
- The cast to the five categories turns every other state into a missing
  value. That includes the API's own `CHANGES_REQUESTED`.
- Only requests with at least one non-empty collaborator cell become rows.
- Rows are ordered by ✅ count descending, then ⅀ descending, then id
  ascending. A row with no ✅ has a missing count, which sorts last, as a
  count of zero would. The id tie-break comes from the grouped index being
  sorted and the sort being stable.
- The run fails when:
  - the list of requests is empty (`set_index("url")` has no such column): `NoPullRequests`;
  - a URL does not match the pattern: `UnmatchedUrl`, for the first such URL;
  - no collaborator cell shows ✅, so the summary has no ✅ column to sort on: `NoApprovalColumn`.

## Model

| member | source | states |
|---|---|---|
| ReviewStatus.Max | reviewer-matrix.py:69-71 | the greater of two categories under REQUESTED < COMMENTED < REQUEST_CHANGES < APPROVED < AUTHOR is one of the two and no less than either |
| ReviewStatus.ParseState | reviewer-matrix.py:69-71 | the categorical cast: a state string becomes the category of that exact name, or missing |
| ReviewStatus.ParseName | reviewer-matrix.py:69-71 | every category's name casts back to that category, so the cast keeps all five |
| ReviewStatus.ChangesRequestedIsDropped | reviewer-matrix.py:69-71 | the API's `CHANGES_REQUESTED` is not a category and is cast to missing |
| ReviewStatus.AuthorIsGreatest | reviewer-matrix.py:70 | AUTHOR ranks above every other category |
| ReviewStatus.Glyph | reviewer-matrix.py:72-78 | every category maps to a non-empty glyph |
| ReviewStatus.GlyphInjective | reviewer-matrix.py:72-78 | distinct categories map to distinct glyphs, so a cell's glyph names its category |
| ReviewStatus.AllGlyphsAreTheGlyphs | reviewer-matrix.py:72-78 | the glyph list used for the summary columns holds exactly the values of the glyph map |
| StringOrder.SortedSet | reviewer-matrix.py:131 | sorting a collection of logins gives a strictly ascending sequence of exactly its elements |
| StringOrder.StrictlySortedUnique | reviewer-matrix.py:131 | two strictly ascending sequences with the same elements are equal, so the column order is determined |
| PullUrl.LongestAt | reviewer-matrix.py:127 | at a given start, letting `(.*)` run to the end of the line and backtracking finds a match with the longest first group, and finds none exactly when no match starts there |
| PullUrl.FirstFoundIsFirst | reviewer-matrix.py:127 | trying the start positions in turn reports the first one that has a match, with that match |
| PullUrl.FirstFoundNone | reviewer-matrix.py:127 | trying the start positions in turn reports nothing only when no start has a match |
| PullUrl.SearchIsLeftmostLongest | reviewer-matrix.py:127 | a match found by the search is a match, no match starts earlier, and none at the same start has a longer first group |
| PullUrl.SearchNoneIsNoMatch | reviewer-matrix.py:127 | the search finds nothing only when the pattern matches nowhere |
| PullUrl.ExtractIdMatches | reviewer-matrix.py:125-129 | no id exactly when the pattern matches nowhere in the URL; otherwise the two groups of the leftmost, greedy match joined by '#' |
| PullUrl.ExtractIdOfApiUrl | reviewer-matrix.py:125-129 | `https://api.github.com/repos/<path>/pulls/<digits>` has id `<path>#<digits>` (path without newline, digits non-empty) |
| PullUrl.JoinSplit | reviewer-matrix.py:182-184 | joining the pieces of a split with the same separator gives back the string |
| PullUrl.SplitAtSeparator | reviewer-matrix.py:183 | an id with one '#' splits into the parts before and after it |
| PullUrl.Hyperlink | reviewer-matrix.py:180-184 | an id cell gets no link exactly when it is empty |
| PullUrl.HyperlinkOfId | reviewer-matrix.py:182-184 | the link of `<path>#<digits>` is `https://github.com/<path>/pull/<digits>` |
| PullUrl.ApiUrlLinksToWebUrl | reviewer-matrix.py:125-129 | the id extracted from a request's API URL links to that request's web page |
| ReviewRecords.ReviewsOf | reviewer-matrix.py:104-108 | one entry per review of a request, in review order, each with the request's url, the reviewer's login and the review's state |
| ReviewRecords.ReviewEntries | reviewer-matrix.py:104-108 | an entry for each review of each request, with the request's url, the reviewer's login and the review's state, and no other entry |
| ReviewRecords.ReviewEntriesInOrder | reviewer-matrix.py:104-108 | the review entries are the requests' review entries in request order, so each review gives exactly one entry |
| ReviewRecords.AuthorEntries | reviewer-matrix.py:109 | one AUTHOR entry per request, for its author, in request order |
| ReviewRecords.RequestEntries | reviewer-matrix.py:110-114 | the requested-reviewer entries have no url and state REQUESTED, and exist exactly for the logins requested on some request |
| ReviewRecords.AbsorbAt | reviewer-matrix.py:117-119 | folding one more entry into a grouped cell keeps it the greatest category contributed, and creates it exactly when the entry is the first to contribute |
| ReviewRecords.ResolveIsResolution | reviewer-matrix.py:117-119 | the grouped table: a (url, login) cell is present exactly when some entry gives it a valid category, and then holds the greatest such category |
| ReviewRecords.ResolveDependsOnContributions | reviewer-matrix.py:117-119 | the grouped table depends only on which categories reach which cells, not on entry order or repetition |
| ReviewRecords.CellIsStrongest | reviewer-matrix.py:103-119 | the cell of a request and a login is present exactly when that request's reviews or authorship give the login a valid category, and then holds the greatest of them |
| ReviewRecords.AuthorCellIsAuthor | reviewer-matrix.py:109 | the author's cell on their own request is always AUTHOR, whatever reviews that login also left |
| ReviewRecords.RequestedReviewersAddNoCell | reviewer-matrix.py:110-119 | the grouped table is the same with every requested reviewer removed |
| ReviewRecords.ReviewEntriesSameRecords | reviewer-matrix.py:104-108 | review entries depend only on each request's url and reviews |
| Summary.Counts | reviewer-matrix.py:133-142 | one count per summary glyph, each the number of cells holding that glyph |
| Summary.CountPositive | reviewer-matrix.py:136-141 | a glyph's count is positive exactly when the glyph occurs in the row, so no zero count is stored |
| Summary.FilledIsPositive | reviewer-matrix.py:136 | a row has a non-empty cell exactly when its number of non-empty cells is positive |
| Summary.SumOfCounts | reviewer-matrix.py:143 | over distinct glyphs, the sum of the counts is the number of cells holding any of them |
| Summary.TotalIsFilled | reviewer-matrix.py:143 | when the glyphs cover every non-empty cell, ⅀ is the number of non-empty cells |
| ReviewerMatrix.EntryLogins | reviewer-matrix.py:103-115 | the long-form table has a column for a login exactly when the login reviewed, authored or was requested on some request |
| ReviewerMatrix.ReviewerColumns | reviewer-matrix.py:130-131 | the reviewer columns are the collaborators among those logins, strictly ascending, each once |
| ReviewerMatrix.CellText | reviewer-matrix.py:123 | a shown cell is empty exactly when the grouped table has no entry for it, and is otherwise one of the five glyphs |
| ReviewerMatrix.RequestCells | reviewer-matrix.py:120-131 | every reviewer cell of a request is empty or one of the five glyphs |
| ReviewerMatrix.CellShowsStrongest | reviewer-matrix.py:117-131 | each reviewer cell of a request shows the glyph of the greatest category the request gives that login, and is empty when it gives none |
| ReviewerMatrix.AuthorShowsPencil | reviewer-matrix.py:109 | a collaborator's column shows ✏️ on every request they opened |
| ReviewerMatrix.RequestedOnlyColumnIsEmpty | reviewer-matrix.py:110-131 | a collaborator who is only ever a requested reviewer still gets a column, and every cell in it is empty |
| ReviewerMatrix.Ids | reviewer-matrix.py:125-129 | all row ids in request order, each the id of its URL; or the first URL the pattern does not match |
| ReviewerMatrix.WithReviews | reviewer-matrix.py:151 | the requests kept are exactly those with a non-empty reviewer cell |
| ReviewerMatrix.WithReviewsCounts | reviewer-matrix.py:151 | each request with a non-empty reviewer cell is kept as often as it occurs in the input, and no other request is kept |
| ReviewerMatrix.WithReviewsUnique | reviewer-matrix.py:151 | keeping the reviewed requests keeps their ids distinct |
| ReviewerMatrix.GlyphColumns | reviewer-matrix.py:133-142 | the summary glyph columns are, in ascending order, exactly the glyphs shown in some kept row |
| ReviewerMatrix.MakeRow | reviewer-matrix.py:133-149 | a row keeps its request's id, title, update stamp and cells; each count is that glyph's number of cells; ⅀ is the number of non-empty cells |
| ReviewerMatrix.ListedBeforeTotal | reviewer-matrix.py:151 | of any two rows, one may be listed before the other |
| ReviewerMatrix.ListedBeforeTransitive | reviewer-matrix.py:151 | the listing order is transitive |
| ReviewerMatrix.SortRows | reviewer-matrix.py:151 | the rows in output order (✅ count descending, then ⅀ descending, then id) are a permutation of the unsorted rows |
| ReviewerMatrix.PermutationKeepsUniqueIds | reviewer-matrix.py:151 | reordering rows keeps their ids distinct |
| ReviewerMatrix.OrderedRowsUnique | reviewer-matrix.py:151 | two arrangements in output order of the same rows with distinct ids are equal, so the output order is determined |
| ReviewerMatrix.AssembleListsOnce | reviewer-matrix.py:133-152 | there are as many rows as kept requests, and requests with distinct ids give rows with distinct ids |
| ReviewerMatrix.SortedRowsOnce | reviewer-matrix.py:151 | ordering the rows of the kept requests keeps one row per request, and distinct ids stay distinct |
| ReviewerMatrix.Assemble | reviewer-matrix.py:133-152 | fails exactly when no request has a ✅ cell; otherwise the rows are ordered, show exactly the requests with a non-empty cell, and carry correct counts and ⅀; the summary columns are the shown glyphs in ascending order, ✅ among them |
| ReviewerMatrix.ReviewerMatrix | reviewer-matrix.py:102-153 | no requests, an unmatched URL (the first one) and no ✅ anywhere are the failures, and the run succeeds exactly when none of them occurs. Otherwise the reviewer columns are the sorted collaborators present, and the rows are in output order with correct counts and ⅀ |
| ReviewerMatrix.ReviewerMatrixShows | reviewer-matrix.py:120-153 | the rows of a successful run are exactly the requests with a non-empty cell, each with its own id, title, stamp and cells |
| ReviewerMatrix.ReviewerMatrixListsOnce | reviewer-matrix.py:151-153 | no two rows of a successful run share an id, so each request with a non-empty cell is listed exactly once |

## Left out

- Fetching the requests and the collaborators over HTTP (reviewer-matrix.py:81-99): network I/O. The model takes the fetched records and the collaborator set as inputs.
- The spreadsheet writer `matrix_to_excel` (reviewer-matrix.py:156-189), apart from the link string: cell alignment, column widths, fonts, freeze panes and file output are library side effects.
- `main` (reviewer-matrix.py:192-206): argument parsing and the union of collaborator sets. The model takes the resulting set as a parameter.
- Records without a login: the model assumes that every review, every author and every requested reviewer carries a login (`login: string`, `requestedReviewers: seq<string>`). In the source, a null user raises TypeError at reviewer-matrix.py:105 (`review["user"]["login"]`) and at reviewer-matrix.py:109 (`pr["user"]["login"]`). A requested reviewer without a login raises KeyError at reviewer-matrix.py:111. The failures listed above, and the success condition of `ReviewerMatrix.ReviewerMatrix`, are therefore stated for well-formed records only.
- Column dtypes: the model assumes the status columns reach reviewer-matrix.py:133 as plain object columns after the grouped max at reviewer-matrix.py:118. If a pandas version keeps the ordered categorical dtype there, `fillna("")` at reviewer-matrix.py:150 raises. In that case the grouping at reviewer-matrix.py:139 would also list all five glyphs, so the `NoApprovalColumn` failure, the summary columns and the empty zero-count cells would differ.
- The GraphQL query in the module docstring: it is never used.
- The dataframe fields other than url, title, updated_at, the author, the requested reviewers and the reviews: they never reach the output.
- A collaborator login equal to a field name of the request records (`title`, `url`, ...): in the source it collides with a dataframe column. The model keeps reviewer columns and record fields apart.
- Rendering: counts are stored as `nat`, and a zero count is shown as an empty cell (`fillna("")`). Floating-point display of counts is not modelled.
- ReviewerMatrix.ReviewerMatrix: requires distinct request URLs and distinct ids (`UniqueRequests`). The hosting API never returns a request twice within one repository. Passing the same repository twice to `main` (`-r`, reviewer-matrix.py:201-202) lists every request twice, and that case is excluded too. Duplicate index labels would make the dataframe joins multiply rows, which is not modelled.
- ReviewerMatrix.SortRows: gives one concrete tie-break (ascending id) for rows equal on ✅ and ⅀. With distinct ids this is the stable sort's order over the grouped index, which is sorted by id, and `OrderedRowsUnique` shows that no other arrangement of the rows is in that order.
