/**
 * `make_reviewer_matrix` (reviewer-matrix.py:102-153): from the fetched pull
 * requests and the collaborator logins, the ranked table of glyphs with its
 * summary columns, or the failure the source runs into.
 */
module ReviewerMatrix {
  import opened Wrappers
  import opened ReviewStatus
  import opened ReviewRecords
  import opened Summary
  import StringOrder
  import PullUrl

  /** One output row: the request id, title, update stamp, ⅀, the per-glyph counts and the reviewer cells. */
  datatype Row = Row(id: string, title: string, updatedAt: string, total: nat, counts: seq<nat>, cells: seq<string>)

  /**
   * The output table: the per-glyph summary columns, the reviewer columns and
   * the rows in output order. A count of zero is shown as an empty cell in the
   * sheet (the source's `fillna("")`).
   */
  datatype Matrix = Matrix(glyphColumns: seq<string>, reviewers: seq<string>, rows: seq<Row>)

  /** The ways the source's run fails. */
  datatype MatrixError =
    | NoPullRequests          // `set_index("url")` on a frame with no "url" column
    | UnmatchedUrl(url: string)  // `re.search(...)` is None and `.groups()` fails
    | NoApprovalColumn        // `sort_values(["✅", ...])` with no "✅" summary column

  /** A request before its summary columns are known. */
  datatype Draft = Draft(id: string, title: string, updatedAt: string, cells: seq<string>)

  /** `login` appears in a request's records: as a reviewer, as its author or as a requested reviewer. */
  ghost predicate Participates(prs: seq<PullRequest>, login: string)
  {
    exists i :: 0 <= i < |prs| &&
      (prs[i].author == login || login in prs[i].requestedReviewers ||
       exists rv :: rv in prs[i].reviews && rv.login == login)
  }

  /** The grouped table has a column for `login` exactly when `login` appears in the records. */
  lemma EntryLogins(prs: seq<PullRequest>, login: string)
    ensures (exists e :: e in Entries(prs) && e.login == login) <==> Participates(prs, login)
  {
    if e :| e in Entries(prs) && e.login == login {
      EntryParticipates(prs, e);
    }
    if Participates(prs, login) {
      ParticipantHasEntry(prs, login);
    }
  }

  lemma EntryParticipates(prs: seq<PullRequest>, e: Entry)
    requires e in Entries(prs)
    ensures Participates(prs, e.login)
  {
    var login := e.login;
    if e in ReviewEntries(prs) {
      var i, rv :| 0 <= i < |prs| && rv in prs[i].reviews && e == Entry(Some(prs[i].url), rv.login, rv.state);
    } else if e in AuthorEntries(prs) {
      var i :| 0 <= i < |prs| && AuthorEntries(prs)[i] == e;
    } else {
      assert e in RequestEntries(prs);
      assert RequestedAnywhere(prs, login);
    }
  }

  lemma ParticipantHasEntry(prs: seq<PullRequest>, login: string)
    requires Participates(prs, login)
    ensures exists e :: e in Entries(prs) && e.login == login
  {
    var es := Entries(prs);
    var i :| 0 <= i < |prs| &&
      (prs[i].author == login || login in prs[i].requestedReviewers ||
       exists rv :: rv in prs[i].reviews && rv.login == login);
    if prs[i].author == login {
      assert AuthorEntries(prs)[i] in es;
    } else if login in prs[i].requestedReviewers {
      assert Entry(None, login, "REQUESTED") in RequestEntries(prs);
      assert Entry(None, login, "REQUESTED") in es;
    } else {
      var rv :| rv in prs[i].reviews && rv.login == login;
      assert Entry(Some(prs[i].url), rv.login, rv.state) in ReviewEntries(prs);
      assert Entry(Some(prs[i].url), rv.login, rv.state) in es;
    }
  }

  /** The logins of `es` that are collaborators, in entry order and possibly repeated. */
  function CollaboratorLogins(names: set<string>, es: seq<Entry>): (ls: seq<string>)
    ensures forall x :: x in ls <==> x in names && exists e :: e in es && e.login == x
  {
    if es == [] then []
    else
      var rest := CollaboratorLogins(names, es[1..]);
      assert forall e :: e in es <==> e == es[0] || e in es[1..] by {
        assert es == [es[0]] + es[1..];
      }
      (if es[0].login in names then [es[0].login] else []) + rest
  }

  /**
   * `names = [name for name in names if name in matrix]` followed by
   * `matrix[names].sort_index(axis=1)`: the collaborators among the column
   * logins, ascending, each once.
   */
  function ReviewerColumns(names: set<string>, es: seq<Entry>): (cols: seq<string>)
    ensures StringOrder.StrictlySorted(cols)
    ensures forall x :: x in cols <==> x in names && exists e :: e in es && e.login == x
  {
    StringOrder.SortedSet(CollaboratorLogins(names, es))
  }

  /** The shown cell of request URL `url` and login `login`: the glyph of its resolved category, or "" (`fillna("")`). */
  function CellText(resolved: map<Key, Status>, url: string, login: string): (c: string)
    ensures c == "" <==> (url, login) !in resolved
    ensures c != "" ==> c in AllGlyphs
  {
    if (url, login) in resolved then
      var g := Glyph(resolved[(url, login)]);
      AllGlyphsAreTheGlyphs(g);
      g
    else ""
  }

  function CellsOf(resolved: map<Key, Status>, url: string, cols: seq<string>): (cells: seq<string>)
    ensures |cells| == |cols|
    ensures forall j :: 0 <= j < |cols| ==> cells[j] == CellText(resolved, url, cols[j])
  {
    seq(|cols|, j requires 0 <= j < |cols| => CellText(resolved, url, cols[j]))
  }

  /** The reviewer cells of request `i`, in reviewer-column order. */
  function RequestCells(prs: seq<PullRequest>, names: set<string>, i: nat): (cells: seq<string>)
    requires i < |prs|
    ensures forall j :: 0 <= j < |cells| ==> cells[j] == "" || cells[j] in AllGlyphs
  {
    CellsOf(Resolve(Entries(prs)), prs[i].url, ReviewerColumns(names, Entries(prs)))
  }

  /** `row` shows request `i`: its id, title, update stamp and reviewer cells. */
  predicate RowOfRequest(prs: seq<PullRequest>, names: set<string>, i: nat, row: Row)
    requires i < |prs|
  {
    && PullUrl.ExtractId(prs[i].url) == Some(row.id)
    && row.title == prs[i].title
    && row.updatedAt == prs[i].updatedAt
    && row.cells == RequestCells(prs, names, i)
  }

  /**
   * Cell `j` of request `i` shows the glyph of the strongest category that the
   * request's reviews and authorship give the column's login, and is empty
   * when they give none.
   */
  lemma CellShowsStrongest(prs: seq<PullRequest>, names: set<string>, i: nat, j: nat)
    requires UniqueUrls(prs) && i < |prs|
    requires j < |ReviewerColumns(names, Entries(prs))|
    ensures var login := ReviewerColumns(names, Entries(prs))[j];
      var c := RequestCells(prs, names, i)[j];
      && (c == "" <==> Statuses(prs[i], login) == {})
      && (c != "" ==> exists s :: (s in Statuses(prs[i], login) && c == Glyph(s)
            && forall t :: t in Statuses(prs[i], login) ==> Rank(t) <= Rank(s)))
  {
    var login := ReviewerColumns(names, Entries(prs))[j];
    CellIsStrongest(prs, i, login);
    var r := Resolve(Entries(prs));
    var k := (prs[i].url, login);
    if k in r {
      assert RequestCells(prs, names, i)[j] == Glyph(r[k]);
    }
  }

  /** A collaborator's column shows ✏️ on every request they opened. */
  lemma AuthorShowsPencil(prs: seq<PullRequest>, names: set<string>, i: nat)
    requires i < |prs| && prs[i].author in names
    ensures var cols := ReviewerColumns(names, Entries(prs));
      exists j :: 0 <= j < |cols| && cols[j] == prs[i].author && RequestCells(prs, names, i)[j] == Glyph(Author)
  {
    var cols := ReviewerColumns(names, Entries(prs));
    assert AuthorEntries(prs)[i] in Entries(prs);
    assert prs[i].author in cols;
    var j :| 0 <= j < |cols| && cols[j] == prs[i].author;
    AuthorCellIsAuthor(prs, i);
  }

  /**
   * A collaborator who is only ever a requested reviewer still gets a column
   * (their login is in the grouped table), and every cell in it is empty.
   */
  lemma RequestedOnlyColumnIsEmpty(prs: seq<PullRequest>, names: set<string>, login: string)
    requires UniqueUrls(prs) && login in names
    requires exists i :: 0 <= i < |prs| && login in prs[i].requestedReviewers
    requires forall i :: 0 <= i < |prs| ==> prs[i].author != login && forall rv :: rv in prs[i].reviews ==> rv.login != login
    ensures var cols := ReviewerColumns(names, Entries(prs));
      exists j :: 0 <= j < |cols| && cols[j] == login && forall i :: 0 <= i < |prs| ==> RequestCells(prs, names, i)[j] == ""
  {
    var cols := ReviewerColumns(names, Entries(prs));
    EntryLogins(prs, login);
    assert login in cols;
    var j :| 0 <= j < |cols| && cols[j] == login;
    forall i | 0 <= i < |prs| ensures RequestCells(prs, names, i)[j] == "" {
      CellShowsStrongest(prs, names, i, j);
      assert Statuses(prs[i], login) == {};
    }
  }

  /** `matrix.index.map(...)`: the row ids, or the first URL the pattern does not match. */
  function Ids(prs: seq<PullRequest>): (r: Result<seq<string>, MatrixError>)
    ensures r.Ok? ==> |r.value| == |prs|
    ensures r.Ok? ==> forall i :: 0 <= i < |prs| ==> PullUrl.ExtractId(prs[i].url) == Some(r.value[i])
    ensures r.Err? ==> exists i :: (0 <= i < |prs| && r.error == UnmatchedUrl(prs[i].url)
      && PullUrl.ExtractId(prs[i].url).None?
      && forall h :: 0 <= h < i ==> PullUrl.ExtractId(prs[h].url).Some?)
  {
    var found := seq(|prs|, i requires 0 <= i < |prs| => PullUrl.ExtractId(prs[i].url));
    var r := CollectIds(prs, found, 0);
    FoundIdsAreIds(prs, found, r);
    r
  }

  lemma FoundIdsAreIds(prs: seq<PullRequest>, found: seq<Option<string>>, r: Result<seq<string>, MatrixError>)
    requires |found| == |prs| && forall i :: 0 <= i < |prs| ==> found[i] == PullUrl.ExtractId(prs[i].url)
    requires r.Ok? ==> |r.value| == |prs| && forall i :: 0 <= i < |prs| ==> found[i] == Some(r.value[i])
    requires r.Err? ==> exists i :: (0 <= i < |prs| && r.error == UnmatchedUrl(prs[i].url)
      && found[i].None? && forall h :: 0 <= h < i ==> found[h].Some?)
    ensures r.Ok? ==> forall i :: 0 <= i < |prs| ==> PullUrl.ExtractId(prs[i].url) == Some(r.value[i])
    ensures r.Err? ==> exists i :: (0 <= i < |prs| && r.error == UnmatchedUrl(prs[i].url)
      && PullUrl.ExtractId(prs[i].url).None?
      && forall h :: 0 <= h < i ==> PullUrl.ExtractId(prs[h].url).Some?)
  {
    if r.Err? {
      var i :| 0 <= i < |prs| && r.error == UnmatchedUrl(prs[i].url) && found[i].None? && forall h :: 0 <= h < i ==> found[h].Some?;
      assert PullUrl.ExtractId(prs[i].url).None?;
      assert forall h :: 0 <= h < i ==> PullUrl.ExtractId(prs[h].url).Some?;
    }
  }

  /** The ids `found` for the requests from position `k` on, or the URL of the first request with none. */
  function CollectIds(prs: seq<PullRequest>, found: seq<Option<string>>, k: nat): (r: Result<seq<string>, MatrixError>)
    requires |found| == |prs| && k <= |prs|
    decreases |prs| - k
    ensures r.Ok? ==> |r.value| == |prs| - k
    ensures r.Ok? ==> forall i :: k <= i < |prs| ==> found[i] == Some(r.value[i - k])
    ensures r.Err? ==> exists i :: (k <= i < |prs| && r.error == UnmatchedUrl(prs[i].url)
      && found[i].None? && forall h :: k <= h < i ==> found[h].Some?)
  {
    if k == |prs| then Ok([])
    else
      match found[k]
      case None => Err(UnmatchedUrl(prs[k].url))
      case Some(id) =>
        match CollectIds(prs, found, k + 1)
        case Err(err) => Err(err)
        case Ok(rest) => Ok([id] + rest)
  }

  /** `.loc[summary.index]`: the requests with at least one non-empty reviewer cell. */
  function WithReviews(ds: seq<Draft>): (r: seq<Draft>)
    ensures forall d :: d in r <==> d in ds && Filled(d.cells) > 0
  {
    if ds == [] then []
    else
      assert forall d :: d in ds <==> d == ds[0] || d in ds[1..] by {
        assert ds == [ds[0]] + ds[1..];
      }
      (if Filled(ds[0].cells) > 0 then [ds[0]] else []) + WithReviews(ds[1..])
  }

  /** Each reviewed request is kept as often as it occurs, and no other request is kept. */
  lemma {:induction false} WithReviewsCounts(ds: seq<Draft>)
    ensures forall d :: multiset(WithReviews(ds))[d] == if Filled(d.cells) > 0 then multiset(ds)[d] else 0
  {
    if ds != [] {
      WithReviewsCounts(ds[1..]);
      assert ds == [ds[0]] + ds[1..];
      assert multiset(ds) == multiset{ds[0]} + multiset(ds[1..]);
    }
  }

  /** No two drafts carry the same id. */
  predicate UniqueDraftIds(ds: seq<Draft>)
  {
    forall a, b :: 0 <= a < b < |ds| ==> ds[a].id != ds[b].id
  }

  /** Keeping the reviewed requests keeps their ids distinct. */
  lemma {:induction false} WithReviewsUnique(ds: seq<Draft>)
    requires UniqueDraftIds(ds)
    ensures UniqueDraftIds(WithReviews(ds))
  {
    if ds != [] {
      UniqueDraftTail(ds);
      WithReviewsUnique(ds[1..]);
      if Filled(ds[0].cells) > 0 {
        UniqueDraftCons(ds[0], WithReviews(ds[1..]));
      }
    }
  }

  /** The tail of drafts with distinct ids has distinct ids, none of them the head's. */
  lemma UniqueDraftTail(ds: seq<Draft>)
    requires UniqueDraftIds(ds) && ds != []
    ensures UniqueDraftIds(ds[1..])
    ensures forall d :: d in ds[1..] ==> d.id != ds[0].id
  {
    forall d | d in ds[1..] ensures d.id != ds[0].id {
      var j :| 0 <= j < |ds[1..]| && ds[1..][j] == d;
      assert ds[j + 1] == d;
    }
  }

  lemma UniqueDraftCons(x: Draft, ds: seq<Draft>)
    requires UniqueDraftIds(ds)
    requires forall d :: d in ds ==> d.id != x.id
    ensures UniqueDraftIds([x] + ds)
  {
    forall a, b | 0 <= a < b < |[x] + ds| ensures ([x] + ds)[a].id != ([x] + ds)[b].id {
      if a == 0 {
        assert ([x] + ds)[b] == ds[b - 1];
      }
    }
  }

  /** Some kept request shows glyph `g`. */
  predicate Shown(g: string, ds: seq<Draft>)
  {
    exists d :: d in ds && g in d.cells
  }

  /** The glyphs of `gs` that some request shows, in the order of `gs`. */
  function ShownGlyphs(gs: seq<string>, ds: seq<Draft>): (r: seq<string>)
    requires StringOrder.StrictlySorted(gs)
    ensures StringOrder.StrictlySorted(r)
    ensures forall g :: g in r <==> g in gs && Shown(g, ds)
  {
    if gs == [] then []
    else
      var rest := ShownGlyphs(gs[1..], ds);
      assert forall g :: g in gs <==> g == gs[0] || g in gs[1..] by {
        assert gs == [gs[0]] + gs[1..];
      }
      assert forall g :: g in rest ==> StringOrder.Less(gs[0], g);
      (if Shown(gs[0], ds) then [gs[0]] else []) + rest
  }

  lemma AllGlyphsSorted()
    ensures StringOrder.StrictlySorted(AllGlyphs)
  {
  }

  /**
   * The summary columns `unstack` produces: one per glyph shown anywhere
   * among the kept rows, in ascending order.
   */
  function GlyphColumns(ds: seq<Draft>): (gs: seq<string>)
    ensures StringOrder.StrictlySorted(gs)
    ensures forall g :: g in gs <==> g in AllGlyphs && Shown(g, ds)
  {
    AllGlyphsSorted();
    ShownGlyphs(AllGlyphs, ds)
  }

  lemma SortedIsDistinct(gs: seq<string>)
    requires StringOrder.StrictlySorted(gs)
    ensures Distinct(gs)
  {
    forall i, j | 0 <= i < j < |gs| ensures gs[i] != gs[j] {
      StringOrder.LessIrreflexive(gs[i]);
    }
  }

  /**
   * A kept request with its summary: the count of each summary glyph among
   * its reviewer cells, and ⅀ as their sum, which is its number of non-empty cells.
   */
  function MakeRow(d: Draft, gs: seq<string>): (r: Row)
    requires StringOrder.StrictlySorted(gs) && "" !in gs
    requires forall j :: 0 <= j < |d.cells| && d.cells[j] != "" ==> d.cells[j] in gs
    ensures r.id == d.id && r.title == d.title && r.updatedAt == d.updatedAt && r.cells == d.cells
    ensures |r.counts| == |gs|
    ensures forall k :: 0 <= k < |gs| ==> r.counts[k] == Count(r.cells, gs[k])
    ensures r.total == Filled(r.cells)
  {
    SortedIsDistinct(gs);
    TotalIsFilled(d.cells, gs);
    var counts := Counts(d.cells, gs);
    Row(d.id, d.title, d.updatedAt, Sum(counts), counts, d.cells)
  }

  /** The ✅ count of a row; a row with no ✅ has a missing count, which sorts last, as zero would. */
  function Approvals(r: Row): nat
  {
    Count(r.cells, ApprovedGlyph)
  }

  /**
   * `x` may be listed before `y` by `sort_values(["✅", "⅀"], ascending=False)`:
   * more approvals, or as many and a larger ⅀, or a tie on both and an id that
   * is not greater (the stable sort keeps the ascending id order of the grouped index).
   */
  predicate ListedBefore(x: Row, y: Row)
  {
    || Approvals(x) > Approvals(y)
    || (Approvals(x) == Approvals(y) && x.total > y.total)
    || (Approvals(x) == Approvals(y) && x.total == y.total && !StringOrder.Less(y.id, x.id))
  }

  lemma ListedBeforeTotal(x: Row, y: Row)
    ensures ListedBefore(x, y) || ListedBefore(y, x)
  {
    if StringOrder.Less(y.id, x.id) {
      StringOrder.LessAsymmetric(y.id, x.id);
    }
  }

  lemma ListedBeforeTransitive(x: Row, y: Row, z: Row)
    requires ListedBefore(x, y) && ListedBefore(y, z)
    ensures ListedBefore(x, z)
  {
    if Approvals(x) == Approvals(z) && x.total == z.total {
      assert Approvals(x) == Approvals(y) && x.total == y.total;
      if StringOrder.Less(z.id, x.id) {
        if x.id == y.id {
        } else if y.id == z.id {
        } else {
          StringOrder.LessTotal(x.id, y.id);
          StringOrder.LessTotal(y.id, z.id);
          StringOrder.LessTransitive(x.id, y.id, z.id);
          StringOrder.LessAsymmetric(z.id, x.id);
        }
      }
    }
  }

  /** Rows in output order. */
  predicate RowsOrdered(rows: seq<Row>)
  {
    forall a, b :: 0 <= a < b < |rows| ==> ListedBefore(rows[a], rows[b])
  }

  /** A row listed before every row of an ordered sequence may head it. */
  lemma OrderedCons(x: Row, rows: seq<Row>)
    requires RowsOrdered(rows)
    requires forall y :: y in rows ==> ListedBefore(x, y)
    ensures RowsOrdered([x] + rows)
  {
    forall a, b | 0 <= a < b < |[x] + rows| ensures ListedBefore(([x] + rows)[a], ([x] + rows)[b]) {
      if a == 0 {
        assert ([x] + rows)[b] == rows[b - 1];
        assert rows[b - 1] in rows;
      } else {
        assert ([x] + rows)[a] == rows[a - 1] && ([x] + rows)[b] == rows[b - 1];
      }
    }
  }

  /** The head of an ordered sequence is listed before all of it. */
  lemma HeadListedFirst(rows: seq<Row>)
    requires RowsOrdered(rows) && rows != []
    ensures forall y :: y in rows[1..] ==> ListedBefore(rows[0], y)
  {
    forall y | y in rows[1..] ensures ListedBefore(rows[0], y) {
      var b :| 0 <= b < |rows[1..]| && rows[1..][b] == y;
      assert rows[b + 1] == y;
    }
  }

  function InsertRow(x: Row, rows: seq<Row>): (r: seq<Row>)
    requires RowsOrdered(rows)
    ensures RowsOrdered(r)
    ensures multiset(r) == multiset(rows) + multiset{x}
  {
    if rows == [] then [x]
    else
      HeadListedFirst(rows);
      if ListedBefore(x, rows[0]) then
        assert forall y :: y in rows ==> ListedBefore(x, y) by {
          forall y | y in rows ensures ListedBefore(x, y) {
            if y != rows[0] {
              assert rows == [rows[0]] + rows[1..];
              ListedBeforeTransitive(x, rows[0], y);
            }
          }
        }
        OrderedCons(x, rows);
        [x] + rows
      else
        ListedBeforeTotal(x, rows[0]);
        var t := InsertRow(x, rows[1..]);
        assert rows == [rows[0]] + rows[1..];
        assert forall y :: y in t ==> ListedBefore(rows[0], y) by {
          forall y | y in t ensures ListedBefore(rows[0], y) {
            assert y in multiset(t);
            if y != x {
              assert y in multiset(rows[1..]);
            }
          }
        }
        OrderedCons(rows[0], t);
        [rows[0]] + t
  }

  /** The rows in output order (an insertion sort under `ListedBefore`). */
  function SortRows(rows: seq<Row>): (r: seq<Row>)
    ensures RowsOrdered(r)
    ensures multiset(r) == multiset(rows)
  {
    if rows == [] then []
    else
      assert rows == rows[..|rows| - 1] + [rows[|rows| - 1]];
      InsertRow(rows[|rows| - 1], SortRows(rows[..|rows| - 1]))
  }

  /** No two rows carry the same id. */
  predicate UniqueRowIds(rows: seq<Row>)
  {
    forall a, b :: 0 <= a < b < |rows| ==> rows[a].id != rows[b].id
  }

  /** The tail of rows with distinct ids has distinct ids, none of them the head's. */
  lemma UniqueRowTail(rows: seq<Row>)
    requires UniqueRowIds(rows) && rows != []
    ensures UniqueRowIds(rows[1..])
    ensures forall y :: y in rows[1..] ==> y.id != rows[0].id
  {
    forall y | y in rows[1..] ensures y.id != rows[0].id {
      var j :| 0 <= j < |rows[1..]| && rows[1..][j] == y;
      assert rows[j + 1] == y;
    }
  }

  /** Rows with distinct ids hold each row at most once. */
  lemma {:induction false} UniqueRowsOnce(rows: seq<Row>)
    requires UniqueRowIds(rows)
    ensures forall v :: multiset(rows)[v] <= 1
  {
    if rows != [] {
      UniqueRowTail(rows);
      UniqueRowsOnce(rows[1..]);
      assert rows == [rows[0]] + rows[1..];
      assert multiset(rows) == multiset{rows[0]} + multiset(rows[1..]);
    }
  }

  /** A row at two positions is counted at least twice. */
  lemma TwiceCounted(y: seq<Row>, a: nat, b: nat)
    requires a < b < |y| && y[a] == y[b]
    ensures multiset(y)[y[a]] >= 2
  {
    assert y == y[..b] + y[b..];
    assert y[a] == y[..b][a] && y[b] == y[b..][0];
    assert multiset(y) == multiset(y[..b]) + multiset(y[b..]);
  }

  /** Reordering rows keeps their ids distinct. */
  lemma PermutationKeepsUniqueIds(x: seq<Row>, y: seq<Row>)
    requires UniqueRowIds(x) && multiset(x) == multiset(y)
    ensures UniqueRowIds(y)
  {
    UniqueRowsOnce(x);
    forall a, b | 0 <= a < b < |y| ensures y[a].id != y[b].id {
      assert y[a] in multiset(x) && y[b] in multiset(x);
      if y[a] == y[b] {
        TwiceCounted(y, a, b);
      } else {
        var i :| 0 <= i < |x| && x[i] == y[a];
        var j :| 0 <= j < |x| && x[j] == y[b];
        assert i != j;
      }
    }
  }

  /**
   * Ordered rows with distinct ids are determined by their contents: the
   * output order leaves no choice.
   */
  lemma {:induction false} OrderedRowsUnique(a: seq<Row>, b: seq<Row>)
    requires RowsOrdered(a) && RowsOrdered(b)
    requires UniqueRowIds(a) && multiset(a) == multiset(b)
    ensures a == b
  {
    assert |b| == |multiset(b)| == |multiset(a)| == |a|;
    if a != [] {
      OrderedHeadsAgree(a, b);
      UniqueRowTail(a);
      OrderedTail(a);
      OrderedTail(b);
      TailPermutation(a, b);
      OrderedRowsUnique(a[1..], b[1..]);
      assert a == [a[0]] + a[1..] && b == [b[0]] + b[1..];
    }
  }

  /** Two ordered arrangements of the same rows with distinct ids start with the same row. */
  lemma OrderedHeadsAgree(a: seq<Row>, b: seq<Row>)
    requires RowsOrdered(a) && RowsOrdered(b)
    requires UniqueRowIds(a) && multiset(a) == multiset(b) && a != [] && b != []
    ensures a[0] == b[0]
  {
    if a[0] != b[0] {
      assert a == [a[0]] + a[1..] && b == [b[0]] + b[1..];
      assert b[0] in multiset(a) && a[0] in multiset(b);
      HeadListedFirst(a);
      HeadListedFirst(b);
      assert ListedBefore(a[0], b[0]) && ListedBefore(b[0], a[0]);
      UniqueRowTail(a);
      StringOrder.LessTotal(a[0].id, b[0].id);
      assert false;
    }
  }

  /** Removing the same head from two arrangements of the same rows leaves two arrangements of the same rows. */
  lemma TailPermutation(a: seq<Row>, b: seq<Row>)
    requires multiset(a) == multiset(b) && a != [] && b != [] && a[0] == b[0]
    ensures multiset(a[1..]) == multiset(b[1..])
  {
    assert a == [a[0]] + a[1..] && b == [b[0]] + b[1..];
    assert multiset(a) == multiset{a[0]} + multiset(a[1..]);
    assert multiset(b) == multiset{b[0]} + multiset(b[1..]);
    assert multiset(a[1..]) == multiset(a) - multiset{a[0]};
    assert multiset(b[1..]) == multiset(b) - multiset{b[0]};
  }

  lemma OrderedTail(rows: seq<Row>)
    requires RowsOrdered(rows) && rows != []
    ensures RowsOrdered(rows[1..])
  {
    forall x, y | 0 <= x < y < |rows[1..]| ensures ListedBefore(rows[1..][x], rows[1..][y]) {
      assert rows[1..][x] == rows[x + 1] && rows[1..][y] == rows[y + 1];
    }
  }

  /** Two URLs do not give the same row id. */
  predicate DistinctIds(u: string, v: string)
  {
    PullUrl.ExtractId(u).None? || PullUrl.ExtractId(v).None? || PullUrl.ExtractId(u) != PullUrl.ExtractId(v)
  }

  /** Distinct requests: distinct URLs, and distinct ids where the pattern matches. */
  predicate UniqueRequests(prs: seq<PullRequest>)
  {
    && UniqueUrls(prs)
    && forall i, j {:trigger DistinctIds(prs[i].url, prs[j].url)} :: 0 <= i < j < |prs| ==> DistinctIds(prs[i].url, prs[j].url)
  }

  predicate AllUrlsMatch(prs: seq<PullRequest>)
  {
    forall i :: 0 <= i < |prs| ==> PullUrl.ExtractId(prs[i].url).Some?
  }

  /** The requests with their ids and reviewer cells, in input order. */
  function Drafts(prs: seq<PullRequest>, names: set<string>, ids: seq<string>): (ds: seq<Draft>)
    requires |ids| == |prs|
    ensures |ds| == |prs|
    ensures forall i :: 0 <= i < |prs| ==>
      ds[i] == Draft(ids[i], prs[i].title, prs[i].updatedAt, RequestCells(prs, names, i))
  {
    seq(|prs|, i requires 0 <= i < |prs| => Draft(ids[i], prs[i].title, prs[i].updatedAt, RequestCells(prs, names, i)))
  }

  /** Every reviewer cell of a draft is empty or one of the five glyphs. */
  lemma DraftCellsAreGlyphs(prs: seq<PullRequest>, names: set<string>, ids: seq<string>)
    requires |ids| == |prs|
    ensures GlyphCells(Drafts(prs, names, ids))
  {
    var ds := Drafts(prs, names, ids);
    forall d, j | d in ds && 0 <= j < |d.cells| ensures d.cells[j] == "" || d.cells[j] in AllGlyphs {
      var i :| 0 <= i < |ds| && ds[i] == d;
      assert d.cells == RequestCells(prs, names, i);
    }
  }

  /** The summarised rows of the kept requests, before ordering. */
  function Rows(kept: seq<Draft>, gs: seq<string>): (rows: seq<Row>)
    requires StringOrder.StrictlySorted(gs) && "" !in gs
    requires forall d, j :: d in kept && 0 <= j < |d.cells| && d.cells[j] != "" ==> d.cells[j] in gs
    ensures |rows| == |kept|
    ensures forall k :: 0 <= k < |kept| ==> rows[k] == MakeRow(kept[k], gs)
  {
    seq(|kept|, k requires 0 <= k < |kept| => MakeRow(kept[k], gs))
  }

  /** Every reviewer cell of every draft is empty or one of the five glyphs. */
  predicate GlyphCells(ds: seq<Draft>)
  {
    forall d, j :: d in ds && 0 <= j < |d.cells| ==> d.cells[j] == "" || d.cells[j] in AllGlyphs
  }

  /** No draft has a ✅ cell. */
  predicate NoApproval(ds: seq<Draft>)
  {
    forall i :: 0 <= i < |ds| ==> ApprovedGlyph !in ds[i].cells
  }

  /** `rows` show exactly the drafts that have a non-empty reviewer cell. */
  predicate ShowsReviewed(ds: seq<Draft>, rows: seq<Row>)
  {
    && (forall row :: row in rows ==> exists i :: 0 <= i < |ds| && Shows(row, ds[i]))
    && (forall i :: 0 <= i < |ds| && Filled(ds[i].cells) > 0 ==> exists row :: row in rows && Shows(row, ds[i]))
  }

  /**
   * The summary columns of `m`: each row's ⅀ is its number of non-empty cells
   * (at least one), each glyph column counts that glyph in the row, and the
   * glyph columns are, in ascending order, the glyphs some row shows, ✅ among them.
   */
  ghost predicate Summarised(m: Matrix)
  {
    && (forall row :: row in m.rows ==>
         && row.total == Filled(row.cells) > 0
         && |row.counts| == |m.glyphColumns|
         && forall k :: 0 <= k < |m.glyphColumns| ==> row.counts[k] == Count(row.cells, m.glyphColumns[k]))
    && StringOrder.StrictlySorted(m.glyphColumns)
    && ApprovedGlyph in m.glyphColumns
    && (forall g :: g in m.glyphColumns <==> g in AllGlyphs && exists row :: row in m.rows && g in row.cells)
  }

  /**
   * The part of `make_reviewer_matrix` after the reviewer cells are known
   * (reviewer-matrix.py:133-152): keep the requests with a non-empty cell,
   * count glyphs, and order the rows by ✅ count and then ⅀.
   */
  function Assemble(ds: seq<Draft>, cols: seq<string>): (r: Result<Matrix, MatrixError>)
    requires GlyphCells(ds)
    ensures r.Err? <==> NoApproval(ds)
    ensures r.Err? ==> r.error == NoApprovalColumn
    ensures r.Ok? ==> r.value.reviewers == cols
    ensures r.Ok? ==> RowsOrdered(r.value.rows)
    ensures r.Ok? ==> ShowsReviewed(ds, r.value.rows)
    ensures r.Ok? ==> Summarised(r.value)
  {
    var kept := WithReviews(ds);
    var gs := GlyphColumns(kept);
    NoApprovalAnywhere(ds, kept, gs);
    if ApprovedGlyph !in gs then Err(NoApprovalColumn)
    else Ok(Ranked(ds, kept, gs, cols))
  }

  /** The table of the kept drafts, once the ✅ column is known to exist. */
  function Ranked(ds: seq<Draft>, kept: seq<Draft>, gs: seq<string>, cols: seq<string>): (m: Matrix)
    requires GlyphCells(ds)
    requires kept == WithReviews(ds) && gs == GlyphColumns(kept) && ApprovedGlyph in gs
    ensures m.reviewers == cols
    ensures RowsOrdered(m.rows)
    ensures ShowsReviewed(ds, m.rows)
    ensures Summarised(m)
  {
    KeptCellsAreShown(kept, gs);
    var rows := Rows(kept, gs);
    var sorted := SortRows(rows);
    RankedRows(ds, kept, gs, rows, sorted, cols);
    Matrix(gs, cols, sorted)
  }

  /**
   * Each kept draft is listed once: there are as many rows as kept drafts,
   * and drafts with distinct ids give rows with distinct ids.
   */
  lemma AssembleListsOnce(ds: seq<Draft>, cols: seq<string>)
    requires GlyphCells(ds) && Assemble(ds, cols).Ok?
    ensures |Assemble(ds, cols).value.rows| == |WithReviews(ds)|
    ensures UniqueDraftIds(ds) ==> UniqueRowIds(Assemble(ds, cols).value.rows)
  {
    var kept := WithReviews(ds);
    var gs := GlyphColumns(kept);
    KeptCellsAreShown(kept, gs);
    assert Assemble(ds, cols).value.rows == SortRows(Rows(kept, gs));
    if UniqueDraftIds(ds) {
      WithReviewsUnique(ds);
    }
    SortedRowsOnce(kept, gs);
  }

  /** The ordered rows of the kept drafts: one per draft, with distinct ids when the drafts have them. */
  lemma SortedRowsOnce(kept: seq<Draft>, gs: seq<string>)
    requires StringOrder.StrictlySorted(gs) && "" !in gs
    requires forall d, j :: d in kept && 0 <= j < |d.cells| && d.cells[j] != "" ==> d.cells[j] in gs
    ensures |SortRows(Rows(kept, gs))| == |kept|
    ensures UniqueDraftIds(kept) ==> UniqueRowIds(SortRows(Rows(kept, gs)))
  {
    var rows := Rows(kept, gs);
    var sorted := SortRows(rows);
    assert |sorted| == |multiset(sorted)| == |multiset(rows)| == |rows|;
    if UniqueDraftIds(kept) {
      RowsUnique(kept, gs);
      PermutationKeepsUniqueIds(rows, sorted);
    }
  }

  /** Drafts with distinct ids give rows with distinct ids. */
  lemma RowsUnique(kept: seq<Draft>, gs: seq<string>)
    requires StringOrder.StrictlySorted(gs) && "" !in gs
    requires forall d, j :: d in kept && 0 <= j < |d.cells| && d.cells[j] != "" ==> d.cells[j] in gs
    requires UniqueDraftIds(kept)
    ensures UniqueRowIds(Rows(kept, gs))
  {
    var rows := Rows(kept, gs);
    forall a, b | 0 <= a < b < |rows| ensures rows[a].id != rows[b].id {
      assert rows[a].id == kept[a].id && rows[b].id == kept[b].id;
    }
  }

  /** The ordered rows of the kept drafts show those drafts, with their summaries. */
  lemma RankedRows(ds: seq<Draft>, kept: seq<Draft>, gs: seq<string>, rows: seq<Row>, sorted: seq<Row>, cols: seq<string>)
    requires kept == WithReviews(ds) && gs == GlyphColumns(kept) && ApprovedGlyph in gs
    requires "" !in gs
    requires forall d, j :: d in kept && 0 <= j < |d.cells| && d.cells[j] != "" ==> d.cells[j] in gs
    requires rows == Rows(kept, gs) && sorted == SortRows(rows)
    ensures ShowsReviewed(ds, sorted)
    ensures Summarised(Matrix(gs, cols, sorted))
  {
    SortedRowsAreKept(kept, gs, rows, sorted);
    RankedRowsShowDrafts(ds, kept, gs, sorted);
    RankedRowsSummarised(kept, gs, sorted, cols);
  }

  lemma RankedRowsShowDrafts(ds: seq<Draft>, kept: seq<Draft>, gs: seq<string>, sorted: seq<Row>)
    requires forall d :: d in kept <==> d in ds && Filled(d.cells) > 0
    requires StringOrder.StrictlySorted(gs) && "" !in gs
    requires forall d, j :: d in kept && 0 <= j < |d.cells| && d.cells[j] != "" ==> d.cells[j] in gs
    requires forall row :: row in sorted ==> exists k :: 0 <= k < |kept| && row == MakeRow(kept[k], gs)
    requires forall k :: 0 <= k < |kept| ==> MakeRow(kept[k], gs) in sorted
    ensures ShowsReviewed(ds, sorted)
  {
    RowsComeFromDrafts(ds, kept, gs, sorted);
    ReviewedDraftsAreShown(ds, kept, gs, sorted);
  }

  lemma RankedRowsSummarised(kept: seq<Draft>, gs: seq<string>, sorted: seq<Row>, cols: seq<string>)
    requires forall d :: d in kept ==> Filled(d.cells) > 0
    requires gs == GlyphColumns(kept) && ApprovedGlyph in gs
    requires StringOrder.StrictlySorted(gs) && "" !in gs
    requires forall d, j :: d in kept && 0 <= j < |d.cells| && d.cells[j] != "" ==> d.cells[j] in gs
    requires forall row :: row in sorted ==> exists k :: 0 <= k < |kept| && row == MakeRow(kept[k], gs)
    requires forall k :: 0 <= k < |kept| ==> MakeRow(kept[k], gs) in sorted
    ensures Summarised(Matrix(gs, cols, sorted))
  {
    RowSummaries(kept, gs, sorted);
    GlyphColumnsOfRows(kept, gs, sorted);
  }

  /** No request has a ✅ cell. */
  predicate NoApprovalRequested(prs: seq<PullRequest>, names: set<string>)
  {
    forall i :: 0 <= i < |prs| ==> ApprovedGlyph !in RequestCells(prs, names, i)
  }

  /** `rows` show exactly the requests that have a non-empty reviewer cell. */
  predicate ShowsReviewedRequests(prs: seq<PullRequest>, names: set<string>, rows: seq<Row>)
  {
    && (forall row :: row in rows ==> exists i :: 0 <= i < |prs| && RowOfRequest(prs, names, i, row))
    && (forall i :: 0 <= i < |prs| && Filled(RequestCells(prs, names, i)) > 0 ==>
          exists row :: row in rows && RowOfRequest(prs, names, i, row))
  }

  /**
   * `make_reviewer_matrix(pr_list, names)`: the ranked table, or the failure
   * the source runs into (no requests, a URL the pattern does not match, no ✅
   * anywhere among the collaborator cells).
   */
  function ReviewerMatrix(prs: seq<PullRequest>, names: set<string>): (r: Result<Matrix, MatrixError>)
    requires UniqueRequests(prs)
    ensures prs == [] ==> r == Err(NoPullRequests)
    ensures prs != [] && !AllUrlsMatch(prs) ==> r.Err? && r.error.UnmatchedUrl?
    ensures r.Err? && r.error.UnmatchedUrl? ==> exists i :: (0 <= i < |prs| && r.error.url == prs[i].url
      && PullUrl.ExtractId(prs[i].url).None?
      && forall h :: 0 <= h < i ==> PullUrl.ExtractId(prs[h].url).Some?)
    ensures prs != [] && AllUrlsMatch(prs) ==> (r == Err(NoApprovalColumn) <==> NoApprovalRequested(prs, names))
    ensures r.Ok? <==> prs != [] && AllUrlsMatch(prs) && !NoApprovalRequested(prs, names)
    ensures r.Ok? ==> r.value.reviewers == ReviewerColumns(names, Entries(prs))
    ensures r.Ok? ==> RowsOrdered(r.value.rows)
    ensures r.Ok? ==> Summarised(r.value)
  {
    if prs == [] then Err(NoPullRequests)
    else
      match Ids(prs)
      case Err(err) => Err(err)
      case Ok(ids) => Tabulate(prs, names, ids)
  }

  /** The rows of a successful run show exactly the requests with a non-empty reviewer cell. */
  lemma ReviewerMatrixShows(prs: seq<PullRequest>, names: set<string>)
    requires UniqueRequests(prs)
    requires ReviewerMatrix(prs, names).Ok?
    ensures ShowsReviewedRequests(prs, names, ReviewerMatrix(prs, names).value.rows)
  {
    TabulateShows(prs, names, Ids(prs).value);
  }

  /**
   * A successful run lists each request at most once: no two rows share an
   * id, so with `ReviewerMatrixShows` each request with a non-empty cell has
   * exactly one row.
   */
  lemma ReviewerMatrixListsOnce(prs: seq<PullRequest>, names: set<string>)
    requires UniqueRequests(prs)
    requires ReviewerMatrix(prs, names).Ok?
    ensures UniqueRowIds(ReviewerMatrix(prs, names).value.rows)
  {
    TabulateListsOnce(prs, names, Ids(prs).value);
  }

  /** Requests with distinct ids are listed once each. */
  lemma TabulateListsOnce(prs: seq<PullRequest>, names: set<string>, ids: seq<string>)
    requires UniqueRequests(prs)
    requires |ids| == |prs| && forall i :: 0 <= i < |prs| ==> PullUrl.ExtractId(prs[i].url) == Some(ids[i])
    requires Tabulate(prs, names, ids).Ok?
    ensures UniqueRowIds(Tabulate(prs, names, ids).value.rows)
  {
    var ds := Drafts(prs, names, ids);
    DraftCellsAreGlyphs(prs, names, ids);
    DraftIdsUnique(prs, names, ids);
    AssembleListsOnce(ds, ReviewerColumns(names, Entries(prs)));
  }

  /** Distinct requests give drafts with distinct ids. */
  lemma DraftIdsUnique(prs: seq<PullRequest>, names: set<string>, ids: seq<string>)
    requires UniqueRequests(prs)
    requires |ids| == |prs| && forall i :: 0 <= i < |prs| ==> PullUrl.ExtractId(prs[i].url) == Some(ids[i])
    ensures UniqueDraftIds(Drafts(prs, names, ids))
  {
    var ds := Drafts(prs, names, ids);
    forall a, b | 0 <= a < b < |ds| ensures ds[a].id != ds[b].id {
      assert DistinctIds(prs[a].url, prs[b].url);
    }
  }

  /** The table of requests whose row ids are all known. */
  function Tabulate(prs: seq<PullRequest>, names: set<string>, ids: seq<string>): (r: Result<Matrix, MatrixError>)
    requires |ids| == |prs| && forall i :: 0 <= i < |prs| ==> PullUrl.ExtractId(prs[i].url) == Some(ids[i])
    ensures r.Err? ==> NoApprovalRequested(prs, names)
    ensures NoApprovalRequested(prs, names) ==> r.Err?
    ensures r.Err? ==> r.error == NoApprovalColumn
    ensures r.Ok? ==> r.value.reviewers == ReviewerColumns(names, Entries(prs))
    ensures r.Ok? ==> RowsOrdered(r.value.rows)
    ensures r.Ok? ==> Summarised(r.value)
  {
    var ds := Drafts(prs, names, ids);
    DraftCellsAreGlyphs(prs, names, ids);
    var r := Assemble(ds, ReviewerColumns(names, Entries(prs)));
    DraftsAreRequests(prs, names, ids, ds);
    r
  }

  /** The rows of the table show exactly the requests with a non-empty reviewer cell. */
  lemma TabulateShows(prs: seq<PullRequest>, names: set<string>, ids: seq<string>)
    requires |ids| == |prs| && forall i :: 0 <= i < |prs| ==> PullUrl.ExtractId(prs[i].url) == Some(ids[i])
    requires Tabulate(prs, names, ids).Ok?
    ensures ShowsReviewedRequests(prs, names, Tabulate(prs, names, ids).value.rows)
  {
    var ds := Drafts(prs, names, ids);
    DraftCellsAreGlyphs(prs, names, ids);
    var r := Assemble(ds, ReviewerColumns(names, Entries(prs)));
    DraftRowsAreRequestRows(prs, names, ids, ds, r.value.rows);
  }

  /** Drafts with no ✅ are requests with no ✅. */
  lemma DraftsAreRequests(prs: seq<PullRequest>, names: set<string>, ids: seq<string>, ds: seq<Draft>)
    requires |ids| == |prs| && ds == Drafts(prs, names, ids)
    ensures NoApproval(ds) <==> NoApprovalRequested(prs, names)
  {
  }

  /** Rows that show the reviewed drafts show the reviewed requests. */
  lemma DraftRowsAreRequestRows(prs: seq<PullRequest>, names: set<string>, ids: seq<string>, ds: seq<Draft>, rows: seq<Row>)
    requires |ids| == |prs| && forall i :: 0 <= i < |prs| ==> PullUrl.ExtractId(prs[i].url) == Some(ids[i])
    requires ds == Drafts(prs, names, ids)
    requires ShowsReviewed(ds, rows)
    ensures ShowsReviewedRequests(prs, names, rows)
  {
    RowsShowRequests(prs, names, ids, ds, rows);
    ReviewedRequestsAreShown(prs, names, ids, ds, rows);
  }

  lemma RowsShowRequests(prs: seq<PullRequest>, names: set<string>, ids: seq<string>, ds: seq<Draft>, rows: seq<Row>)
    requires |ids| == |prs| && forall i :: 0 <= i < |prs| ==> PullUrl.ExtractId(prs[i].url) == Some(ids[i])
    requires |ds| == |prs| && forall i :: 0 <= i < |prs| ==> ds[i] == Draft(ids[i], prs[i].title, prs[i].updatedAt, RequestCells(prs, names, i))
    requires forall row :: row in rows ==> exists i :: 0 <= i < |ds| && Shows(row, ds[i])
    ensures forall row :: row in rows ==> exists i :: 0 <= i < |prs| && RowOfRequest(prs, names, i, row)
  {
    forall row | row in rows ensures exists i :: 0 <= i < |prs| && RowOfRequest(prs, names, i, row) {
      var i :| 0 <= i < |ds| && Shows(row, ds[i]);
      assert RowOfRequest(prs, names, i, row);
    }
  }

  lemma ReviewedRequestsAreShown(prs: seq<PullRequest>, names: set<string>, ids: seq<string>, ds: seq<Draft>, rows: seq<Row>)
    requires |ids| == |prs| && forall i :: 0 <= i < |prs| ==> PullUrl.ExtractId(prs[i].url) == Some(ids[i])
    requires |ds| == |prs| && forall i :: 0 <= i < |prs| ==> ds[i] == Draft(ids[i], prs[i].title, prs[i].updatedAt, RequestCells(prs, names, i))
    requires forall i :: 0 <= i < |ds| && Filled(ds[i].cells) > 0 ==> exists row :: row in rows && Shows(row, ds[i])
    ensures forall i :: 0 <= i < |prs| && Filled(RequestCells(prs, names, i)) > 0 ==>
      exists row :: row in rows && RowOfRequest(prs, names, i, row)
  {
    forall i | 0 <= i < |prs| && Filled(RequestCells(prs, names, i)) > 0
      ensures exists row :: row in rows && RowOfRequest(prs, names, i, row) {
      var row :| row in rows && Shows(row, ds[i]);
      assert RowOfRequest(prs, names, i, row);
    }
  }

  lemma KeptCellsAreShown(kept: seq<Draft>, gs: seq<string>)
    requires forall g :: g in gs <==> g in AllGlyphs && Shown(g, kept)
    requires forall d, j :: d in kept && 0 <= j < |d.cells| ==> d.cells[j] == "" || d.cells[j] in AllGlyphs
    ensures "" !in gs
    ensures forall d, j :: d in kept && 0 <= j < |d.cells| && d.cells[j] != "" ==> d.cells[j] in gs
  {
    forall d, j | d in kept && 0 <= j < |d.cells| && d.cells[j] != "" ensures d.cells[j] in gs {
      assert Shown(d.cells[j], kept);
    }
    assert "" !in AllGlyphs;
  }

  lemma NoApprovalAnywhere(ds: seq<Draft>, kept: seq<Draft>, gs: seq<string>)
    requires kept == WithReviews(ds) && gs == GlyphColumns(kept)
    ensures ApprovedGlyph !in gs <==> forall i :: 0 <= i < |ds| ==> ApprovedGlyph !in ds[i].cells
  {
    assert ApprovedGlyph in AllGlyphs;
    if i :| 0 <= i < |ds| && ApprovedGlyph in ds[i].cells {
      var d := ds[i];
      assert d in ds;
      var j :| 0 <= j < |d.cells| && d.cells[j] == ApprovedGlyph;
      FilledIsPositive(d.cells);
      assert d in kept;
      assert Shown(ApprovedGlyph, kept);
    }
    if ApprovedGlyph in gs {
      var d :| d in kept && ApprovedGlyph in d.cells;
      var i :| 0 <= i < |ds| && ds[i] == d;
    }
  }

  /** `row` shows draft `d` with its summary. */
  predicate Shows(row: Row, d: Draft)
  {
    row.id == d.id && row.title == d.title && row.updatedAt == d.updatedAt && row.cells == d.cells
  }

  /** The ordered rows are the summarised kept drafts. */
  lemma SortedRowsAreKept(kept: seq<Draft>, gs: seq<string>, rows: seq<Row>, sorted: seq<Row>)
    requires StringOrder.StrictlySorted(gs) && "" !in gs
    requires forall d, j :: d in kept && 0 <= j < |d.cells| && d.cells[j] != "" ==> d.cells[j] in gs
    requires rows == Rows(kept, gs) && multiset(sorted) == multiset(rows)
    ensures forall row :: row in sorted ==> exists k :: 0 <= k < |kept| && row == MakeRow(kept[k], gs)
    ensures forall k :: 0 <= k < |kept| ==> MakeRow(kept[k], gs) in sorted
  {
    forall row | row in sorted ensures exists k :: 0 <= k < |kept| && row == MakeRow(kept[k], gs) {
      assert row in multiset(rows);
      var k :| 0 <= k < |rows| && rows[k] == row;
    }
    forall k | 0 <= k < |kept| ensures MakeRow(kept[k], gs) in sorted {
      assert rows[k] in multiset(sorted);
    }
  }

  lemma RowsComeFromDrafts(ds: seq<Draft>, kept: seq<Draft>, gs: seq<string>, sorted: seq<Row>)
    requires forall d :: d in kept ==> d in ds
    requires StringOrder.StrictlySorted(gs) && "" !in gs
    requires forall d, j :: d in kept && 0 <= j < |d.cells| && d.cells[j] != "" ==> d.cells[j] in gs
    requires forall row :: row in sorted ==> exists k :: 0 <= k < |kept| && row == MakeRow(kept[k], gs)
    ensures forall row :: row in sorted ==> exists i :: 0 <= i < |ds| && Shows(row, ds[i])
  {
    forall row | row in sorted ensures exists i :: 0 <= i < |ds| && Shows(row, ds[i]) {
      var k :| 0 <= k < |kept| && row == MakeRow(kept[k], gs);
      assert kept[k] in kept;
      var i :| 0 <= i < |ds| && ds[i] == kept[k];
      assert Shows(row, ds[i]);
    }
  }

  lemma ReviewedDraftsAreShown(ds: seq<Draft>, kept: seq<Draft>, gs: seq<string>, sorted: seq<Row>)
    requires forall d :: d in ds && Filled(d.cells) > 0 ==> d in kept
    requires StringOrder.StrictlySorted(gs) && "" !in gs
    requires forall d, j :: d in kept && 0 <= j < |d.cells| && d.cells[j] != "" ==> d.cells[j] in gs
    requires forall k :: 0 <= k < |kept| ==> MakeRow(kept[k], gs) in sorted
    ensures forall i :: 0 <= i < |ds| && Filled(ds[i].cells) > 0 ==> exists row :: row in sorted && Shows(row, ds[i])
  {
    forall i | 0 <= i < |ds| && Filled(ds[i].cells) > 0 ensures exists row :: row in sorted && Shows(row, ds[i]) {
      assert ds[i] in ds;
      var k :| 0 <= k < |kept| && kept[k] == ds[i];
      assert Shows(MakeRow(kept[k], gs), ds[i]);
    }
  }

  lemma RowSummaries(kept: seq<Draft>, gs: seq<string>, sorted: seq<Row>)
    requires forall d :: d in kept ==> Filled(d.cells) > 0
    requires StringOrder.StrictlySorted(gs) && "" !in gs
    requires forall d, j :: d in kept && 0 <= j < |d.cells| && d.cells[j] != "" ==> d.cells[j] in gs
    requires forall row :: row in sorted ==> exists k :: 0 <= k < |kept| && row == MakeRow(kept[k], gs)
    ensures forall row :: row in sorted ==>
      && row.total == Filled(row.cells) > 0
      && |row.counts| == |gs|
      && forall k :: 0 <= k < |gs| ==> row.counts[k] == Count(row.cells, gs[k])
  {
    forall row | row in sorted ensures row.total == Filled(row.cells) > 0 {
      var k :| 0 <= k < |kept| && row == MakeRow(kept[k], gs);
      assert kept[k] in kept;
    }
  }

  lemma GlyphColumnsOfRows(kept: seq<Draft>, gs: seq<string>, sorted: seq<Row>)
    requires gs == GlyphColumns(kept)
    requires StringOrder.StrictlySorted(gs) && "" !in gs
    requires forall d, j :: d in kept && 0 <= j < |d.cells| && d.cells[j] != "" ==> d.cells[j] in gs
    requires forall row :: row in sorted ==> exists k :: 0 <= k < |kept| && row == MakeRow(kept[k], gs)
    requires forall k :: 0 <= k < |kept| ==> MakeRow(kept[k], gs) in sorted
    ensures forall g :: g in gs <==> g in AllGlyphs && exists row :: row in sorted && g in row.cells
  {
    forall g | g in gs ensures exists row :: row in sorted && g in row.cells {
      var d :| d in kept && g in d.cells;
      var k :| 0 <= k < |kept| && kept[k] == d;
      assert MakeRow(kept[k], gs).cells == d.cells;
    }
    forall g | g in AllGlyphs && (exists row :: row in sorted && g in row.cells) ensures g in gs {
      var row :| row in sorted && g in row.cells;
      var k :| 0 <= k < |kept| && row == MakeRow(kept[k], gs);
      assert kept[k] in kept;
      assert Shown(g, kept);
    }
  }
}
