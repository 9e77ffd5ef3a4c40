/**
 * The input records of `make_reviewer_matrix` and the long-form table it builds
 * from them (reviewer-matrix.py:103-115), and the per-(request, login) reduction
 * `set_index("url").astype(review_state_dtype).groupby(level=0).max()`
 * (reviewer-matrix.py:117-119).
 */
module ReviewRecords {
  import opened Wrappers
  import opened ReviewStatus

  /** One submitted review: the reviewer's login and the raw state string of the hosting API. */
  datatype Review = Review(login: string, state: string)

  /** One open pull request as fetched: its API URL, title, last-update stamp, author and reviewers. */
  datatype PullRequest = PullRequest(
    url: string,
    title: string,
    updatedAt: string,
    author: string,
    requestedReviewers: seq<string>,
    reviews: seq<Review>)

  /**
   * One row of the long-form table: the request's URL (None for the rows built
   * from requested reviewers, which carry no "url" key), a login and a raw state.
   */
  datatype Entry = Entry(url: Option<string>, login: string, state: string)

  /** A cell address of the grouped table: (request URL, login). */
  type Key = (string, string)

  /** The entries of one request's reviews: one per review, in review order. */
  function ReviewsOf(p: PullRequest): (es: seq<Entry>)
    ensures |es| == |p.reviews|
    ensures forall k :: 0 <= k < |es| ==> es[k] == Entry(Some(p.url), p.reviews[k].login, p.reviews[k].state)
    ensures forall e :: e in es <==> exists rv :: rv in p.reviews && e == Entry(Some(p.url), rv.login, rv.state)
  {
    var es := seq(|p.reviews|, k requires 0 <= k < |p.reviews| => Entry(Some(p.url), p.reviews[k].login, p.reviews[k].state));
    assert forall rv :: rv in p.reviews ==> Entry(Some(p.url), rv.login, rv.state) in es by {
      forall rv | rv in p.reviews ensures Entry(Some(p.url), rv.login, rv.state) in es {
        var k :| 0 <= k < |p.reviews| && p.reviews[k] == rv;
        assert es[k] == Entry(Some(p.url), rv.login, rv.state);
      }
    }
    assert forall e :: e in es ==> exists rv :: rv in p.reviews && e == Entry(Some(p.url), rv.login, rv.state) by {
      forall e | e in es ensures exists rv :: rv in p.reviews && e == Entry(Some(p.url), rv.login, rv.state) {
        var k :| 0 <= k < |es| && es[k] == e;
        assert p.reviews[k] in p.reviews;
      }
    }
    es
  }

  /** One entry per submitted review, carrying the review's own state. */
  function ReviewEntries(prs: seq<PullRequest>): (es: seq<Entry>)
    ensures forall e :: e in es <==>
      exists i, rv :: 0 <= i < |prs| && rv in prs[i].reviews && e == Entry(Some(prs[i].url), rv.login, rv.state)
  {
    if prs == [] then []
    else
      var rest := ReviewEntries(prs[1..]);
      assert forall e :: e in rest <==>
        exists i, rv :: 1 <= i < |prs| && rv in prs[i].reviews && e == Entry(Some(prs[i].url), rv.login, rv.state) by {
        forall e ensures e in rest ==>
          exists i, rv :: 1 <= i < |prs| && rv in prs[i].reviews && e == Entry(Some(prs[i].url), rv.login, rv.state) {
          if e in rest {
            var i, rv :| 0 <= i < |prs[1..]| && rv in prs[1..][i].reviews && e == Entry(Some(prs[1..][i].url), rv.login, rv.state);
            assert prs[1..][i] == prs[i + 1];
          }
        }
        forall e, i, rv | 1 <= i < |prs| && rv in prs[i].reviews && e == Entry(Some(prs[i].url), rv.login, rv.state)
          ensures e in rest {
          assert prs[1..][i - 1] == prs[i];
        }
      }
      ReviewsOf(prs[0]) + rest
  }

  /**
   * The review entries list the requests' reviews in request order: those of
   * the last request come after all the others.
   */
  lemma {:induction false} ReviewEntriesInOrder(prs: seq<PullRequest>, p: PullRequest)
    ensures ReviewEntries(prs + [p]) == ReviewEntries(prs) + ReviewsOf(p)
  {
    if prs == [] {
      assert ReviewEntries([p]) == ReviewsOf(p) + ReviewEntries([]);
    } else {
      assert (prs + [p])[1..] == prs[1..] + [p];
      ReviewEntriesInOrder(prs[1..], p);
    }
  }

  /** One entry per request for its author, with the state "AUTHOR". */
  function AuthorEntries(prs: seq<PullRequest>): (es: seq<Entry>)
    ensures |es| == |prs|
    ensures forall i :: 0 <= i < |prs| ==> es[i] == Entry(Some(prs[i].url), prs[i].author, "AUTHOR")
  {
    seq(|prs|, i requires 0 <= i < |prs| => Entry(Some(prs[i].url), prs[i].author, "AUTHOR"))
  }

  /** `login` is a requested reviewer of some request. */
  predicate RequestedAnywhere(prs: seq<PullRequest>, login: string)
  {
    exists i :: 0 <= i < |prs| && login in prs[i].requestedReviewers
  }

  /** One entry per requested reviewer, with the state "REQUESTED" and no URL. */
  function RequestEntries(prs: seq<PullRequest>): (es: seq<Entry>)
    ensures forall e :: e in es <==> e.url == None && e.state == "REQUESTED" && RequestedAnywhere(prs, e.login)
  {
    if prs == [] then []
    else
      var here := seq(|prs[0].requestedReviewers|,
        k requires 0 <= k < |prs[0].requestedReviewers| => Entry(None, prs[0].requestedReviewers[k], "REQUESTED"));
      var rest := RequestEntries(prs[1..]);
      assert forall l :: RequestedAnywhere(prs, l) <==> l in prs[0].requestedReviewers || RequestedAnywhere(prs[1..], l) by {
        forall l ensures RequestedAnywhere(prs[1..], l) ==> RequestedAnywhere(prs, l) {
          if i :| 0 <= i < |prs[1..]| && l in prs[1..][i].requestedReviewers {
            assert prs[1..][i] == prs[i + 1];
          }
        }
        forall l | RequestedAnywhere(prs, l) && l !in prs[0].requestedReviewers ensures RequestedAnywhere(prs[1..], l) {
          var i :| 0 <= i < |prs| && l in prs[i].requestedReviewers;
          assert prs[1..][i - 1] == prs[i];
        }
      }
      assert forall e :: e in here <==> e.url == None && e.state == "REQUESTED" && e.login in prs[0].requestedReviewers by {
        forall e: Entry | e.url == None && e.state == "REQUESTED" && e.login in prs[0].requestedReviewers ensures e in here {
          var k :| 0 <= k < |prs[0].requestedReviewers| && prs[0].requestedReviewers[k] == e.login;
          assert here[k] == e;
        }
      }
      here + rest
  }

  /** The long-form table: reviews, then authors, then requested reviewers. */
  function Entries(prs: seq<PullRequest>): seq<Entry>
  {
    ReviewEntries(prs) + AuthorEntries(prs) + RequestEntries(prs)
  }

  /**
   * What an entry contributes to cell `k` after the categorical cast and the
   * grouping on "url": nothing unless it has that URL and login and a state
   * among the five categories.
   */
  function StatusFor(e: Entry, k: Key): Option<Status>
  {
    if e.url == Some(k.0) && e.login == k.1 then ParseState(e.state) else None
  }

  /** Some entry of `es` gives category `s` to cell `k`. */
  predicate Contributes(es: seq<Entry>, k: Key, s: Status)
  {
    exists e :: e in es && StatusFor(e, k) == Some(s)
  }

  lemma ContributesSnoc(init: seq<Entry>, e: Entry, k: Key, s: Status)
    ensures Contributes(init + [e], k, s) <==> Contributes(init, k, s) || StatusFor(e, k) == Some(s)
  {
    if Contributes(init + [e], k, s) {
      var x :| x in init + [e] && StatusFor(x, k) == Some(s);
      if x != e { assert x in init; }
    }
    if Contributes(init, k, s) {
      var x :| x in init && StatusFor(x, k) == Some(s);
      assert x in init + [e];
    }
    if StatusFor(e, k) == Some(s) {
      assert e in init + [e];
    }
  }

  /**
   * Cell `k` of `r` is grouped from `es`: it is present exactly when some
   * entry contributes to it, and then holds the greatest category contributed.
   */
  ghost predicate ResolvesCell(es: seq<Entry>, r: map<Key, Status>, k: Key)
  {
    && (k in r <==> exists s :: Contributes(es, k, s))
    && (k in r ==> Contributes(es, k, r[k]))
    && (forall s :: k in r && Contributes(es, k, s) ==> Rank(s) <= Rank(r[k]))
  }

  /** `r` is the grouped table of `es`. */
  ghost predicate IsResolution(es: seq<Entry>, r: map<Key, Status>)
  {
    forall k :: ResolvesCell(es, r, k)
  }

  /** Folds one more entry into a grouped table. */
  function Absorb(r: map<Key, Status>, e: Entry): map<Key, Status>
  {
    if e.url.Some? && ParseState(e.state).Some? then
      var k := (e.url.value, e.login);
      var s := ParseState(e.state).value;
      r[k := if k in r then Max(r[k], s) else s]
    else r
  }

  /** Absorbing `e` changes at most the cell `e` contributes to, and keeps the greatest category there. */
  lemma AbsorbAt(init: seq<Entry>, e: Entry, rest: map<Key, Status>, k: Key)
    requires ResolvesCell(init, rest, k)
    ensures ResolvesCell(init + [e], Absorb(rest, e), k)
  {
    var es := init + [e];
    var r := Absorb(rest, e);
    forall s ensures Contributes(es, k, s) <==> Contributes(init, k, s) || StatusFor(e, k) == Some(s) {
      ContributesSnoc(init, e, k, s);
    }
    if StatusFor(e, k).Some? {
      var s := StatusFor(e, k).value;
      assert k == (e.url.value, e.login) && ParseState(e.state) == Some(s);
      assert k in r;
      assert Contributes(es, k, s);
      if k in rest {
        assert Contributes(es, k, rest[k]);
      }
    } else {
      assert r == rest || k != (e.url.value, e.login);
      assert k in r <==> k in rest;
      if k in rest {
        assert r[k] == rest[k];
        assert Contributes(es, k, rest[k]);
      }
    }
  }

  lemma AbsorbKeepsResolution(init: seq<Entry>, e: Entry, rest: map<Key, Status>)
    requires IsResolution(init, rest)
    ensures IsResolution(init + [e], Absorb(rest, e))
  {
    forall k ensures ResolvesCell(init + [e], Absorb(rest, e), k) {
      AbsorbAt(init, e, rest, k);
    }
  }

  /** The grouped table: the entries folded in one at a time. */
  function Resolve(es: seq<Entry>): map<Key, Status>
  {
    if es == [] then map[]
    else Absorb(Resolve(es[..|es| - 1]), es[|es| - 1])
  }

  /**
   * In the grouped table each cell holds the greatest category among the
   * entries that contribute to it, and a cell nothing contributes to is absent.
   */
  lemma {:induction false} ResolveIsResolution(es: seq<Entry>)
    ensures IsResolution(es, Resolve(es))
  {
    if es != [] {
      var init := es[..|es| - 1];
      assert es == init + [es[|es| - 1]];
      ResolveIsResolution(init);
      AbsorbKeepsResolution(init, es[|es| - 1], Resolve(init));
    }
  }

  /** The set of categories a pull request's own records give `login`: its valid review states, and AUTHOR for the author. */
  ghost function Statuses(p: PullRequest, login: string): set<Status>
  {
    (set rv | rv in p.reviews && rv.login == login && ParseState(rv.state).Some? :: ParseState(rv.state).value)
    + (if p.author == login then {Author} else {})
  }

  predicate UniqueUrls(prs: seq<PullRequest>)
  {
    forall i, j :: 0 <= i < j < |prs| ==> prs[i].url != prs[j].url
  }

  /** The entries that contribute to the cells of request `i` are exactly that request's reviews and authorship. */
  lemma ContributionsOfRequest(prs: seq<PullRequest>, i: nat, login: string, s: Status)
    requires UniqueUrls(prs) && i < |prs|
    ensures Contributes(Entries(prs), (prs[i].url, login), s) <==> s in Statuses(prs[i], login)
  {
    if Contributes(Entries(prs), (prs[i].url, login), s) {
      ContributorIsOwn(prs, i, login, s);
    }
    if s in Statuses(prs[i], login) {
      OwnContributes(prs, i, login, s);
    }
  }

  lemma ContributorIsOwn(prs: seq<PullRequest>, i: nat, login: string, s: Status)
    requires UniqueUrls(prs) && i < |prs|
    requires Contributes(Entries(prs), (prs[i].url, login), s)
    ensures s in Statuses(prs[i], login)
  {
    var k := (prs[i].url, login);
    var e :| e in Entries(prs) && StatusFor(e, k) == Some(s);
    if e in ReviewEntries(prs) {
      var i', rv :| 0 <= i' < |prs| && rv in prs[i'].reviews && e == Entry(Some(prs[i'].url), rv.login, rv.state);
      assert i' == i;
    } else if e in AuthorEntries(prs) {
      var i' :| 0 <= i' < |prs| && AuthorEntries(prs)[i'] == e;
      assert i' == i;
    }
  }

  lemma OwnContributes(prs: seq<PullRequest>, i: nat, login: string, s: Status)
    requires i < |prs|
    requires s in Statuses(prs[i], login)
    ensures Contributes(Entries(prs), (prs[i].url, login), s)
  {
    var k := (prs[i].url, login);
    if prs[i].author == login && s == Author {
      assert AuthorEntries(prs)[i] in Entries(prs);
      assert StatusFor(AuthorEntries(prs)[i], k) == Some(s);
    } else {
      var rv :| rv in prs[i].reviews && rv.login == login && ParseState(rv.state) == Some(s);
      var e := Entry(Some(prs[i].url), rv.login, rv.state);
      assert e in ReviewEntries(prs);
      assert e in Entries(prs) && StatusFor(e, k) == Some(s);
    }
  }

  /**
   * The resolved cell of request `i` and `login` is the greatest of the
   * categories that request's records give that login, and is absent when
   * there is none.
   */
  lemma CellIsStrongest(prs: seq<PullRequest>, i: nat, login: string)
    requires UniqueUrls(prs) && i < |prs|
    ensures var r := Resolve(Entries(prs)); var k := (prs[i].url, login);
      && (k in r <==> Statuses(prs[i], login) != {})
      && (k in r ==> r[k] in Statuses(prs[i], login))
      && (k in r ==> forall s :: s in Statuses(prs[i], login) ==> Rank(s) <= Rank(r[k]))
  {
    var r := Resolve(Entries(prs));
    var k := (prs[i].url, login);
    var es := Entries(prs);
    ResolveIsResolution(es);
    assert ResolvesCell(es, r, k);
    if k in r {
      var e :| e in es && StatusFor(e, k) == Some(r[k]);
      ContributionsOfRequest(prs, i, login, r[k]);
      forall s | s in Statuses(prs[i], login) ensures Rank(s) <= Rank(r[k]) {
        ContributionsOfRequest(prs, i, login, s);
      }
    } else if s :| s in Statuses(prs[i], login) {
      ContributionsOfRequest(prs, i, login, s);
    }
  }

  /** The author's own cell on their request is AUTHOR, whatever else that login left on it. */
  lemma {:induction false} AuthorCellIsAuthor(prs: seq<PullRequest>, i: nat)
    requires i < |prs|
    ensures var r := Resolve(Entries(prs)); var k := (prs[i].url, prs[i].author);
      k in r && r[k] == Author
  {
    var r := Resolve(Entries(prs));
    var k := (prs[i].url, prs[i].author);
    ResolveIsResolution(Entries(prs));
    assert ResolvesCell(Entries(prs), r, k);
    var e := AuthorEntries(prs)[i];
    assert e in Entries(prs);
    assert StatusFor(e, k) == Some(Author);
    assert Contributes(Entries(prs), k, Author);
    AuthorIsGreatest(r[k]);
  }

  /** The same requests with no requested reviewers. */
  function WithoutRequests(prs: seq<PullRequest>): (r: seq<PullRequest>)
    ensures |r| == |prs|
    ensures forall i :: 0 <= i < |prs| ==> r[i] == prs[i].(requestedReviewers := [])
  {
    seq(|prs|, i requires 0 <= i < |prs| => prs[i].(requestedReviewers := []))
  }

  /** Two entry tables whose entries contribute the same categories resolve to the same cells. */
  lemma ResolveDependsOnContributions(a: seq<Entry>, b: seq<Entry>)
    requires forall k, s :: Contributes(a, k, s) <==> Contributes(b, k, s)
    ensures Resolve(a) == Resolve(b)
  {
    ResolveIsResolution(a);
    ResolveIsResolution(b);
    ResolutionsAgree(a, b, Resolve(a), Resolve(b));
  }

  /** A resolution is determined by the contributions: tables with the same contributions have the same resolution. */
  lemma ResolutionsAgree(a: seq<Entry>, b: seq<Entry>, ra: map<Key, Status>, rb: map<Key, Status>)
    requires forall k, s :: Contributes(a, k, s) <==> Contributes(b, k, s)
    requires IsResolution(a, ra) && IsResolution(b, rb)
    ensures ra == rb
  {
    forall k ensures (k in ra <==> k in rb) && (k in ra ==> ra[k] == rb[k]) {
      ResolutionsAgreeAt(a, b, ra, rb, k);
    }
  }

  /** Cells with the same contributions in two tables resolve alike. */
  lemma ResolutionsAgreeAt(a: seq<Entry>, b: seq<Entry>, ra: map<Key, Status>, rb: map<Key, Status>, k: Key)
    requires forall s :: Contributes(a, k, s) <==> Contributes(b, k, s)
    requires ResolvesCell(a, ra, k) && ResolvesCell(b, rb, k)
    ensures k in ra <==> k in rb
    ensures k in ra ==> ra[k] == rb[k]
  {
    if k in ra {
      assert Contributes(b, k, ra[k]);
      assert Contributes(a, k, rb[k]);
      RankInjective(ra[k], rb[k]);
    }
    if k in rb {
      assert Contributes(a, k, rb[k]);
    }
  }

  /** Entries built from requested reviewers contribute to no cell. */
  lemma RequestEntriesContributeNothing(prs: seq<PullRequest>, k: Key, s: Status)
    ensures Contributes(Entries(prs), k, s) <==> Contributes(ReviewEntries(prs) + AuthorEntries(prs), k, s)
  {
    var head := ReviewEntries(prs) + AuthorEntries(prs);
    if Contributes(Entries(prs), k, s) {
      var e :| e in Entries(prs) && StatusFor(e, k) == Some(s);
      assert e.url.Some?;
      assert e !in RequestEntries(prs);
      assert e in head;
    }
    if Contributes(head, k, s) {
      var e :| e in head && StatusFor(e, k) == Some(s);
      assert e in Entries(prs);
    }
  }

  /**
   * Requested-reviewer entries carry no URL, so the grouping drops them:
   * the resolved cells are those of the same requests with no requested reviewers.
   */
  lemma RequestedReviewersAddNoCell(prs: seq<PullRequest>)
    ensures Resolve(Entries(prs)) == Resolve(Entries(WithoutRequests(prs)))
  {
    var bare := WithoutRequests(prs);
    ReviewEntriesSameRecords(prs, bare);
    assert AuthorEntries(bare) == AuthorEntries(prs);
    forall k, s ensures Contributes(Entries(prs), k, s) <==> Contributes(Entries(bare), k, s) {
      RequestEntriesContributeNothing(prs, k, s);
      RequestEntriesContributeNothing(bare, k, s);
    }
    ResolveDependsOnContributions(Entries(prs), Entries(bare));
  }

  /** Review entries only see each request's URL and reviews. */
  lemma {:induction false} ReviewEntriesSameRecords(a: seq<PullRequest>, b: seq<PullRequest>)
    requires |a| == |b|
    requires forall i :: 0 <= i < |a| ==> a[i].url == b[i].url && a[i].reviews == b[i].reviews
    ensures ReviewEntries(a) == ReviewEntries(b)
  {
    if a != [] {
      ReviewEntriesSameRecords(a[1..], b[1..]);
      assert ReviewsOf(a[0]) == ReviewsOf(b[0]);
    }
  }
}
