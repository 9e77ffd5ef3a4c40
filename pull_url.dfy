/**
 * The two string maps around the matrix: the row id that
 * `re.search("https://api.github.com/repos/(.*)/pulls/([0-9]+)", url)` and
 * `"#".join(...groups())` derive from a pull request's API URL, and the
 * hyperlink `"https://github.com/" + "/pull/".join(id.split("#"))` written
 * for a non-empty id cell of the spreadsheet.
 *
 * The regular expression is modelled with Python's `re.search` semantics:
 * the leftmost start position wins, `(.*)` is greedy and cannot cross a
 * newline, every `.` of the literal part is a wildcard, and `([0-9]+)`
 * takes the longest run of ASCII digits.
 */
module PullUrl {
  import opened Wrappers

  /** The pattern up to the first group; each '.' in it is a wildcard. */
  const Head: string := "https://api.github.com/repos/"
  /** The literal between the two groups. */
  const Tail: string := "/pulls/"

  predicate IsDigit(c: char)
  {
    '0' <= c <= '9'
  }

  predicate AllDigits(t: string)
  {
    forall k :: 0 <= k < |t| ==> IsDigit(t[k])
  }

  predicate NoNewline(t: string)
  {
    forall k :: 0 <= k < |t| ==> t[k] != '\n'
  }

  /** One pattern character against one input character; `.` matches anything but a newline. */
  predicate CharMatches(p: char, c: char)
  {
    if p == '.' then c != '\n' else c == p
  }

  /** The literal part of the pattern from its `k`-th character on matches `s` from position `i + k`. */
  predicate HeadFrom(s: string, i: nat, k: nat)
    requires i + |Head| <= |s|
    decreases |Head| - k
  {
    k >= |Head| || (CharMatches(Head[k], s[i + k]) && HeadFrom(s, i, k + 1))
  }

  /** The literal part of the pattern matches `s` from position `i`. */
  predicate HeadAt(s: string, i: nat)
  {
    i + |Head| <= |s| && HeadFrom(s, i, 0)
  }

  /** The literal part of the pattern matches its own text, wherever that text occurs. */
  lemma {:induction false} HeadMatchesItself(s: string, i: nat, k: nat)
    requires i + |Head| <= |s| && s[i..i + |Head|] == Head
    ensures HeadFrom(s, i, k)
    decreases |Head| - k
  {
    if k < |Head| {
      assert s[i + k] == s[i..i + |Head|][k];
      HeadMatchesItself(s, i, k + 1);
    }
  }

  /** `/pulls/` followed by at least one digit starts at position `j`. */
  predicate TailAt(s: string, j: nat)
  {
    j + |Tail| < |s| && s[j..j + |Tail|] == Tail && IsDigit(s[j + |Tail|])
  }

  /** The whole pattern matches from `i`, with the first group ending at `j`. */
  predicate MatchAt(s: string, i: nat, j: nat)
  {
    HeadAt(s, i) && i + |Head| <= j && TailAt(s, j) && NoNewline(s[i + |Head|..j])
  }

  /** The match `re.search` reports: the leftmost start, and for it the longest first group. */
  ghost predicate FirstLongestMatch(s: string, i: nat, j: nat)
  {
    && MatchAt(s, i, j)
    && forall i': nat, j': nat :: MatchAt(s, i', j') ==> i <= i' && (i' == i ==> j' <= j)
  }

  /** The end of the line that contains position `k`: how far `.*` can reach from `k`. */
  function LineEnd(s: string, k: nat): (e: nat)
    requires k <= |s|
    ensures k <= e <= |s|
    ensures NoNewline(s[k..e])
    ensures e < |s| ==> s[e] == '\n'
    decreases |s| - k
  {
    if k == |s| || s[k] == '\n' then k else LineEnd(s, k + 1)
  }

  lemma NoNewlineUpTo(s: string, b: nat, j: nat)
    requires b <= j <= |s|
    ensures NoNewline(s[b..j]) <==> j <= LineEnd(s, b)
  {
    var e := LineEnd(s, b);
    if j <= e {
      assert forall k :: 0 <= k < j - b ==> s[b..j][k] == s[b..e][k];
    } else {
      assert s[b..j][e - b] == '\n';
    }
  }

  /** Backtracking of the greedy `(.*)`: the largest `j` in `[b, top]` at which the rest of the pattern matches. */
  function LastTail(s: string, b: nat, top: nat): (r: Option<nat>)
    requires b <= top <= |s|
    ensures r.Some? ==> b <= r.value <= top && TailAt(s, r.value)
    ensures r.Some? ==> forall j :: r.value < j <= top ==> !TailAt(s, j)
    ensures r.None? ==> forall j :: b <= j <= top ==> !TailAt(s, j)
    decreases top - b
  {
    if TailAt(s, top) then Some(top)
    else if top == b then None
    else LastTail(s, b, top - 1)
  }

  /**
   * The match starting at `i`, if any: the end of its first group, found by
   * letting `(.*)` run to the end of the line and backtracking.
   */
  function MatchHere(s: string, i: nat): (r: Option<nat>)
    ensures r.Some? ==> i + |Head| <= r.value && r.value + |Tail| < |s|
  {
    if i + |Head| <= |s| && HeadAt(s, i) then
      var b := i + |Head|;
      var last := LastTail(s, b, LineEnd(s, b));
      last
    else None
  }

  /** The first start `p` in `[i, end)` at which `matchAt` finds a match, with what it finds there. */
  function FirstFound(matchAt: nat -> Option<nat>, i: nat, end: int): Option<(nat, nat)>
    decreases end - i
  {
    if end <= i then None
    else
      match matchAt(i)
      case Some(j) => Some((i, j))
      case None => FirstFound(matchAt, i + 1, end)
  }

  /** What `FirstFound` reports is a match, and nothing before it is one. */
  lemma {:induction false} FirstFoundIsFirst(matchAt: nat -> Option<nat>, i: nat, end: int, m: nat, n: nat)
    requires FirstFound(matchAt, i, end) == Some((m, n))
    ensures i <= m < end && matchAt(m) == Some(n)
    ensures forall p :: i <= p < m ==> matchAt(p).None?
    decreases end - i
  {
    if matchAt(i).None? {
      FirstFoundIsFirst(matchAt, i + 1, end, m, n);
    }
  }

  /** `FirstFound` reports nothing only when nothing in `[i, end)` is a match. */
  lemma {:induction false} FirstFoundNone(matchAt: nat -> Option<nat>, i: nat, end: int)
    requires FirstFound(matchAt, i, end).None?
    ensures forall p :: i <= p < end ==> matchAt(p).None?
    decreases end - i
  {
    if i < end {
      FirstFoundNone(matchAt, i + 1, end);
    }
  }

  /** `MatchHere` on `s`, as a function of the start. */
  function Matcher(s: string): nat -> Option<nat>
  {
    p => MatchHere(s, p)
  }

  /**
   * `re.search` from start position `i` onwards: the start and the end of the
   * first group. Starts too close to the end of `s` for the literal part are
   * not tried.
   */
  function Search(s: string, i: nat): (r: Option<(nat, nat)>)
    ensures r.Some? ==> i <= r.value.0 && MatchHere(s, r.value.0) == Some(r.value.1)
  {
    var r := FirstFound(Matcher(s), i, |s| - |Head| + 1);
    if r.Some? then FirstFoundIsFirst(Matcher(s), i, |s| - |Head| + 1, r.value.0, r.value.1); r else r
  }

  /** No match of the pattern starts at or after `i`. */
  ghost predicate NoMatchFrom(s: string, i: nat)
  {
    forall i': nat, j': nat :: i <= i' ==> !MatchAt(s, i', j')
  }

  /** Every match at or after `i` starts at or after `m`, and one starting at `m` has its first group end by `n`. */
  ghost predicate LongestFrom(s: string, i: nat, m: nat, n: nat)
  {
    forall i': nat, j': nat :: i <= i' && MatchAt(s, i', j') ==> m <= i' && (i' == m ==> j' <= n)
  }

  /**
   * `MatchHere` finds the longest first group of the matches that start at
   * `i`, and finds none exactly when no match starts there.
   */
  lemma LongestAt(s: string, i: nat)
    ensures MatchHere(s, i).Some? ==> MatchAt(s, i, MatchHere(s, i).value)
    ensures MatchHere(s, i).Some? ==> forall j: nat :: MatchAt(s, i, j) ==> j <= MatchHere(s, i).value
    ensures MatchHere(s, i).None? ==> forall j: nat :: !MatchAt(s, i, j)
  {
    if i + |Head| <= |s| {
      var b := i + |Head|;
      forall j: nat | MatchAt(s, i, j) ensures j <= LineEnd(s, b) {
        NoNewlineUpTo(s, b, j);
      }
      if MatchHere(s, i).Some? {
        NoNewlineUpTo(s, b, MatchHere(s, i).value);
      }
    }
  }

  /**
   * A match `Search` reports from `i` is the leftmost one at or after `i` and,
   * for that start, has the longest first group.
   */
  lemma SearchIsLeftmostLongest(s: string, i: nat, m: nat, n: nat)
    requires Search(s, i) == Some((m, n))
    ensures MatchAt(s, m, n) && LongestFrom(s, i, m, n)
  {
    FirstFoundIsFirst(Matcher(s), i, |s| - |Head| + 1, m, n);
    forall p | i <= p < m ensures MatchHere(s, p).None? {
      assert Matcher(s)(p) == MatchHere(s, p);
    }
    LongestAfterSkips(s, i, m, n);
  }

  lemma LongestAfterSkips(s: string, i: nat, m: nat, n: nat)
    requires i <= m && MatchHere(s, m) == Some(n)
    requires forall p :: i <= p < m ==> MatchHere(s, p).None?
    ensures MatchAt(s, m, n) && LongestFrom(s, i, m, n)
  {
    LongestAt(s, m);
    forall i': nat, j': nat | i <= i' && MatchAt(s, i', j') ensures m <= i' && (i' == m ==> j' <= n) {
      LongestAt(s, i');
    }
  }

  /** `Search` reports no match from `i` only when the pattern matches nowhere at or after `i`. */
  lemma SearchNoneIsNoMatch(s: string, i: nat)
    requires Search(s, i).None?
    ensures NoMatchFrom(s, i)
  {
    FirstFoundNone(Matcher(s), i, |s| - |Head| + 1);
    forall p | i <= p < |s| - |Head| + 1 ensures MatchHere(s, p).None? {
      assert Matcher(s)(p) == MatchHere(s, p);
    }
    NoMatchAfterSkips(s, i);
  }

  lemma NoMatchAfterSkips(s: string, i: nat)
    requires forall p :: i <= p < |s| - |Head| + 1 ==> MatchHere(s, p).None?
    ensures NoMatchFrom(s, i)
  {
    forall i': nat, j': nat | i <= i' ensures !MatchAt(s, i', j') {
      LongestAt(s, i');
    }
  }

  /** The end of the run of digits that starts at `k`. */
  function DigitsEnd(s: string, k: nat): (e: nat)
    requires k <= |s|
    ensures k <= e <= |s|
    ensures AllDigits(s[k..e])
    ensures e < |s| ==> !IsDigit(s[e])
    decreases |s| - k
  {
    if k < |s| && IsDigit(s[k]) then DigitsEnd(s, k + 1) else k
  }

  /** The two groups of the match starting at `i` whose first group ends at `j`, joined by '#'. */
  function GroupsJoined(s: string, i: nat, j: nat): string
    requires i + |Head| <= j && j + |Tail| <= |s|
  {
    s[i + |Head|..j] + "#" + s[j + |Tail|..DigitsEnd(s, j + |Tail|)]
  }

  /**
   * The row id of a request: the two groups of the reported match joined by
   * '#', or None when the pattern occurs nowhere in `url` (where the source
   * calls `.groups()` on None and fails).
   */
  function ExtractId(url: string): Option<string>
  {
    match Search(url, 0)
    case None => None
    case Some((i, j)) => Some(GroupsJoined(url, i, j))
  }

  /**
   * `ExtractId` fails exactly when the pattern matches nowhere, and otherwise
   * joins the groups of the leftmost match with the longest first group.
   */
  lemma ExtractIdMatches(url: string)
    ensures ExtractId(url).None? <==> forall i: nat, j: nat :: !MatchAt(url, i, j)
    ensures ExtractId(url).Some? ==>
      exists i: nat, j: nat :: FirstLongestMatch(url, i, j) && ExtractId(url).value == GroupsJoined(url, i, j)
  {
    if Search(url, 0).Some? {
      var (i, j) := Search(url, 0).value;
      SearchIsLeftmostLongest(url, 0, i, j);
      assert FirstLongestMatch(url, i, j);
    } else {
      SearchNoneIsNoMatch(url, 0);
    }
  }

  /** The pull-request URL the hosting API returns for repository path `path` and number `number`. */
  function ApiUrl(path: string, number: string): string
  {
    Head + path + Tail + number
  }

  /** The web page of the same pull request. */
  function WebUrl(path: string, number: string): string
  {
    "https://github.com/" + path + "/pull/" + number
  }

  /** The pattern matches an API URL from its first character, with the first group ending after `path`. */
  lemma ApiUrlMatches(path: string, number: string)
    requires NoNewline(path)
    requires number != [] && AllDigits(number)
    ensures MatchAt(ApiUrl(path, number), 0, |Head| + |path|)
  {
    var s := ApiUrl(path, number);
    var j0 := |Head| + |path|;
    assert s[0..|Head|] == Head;
    assert s[|Head|..j0] == path;
    assert s[j0..j0 + |Tail|] == Tail;
    HeadMatchesItself(s, 0, 0);
    assert s[j0 + |Tail|] == number[0];
  }

  /** In an API URL, no position after the end of `path` starts "/pulls/" and a digit. */
  lemma ApiUrlHasNoLaterTail(path: string, number: string, j: nat)
    requires AllDigits(number)
    requires |Head| + |path| < j
    ensures !TailAt(ApiUrl(path, number), j)
  {
    var s := ApiUrl(path, number);
    var j0 := |Head| + |path|;
    assert s[j0..j0 + |Tail|] == Tail;
    assert s[j0 + |Tail|..] == number;
    // after `path` the only 'p' is the one of "/pulls/"
    assert forall m :: j0 + 1 < m < |s| ==> s[m] != 'p' by {
      forall m | j0 + 1 < m < |s| ensures s[m] != 'p' {
        if m < j0 + |Tail| {
          assert s[m] == Tail[m - j0];
        } else {
          assert s[m] == number[m - j0 - |Tail|];
        }
      }
    }
    assert j + |Tail| < |s| ==> s[j..j + |Tail|][1] == s[j + 1];
    assert Tail[1] == 'p';
  }

  /** The match reported in an API URL starts at its first character and its first group is `path`. */
  lemma ReportedMatchOfApiUrl(path: string, number: string, i: nat, j: nat)
    requires NoNewline(path)
    requires number != [] && AllDigits(number)
    requires FirstLongestMatch(ApiUrl(path, number), i, j)
    ensures i == 0 && j == |Head| + |path|
  {
    ApiUrlMatches(path, number);
    if j > |Head| + |path| {
      ApiUrlHasNoLaterTail(path, number, j);
    }
  }

  /** The digit run after "/pulls/" in an API URL is the whole of `number`. */
  lemma DigitsOfApiUrl(path: string, number: string)
    requires AllDigits(number)
    ensures var s := ApiUrl(path, number); var k := |Head| + |path| + |Tail|;
      k <= |s| && s[k..DigitsEnd(s, k)] == number
  {
    var s := ApiUrl(path, number);
    var k := |Head| + |path| + |Tail|;
    assert s[k..] == number;
    var e := DigitsEnd(s, k);
    assert forall m :: k <= m < |s| ==> IsDigit(s[m]) by {
      forall m | k <= m < |s| ensures IsDigit(s[m]) {
        assert s[m] == number[m - k];
      }
    }
    assert e == |s|;
  }

  /** The groups of that match, joined, are `path + "#" + number`. */
  lemma GroupsOfApiUrl(path: string, number: string)
    requires NoNewline(path)
    requires number != [] && AllDigits(number)
    ensures MatchAt(ApiUrl(path, number), 0, |Head| + |path|)
      && GroupsJoined(ApiUrl(path, number), 0, |Head| + |path|) == path + "#" + number
  {
    var s := ApiUrl(path, number);
    ApiUrlMatches(path, number);
    assert s[|Head|..|Head| + |path|] == path;
    DigitsOfApiUrl(path, number);
  }

  /** An API URL `https://api.github.com/repos/O/N/pulls/K` gets the row id `O/N#K`. */
  lemma ExtractIdOfApiUrl(path: string, number: string)
    requires NoNewline(path)
    requires number != [] && AllDigits(number)
    ensures ExtractId(ApiUrl(path, number)) == Some(path + "#" + number)
  {
    var s := ApiUrl(path, number);
    GroupsOfApiUrl(path, number);
    var r := Search(s, 0);
    if r.None? {
      SearchNoneIsNoMatch(s, 0);
      assert false;
    }
    var (i, j) := r.value;
    SearchIsLeftmostLongest(s, 0, i, j);
    assert FirstLongestMatch(s, i, j);
    ReportedMatchOfApiUrl(path, number, i, j);
    assert ExtractId(s) == Some(GroupsJoined(s, i, j));
  }

  /** Python's `value.split(sep)` for a one-character separator. */
  function Split(v: string, sep: char): (parts: seq<string>)
    ensures |parts| >= 1
    ensures forall k :: 0 <= k < |parts| ==> sep !in parts[k]
  {
    if v == [] then [[]]
    else
      var rest := Split(v[1..], sep);
      if v[0] == sep then [[]] + rest
      else [[v[0]] + rest[0]] + rest[1..]
  }

  /** Python's `sep.join(parts)`. */
  function Join(sep: string, parts: seq<string>): string
  {
    if parts == [] then []
    else if |parts| == 1 then parts[0]
    else parts[0] + sep + Join(sep, parts[1..])
  }

  /** Joining the pieces of a split with the same separator gives back the string. */
  lemma {:induction false} JoinSplit(v: string, sep: char)
    ensures Join([sep], Split(v, sep)) == v
  {
    if v != [] {
      var rest := Split(v[1..], sep);
      JoinSplit(v[1..], sep);
      if v[0] == sep {
        assert Split(v, sep) == [[]] + rest;
        assert ([[]] + rest)[1..] == rest;
      } else {
        var parts := Split(v, sep);
        assert parts == [[v[0]] + rest[0]] + rest[1..];
        if |rest| == 1 {
          assert Join([sep], rest) == rest[0];
        } else {
          assert parts[1..] == rest[1..];
          assert Join([sep], rest) == rest[0] + [sep] + Join([sep], rest[1..]);
        }
        assert v == [v[0]] + v[1..];
      }
    }
  }

  /** A string without the separator splits into itself alone. */
  lemma {:induction false} SplitWithoutSeparator(v: string, sep: char)
    requires sep !in v
    ensures Split(v, sep) == [v]
  {
    if v != [] {
      SplitWithoutSeparator(v[1..], sep);
      assert v == [v[0]] + v[1..];
    }
  }

  /** `left + "#" + right` splits at its one '#'. */
  lemma {:induction false} SplitAtSeparator(left: string, right: string, sep: char)
    requires sep !in left && sep !in right
    ensures Split(left + [sep] + right, sep) == [left, right]
  {
    if left == [] {
      SplitWithoutSeparator(right, sep);
      assert ([sep] + right)[1..] == right;
    } else {
      SplitAtSeparator(left[1..], right, sep);
      assert (left + [sep] + right)[1..] == left[1..] + [sep] + right;
      assert left == [left[0]] + left[1..];
    }
  }

  /**
   * The hyperlink of a cell of the id column: none for an empty cell (the
   * source skips it), otherwise the id with each '#' turned into "/pull/".
   */
  function Hyperlink(value: string): (r: Option<string>)
    ensures r.None? <==> value == ""
  {
    if value == "" then None
    else Some("https://github.com/" + Join("/pull/", Split(value, '#')))
  }

  /** The link of id `O/N#K` is the web page `https://github.com/O/N/pull/K`. */
  lemma HyperlinkOfId(path: string, number: string)
    requires '#' !in path
    requires AllDigits(number)
    ensures Hyperlink(path + "#" + number) == Some(WebUrl(path, number))
  {
    assert '#' !in number;
    SplitAtSeparator(path, number, '#');
    assert path + "#" + number == path + ['#'] + number;
    assert Join("/pull/", [number]) == number;
    assert Split(path + "#" + number, '#') == [path, number];
    assert Join("/pull/", [path, number]) == path + "/pull/" + number;
    assert path + "#" + number != "";
    assert "https://github.com/" + (path + "/pull/" + number) == WebUrl(path, number);
  }

  /** Composed: the API URL of a pull request is linked to its web page. */
  lemma ApiUrlLinksToWebUrl(path: string, number: string)
    requires NoNewline(path) && '#' !in path
    requires number != [] && AllDigits(number)
    ensures ExtractId(ApiUrl(path, number)).Some?
    ensures Hyperlink(ExtractId(ApiUrl(path, number)).value) == Some(WebUrl(path, number))
  {
    ExtractIdOfApiUrl(path, number);
    HyperlinkOfId(path, number);
  }
}
