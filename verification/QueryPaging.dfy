/** The paging loops of the two query reports (packages/core/src/carddav/addressbook-query-report.ts,
    packages/core/src/caldav/calendar-query-report.ts): a page at a time, they return what
    filtering the whole ordered match list and cutting it off would. */
module QueryPaging {
  import opened Sequences

  function Take<T>(s: seq<T>, count: nat): (taken: seq<T>)
    ensures taken <= s && |taken| <= count
    ensures |taken| < count ==> taken == s
  {
    if |s| <= count then s else s[..count]
  }

  function Both<T>(p: T -> bool, q: T -> bool): T -> bool {
    (x: T) => p(x) && q(x)
  }

  /** `query.offset(offset).limit(limit).getMany()` over the ordered rows. */
  function Page<T>(rows: seq<T>, offset: nat, limit: nat): (page: seq<T>)
    requires offset <= |rows|
    ensures |page| <= limit && offset + |page| <= |rows| && page == rows[offset..offset + |page|]
    ensures |page| < limit ==> offset + |page| == |rows|
  {
    if offset + limit <= |rows| then rows[offset..offset + limit] else rows[offset..]
  }

  lemma NextPage<T>(p: T -> bool, rows: seq<T>, offset: nat, page: seq<T>)
    requires offset + |page| <= |rows| && page == rows[offset..offset + |page|]
    ensures Filter(p, rows[..offset + |page|]) == Filter(p, rows[..offset]) + Filter(p, page)
  {
    assert rows[..offset + |page|] == rows[..offset] + page;
    FilterConcat(p, rows[..offset], page);
  }

  /** What has been found so far is where the whole result begins. */
  lemma FoundIsPrefix<T>(p: T -> bool, rows: seq<T>, offset: nat)
    requires offset <= |rows|
    ensures Filter(p, rows[..offset]) <= Filter(p, rows)
    ensures offset == |rows| ==> Filter(p, rows[..offset]) == Filter(p, rows)
  {
    assert rows == rows[..offset] + rows[offset..];
    FilterConcat(p, rows[..offset], rows[offset..]);
  }

  lemma {:induction false} FilterShrinks<T>(p: T -> bool, s: seq<T>)
    ensures |Filter(p, s)| <= |s|
  {
    if s == [] {
    } else {
      FilterShrinks(p, s[1..]);
    }
  }

  lemma {:induction false} FilterBoth<T>(p: T -> bool, q: T -> bool, s: seq<T>)
    ensures Filter(q, Filter(p, s)) == Filter(Both(p, q), s)
  {
    if s == [] {
    } else {
      FilterBoth(p, q, s[1..]);
      if p(s[0]) {
        FilterCons(q, s[0], Filter(p, s[1..]));
      }
    }
  }

  const ADDRESSBOOK_PAGE_SIZE := 500
  const CALENDAR_PAGE_SIZE := 200

  /** `findReadableMatches`: `rows` are the index-evaluated matches in order of name. */
  method FindReadableMatches<T>(rows: seq<T>, allowed: T -> bool, count: nat) returns (readable: seq<T>)
    ensures readable == Take(Filter(allowed, rows), count)
  {
    readable := [];
    var offset := 0;
    FoundIsPrefix(allowed, rows, 0);
    while |readable| < count
      invariant offset <= |rows| && |readable| <= count
      invariant readable == Filter(allowed, rows[..offset])
      decreases |rows| - offset, count - |readable|
    {
      var pageSize := if ADDRESSBOOK_PAGE_SIZE < count - |readable| then ADDRESSBOOK_PAGE_SIZE else count - |readable|;
      var page := Page(rows, offset, pageSize);
      NextPage(allowed, rows, offset, page);
      FilterShrinks(allowed, page);
      offset := offset + |page|;
      readable := readable + Filter(allowed, page);
      if |page| < pageSize {
        break;
      }
    }
    FoundIsPrefix(allowed, rows, offset);
  }

  /** `findMatches`: each page is checked exactly before access is, and the loop stops in the middle of a page. */
  method FindMatches<T>(rows: seq<T>, exact: T -> bool, allowed: T -> bool, count: nat) returns (matches: seq<T>)
    requires count > 0
    ensures matches == Take(Filter(Both(exact, allowed), rows), count)
  {
    ghost var p := Both(exact, allowed);
    matches := [];
    var offset := 0;
    while true
      invariant offset <= |rows| && |matches| < count
      invariant matches == Filter(p, rows[..offset])
      decreases |rows| - offset
    {
      var page := Page(rows, offset, CALENDAR_PAGE_SIZE);
      NextPage(p, rows, offset, page);
      if |page| == 0 {
        break;
      }
      var candidates := Filter(exact, page);
      FilterBoth(exact, allowed, page);
      ghost var before := matches;
      ghost var all := Filter(allowed, candidates);
      for k := 0 to |candidates|
        invariant |matches| < count
        invariant matches == before + Filter(allowed, candidates[..k])
      {
        NextPage(allowed, candidates, k, [candidates[k]]);
        if allowed(candidates[k]) {
          matches := matches + [candidates[k]];
          if |matches| >= count {
            FoundIsPrefix(allowed, candidates, k + 1);
            FoundIsPrefix(p, rows, offset + |page|);
            assert matches <= before + all;
            return;
          }
        }
      }
      assert candidates[..|candidates|] == candidates;
      offset := offset + |page|;
      if |page| < CALENDAR_PAGE_SIZE {
        break;
      }
    }
    FoundIsPrefix(p, rows, offset);
  }

  /** Asking for one more than the limit tells exactly whether the result was cut off. */
  lemma TruncatedExactlyWhenMorePass<T>(all: seq<T>, limit: nat)
    ensures var matches := Take(all, limit + 1);
            && (|matches| > limit <==> |all| > limit)
            && Take(matches, limit) == Take(all, limit)
  {
  }

  /** What `handle` answers: the first `limit` readable matches, and whether there were more. */
  method AnswerQuery<T>(rows: seq<T>, allowed: T -> bool, requestLimit: nat, maxResults: nat)
      returns (results: seq<T>, truncated: bool)
    ensures var limit := if requestLimit < maxResults then requestLimit else maxResults;
            && results == Take(Filter(allowed, rows), limit)
            && (truncated <==> |Filter(allowed, rows)| > limit)
  {
    var limit := if requestLimit < maxResults then requestLimit else maxResults;
    var matches := FindReadableMatches(rows, allowed, limit + 1);
    TruncatedExactlyWhenMorePass(Filter(allowed, rows), limit);
    truncated := |matches| > limit;
    results := if truncated then matches[..limit] else matches;
  }
}
