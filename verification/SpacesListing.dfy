/**
 The paged key listing of a bucket: the provider answers each continuation token with a
 page, and the listing follows tokens until a page gives none.
 */
module SpacesListing {
  import opened Wrappers
  import opened Utf16

  /** One answer: its keys, whether it says it is truncated, and the token it carries if any. */
  datatype Page = Page(keys: seq<Text>, truncated: bool, token: Option<Text>)

  /** The answer to a request without a token and to each token. */
  type Answers = Option<Text> -> Page

  /** The token the next request carries: only a truncated page's, and only when it has one. */
  function NextToken(page: Page): Option<Text> {
    if page.truncated then page.token else None
  }

  /** The pages seen from a request on: each answers the token of the one before, the last gives none. */
  ghost predicate Visits(answers: Answers, token: Option<Text>, pages: seq<Page>)
    decreases |pages|
  {
    pages != [] && pages[0] == answers(token)
    && if NextToken(pages[0]).None? then |pages| == 1 else Visits(answers, NextToken(pages[0]), pages[1..])
  }

  function KeysOf(pages: seq<Page>): seq<Text> {
    if pages == [] then [] else pages[0].keys + KeysOf(pages[1..])
  }

  /** There is only one such sequence of pages. */
  lemma {:induction false} VisitsOnce(answers: Answers, token: Option<Text>, p: seq<Page>, q: seq<Page>)
    requires Visits(answers, token, p) && Visits(answers, token, q)
    ensures p == q
    decreases |p|
  {
    if NextToken(p[0]).Some? {
      VisitsOnce(answers, NextToken(p[0]), p[1..], q[1..]);
    }
    HeadAndTail(p);
    HeadAndTail(q);
  }

  /** The listing stops right after a truncated page that carries no token, whatever came before it. */
  lemma {:induction false} StopsWithoutToken(answers: Answers, token: Option<Text>, pages: seq<Page>, k: nat)
    requires Visits(answers, token, pages) && k < |pages| && pages[k].truncated && pages[k].token.None?
    ensures k == |pages| - 1
    decreases |pages|
  {
    if k > 0 {
      StopsWithoutToken(answers, NextToken(pages[0]), pages[1..], k - 1);
    }
  }

  /** Every page but the last is truncated and its token brings the next; the last is not truncated, or carries no token. */
  lemma {:induction false} PagesFollow(answers: Answers, token: Option<Text>, pages: seq<Page>)
    requires Visits(answers, token, pages)
    ensures pages != [] && pages[0] == answers(token)
    ensures forall k :: 0 <= k < |pages| - 1 ==>
              pages[k].truncated && pages[k].token.Some? && pages[k + 1] == answers(pages[k].token)
    ensures !pages[|pages| - 1].truncated || pages[|pages| - 1].token.None?
    decreases |pages|
  {
    if NextToken(pages[0]).Some? {
      var rest := pages[1..];
      PagesFollow(answers, NextToken(pages[0]), rest);
      forall k | 0 <= k < |pages| - 1
        ensures pages[k].truncated && pages[k].token.Some? && pages[k + 1] == answers(pages[k].token) {
        if k > 0 {
          assert pages[k] == rest[k - 1] && pages[k + 1] == rest[k];
        }
      }
      assert pages[|pages| - 1] == rest[|rest| - 1];
    }
  }

  /** `listPrefix`, against a provider whose tokens come to an end. */
  method ListPrefix(answers: Answers, ghost pages: seq<Page>) returns (keys: seq<Text>)
    requires Visits(answers, None, pages)
    ensures keys == KeysOf(pages)
  {
    keys := [];
    ghost var rest := pages;
    var continuationToken: Option<Text> := None;
    var more := true;
    while more
      invariant more ==> Visits(answers, continuationToken, rest)
      invariant !more ==> rest == []
      invariant keys + KeysOf(rest) == KeysOf(pages)
      decreases |rest|, more
    {
      var page := answers(continuationToken);
      Regroup(keys, page.keys, KeysOf(rest[1..]));
      keys := keys + page.keys;
      rest := rest[1..];
      continuationToken := NextToken(page);
      more := continuationToken.Some?;
    }
    assert keys + KeysOf([]) == keys;
  }
}
