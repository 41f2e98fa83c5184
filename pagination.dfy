/**
 * The pagination loop of `fetch_zotero_items`. The remote collection is a
 * finite sequence of page outcomes: the k-th request made receives
 * `pages[k]`, and a request past the end receives an empty page, which is
 * how the server signals that the collection is exhausted.
 */
module Pagination {
  import opened Options

  /** What one request made of the server with a given `start` offset yields. */
  datatype PageOutcome<E> =
    | RequestFailed                                  // a network error, a timeout or a 4xx/5xx status
    | MalformedXml                                   // the body is not well-formed XML
    | Page(entries: seq<E>, totalResults: Option<int>) // the Atom entries and the Total-Results header

  /** The answer to the k-th request. */
  function Response<E>(pages: seq<PageOutcome<E>>, k: nat): PageOutcome<E> {
    if k < |pages| then pages[k] else Page([], None)
  }

  predicate Failed<E>(o: PageOutcome<E>) {
    o.RequestFailed? || o.MalformedXml?
  }

  function EntriesOf<E>(o: PageOutcome<E>): seq<E> {
    if o.Page? then o.entries else []
  }

  /** All entries of the given responses, in the order they arrived. */
  function Received<E>(pages: seq<PageOutcome<E>>): seq<E> {
    if pages == [] then [] else EntriesOf(pages[0]) + Received(pages[1..])
  }

  /** The Total-Results value of the first response that carries the header. */
  function TotalHeader<E>(pages: seq<PageOutcome<E>>): Option<int> {
    if pages == [] then None
    else if pages[0].Page? && pages[0].totalResults.Some? then pages[0].totalResults
    else TotalHeader(pages[1..])
  }

  /** The responses so far carry a Total-Results value and have delivered at least that many entries. */
  predicate ReachedTotal<E>(pages: seq<PageOutcome<E>>) {
    TotalHeader(pages).Some? && |Received(pages)| >= TotalHeader(pages).value
  }

  /**
   * The loop ends at the k-th response: it failed, it was an empty page, or
   * it brought the entry count up to the advertised total.
   */
  predicate Halts<E>(pages: seq<PageOutcome<E>>, k: nat) {
    var o := Response(pages, k);
    Failed(o) || o.entries == [] || (k < |pages| && ReachedTotal(pages[..k + 1]))
  }

  /** The first response at or after `k` at which the loop ends. */
  function FirstStop<E>(pages: seq<PageOutcome<E>>, k: nat): (n: nat)
    requires k <= |pages|
    ensures k <= n <= |pages|
    ensures Halts(pages, n)
    ensures forall j :: k <= j < n ==> !Halts(pages, j)
    decreases |pages| - k
  {
    if Halts(pages, k) then k else FirstStop(pages, k + 1)
  }

  lemma {:induction false} ReceivedSnoc<E>(pages: seq<PageOutcome<E>>, o: PageOutcome<E>)
    ensures Received(pages + [o]) == Received(pages) + EntriesOf(o)
    decreases |pages|
  {
    if pages == [] {
      assert pages + [o] == [o];
      assert Received([o]) == EntriesOf(o) + Received([o][1..]);
    } else {
      assert (pages + [o])[0] == pages[0];
      assert (pages + [o])[1..] == pages[1..] + [o];
      ReceivedSnoc(pages[1..], o);
    }
  }

  lemma {:induction false} ReceivedAppend<E>(a: seq<PageOutcome<E>>, b: seq<PageOutcome<E>>)
    ensures Received(a + b) == Received(a) + Received(b)
    decreases |a|
  {
    if a == [] {
      assert a + b == b;
    } else {
      assert (a + b)[0] == a[0];
      assert (a + b)[1..] == a[1..] + b;
      ReceivedAppend(a[1..], b);
    }
  }

  /** Total-Results is taken once: after the first response with the header, later ones cannot change it. */
  lemma {:induction false} HeaderSetOnce<E>(a: seq<PageOutcome<E>>, b: seq<PageOutcome<E>>)
    ensures TotalHeader(a).Some? ==> TotalHeader(a + b) == TotalHeader(a)
    ensures TotalHeader(a).None? ==> TotalHeader(a + b) == TotalHeader(b)
    decreases |a|
  {
    if a == [] {
      assert a + b == b;
    } else {
      assert (a + b)[0] == a[0];
      assert (a + b)[1..] == a[1..] + b;
      HeaderSetOnce(a[1..], b);
    }
  }

  /** What the loop knows after taking in the k-th response, a page. */
  lemma AfterPage<E>(pages: seq<PageOutcome<E>>, k: nat)
    requires k < |pages| && pages[k].Page?
    ensures Received(pages[..k + 1]) == Received(pages[..k]) + pages[k].entries
    ensures TotalHeader(pages[..k + 1])
         == if TotalHeader(pages[..k]).Some? then TotalHeader(pages[..k]) else pages[k].totalResults
  {
    assert pages[..k + 1] == pages[..k] + [pages[k]];
    ReceivedSnoc(pages[..k], pages[k]);
    HeaderSetOnce(pages[..k], [pages[k]]);
    assert TotalHeader([pages[k]]) == pages[k].totalResults by {
      assert [pages[k]][1..] == [];
    }
  }

  /** The `start` offsets of the first `n` requests: each the number of entries received before it. */
  function Offsets<E>(pages: seq<PageOutcome<E>>, n: nat): seq<nat>
    requires n <= |pages| + 1
  {
    seq(n, j requires 0 <= j < n => |Received(pages[..j])|)
  }

  lemma OffsetsSnoc<E>(pages: seq<PageOutcome<E>>, n: nat)
    requires n <= |pages|
    ensures Offsets(pages, n + 1) == Offsets(pages, n) + [|Received(pages[..n])|]
  {
  }

  /** A non-empty page that leaves the count short of the advertised total lets the loop go on. */
  lemma Continues<E>(pages: seq<PageOutcome<E>>, k: nat, start: int, totalResults: Option<int>)
    requires k < |pages| && pages[k].Page? && pages[k].entries != []
    requires start == |Received(pages[..k + 1])| && totalResults == TotalHeader(pages[..k + 1])
    requires !(totalResults.Some? && start >= totalResults.value)
    ensures !Halts(pages, k)
  {
  }

  /** The least halting response is the one `FirstStop` finds. */
  lemma StopIsFirst<E>(pages: seq<PageOutcome<E>>, k: nat)
    requires k <= |pages| && Halts(pages, k)
    requires forall j :: 0 <= j < k ==> !Halts(pages, j)
    ensures FirstStop(pages, 0) == k
  {
  }

  /** Offsets that count the entries received so far grow by each page's actual length. */
  lemma OffsetsAdvance<E>(pages: seq<PageOutcome<E>>, requested: seq<nat>)
    requires |requested| <= |pages| + 1
    requires forall j :: 0 <= j < |requested| ==> requested[j] == |Received(pages[..j])|
    ensures forall j :: 0 <= j < |requested| - 1 ==> requested[j + 1] == requested[j] + |EntriesOf(pages[j])|
  {
    forall j | 0 <= j < |requested| - 1
      ensures requested[j + 1] == requested[j] + |EntriesOf(pages[j])|
    {
      assert pages[..j + 1] == pages[..j] + [pages[j]];
      ReceivedSnoc(pages[..j], pages[j]);
    }
  }

  /** Without any Total-Results header only a failure or an empty page ends the loop. */
  lemma NoHeaderOnlyEmptyPageStops<E>(pages: seq<PageOutcome<E>>, k: nat)
    requires k < |pages| ==> TotalHeader(pages[..k + 1]).None?
    ensures Halts(pages, k) <==> Failed(Response(pages, k)) || EntriesOf(Response(pages, k)) == []
  {
  }

  /** Without a header, pages that are all non-empty are all read, up to the end of the collection. */
  lemma NoHeaderReadsToEnd<E>(pages: seq<PageOutcome<E>>)
    requires TotalHeader(pages).None?
    requires forall k :: 0 <= k < |pages| ==> pages[k].Page? && pages[k].entries != []
    ensures FirstStop(pages, 0) == |pages|
  {
    forall k | 0 <= k < |pages|
      ensures !Halts(pages, k)
    {
      assert pages == pages[..k + 1] + pages[k + 1..];
      HeaderSetOnce(pages[..k + 1], pages[k + 1..]);
      NoHeaderOnlyEmptyPageStops(pages, k);
    }
  }

  /** Before the last page, an honest header on the first page is not yet reached. */
  lemma ProperPrefixShort<E>(pages: seq<PageOutcome<E>>, k: nat)
    requires k + 1 < |pages|
    requires pages[k].Page? && pages[k].entries != [] && pages[k + 1].Page? && pages[k + 1].entries != []
    requires pages[0].Page? && pages[0].totalResults == Some(|Received(pages)|)
    ensures !Halts(pages, k)
  {
    var front, rest := pages[..k + 1], pages[k + 1..];
    assert front[0] == pages[0];
    assert TotalHeader(front) == pages[0].totalResults;
    assert pages == front + rest;
    ReceivedAppend(front, rest);
    assert rest[0] == pages[k + 1];
    assert |Received(rest)| >= |EntriesOf(rest[0])| > 0;
  }

  /**
   * With an honest Total-Results header on the first page and no empty page
   * before the end, every page is requested and the loop stops after the last,
   * having received the whole collection.
   */
  lemma HonestHeaderReadsAll<E>(pages: seq<PageOutcome<E>>)
    requires |pages| > 0
    requires forall k :: 0 <= k < |pages| ==> pages[k].Page? && pages[k].entries != []
    requires pages[0].totalResults == Some(|Received(pages)|)
    ensures FirstStop(pages, 0) == |pages| - 1
    ensures Received(pages[..|pages| - 1]) + EntriesOf(Response(pages, |pages| - 1)) == Received(pages)
  {
    var last := |pages| - 1;
    forall k | 0 <= k < last
      ensures !Halts(pages, k)
    {
      ProperPrefixShort(pages, k);
    }
    assert pages[..last + 1] == pages;
    assert TotalHeader(pages) == pages[0].totalResults;
    assert Halts(pages, last);
    StopIsFirst(pages, last);
    assert pages == pages[..last] + [pages[last]];
    ReceivedSnoc(pages[..last], pages[last]);
  }

  /** A page that brings the count up to the advertised total is the last one requested. */
  lemma StopsOnceTotalReached<E>(pages: seq<PageOutcome<E>>, k: nat)
    requires k < |pages| && ReachedTotal(pages[..k + 1])
    ensures FirstStop(pages, 0) <= k
  {
    assert Halts(pages, k);
  }

  /**
   * `fetch_zotero_items`: requests pages until one is empty or the advertised
   * total is reached, advancing `start` by the number of entries actually
   * received. Any failed request or unparsable page discards everything and
   * yields `None`. `requested` lists the `start` offsets sent, in order.
   */
  method FetchZoteroItems<E>(pages: seq<PageOutcome<E>>) returns (result: Option<seq<E>>, requested: seq<nat>)
    ensures |requested| == FirstStop(pages, 0) + 1
    ensures forall j :: 0 <= j < |requested| ==> requested[j] == |Received(pages[..j])|
    ensures forall j :: 0 <= j < |requested| - 1 ==> requested[j + 1] == requested[j] + |EntriesOf(pages[j])|
    ensures result.None? <==> Failed(Response(pages, FirstStop(pages, 0)))
    ensures result.Some? ==>
              result.value == Received(pages[..FirstStop(pages, 0)]) + EntriesOf(Response(pages, FirstStop(pages, 0)))
  {
    var allEntries: seq<E> := [];
    var start: nat := 0;
    var totalResults: Option<int> := None;
    var k: nat := 0;  // how many requests have been answered
    requested := [];
    while true
      invariant k <= |pages|
      invariant start == |allEntries|
      invariant allEntries == Received(pages[..k])
      invariant totalResults == TotalHeader(pages[..k])
      invariant requested == Offsets(pages, k)
      invariant k <= FirstStop(pages, 0)  // no earlier response ended the loop
      decreases |pages| - k
    {
      OffsetsSnoc(pages, k);
      requested := requested + [start];
      match Response(pages, k)
      case RequestFailed =>
        result := None;  // the whole fetch fails
        break;
      case MalformedXml =>
        result := None;  // the whole fetch fails
        break;
      case Page(entries, total) =>
        if totalResults.None? && total.Some? {
          totalResults := total;
        }
        if entries == [] {
          result := Some(allEntries);
          break;
        }
        AfterPage(pages, k);
        allEntries := allEntries + entries;
        start := start + |entries|;
        if totalResults.Some? && start >= totalResults.value {
          result := Some(allEntries);
          break;
        }
        Continues(pages, k, start, totalResults);
        k := k + 1;
    }
    StopIsFirst(pages, k);
    OffsetsAdvance(pages, requested);
  }
}
