/**
 The collector: `recursive_page_scrape` fetches the search-result page that
 starts at offset `url_num`, keeps `(title, link)` for every entry with
 exactly one anchor whose text contains "pdf", advances the offset by the
 number of entries on the page and goes on until a page has no entries.
 Any exception ends the run and returns what has been gathered so far.

 The network and the HTML parser are replaced by given input: the answers
 to successive page requests are a sequence of `Response`s, and an entry is
 given by its title text and its anchors.
 */
module Collector {
  import opened Wrappers
  import opened Text

  /** An anchor of a result entry: its text, and its `href` attribute when it has one. */
  datatype Link = Link(text: string, href: Option<string>)

  /** One `li.arxiv-result`: the text of its title paragraph (None when the
      entry has no such paragraph) and its anchors in document order. */
  datatype Entry = Entry(title: Option<string>, links: seq<Link>)

  /** The answer to one page request: the page's entries, or a failure of the
      request or of parsing its body. */
  datatype Response = Failed | Results(entries: seq<Entry>)

  /** One accumulated `(title, pdf_link)` pair. */
  datatype Article = Article(title: string, link: string)

  /** What the loop body does with one entry: append an article, `continue`, or raise. */
  datatype Step = Keep(article: Article) | Skip | Raise

  /** How a run ended; the caller of the source cannot tell the two apart. */
  datatype Status = Exhausted | Aborted

  /** A whole run: the list returned, the offsets requested in order, how it ended. */
  datatype Run = Run(articles: seq<Article>, requests: seq<int>, status: Status)

  predicate IsPdfAnchor(l: Link) {
    Contains(l.text, "pdf")
  }

  /** The list comprehension `[l["href"] for l in links if "pdf" in l.text]`;
      None when one of the selected anchors has no `href` (a KeyError). */
  function PdfLinks(links: seq<Link>): Option<seq<string>> {
    if links == [] then Some([])
    else
      var rest := PdfLinks(links[1..]);
      if !IsPdfAnchor(links[0]) then rest
      else if links[0].href.None? || rest.None? then None
      else Some([links[0].href.value] + rest.value)
  }

  /** Anchor `i` is a pdf anchor without an `href`. */
  ghost predicate MissingHref(links: seq<Link>, i: int) {
    0 <= i < |links| && IsPdfAnchor(links[i]) && links[i].href.None?
  }

  /** Anchor `i` is the one and only pdf anchor. */
  ghost predicate OnlyPdfAnchor(links: seq<Link>, i: int) {
    && 0 <= i < |links| && IsPdfAnchor(links[i])
    && forall j :: 0 <= j < |links| && j != i ==> !IsPdfAnchor(links[j])
  }

  /** The comprehension raises exactly when a pdf anchor has no `href`. */
  lemma {:induction false} PdfLinksFails(links: seq<Link>)
    ensures PdfLinks(links).None? <==> exists i :: MissingHref(links, i)
  {
    if links != [] {
      var tail := links[1..];
      PdfLinksFails(tail);
      forall i | 0 < i ensures MissingHref(links, i) <==> MissingHref(tail, i - 1) {
        if i < |links| { assert links[i] == tail[i - 1]; }
      }
      if PdfLinks(tail).None? {
        var i :| MissingHref(tail, i);
        assert MissingHref(links, i + 1);
      }
      if IsPdfAnchor(links[0]) && links[0].href.None? {
        assert MissingHref(links, 0);
      }
    }
  }

  /** When it does not raise, it is empty exactly when no anchor is a pdf anchor. */
  lemma {:induction false} PdfLinksEmpty(links: seq<Link>)
    ensures PdfLinks(links).Some? ==>
      (PdfLinks(links).value == [] <==> forall j :: 0 <= j < |links| ==> !IsPdfAnchor(links[j]))
  {
    if links != [] {
      var tail := links[1..];
      PdfLinksEmpty(tail);
      forall j | 0 < j < |links| ensures links[j] == tail[j - 1] { }
    }
  }

  /** When it does not raise, it has one element exactly when there is one
      and only one pdf anchor, and that element is the anchor's `href`. */
  lemma {:induction false} PdfLinksSingle(links: seq<Link>)
    ensures PdfLinks(links).Some? ==>
      (|PdfLinks(links).value| == 1 <==> exists i :: OnlyPdfAnchor(links, i))
    ensures forall i :: PdfLinks(links).Some? && OnlyPdfAnchor(links, i) ==>
      links[i].href.Some? && PdfLinks(links).value == [links[i].href.value]
  {
    if links != [] {
      var tail := links[1..];
      PdfLinksSingle(tail);
      PdfLinksEmpty(tail);
      forall j | 0 < j < |links| ensures links[j] == tail[j - 1] { }
      if IsPdfAnchor(links[0]) {
        if links[0].href.Some? && PdfLinks(tail).Some? {
          forall i | OnlyPdfAnchor(links, i) ensures i == 0 { }
          if forall j :: 0 <= j < |tail| ==> !IsPdfAnchor(tail[j]) {
            assert OnlyPdfAnchor(links, 0);
          } else {
            var j :| 0 <= j < |tail| && IsPdfAnchor(tail[j]);
            assert IsPdfAnchor(links[j + 1]);
          }
        }
      } else {
        forall i | 0 < i ensures OnlyPdfAnchor(links, i) <==> OnlyPdfAnchor(tail, i - 1) {
          if OnlyPdfAnchor(tail, i - 1) {
            forall j | 0 <= j < |links| && j != i ensures !IsPdfAnchor(links[j]) {
              if j > 0 { assert links[j] == tail[j - 1]; }
            }
          }
          if OnlyPdfAnchor(links, i) {
            forall j | 0 <= j < |tail| && j != i - 1 ensures !IsPdfAnchor(tail[j]) {
              assert tail[j] == links[j + 1];
            }
          }
        }
        assert !OnlyPdfAnchor(links, 0);
        if exists i :: OnlyPdfAnchor(tail, i) {
          var i :| OnlyPdfAnchor(tail, i);
          assert OnlyPdfAnchor(links, i + 1);
        }
      }
    }
  }

  /** The three facts together: what the comprehension of line 45 yields. */
  lemma PdfLinksMeaning(links: seq<Link>)
    ensures PdfLinks(links).None? <==> exists i :: MissingHref(links, i)
    ensures PdfLinks(links).Some? ==>
      (PdfLinks(links).value == [] <==> forall j :: 0 <= j < |links| ==> !IsPdfAnchor(links[j]))
    ensures PdfLinks(links).Some? ==>
      (|PdfLinks(links).value| == 1 <==> exists i :: OnlyPdfAnchor(links, i))
    ensures forall i :: PdfLinks(links).Some? && OnlyPdfAnchor(links, i) ==>
      links[i].href.Some? && PdfLinks(links).value == [links[i].href.value]
  {
    PdfLinksFails(links);
    PdfLinksEmpty(links);
    PdfLinksSingle(links);
  }

  /** Lines 44-52 for one entry: read the title (raising when it is missing),
      collect the pdf hrefs (raising on a missing href), and keep the entry
      only when there is exactly one. */
  function EntryStep(e: Entry): Step {
    if e.title.None? then Raise
    else
      match PdfLinks(e.links)
      case None => Raise
      case Some(hrefs) =>
        if |hrefs| != 1 then Skip else Keep(Article(Strip(e.title.value), hrefs[0]))
  }

  /** An entry is kept exactly when it has a title and exactly one pdf anchor,
      and that anchor has an href; the kept article is the stripped title with
      that href. It raises exactly when the title or a pdf anchor's href is missing. */
  lemma EntryStepMeaning(e: Entry)
    ensures EntryStep(e).Raise? <==> e.title.None? || exists i :: MissingHref(e.links, i)
    ensures EntryStep(e).Keep? <==>
      e.title.Some? && exists i :: OnlyPdfAnchor(e.links, i) && e.links[i].href.Some?
    ensures forall i :: EntryStep(e).Keep? && OnlyPdfAnchor(e.links, i) ==>
      EntryStep(e).article == Article(Strip(e.title.value), e.links[i].href.value)
  {
    PdfLinksMeaning(e.links);
    if e.title.Some? && exists i :: OnlyPdfAnchor(e.links, i) && e.links[i].href.Some? {
      var i :| OnlyPdfAnchor(e.links, i) && e.links[i].href.Some?;
      forall j | 0 <= j < |e.links| ensures !MissingHref(e.links, j) {
        if j != i { assert !IsPdfAnchor(e.links[j]); }
      }
    }
    if EntryStep(e).Keep? {
      var i :| OnlyPdfAnchor(e.links, i);
      assert e.links[i].href.Some? by {
        if e.links[i].href.None? { assert MissingHref(e.links, i); }
      }
    }
  }

  /** The `for article in articles` loop of lines 42-52, run on `acc`: the
      list after the page, and whether an entry raised part-way. */
  function ScanPage(es: seq<Entry>, acc: seq<Article>): (seq<Article>, bool)
    decreases |es|
  {
    if es == [] then (acc, false)
    else
      match EntryStep(es[0])
      case Raise => (acc, true)
      case Skip => ScanPage(es[1..], acc)
      case Keep(a) => ScanPage(es[1..], acc + [a])
  }

  /** `recursive_page_scrape(url_num=urlNum, articles_list=acc, recursed=True)`
      when the successive requests are answered by `pages`; a request past the
      end of `pages` is answered by an empty page. */
  function Scrape(pages: seq<Response>, urlNum: int, acc: seq<Article>): (r: Run)
    ensures 1 <= |r.requests| <= |pages| + 1 && r.requests[0] == urlNum
    decreases |pages|
  {
    if pages == [] || pages[0] == Results([]) then Run(acc, [urlNum], Exhausted)
    else if pages[0].Failed? then Run(acc, [urlNum], Aborted)
    else
      var (acc', raised) := ScanPage(pages[0].entries, acc);
      if raised then Run(acc', [urlNum], Aborted)
      else
        var rest := Scrape(pages[1..], urlNum + |pages[0].entries|, acc');
        Run(rest.articles, [urlNum] + rest.requests, rest.status)
  }

  function AfterRequests(requests: seq<int>, r: Run): Run {
    Run(r.articles, requests + r.requests, r.status)
  }

  // A reference description of a run, page by page, and the theorems that
  // tie Scrape to it.

  /** The article an entry contributes when it is kept. */
  function KeptOf(e: Entry): seq<Article> {
    if EntryStep(e).Keep? then [EntryStep(e).article] else []
  }

  /** The articles of the kept entries of `es`, in page order. */
  function Kept(es: seq<Entry>): seq<Article> {
    if es == [] then [] else KeptOf(es[0]) + Kept(es[1..])
  }

  /** The index of the first entry of `es` that raises, |es| when none does. */
  function FirstRaise(es: seq<Entry>): (n: nat)
    ensures n <= |es|
  {
    if es == [] || EntryStep(es[0]).Raise? then 0 else 1 + FirstRaise(es[1..])
  }

  /** FirstRaise finds the first entry that raises: none before it does, and
      the one at it does unless it is |es|. */
  lemma {:induction false} FirstRaiseMeaning(es: seq<Entry>)
    ensures forall j :: 0 <= j < FirstRaise(es) ==> !EntryStep(es[j]).Raise?
    ensures FirstRaise(es) < |es| ==> EntryStep(es[FirstRaise(es)]).Raise?
  {
    if es != [] && !EntryStep(es[0]).Raise? {
      FirstRaiseMeaning(es[1..]);
      forall j | 0 < j < FirstRaise(es) ensures es[j] == es[1..][j - 1] { }
    }
  }

  /** One page's loop appends exactly the kept entries before the first
      entry that raises, and reports whether one raised. */
  lemma {:induction false} ScanPageMeaning(es: seq<Entry>, acc: seq<Article>)
    ensures ScanPage(es, acc) == (acc + Kept(es[..FirstRaise(es)]), FirstRaise(es) < |es|)
    decreases |es|
  {
    if es == [] {
      assert acc + Kept([]) == acc;
    } else if EntryStep(es[0]).Raise? {
      assert es[..0] == [];
      assert acc + Kept([]) == acc;
    } else {
      assert ScanPage(es, acc) == ScanPage(es[1..], acc + KeptOf(es[0])) by {
        if EntryStep(es[0]).Skip? { assert acc + [] == acc; }
      }
      ScanPageMeaning(es[1..], acc + KeptOf(es[0]));
      var n := FirstRaise(es[1..]);
      assert es[..n + 1][1..] == es[1..][..n];
      assert acc + KeptOf(es[0]) + Kept(es[1..][..n]) == acc + (KeptOf(es[0]) + Kept(es[1..][..n]));
    }
  }

  function EntriesOf(p: Response): seq<Entry> {
    if p.Results? then p.entries else []
  }

  /** A page after which the run goes on: fetched, with entries, none of which raises. */
  predicate GoodPage(p: Response) {
    p.Results? && p.entries != [] && FirstRaise(p.entries) == |p.entries|
  }

  /** The articles kept from the pages `ps`, page after page. */
  function Gathered(ps: seq<Response>): seq<Article> {
    if ps == [] then [] else Kept(EntriesOf(ps[0])) + Gathered(ps[1..])
  }

  /** The number of entries on the pages `ps`, skipped entries included. */
  function Consumed(ps: seq<Response>): nat {
    if ps == [] then 0 else |EntriesOf(ps[0])| + Consumed(ps[1..])
  }

  /** The offsets at which the pages `ps` are requested, the first at `u`. */
  function Offsets(ps: seq<Response>, u: int): (r: seq<int>)
    ensures |r| == |ps|
  {
    if ps == [] then [] else [u] + Offsets(ps[1..], u + |EntriesOf(ps[0])|)
  }

  /** The offsets at which the pages `ps` and then the page after them are
      requested, the first at `u`. */
  function Requested(ps: seq<Response>, u: int): (r: seq<int>)
    ensures |r| == |ps| + 1
  {
    if ps == [] then [u] else [u] + Requested(ps[1..], u + |EntriesOf(ps[0])|)
  }

  /** Those are the offsets of the pages, then one more after all their entries. */
  lemma {:induction false} RequestedSplits(ps: seq<Response>, u: int)
    ensures Requested(ps, u) == Offsets(ps, u) + [u + Consumed(ps)]
  {
    if ps != [] {
      var n := |EntriesOf(ps[0])|;
      RequestedSplits(ps[1..], u + n);
      assert [u] + (Offsets(ps[1..], u + n) + [u + n + Consumed(ps[1..])])
          == [u] + Offsets(ps[1..], u + n) + [u + (n + Consumed(ps[1..]))];
    }
  }

  /** Each requested offset is past the previous one by the number of
      entries of the page requested there. */
  lemma {:induction false} RequestedStep(ps: seq<Response>, u: int, j: nat)
    requires j < |ps|
    ensures Requested(ps, u)[j + 1] == Requested(ps, u)[j] + |EntriesOf(ps[j])|
  {
    if j > 0 {
      RequestedStep(ps[1..], u + |EntriesOf(ps[0])|, j - 1);
      assert ps[1..][j - 1] == ps[j];
    }
  }

  /** The index of the page at which a run stops: the first page that is not good. */
  function StopPage(pages: seq<Response>): (k: nat)
    ensures k <= |pages|
  {
    if pages == [] || !GoodPage(pages[0]) then 0 else 1 + StopPage(pages[1..])
  }

  /** StopPage is the first page that is not good: every page before it is
      good, and the one at it is not, unless the replies ran out. */
  lemma {:induction false} StopPageMeaning(pages: seq<Response>)
    ensures forall j :: 0 <= j < StopPage(pages) ==> GoodPage(pages[j])
    ensures StopPage(pages) < |pages| ==> !GoodPage(pages[StopPage(pages)])
  {
    if pages != [] && GoodPage(pages[0]) {
      StopPageMeaning(pages[1..]);
      forall j | 0 < j < StopPage(pages) ensures GoodPage(pages[j]) {
        assert pages[j] == pages[1..][j - 1];
      }
    }
  }

  /** What page k, the page a run stops at, still adds: its kept entries
      before the one that raised. */
  function PartialAt(pages: seq<Response>, k: nat): seq<Article>
    requires k <= |pages|
  {
    if k < |pages| && pages[k].Results? then Kept(pages[k].entries[..FirstRaise(pages[k].entries)]) else []
  }

  /** A run that stops at page k ran out of results rather than failing. */
  predicate EndsEmpty(pages: seq<Response>, k: nat) {
    k >= |pages| || pages[k] == Results([])
  }

  lemma StopFactsShift(pages: seq<Response>, k: nat)
    requires pages != [] && k < |pages|
    ensures PartialAt(pages[1..], k) == PartialAt(pages, k + 1)
    ensures EndsEmpty(pages[1..], k) == EndsEmpty(pages, k + 1)
  {
    if k + 1 < |pages| { assert pages[1..][k] == pages[k + 1]; }
  }

  /** A run past a good page: one request, then the run from the next offset. */
  lemma ScrapePastGoodPage(pages: seq<Response>, u: int, acc: seq<Article>)
    requires pages != [] && GoodPage(pages[0])
    ensures var es := pages[0].entries; var r := Scrape(pages, u, acc);
      var r' := Scrape(pages[1..], u + |es|, acc + Kept(es));
      r.articles == r'.articles && r.requests == [u] + r'.requests && r.status == r'.status
  {
    var es := pages[0].entries;
    ScanPageMeaning(es, acc);
    assert es[..|es|] == es;
  }

  /** A run at a page that is not good: that request is the last one. */
  lemma ScrapeAtStopPage(pages: seq<Response>, u: int, acc: seq<Article>)
    requires pages == [] || !GoodPage(pages[0])
    ensures Scrape(pages, u, acc) ==
      Run(acc + PartialAt(pages, 0), [u], if EndsEmpty(pages, 0) then Exhausted else Aborted)
  {
    if pages != [] && pages[0].Results? {
      ScanPageMeaning(pages[0].entries, acc);
      if pages[0].entries == [] {
        assert pages[0].entries[..0] == [];
        assert acc + Kept([]) == acc;
      }
    } else {
      assert acc + [] == acc;
    }
  }

  /** The page-by-page description of a run `r` from `pages` at offset `u`
      with accumulator `acc`: with k the page it stops at, the result is the
      accumulator, then the kept entries of pages 0..k-1 in order, then the
      kept entries of page k before the entry that raised; the pages are
      requested at the offsets Offsets gives, and one more request at the
      offset after all their entries; and the run counts as exhausted exactly
      when page k is empty or missing. */
  ghost predicate Describes(pages: seq<Response>, u: int, acc: seq<Article>, r: Run) {
    var k := StopPage(pages);
    && r.articles == acc + Gathered(pages[..k]) + PartialAt(pages, k)
    && r.requests == Requested(pages[..k], u)
    && (r.status == Exhausted <==> EndsEmpty(pages, k))
  }

  lemma DescribesAtStop(pages: seq<Response>, u: int, acc: seq<Article>, r: Run)
    requires pages == [] || !GoodPage(pages[0])
    requires r == Run(acc + PartialAt(pages, 0), [u], if EndsEmpty(pages, 0) then Exhausted else Aborted)
    ensures Describes(pages, u, acc, r)
  {
    assert pages[..0] == [];
    assert acc + Gathered([]) == acc;
  }

  lemma GatheredPrefixCons(pages: seq<Response>, k: nat)
    requires k < |pages|
    ensures Gathered(pages[..k + 1]) == Kept(EntriesOf(pages[0])) + Gathered(pages[1..][..k])
  {
    assert pages[..k + 1][1..] == pages[1..][..k];
  }

  lemma RequestedPrefixCons(pages: seq<Response>, u: int, k: nat, n: nat)
    requires k < |pages| && n == |EntriesOf(pages[0])|
    ensures Requested(pages[..k + 1], u) == [u] + Requested(pages[1..][..k], u + n)
  {
    assert pages[..k + 1][1..] == pages[1..][..k];
  }

  lemma ConcatRegroup<T>(a: seq<T>, b: seq<T>, c: seq<T>, d: seq<T>)
    ensures a + b + c + d == a + (b + c) + d
  {
  }

  lemma ArticlesPastGood(pages: seq<Response>, k: nat, acc: seq<Article>, articles: seq<Article>)
    requires k < |pages|
    requires articles == acc + Kept(EntriesOf(pages[0])) + Gathered(pages[1..][..k]) + PartialAt(pages[1..], k)
    ensures articles == acc + Gathered(pages[..k + 1]) + PartialAt(pages, k + 1)
  {
    GatheredPrefixCons(pages, k);
    StopFactsShift(pages, k);
    ConcatRegroup(acc, Kept(EntriesOf(pages[0])), Gathered(pages[1..][..k]), PartialAt(pages[1..], k));
  }

  lemma DescribesPastGood(pages: seq<Response>, u: int, acc: seq<Article>, r: Run, r': Run)
    requires pages != [] && GoodPage(pages[0])
    requires Describes(pages[1..], u + |pages[0].entries|, acc + Kept(pages[0].entries), r')
    requires r.articles == r'.articles && r.requests == [u] + r'.requests && r.status == r'.status
    ensures Describes(pages, u, acc, r)
  {
    var k := StopPage(pages[1..]);
    assert StopPage(pages) == k + 1;
    assert EntriesOf(pages[0]) == pages[0].entries;
    ArticlesPastGood(pages, k, acc, r.articles);
    RequestsPastGood(pages, u, k, r.requests, r'.requests);
    StatusPastGood(pages, k, r.status);
  }

  lemma RequestsPastGood(pages: seq<Response>, u: int, k: nat, requests: seq<int>, later: seq<int>)
    requires k < |pages|
    requires later == Requested(pages[1..][..k], u + |EntriesOf(pages[0])|)
    requires requests == [u] + later
    ensures requests == Requested(pages[..k + 1], u)
  {
    RequestedPrefixCons(pages, u, k, |EntriesOf(pages[0])|);
  }

  lemma StatusPastGood(pages: seq<Response>, k: nat, status: Status)
    requires k < |pages|
    requires status == Exhausted <==> EndsEmpty(pages[1..], k)
    ensures status == Exhausted <==> EndsEmpty(pages, k + 1)
  {
    StopFactsShift(pages, k);
  }

  /** Every run satisfies the page-by-page description. */
  lemma {:induction false} ScrapeCharacterized(pages: seq<Response>, u: int, acc: seq<Article>)
    ensures Describes(pages, u, acc, Scrape(pages, u, acc))
    decreases |pages|
  {
    if pages == [] || !GoodPage(pages[0]) {
      ScrapeAtStopPage(pages, u, acc);
      DescribesAtStop(pages, u, acc, Scrape(pages, u, acc));
    } else {
      var es := pages[0].entries;
      ScrapeCharacterized(pages[1..], u + |es|, acc + Kept(es));
      ScrapePastGoodPage(pages, u, acc);
      DescribesPastGood(pages, u, acc, Scrape(pages, u, acc), Scrape(pages[1..], u + |es|, acc + Kept(es)));
    }
  }

  /** Monotone growth: a run only appends to its accumulator, so what it
      returns extends the list it started from. */
  lemma ScrapeExtends(pages: seq<Response>, u: int, acc: seq<Article>)
    ensures acc <= Scrape(pages, u, acc).articles
  {
    ScrapeCharacterized(pages, u, acc);
    var k := StopPage(pages);
    PrefixOfConcat(acc, Gathered(pages[..k]), PartialAt(pages, k), Scrape(pages, u, acc).articles);
  }

  lemma PrefixOfConcat<T>(a: seq<T>, b: seq<T>, c: seq<T>, abc: seq<T>)
    requires abc == a + b + c
    ensures a <= abc
  {
    assert abc == a + (b + c);
  }

  lemma {:induction false} StopPageIs(pages: seq<Response>, k: nat)
    requires k <= |pages| && forall j :: 0 <= j < k ==> GoodPage(pages[j])
    requires k < |pages| ==> !GoodPage(pages[k])
    ensures StopPage(pages) == k
  {
    if k > 0 {
      assert GoodPage(pages[0]);
      forall j | 0 <= j < k - 1 ensures GoodPage(pages[1..][j]) {
        assert pages[1..][j] == pages[j + 1];
      }
      if k < |pages| {
        assert pages[1..][k - 1] == pages[k];
      }
      StopPageIs(pages[1..], k - 1);
    }
  }

  /** The run that stops at page k, in the terms the lemmas below use. */
  lemma StoppedRun(pages: seq<Response>, u: int, acc: seq<Article>, k: nat)
    requires k <= |pages| && StopPage(pages) == k
    ensures var r := Scrape(pages, u, acc);
      && r.articles == acc + Gathered(pages[..k]) + PartialAt(pages, k)
      && r.requests == Offsets(pages[..k], u) + [u + Consumed(pages[..k])]
      && (r.status == Exhausted <==> EndsEmpty(pages, k))
  {
    ScrapeCharacterized(pages, u, acc);
    RequestedSplits(pages[..k], u);
  }

  /** A run with no failure: when pages 0..k-1 are good and page k is empty
      (or there is none), the result is the kept entries of those pages in
      order, the offset advances by every entry seen, skipped or kept, and
      the final request is at u plus the number of entries seen. With k = 0
      this is the empty first page: the accumulator comes back unchanged
      after a single request. */
  lemma ScrapeComplete(pages: seq<Response>, u: int, acc: seq<Article>, k: nat)
    requires k <= |pages| && forall j :: 0 <= j < k ==> GoodPage(pages[j])
    requires k == |pages| || pages[k] == Results([])
    ensures var r := Scrape(pages, u, acc);
      && r.articles == acc + Gathered(pages[..k])
      && r.requests == Offsets(pages[..k], u) + [u + Consumed(pages[..k])]
      && r.status == Exhausted
  {
    StopPageIs(pages, k);
    StoppedRun(pages, u, acc, k);
    if k < |pages| {
      assert pages[k].entries[..0] == [];
    }
    assert acc + Gathered(pages[..k]) + [] == acc + Gathered(pages[..k]);
  }

  /** A failed request for page k: the result is exactly what pages
      0..k-1 contributed, and page k was the last one requested. */
  lemma ScrapeFetchFailure(pages: seq<Response>, u: int, acc: seq<Article>, k: nat)
    requires k < |pages| && forall j :: 0 <= j < k ==> GoodPage(pages[j])
    requires pages[k].Failed?
    ensures var r := Scrape(pages, u, acc);
      && r.articles == acc + Gathered(pages[..k])
      && r.requests == Offsets(pages[..k], u) + [u + Consumed(pages[..k])]
      && r.status == Aborted
  {
    StopPageIs(pages, k);
    StoppedRun(pages, u, acc, k);
    assert acc + Gathered(pages[..k]) + [] == acc + Gathered(pages[..k]);
  }

  /** An entry of page k that raises (a missing title or href): the result
      keeps what pages 0..k-1 contributed and the entries of page k that were
      appended before the failing one. */
  lemma ScrapeEntryFailure(pages: seq<Response>, u: int, acc: seq<Article>, k: nat)
    requires k < |pages| && forall j :: 0 <= j < k ==> GoodPage(pages[j])
    requires pages[k].Results? && FirstRaise(pages[k].entries) < |pages[k].entries|
    ensures var r := Scrape(pages, u, acc); var es := pages[k].entries;
      && r.articles == acc + Gathered(pages[..k]) + Kept(es[..FirstRaise(es)])
      && r.requests == Offsets(pages[..k], u) + [u + Consumed(pages[..k])]
      && r.status == Aborted
  {
    StopPageIs(pages, k);
    StoppedRun(pages, u, acc, k);
    var es := pages[k].entries;
    assert PartialAt(pages, k) == Kept(es[..FirstRaise(es)]);
    assert es != [] && !EndsEmpty(pages, k);
  }

  /** Each request after the first starts where the previous page ended:
      its offset is the previous offset plus the number of entries on that
      page, skipped entries included. */
  lemma RequestsAdvance(pages: seq<Response>, u: int, acc: seq<Article>, j: nat)
    requires j + 1 < |Scrape(pages, u, acc).requests|
    ensures j < |pages|
    ensures var r := Scrape(pages, u, acc);
      r.requests[j + 1] == r.requests[j] + |EntriesOf(pages[j])|
  {
    ScrapeCharacterized(pages, u, acc);
    var k := StopPage(pages);
    RequestedStep(pages[..k], u, j);
    assert pages[..k][j] == pages[j];
  }

  /** The `for article in articles` loop of lines 42-52: appends each kept
      entry to `articles`, and stops at the first entry that raises. */
  method ScanArticles(es: seq<Entry>, articles: seq<Article>) returns (after: seq<Article>, raised: bool)
    ensures (after, raised) == ScanPage(es, articles)
  {
    after := articles;
    var i := 0;
    while i < |es|
      invariant i <= |es|
      invariant ScanPage(es[i..], after) == ScanPage(es, articles)
    {
      assert es[i..][1..] == es[i + 1..];
      match EntryStep(es[i]) {
        case Raise =>
          return after, true;
        case Skip =>
        case Keep(a) =>
          after := after + [a];
      }
      i := i + 1;
    }
    raised := false;
  }

  /** The run from a page that was fetched, has entries and none of them
      raised is that one request followed by the run from the next offset. */
  lemma ScrapeGoesOn(ps: seq<Response>, u: int, acc: seq<Article>)
    requires ps != [] && ps[0].Results? && ps[0].entries != []
    requires !ScanPage(ps[0].entries, acc).1
    ensures Scrape(ps, u, acc) ==
      AfterRequests([u], Scrape(ps[1..], u + |ps[0].entries|, ScanPage(ps[0].entries, acc).0))
  {
    var (acc', raised) := ScanPage(ps[0].entries, acc);
    assert acc' == ScanPage(ps[0].entries, acc).0;
  }

  /** The run from a missing, failed or empty page, or from a page one of
      whose entries raises, makes that one request and keeps what the page's
      loop appended. */
  lemma ScrapeStopsAt(ps: seq<Response>, u: int, acc: seq<Article>, after: seq<Article>)
    requires ps == [] || ps[0].Failed? || ps[0].entries == [] || ScanPage(ps[0].entries, acc) == (after, true)
    requires ps == [] || ps[0].Failed? || ps[0].entries == [] ==> after == acc
    ensures Scrape(ps, u, acc).articles == after && Scrape(ps, u, acc).requests == [u]
  {
  }

  lemma AfterRequestsTwice(run: Run, a: seq<int>, b: seq<int>, cur: Run, next: Run)
    requires run == AfterRequests(a, cur) && cur == AfterRequests(b, next)
    ensures run == AfterRequests(a + b, next)
  {
    assert a + (b + next.requests) == a + b + next.requests;
  }

  /** The pagination of `recursive_page_scrape` (lines 22-67) as a loop: one
      iteration per page request, the accumulator a local sequence. A
      top-level call (`recursed` false) starts from the empty list whatever
      `articlesList` is. Returns the list and the offsets it requested. */
  method RecursivePageScrape(pages: seq<Response>, urlNum: int, articlesList: seq<Article>, recursed: bool)
    returns (articles: seq<Article>, requests: seq<int>)
    ensures var r := Scrape(pages, urlNum, if recursed then articlesList else []);
      articles == r.articles && requests == r.requests
  {
    articles := if recursed then articlesList else [];
    ghost var run := Scrape(pages, urlNum, articles);
    requests := [];
    var offset, answers := urlNum, pages;
    while true
      invariant run == AfterRequests(requests, Scrape(answers, offset, articles))
      decreases |answers|
    {
      ghost var before := requests;
      requests := requests + [offset];
      if answers == [] || answers[0].Failed? || answers[0].entries == [] {
        ScrapeStopsAt(answers, offset, articles, articles);
        return;
      }
      var es := answers[0].entries;
      var raised;
      ghost var start := articles;
      articles, raised := ScanArticles(es, articles);
      if raised {
        ScrapeStopsAt(answers, offset, start, articles);
        return;
      }
      ScrapeGoesOn(answers, offset, start);
      AfterRequestsTwice(run, before, [offset], Scrape(answers, offset, start),
        Scrape(answers[1..], offset + |es|, articles));
      offset, answers := offset + |es|, answers[1..];
    }
  }
}
