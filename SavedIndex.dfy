/**
 The index saved after scraping (line 78): the list of `(title, link)` pairs
 becomes a list of single-key maps, item `i` mapping the number `i` to the
 record `{"title": title, "link": link}`. Reading such a list back is its
 inverse.
 */
module SavedIndex {
  import opened Wrappers
  import opened Collector

  /** `{"title": art[0], "link": art[1]}` */
  function Record(a: Article): map<string, string> {
    map["title" := a.title, "link" := a.link]
  }

  /** `[{num: {"title": art[0], "link": art[1]}} for num, art in enumerate(articles)]`:
      as many items as articles, item `i` keyed by `i` alone, its record
      holding exactly the title and the link of article `i`. */
  function Index(articles: seq<Article>): (r: seq<map<int, map<string, string>>>)
    ensures |r| == |articles|
    ensures forall i :: 0 <= i < |r| ==>
      && r[i].Keys == {i} && i in r[i]
      && r[i][i].Keys == {"title", "link"}
      && r[i][i]["title"] == articles[i].title && r[i][i]["link"] == articles[i].link
  {
    seq(|articles|, i requires 0 <= i < |articles| => map[i := Record(articles[i])])
  }

  /** Reads back an index whose items are numbered from `n`: None unless
      every item is a single-key map keyed by its own number whose record
      has exactly the keys "title" and "link". */
  function Unindex(items: seq<map<int, map<string, string>>>, n: int): Option<seq<Article>>
    decreases |items|
  {
    if items == [] then Some([])
    else if n in items[0] && items[0].Keys == {n} && items[0][n].Keys == {"title", "link"} then
      match Unindex(items[1..], n + 1)
      case None => None
      case Some(rest) => Some([Article(items[0][n]["title"], items[0][n]["link"])] + rest)
    else None
  }

  lemma {:induction false} UnindexIndexFrom(articles: seq<Article>, k: nat)
    requires k <= |articles|
    ensures Unindex(Index(articles)[k..], k) == Some(articles[k..])
    decreases |articles| - k
  {
    if k < |articles| {
      UnindexIndexFrom(articles, k + 1);
      var items := Index(articles)[k..];
      assert items[1..] == Index(articles)[k + 1..];
      assert items[0] == Index(articles)[k];
      var a := Article(items[0][k]["title"], items[0][k]["link"]);
      assert a == articles[k];
      assert articles[k..] == [a] + articles[k + 1..];
    } else {
      assert Index(articles)[k..] == [] && articles[k..] == [];
    }
  }

  /** Reading back the index gives the article list it was built from. */
  lemma UnindexIndex(articles: seq<Article>)
    ensures Unindex(Index(articles), 0) == Some(articles)
  {
    UnindexIndexFrom(articles, 0);
    assert Index(articles)[0..] == Index(articles);
    assert articles[0..] == articles;
  }

  lemma {:induction false} UnindexShape(items: seq<map<int, map<string, string>>>, n: int)
    requires Unindex(items, n).Some?
    ensures |Unindex(items, n).value| == |items|
    ensures forall i :: 0 <= i < |items| ==> items[i] == map[n + i := Record(Unindex(items, n).value[i])]
    decreases |items|
  {
    if items != [] {
      UnindexShape(items[1..], n + 1);
      var a := Unindex(items, n).value;
      var m := items[0][n];
      assert m == Record(a[0]);
      assert items[0] == map[n := Record(a[0])];
      forall i | 1 <= i < |items| ensures items[i] == map[n + i := Record(a[i])] {
        assert items[i] == items[1..][i - 1];
        assert a[i] == a[1..][i - 1];
      }
    }
  }

  /** Whatever reads back as an article list is the index of that list. */
  lemma IndexUnindex(items: seq<map<int, map<string, string>>>)
    requires Unindex(items, 0).Some?
    ensures Index(Unindex(items, 0).value) == items
  {
    UnindexShape(items, 0);
    var a := Unindex(items, 0).value;
    forall i | 0 <= i < |items| ensures Index(a)[i] == items[i] {
      assert items[i] == map[0 + i := Record(a[i])];
    }
  }
}
