/**
  The set of links of a sequence of records, shared by the crawler's
  articles and the scraper's processed articles, which both record the
  links they have handed out in a set of processed URLs.
*/
module Links {
  /** The links of `xs`, each read through `link`. */
  function LinksBy<T>(xs: seq<T>, link: T -> string): set<string> {
    set i | 0 <= i < |xs| :: link(xs[i])
  }

  /** Appending one record adds exactly its link. */
  lemma LinksByAppend<T>(xs: seq<T>, x: T, link: T -> string)
    ensures LinksBy(xs + [x], link) == LinksBy(xs, link) + {link(x)}
  {
    var s := xs + [x];
    assert s[|xs|] == x;
    forall y | y in LinksBy(xs, link)
      ensures y in LinksBy(s, link)
    {
      var i :| 0 <= i < |xs| && link(xs[i]) == y;
      assert s[i] == xs[i];
    }
  }

  /** The links of a concatenation are the union of the links of its parts. */
  lemma LinksByConcat<T>(xs: seq<T>, ys: seq<T>, link: T -> string)
    ensures LinksBy(xs + ys, link) == LinksBy(xs, link) + LinksBy(ys, link)
  {
    var s := xs + ys;
    forall y | y in LinksBy(xs, link) ensures y in LinksBy(s, link) {
      var i :| 0 <= i < |xs| && link(xs[i]) == y;
      assert s[i] == xs[i];
    }
    forall y | y in LinksBy(ys, link) ensures y in LinksBy(s, link) {
      var i :| 0 <= i < |ys| && link(ys[i]) == y;
      assert s[|xs| + i] == ys[i];
    }
    forall y | y in LinksBy(s, link) ensures y in LinksBy(xs, link) + LinksBy(ys, link) {
      var i :| 0 <= i < |s| && link(s[i]) == y;
      if i < |xs| { assert s[i] == xs[i]; } else { assert s[i] == ys[i - |xs|]; }
    }
  }
}
