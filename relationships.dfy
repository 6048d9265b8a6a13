/** Properties that relate several queries and operations of the publishing model. */
module Relationships {
  import opened Wrappers
  import opened Text
  import opened Sequences
  import opened Publishing

  /** An author name is accepted exactly when it has a character that is not whitespace. */
  lemma AuthorNameRule(name: string)
    ensures ValidAuthorName(name) <==> exists k :: 0 <= k < |name| && !IsSpace(name[k])
  {
    TrimEmptyIffAllSpace(name);
  }

  /** A valid magazine's stored category is its own trimmed form and passes the category
      check again, so writing a magazine's category back through its setter succeeds and
      leaves it as it was. */
  lemma StoredCategoryRevalidates(m: Magazine)
    requires m.Valid()
    ensures ValidCategory(m.category) && Trim(m.category) == m.category
  {
    TrimmedIsFixed(m.category);
  }

  /** Each article occurs among an author's articles exactly as often as it occurs in the
      registry when the author wrote it, and not at all otherwise; with the subsequence
      property this pins the result down to the registry order filter. */
  lemma {:induction false} AuthorArticlesMultiplicity(registry: seq<Article>, a: Author, x: Article)
    ensures multiset(a.Articles(registry))[x] == if x.author == a then multiset(registry)[x] else 0
  {
    if registry != [] {
      AuthorArticlesMultiplicity(registry[1..], a, x);
      assert registry == [registry[0]] + registry[1..];
    }
  }

  /** Each article occurs among a magazine's articles exactly as often as it occurs in the
      registry when it is published there, and not at all otherwise. */
  lemma {:induction false} MagazineArticlesMultiplicity(registry: seq<Article>, m: Magazine, x: Article)
    ensures multiset(m.Articles(registry))[x] == if x.magazine == m then multiset(registry)[x] else 0
  {
    if registry != [] {
      MagazineArticlesMultiplicity(registry[1..], m, x);
      assert registry == [registry[0]] + registry[1..];
    }
  }

  /** An author's articles in a concatenation of registries are their articles in each, in turn. */
  lemma {:induction false} AuthorArticlesConcat(s: seq<Article>, t: seq<Article>, a: Author)
    ensures a.Articles(s + t) == a.Articles(s) + a.Articles(t)
  {
    if s == [] {
      assert s + t == t;
    } else {
      assert (s + t)[1..] == s[1..] + t;
      AuthorArticlesConcat(s[1..], t, a);
    }
  }

  /** A magazine's articles in a concatenation of registries are its articles in each, in turn. */
  lemma {:induction false} MagazineArticlesConcat(s: seq<Article>, t: seq<Article>, m: Magazine)
    ensures m.Articles(s + t) == m.Articles(s) + m.Articles(t)
  {
    if s == [] {
      assert s + t == t;
    } else {
      assert (s + t)[1..] == s[1..] + t;
      MagazineArticlesConcat(s[1..], t, m);
    }
  }

  /** Registering an article extends an author's articles by that article exactly
      when it is theirs, and leaves every other author's articles as they were. */
  lemma AuthorArticlesAfterAppend(registry: seq<Article>, x: Article, a: Author)
    ensures a.Articles(registry + [x]) == a.Articles(registry) + (if x.author == a then [x] else [])
  {
    AuthorArticlesConcat(registry, [x], a);
    assert [x][1..] == [];
  }

  /** Registering an article extends a magazine's articles by that article exactly
      when it is published there. */
  lemma MagazineArticlesAfterAppend(registry: seq<Article>, x: Article, m: Magazine)
    ensures m.Articles(registry + [x]) == m.Articles(registry) + (if x.magazine == m then [x] else [])
  {
    MagazineArticlesConcat(registry, [x], m);
    assert [x][1..] == [];
  }

  /** An author contributes to a magazine exactly when the magazine is one of the author's. */
  lemma ContributorsMatchMagazines(registry: seq<Article>, a: Author, m: Magazine)
    ensures a in m.Contributors(registry) <==> m in a.Magazines(registry)
  {
    if a in m.Contributors(registry) {
      var i :| 0 <= i < |registry| && registry[i].magazine == m && registry[i].author == a;
      assert m in a.Magazines(registry);
    }
    if m in a.Magazines(registry) {
      var i :| 0 <= i < |registry| && registry[i].author == a && registry[i].magazine == m;
      assert a in m.Contributors(registry);
    }
  }

  /** The articles an author wrote in a magazine are the same whether they are picked
      from the magazine's articles or from the author's. */
  lemma {:induction false} ArticlesOfAuthorInMagazine(registry: seq<Article>, a: Author, m: Magazine)
    ensures a.Articles(m.Articles(registry)) == m.Articles(a.Articles(registry))
  {
    if registry != [] {
      ArticlesOfAuthorInMagazine(registry[1..], a, m);
      var x := registry[0];
      var ma, am := m.Articles(registry[1..]), a.Articles(registry[1..]);
      if x.magazine == m { assert ([x] + ma)[1..] == ma; }
      if x.author == a { assert ([x] + am)[1..] == am; }
    }
  }

  /** Every contributing author of a magazine is one of its contributors. */
  lemma ContributingAuthorsAreContributors(registry: seq<Article>, m: Magazine)
    ensures m.ContributingAuthors(registry).Some? ==> m.ContributingAuthors(registry).value <= m.Contributors(registry)
  {
    var r := m.ContributingAuthors(registry);
    if r.Some? {
      forall a | a in r.value ensures a in m.Contributors(registry) {
        var arts := m.Articles(registry);
        var mine := a.Articles(arts);
        assert |mine| > 2;
        SubsequenceMembers(mine, arts);
        SubsequenceMembers(arts, registry);
        var k :| 0 <= k < |arts| && arts[k] == mine[0];
        var i :| 0 <= i < |registry| && registry[i] == arts[k];
      }
    }
  }

  /** A magazine has no contributing author exactly when each of its contributors
      wrote at most two of its articles. */
  lemma ContributingAuthorsNoneIff(registry: seq<Article>, m: Magazine)
    ensures m.ContributingAuthors(registry).None? <==>
      forall a :: a in m.Contributors(registry) ==> |a.Articles(m.Articles(registry))| <= 2
  {
    var r := m.ContributingAuthors(registry);
    if r.Some? {
      var a :| a in r.value;
      ContributingAuthorsAreContributors(registry, m);
      assert a in m.Contributors(registry);
    } else {
      forall a | a in m.Contributors(registry) ensures |a.Articles(m.Articles(registry))| <= 2 {
        var i :| 0 <= i < |registry| && registry[i].magazine == m && registry[i].author == a;
      }
    }
  }

  /** In a registry whose titles are all valid, every listed article title is valid. */
  lemma ArticleTitlesAreValid(registry: seq<Article>, m: Magazine)
    requires forall i :: 0 <= i < |registry| ==> ValidTitle(registry[i].title)
    ensures m.ArticleTitles(registry).Some? ==>
      forall k :: 0 <= k < |m.ArticleTitles(registry).value| ==> ValidTitle(m.ArticleTitles(registry).value[k])
  {
    var arts := m.Articles(registry);
    SubsequenceMembers(arts, registry);
    forall k | 0 <= k < |arts| ensures ValidTitle(arts[k].title) {
      assert arts[k] in arts;
    }
  }

  /** When every article's magazine is registered and some article exists, the top
      publisher has at least one article. */
  lemma TopPublisherHasArticles(magazines: seq<Magazine>, registry: seq<Article>)
    requires registry != []
    requires forall i :: 0 <= i < |registry| ==> registry[i].magazine in magazines
    ensures magazines != []
    ensures Magazine.TopPublisher(magazines, registry).Some?
    ensures |Magazine.TopPublisher(magazines, registry).value.Articles(registry)| >= 1
  {
    assert registry[0].magazine in magazines;
    var m := registry[0].magazine;
    assert registry[0] in m.Articles(registry);
  }
}
