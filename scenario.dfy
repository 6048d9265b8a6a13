/** The demonstration from the source (two authors, two magazines, five articles),
    with the answers its queries give, derived from the contracts alone. */
module Scenario {
  import opened Wrappers
  import opened Text
  import opened Publishing
  import opened Relationships

  /** The five demonstration articles, given by author and magazine. */
  predicate Wiring(elvis: Author, isabelle: Author, tech: Magazine, health: Magazine,
                   x0: Article, x1: Article, x2: Article, x3: Article, x4: Article) {
    elvis != isabelle && tech != health &&
    x0.author == elvis && x0.magazine == tech &&
    x1.author == elvis && x1.magazine == health &&
    x2.author == isabelle && x2.magazine == tech &&
    x3.author == isabelle && x3.magazine == tech &&
    x4.author == isabelle && x4.magazine == tech
  }

  /** The sequence identities the query lemmas rely on, proved apart from them. */
  lemma Literals(x0: Article, x1: Article, x2: Article, x3: Article, x4: Article)
    ensures [x0, x1, x2, x3, x4][1..] == [x1, x2, x3, x4]
    ensures [x1, x2, x3, x4][1..] == [x2, x3, x4]
    ensures [x2, x3, x4][1..] == [x3, x4]
    ensures [x3, x4][1..] == [x4]
    ensures [x4][1..] == []
    ensures [x0] + [x1] == [x0, x1]
    ensures [x0] + [x2, x3, x4] == [x0, x2, x3, x4]
    ensures [x2] + [x3, x4] == [x2, x3, x4]
    ensures [x3] + [x4] == [x3, x4]
    ensures [x1] + [] == [x1] && [x4] + [] == [x4]
  {
  }

  lemma ElvisArticles(elvis: Author, isabelle: Author, tech: Magazine, health: Magazine,
      x0: Article, x1: Article, x2: Article, x3: Article, x4: Article)
    requires Wiring(elvis, isabelle, tech, health, x0, x1, x2, x3, x4)
    ensures elvis.Articles([x0, x1, x2, x3, x4]) == [x0, x1]
  {
    Literals(x0, x1, x2, x3, x4);
    assert elvis.Articles([x4]) == [];
    assert elvis.Articles([x3, x4]) == [];
    assert elvis.Articles([x2, x3, x4]) == [];
    assert elvis.Articles([x1, x2, x3, x4]) == [x1];
  }

  lemma IsabelleArticles(elvis: Author, isabelle: Author, tech: Magazine, health: Magazine,
      x0: Article, x1: Article, x2: Article, x3: Article, x4: Article)
    requires Wiring(elvis, isabelle, tech, health, x0, x1, x2, x3, x4)
    ensures isabelle.Articles([x0, x1, x2, x3, x4]) == [x2, x3, x4]
  {
    Literals(x0, x1, x2, x3, x4);
    assert isabelle.Articles([x4]) == [x4];
    assert isabelle.Articles([x3, x4]) == [x3, x4];
    assert isabelle.Articles([x2, x3, x4]) == [x2, x3, x4];
    assert isabelle.Articles([x1, x2, x3, x4]) == [x2, x3, x4];
  }

  lemma TechArticles(elvis: Author, isabelle: Author, tech: Magazine, health: Magazine,
      x0: Article, x1: Article, x2: Article, x3: Article, x4: Article)
    requires Wiring(elvis, isabelle, tech, health, x0, x1, x2, x3, x4)
    ensures tech.Articles([x0, x1, x2, x3, x4]) == [x0, x2, x3, x4]
  {
    Literals(x0, x1, x2, x3, x4);
    assert tech.Articles([x4]) == [x4];
    assert tech.Articles([x3, x4]) == [x3, x4];
    assert tech.Articles([x2, x3, x4]) == [x2, x3, x4];
    assert tech.Articles([x1, x2, x3, x4]) == [x2, x3, x4];
  }

  lemma HealthArticles(elvis: Author, isabelle: Author, tech: Magazine, health: Magazine,
      x0: Article, x1: Article, x2: Article, x3: Article, x4: Article)
    requires Wiring(elvis, isabelle, tech, health, x0, x1, x2, x3, x4)
    ensures health.Articles([x0, x1, x2, x3, x4]) == [x1]
  {
    Literals(x0, x1, x2, x3, x4);
    assert health.Articles([x4]) == [];
    assert health.Articles([x3, x4]) == [];
    assert health.Articles([x2, x3, x4]) == [];
    assert health.Articles([x1, x2, x3, x4]) == [x1];
  }

  /** The magazines and the topic areas of an author whose articles are known. */
  lemma MagazinesOfTwo(a: Author, all: seq<Article>, y0: Article, y1: Article)
    requires a.Articles(all) == [y0, y1]
    ensures a.Magazines(all) == {y0.magazine, y1.magazine}
  {
    assert y0 in [y0, y1] && y1 in [y0, y1];
  }

  lemma CategoriesOfTwo(mags: set<Magazine>, m0: Magazine, m1: Magazine)
    requires mags == {m0, m1}
    ensures (set m | m in mags :: m.category) == {m0.category, m1.category}
  {
    var cats := set m | m in mags :: m.category;
    forall c | c in cats ensures c == m0.category || c == m1.category {
      var m :| m in mags && m.category == c;
    }
    assert m0.category in cats && m1.category in cats;
  }

  lemma CategoriesOfOne(mags: set<Magazine>, m0: Magazine)
    requires mags == {m0}
    ensures (set m | m in mags :: m.category) == {m0.category}
  {
    var cats := set m | m in mags :: m.category;
    forall c | c in cats ensures c == m0.category {
      var m :| m in mags && m.category == c;
    }
    assert m0.category in cats;
  }

  lemma TopicAreasOfTwo(a: Author, all: seq<Article>, y0: Article, y1: Article)
    requires a.Articles(all) == [y0, y1]
    ensures a.TopicAreas(all) == Some({y0.magazine.category, y1.magazine.category})
  {
    MagazinesOfTwo(a, all, y0, y1);
    CategoriesOfTwo(a.Magazines(all), y0.magazine, y1.magazine);
  }

  lemma MagazinesOfThree(a: Author, all: seq<Article>, y0: Article, y1: Article, y2: Article)
    requires a.Articles(all) == [y0, y1, y2]
    requires y1.magazine == y0.magazine && y2.magazine == y0.magazine
    ensures a.Magazines(all) == {y0.magazine}
  {
    assert y0 in [y0, y1, y2];
  }

  lemma TopicAreasOfOneMagazine(a: Author, all: seq<Article>, y0: Article, y1: Article, y2: Article)
    requires a.Articles(all) == [y0, y1, y2]
    requires y1.magazine == y0.magazine && y2.magazine == y0.magazine
    ensures a.TopicAreas(all) == Some({y0.magazine.category})
  {
    MagazinesOfThree(a, all, y0, y1, y2);
    CategoriesOfOne(a.Magazines(all), y0.magazine);
  }

  /** Elvis writes on Technology and Health; Isabelle on Technology only. */
  lemma TopicAreasOfScenario(elvis: Author, isabelle: Author, tech: Magazine, health: Magazine,
      x0: Article, x1: Article, x2: Article, x3: Article, x4: Article)
    requires Wiring(elvis, isabelle, tech, health, x0, x1, x2, x3, x4)
    requires tech.category == "Technology" && health.category == "Health"
    ensures elvis.TopicAreas([x0, x1, x2, x3, x4]) == Some({"Technology", "Health"})
    ensures isabelle.TopicAreas([x0, x1, x2, x3, x4]) == Some({"Technology"})
  {
    ElvisArticles(elvis, isabelle, tech, health, x0, x1, x2, x3, x4);
    IsabelleArticles(elvis, isabelle, tech, health, x0, x1, x2, x3, x4);
    TopicAreasOfTwo(elvis, [x0, x1, x2, x3, x4], x0, x1);
    TopicAreasOfOneMagazine(isabelle, [x0, x1, x2, x3, x4], x2, x3, x4);
  }

  /** TechToday's titles in registry order; HealthMag's single title. */
  lemma ArticleTitlesOfScenario(elvis: Author, isabelle: Author, tech: Magazine, health: Magazine,
      x0: Article, x1: Article, x2: Article, x3: Article, x4: Article)
    requires Wiring(elvis, isabelle, tech, health, x0, x1, x2, x3, x4)
    ensures tech.ArticleTitles([x0, x1, x2, x3, x4]) == Some([x0.title, x2.title, x3.title, x4.title])
    ensures health.ArticleTitles([x0, x1, x2, x3, x4]) == Some([x1.title])
  {
    TechArticles(elvis, isabelle, tech, health, x0, x1, x2, x3, x4);
    HealthArticles(elvis, isabelle, tech, health, x0, x1, x2, x3, x4);
    TitlesOfFour(tech, [x0, x1, x2, x3, x4], x0, x2, x3, x4);
    TitlesOfOne(health, [x0, x1, x2, x3, x4], x1);
  }

  lemma TitlesOfFour(m: Magazine, all: seq<Article>, y0: Article, y1: Article, y2: Article, y3: Article)
    requires m.Articles(all) == [y0, y1, y2, y3]
    ensures m.ArticleTitles(all) == Some([y0.title, y1.title, y2.title, y3.title])
  {
    var r := m.ArticleTitles(all);
    assert r.Some?;
    var t := r.value;
    assert |t| == 4;
    assert t[0] == y0.title && t[1] == y1.title && t[2] == y2.title && t[3] == y3.title;
    assert t == [y0.title, y1.title, y2.title, y3.title];
  }

  lemma TitlesOfOne(m: Magazine, all: seq<Article>, y0: Article)
    requires m.Articles(all) == [y0]
    ensures m.ArticleTitles(all) == Some([y0.title])
  {
    var r := m.ArticleTitles(all);
    assert r.Some?;
    var t := r.value;
    assert |t| == 1 && t[0] == y0.title;
    assert t == [y0.title];
  }

  /** Elvis wrote one article in each magazine; Isabelle wrote three in TechToday. */
  lemma CrossCounts(elvis: Author, isabelle: Author, tech: Magazine, health: Magazine,
      x0: Article, x1: Article, x2: Article, x3: Article, x4: Article)
    requires Wiring(elvis, isabelle, tech, health, x0, x1, x2, x3, x4)
    ensures |elvis.Articles(tech.Articles([x0, x1, x2, x3, x4]))| == 1
    ensures |isabelle.Articles(tech.Articles([x0, x1, x2, x3, x4]))| == 3
    ensures |elvis.Articles(health.Articles([x0, x1, x2, x3, x4]))| == 1
  {
    var all := [x0, x1, x2, x3, x4];
    ElvisArticles(elvis, isabelle, tech, health, x0, x1, x2, x3, x4);
    IsabelleArticles(elvis, isabelle, tech, health, x0, x1, x2, x3, x4);
    ArticlesOfAuthorInMagazine(all, elvis, tech);
    ArticlesOfAuthorInMagazine(all, isabelle, tech);
    ArticlesOfAuthorInMagazine(all, elvis, health);
    TwoAndThree(elvis, isabelle, tech, health, x0, x1, x2, x3, x4);
  }

  lemma TwoAndThree(elvis: Author, isabelle: Author, tech: Magazine, health: Magazine,
      x0: Article, x1: Article, x2: Article, x3: Article, x4: Article)
    requires Wiring(elvis, isabelle, tech, health, x0, x1, x2, x3, x4)
    ensures |tech.Articles([x0, x1])| == 1 && |health.Articles([x0, x1])| == 1
    ensures |tech.Articles([x2, x3, x4])| == 3
  {
    Literals(x0, x1, x2, x3, x4);
    assert [x0, x1][1..] == [x1] && [x1][1..] == [];
    assert health.Articles([x1]) == [x1] + health.Articles([x1][1..]);
    assert health.Articles([]) == [];
    assert tech.Articles([x1]) == [] && health.Articles([x1]) == [x1];
    assert tech.Articles([x4]) == [x4];
    assert tech.Articles([x3, x4]) == [x3, x4];
  }

  /** The contributors of a magazine whose articles are known. */
  lemma ContributorsOfScenario(elvis: Author, isabelle: Author, tech: Magazine, health: Magazine,
      x0: Article, x1: Article, x2: Article, x3: Article, x4: Article)
    requires Wiring(elvis, isabelle, tech, health, x0, x1, x2, x3, x4)
    ensures tech.Contributors([x0, x1, x2, x3, x4]) == {elvis, isabelle}
    ensures health.Contributors([x0, x1, x2, x3, x4]) == {elvis}
  {
    TechArticles(elvis, isabelle, tech, health, x0, x1, x2, x3, x4);
    HealthArticles(elvis, isabelle, tech, health, x0, x1, x2, x3, x4);
    ContributorsOfFour(tech, [x0, x1, x2, x3, x4], x0, x2, x3, x4);
    ContributorsOfOne(health, [x0, x1, x2, x3, x4], x1);
  }

  lemma ContributorsOfFour(m: Magazine, all: seq<Article>, y0: Article, y1: Article, y2: Article, y3: Article)
    requires m.Articles(all) == [y0, y1, y2, y3]
    requires y2.author == y1.author && y3.author == y1.author
    ensures m.Contributors(all) == {y0.author, y1.author}
  {
    assert y0 in [y0, y1, y2, y3] && y1 in [y0, y1, y2, y3];
  }

  lemma ContributorsOfOne(m: Magazine, all: seq<Article>, y0: Article)
    requires m.Articles(all) == [y0]
    ensures m.Contributors(all) == {y0.author}
  {
    assert y0 in [y0];
  }

  /** Of a magazine's two contributors, only the one with more than two articles there contributes. */
  lemma OneContributingAuthor(registry: seq<Article>, m: Magazine, b: Author, a: Author)
    requires m.Contributors(registry) == {b, a}
    requires |a.Articles(m.Articles(registry))| > 2 && |b.Articles(m.Articles(registry))| <= 2
    ensures m.ContributingAuthors(registry) == Some({a})
  {
    assert a in m.Contributors(registry);
    var i :| 0 <= i < |registry| && registry[i].magazine == m && registry[i].author == a;
    var r := m.ContributingAuthors(registry);
    assert r.Some? && a in r.value;
    ContributingAuthorsAreContributors(registry, m);
    assert b !in r.value;
    OnlyOneLeft(r.value, m.Contributors(registry), b, a);
  }

  lemma OnlyOneLeft(v: set<Author>, c: set<Author>, b: Author, a: Author)
    requires v <= c && c == {b, a} && a in v && b !in v
    ensures v == {a}
  {
  }

  /** A magazine whose only contributor wrote at most two of its articles has no contributing author. */
  lemma NoContributingAuthor(registry: seq<Article>, m: Magazine, a: Author)
    requires m.Contributors(registry) == {a}
    requires |a.Articles(m.Articles(registry))| <= 2
    ensures m.ContributingAuthors(registry) == None
  {
    ContributingAuthorsNoneIff(registry, m);
  }

  /** Isabelle is TechToday's one contributing author. */
  lemma TechContributingAuthors(elvis: Author, isabelle: Author, tech: Magazine, health: Magazine,
      x0: Article, x1: Article, x2: Article, x3: Article, x4: Article)
    requires Wiring(elvis, isabelle, tech, health, x0, x1, x2, x3, x4)
    ensures tech.ContributingAuthors([x0, x1, x2, x3, x4]) == Some({isabelle})
  {
    CrossCounts(elvis, isabelle, tech, health, x0, x1, x2, x3, x4);
    ContributorsOfScenario(elvis, isabelle, tech, health, x0, x1, x2, x3, x4);
    OneContributingAuthor([x0, x1, x2, x3, x4], tech, elvis, isabelle);
  }

  /** HealthMag has no contributing author. */
  lemma HealthContributingAuthors(elvis: Author, isabelle: Author, tech: Magazine, health: Magazine,
      x0: Article, x1: Article, x2: Article, x3: Article, x4: Article)
    requires Wiring(elvis, isabelle, tech, health, x0, x1, x2, x3, x4)
    ensures health.ContributingAuthors([x0, x1, x2, x3, x4]) == None
  {
    CrossCounts(elvis, isabelle, tech, health, x0, x1, x2, x3, x4);
    ContributorsOfScenario(elvis, isabelle, tech, health, x0, x1, x2, x3, x4);
    NoContributingAuthor([x0, x1, x2, x3, x4], health, elvis);
  }

  /** TechToday, with four articles against HealthMag's one, is the top publisher. */
  lemma TopPublisherOfScenario(elvis: Author, isabelle: Author, tech: Magazine, health: Magazine,
      x0: Article, x1: Article, x2: Article, x3: Article, x4: Article)
    requires Wiring(elvis, isabelle, tech, health, x0, x1, x2, x3, x4)
    ensures Magazine.TopPublisher([tech, health], [x0, x1, x2, x3, x4]) == Some(tech)
  {
    TechArticles(elvis, isabelle, tech, health, x0, x1, x2, x3, x4);
    HealthArticles(elvis, isabelle, tech, health, x0, x1, x2, x3, x4);
    var r := Magazine.TopPublisher([tech, health], [x0, x1, x2, x3, x4]);
    assert |tech.Articles([x0, x1, x2, x3, x4])| <= |r.value.Articles([x0, x1, x2, x3, x4])|;
  }

  /** The two authors and two magazines of the demonstration, in a fresh store. */
  method Cast() returns (store: Store, elvis: Author, isabelle: Author, tech: Magazine, health: Magazine)
    ensures fresh(store) && store.Valid() && store.articles == [] && store.magazines == [tech, health]
    ensures elvis != isabelle && tech != health
    ensures elvis.name == "Elvis Chumo" && isabelle.name == "Isabelle Chumo"
    ensures tech.name == "TechToday" && health.name == "HealthMag"
    ensures tech.category == "Technology" && health.category == "Health"
  {
    TrimmedIsFixed("Elvis Chumo");
    TrimmedIsFixed("Isabelle Chumo");
    TrimmedIsFixed("Technology");
    TrimmedIsFixed("Health");
    store := new Store();
    var e := Author.Create("Elvis Chumo");
    var i := Author.Create("Isabelle Chumo");
    var t := store.NewMagazine("TechToday", "Technology");
    var h := store.NewMagazine("HealthMag", "Health");
    elvis, isabelle, tech, health := e.value, i.value, t.value, h.value;
  }

  /** The five demonstration articles, written through AddArticle, and what the
      demonstration's queries then answer. */
  method ReferenceScenario() returns (store: Store, elvis: Author, isabelle: Author, tech: Magazine, health: Magazine)
    ensures store.Valid() && store.magazines == [tech, health] && |store.articles| == 5
    ensures elvis.name == "Elvis Chumo" && isabelle.name == "Isabelle Chumo"
    ensures tech.name == "TechToday" && health.name == "HealthMag"
    ensures elvis.TopicAreas(store.articles) == Some({"Technology", "Health"})
    ensures isabelle.TopicAreas(store.articles) == Some({"Technology"})
    ensures tech.ArticleTitles(store.articles) ==
      Some(["The Future of AI", "Robotics Revolution", "AI in Healthcare", "Quantum Computing Simplified"])
    ensures health.ArticleTitles(store.articles) == Some(["Healthy Living Tips"])
    ensures tech.ContributingAuthors(store.articles) == Some({isabelle})
    ensures health.ContributingAuthors(store.articles) == None
    ensures Magazine.TopPublisher(store.magazines, store.articles) == Some(tech)
  {
    store, elvis, isabelle, tech, health := Cast();
    var a1 := elvis.AddArticle(store, tech, "The Future of AI");
    var a2 := elvis.AddArticle(store, health, "Healthy Living Tips");
    var a3 := isabelle.AddArticle(store, tech, "Robotics Revolution");
    var a4 := isabelle.AddArticle(store, tech, "AI in Healthcare");
    var a5 := isabelle.AddArticle(store, tech, "Quantum Computing Simplified");
    var x0, x1, x2, x3, x4 := a1.value, a2.value, a3.value, a4.value, a5.value;
    assert store.articles == [x0, x1, x2, x3, x4];
    assert Wiring(elvis, isabelle, tech, health, x0, x1, x2, x3, x4);
    TopicAreasOfScenario(elvis, isabelle, tech, health, x0, x1, x2, x3, x4);
    ArticleTitlesOfScenario(elvis, isabelle, tech, health, x0, x1, x2, x3, x4);
    TechContributingAuthors(elvis, isabelle, tech, health, x0, x1, x2, x3, x4);
    HealthContributingAuthors(elvis, isabelle, tech, health, x0, x1, x2, x3, x4);
    TopPublisherOfScenario(elvis, isabelle, tech, health, x0, x1, x2, x3, x4);
  }
}
