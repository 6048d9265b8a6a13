/** Authors, magazines and articles, the two append-only registries, and the
    relationship queries that scan the article registry. Authors, magazines and
    articles are objects, so `==` between them is identity, as in the source. */
module Publishing {
  import opened Wrappers
  import opened Text
  import opened Sequences

  /** An author name must keep at least one character once trimmed. */
  predicate ValidAuthorName(name: string) { Trim(name) != [] }

  /** A magazine name must have between 2 and 16 characters; it is not trimmed. */
  predicate ValidMagazineName(name: string) { 2 <= |name| <= 16 }

  /** A category must keep at least one character once trimmed. */
  predicate ValidCategory(category: string) { Trim(category) != [] }

  /** An article title must have between 5 and 50 characters; it is not trimmed. */
  predicate ValidTitle(title: string) { 5 <= |title| <= 50 }

  class Author {
    /** The trimmed name, fixed at construction (there is no setter). */
    const name: string

    /** Builds an author from a name that passed the check; the trimmed form is stored. */
    constructor (name: string)
      requires ValidAuthorName(name)
      ensures this.name == Trim(name)
      ensures this.name != [] && IsTrimmed(this.name)
    {
      this.name := Trim(name);
    }

    /** Author construction: fails on a name that is empty or all whitespace,
        otherwise makes a new author holding the trimmed name. */
    static method Create(name: string) returns (r: Result<Author>)
      ensures r.Success? <==> ValidAuthorName(name)
      ensures r.Success? ==> fresh(r.value) && r.value.name == Trim(name)
    {
      if !ValidAuthorName(name) {
        return ValidationError;
      }
      var a := new Author(name);
      r := Success(a);
    }

    /** The registry's articles written by this author, in registry order. */
    function Articles(registry: seq<Article>): (r: seq<Article>)
      ensures Subsequence(r, registry)
      ensures forall k :: 0 <= k < |r| ==> r[k].author == this
      ensures forall i :: 0 <= i < |registry| && registry[i].author == this ==> registry[i] in r
    {
      if registry == [] then
        EmptySubsequence(registry);
        []
      else
        var rest := Articles(registry[1..]);
        assert forall i :: 1 <= i < |registry| ==> registry[i] == registry[1..][i - 1];
        if registry[0].author == this then
          SubsequenceKeep(rest, registry);
          [registry[0]] + rest
        else
          SubsequenceSkip(rest, registry);
          rest
    }

    /** The magazines this author has written for, without duplicates. */
    function Magazines(registry: seq<Article>): (r: set<Magazine>)
      ensures forall m :: m in r ==> exists i :: 0 <= i < |registry| && registry[i].author == this && registry[i].magazine == m
      ensures forall i :: 0 <= i < |registry| && registry[i].author == this ==> registry[i].magazine in r
    {
      var mine := Articles(registry);
      SubsequenceMembers(mine, registry);
      set x | x in mine :: x.magazine
    }

    /** Writes a new article for `magazine` under this author; the same as constructing the article directly. */
    method AddArticle(store: Store, magazine: Magazine, title: string) returns (r: Result<Article>)
      requires store.Valid() && magazine in store.magazines
      modifies store
      ensures store.Valid()
      ensures r.Success? <==> ValidTitle(title)
      ensures r.Success? ==> (fresh(r.value) && r.value.author == this && r.value.magazine == magazine &&
                              r.value.title == title && store.articles == old(store.articles) + [r.value])
      ensures r.ValidationError? ==> store.articles == old(store.articles)
      ensures store.magazines == old(store.magazines)
    {
      r := store.NewArticle(this, magazine, title);
    }

    /** The categories of the magazines this author has written for, or None when
        the author has no article: never an empty set. */
    function TopicAreas(registry: seq<Article>): (r: Option<set<string>>)
      reads Magazines(registry)
      ensures r.None? <==> forall i :: 0 <= i < |registry| ==> registry[i].author != this
      ensures r.Some? ==> forall c :: c in r.value ==>
        exists i :: 0 <= i < |registry| && registry[i].author == this && registry[i].magazine.category == c
      ensures r.Some? ==> forall i :: 0 <= i < |registry| && registry[i].author == this ==>
        registry[i].magazine.category in r.value
    {
      var mags := Magazines(registry);
      if mags != {} then Some(set m | m in mags :: m.category) else None
    }
  }

  class Magazine {
    var name: string
    var category: string

    /** Both fields hold values their setters accept. */
    ghost predicate Valid()
      reads this
    {
      ValidMagazineName(name) && category != [] && IsTrimmed(category)
    }

    /** The object before its setters run in construction; it is registered only by Store.NewMagazine. */
    constructor Blank()
      ensures name == [] && category == []
    {
      name := [];
      category := [];
    }

    /** The name setter: accepts exactly the values of 2 to 16 characters and stores
        them unchanged; a rejected value (result false) leaves the old name. */
    method SetName(value: string) returns (ok: bool)
      modifies this
      ensures ok <==> ValidMagazineName(value)
      ensures name == if ok then value else old(name)
      ensures category == old(category)
      ensures old(Valid()) ==> Valid()
    {
      if !ValidMagazineName(value) {
        return false;
      }
      name := value;
      ok := true;
    }

    /** The category setter: accepts exactly the values that are not empty once
        trimmed and stores the trimmed form; a rejected value leaves the old category. */
    method SetCategory(value: string) returns (ok: bool)
      modifies this
      ensures ok <==> ValidCategory(value)
      ensures category == if ok then Trim(value) else old(category)
      ensures ok ==> category != [] && IsTrimmed(category)
      ensures name == old(name)
      ensures old(Valid()) ==> Valid()
    {
      if !ValidCategory(value) {
        return false;
      }
      category := Trim(value);
      ok := true;
    }

    /** The registry's articles published in this magazine, in registry order. */
    function Articles(registry: seq<Article>): (r: seq<Article>)
      ensures Subsequence(r, registry)
      ensures forall k :: 0 <= k < |r| ==> r[k].magazine == this
      ensures forall i :: 0 <= i < |registry| && registry[i].magazine == this ==> registry[i] in r
    {
      if registry == [] then
        EmptySubsequence(registry);
        []
      else
        var rest := Articles(registry[1..]);
        assert forall i :: 1 <= i < |registry| ==> registry[i] == registry[1..][i - 1];
        if registry[0].magazine == this then
          SubsequenceKeep(rest, registry);
          [registry[0]] + rest
        else
          SubsequenceSkip(rest, registry);
          rest
    }

    /** The authors who have written for this magazine, without duplicates. */
    function Contributors(registry: seq<Article>): (r: set<Author>)
      ensures forall a :: a in r ==> exists i :: 0 <= i < |registry| && registry[i].magazine == this && registry[i].author == a
      ensures forall i :: 0 <= i < |registry| && registry[i].magazine == this ==> registry[i].author in r
    {
      var mine := Articles(registry);
      SubsequenceMembers(mine, registry);
      set x | x in mine :: x.author
    }

    /** The titles of this magazine's articles, one per article in registry order,
        or None when it has no article: never an empty list. */
    function ArticleTitles(registry: seq<Article>): (r: Option<seq<string>>)
      ensures r.None? <==> Articles(registry) == []
      ensures r.None? <==> forall i :: 0 <= i < |registry| ==> registry[i].magazine != this
      ensures r.Some? ==> |r.value| == |Articles(registry)|
      ensures r.Some? ==> forall k :: 0 <= k < |r.value| ==> r.value[k] == Articles(registry)[k].title
    {
      var arts := Articles(registry);
      SubsequenceMembers(arts, registry);
      if arts != [] then
        assert arts[0] in registry;
        Some(seq(|arts|, k requires 0 <= k < |arts| => arts[k].title))
      else
        None
    }

    /** The authors of strictly more than two of this magazine's articles, without
        duplicates, or None when no author qualifies: never an empty set. */
    function ContributingAuthors(registry: seq<Article>): (r: Option<set<Author>>)
      ensures r.Some? ==> r.value != {}
      ensures r.Some? ==> forall a :: a in r.value ==> |a.Articles(Articles(registry))| > 2
      ensures forall i :: 0 <= i < |registry| && |registry[i].author.Articles(Articles(registry))| > 2 ==>
        r.Some? && registry[i].author in r.value
    {
      var arts := Articles(registry);
      var authors := AuthorsOf(arts);
      var result := set a | a in authors && multiset(authors)[a] > 2;
      ContributingAuthorsMeaning(arts, registry, this, result);
      if result != {} then Some(result) else None
    }

    /** The first magazine of the registry, in registry order, with the most articles;
        None when no article exists at all. */
    static function TopPublisher(magazines: seq<Magazine>, registry: seq<Article>): (r: Option<Magazine>)
      requires registry != [] ==> magazines != []
      ensures r.None? <==> registry == []
      ensures r.Some? ==> r.value in magazines
      ensures r.Some? ==> forall m :: m in magazines ==> |m.Articles(registry)| <= |r.value.Articles(registry)|
      ensures r.Some? ==> exists i :: (0 <= i < |magazines| && magazines[i] == r.value &&
                                       forall j :: 0 <= j < i ==> |magazines[j].Articles(registry)| < |r.value.Articles(registry)|)
    {
      if registry == [] then None else Some(magazines[MostArticles(magazines, registry)])
    }
  }

  class Article {
    const author: Author
    const magazine: Magazine
    /** The title as given, never trimmed and never reassigned. */
    const title: string

    /** Builds an article from a title that passed the length check. */
    constructor (author: Author, magazine: Magazine, title: string)
      requires ValidTitle(title)
      ensures this.author == author && this.magazine == magazine && this.title == title
    {
      this.author := author;
      this.magazine := magazine;
      this.title := title;
    }
  }

  /** The position `max` settles on when it scans `magazines` left to right, keyed by
      article count, and replaces its candidate only by a strictly larger count: the
      first magazine whose count is maximal. */
  function MostArticles(magazines: seq<Magazine>, registry: seq<Article>): (i: nat)
    requires magazines != []
    ensures i < |magazines|
    ensures forall j :: 0 <= j < |magazines| ==> |magazines[j].Articles(registry)| <= |magazines[i].Articles(registry)|
    ensures forall j :: 0 <= j < i ==> |magazines[j].Articles(registry)| < |magazines[i].Articles(registry)|
  {
    FirstMax(ArticleCounts(magazines, registry))
  }

  /** The article count of each magazine, in order. */
  function ArticleCounts(magazines: seq<Magazine>, registry: seq<Article>): (c: seq<nat>)
    ensures |c| == |magazines| && forall j :: 0 <= j < |magazines| ==> c[j] == |magazines[j].Articles(registry)|
  {
    seq(|magazines|, j requires 0 <= j < |magazines| => |magazines[j].Articles(registry)|)
  }

  /** The first position of a largest element, found by a left-to-right scan that
      moves on only for a strictly larger element. */
  function FirstMax(c: seq<nat>): (i: nat)
    requires c != []
    ensures i < |c|
    ensures forall j :: 0 <= j < |c| ==> c[j] <= c[i]
    ensures forall j :: 0 <= j < i ==> c[j] < c[i]
  {
    if |c| == 1 then 0
    else
      var init := c[..|c| - 1];
      var k := FirstMax(init);
      assert c[k] == init[k];
      assert forall j :: 0 <= j < |init| ==> c[j] == init[j];
      if c[|c| - 1] > c[k] then |c| - 1 else k
  }

  /** The authors of `arts`, one per article, in order. */
  function AuthorsOf(arts: seq<Article>): (r: seq<Author>)
    ensures |r| == |arts| && forall i :: 0 <= i < |arts| ==> r[i] == arts[i].author
  {
    seq(|arts|, i requires 0 <= i < |arts| => arts[i].author)
  }

  /** How often an author occurs among the authors of `arts` is how many of `arts` they wrote. */
  lemma {:induction false} AuthorCount(arts: seq<Article>, a: Author)
    ensures multiset(AuthorsOf(arts))[a] == |a.Articles(arts)|
  {
    if arts != [] {
      AuthorCount(arts[1..], a);
      assert AuthorsOf(arts) == [arts[0].author] + AuthorsOf(arts[1..]);
    }
  }

  lemma AuthorCounts(arts: seq<Article>)
    ensures forall a: Author :: multiset(AuthorsOf(arts))[a] == |a.Articles(arts)|
  {
    forall a: Author ensures multiset(AuthorsOf(arts))[a] == |a.Articles(arts)| {
      AuthorCount(arts, a);
    }
  }

  /** The authors counted more than twice among the authors of `arts` are those
      who wrote more than two of `arts`; when `arts` are a magazine's articles, every
      registry author with more than two of them is among them. */
  lemma ContributingAuthorsMeaning(arts: seq<Article>, registry: seq<Article>, m: Magazine, result: set<Author>)
    requires arts == m.Articles(registry)
    requires result == set a | a in AuthorsOf(arts) && multiset(AuthorsOf(arts))[a] > 2
    ensures forall a :: a in result ==> |a.Articles(arts)| > 2
    ensures forall i :: 0 <= i < |registry| && |registry[i].author.Articles(arts)| > 2 ==> registry[i].author in result
  {
    AuthorCounts(arts);
    forall i | 0 <= i < |registry| && |registry[i].author.Articles(arts)| > 2
      ensures registry[i].author in result
    {
      var a := registry[i].author;
      assert multiset(AuthorsOf(arts))[a] > 2;
      assert a in AuthorsOf(arts);
    }
  }

  /** The two registries, owned by one store instead of living as process-wide lists. */
  class Store {
    /** Every magazine ever constructed successfully, in construction order. */
    var magazines: seq<Magazine>
    /** Every article ever constructed successfully, in construction order. */
    var articles: seq<Article>

    /** Every registered article has a valid title and a registered magazine. */
    ghost predicate Valid()
      reads this
    {
      forall i :: 0 <= i < |articles| ==> articles[i].magazine in magazines && ValidTitle(articles[i].title)
    }

    constructor ()
      ensures Valid() && magazines == [] && articles == []
    {
      magazines := [];
      articles := [];
    }

    /** Magazine construction: runs the name setter and then the category setter on a
        new magazine and registers it at the end only when both accept. */
    method NewMagazine(name: string, category: string) returns (r: Result<Magazine>)
      requires Valid()
      modifies this
      ensures Valid()
      ensures r.Success? <==> ValidMagazineName(name) && ValidCategory(category)
      ensures r.Success? ==> (fresh(r.value) && r.value.name == name && r.value.category == Trim(category) &&
                              r.value.Valid() && magazines == old(magazines) + [r.value])
      ensures r.ValidationError? ==> magazines == old(magazines)
      ensures articles == old(articles)
    {
      var m := new Magazine.Blank();
      var ok := m.SetName(name);
      if !ok {
        return ValidationError;
      }
      ok := m.SetCategory(category);
      if !ok {
        return ValidationError;
      }
      magazines := magazines + [m];
      r := Success(m);
    }

    /** Article construction: rejects a title outside 5 to 50 characters and otherwise
        registers a new article holding exactly the given author, magazine and title. */
    method NewArticle(author: Author, magazine: Magazine, title: string) returns (r: Result<Article>)
      requires Valid() && magazine in magazines
      modifies this
      ensures Valid()
      ensures r.Success? <==> ValidTitle(title)
      ensures r.Success? ==> (fresh(r.value) && r.value.author == author && r.value.magazine == magazine &&
                              r.value.title == title && articles == old(articles) + [r.value])
      ensures r.ValidationError? ==> articles == old(articles)
      ensures magazines == old(magazines)
    {
      if !ValidTitle(title) {
        return ValidationError;
      }
      var x := new Article(author, magazine, title);
      articles := articles + [x];
      r := Success(x);
    }
  }
}
