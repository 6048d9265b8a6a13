# Publishing model: authors, magazines and articles

This project models `index.py`, a small in-memory publishing model, in Dafny.

**Entities.** There are three kinds of object: `Author`, `Magazine` and `Article`. Each is a Dafny class, so `==` between them is object identity, just as the Python queries compare `article.author == self` with no `__eq__` defined.
- An author's name is trimmed once at construction and never changes, so it is a `const`.
- A magazine's `name` and `category` can be overwritten through validating setters, so they are `var` fields. `SetName` and `SetCategory` change them in place.
- An article's `author`, `magazine` and `title` are fixed at construction.

**Registries.** The two class-level lists `Magazine._all` and `Article._all` are the fields `magazines` and `articles` of a `Store` object.
- Constructing a magazine or an article is a `Store` method. It either reports a `ValidationError` and leaves both registries as they were, or it appends exactly the new object at the end.
- `Store.Valid()` is the invariant the two methods keep. Every registered article's magazine is registered, and every registered title has a valid length.

**Queries.** The relationship queries are functions over the article registry:
- `articles`, `magazines`, `contributors`, `article_titles`, `topic_areas` and `contributing_authors`, plus the class method `top_publisher`.
- The queries Python answers with `list(set(...))` return Dafny `set`s.
- The queries that return `None` when there is no data return an `Option`.

**Trimming.** `str.strip()` is modelled by `Text.Trim`. It removes leading and trailing ASCII whitespace: the space and the code points 9 to 13 and 28 to 31, which are the ASCII characters Python treats as whitespace.

**Files.**
- `wrappers.dfy`: `Option` and `Result`.
- `text.dfy`: `Trim` and its facts.
- `sequences.dfy`: the subsequence relation used to state "in registry order".
- `publishing.dfy`: the classes, the `Store` and the queries.
- `relationships.dfy`: properties that relate several operations.
- `scenario.dfy`: the demonstration at the end of `index.py`, replayed through the model with the results of its queries proved.

**Preconditions.**
- `Store.NewArticle` and `Author.AddArticle` require the magazine to be in the store's magazine registry. In the source every `Magazine` object that exists has been appended to `Magazine._all` by its constructor, so this only states a fact the source guarantees. It matters because `top_publisher` takes `max` over `Magazine._all`, which raises on an empty list.
- `Magazine.TopPublisher` states the same fact as `registry != [] ==> magazines != []`.

## Model

`Publishing.Magazine.Valid` is the per-object invariant of a magazine. Its name length stays in [2,16], and its category is non-empty and trimmed. `Store.NewMagazine` establishes it for every new magazine, and `SetName` and `SetCategory` keep it. `Relationships.StoredCategoryRevalidates` relies on it.

| member | source | states |
|---|---|---|
| Text.Trim | index.py:10 | the result is a contiguous slice of the input, it has only whitespace before and after it, and it starts and ends with a character that is not whitespace |
| Text.TrimIdempotent | index.py:10 | trimming a trimmed string changes nothing |
| Text.TrimEmptyIffAllSpace | index.py:8 | trimming gives the empty string exactly when every character is whitespace |
| Relationships.AuthorNameRule | index.py:8-9 | an author name is accepted exactly when it has a character that is not whitespace |
| Publishing.Author.Create | index.py:7-10 | construction succeeds exactly when the trimmed name is non-empty; on success a new author holds the trimmed name |
| Publishing.Author.constructor | index.py:10-14 | the stored name is the trimmed argument, non-empty and itself trimmed |
| Publishing.Author.Articles | index.py:16-17 | the result is a subsequence of the registry (registry order kept), it holds only this author's articles, and it holds every one of them |
| Relationships.AuthorArticlesMultiplicity | index.py:16-17 | each article occurs in the result exactly as often as in the registry if this author wrote it, and otherwise not at all |
| Publishing.Author.Magazines | index.py:19-20 | a magazine is in the result exactly when one of the author's registered articles is published in it |
| Publishing.Author.AddArticle | index.py:22-23 | same outcome as article construction with this author: succeeds exactly when the title length is in [5,50], appends exactly the new article on success, leaves the article registry unchanged on failure, never touches the magazine registry, keeps the store invariant |
| Publishing.Author.TopicAreas | index.py:25-29 | `None` exactly when the author has no registered article; otherwise the set of categories of the magazines of the author's articles, in both directions |
| Publishing.Store.constructor | index.py:33 | both registries start out empty and the store invariant holds |
| Publishing.Store.NewMagazine | index.py:35-38 | succeeds exactly when the name length is in [2,16] and the trimmed category is non-empty; on success appends exactly the new magazine holding the untrimmed name and the trimmed category; on failure the magazine registry is unchanged; the article registry is never touched |
| Publishing.Magazine.SetName | index.py:44-50 | succeeds exactly when the length is in [2,16], then stores the value unchanged; on failure the old name stays; the category is untouched |
| Publishing.Magazine.SetCategory | index.py:56-60 | succeeds exactly when the trimmed value is non-empty, then stores the trimmed value; on failure the old category stays; the name is untouched |
| Relationships.StoredCategoryRevalidates | index.py:56-60 | on a magazine satisfying `Magazine.Valid`, the stored category passes the category check and is its own trimmed form, so writing it back through `SetCategory` would succeed and leave it unchanged |
| Publishing.Magazine.Articles | index.py:62-63 | a subsequence of the registry holding exactly the articles published in this magazine |
| Relationships.MagazineArticlesMultiplicity | index.py:62-63 | each article occurs in the result exactly as often as in the registry if it is published in this magazine, and otherwise not at all |
| Publishing.Magazine.Contributors | index.py:65-66 | an author is in the result exactly when they wrote one of the magazine's registered articles |
| Publishing.Magazine.ArticleTitles | index.py:68-72 | `None` exactly when the magazine has no article; otherwise one title per article, in registry order |
| Publishing.Magazine.ContributingAuthors | index.py:74-77 | never `Some` of an empty set; an author is in the result exactly when they wrote more than two of the magazine's articles; `None` when no author qualifies |
| Publishing.AuthorsOf | index.py:75 | the list of authors of the given articles, one per article, in the same order |
| Publishing.AuthorCounts | index.py:75-76 | for every author at once, their number of occurrences in that list is the number of the articles they wrote |
| Publishing.AuthorCount | index.py:75-76 | how often an author occurs in the list of authors of a magazine's articles equals the number of those articles they wrote (the `count` of the source) |
| Publishing.ContributingAuthorsMeaning | index.py:75-76 | the comprehension over distinct authors with `count > 2` holds exactly the authors with more than two of the magazine's articles |
| Publishing.Magazine.TopPublisher | index.py:79-83 | `None` exactly when the article registry is empty; otherwise a registered magazine whose article count is at least every registered magazine's, and no magazine before it in the registry has that count |
| Publishing.MostArticles | index.py:83 | the position `max` picks: a maximal article count, and the first position with it |
| Publishing.FirstMax | index.py:83 | the first position of a largest element of a non-empty list of counts |
| Publishing.Store.NewArticle | index.py:89-102 | succeeds exactly when the title length is in [5,50]; on success appends exactly one new article whose author, magazine and title are the arguments (title not trimmed); on failure the article registry is unchanged; the magazine registry is never touched; keeps the store invariant |
| Publishing.Article.constructor | index.py:99-106 | the author, magazine and title are the arguments |
| Relationships.AuthorArticlesConcat | index.py:16-17 | an author's articles in two registries one after the other are their articles in the first, then those in the second |
| Relationships.MagazineArticlesConcat | index.py:62-63 | the same for a magazine's articles |
| Relationships.AuthorArticlesAfterAppend | index.py:17 | registering an article extends an author's articles by it exactly when they wrote it |
| Relationships.MagazineArticlesAfterAppend | index.py:63 | registering an article extends a magazine's articles by it exactly when it is published there |
| Relationships.ContributorsMatchMagazines | index.py:19-20 | an author contributes to a magazine exactly when the magazine is one of the author's magazines |
| Relationships.ArticlesOfAuthorInMagazine | index.py:17 | an author's articles among a magazine's articles are that magazine's articles among the author's articles |
| Relationships.ContributingAuthorsAreContributors | index.py:74-77 | every contributing author is a contributor |
| Relationships.ContributingAuthorsNoneIff | index.py:74-77 | a magazine has no contributing author exactly when each of its contributors wrote at most two of its articles |
| Relationships.ArticleTitlesAreValid | index.py:68-72 | when every registered title is valid, every title a magazine reports has length in [5,50] |
| Relationships.TopPublisherHasArticles | index.py:79-83 | when some article is registered and all articles' magazines are registered, the top publisher exists and has at least one article |
| Scenario.TopicAreasOfScenario | index.py:121-129 | in the demonstration, Elvis's topic areas are Technology and Health, and Isabelle's are Technology |
| Scenario.ArticleTitlesOfScenario | index.py:121-133 | TechToday lists its four titles in registry order; HealthMag lists its one |
| Scenario.TechContributingAuthors | index.py:121-137 | Isabelle is TechToday's only contributing author |
| Scenario.HealthContributingAuthors | index.py:121-145 | HealthMag has no contributing author |
| Scenario.TopPublisherOfScenario | index.py:121-151 | TechToday is the top publisher |
| Scenario.ReferenceScenario | index.py:113-151 | building the demonstration through the model's construction methods gives the query answers above, with the authors and magazines holding the names "Elvis Chumo", "Isabelle Chumo", "TechToday" and "HealthMag" |
| Scenario.Cast | index.py:113-118 | the two authors and two magazines are distinct, hold the demonstration's names and categories, and are the only registered magazines of a fresh store with no articles |

## Left out

- `import random` (index.py:1) is unused.
- The `isinstance` checks (index.py:8, 46, 58, 90-94) say nothing here, because Dafny's static types already rule out the values they reject.
- The exception message texts are left out. Every failed check is the single result `ValidationError`, or `false` from a setter. Python raises an exception instead.
- Python's `str.strip()` also removes non-ASCII whitespace. `Text.Trim` removes only ASCII whitespace.
- Python sets have an unspecified iteration order. `magazines`, `contributors`, `topic_areas` and `contributing_authors` return lists built from sets, so they are modelled as Dafny sets.
- The class-level lists are global in the source. Here they are the fields of one explicit `Store`, which the construction methods receive.
- A magazine whose construction fails in the source is a half-initialised object that nobody can reach. Here the failed construction just returns `ValidationError` and the object is not returned.
- In Python, `author` and `magazine` are plain attributes of an article that could be reassigned later. The source never does so, and here they are constants.
- The `print` calls of the demonstration (index.py:128-151) are console output. The scenario proves the values they would print: the returned objects and, through `Scenario.Cast` and `Scenario.ReferenceScenario`, the names of the authors and magazines that `index.py:137` and `index.py:149` print.
