/**
 * `DatabaseStorage`: the CRUD layer over the three tables. Each table is a
 * sequence of rows in insertion order, and each serial primary key is a
 * counter. A write that violates a unique or foreign-key constraint is refused
 * by the database; the model returns None for it and leaves every table as it
 * was.
 */
module Storage {
  import opened Wrappers
  import opened Rows
  import opened Schema

  /** A comment of the listing, joined with its author (`with: { author: true }`). */
  datatype CommentWithAuthor = CommentWithAuthor(comment: Comment, author: Option<User>)

  /** An article of the listing, joined with its author and its comments. */
  datatype ArticleWithDetails =
    ArticleWithDetails(article: Article, author: Option<User>, comments: seq<CommentWithAuthor>)

  /// Row selectors, the `where(eq(...))` clauses of the queries.

  function UserWithId(id: int): User -> bool { (u: User) => u.id == id }
  function UserWithUsername(username: string): User -> bool { (u: User) => u.username == username }
  function UserWithEmail(email: string): User -> bool { (u: User) => u.email == email }
  function ArticleWithId(id: int): Article -> bool { (a: Article) => a.id == id }
  function CommentWithId(id: int): Comment -> bool { (c: Comment) => c.id == id }
  function CommentOnArticle(articleId: int): Comment -> bool { (c: Comment) => c.articleId == articleId }
  function ArticleOtherThan(id: int): Article -> bool { (a: Article) => a.id != id }
  function CommentOtherThan(id: int): Comment -> bool { (c: Comment) => c.id != id }
  function CommentNotOnArticle(articleId: int): Comment -> bool { (c: Comment) => c.articleId != articleId }

  /// The nested listing of `getArticles`.

  /** A relation `one(users, ...)`: the user whose id is `id`, if any. */
  function AuthorOf(users: seq<User>, id: int): (r: Option<User>)
    ensures r.Some? ==> r.value in users && r.value.id == id
    ensures r.None? <==> id !in UserIds(users)
  {
    Find(users, UserWithId(id))
  }

  /** Joins each comment of `cs` with its author, keeping the order. */
  function WithAuthors(users: seq<User>, cs: seq<Comment>): (r: seq<CommentWithAuthor>)
    ensures |r| == |cs|
    ensures forall k :: 0 <= k < |r| ==> r[k] == CommentWithAuthor(cs[k], AuthorOf(users, cs[k].authorId))
  {
    seq(|cs|, k requires 0 <= k < |cs| => CommentWithAuthor(cs[k], AuthorOf(users, cs[k].authorId)))
  }

  /** The comments of article `articleId`, newest first, each with its author. */
  function Thread(users: seq<User>, comments: seq<Comment>, articleId: int): (r: seq<CommentWithAuthor>)
    ensures IsThread(users, comments, articleId, r)
  {
    var cs := SortNewestFirst(Filter(comments, CommentOnArticle(articleId)), CommentCreatedAt);
    JoinedIsThread(users, comments, articleId, cs);
    WithAuthors(users, cs)
  }

  /** `t` holds exactly the comments of article `articleId`, newest first, each
      joined with the user its `authorId` names. */
  ghost predicate IsThread(users: seq<User>, comments: seq<Comment>, articleId: int,
                           t: seq<CommentWithAuthor>)
  {
    && (forall k :: 0 <= k < |t| ==> t[k].comment in comments && t[k].comment.articleId == articleId)
    && (forall c :: c in comments && c.articleId == articleId ==>
          exists k :: 0 <= k < |t| && t[k].comment == c)
    && (forall k, l :: 0 <= k < l < |t| ==> t[k].comment.createdAt >= t[l].comment.createdAt)
    && (forall k :: 0 <= k < |t| ==> t[k].author == AuthorOf(users, t[k].comment.authorId))
  }

  /** Joining authors onto exactly the comments of an article, held newest
      first, gives that article's thread. */
  lemma JoinedIsThread(users: seq<User>, comments: seq<Comment>, articleId: int, cs: seq<Comment>)
    requires forall c :: c in cs <==> c in comments && c.articleId == articleId
    requires NewestFirst(cs, CommentCreatedAt)
    ensures IsThread(users, comments, articleId, WithAuthors(users, cs))
  {
    var t := WithAuthors(users, cs);
    forall k | 0 <= k < |t|
      ensures t[k].comment in comments && t[k].comment.articleId == articleId
    {
      assert t[k].comment == cs[k];
    }
    forall c | c in comments && c.articleId == articleId
      ensures exists k :: 0 <= k < |t| && t[k].comment == c
    {
      var k :| 0 <= k < |cs| && cs[k] == c;
      assert t[k].comment == c;
    }
    forall k, l | 0 <= k < l < |t|
      ensures t[k].comment.createdAt >= t[l].comment.createdAt
    {
      assert CommentCreatedAt(cs[k]) >= CommentCreatedAt(cs[l]);
    }
  }

  /** Article `a` joined with its author and its thread. */
  function Details(users: seq<User>, comments: seq<Comment>, a: Article): (r: ArticleWithDetails)
    ensures r.article == a && r.author == AuthorOf(users, a.authorId)
    ensures IsThread(users, comments, a.id, r.comments)
  {
    ArticleWithDetails(a, AuthorOf(users, a.authorId), Thread(users, comments, a.id))
  }

  /** Each article of `articles`, in order, joined with its author and its
      comments. */
  function DetailsOf(users: seq<User>, comments: seq<Comment>, articles: seq<Article>)
    : (r: seq<ArticleWithDetails>)
    ensures |r| == |articles|
    ensures forall i :: 0 <= i < |r| ==> r[i].article == articles[i]
    ensures forall i :: 0 <= i < |r| ==> r[i].author == AuthorOf(users, articles[i].authorId)
    ensures forall i :: 0 <= i < |r| ==> IsThread(users, comments, articles[i].id, r[i].comments)
  {
    seq(|articles|, i requires 0 <= i < |articles| => Details(users, comments, articles[i]))
  }

  /** The result of `getArticles`: every article, newest first, with its author
      and its comments. */
  function ListArticles(users: seq<User>, articles: seq<Article>, comments: seq<Comment>)
    : (r: seq<ArticleWithDetails>)
    ensures |r| == |articles|
  {
    DetailsOf(users, comments, SortNewestFirst(articles, ArticleCreatedAt))
  }

  /** The listing holds the articles of the table and no others. */
  lemma ListingHoldsEveryArticle(users: seq<User>, articles: seq<Article>, comments: seq<Comment>)
    ensures var r := ListArticles(users, articles, comments);
      && (forall i :: 0 <= i < |r| ==> r[i].article in articles)
      && (forall a :: a in articles ==> exists i :: 0 <= i < |r| && r[i].article == a)
  {
    var sorted := SortNewestFirst(articles, ArticleCreatedAt);
    var r := ListArticles(users, articles, comments);
    forall i | 0 <= i < |r|
      ensures r[i].article in articles
    {
      assert r[i].article == sorted[i];
    }
    forall a | a in articles
      ensures exists i :: 0 <= i < |r| && r[i].article == a
    {
      var i :| 0 <= i < |sorted| && sorted[i] == a;
      assert r[i].article == a;
    }
  }

  /** The listing is ordered by `createdAt`, newest first. */
  lemma ListingNewestFirst(users: seq<User>, articles: seq<Article>, comments: seq<Comment>)
    ensures var r := ListArticles(users, articles, comments);
      forall i, j :: 0 <= i < j < |r| ==> r[i].article.createdAt >= r[j].article.createdAt
  {
    var sorted := SortNewestFirst(articles, ArticleCreatedAt);
    var r := ListArticles(users, articles, comments);
    forall i, j | 0 <= i < j < |r|
      ensures r[i].article.createdAt >= r[j].article.createdAt
    {
      assert r[i].article == sorted[i] && r[j].article == sorted[j];
      assert ArticleCreatedAt(sorted[i]) >= ArticleCreatedAt(sorted[j]);
    }
  }

  /** Each article of the listing carries the user its `authorId` names and
      exactly its own comments, newest first, each with its author. */
  lemma ListingJoins(users: seq<User>, articles: seq<Article>, comments: seq<Comment>)
    ensures var r := ListArticles(users, articles, comments);
      && (forall i :: 0 <= i < |r| ==> r[i].author == AuthorOf(users, r[i].article.authorId))
      && (forall i :: 0 <= i < |r| ==> IsThread(users, comments, r[i].article.id, r[i].comments))
  {
  }

  /** Under the table constraints the listing holds each article once, and
      every article and comment has its author. */
  lemma {:induction false} ListingComplete(users: seq<User>, articles: seq<Article>, comments: seq<Comment>)
    requires Constraints(users, articles, comments)
    ensures var r := ListArticles(users, articles, comments);
      && (forall i, j :: 0 <= i < j < |r| ==> r[i].article.id != r[j].article.id)
      && (forall i :: 0 <= i < |r| ==> r[i].author.Some?)
      && (forall i, k :: 0 <= i < |r| && 0 <= k < |r[i].comments| ==> r[i].comments[k].author.Some?)
  {
    var r := ListArticles(users, articles, comments);
    var sorted := SortNewestFirst(articles, ArticleCreatedAt);
    ArticlesOrderedByKey(articles);
    IncreasingIsDistinct(articles, ArticleId);
    SortKeepsDistinct(articles, ArticleCreatedAt, ArticleId);
    forall i, j | 0 <= i < j < |r|
      ensures r[i].article.id != r[j].article.id
    {
      assert r[i].article == sorted[i] && r[j].article == sorted[j];
      assert ArticleId(sorted[i]) != ArticleId(sorted[j]);
    }
    forall i, k | 0 <= i < |r| && 0 <= k < |r[i].comments|
      ensures r[i].comments[k].author.Some?
    {
      assert r[i].comments[k].comment in comments;
    }
  }

  /** Within one article's thread, each comment appears once. */
  lemma {:induction false} ThreadHasNoRepeats(users: seq<User>, comments: seq<Comment>, articleId: int)
    requires CommentsOrdered(comments)
    ensures var t := Thread(users, comments, articleId);
      forall k, l :: 0 <= k < l < |t| ==> t[k].comment.id != t[l].comment.id
  {
    CommentsOrderedByKey(comments);
    var f := Filter(comments, CommentOnArticle(articleId));
    FilterKeepsIncreasing(comments, CommentOnArticle(articleId), CommentId);
    IncreasingIsDistinct(f, CommentId);
    SortKeepsDistinct(f, CommentCreatedAt, CommentId);
    var cs := SortNewestFirst(f, CommentCreatedAt);
    var t := Thread(users, comments, articleId);
    forall k, l | 0 <= k < l < |t|
      ensures t[k].comment.id != t[l].comment.id
    {
      assert t[k].comment == cs[k] && t[l].comment == cs[l];
      assert CommentId(cs[k]) != CommentId(cs[l]);
    }
  }

  /** A row appended under a fresh id is the one a lookup by that id finds. */
  lemma {:induction false} FreshArticleFound(articles: seq<Article>, a: Article)
    requires a.id !in ArticleIds(articles)
    ensures Find(articles + [a], ArticleWithId(a.id)) == Some(a)
  {
    assert a in articles + [a];
  }

  /** A comment appended under a fresh id is the one a lookup by that id finds. */
  lemma {:induction false} FreshCommentFound(comments: seq<Comment>, c: Comment)
    requires c.id !in CommentIds(comments)
    ensures Find(comments + [c], CommentWithId(c.id)) == Some(c)
  {
    assert c in comments + [c];
  }

  /** Deleting an article together with its comments keeps every declared
      constraint: the remaining comments still point at remaining articles. */
  lemma DeleteArticleKeepsConstraints(users: seq<User>, articles: seq<Article>, comments: seq<Comment>, id: int)
    requires Constraints(users, articles, comments)
    ensures Constraints(users, Filter(articles, ArticleOtherThan(id)), Filter(comments, CommentNotOnArticle(id)))
  {
    var articles' := Filter(articles, ArticleOtherThan(id));
    var comments' := Filter(comments, CommentNotOnArticle(id));
    CommentsOrderedByKey(comments);
    ArticlesOrderedByKey(articles);
    FilterKeepsIncreasing(comments, CommentNotOnArticle(id), CommentId);
    FilterKeepsIncreasing(articles, ArticleOtherThan(id), ArticleId);
    CommentsOrderedByKey(comments');
    ArticlesOrderedByKey(articles');
    forall c | c in comments'
      ensures c.articleId in ArticleIds(articles')
    {
      var a :| a in articles && a.id == c.articleId;
      assert a in articles';
    }
  }

  class DatabaseStorage {
    var users: seq<User>
    var articles: seq<Article>
    var comments: seq<Comment>
    // The serial sequences behind the three primary keys.
    var nextUserId: int
    var nextArticleId: int
    var nextCommentId: int

    /** The table constraints hold, and every id handed out so far lies below
        its serial counter. */
    ghost predicate Valid()
      reads this
    {
      && Constraints(users, articles, comments)
      && (forall u :: u in users ==> u.id < nextUserId)
      && (forall a :: a in articles ==> a.id < nextArticleId)
      && (forall c :: c in comments ==> c.id < nextCommentId)
    }

    /** Empty tables whose serial counters start at 1. */
    constructor ()
      ensures Valid()
      ensures users == [] && articles == [] && comments == []
      ensures nextUserId == 1 && nextArticleId == 1 && nextCommentId == 1
    {
      users, articles, comments := [], [], [];
      nextUserId, nextArticleId, nextCommentId := 1, 1, 1;
    }

    method GetUser(id: int) returns (r: Option<User>)
      ensures r.Some? ==> r.value in users && r.value.id == id
      ensures r.None? <==> id !in UserIds(users)
    {
      r := Find(users, UserWithId(id));
    }

    method GetUserByUsername(username: string) returns (r: Option<User>)
      ensures r.Some? ==> r.value in users && r.value.username == username
      ensures r.None? <==> !UsernameTaken(users, username)
    {
      r := Find(users, UserWithUsername(username));
    }

    method GetUserByEmail(email: string) returns (r: Option<User>)
      ensures r.Some? ==> r.value in users && r.value.email == email
      ensures r.None? <==> !EmailTaken(users, email)
    {
      r := Find(users, UserWithEmail(email));
    }

    /** `db.insert(users).values(...)`: refused when the username or the email
        is already taken; otherwise appends one row with a fresh id. */
    method InsertUserRow(values: InsertUser, isAdmin: Option<bool>, now: int) returns (r: Option<User>)
      requires Valid()
      modifies this
      ensures Valid()
      ensures r.None? <==> old(UsernameTaken(users, values.username) || EmailTaken(users, values.email))
      ensures r.None? ==> unchanged(this)
      ensures r.Some? ==> r.value == NewUserRow(old(nextUserId), values, isAdmin, now)
      ensures r.Some? ==> r.value.id !in old(UserIds(users))
      ensures r.Some? ==> users == old(users) + [r.value] && nextUserId == old(nextUserId) + 1
      ensures articles == old(articles) && comments == old(comments)
      ensures nextArticleId == old(nextArticleId) && nextCommentId == old(nextCommentId)
    {
      if UsernameTaken(users, values.username) || EmailTaken(users, values.email) {
        return None;
      }
      var u := NewUserRow(nextUserId, values, isAdmin, now);
      users := users + [u];
      nextUserId := nextUserId + 1;
      r := Some(u);
    }

    /** `createUser`: inserts a validated registration; `isAdmin` takes its
        column default, false. */
    method CreateUser(values: InsertUser, now: int) returns (r: Option<User>)
      requires Valid()
      modifies this
      ensures Valid()
      ensures r.None? <==> old(UsernameTaken(users, values.username) || EmailTaken(users, values.email))
      ensures r.None? ==> unchanged(this)
      ensures r.Some? ==> r.value == NewUserRow(old(nextUserId), values, None, now) && !r.value.isAdmin
      ensures r.Some? ==> users == old(users) + [r.value] && nextUserId == old(nextUserId) + 1
      ensures articles == old(articles) && comments == old(comments)
      ensures nextArticleId == old(nextArticleId) && nextCommentId == old(nextCommentId)
    {
      r := InsertUserRow(values, None, now);
    }

    method GetArticles() returns (r: seq<ArticleWithDetails>)
      requires Valid()
      ensures r == ListArticles(users, articles, comments)
      ensures forall i, j :: 0 <= i < j < |r| ==> r[i].article.id != r[j].article.id
      ensures forall i :: 0 <= i < |r| ==> r[i].author.Some?
      ensures forall i, k :: 0 <= i < |r| && 0 <= k < |r[i].comments| ==> r[i].comments[k].author.Some?
    {
      r := ListArticles(users, articles, comments);
      ListingComplete(users, articles, comments);
    }

    method GetArticle(id: int) returns (r: Option<Article>)
      ensures r == Find(articles, ArticleWithId(id))
      ensures r.Some? ==> r.value in articles && r.value.id == id
      ensures r.None? <==> id !in ArticleIds(articles)
    {
      r := Find(articles, ArticleWithId(id));
    }

    /** `createArticle`: refused when `authorId` names no user (the foreign key);
        otherwise appends one row with a fresh id. */
    method CreateArticle(values: InsertArticle, authorId: int, now: int) returns (r: Option<Article>)
      requires Valid()
      modifies this
      ensures Valid()
      ensures r.None? <==> authorId !in old(UserIds(users))
      ensures r.None? ==> unchanged(this)
      ensures r.Some? ==> r.value == Article(old(nextArticleId), values.title, values.body, authorId, now)
      ensures r.Some? ==> r.value.id !in old(ArticleIds(articles))
      ensures r.Some? ==> articles == old(articles) + [r.value] && nextArticleId == old(nextArticleId) + 1
      ensures users == old(users) && comments == old(comments)
      ensures nextUserId == old(nextUserId) && nextCommentId == old(nextCommentId)
    {
      if authorId !in UserIds(users) {
        return None;
      }
      var a := Article(nextArticleId, values.title, values.body, authorId, now);
      articles := articles + [a];
      nextArticleId := nextArticleId + 1;
      r := Some(a);
    }

    /** `deleteArticle`: deletes the article's comments, then the article. */
    method DeleteArticle(id: int)
      requires Valid()
      modifies this
      ensures Valid()
      ensures comments == Filter(old(comments), CommentNotOnArticle(id))
      ensures articles == Filter(old(articles), ArticleOtherThan(id))
      ensures id !in ArticleIds(articles)
      ensures forall c :: c in comments ==> c.articleId != id
      ensures forall a :: a in old(articles) && a.id != id ==> a in articles
      ensures forall c :: c in old(comments) && c.articleId != id ==> c in comments
      ensures users == old(users)
      ensures nextUserId == old(nextUserId) && nextArticleId == old(nextArticleId)
      ensures nextCommentId == old(nextCommentId)
    {
      DeleteArticleKeepsConstraints(users, articles, comments, id);
      comments := Filter(comments, CommentNotOnArticle(id));
      articles := Filter(articles, ArticleOtherThan(id));
    }

    /** `createComment`: refused when `articleId` or `authorId` names no row
        (the foreign keys); otherwise appends one row with a fresh id. */
    method CreateComment(values: InsertComment, articleId: int, authorId: int, now: int)
      returns (r: Option<Comment>)
      requires Valid()
      modifies this
      ensures Valid()
      ensures r.None? <==> articleId !in old(ArticleIds(articles)) || authorId !in old(UserIds(users))
      ensures r.None? ==> unchanged(this)
      ensures r.Some? ==> r.value == Comment(old(nextCommentId), values.content, articleId, authorId, now)
      ensures r.Some? ==> r.value.id !in old(CommentIds(comments))
      ensures r.Some? ==> comments == old(comments) + [r.value] && nextCommentId == old(nextCommentId) + 1
      ensures users == old(users) && articles == old(articles)
      ensures nextUserId == old(nextUserId) && nextArticleId == old(nextArticleId)
    {
      if articleId !in ArticleIds(articles) || authorId !in UserIds(users) {
        return None;
      }
      var c := Comment(nextCommentId, values.content, articleId, authorId, now);
      comments := comments + [c];
      nextCommentId := nextCommentId + 1;
      r := Some(c);
    }

    /** `deleteComment`: removes the comment with that id; an absent id
        removes nothing and is not an error. */
    method DeleteComment(id: int)
      requires Valid()
      modifies this
      ensures Valid()
      ensures comments == Filter(old(comments), CommentOtherThan(id))
      ensures id !in CommentIds(comments)
      ensures forall c :: c in old(comments) && c.id != id ==> c in comments
      ensures id !in old(CommentIds(comments)) ==> comments == old(comments)
      ensures users == old(users) && articles == old(articles)
      ensures nextUserId == old(nextUserId) && nextArticleId == old(nextArticleId)
      ensures nextCommentId == old(nextCommentId)
    {
      CommentsOrderedByKey(comments);
      FilterKeepsIncreasing(comments, CommentOtherThan(id), CommentId);
      if id !in CommentIds(comments) {
        FilterKeepsAll(comments, CommentOtherThan(id));
      }
      comments := Filter(comments, CommentOtherThan(id));
      CommentsOrderedByKey(comments);
    }

    method GetComment(id: int) returns (r: Option<Comment>)
      ensures r == Find(comments, CommentWithId(id))
      ensures r.Some? ==> r.value in comments && r.value.id == id
      ensures r.None? <==> id !in CommentIds(comments)
    {
      r := Find(comments, CommentWithId(id));
    }
  }
}
