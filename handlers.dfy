/**
 * The request handlers of `registerRoutes` and the start-up `seed` routine.
 * A handler receives the caller that the session resolved (None when the
 * request is unauthenticated), the store, and the request's path parameters
 * and body; it answers with a status code or lets an exception escape. Each
 * write handler runs its guards in a fixed order (401, then 404, then 403)
 * and touches the store only after all of them pass.
 */
module Handlers {
  import opened Wrappers
  import opened Rows
  import opened Schema
  import opened Storage
  import Api

  /** What a handler does with a request: it sends a status code, or an
      exception escapes it and is left to Express. */
  datatype Reply = Sent(code: int) | Thrown

  /// Authorization rules.

  /** The author of an article, or an admin, may delete it. */
  predicate CanDeleteArticle(caller: User, article: Article)
  {
    caller.isAdmin || article.authorId == caller.id
  }

  /** The author of a comment, or an admin, may delete it; who wrote the
      article it belongs to plays no part. */
  predicate CanDeleteComment(caller: User, comment: Comment)
  {
    caller.isAdmin || comment.authorId == caller.id
  }

  /** The caller may delete the article stored under `id`. */
  ghost predicate MayDeleteArticle(caller: User, articles: seq<Article>, id: int)
  {
    forall a :: a in articles && a.id == id ==> CanDeleteArticle(caller, a)
  }

  /** The caller may delete the comment stored under `id`. */
  ghost predicate MayDeleteComment(caller: User, comments: seq<Comment>, id: int)
  {
    forall c :: c in comments && c.id == id ==> CanDeleteComment(caller, c)
  }

  /// Handlers.

  /** POST /api/register. `hash` stands for `hashPassword`. */
  method Register(db: DatabaseStorage, body: Body, hash: string -> string, now: int)
    returns (reply: Reply, user: Option<User>)
    requires db.Valid()
    modifies db
    ensures db.Valid()
    ensures reply != Thrown && (reply.Sent? ==> reply.code in Api.Register.responses)
    ensures ParseInsertUser(body).None? ==> reply == Sent(400)
    ensures ParseInsertUser(body).Some? ==>
      var v := ParseInsertUser(body).value;
      reply == (if old(UsernameTaken(db.users, v.username) || EmailTaken(db.users, v.email))
                then Sent(400) else Sent(201))
    ensures reply != Sent(201) ==> unchanged(db) && user.None?
    ensures reply == Sent(201) ==>
      var v := ParseInsertUser(body).value;
      && user == Some(User(old(db.nextUserId), v.username, v.email, hash(v.password), false, now))
      && db.users == old(db.users) + [user.value]
      && db.articles == old(db.articles) && db.comments == old(db.comments)
      && db.nextUserId == old(db.nextUserId) + 1
      && db.nextArticleId == old(db.nextArticleId) && db.nextCommentId == old(db.nextCommentId)
  {
    user := None;
    var parsed := ParseInsertUser(body);
    if parsed.None? {
      return Sent(400), None;
    }
    var v := parsed.value;
    var existing := db.GetUserByUsername(v.username);
    if existing.None? {
      existing := db.GetUserByEmail(v.email);
    }
    if existing.Some? {
      return Sent(400), None;
    }
    var created := db.CreateUser(InsertUser(v.username, v.email, hash(v.password)), now);
    assert created.Some?;  // both unique columns were checked just above
    reply, user := Sent(201), created;
  }

  /** GET /api/user: the caller's record, or null. */
  method Me(caller: Option<User>) returns (reply: Reply, body: Option<User>)
    ensures reply == Sent(200) && body == caller
  {
    reply, body := Sent(200), caller;
  }

  /** GET /api/articles: readable without a session. */
  method List(db: DatabaseStorage) returns (reply: Reply, body: seq<ArticleWithDetails>)
    requires db.Valid()
    ensures reply == Sent(200) && reply.code in Api.ArticlesList.responses
    ensures body == ListArticles(db.users, db.articles, db.comments)
  {
    body := db.GetArticles();
    reply := Sent(200);
  }

  /** POST /api/articles. The author is the caller, whatever the body holds. */
  method CreateArticle(db: DatabaseStorage, caller: Option<User>, body: Body, now: int)
    returns (reply: Reply, article: Option<Article>)
    requires db.Valid()
    modifies db
    ensures db.Valid()
    ensures reply.Sent? ==> reply.code in Api.ArticlesCreate.responses
    ensures caller.None? ==> reply == Sent(401)
    ensures caller.Some? && ParseInsertArticle(body).None? ==> reply == Thrown
    ensures caller.Some? && ParseInsertArticle(body).Some? ==>
      reply == (if caller.value.id in old(UserIds(db.users)) then Sent(201) else Thrown)
    ensures reply != Sent(201) ==> unchanged(db) && article.None?
    ensures reply == Sent(201) ==>
      var v := ParseInsertArticle(body).value;
      && article == Some(Article(old(db.nextArticleId), v.title, v.body, caller.value.id, now))
      && db.articles == old(db.articles) + [article.value]
      && db.users == old(db.users) && db.comments == old(db.comments)
      && db.nextArticleId == old(db.nextArticleId) + 1
      && db.nextUserId == old(db.nextUserId) && db.nextCommentId == old(db.nextCommentId)
  {
    article := None;
    if caller.None? {
      return Sent(401), None;
    }
    var parsed := ParseInsertArticle(body);
    if parsed.None? {
      return Thrown, None;  // the parse error is not caught
    }
    article := db.CreateArticle(parsed.value, caller.value.id, now);
    if article.None? {
      return Thrown, None;  // foreign-key violation
    }
    reply := Sent(201);
  }

  /** DELETE /api/articles/:id. */
  method DeleteArticle(db: DatabaseStorage, caller: Option<User>, id: int) returns (reply: Reply)
    requires db.Valid()
    modifies db
    ensures db.Valid()
    ensures reply.Sent? && reply.code in Api.ArticlesDelete.responses
    ensures caller.None? ==> reply == Sent(401)
    ensures caller.Some? && id !in old(ArticleIds(db.articles)) ==> reply == Sent(404)
    ensures caller.Some? && id in old(ArticleIds(db.articles)) ==>
      reply == (if old(MayDeleteArticle(caller.value, db.articles, id)) then Sent(204) else Sent(403))
    ensures reply != Sent(204) ==> unchanged(db)
    ensures reply == Sent(204) ==>
      && db.articles == Filter(old(db.articles), ArticleOtherThan(id))
      && db.comments == Filter(old(db.comments), CommentNotOnArticle(id))
      && db.users == old(db.users)
      && db.nextUserId == old(db.nextUserId) && db.nextArticleId == old(db.nextArticleId)
      && db.nextCommentId == old(db.nextCommentId)
  {
    if caller.None? {
      return Sent(401);
    }
    var article := db.GetArticle(id);
    if article.None? {
      return Sent(404);
    }
    var a := article.value;
    ArticlesOrderedByKey(db.articles);
    forall b | b in db.articles && b.id == id
      ensures b == a
    {
      KeyIdentifiesRow(db.articles, ArticleId, a, b);
    }
    if !caller.value.isAdmin && a.authorId != caller.value.id {
      return Sent(403);
    }
    db.DeleteArticle(id);
    reply := Sent(204);
  }

  /** POST /api/articles/:articleId/comments. The article comes from the path
      and the author from the session; both guards run before the body is
      validated. */
  method CreateComment(db: DatabaseStorage, caller: Option<User>, articleId: int, body: Body, now: int)
    returns (reply: Reply, comment: Option<Comment>)
    requires db.Valid()
    modifies db
    ensures db.Valid()
    ensures reply.Sent? ==> reply.code in Api.CommentsCreate.responses + {404}
    ensures caller.None? ==> reply == Sent(401)
    ensures caller.Some? && articleId !in old(ArticleIds(db.articles)) ==> reply == Sent(404)
    ensures caller.Some? && articleId in old(ArticleIds(db.articles)) && ParseInsertComment(body).None? ==>
      reply == Thrown
    ensures caller.Some? && articleId in old(ArticleIds(db.articles)) && ParseInsertComment(body).Some? ==>
      reply == (if caller.value.id in old(UserIds(db.users)) then Sent(201) else Thrown)
    ensures reply != Sent(201) ==> unchanged(db) && comment.None?
    ensures reply == Sent(201) ==>
      && comment == Some(Comment(old(db.nextCommentId), ParseInsertComment(body).value.content,
                                 articleId, caller.value.id, now))
      && db.comments == old(db.comments) + [comment.value]
      && db.users == old(db.users) && db.articles == old(db.articles)
      && db.nextCommentId == old(db.nextCommentId) + 1
      && db.nextUserId == old(db.nextUserId) && db.nextArticleId == old(db.nextArticleId)
  {
    comment := None;
    if caller.None? {
      return Sent(401), None;
    }
    var article := db.GetArticle(articleId);
    if article.None? {
      return Sent(404), None;
    }
    var parsed := ParseInsertComment(body);
    if parsed.None? {
      return Thrown, None;  // the parse error is not caught
    }
    comment := db.CreateComment(parsed.value, articleId, caller.value.id, now);
    if comment.None? {
      return Thrown, None;  // foreign-key violation
    }
    reply := Sent(201);
  }

  /** DELETE /api/comments/:id. */
  method DeleteComment(db: DatabaseStorage, caller: Option<User>, id: int) returns (reply: Reply)
    requires db.Valid()
    modifies db
    ensures db.Valid()
    ensures reply.Sent? && reply.code in Api.CommentsDelete.responses
    ensures caller.None? ==> reply == Sent(401)
    ensures caller.Some? && id !in old(CommentIds(db.comments)) ==> reply == Sent(404)
    ensures caller.Some? && id in old(CommentIds(db.comments)) ==>
      reply == (if old(MayDeleteComment(caller.value, db.comments, id)) then Sent(204) else Sent(403))
    ensures reply != Sent(204) ==> unchanged(db)
    ensures reply == Sent(204) ==>
      && db.comments == Filter(old(db.comments), CommentOtherThan(id))
      && db.users == old(db.users) && db.articles == old(db.articles)
      && db.nextUserId == old(db.nextUserId) && db.nextArticleId == old(db.nextArticleId)
      && db.nextCommentId == old(db.nextCommentId)
  {
    if caller.None? {
      return Sent(401);
    }
    var comment := db.GetComment(id);
    if comment.None? {
      return Sent(404);
    }
    var c := comment.value;
    CommentsOrderedByKey(db.comments);
    forall d | d in db.comments && d.id == id
      ensures d == c
    {
      KeyIdentifiesRow(db.comments, CommentId, c, d);
    }
    if !caller.value.isAdmin && c.authorId != caller.value.id {
      return Sent(403);
    }
    db.DeleteComment(id);
    reply := Sent(204);
  }

  /// Start-up seeding.

  /** The sample content `seed()` writes: two articles and three comments. */
  datatype SampleText = SampleText(welcomeTitle: string, welcomeBody: string,
                                   guideTitle: string, guideBody: string,
                                   comment1: string, comment2: string, comment3: string)

  /** What `seed()` writes: two accounts (`admin` is inserted with the admin
      flag) and the sample content. */
  datatype SeedData = SeedData(admin: InsertUser, user: InsertUser, text: SampleText)

  /** The `defaultNow()` reading each insert statement of `seed()` stamps its
      rows with: the two user inserts, the two article inserts and the one
      three-row comment insert. */
  datatype SeedClock = SeedClock(adminAt: int, userAt: int, welcomeAt: int, guideAt: int, commentsAt: int)

  /** The two accounts differ in email and in username. */
  predicate DistinctAccounts(data: SeedData)
  {
    data.admin.email != data.user.email && data.admin.username != data.user.username
  }

  /** The accounts `seed()` inserts, with each password passed through `hash`. */
  function AdminAccount(hash: string -> string): InsertUser { InsertUser("admin", "admin@example.com", hash("admin123")) }
  function UserAccount(hash: string -> string): InsertUser { InsertUser("user", "user@example.com", hash("user123")) }

  const SAMPLE := SampleText(
    "Welcome to the Article Sharing App",
    "This is a platform where you can share your thoughts and ideas with the world. Feel free to register and start writing!",
    "Getting Started with Web Development",
    "Web development is an exciting journey. Start with HTML, CSS, and JavaScript, and then explore frameworks like React and Node.js.",
    "Great introduction! Excited to be here.",
    "Thanks! Looking forward to your posts.",
    "Absolutely agree. The fundamentals are key.")

  /** What `seed()` inserts: its two accounts and its sample text. The two
      accounts differ in email and in username, so `Seed` applies to them. */
  function SourceSeed(hash: string -> string): (r: SeedData)
    ensures DistinctAccounts(r)
  {
    var admin, user := AdminAccount(hash), UserAccount(hash);
    assert admin.email[0] == 'a' && user.email[0] == 'u';
    assert admin.username[0] == 'a' && user.username[0] == 'u';
    SeedData(admin, user, SAMPLE)
  }

  /** One account step refuses its insert: the email is not registered,
      but the username is. */
  predicate StepRefused(users: seq<User>, values: InsertUser)
  {
    !EmailTaken(users, values.email) && UsernameTaken(users, values.username)
  }

  /** Seeding refuses one of its two account inserts. */
  predicate AccountClash(users: seq<User>, data: SeedData)
  {
    StepRefused(users, data.admin) || StepRefused(users, data.user)
  }

  /** The rows one account step appends: none when the email is registered,
      else the new account under the next serial id. */
  function AccountStep(users: seq<User>, nextId: int, values: InsertUser, isAdmin: bool, now: int): seq<User>
  {
    if EmailTaken(users, values.email) then [] else [NewUserRow(nextId, values, Some(isAdmin), now)]
  }

  /** The user rows seeding appends to `users`: the admin account and then
      the normal account, each only when its email is not yet registered. */
  function AccountRows(users: seq<User>, nextId: int, data: SeedData, clock: SeedClock): seq<User>
  {
    var adminRows := AccountStep(users, nextId, data.admin, true, clock.adminAt);
    adminRows + AccountStep(users, nextId + |adminRows|, data.user, false, clock.userAt)
  }

  /** The user rows a refused seeding leaves behind: none when the admin
      account's insert is the one refused; otherwise the admin step's rows,
      since the refused insert was the normal account's. */
  function RefusedRows(users: seq<User>, nextId: int, data: SeedData, clock: SeedClock): seq<User>
  {
    if StepRefused(users, data.admin) then [] else AccountStep(users, nextId, data.admin, true, clock.adminAt)
  }

  /** A refused seeding leaves at most one new user: the admin account, with
      its admin flag set. */
  lemma RefusedRowsAreAdmin(users: seq<User>, nextId: int, data: SeedData, clock: SeedClock)
    ensures var rows := RefusedRows(users, nextId, data, clock);
      && |rows| <= 1
      && forall u :: u in rows ==> u.email == data.admin.email && u.isAdmin
  {
  }

  /** The admin step does not change what the normal account's step sees:
      the two accounts differ in email and username. */
  lemma AccountStepsCompose(users: seq<User>, nextId: int, data: SeedData, clock: SeedClock)
    requires DistinctAccounts(data)
    ensures var adminRows := AccountStep(users, nextId, data.admin, true, clock.adminAt);
      && EmailTaken(users + adminRows, data.user.email) == EmailTaken(users, data.user.email)
      && StepRefused(users + adminRows, data.user) == StepRefused(users, data.user)
      && AccountStep(users + adminRows, nextId + |adminRows|, data.user, false, clock.userAt)
         == AccountStep(users, nextId + |adminRows|, data.user, false, clock.userAt)
  {
    var adminRows := AccountStep(users, nextId, data.admin, true, clock.adminAt);
    AppendKeepsOtherAccount(users, adminRows, data.user.email, data.user.username);
  }

  /** The admin step followed by the normal account's step appends
      `AccountRows` to the users and advances the counter past them. */
  lemma AccountRowsCompose(users0: seq<User>, next0: int, data: SeedData, clock: SeedClock,
                           users1: seq<User>, next1: int, users2: seq<User>, next2: int)
    requires DistinctAccounts(data)
    requires users1 == users0 + AccountStep(users0, next0, data.admin, true, clock.adminAt)
    requires next1 == next0 + |AccountStep(users0, next0, data.admin, true, clock.adminAt)|
    requires users2 == users1 + AccountStep(users1, next1, data.user, false, clock.userAt)
    requires next2 == next1 + |AccountStep(users1, next1, data.user, false, clock.userAt)|
    ensures users2 == users0 + AccountRows(users0, next0, data, clock)
    ensures next2 == next0 + |AccountRows(users0, next0, data, clock)|
  {
    var adminRows := AccountStep(users0, next0, data.admin, true, clock.adminAt);
    var userRows := AccountStep(users0, next0 + |adminRows|, data.user, false, clock.userAt);
    AccountStepsCompose(users0, next0, data, clock);
    assert users0 + (adminRows + userRows) == users0 + adminRows + userRows;
  }

  /** `id` is the id of the user whose email is `email`. */
  ghost predicate OwnedBy(users: seq<User>, id: int, email: string)
  {
    exists u :: u in users && u.email == email && u.id == id
  }

  /** What a completed seeding leaves behind: both accounts and at least one
      article. */
  ghost predicate Seeded(db: DatabaseStorage, data: SeedData)
    reads db
  {
    EmailTaken(db.users, data.admin.email) && EmailTaken(db.users, data.user.email) && |db.articles| > 0
  }

  /** The tables hold exactly the sample content under serial ids starting at
      `articleId` and `commentId`: the welcome article by the admin account,
      the guide by the normal account, two comments on the welcome article
      (by the normal account, then the admin) and one on the guide (by the
      admin). */
  ghost predicate SampleContent(db: DatabaseStorage, data: SeedData, articleId: int, commentId: int, clock: SeedClock)
    reads db
  {
    && |db.articles| == 2
    && var adminId, userId := db.articles[0].authorId, db.articles[1].authorId;
    && OwnedBy(db.users, adminId, data.admin.email) && OwnedBy(db.users, userId, data.user.email)
    && db.articles == [Article(articleId, data.text.welcomeTitle, data.text.welcomeBody, adminId, clock.welcomeAt),
                       Article(articleId + 1, data.text.guideTitle, data.text.guideBody, userId, clock.guideAt)]
    && db.comments == [Comment(commentId, data.text.comment1, articleId, userId, clock.commentsAt),
                       Comment(commentId + 1, data.text.comment2, articleId, adminId, clock.commentsAt),
                       Comment(commentId + 2, data.text.comment3, articleId + 1, adminId, clock.commentsAt)]
    && db.nextArticleId == articleId + 2 && db.nextCommentId == commentId + 3
  }

  /** One account step of `seed()`: the user with `values.email`, inserted
      with the given admin flag when there is none. `ok` is false when the
      insert is refused because `values.username` is taken under another email. */
  method SeedAccount(db: DatabaseStorage, values: InsertUser, isAdmin: bool, now: int)
    returns (ok: bool, id: int)
    requires db.Valid()
    modifies db
    ensures db.Valid()
    ensures ok == !old(StepRefused(db.users, values))
    ensures ok ==> OwnedBy(db.users, id, values.email)
    ensures !ok || old(EmailTaken(db.users, values.email)) ==> unchanged(db)
    ensures ok ==> db.users == old(db.users) + AccountStep(old(db.users), old(db.nextUserId), values, isAdmin, now)
    ensures ok ==> db.nextUserId == old(db.nextUserId) + |AccountStep(old(db.users), old(db.nextUserId), values, isAdmin, now)|
    ensures db.articles == old(db.articles) && db.comments == old(db.comments)
    ensures db.nextArticleId == old(db.nextArticleId) && db.nextCommentId == old(db.nextCommentId)
  {
    var existing := db.GetUserByEmail(values.email);
    if existing.Some? {
      return true, existing.value.id;
    }
    var created := db.InsertUserRow(values, Some(isAdmin), now);
    if created.None? {
      return false, 0;
    }
    ok, id := true, created.value.id;
  }

  /** The normal account's step of `seed()`, after the admin account's step
      appended `adminRows` to `users0`. */
  method SeedUserAccount(db: DatabaseStorage, data: SeedData, clock: SeedClock,
                         ghost users0: seq<User>, ghost next0: int, ghost adminId: int)
    returns (ok: bool, userId: int)
    requires db.Valid() && DistinctAccounts(data)
    requires db.users == users0 + AccountStep(users0, next0, data.admin, true, clock.adminAt)
    requires db.nextUserId == next0 + |AccountStep(users0, next0, data.admin, true, clock.adminAt)|
    requires OwnedBy(db.users, adminId, data.admin.email)
    modifies db
    ensures db.Valid()
    ensures ok == !StepRefused(users0, data.user)
    ensures ok ==> OwnedBy(db.users, adminId, data.admin.email) && OwnedBy(db.users, userId, data.user.email)
    ensures ok ==> db.users == users0 + AccountRows(users0, next0, data, clock)
    ensures ok ==> db.nextUserId == next0 + |AccountRows(users0, next0, data, clock)|
    ensures EmailTaken(users0, data.user.email) ==> unchanged(db)
    ensures !ok ==> db.users == old(db.users) && db.nextUserId == old(db.nextUserId)
    ensures db.articles == old(db.articles) && db.comments == old(db.comments)
    ensures db.nextArticleId == old(db.nextArticleId) && db.nextCommentId == old(db.nextCommentId)
  {
    ghost var users1, next1 := db.users, db.nextUserId;
    AccountStepsCompose(users0, next0, data, clock);
    ok, userId := SeedAccount(db, data.user, false, clock.userAt);
    if ok {
      AccountRowsCompose(users0, next0, data, clock, users1, next1, db.users, db.nextUserId);
      OwnedByKept(users1, AccountStep(users1, next1, data.user, false, clock.userAt), adminId, data.admin.email);
    }
  }

  /** The two account steps of `seed()`: the admin account, then the normal
      account. `ok` is false when an insert is refused; the normal account is
      not attempted after a refused admin insert. */
  method SeedAccounts(db: DatabaseStorage, data: SeedData, clock: SeedClock)
    returns (ok: bool, adminId: int, userId: int)
    requires db.Valid() && DistinctAccounts(data)
    modifies db
    ensures db.Valid()
    ensures ok == !old(AccountClash(db.users, data))
    ensures ok ==> OwnedBy(db.users, adminId, data.admin.email) && OwnedBy(db.users, userId, data.user.email)
    ensures ok ==> db.users == old(db.users) + AccountRows(old(db.users), old(db.nextUserId), data, clock)
    ensures ok ==> db.nextUserId == old(db.nextUserId) + |AccountRows(old(db.users), old(db.nextUserId), data, clock)|
    ensures !ok ==> db.users == old(db.users) + RefusedRows(old(db.users), old(db.nextUserId), data, clock)
    ensures !ok ==> db.nextUserId == old(db.nextUserId) + |RefusedRows(old(db.users), old(db.nextUserId), data, clock)|
    ensures old(EmailTaken(db.users, data.admin.email) && EmailTaken(db.users, data.user.email)) ==> unchanged(db)
    ensures db.articles == old(db.articles) && db.comments == old(db.comments)
    ensures db.nextArticleId == old(db.nextArticleId) && db.nextCommentId == old(db.nextCommentId)
  {
    assert old(db.users) + [] == old(db.users);
    ok, adminId, userId := false, 0, 0;
    var adminOk;
    adminOk, adminId := SeedAccount(db, data.admin, true, clock.adminAt);
    if adminOk {
      ok, userId := SeedUserAccount(db, data, clock, old(db.users), old(db.nextUserId), adminId);
    }
  }

  /** The comment insert of `seed()`: three comments, two on the welcome
      article and one on the guide, on an empty comment table. The three rows
      belong to one statement and share its clock reading `now`. */
  method SeedComments(db: DatabaseStorage, data: SeedData, welcomeId: int, guideId: int,
                      adminId: int, userId: int, now: int)
    requires db.Valid()
    requires db.comments == []
    requires welcomeId in ArticleIds(db.articles) && guideId in ArticleIds(db.articles)
    requires adminId in UserIds(db.users) && userId in UserIds(db.users)
    modifies db
    ensures db.Valid()
    ensures db.users == old(db.users) && db.articles == old(db.articles) && db.nextUserId == old(db.nextUserId)
    ensures db.nextArticleId == old(db.nextArticleId) && db.nextCommentId == old(db.nextCommentId) + 3
    ensures db.comments == [Comment(old(db.nextCommentId), data.text.comment1, welcomeId, userId, now),
                            Comment(old(db.nextCommentId) + 1, data.text.comment2, welcomeId, adminId, now),
                            Comment(old(db.nextCommentId) + 2, data.text.comment3, guideId, adminId, now)]
  {
    var comment1 := db.CreateComment(InsertComment(data.text.comment1), welcomeId, userId, now);
    assert comment1.Some?;
    var comment2 := db.CreateComment(InsertComment(data.text.comment2), welcomeId, adminId, now);
    assert comment2.Some?;
    var comment3 := db.CreateComment(InsertComment(data.text.comment3), guideId, adminId, now);
    assert comment3.Some?;
  }

  /** The inserts of `seed()` on an empty article table: two articles, one
      by each account, then their three comments. */
  method SeedArticles(db: DatabaseStorage, data: SeedData, adminId: int, userId: int, clock: SeedClock)
    requires db.Valid()
    requires db.articles == []
    requires adminId in UserIds(db.users) && userId in UserIds(db.users)
    modifies db
    ensures db.Valid()
    ensures db.users == old(db.users) && db.nextUserId == old(db.nextUserId) && old(db.comments) == []
    ensures db.nextArticleId == old(db.nextArticleId) + 2 && db.nextCommentId == old(db.nextCommentId) + 3
    ensures db.articles == [Article(old(db.nextArticleId), data.text.welcomeTitle, data.text.welcomeBody, adminId, clock.welcomeAt),
                            Article(old(db.nextArticleId) + 1, data.text.guideTitle, data.text.guideBody, userId, clock.guideAt)]
    ensures db.comments == [Comment(old(db.nextCommentId), data.text.comment1, db.articles[0].id, userId, clock.commentsAt),
                            Comment(old(db.nextCommentId) + 1, data.text.comment2, db.articles[0].id, adminId, clock.commentsAt),
                            Comment(old(db.nextCommentId) + 2, data.text.comment3, db.articles[1].id, adminId, clock.commentsAt)]
  {
    // No comment can exist without an article.
    assert |db.comments| == 0 || db.comments[0].articleId in ArticleIds(db.articles);
    var welcomeId, guideId := SeedTwoArticles(db, data, adminId, userId, clock.welcomeAt, clock.guideAt);
    SeedComments(db, data, welcomeId, guideId, adminId, userId, clock.commentsAt);
  }

  /** The two article inserts of `seed()`, one by each account; each
      statement stamps its row with its own clock reading. */
  method SeedTwoArticles(db: DatabaseStorage, data: SeedData, adminId: int, userId: int,
                         welcomeAt: int, guideAt: int)
    returns (welcomeId: int, guideId: int)
    requires db.Valid()
    requires db.articles == []
    requires adminId in UserIds(db.users) && userId in UserIds(db.users)
    modifies db
    ensures db.Valid()
    ensures db.users == old(db.users) && db.comments == old(db.comments)
    ensures db.nextUserId == old(db.nextUserId) && db.nextCommentId == old(db.nextCommentId)
    ensures welcomeId == old(db.nextArticleId) && guideId == welcomeId + 1
    ensures db.nextArticleId == old(db.nextArticleId) + 2
    ensures db.articles == [Article(welcomeId, data.text.welcomeTitle, data.text.welcomeBody, adminId, welcomeAt),
                            Article(guideId, data.text.guideTitle, data.text.guideBody, userId, guideAt)]
  {
    var article1 := db.CreateArticle(InsertArticle(data.text.welcomeTitle, data.text.welcomeBody), adminId, welcomeAt);
    assert article1.Some?;  // adminId names a user
    var article2 := db.CreateArticle(InsertArticle(data.text.guideTitle, data.text.guideBody), userId, guideAt);
    assert article2.Some?;  // userId names a user
    welcomeId, guideId := article1.value.id, article2.value.id;
  }

  /** The content step of `seed()`: the sample content, written only when
      the listing of articles is empty. */
  method SeedContent(db: DatabaseStorage, data: SeedData, adminId: int, userId: int, clock: SeedClock)
    requires db.Valid()
    requires OwnedBy(db.users, adminId, data.admin.email) && OwnedBy(db.users, userId, data.user.email)
    modifies db
    ensures db.Valid()
    ensures db.users == old(db.users) && db.nextUserId == old(db.nextUserId)
    ensures old(|db.articles|) > 0 ==> unchanged(db)
    ensures old(db.articles) == [] ==>
      old(db.comments) == [] && SampleContent(db, data, old(db.nextArticleId), old(db.nextCommentId), clock)
  {
    var existingArticles := db.GetArticles();
    if |existingArticles| == 0 {
      assert adminId in UserIds(db.users) && userId in UserIds(db.users);
      SeedArticles(db, data, adminId, userId, clock);
    }
  }

  /** `seed()`: the two accounts, then the sample content when there is no
      article. `ok` is false when an account insert is refused, in which case
      the exception escapes and no content is written. A second run after a
      completed one changes nothing. */
  method Seed(db: DatabaseStorage, data: SeedData, clock: SeedClock) returns (ok: bool)
    requires db.Valid() && DistinctAccounts(data)
    modifies db
    ensures db.Valid()
    ensures ok == !old(AccountClash(db.users, data))
    ensures ok ==> Seeded(db, data)
    ensures old(Seeded(db, data)) ==> unchanged(db)
    ensures ok ==> db.users == old(db.users) + AccountRows(old(db.users), old(db.nextUserId), data, clock)
    ensures ok ==> db.nextUserId == old(db.nextUserId) + |AccountRows(old(db.users), old(db.nextUserId), data, clock)|
    ensures !ok ==> db.users == old(db.users) + RefusedRows(old(db.users), old(db.nextUserId), data, clock)
    ensures !ok ==> db.nextUserId == old(db.nextUserId) + |RefusedRows(old(db.users), old(db.nextUserId), data, clock)|
    ensures old(|db.articles|) > 0 || !ok ==> db.articles == old(db.articles) && db.comments == old(db.comments)
    ensures old(|db.articles|) > 0 || !ok ==>
      db.nextArticleId == old(db.nextArticleId) && db.nextCommentId == old(db.nextCommentId)
    ensures ok && old(db.articles) == [] ==>
      old(db.comments) == [] && SampleContent(db, data, old(db.nextArticleId), old(db.nextCommentId), clock)
  {
    var adminId, userId;
    ok, adminId, userId := SeedAccounts(db, data, clock);
    if ok {
      SeedContent(db, data, adminId, userId, clock);
    }
  }

  /** When the guide's insert reads a later clock than the welcome article's,
      `getArticles` on the seeded tables lists the guide first. */
  lemma SeededListingGuideFirst(db: DatabaseStorage, data: SeedData, articleId: int, commentId: int,
                                clock: SeedClock)
    requires SampleContent(db, data, articleId, commentId, clock)
    requires clock.welcomeAt < clock.guideAt
    ensures var r := ListArticles(db.users, db.articles, db.comments);
      && |r| == 2
      && r[0].article == db.articles[1] && r[0].article.title == data.text.guideTitle
      && r[1].article == db.articles[0] && r[1].article.title == data.text.welcomeTitle
  {
    var w, g := db.articles[0], db.articles[1];
    assert db.articles == [w, g] && [w, g][1..] == [g];
    assert [g][1..] == [];
    assert SortNewestFirst([g], ArticleCreatedAt) == [g];
    assert SortNewestFirst([w, g], ArticleCreatedAt) == InsertNewestFirst(w, [g], ArticleCreatedAt);
    assert InsertNewestFirst(w, [], ArticleCreatedAt) == [w];
    assert InsertNewestFirst(w, [g], ArticleCreatedAt) == [g, w];
  }

  /** Appending rows keeps an account's id. */
  lemma OwnedByKept(users: seq<User>, added: seq<User>, id: int, email: string)
    requires OwnedBy(users, id, email)
    ensures OwnedBy(users + added, id, email)
  {
    var u :| u in users && u.email == email && u.id == id;
    assert u in users + added;
  }

  /** Inserting rows of another account leaves the checks for this one as
      they were. */
  lemma AppendKeepsOtherAccount(users: seq<User>, added: seq<User>, email: string, username: string)
    requires forall u :: u in added ==> u.email != email && u.username != username
    ensures EmailTaken(users + added, email) == EmailTaken(users, email)
    ensures UsernameTaken(users + added, username) == UsernameTaken(users, username)
  {
  }
}
