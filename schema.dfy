/**
 * The three tables of the application (`users`, `articles`, `comments`), the
 * insert schemas that say which columns a request may supply, and the
 * constraints the tables declare: primary keys, unique columns and foreign
 * keys.
 */
module Schema {
  import opened Wrappers
  import opened Rows

  /** A row of `users`. `password` holds the hashed password; `isAdmin` is
      NOT NULL with default false. */
  datatype User = User(id: int, username: string, email: string, password: string,
                       isAdmin: bool, createdAt: int)

  /** A row of `articles`; `authorId` references `users.id`. */
  datatype Article = Article(id: int, title: string, body: string, authorId: int, createdAt: int)

  /** A row of `comments`; `articleId` references `articles.id` and `authorId`
      references `users.id`. */
  datatype Comment = Comment(id: int, content: string, articleId: int, authorId: int, createdAt: int)

  /** `insertUserSchema`: the columns of `users` without `id`, `createdAt` and `isAdmin`. */
  datatype InsertUser = InsertUser(username: string, email: string, password: string)

  /** `insertArticleSchema`: the columns of `articles` without `id`, `createdAt`
      and `authorId`. */
  datatype InsertArticle = InsertArticle(title: string, body: string)

  /** `insertCommentSchema`: the columns of `comments` without `id`, `createdAt`,
      `authorId` and `articleId`. */
  datatype InsertComment = InsertComment(content: string)

  /** The column default of `users.isAdmin`. */
  const IS_ADMIN_DEFAULT := false

  // Column accessors, used as keys of the generic row operations.
  function UserId(u: User): int { u.id }
  function ArticleId(a: Article): int { a.id }
  function CommentId(c: Comment): int { c.id }
  function ArticleCreatedAt(a: Article): int { a.createdAt }
  function CommentCreatedAt(c: Comment): int { c.createdAt }

  /** The row that inserting `values` into `users` produces, `isAdmin` given
      explicitly or left to the column default. */
  function NewUserRow(id: int, values: InsertUser, isAdmin: Option<bool>, now: int): (u: User)
    ensures isAdmin.None? ==> !u.isAdmin
    ensures isAdmin.Some? ==> u.isAdmin == isAdmin.value
    ensures u.id == id && u.createdAt == now
    ensures u.username == values.username && u.email == values.email && u.password == values.password
  {
    User(id, values.username, values.email, values.password, isAdmin.GetOr(IS_ADMIN_DEFAULT), now)
  }

  /// Identifier sets and the unique columns.

  function UserIds(users: seq<User>): set<int> { set u | u in users :: u.id }
  function ArticleIds(articles: seq<Article>): set<int> { set a | a in articles :: a.id }
  function CommentIds(comments: seq<Comment>): set<int> { set c | c in comments :: c.id }

  predicate UsernameTaken(users: seq<User>, username: string)
  {
    exists u :: u in users && u.username == username
  }

  predicate EmailTaken(users: seq<User>, email: string)
  {
    exists u :: u in users && u.email == email
  }

  /** `users.username` is UNIQUE. */
  ghost predicate UniqueUsernames(users: seq<User>)
  {
    forall i, j :: 0 <= i < j < |users| ==> users[i].username != users[j].username
  }

  /** `users.email` is UNIQUE. */
  ghost predicate UniqueEmails(users: seq<User>)
  {
    forall i, j :: 0 <= i < j < |users| ==> users[i].email != users[j].email
  }

  /** Primary keys come from serial counters, so each table's rows sit in
      ascending id order. These are `Rows.StrictlyIncreasing` keyed by id,
      spelled out per table so that the store's invariant quantifies over
      plain fields rather than through a key function; the bridge lemmas
      below connect the two forms. */
  ghost predicate UsersOrdered(users: seq<User>)
  {
    forall i, j :: 0 <= i < j < |users| ==> users[i].id < users[j].id
  }

  ghost predicate ArticlesOrdered(articles: seq<Article>)
  {
    forall i, j :: 0 <= i < j < |articles| ==> articles[i].id < articles[j].id
  }

  ghost predicate CommentsOrdered(comments: seq<Comment>)
  {
    forall i, j :: 0 <= i < j < |comments| ==> comments[i].id < comments[j].id
  }

  /** The per-table orderings are the generic one, keyed by id. */
  lemma ArticlesOrderedByKey(articles: seq<Article>)
    ensures ArticlesOrdered(articles) <==> StrictlyIncreasing(articles, ArticleId)
  {
  }

  lemma CommentsOrderedByKey(comments: seq<Comment>)
    ensures CommentsOrdered(comments) <==> StrictlyIncreasing(comments, CommentId)
  {
  }

  /** Every constraint the three tables declare. */
  ghost predicate Constraints(users: seq<User>, articles: seq<Article>, comments: seq<Comment>)
  {
    && UsersOrdered(users)
    && ArticlesOrdered(articles)
    && CommentsOrdered(comments)
    && UniqueUsernames(users)
    && UniqueEmails(users)
    && (forall a :: a in articles ==> a.authorId in UserIds(users))
    && (forall c :: c in comments ==> c.articleId in ArticleIds(articles))
    && (forall c :: c in comments ==> c.authorId in UserIds(users))
  }

  /** Under the unique constraint, a username names at most one user. */
  lemma {:induction false} UsernameIdentifiesUser(users: seq<User>, u: User, v: User)
    requires UniqueUsernames(users)
    requires u in users && v in users && u.username == v.username
    ensures u == v
  {
    var i :| 0 <= i < |users| && users[i] == u;
    var j :| 0 <= j < |users| && users[j] == v;
    assert !(i < j) && !(j < i);
  }

  /** Under the unique constraint, an email names at most one user. */
  lemma {:induction false} EmailIdentifiesUser(users: seq<User>, u: User, v: User)
    requires UniqueEmails(users)
    requires u in users && v in users && u.email == v.email
    ensures u == v
  {
    var i :| 0 <= i < |users| && users[i] == u;
    var j :| 0 <= j < |users| && users[j] == v;
    assert !(i < j) && !(j < i);
  }

  /// Request bodies and their validation.

  /** A JSON value as it arrives in a request body. */
  datatype Json = JString(str: string) | JNumber(num: int) | JBool(flag: bool) | JNull

  /** A JSON object: the parsed request body. */
  type Body = map<string, Json>

  /** The value of a required `z.string()` field, or None when the field is
      missing or not a string. */
  function StringField(body: Body, key: string): (r: Option<string>)
    ensures r.Some? <==> key in body && body[key].JString?
    ensures r.Some? ==> body[key] == JString(r.value)
  {
    if key in body && body[key].JString? then Some(body[key].str) else None
  }

  /** `insertUserSchema.parse`: succeeds iff `username`, `email` and `password`
      are strings; every other key, `isAdmin` among them, is stripped. */
  function ParseInsertUser(body: Body): (r: Option<InsertUser>)
    ensures r.Some? <==> StringField(body, "username").Some? && StringField(body, "email").Some?
                         && StringField(body, "password").Some?
    ensures r.Some? ==> body["username"] == JString(r.value.username)
                        && body["email"] == JString(r.value.email)
                        && body["password"] == JString(r.value.password)
  {
    match (StringField(body, "username"), StringField(body, "email"), StringField(body, "password"))
    case (Some(username), Some(email), Some(password)) => Some(InsertUser(username, email, password))
    case _ => None
  }

  /** `insertArticleSchema.parse`: succeeds iff `title` and `body` are strings;
      `authorId` and every other key are stripped. */
  function ParseInsertArticle(body: Body): (r: Option<InsertArticle>)
    ensures r.Some? <==> StringField(body, "title").Some? && StringField(body, "body").Some?
    ensures r.Some? ==> body["title"] == JString(r.value.title) && body["body"] == JString(r.value.body)
  {
    match (StringField(body, "title"), StringField(body, "body"))
    case (Some(title), Some(text)) => Some(InsertArticle(title, text))
    case _ => None
  }

  /** `insertCommentSchema.parse`: succeeds iff `content` is a string;
      `articleId`, `authorId` and every other key are stripped. */
  function ParseInsertComment(body: Body): (r: Option<InsertComment>)
    ensures r.Some? <==> StringField(body, "content").Some?
    ensures r.Some? ==> body["content"] == JString(r.value.content)
  {
    match StringField(body, "content")
    case Some(content) => Some(InsertComment(content))
    case None => None
  }

  /** A key outside the user insert schema, such as `isAdmin`, has no effect
      on what registration reads from the body. */
  lemma UserSchemaIgnores(body: Body, key: string, value: Json)
    requires key != "username" && key != "email" && key != "password"
    ensures ParseInsertUser(body[key := value]) == ParseInsertUser(body)
  {
  }

  /** `authorId`, or any key outside the article insert schema, has no effect
      on the parsed article. */
  lemma ArticleSchemaIgnores(body: Body, key: string, value: Json)
    requires key != "title" && key != "body"
    ensures ParseInsertArticle(body[key := value]) == ParseInsertArticle(body)
  {
  }

  /** `articleId`, `authorId`, or any key outside the comment insert schema,
      has no effect on the parsed comment. */
  lemma CommentSchemaIgnores(body: Body, key: string, value: Json)
    requires key != "content"
    ensures ParseInsertComment(body[key := value]) == ParseInsertComment(body)
  {
  }
}
