# ArticleShare server core in Dafny

A model of the server side of ArticleShare, a small article-sharing web
application. Users register, publish articles and comment on them. The model
covers four parts.

- **The store** (`storage.dfy`, module `Storage`). Class `DatabaseStorage`
  holds the `users`, `articles` and `comments` tables as sequences of rows in
  insertion order, plus one serial counter per table. Its methods are the
  CRUD operations of `DatabaseStorage`. A write that breaks a unique or
  foreign-key constraint returns `None` and changes nothing, as the database
  would refuse it. `Valid()` is the class invariant:
  - every constraint the schema declares holds;
  - every id lies below its table's counter.
- **The schema** (`schema.dfy`, module `Schema`). It holds:
  - the row records and the three insert schemas;
  - validation of a JSON request body, as `zod` parses it;
  - the table constraints: primary keys, unique username and email, and the
    three foreign keys.
- **The request handlers and `seed`** (`handlers.dfy`, module `Handlers`).
  - Each handler takes the caller the session resolved (`Option<User>`), the
    store, and the request's path id and body.
  - It returns `Sent(code)`, or `Thrown` when an exception escapes it.
  - Its contract states the guard order (401, then 404, then 403), which
    outcomes leave the store unchanged, and the exact new state on success:
    every table and every serial counter. A create advances only its own
    table's counter, by one. A delete moves no counter, so a deleted id is
    never handed out again.
- **The shared API description** (`api.dfy`, module `Api`). It holds the route
  table and `buildUrl`. `buildUrl` is a loop-based method, proved equal to
  `SubstituteAll`, a recursive definition of the substitution. Lemmas
  characterise `SubstituteAll`.

Generic row operations live in `rows.dfy` (module `Rows`):
- `Filter` models `DELETE ... WHERE`;
- `Find` models the first row of a `SELECT ... WHERE`;
- `SortNewestFirst` models `ORDER BY createdAt DESC`.

`wrappers.dfy` holds `Option`.

Points where the code's behaviour is easy to misread, modelled as the code has it:
- Title, body and content are `NOT NULL` text. The code does not require them
  to be non-empty, and neither does the model: any JSON string passes.
- Create-article and create-comment do not catch a validation error. The model
  answers `Thrown` there, not 400.
- Create-comment checks authentication and the article's existence before it
  validates the body.
- `deleteArticle` is two sequential deletes, not a transaction.
- A duplicate username or email is refused by the database. Registration
  checks for it first and answers 400.
- The route table declares only 201 and 401 for creating a comment. The
  handler also sends 404. `Handlers.CreateComment` proves its codes lie in the
  declared set plus 404.

## Model

| member | source | states |
|---|---|---|
| `Rows.Filter` | ArticleShare/server/storage.ts:70-82 | The rows kept by a `DELETE ... WHERE` are exactly the rows of the table that are not selected. |
| `Rows.FilterKeepsIncreasing` | ArticleShare/server/storage.ts:70-82 | Deleting rows keeps the others in ascending serial-id order. |
| `Rows.FilterKeepsAll` | ArticleShare/server/storage.ts:80-82 | A delete whose condition selects no row leaves the table as it was. |
| `Rows.Find` | ArticleShare/server/storage.ts:22-35 | A lookup returns a row of the table that matches. It returns none iff no row matches. |
| `Rows.FirstIsNewest` | ArticleShare/server/storage.ts:45-46 | In a newest-first sequence no row is newer than the first. |
| `Rows.ConsNewestFirst` | ArticleShare/server/storage.ts:45-46 | A row at least as new as every row of a newest-first sequence can lead it. |
| `Rows.InsertNewestFirst` | ArticleShare/server/storage.ts:45-46 | Inserting into a newest-first sequence keeps it newest-first. It adds exactly that one row. |
| `Rows.SortNewestFirst` | ArticleShare/server/storage.ts:45-46 | `ORDER BY createdAt DESC` gives a permutation of the rows in non-increasing `createdAt` order. |
| `Rows.SortKeepsDistinct` | ArticleShare/server/storage.ts:45-46 | Sorting does not repeat a row: distinct ids stay distinct. |
| `Rows.InsertKeepsDistinct` | ArticleShare/server/storage.ts:45-46 | Inserting a row whose id is new keeps ids distinct. |
| `Rows.ConsKeepsDistinct` | ArticleShare/server/storage.ts:45-46 | Prepending a row whose id is new keeps ids distinct. |
| `Rows.HeadKeyIsOwn` | ArticleShare/server/storage.ts:45-46 | With distinct ids, no later row shares the first row's id. |
| `Rows.KeyIdentifiesRow` | ArticleShare/shared/schema.ts:7 | Under a serial primary key, an id names at most one row. |
| `Rows.IncreasingIsDistinct` | ArticleShare/shared/schema.ts:7 | Ascending serial ids are pairwise distinct. |
| `Schema.NewUserRow` | ArticleShare/shared/schema.ts:6-13 | An inserted user has the given fields. `isAdmin` is never null: it is false unless a value is given. |
| `Schema.UsernameIdentifiesUser` | ArticleShare/shared/schema.ts:8 | Under the unique constraint, two users with the same username are the same user. |
| `Schema.EmailIdentifiesUser` | ArticleShare/shared/schema.ts:9 | Under the unique constraint, two users with the same email are the same user. |
| `Schema.StringField` | ArticleShare/shared/schema.ts:16-17 | A required text field is accepted iff the body has it and it is a JSON string. |
| `Schema.ParseInsertUser` | ArticleShare/shared/schema.ts:57 | Registration input parses iff username, email and password are strings. The parsed values are those fields. |
| `Schema.ParseInsertArticle` | ArticleShare/shared/schema.ts:58 | Article input parses iff title and body are strings. |
| `Schema.ParseInsertComment` | ArticleShare/shared/schema.ts:59 | Comment input parses iff content is a string. |
| `Schema.Constraints` | ArticleShare/shared/schema.ts:6-29 | The table constraints: ids ascend in each table, usernames and emails are unique, and every `authorId` and `articleId` names an existing row. |
| `Schema.UserSchemaIgnores` | ArticleShare/shared/schema.ts:57 | No key outside username, email and password, `isAdmin` included, changes what registration parses. |
| `Schema.ArticleSchemaIgnores` | ArticleShare/shared/schema.ts:58 | `authorId`, like any key outside title and body, does not change the parsed article. |
| `Schema.CommentSchemaIgnores` | ArticleShare/shared/schema.ts:59 | `articleId` and `authorId`, like any key outside content, do not change the parsed comment. |
| `Storage.AuthorOf` | ArticleShare/shared/schema.ts:37-41 | The `author` relation yields the user whose id is the row's `authorId`. It yields none iff there is no such user. |
| `Storage.Thread` | ArticleShare/server/storage.ts:49-54 | An article's nested comments are exactly its own comments, newest first, each joined with the user its `authorId` names. |
| `Storage.Details` | ArticleShare/server/storage.ts:47-55 | An article is joined with the user its `authorId` names and with its thread. |
| `Storage.DetailsOf` | ArticleShare/server/storage.ts:47-55 | Each article, in the given order, is joined with the user its `authorId` names and with exactly its own comments, newest first, each with its author. |
| `Storage.ListArticles` | ArticleShare/server/storage.ts:42-58 | The listing has one entry per article of the table. |
| `Storage.ListingHoldsEveryArticle` | ArticleShare/server/storage.ts:42-58 | Every article appears in the listing, and only articles of the table do. |
| `Storage.ListingNewestFirst` | ArticleShare/server/storage.ts:46 | The listed articles are in non-increasing `createdAt` order. |
| `Storage.ListingJoins` | ArticleShare/server/storage.ts:47-55 | Each listed article carries the user its `authorId` names, and its comments are exactly those whose `articleId` matches, newest first, each with its author. |
| `Storage.JoinedIsThread` | ArticleShare/server/storage.ts:49-54 | Joining authors onto exactly an article's comments, held newest first, gives that article's thread. |
| `Storage.ListingComplete` | ArticleShare/server/storage.ts:42-58 | Under the table constraints, no article appears twice and every article and comment has its author. |
| `Storage.ThreadHasNoRepeats` | ArticleShare/server/storage.ts:49-54 | No comment appears twice in an article's nested comments. |
| `Storage.DeleteArticleKeepsConstraints` | ArticleShare/server/storage.ts:70-73 | Deleting an article together with its comments keeps every table constraint: the remaining comments point at remaining articles. |
| `Storage.FreshArticleFound` | ArticleShare/server/storage.ts:60-68 | After an article is created under a fresh id, a lookup by that id finds it. |
| `Storage.FreshCommentFound` | ArticleShare/server/storage.ts:75-87 | After a comment is created under a fresh id, a lookup by that id finds it. |
| `Storage.DatabaseStorage.constructor` | ArticleShare/shared/schema.ts:6-29 | The three tables start empty, and each serial counter starts at 1. |
| `Storage.DatabaseStorage.GetUser` | ArticleShare/server/storage.ts:22-25 | Returns a user with that id. Returns none iff there is none. |
| `Storage.DatabaseStorage.GetUserByUsername` | ArticleShare/server/storage.ts:27-30 | Returns a user with that username. Returns none iff there is none. |
| `Storage.DatabaseStorage.GetUserByEmail` | ArticleShare/server/storage.ts:32-35 | Returns a user with that email. Returns none iff there is none. |
| `Storage.DatabaseStorage.InsertUserRow` | ArticleShare/shared/schema.ts:6-13 | Refused, changing nothing, iff the username or email is taken. Otherwise appends one row with a fresh id, and nothing else changes. |
| `Storage.DatabaseStorage.CreateUser` | ArticleShare/server/storage.ts:37-40 | As `InsertUserRow`. The new user is not an admin. |
| `Storage.DatabaseStorage.GetArticles` | ArticleShare/server/storage.ts:42-58 | Returns the nested listing. No article appears twice, and every author, of an article or of a comment, is present. |
| `Storage.DatabaseStorage.GetArticle` | ArticleShare/server/storage.ts:60-63 | Returns the article with that id. Returns none iff there is none. |
| `Storage.DatabaseStorage.CreateArticle` | ArticleShare/server/storage.ts:65-68 | Refused, changing nothing, iff `authorId` names no user. Otherwise appends exactly one article with a fresh id. |
| `Storage.DatabaseStorage.DeleteArticle` | ArticleShare/server/storage.ts:70-73 | Afterwards no article has the id and no comment has it as `articleId`. Every other article and every comment of another article remain, and users are unchanged. |
| `Storage.DatabaseStorage.CreateComment` | ArticleShare/server/storage.ts:75-78 | Refused, changing nothing, iff the article or the author does not exist. Otherwise appends exactly one comment with a fresh id. |
| `Storage.DatabaseStorage.DeleteComment` | ArticleShare/server/storage.ts:80-82 | Removes only the comment with that id. An absent id changes nothing. |
| `Storage.DatabaseStorage.GetComment` | ArticleShare/server/storage.ts:84-87 | Returns the comment with that id. Returns none iff there is none. |
| `Api.Register` | ArticleShare/shared/routes.ts:23-31 | The route entry `POST /api/register`, declaring 201 and 400. |
| `Api.Login` | ArticleShare/shared/routes.ts:32-40 | The route entry `POST /api/login`, declaring 200 and 401. |
| `Api.Logout` | ArticleShare/shared/routes.ts:41-47 | The route entry `POST /api/logout`, declaring 200. |
| `Api.Me` | ArticleShare/shared/routes.ts:48-54 | The route entry `GET /api/user`, declaring 200. |
| `Api.ArticlesList` | ArticleShare/shared/routes.ts:57-63 | The route entry `GET /api/articles`, declaring 200. |
| `Api.ArticlesCreate` | ArticleShare/shared/routes.ts:64-72 | The route entry `POST /api/articles`, declaring 201 and 401. |
| `Api.ArticlesDelete` | ArticleShare/shared/routes.ts:73-82 | The route entry `DELETE /api/articles/:id`, declaring 204, 401, 403 and 404. |
| `Api.CommentsCreate` | ArticleShare/shared/routes.ts:85-93 | The route entry `POST /api/articles/:articleId/comments`, declaring 201 and 401. |
| `Api.CommentsDelete` | ArticleShare/shared/routes.ts:94-103 | The route entry `DELETE /api/comments/:id`, declaring 204, 401, 403 and 404. |
| `Api.IndexOfFrom` | ArticleShare/shared/routes.ts:111 | Finds the first occurrence of a pattern at or after a position, or reports that there is none. |
| `Api.IndexOf` | ArticleShare/shared/routes.ts:111 | Finds the first occurrence of a pattern, or reports that there is none. |
| `Api.Includes` | ArticleShare/shared/routes.ts:111 | `includes` holds iff the pattern occurs somewhere in the string. |
| `Api.ReplaceFirst` | ArticleShare/shared/routes.ts:112 | `replace` with a string pattern leaves a string without the pattern unchanged, and otherwise rewrites only the first occurrence, keeping the text around it. |
| `Api.FirstOccurrence` | ArticleShare/shared/routes.ts:112 | An occurrence with none before it is the one `replace` rewrites. |
| `Api.FirstAfterPrefix` | ArticleShare/shared/routes.ts:112 | A placeholder after a `:`-free prefix is found right after that prefix. |
| `Api.DigitChar` | ArticleShare/shared/routes.ts:112 | Renders a decimal digit as the character between `0` and `9` whose digit value it is. |
| `Api.NatToString` | ArticleShare/shared/routes.ts:112 | `String(n)` of a natural number is a non-empty string of decimal digits whose decimal value is `n`, without a leading zero unless it is "0". |
| `Api.IntToString` | ArticleShare/shared/routes.ts:112 | `String(value)` of a safe integer: its digits denote the value's magnitude, with no leading zero. A single `-` comes first exactly when the value is negative, and `-` appears nowhere else. It never contains `:`, so a value cannot create a placeholder. |
| `Api.Substitute` | ArticleShare/shared/routes.ts:111-113 | One step of the loop changes the url iff `:key` occurs in it, and then swaps `:key` for the value's text. |
| `Api.SubstituteAll` | ArticleShare/shared/routes.ts:110-114 | The params applied in entry order. A url without `:` has no placeholder and comes back unchanged. |
| `Api.ColonFreeHasNoPlaceholder` | ArticleShare/shared/routes.ts:111 | Every placeholder begins with `:`, so a url without `:` contains none. |
| `Api.BuildUrl` | ArticleShare/shared/routes.ts:107-117 | Without params the path is returned unchanged. Otherwise the result is the params applied one after another in entry order. |
| `Api.NoParamsNoChange` | ArticleShare/shared/routes.ts:109 | An empty parameter list leaves the path as it is. |
| `Api.AbsentPlaceholderNoChange` | ArticleShare/shared/routes.ts:111 | A param whose `:key` does not occur leaves the url unchanged. |
| `Api.FirstPlaceholderReplaced` | ArticleShare/shared/routes.ts:111-113 | When `:key` occurs, only its first occurrence is replaced by the value's text. |
| `Api.SubstituteInOrder` | ArticleShare/shared/routes.ts:110-114 | Params act in entry order. Each one works on the previous result. |
| `Api.SubstituteAfterPrefix` | ArticleShare/shared/routes.ts:111-113 | A single param whose placeholder follows a `:`-free prefix turns `prefix :key suffix` into `prefix value suffix`. |
| `Api.ArticleUrl` | ArticleShare/shared/routes.ts:107-117 | Building `/api/articles/:id` with `{id: n}` gives `/api/articles/` followed by `String(n)`. |
| `Api.CommentsUrl` | ArticleShare/shared/routes.ts:107-117 | Building `/api/articles/:articleId/comments` with `{articleId: n}` gives `/api/articles/`, then `String(n)`, then `/comments`. |
| `Api.PlaceholderPrefixMatches` | ArticleShare/shared/routes.ts:111-113 | The match ignores path segments. With key `article`, part of `:articleId` is rewritten. |
| `Api.ShortKeyFirst` | ArticleShare/shared/routes.ts:111-113 | Key `a` applied to `/:ab` rewrites only the `:a` and leaves the `b`. |
| `Api.LongKeyFirst` | ArticleShare/shared/routes.ts:111-113 | Key `ab` applied to `/:ab` rewrites the whole placeholder. |
| `Api.EntryOrderMatters` | ArticleShare/shared/routes.ts:110-114 | Keys `a` and `ab` on `/:ab` give different urls depending on entry order. |
| `Api.DeleteRoutesResponses` | ArticleShare/shared/routes.ts:73-103 | Both delete routes declare exactly 204, 401, 403 and 404. |
| `Handlers.CanDeleteArticle` | ArticleShare/server/routes.ts:98-101 | An admin, or the article's author, may delete an article. |
| `Handlers.CanDeleteComment` | ArticleShare/server/routes.ts:137-140 | An admin, or the comment's author, may delete a comment. The article's author has no say. |
| `Handlers.Register` | ArticleShare/server/routes.ts:16-46 | Invalid input gives 400. A taken username or email gives 400 with no write. Otherwise exactly one non-admin user is added, built from username, email and the hashed password, with 201. The user serial advances by one and the other counters stay. It never throws. |
| `Handlers.Me` | ArticleShare/server/routes.ts:63-65 | Answers 200 with the caller's record, or null. |
| `Handlers.List` | ArticleShare/server/routes.ts:68-71 | Answers 200 with the nested listing, with or without a caller. |
| `Handlers.CreateArticle` | ArticleShare/server/routes.ts:74-84 | No caller gives 401. On 201 exactly one article is added, under the article serial, which advances by one. Its `authorId` is the caller's id whatever the body says. The other tables and counters stay. Every other outcome leaves the store unchanged. |
| `Handlers.DeleteArticle` | ArticleShare/server/routes.ts:87-105 | The checks run in order: 401, then 404 for an absent article, then 403 unless the caller is admin or author, then 204. Only 204 changes the store: it removes the article and its comments, and leaves the users and all three serial counters as they were. |
| `Handlers.CreateComment` | ArticleShare/server/routes.ts:108-123 | 401, then 404, both before body validation and with no write. On 201 exactly one comment is added, under the comment serial, which advances by one. Its `articleId` is the path id and its `authorId` is the caller's id. The other tables and counters stay. |
| `Handlers.DeleteComment` | ArticleShare/server/routes.ts:126-144 | 401, then 404, then 403 unless the caller is admin or the comment's author (article ownership plays no part), then 204. Only 204 changes the store: it removes the comment and leaves the other tables and all three serial counters as they were. |
| `Handlers.SAMPLE` | ArticleShare/server/routes.ts:194-223 | The titles and bodies of the two seeded articles and the texts of the three seeded comments. |
| `Handlers.SourceSeed` | ArticleShare/server/routes.ts:153-223 | The accounts and text `seed()` inserts. Its two accounts differ in email and in username, so `Seed` applies to them. |
| `Handlers.AccountStepsCompose` | ArticleShare/server/routes.ts:153-189 | The admin account's step does not change whether the normal account's email or username is taken, nor the rows its step appends. |
| `Handlers.AccountRowsCompose` | ArticleShare/server/routes.ts:153-189 | The admin step followed by the normal account's step appends exactly the rows of both steps and advances the user counter past them. |
| `Handlers.OwnedByKept` | ArticleShare/server/routes.ts:166-169 | Appending users keeps an account's id attached to its email. |
| `Handlers.AppendKeepsOtherAccount` | ArticleShare/server/routes.ts:172-189 | Appending rows of another account does not change whether this account's email or username is taken. |
| `Handlers.RefusedRowsAreAdmin` | ArticleShare/server/routes.ts:158-184 | A refused seeding leaves at most one new user, and that user is the admin account with its admin flag set. |
| `Handlers.SeedAccount` | ArticleShare/server/routes.ts:153-170 | Inserts the account, with its admin flag, only when no user has its email, and returns the id of the user with that email. It is refused exactly when the email is absent but the username is taken. Apart from the one row, the store is unchanged. |
| `Handlers.SeedUserAccount` | ArticleShare/server/routes.ts:172-189 | The normal account's step after the admin's: refused exactly when that account would be refused on the original users, and then it writes nothing. On success the users are the original ones plus both steps' rows, and both ids name their accounts. |
| `Handlers.SeedAccounts` | ArticleShare/server/routes.ts:153-189 | Adds the admin account (`isAdmin` true) and the normal account (`isAdmin` false), each only when its email is absent. It fails exactly when an account's username is taken under another email. A failure leaves either no new user or, when the normal account was refused, just the admin row already inserted. When both emails exist, nothing changes. |
| `Handlers.SeedTwoArticles` | ArticleShare/server/routes.ts:194-204 | Adds the welcome article by the admin account and the guide by the normal account, under consecutive fresh ids, each stamped with its own statement's clock reading. The article serial advances by two. |
| `Handlers.SeedComments` | ArticleShare/server/routes.ts:207-223 | Adds three comments, all stamped with the one statement's clock reading: two on the welcome article (by the normal account, then the admin) and one on the guide (by the admin). The comment serial advances by three. |
| `Handlers.SeedArticles` | ArticleShare/server/routes.ts:192-226 | On an empty article table (hence an empty comment table) the tables end up holding exactly the two articles and three comments, and the article and comment serials advance by two and three. |
| `Handlers.SeedContent` | ArticleShare/server/routes.ts:191-226 | Writes the sample content exactly when the listing is empty: the two articles and three comments under the next ids, with the article and comment serials past them. Otherwise nothing changes, and users are never touched. |
| `Handlers.SeededListingGuideFirst` | ArticleShare/server/routes.ts:194-204 | When the guide's insert reads a later clock than the welcome article's, `getArticles` on the seeded tables lists the guide first and the welcome article second. |
| `Handlers.Seed` | ArticleShare/server/routes.ts:152-227 | Fails exactly when an account insert is refused. A failed run writes no content and leaves the users and the user serial as `RefusedRows` says. A completed run adds the users `AccountRows` gives, advancing the user serial by as many, and leaves both accounts and at least one article. When content is not written, the article and comment serials stay. Content is written only when there was no article. A run on a seeded store changes nothing, so a second run is a no-op. |

## Left out

- Login, logout, `setupAuth` and sessions. The caller is an explicit
  `Option<User>`. Registration's `req.login` is not modelled.
  `server/auth.ts` is not part of this model.
- `hashPassword`: a function parameter `hash`. The stored password is
  `hash(password)`. Nothing else is assumed about it.
- Express's handling of an escaped exception (`next(err)` or a rejected
  promise). A handler reports `Thrown`, and the status Express then sends is
  not modelled.
- Zod error messages and fields. Validation is a success-or-failure parse.
- `parseInt` on path parameters. Ids are integers, and the NaN case is not
  modelled.
- SQL, Drizzle's relational queries and connection failures. Tables are
  sequences.
- `createdAt` is a supplied integer `now`. Its nullability is not modelled:
  the column default always sets it.
- Ties in `createdAt`: the database may order equal timestamps either way.
  The model keeps them in insertion order.
- A refused insert does not advance the serial counter. Postgres would
  consume a value.
- Concurrency. `deleteArticle` runs as one step, and its two statements are
  not atomic against concurrent readers.
- The response body schemas of the route table and `errorSchemas`. Only the
  status codes are modelled.
- `buildUrl` with string parameter values. Values are integers, so
  `replace`'s `$` patterns cannot arise.
- `console.log` calls. Seed's three-row comment insert is modelled as three
  one-row inserts, which cannot fail there.
- Handlers.Seed: takes the accounts and the sample text as a `SeedData`
  parameter. `Handlers.SourceSeed(hash)` builds `seed()`'s own values: the
  two accounts, and `Handlers.SAMPLE` with the literal titles, bodies and
  comments. Passing them in keeps the proof small. The contract therefore
  speaks of any two accounts that differ in email and username, which
  `SourceSeed` proves of `seed()`'s accounts.
- Handlers.Seed: the `defaultNow()` reading of each of its five insert
  statements is a field of `SeedClock`. The model does not require the
  readings to increase. Only `SeededListingGuideFirst` assumes that the guide
  is stamped later than the welcome article.
- Api.IntToString: values are integers within JavaScript's safe range.
  `String` of a number whose magnitude is 1e21 or more uses exponent
  notation, such as `1e+21`. That rendering is not modelled.
- The client (React pages, hooks, cards and navigation). Its delete buttons
  only mirror the server's rules.
