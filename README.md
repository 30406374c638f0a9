# Blog server mock store, in Dafny

This project models the in-memory mock store behind the blogging server's
Express route handlers, and proves properties of it. There are four parts,
one module and file each:

- **Comments** (`comments.dfy`): one global forest of comments with nested
  replies, and the counter `nextCommentId`. It covers the pre-order lookup
  `findCommentById`/`findInReplies`, `getBlogComments`, `addComment` (a
  top-level comment or a reply at any depth) and `toggleCommentLike`.
- **Blogs** (`blogs.dfy`): the list `mockBlogs` and the counter `nextId`. It
  covers `calculateReadTime`, the `getAllBlogs` query (status, category and
  search filters, sort, pagination), `createBlog`, `getBlogById`,
  `toggleBlogLike` and `toggleBlogBookmark`.
- **Auth** (`auth.dfy`): the registry `mockUsers`,
  `mockPasswords` and `nextUserId`. It covers the mock token
  `token_<id>_<time>` and its parse, `login`, `register`, `getCurrentUser`
  and `createUser`.
- **Admin** (`admin.dfy`): `checkAdminAuth`, `getAllUsers`,
  `getAdminStats`, `deleteUser` and `updateUserRole`, all on the same user
  registry.

Three support modules hold the shared pieces:

- `common.dfy`: `Option`, and `Response`, which stands for the status codes
  200, 201, 400, 401, 403, 404, 409 and 500.
- `api.dfy`: the records of `shared/api.ts`.
- `text.dfy` and `lists.dfy`: the JavaScript string and array operations
  the handlers rely on, each with the properties the handlers need.

How the state is modelled:

- Each module's mutable state is a class: `CommentStore`, `BlogStore` and
  `UserRegistry`. A handler is a method that returns a `Response`.
- Each class has a `Valid()` invariant that every handler preserves:
  - ids are below their counter and pairwise distinct;
  - emails are distinct and every user's email has a stored password;
  - like counts are consistent;
  - every published post has a publication time.
- Read-only handlers are functions that read the class.
- The comment handlers change the node the lookup returns in place. The
  model rebuilds the forest as a value instead, with `ApplyAt`. It proves
  that exactly the node the lookup finds changes, that the lookup then
  returns the changed node, and that no other node's own fields change.

## Model

| member | source | states |
|---|---|---|
| Comments.Find | server/routes/comments.ts:159-187 | a node found carries the id asked for |
| Comments.FindNoneIffAbsent | server/routes/comments.ts:159-187 | the lookup finds nothing exactly when no node at any depth has the id |
| Comments.FindIsFirstInPreorder | server/routes/comments.ts:159-187 | the lookup returns the first node in document order (a comment before its replies, a sibling's whole subtree before the next sibling) that has the id |
| Comments.FindAppend | server/routes/comments.ts:160-170 | searching a list searches the earlier siblings first, then the later ones |
| Comments.FindInReplies | server/routes/comments.ts:174-187 | the loop with early return over one list of siblings, recursing into replies, returns exactly the pre-order lookup's answer |
| Comments.CommentStore.FindCommentById | server/routes/comments.ts:159-172 | the loop over the top-level comments returns exactly the pre-order lookup's answer |
| Comments.CommentStore.GetBlogComments | server/routes/comments.ts:68-76 | the answer is the whole global forest, whatever blog id is asked for |
| Comments.Toggled | server/routes/comments.ts:144-145 | isLiked is flipped and likes moves by +1 when now liked, -1 when unliked; every other field is kept |
| Comments.ToggledTwice | server/routes/comments.ts:144-145 | toggling a comment twice gives it back unchanged |
| Comments.ApplyAtMissing | server/routes/comments.ts:113-117 | a change aimed at an id nobody has leaves the forest unchanged |
| Comments.ApplyAtTarget | server/routes/comments.ts:113-115 | after a change at an id, the lookup of that id returns the found node with the change made |
| Comments.ApplyAtIds | server/routes/comments.ts:113-115 | a change adds exactly the ids it carries to the forest (one for a reply, none for a toggle), at every depth |
| Comments.ApplyAtFrame | server/routes/comments.ts:113-115 | every other id's lookup returns a node whose own fields are unchanged |
| Comments.ApplyAtKeepsOthers | server/routes/comments.ts:113-115 | after a reply is added here, or a like toggled at lines 144-145, a node that is not the changed one and does not hold it among its replies (at any depth) is found whole, replies included, so only the changed node and its ancestors differ |
| Comments.ToggleTwice | server/routes/comments.ts:138-145 | toggling the same comment twice restores the whole forest |
| Comments.LikesAppend | server/routes/comments.ts:115 | like counts of a concatenation are consistent exactly when both parts' are |
| Comments.ApplyAtLikes | server/routes/comments.ts:144-145 | a toggle, or a reply with a consistent count, keeps every like count consistent |
| Comments.ValidAddId | server/routes/comments.ts:97 | one new node carrying the counter's id, with the counter moved past it, keeps ids unique and below the counter |
| Comments.AppendTopEffect | server/routes/comments.ts:119-122 | appending a fresh comment with the counter's id at the top level keeps the forest valid |
| Comments.AppendReplyEffect | server/routes/comments.ts:112-118 | appending a fresh reply under an existing parent keeps the forest valid, makes the reply the parent's last reply, adds exactly its id, changes no other node's own fields, and leaves every node that is not an ancestor of the parent whole, replies included |
| Comments.ToggleLikeEffect | server/routes/comments.ts:138-145 | a toggle makes the found comment's new state what the lookup returns, keeps ids and count consistency, leaves every other node's own fields alone, and leaves every node that is not an ancestor of it whole, replies included |
| Comments.SeedForestValid | server/routes/comments.ts:5-65 | the seed ids 1, 11, 2 and 3 are distinct and below the initial counter 12, and their like counts are consistent |
| Comments.CommentStore.constructor | server/routes/comments.ts:5-65 | the store starts with the seed forest and counter 12, and is valid |
| Comments.CommentStore.AddComment | server/routes/comments.ts:84-127 | empty or missing content gives 400 with no change; otherwise the counter rises by one even when a reply's parent is missing (404, forest unchanged); a top-level comment is appended last; a reply becomes the parent's last reply with nothing else changed; the new comment has the old counter as id and no likes or replies |
| Comments.CommentStore.ToggleCommentLike | server/routes/comments.ts:135-151 | an id that does not parse, or that nobody has, gives 404 with no change; otherwise the found comment is toggled and its new like state returned, with no other node's own fields changed and every node that is not its ancestor left whole |
| Comments.CommentStore.ToggleLikeOf | server/routes/comments.ts:137-145 | the lookup and in-place toggle, with the same outcome as above |
| Text.Lower | server/routes/blogs.ts:154 | lower-casing keeps the length, turns each letter 'A'..'Z' into the matching 'a'..'z' and keeps every other character |
| Text.LowerIdempotent | server/routes/blogs.ts:153 | `toLowerCase()` of an already lower-cased text changes nothing |
| Text.Substring | server/routes/auth.ts:177 | `substring(7)` is the text after the first 7 characters, or empty for a shorter text |
| Text.Split | server/routes/auth.ts:181 | splitting on '_' yields at least one field, none containing '_' |
| Text.JoinSplit | server/routes/auth.ts:181 | joining the fields of a split with the separator gives back the text |
| Text.SplitJoin | server/routes/auth.ts:181 | splitting fields joined with a separator they lack gives back the fields |
| Text.NatToString | server/routes/auth.ts:58 | a number prints as a non-empty string of digits with no leading zero; it starts with `0` exactly when the number is 0 |
| Text.NatToStringCanonical | server/routes/auth.ts:58 | every digit string with no leading zero is the printed form of its own value, so the printed form is the only such string |
| Text.NatToStringValue | server/routes/auth.ts:58 | the printed digits have the number's value |
| Text.LeadingDigits | server/routes/auth.ts:181 | the longest all-digit prefix |
| Text.ParseInt | server/routes/auth.ts:181 | the model's parseInt (decimal digits only) is NaN exactly when the text does not start with a decimal digit |
| Text.ParseIntOfNat | server/routes/blogs.ts:135 | a printed number followed by non-digit text parses back to that number |
| Text.StripTags | server/routes/blogs.ts:132 | removing tags never lengthens the text, adds no character and leaves no `<...>` span |
| Text.StripTagsNoTag | server/routes/blogs.ts:132 | text with no tag is left as it is |
| Text.StripTagsPlain | server/routes/blogs.ts:132 | text before the first `<` is kept as it is, and stripping goes on after it |
| Text.StripTagsTag | server/routes/blogs.ts:132 | a `<`, the text up to the first `>` after it, and that `>` are removed, and stripping goes on after them |
| Text.StripTagsIdempotent | server/routes/blogs.ts:132 | stripping twice is stripping once |
| Text.SkipSpaces | server/routes/blogs.ts:133 | dropping a leading run of white space leaves a suffix not starting with white space |
| Text.SplitWhitespace | server/routes/blogs.ts:133 | splitting on runs of white space yields at least one field, none containing white space |
| Text.SplitWhitespaceWord | server/routes/blogs.ts:133 | a piece of text with no white space becomes the start of the first field of what follows it |
| Text.SplitWhitespaceRun | server/routes/blogs.ts:133 | a maximal run of white space closes the current field, and the text after it starts the next field |
| Text.SplitWhitespaceKeepsText | server/routes/blogs.ts:133 | the fields put end to end are the text without its white space |
| Text.SplitWhitespaceCount | server/routes/blogs.ts:133 | the split has one field more than the text has maximal runs of white space (counted as the positions where a run starts) |
| Text.RunsFromSet | server/routes/blogs.ts:133 | counting run starts position by position gives the size of the set of run starts |
| Text.IndexOf | server/routes/blogs.ts:132 | the first position of a character present in the text |
| Lists.Filter | server/routes/blogs.ts:149 | a filter keeps exactly the elements meeting the predicate, each as often as at most before |
| Lists.FilterAppend | server/routes/blogs.ts:149 | filtering a concatenation filters each part and concatenates, so the kept elements keep their order |
| Lists.FilterFilter | server/routes/blogs.ts:149-167 | two filters in a row are one filter by the conjunction |
| Lists.FilterSame | server/routes/blogs.ts:149-167 | filters by agreeing predicates agree |
| Lists.FilterAll | server/routes/blogs.ts:152 | a filter every element passes changes nothing |
| Lists.FirstIndex | server/routes/admin.ts:160 | findIndex gives the first matching position, or -1 (None) exactly when nothing matches |
| Lists.FirstIndexAppend | server/routes/admin.ts:160 | findIndex on a concatenation searches the first part, then the second |
| Lists.FindFirst | server/routes/blogs.ts:207 | find gives a matching element, or undefined (None) exactly when nothing matches |
| Lists.FindFirstAppend | server/routes/blogs.ts:207 | find on a concatenation gives the first part's match, else the second's |
| Lists.InsertDesc | server/routes/blogs.ts:170-180 | one insertion step of the stable sort adds exactly the element |
| Lists.InsertDescSorted | server/routes/blogs.ts:170-180 | inserting into a sorted list keeps it sorted |
| Lists.SortDesc | server/routes/blogs.ts:170-180 | sorting with comparator `key(b) - key(a)` gives a permutation with non-increasing keys |
| Lists.InsertDescStable | server/routes/blogs.ts:170-180 | an inserted element goes in front of the elements already there that have its key, and their order is kept |
| Lists.SortDescStable | server/routes/blogs.ts:170-180 | the sort is stable: for every key, the elements with that key are in the same order as before the sort |
| Lists.Page | server/routes/blogs.ts:183-187 | the page is elements `(page-1)*size` onwards, at most `size` of them, cut short at the end |
| Lists.Paginate | server/routes/blogs.ts:183-187 | the page has at most pageSize elements, and is non-empty exactly when both numbers parse, page is at least 1, size is positive and the list reaches past the page's start |
| Lists.PageSorted | server/routes/blogs.ts:183-187 | a page of a sorted list is sorted |
| Lists.PageElements | server/routes/blogs.ts:183-187 | every element of a page is an element of the list |
| Lists.PaginatedSelection | server/routes/blogs.ts:149-191 | a page of the sorted selection holds only selected elements of the list and is sorted |
| Lists.PagesCover | server/routes/blogs.ts:185-187 | pages 1 to n, end to end, are the first n*size elements, so pages neither overlap nor skip |
| Lists.Take | server/routes/admin.ts:113 | `slice(0, n)` is the prefix of length min(n, length), so it repeats no element more often than the list has it |
| Lists.TakeSorted | server/routes/admin.ts:108-113 | a prefix of a sorted list is sorted |
| Lists.TakeSortedTop | server/routes/admin.ts:108-113 | an element left out of the first n of the sorted list has a key no larger than any element kept |
| Lists.SortDescFirst | server/routes/admin.ts:108-113 | the first element of the sorted list has the largest key |
| Lists.SumNonNegative | server/routes/admin.ts:98-105 | a sum of non-negative counts is non-negative |
| Blogs.WordCount | server/routes/blogs.ts:132-133 | the word count is one more than the number of white-space runs in the tag-stripped content, so at least 1 even for empty content |
| Blogs.ReadMinutes | server/routes/blogs.ts:134 | the read time is the ceiling of words / 200: at least 1, and `(m-1)*200 < words <= m*200` |
| Blogs.CalculateReadTime | server/routes/blogs.ts:130-136 | the text is the printed read time (no leading zero) followed by " min read", and its leading number parses back to the read time |
| Blogs.FilterChainSelects | server/routes/blogs.ts:149-167 | the status, category and search filters in a row keep exactly the published posts matching the category case-insensitively and the lower-cased search in title, excerpt, author name or a tag |
| Blogs.DefaultExcerpt | server/routes/blogs.ts:243 | the default excerpt is the first min(200, length) characters of the tag-stripped content followed by "..." |
| Blogs.NewBlog | server/routes/blogs.ts:240-257 | the created post has the given id, text fields, default excerpt and image, the read-time text of its content, zero counts, and is published with a time exactly when publishType is "publish" |
| Blogs.BlogIndex | server/routes/blogs.ts:206-207 | the index of the first post whose id equals the parsed id; None exactly when the id does not parse or no post has it |
| Blogs.Viewed | server/routes/blogs.ts:214 | views rise by one and nothing else changes |
| Blogs.LikeToggled | server/routes/blogs.ts:283-284 | isLiked flips and likes moves by ±1 to match, nothing else changes |
| Blogs.LikeToggledTwice | server/routes/blogs.ts:283-284 | two like toggles restore the post |
| Blogs.LikeToggledOk | server/routes/blogs.ts:283-284 | a like toggle keeps the like count consistent |
| Blogs.BookmarkToggled | server/routes/blogs.ts:307 | only isBookmarked flips |
| Blogs.BookmarkToggledTwice | server/routes/blogs.ts:307 | two bookmark toggles restore the post |
| Blogs.ValidPrepend | server/routes/blogs.ts:240-259 | a consistent post carrying the next id, put in front, keeps ids distinct and below the counter |
| Blogs.SeedBlogsValid | server/routes/blogs.ts:21-127 | the seed posts have distinct ids below 4, consistent likes and publication times |
| Blogs.BlogStore.constructor | server/routes/blogs.ts:21-127 | the store starts with the seed posts and counter 4, and is valid |
| Blogs.BlogStore.GetAllBlogs | server/routes/blogs.ts:139-195 | total is the filtered count; the page is the requested slice of the selection sorted by the sortBy key; it holds only selected posts of the list, at most pageSize of them, in non-increasing key order; page and pageSize default to 1 and 10; the list itself is only read |
| Blogs.BlogStore.CreateBlog | server/routes/blogs.ts:229-266 | a missing title, content or category gives 400 with no change; otherwise the new post goes to index 0 with the old counter as id, and the counter rises by one |
| Blogs.BlogStore.GetBlogById | server/routes/blogs.ts:204-221 | an unknown id gives 404 with no change; otherwise only the found post changes, with one more view, and it is returned with no comments |
| Blogs.BlogStore.ToggleBlogLike | server/routes/blogs.ts:274-290 | an unknown id gives 404 with no change; otherwise only the found post's like state toggles, and the new state is returned |
| Blogs.BlogStore.ToggleBlogBookmark | server/routes/blogs.ts:298-312 | an unknown id gives 404 with no change; otherwise only the found post's bookmark flips, and the new flag is returned |
| Auth.GenerateToken | server/routes/auth.ts:57-59 | the token starts with "token_" and splits on '_' into "token", the printed id and the printed time |
| Auth.TokenRoundTrip | server/routes/auth.ts:177-181 | "Bearer " followed by a generated token reads back, past 7 characters and through field 1 of the split, as the user's id |
| Auth.UserIndex | server/routes/admin.ts:160 | the first position of a user with the parsed id; a NaN id matches nobody |
| Auth.FindUserById | server/routes/auth.ts:182 | a user with the parsed id, or nothing exactly when nobody has it or it is NaN |
| Auth.FindUserByEmail | server/routes/auth.ts:74 | a user with the email, or nothing exactly when nobody has it |
| Auth.Authenticate | server/routes/auth.ts:170-189 | a user is found exactly when the header is present, starts with "Bearer " and its token names an existing user |
| Auth.NewUser | server/routes/auth.ts:126-136 | the new account has the given id, name, email, bio and role, a placeholder avatar, zero counts and the creation time |
| Auth.ValidAppend | server/routes/auth.ts:117-139 | appending a user with the next id and an unused email, with its password stored, keeps ids and emails distinct |
| Auth.FindUserByIdUnique | server/routes/auth.ts:182 | with distinct ids, looking up a user's id finds that user |
| Auth.SeedUsersValid | server/routes/auth.ts:11-54 | the seed users have distinct ids below 4, distinct emails and stored passwords |
| Auth.UserRegistry.constructor | server/routes/auth.ts:11-54 | the registry starts with the seed users and passwords and counter 4, and is valid |
| Auth.UserRegistry.Login | server/routes/auth.ts:62-97 | 400 exactly when email or password is missing; success exactly when some user has the email and the stored password matches; 401 otherwise; on success the user has that email, and the token is `generateToken(user.id)` for the current time and reads back as the user's id |
| Auth.UserRegistry.GetCurrentUser | server/routes/auth.ts:167-191 | 401, or the user the "Bearer" token names, exactly as Authenticate decides |
| Auth.UserRegistry.LoginThenCurrentUser | server/routes/auth.ts:177-182 | the token of a successful login makes getCurrentUser answer with the logged-in user |
| Auth.UserRegistry.Register | server/routes/auth.ts:105-148 | 400 for a missing name, email or password, 409 for a known email, both with no change; otherwise one "user" account appended with the next id and default bio "New blogger", its password stored, the counter up by one, and a token for it |
| Auth.UserRegistry.CreateUser | server/routes/auth.ts:199-252 | 401 without a header, then 403 unless its token names an admin, then 400 for a missing field, then 409 for a known email, all with no change; otherwise an account with the requested role and default bio "New user" is appended |
| Admin.CheckAdminAuth | server/routes/admin.ts:6-21 | a user is returned exactly when the header starts with "Bearer ", its token names an existing user and that user's role is "admin" |
| Admin.UserFilterChainSelects | server/routes/admin.ts:39-52 | the search and role filters in a row keep exactly the users matching the lower-cased search in name, email or bio and having the role unless it is "all" |
| Admin.GetAllUsers | server/routes/admin.ts:24-79 | 403 exactly for a non-admin; otherwise total is the filtered count and the page holds only selected users, at most pageSize, newest first; the registry is only read |
| Admin.RecentUsers | server/routes/admin.ts:107-113 | min(5, count) users, newest first, none older than a user left out, and no user more often than in the list |
| Admin.RecentPosts | server/routes/admin.ts:115-121 | min(5, count) posts, newest first, none older than a post left out, and no post more often than in the list |
| Admin.GetAdminStats | server/routes/admin.ts:82-137 | 403 exactly for a non-admin; otherwise the user and post counts, the sums of comments and likes, and the five newest users and posts |
| Admin.GetAdminStatsImporting | server/routes/admin.ts:82-137 | as written: 403 exactly for a non-admin; 500 exactly for an admin when the imported module has no `mockBlogs`; with one, the answer of Admin.GetAdminStats over it |
| Admin.AdminStatsAsWrittenFails | server/routes/admin.ts:92-97 | with the data `server/routes/blogs.ts` exports, no request gets the statistics and an admin gets 500 |
| Admin.StatsTotalsNonNegative | server/routes/admin.ts:98-105 | with no negative counts, the comment and like totals are non-negative |
| Admin.RemoveAt | server/routes/admin.ts:168 | splice removes exactly the element at the index; the others keep their order |
| Admin.RemoveAtValid | server/routes/admin.ts:160-168 | with distinct ids, no remaining user has the removed id, and the registry stays valid |
| Admin.SetRole | server/routes/admin.ts:216-217 | only the role and update time of the user at the index change |
| Admin.SetRoleValid | server/routes/admin.ts:216-217 | a role change keeps the registry valid |
| Admin.SetRoleAdminAuth | server/routes/admin.ts:6-21 | after a role change the changed user passes the admin check exactly when the new role is "admin", and everyone else's standing is unchanged |
| Admin.DeleteUser | server/routes/admin.ts:140-172 | 403 for a non-admin, then 400 for the requester's own id, then 404 for an unknown id, all with no change; otherwise exactly the first user with the id is removed and the rest keep their order |
| Admin.UpdateUserRole | server/routes/admin.ts:180-222 | 403 for a non-admin, then 400 for a role other than "admin" or "user", then 400 for the requester's own id, then 404 for an unknown id, all with no change; otherwise only that user's role and update time change, and the user is returned |

## Left out

- The `try/catch` branches that answer 500 are not modelled, except getAdminStats's, which every admin request reaches (see Findings). `console.error` and the `message` strings of the JSON answers are not modelled either. Express's `req`/`res` become parameters and a `Response` value.
- Clock reads (`Date.now()`, `new Date().toISOString()`) are parameters: `now` is a timestamp and `nowMs` is the millisecond count in the token.
- Date strings are integers whose order is the chronological order, with no `Date` parsing. A draft's empty `publishedAt` is None.
- Admin.RecentPosts: a draft's missing date sorts with key 0. In the source the comparator compares NaN, so where drafts end up is unspecified there.
- Text.ParseInt: reads decimal digits only. parseInt also skips leading white space, reads a sign, and without a radix reads a "0x"/"0X" prefix as hexadecimal. The model reads "-1" and " 2" as NaN, and "0x1A" and "0x" as 0 where parseInt gives 26 and NaN. So, for example, GET /api/blogs/0x2 finds post 2 in the source but answers 404 in the model. A negative page number, which `slice` would count from the end, is not modelled. Precision loss for very large numbers is not modelled either.
- Text.Lower: lower-casing, and the white space of Text.IsSpace, are ASCII-only. There is no Unicode case mapping and no Unicode `\s`.
- Request fields of a type other than the declared one (a number for a string, an array for a query parameter) are not modelled. Each text field is a string that may be absent, and a comment's `parentId` is an integer that may be absent.
- `mockPasswords` is a plain map. JavaScript object keys inherited from the prototype are not modelled.
- Admin.GetAdminStats: states the aggregation getAdminStats is written to compute, over a list of posts passed as a parameter. As written the handler answers an admin with 500, which Admin.GetAdminStatsImporting models (see Findings).
- Blogs.DefaultExcerpt: lengths and positions count Unicode characters, where JavaScript's `substring` and `length` count UTF-16 code units. For text with characters outside the Basic Multilingual Plane (an emoji is two code units) `substring(0, 200)` keeps fewer characters than the model, and can split a surrogate pair. The same holds for the `length` checks and the `substring(7)` of the token, whose "Bearer " prefix is ASCII.
- Comments.ApplyAt: the source changes the shared comment object in place. The model rebuilds the forest with the same change, so aliasing of comment objects is not modelled.
- `logout` answers a constant message and changes nothing, so it has no model.
- `server/index.ts` mounts only the blog and comment handlers. Auth and admin are modelled as handlers anyway, on a `UserRegistry` passed in.
- Admin.DeleteUser: as in the source, the deleted user's password stays in `mockPasswords`.
- Password hashing and token signing do not exist in the source, and are not modelled.

## Findings

| source | as written | input that shows it | evidently intended | confidence | as-written member | corrected member |
|---|---|---|---|---|---|---|
| server/routes/admin.ts:92-97 | `const { mockBlogs } = await import("./blogs")`, but `server/routes/blogs.ts` does not export `mockBlogs`, so it is undefined and `mockBlogs.length` throws; the `catch` answers 500 | GET /api/admin/stats with a valid admin token, e.g. "Bearer token_1_0" for the seed admin | the statistics over the blog posts | not executed | Admin.GetAdminStatsImporting, Admin.AdminStatsAsWrittenFails | Admin.GetAdminStats |
