# Chat sidebar search and identity-provider webhook, in Dafny

This project models the two pieces of logic in the messaging web application that can be stated precisely:

- **The chat sidebar's conversation list** (`src/app/chat/_components/sidebar.tsx`).
  - The search filter keeps a conversation when the query is a case-insensitive substring of its name or its last message.
  - The comparator sort puts name matches first. ECMAScript's sort is stable, so each group keeps the order of the input.
  - `HighlightText` splits a text around the matches of the query and marks the pieces equal to the query case-insensitively.
  - A row is drawn active when the third `/`-separated piece of the path is the chat id.
- **The `POST /clerk-webhook` handler** (`src/convex/http.ts`).
  - It throws when the signing secret is missing.
  - It answers 400 when a svix header is missing or empty, and 400 again when the signature does not verify.
  - For a `user.created` event it asks the database to create the user, answering 200 or 500 by the outcome. Any other verified event gets 200.
  - It derives the new user's record: the first e-mail address, the trimmed `first last` display name, the id, the clock and the image URL.

Modules:

- `Wrappers`: the `Option` type.
- `Strings`: the JavaScript string operations the core uses.
  - `toLowerCase` is a per-character case fold passed in as a parameter.
  - Also `includes`, `split` on one character with its inverse `join`, and `trim` with ECMAScript's whitespace set.
- `Arrays`: `Array.prototype.filter`, and `Array.prototype.sort` with a comparator.
  - The sort is written as a stable insertion sort.
  - `Sidebar.StableNameFirstIsUnique` shows that every stable ordering by the source's comparator gives the same list. The choice of stable algorithm therefore does not matter.
- `Sidebar`: the search, the highlighting and the active-row test. All are pure functions with lemmas.
- `Http`: the handler.
  - `Handle` is a total decision function returning the outcome and the list of outside calls made, in order.
  - `ActionCtx.ClerkWebhook` is the handler as a method. It appends each outside call to the context's `log` as it makes it, and is proved to agree with `Handle`.
  - Signature verification, the `createUser` mutation and the clock are parameters.

Besides the 400, 500 and 200 responses, the handler throws an error, before any header is read, when `CLERK_WEBHOOK_SECRET` is unset or empty (`src/convex/http.ts:10-13`). The model gives that case its own outcome, `MissingSecret`.

## Model

| member | source | states |
|---|---|---|
| Sidebar.NameMatch | src/app/chat/_components/sidebar.tsx:37 | The name test of the filter and of the comparator (lines 37 and 43-44) holds exactly when the lower-cased query occurs in the lower-cased name. |
| Sidebar.MessageMatch | src/app/chat/_components/sidebar.tsx:38 | The last-message test holds exactly when the lower-cased query occurs in the lower-cased last message. |
| Sidebar.Matches | src/app/chat/_components/sidebar.tsx:36-41 | The filter callback keeps a conversation exactly when the lower-cased query occurs in its lower-cased name or lower-cased last message. |
| Sidebar.Compare | src/app/chat/_components/sidebar.tsx:42-50 | The comparator is 0 exactly when both or neither name matches. It is negative exactly when only the first name matches, and positive exactly when only the second does. |
| Sidebar.Search | src/app/chat/_components/sidebar.tsx:35-50 | `filter` then `sort`: its result is a permutation of the matching conversations. Its exact order is given by `Sidebar.SearchIsPartition`. |
| Sidebar.FilteredConversations | src/app/chat/_components/sidebar.tsx:32-51 | With an empty query the list is returned unchanged. With a query, a list is returned exactly when the conversations are loaded. It is the name matches followed by the last-message-only matches, each group in input order. |
| Sidebar.SearchIsPartition | src/app/chat/_components/sidebar.tsx:35-50 | `filter` then `sort` with the name-first comparator equals the name matches in input order, followed by the last-message-only matches in input order. |
| Sidebar.CompareIsNameFirst | src/app/chat/_components/sidebar.tsx:42-50 | A bridge lemma: it restates `Sidebar.Compare` in the key-first form that `Arrays.SortByKeyFirst` takes, with name matches as the key. It serves the proof of `Sidebar.SearchIsPartition`. |
| Sidebar.SearchOnlyMatches | src/app/chat/_components/sidebar.tsx:36-41 | Every returned conversation has the lower-cased query occurring in its lower-cased name or lower-cased last message. |
| Sidebar.SearchKeepsMatches | src/app/chat/_components/sidebar.tsx:35-50 | The result holds each matching conversation exactly as often as the input does, and no other. It is never longer than the input. |
| Sidebar.SearchOrder | src/app/chat/_components/sidebar.tsx:42-50 | No name match follows a non-name match. Within the name-match group and within the message-only group, the input order is kept. |
| Sidebar.StableNameFirstIsUnique | src/app/chat/_components/sidebar.tsx:42-50 | Any list with the name matches first, each group kept in input order, is exactly the search result. |
| Arrays.Filter | src/app/chat/_components/sidebar.tsx:36-41 | The filtered list is no longer than the input, and every element satisfies the callback. |
| Arrays.FilterCounts | src/app/chat/_components/sidebar.tsx:36-41 | The filter keeps every element satisfying the callback with its full multiplicity and drops every other. |
| Arrays.SortBy | src/app/chat/_components/sidebar.tsx:42-50 | The sort is a permutation of its input. |
| Arrays.SortByKeyFirst | src/app/chat/_components/sidebar.tsx:42-50 | Sorting stably with a key-first comparator yields the keyed elements, then the others, each in input order. |
| Strings.Lower | src/app/chat/_components/sidebar.tsx:37-38 | `toLowerCase` through the case fold keeps the length. `Strings.FoldEqIsLowerEq` relates it to character-wise folding. |
| Strings.Includes | src/app/chat/_components/sidebar.tsx:37-38 | `includes`: every string includes the empty string, and a string includes only strings no longer than itself. `Strings.IncludesIsOccurs` gives its full meaning. |
| Strings.IncludesIsOccurs | src/app/chat/_components/sidebar.tsx:37-38 | `s.includes(t)` holds exactly when `t` occurs as a contiguous slice of `s`. |
| Strings.FoldEqIsLowerEq | src/app/chat/_components/sidebar.tsx:147-152 | Two texts agree character by character under the case fold exactly when their lower-cased forms are equal. This links the regular expression's case-insensitive match to the `toLowerCase` comparison. |
| Sidebar.FirstMatch | src/app/chat/_components/sidebar.tsx:147 | The returned index is a case-insensitive match of the query at or after the start, with no match between. When there is none, no match exists at or after the start. |
| Sidebar.SplitAround | src/app/chat/_components/sidebar.tsx:147 | `text.split(/(query)/gi)` for a literal query: the split always has at least one part. The properties of its parts are given by `Sidebar.SplitAroundConcat`, `Sidebar.SplitAroundOdd` and `Sidebar.SplitAroundParts`. |
| Sidebar.SplitAroundConcat | src/app/chat/_components/sidebar.tsx:147 | The split parts, concatenated, give back the text. |
| Sidebar.SplitAroundOdd | src/app/chat/_components/sidebar.tsx:147 | The split with a capture group has an odd number of parts: one more text part than matches. |
| Sidebar.SplitAroundParts | src/app/chat/_components/sidebar.tsx:147 | The parts at odd positions equal the query case-insensitively. The parts at even positions contain no occurrence of it. |
| Sidebar.SplitAroundLeftmost | src/app/chat/_components/sidebar.tsx:147 | The split follows the regular-expression scan (the `Sidebar.LeftmostSplit` shape). Each match is the leftmost one at or after the end of the previous match, so matches never overlap. Each text part runs from there up to that match, and the last text part holds no match at all. |
| Sidebar.LeftmostSplitUnique | src/app/chat/_components/sidebar.tsx:147 | Any list of parts with the leftmost, non-overlapping shape is exactly the split, so that shape pins down the split. |
| Sidebar.Highlight | src/app/chat/_components/sidebar.tsx:144-162 | `HighlightText` gives at least one piece. With an empty query it is the whole text as one plain piece. Every highlighted piece equals the query case-insensitively. |
| Sidebar.HighlightRoundTrip | src/app/chat/_components/sidebar.tsx:144-162 | Concatenating the rendered pieces reproduces the text. An empty query renders the text as one plain piece. |
| Sidebar.HighlightLeftmost | src/app/chat/_components/sidebar.tsx:144-162 | For a non-empty query, the texts of the rendered pieces are the leftmost, non-overlapping split of the text around the query. They are the only parts with that shape. |
| Sidebar.HighlightMarksMatches | src/app/chat/_components/sidebar.tsx:147-158 | A piece is highlighted exactly when it equals the query case-insensitively, which is exactly at odd positions. Unhighlighted pieces contain no occurrence of the query. |
| Strings.Split | src/app/chat/_components/sidebar.tsx:106 | `split("/")` gives at least one piece, and no piece contains the separator. |
| Strings.JoinSplit | src/app/chat/_components/sidebar.tsx:106 | Joining the pieces of `split` with the separator gives back the string. |
| Strings.SplitJoin | src/app/chat/_components/sidebar.tsx:106 | Splitting the join of separator-free pieces gives back the pieces. |
| Sidebar.IsActive | src/app/chat/_components/sidebar.tsx:106 | The active-row test `pathname.split("/")[2] === chat.id`. An id containing `/` is never active. `Sidebar.ActiveIffSegment` characterises the test exactly. |
| Sidebar.LayoutIsActive | src/app/chat/_components/sidebar.tsx:106 | A path of the form `a/b/id`, optionally followed by `/...`, marks the row of `id` active. |
| Sidebar.ActiveHasLayout | src/app/chat/_components/sidebar.tsx:106 | An active row's path has that form. |
| Sidebar.ActiveIffSegment | src/app/chat/_components/sidebar.tsx:106 | A row is active exactly when the path's segment between the second and third `/` (or the end) is the chat id. |
| Sidebar.ActiveOnChatPage | src/app/chat/_components/sidebar.tsx:104-106 | On `/chat/<id>`, the row linking there is the one and only active row. |
| Http.PrimaryEmail | src/convex/http.ts:47 | The e-mail is absent exactly when the list of addresses is empty; otherwise it is the first entry's address. |
| Strings.Trim | src/convex/http.ts:48 | The trimmed string has no leading or trailing whitespace. It is the input with only whitespace removed at both ends. |
| Strings.TrimUnique | src/convex/http.ts:48 | Any whitespace-free-edged string that the input pads with whitespace on both sides is the trimmed string. |
| Http.DisplayName | src/convex/http.ts:48 | The display name has no leading or trailing whitespace. |
| Http.NewUserOf | src/convex/http.ts:46-58 | The `createUser` record takes the event's id and image URL and the clock's time. Its e-mail is absent exactly when the event lists no address, and its name has no edge whitespace. |
| Http.DisplayNameEmpty | src/convex/http.ts:48 | With both names missing or empty the display name is "". |
| Http.DisplayNameJoins | src/convex/http.ts:48 | Two non-empty trimmed names are joined by exactly one space. |
| Http.DisplayNameFirstOnly | src/convex/http.ts:48 | With only a (trimmed) first name, the display name is that name, with no trailing space. |
| Http.DisplayNameLastOnly | src/convex/http.ts:48 | With only a (trimmed) last name, the display name is that name, with no leading space. |
| Http.Handle | src/convex/http.ts:9-65 | The handler as a decision function. It throws exactly when the secret is missing, and then makes no outside call. Otherwise its first three calls read the three svix headers. `Http.StatusMatrix` and the per-case lemmas give the rest. |
| Http.MissingSecretThrows | src/convex/http.ts:10-13 | Without a secret, whether unset or empty, the handler throws "Missing CLERK_WEBHOOK_SECRET environment variable". It has made no outside call and read no header. |
| Http.MissingHeaderRejected | src/convex/http.ts:15-23 | A missing or empty svix header answers 400 "Error occurred -- no svix headers" after the three header reads, with no verification and no `createUser`. |
| Http.BadSignatureRejected | src/convex/http.ts:25-41 | A signature that fails verification answers 400 "Error occurred" after exactly one verification, with no `createUser`. |
| Http.OtherEventIgnored | src/convex/http.ts:43-64 | A verified event other than `user.created` answers 200 "Webhook processed successfully" after one verification, with no `createUser`. |
| Http.UserCreatedProvisions | src/convex/http.ts:45-64 | A verified `user.created` event issues exactly one `createUser`, as the last call, with the record derived from the event and the clock. It answers 200 when the mutation succeeds, and 500 "Error creating user" when it fails. |
| Http.StatusMatrix | src/convex/http.ts:9-65 | For every input, the handler throws exactly when the secret is missing. It answers 400 exactly when the secret is present and a svix header is missing or the signature fails. It answers 500 exactly when a verified `user.created` event's `createUser` fails. It verifies exactly when the secret and all three headers are present. It creates at most one user, and a 500 always follows a `createUser` call. |
| Http.ActionCtx.ClerkWebhook | src/convex/http.ts:9-65 | The method returns the decision function's outcome. It appends to the context's log exactly the decision function's outside calls, in order. |

## Left out

- Regular-expression metacharacters: the query is placed into `new RegExp` unescaped, so a query holding `(`, `.`, `*` and the like changes or breaks the split. The model treats the query as a literal string, for which the regular expression matches exactly its case-insensitive occurrences.
- Case mapping: `toLowerCase` and the regular expression's case-insensitive flag are one abstract per-character fold `fold: char -> char`. Unicode's multi-character mappings and the regular expression's own canonicalisation are not modelled.
- Sidebar.HighlightMarksMatches: its "highlighted exactly at odd positions" clause rests on that single fold. In JavaScript the two case mappings differ. For the text "\u212A" (the Kelvin sign) and the query "k", the case-insensitive regular expression does not match, so the split has one part. That part is still highlighted, because "\u212A".toLowerCase() is "k". The model does not capture such pieces, which are highlighted at an even position.
- The regular expression's `g` flag has no effect on `split` and is not modelled.
- JSX rendering, styling, React hooks (`useState`, `useMemo`), routing, links and the log-out menu are left out. The search query and the pathname are parameters.
- Conversation fields that are only displayed (image, time, message type) are left out; the model keeps the id, name and last message.
- The other components and pages (search dialog, profile editor, chat header, message list, layout wrapper, static pages) are not part of this model.
- Signature verification (`wh.verify` with the svix HMAC scheme) is a parameter returning the verified event or nothing. Nothing stands for verification throwing.
- `request.json()` and `JSON.stringify`: the re-serialised body is taken as given.
- Http.StatusMatrix: "throws exactly when the secret is missing" holds only within the model. `request.json()` (line 25) and `new Webhook(webhookSecret)` (line 33) sit outside the `try` at lines 36-41. A body that fails to parse, or a secret the svix library rejects, throws out of the handler rather than answering 400. The model has no outcome for these throws.
- `Date.now()` is the parameter `now`. `ctx.runMutation` is the parameter `createUser`, returning whether the mutation succeeded.
- Header lookup: the request holds the values `request.headers.get` returns for the three svix names. Case-insensitive lookup of header names is not modelled.
- For events other than `user.created` the payload's `data` is not read. The model gives every event the user-data shape.
- Console logging of verification and mutation errors is not modelled.
- The registration of the route (`http.route`) is not modelled.
