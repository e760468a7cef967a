# VIP registry: a Dafny model of its search, list and access logic

The VIP registry is a small single-page application. It holds a list of VIP
records: name, position, state, contact data, and whether a promotional book
was handed over. It has three faces:

- a public chat assistant that looks a name up in the list;
- a regular-admin portal that can only add records;
- a super-admin dashboard that can search every field, add records and edit them.

This project models the logic behind those faces and proves what it does.

- **Text** (`text.dfy`): the JavaScript string built-ins the logic uses. These are
  `toLowerCase`, `trim`, `split(/\s+/)`, `join(' ')`, `includes`
  and `String(n)`. All of them are restricted to ASCII. `SplitOnSpace`
  (splitting on single spaces) is not one of them: the source never calls it,
  and the model only uses it to state facts about space-separated tokens.
- **Constants** (`constants.dfy`): the `Vip` record and its `Received` flag,
  the draft a form submits, the two PINs and the six seed records.
- **Normalizer** (`normalizer.dfy`): `normalizeString`. It lower-cases and
  trims the input, deletes `.` and `,`, splits on whitespace runs, drops the
  honorifics `mr ms mrs shri dr` and joins with single spaces.
- **EditDistance** (`edit_distance.dfy`): `levenshteinDistance`.
  - `TableDistance` is the source's nested loop over one rolling `costs` array.
  - It is proved equal to a recursive definition `D`.
  - `D` is proved equal to the textbook Wagner-Fischer recurrence.
  - The usual metric facts are proved about it.
- **Matcher** (`matcher.dfy`): `fuzzyMatchScore` and the ranking pipeline.
  - The pipeline scores every record, keeps the scores above 0.4, sorts them
    stably in descending order and takes the head.
  - The bot's reply text is modelled too.
- **Chat** (`chat.dfy`): the chat interface's conversation state, the search
  step that answers a message, and the input box's send guard.
- **App** (`app.dfy`): the application root. It holds the record list, the
  access level `none | admin | super-admin` and the login dialog flag. The
  add, update, login and logout handlers change them, and the choice of view
  depends on them.
- **Sidebar** (`sidebar.dfy`): the super-admin dashboard and the regular-admin
  portal. This covers the all-fields search filter, the edit, add and save
  handlers and the dialog state.

Values (records, messages, views) are datatypes. The React state holders are
classes whose methods update their fields. The pure list and string
computations are functions with lemmas about them.

Non-deterministic inputs become parameters:
- `Date.now()` becomes `now: nat`;
- `new Date().toISOString()` becomes `timestamp: string`;
- the 1200 ms timer of the chat becomes a second method,
  `SearchTimerFired`, which the environment calls later.

`normalizeString` is not idempotent. `"a ."` trims to `"a ."` and loses its `.`
to give `"a "`. That splits to `["a", ""]` and joins back to `"a "`, which
normalizes to `"a"`. `Normalizer.NormalizeNotIdempotent` proves this, and no
idempotence property is stated.

## Model

| member | source | states |
|---|---|---|
| Text.Lower | components/Section.tsx:107 | lower-casing keeps the length, maps every character by the ASCII lower-case map and leaves no upper-case letter |
| Text.Trim | components/Section.tsx:107 | the result is a slice of the input with only whitespace before and after it, and it neither starts nor ends with whitespace (so trimming only removes characters) |
| Text.TrimEmptyIff | components/Section.tsx:69 | the trimmed string is empty exactly when every character of the input is whitespace |
| Text.Split | components/Section.tsx:108 | splitting on whitespace runs gives at least one piece; no piece holds whitespace or a character not in the input; pieces strictly inside the list are non-empty; the first piece is non-empty when the input starts with a non-space |
| Text.Collapse | components/Section.tsx:108 | collapsing whitespace runs to single spaces never lengthens the string and keeps only spaces and the input's non-whitespace characters |
| Text.JoinSplit | components/Section.tsx:108-110 | joining the pieces of the whitespace split with single spaces gives the input with every whitespace run collapsed to one space |
| Text.SplitIsCollapsedSplitOnSpace | components/Section.tsx:108 | the whitespace split equals splitting the collapsed input on single spaces, so its pieces are the non-whitespace runs in order, with an empty piece for a leading or trailing run |
| Text.Join | components/Section.tsx:110 | no words join to the empty string, a single word joins to itself, and a join starts with its first word |
| Text.SplitOnSpaceJoin | components/Section.tsx:110 | joining space-free pieces with single spaces and splitting on `' '` gives the pieces back |
| Text.Contains | components/Sidebar.tsx:23 | a string can only contain a string no longer than itself |
| Text.ContainsEmpty | components/Sidebar.tsx:23 | every string contains the empty string |
| Text.ContainsMiddle | components/Section.tsx:175 | a string contains every piece it is concatenated from |
| Text.Filter | components/Sidebar.tsx:21-25 | the filter keeps the accepted elements in order, each exactly as often as in the input, and drops every rejected one |
| Text.NatToString | App.tsx:17 | the printed form of a natural number is a non-empty digit string that starts with `0` only for the number 0, which prints as `0` |
| Text.NatToStringRoundTrip | App.tsx:17 | reading back the decimal digits printed for a number gives the number |
| Text.NatToStringInjective | App.tsx:17 | different numbers print as different digit strings |
| Text.IntToString | components/Sidebar.tsx:23 | the printed form of an integer is non-empty and starts with a minus sign exactly for negative numbers |
| Text.IntToStringInjective | components/Sidebar.tsx:23 | different integers print differently |
| Constants.ReceivedText | constants.tsx:9 | the `Received` field is the string `Yes` or `No`, and `Yes` exactly for the `Yes` value |
| Constants.WithIdentity | App.tsx:15-19 | the new record carries the given uid and creation time and otherwise equals the draft |
| Constants.IdentityRoundTrip | App.tsx:14-19 | splitting a record into draft and identity and joining them gives the record back |
| Constants.FieldStrings | components/Sidebar.tsx:22-23 | a record has fifteen field strings, among them its uid, its full name and its notes |
| Constants.PinsDistinct | constants.tsx:19-20 | the admin and super-admin PINs differ |
| Constants.SeedUidsDistinct | constants.tsx:22-124 | the seed records have pairwise distinct uids |
| Constants.SeedNoDateUnlessReceived | constants.tsx:22-124 | every seed record that did not receive the book has an empty receipt date |
| Constants.SeedRatingsInRange | constants.tsx:22-124 | every seed rating lies in 0..5 |
| Normalizer.StripPunctuation | components/Section.tsx:107 | every `.` and `,` is deleted and every other character survives as often as it occurred, in its original order |
| Normalizer.DropHonorifics | components/Section.tsx:109 | every honorific is dropped and every other word survives as often as it occurred, in its original order |
| Normalizer.Normalize | components/Section.tsx:104-111 | the empty string, and a string whose every word is an honorific, normalize to the empty string; the output has no `.`, `,` or upper-case letter, no space-separated piece that is an honorific, and no two adjacent spaces |
| Normalizer.NormalizePieces | components/Section.tsx:108-110 | when some word survives, the output's space-separated pieces are exactly the surviving words, an order-preserving selection of the input's words |
| Normalizer.NormalizeNotIdempotent | components/Section.tsx:107-110 | `"a ."` normalizes to `"a "`, whose normalization is `"a"`, so normalizing twice can differ from normalizing once |
| EditDistance.Cell | components/Section.tsx:122-126 | one loop step computes the table cell from its diagonal, upper and left neighbours |
| EditDistance.TableDistance | components/Section.tsx:116-131 | the rolling-array loop returns the recursive edit distance of its two strings |
| EditDistance.LevenshteinDistance | components/Section.tsx:113-132 | `levenshteinDistance` returns the edit distance of the two lower-cased strings |
| EditDistance.AgreeStep | components/Section.tsx:121-126 | a cell agrees with the textbook recurrence when its three neighbours do |
| EditDistance.MatchingCell | components/Section.tsx:123-124 | on equal characters the diagonal is never worse than the other two moves, so taking it unchanged is the three-way minimum |
| EditDistance.AgreesWithClassic | components/Section.tsx:113-132 | the loop's recurrence equals the textbook three-way-minimum edit distance recurrence |
| EditDistance.DistanceToSelf | components/Section.tsx:113-132 | a string is at distance zero from itself |
| EditDistance.DistanceSymmetric | components/Section.tsx:113-132 | the distance is symmetric |
| EditDistance.DistanceLowerBound | components/Section.tsx:113-132 | the distance is at least the difference of the lengths |
| EditDistance.DistanceUpperBound | components/Section.tsx:113-132 | the distance is at most the larger length |
| EditDistance.DistanceZeroIff | components/Section.tsx:113-132 | the distance is zero exactly when the two prefixes are equal |
| EditDistance.Adjacent | components/Section.tsx:113-132 | neighbouring table cells differ by at most one |
| EditDistance.Levenshtein | components/Section.tsx:113-132 | on the original strings: the length difference is a lower bound, the larger length an upper bound, and the distance is 0 exactly when the strings agree up to case |
| EditDistance.LevenshteinSymmetric | components/Section.tsx:113-132 | the distance does not depend on the order of the strings |
| Matcher.Score | components/Section.tsx:134-139 | the score lies in [0,1] and is 1 exactly when the strings agree up to case (so also for two empty strings) |
| Matcher.Ratio | components/Section.tsx:138 | the share of a positive length lies in [0,1] and is 1 only for the whole length |
| Matcher.ScoreSymmetric | components/Section.tsx:134-138 | the score does not depend on argument order, ties in length included |
| Matcher.ScoreAll | components/Section.tsx:165 | every record is paired with the score of its normalized name against the query, position by position |
| Matcher.AboveThreshold | components/Section.tsx:166 | exactly the entries scoring above 0.4 survive, in input order |
| Matcher.Insert | components/Section.tsx:167 | inserting adds exactly the one entry to the list |
| Matcher.InsertSorted | components/Section.tsx:167 | inserting into a descending list keeps it descending |
| Matcher.InsertStable | components/Section.tsx:167 | the inserted entry goes before every entry of equal score |
| Matcher.SortDesc | components/Section.tsx:167 | the sort output is in non-increasing score order, is a permutation of the input, and keeps input order among equal scores |
| Matcher.Ranked | components/Section.tsx:164-167 | the ranking holds exactly the records scoring above 0.4, best first, with equal scores in registry order |
| Matcher.BestMatch | components/Section.tsx:164-172 | there is no best match exactly when no record scores above 0.4; otherwise it is the record at the first index with the highest score, which is above 0.4 |
| Matcher.FirstWithScore | components/Section.tsx:167 | for any list `rs`, when some entry scores `x`, the first entry of `WithScore(rs, x)` is `rs[k]` for the first index `k` scoring `x` |
| Matcher.RankedEmptyIffAllLow | components/Section.tsx:164-171 | the ranking is empty exactly when no record scores above 0.4 |
| Matcher.TopIsMaximal | components/Section.tsx:167-172 | the head of the ranking scores at least as much as every record |
| Matcher.RankedHeadIsFirstBest | components/Section.tsx:164-172 | the head of a non-empty ranking is the record at the first index with the highest score, and that score is above 0.4 |
| Matcher.ExactNameFound | components/Section.tsx:163-172 | a record whose normalized name equals the query up to case is found, and the match then scores 1 |
| Matcher.NoRecordsNoMatch | components/Section.tsx:164-171 | an empty registry yields no match |
| Matcher.Reply | components/Section.tsx:169-178 | the reply is the not-found text exactly when there is no match; otherwise it opens with "Yes, we've connected with" or "Based on our records, we haven't yet provided any documents to", as the match received the book or not, followed by the match's full name |
| Matcher.ReceivedReplyOpening | components/Section.tsx:175 | the answer for a handed-over book starts by naming the person |
| Matcher.ReceivedReplyBook | components/Section.tsx:175 | for a record that received the book, the reply holds the quoted title and the receipt date |
| Matcher.ReceivedReplyNotes | components/Section.tsx:174-175 | for a record that received the book, the reply ends with the notes clause exactly when the notes are non-empty |
| Matcher.PendingReplyContent | components/Section.tsx:177 | the answer for a book not yet handed over is the not-yet-provided text naming the person and ending with their position and state |
| Chat.SearchReply | components/Section.tsx:162-181 | the bot answers with the not-found text exactly when no record scores above 0.4 against the normalized input, and otherwise with the answer about the record at the first index with the highest score |
| Chat.ChatInterface.constructor | components/Section.tsx:146-149 | the conversation opens with the greeting alone and no search in progress |
| Chat.ChatInterface.HandleSendMessage | components/Section.tsx:158-160 | the user's message is appended and a search is in progress with that message last; the greeting stays first |
| Chat.ChatInterface.SearchTimerFired | components/Section.tsx:162-183 | while the user's question is being processed, the reply about its best match is appended and the search ends; the greeting stays first |
| Chat.CanSend | components/Section.tsx:69 | sending is allowed exactly when no search is in progress and the input holds a non-whitespace character |
| Chat.ChatInput.constructor | components/Section.tsx:65 | the input box starts empty |
| Chat.ChatInput.SetInput | components/Section.tsx:82 | typing replaces the input value |
| Chat.ChatInput.HandleSubmit | components/Section.tsx:67-73 | when sending is allowed, the trimmed input is appended as a user message, a search starts and the box is cleared; otherwise nothing changes |
| App.NewUid | App.tsx:17 | a new uid is `uid_` followed by the canonical decimal form of the clock reading (no leading zero unless the reading is 0), whose digits read back to that reading |
| App.NewUidInjective | App.tsx:17 | two clock readings give the same uid exactly when they are equal |
| App.AddedVips | App.tsx:14-20 | adding puts the new record, with the supplied uid and creation time and the draft's fields, in front of the unchanged old list |
| App.AddKeepsUidsDistinct | App.tsx:14-20 | adding a record with a fresh uid keeps all uids distinct |
| App.UpdatedVips | App.tsx:23-27 | updating keeps the length and positions, replaces every record with the updated uid, and leaves every other record unchanged |
| App.UpdateWithoutMatch | App.tsx:24-26 | when no uid matches, the list is unchanged |
| App.UpdateKeepsUids | App.tsx:24-26 | every position keeps its uid, so distinct uids stay distinct |
| App.UpdateChangesAtMostOne | App.tsx:24-26 | with distinct uids, at most one position changes |
| App.UpdateIdempotent | App.tsx:23-27 | applying the same update twice equals applying it once |
| App.RenderView | App.tsx:45-69 | only the super-admin may update; both admin levels may add; the admin never sees the list; every other level sees the whole list |
| App.AppState.constructor | App.tsx:10-12 | the application starts with the seed list, no access and the login dialog closed |
| App.AppState.HandleAddVip | App.tsx:14-21 | the list becomes the added list for the clock reading's uid and timestamp; nothing else changes |
| App.AppState.HandleUpdateVip | App.tsx:23-27 | the list becomes the updated list; nothing else changes |
| App.AppState.HandleLoginAttempt | App.tsx:29-39 | the super-admin PIN, checked first, grants super-admin and closes the dialog; else the admin PIN grants admin and closes it; any other PIN changes nothing |
| App.AppState.HandleLogout | App.tsx:41-43 | logout drops to no access and leaves the list and the dialog flag alone |
| App.AppState.OpenLoginModal | App.tsx:66 | the public view's login button opens the dialog and changes nothing else |
| App.AppState.CloseLoginModal | App.tsx:76 | closing the dialog changes nothing else |
| App.AppState.CurrentView | App.tsx:45-73 | the rendered view lets only a super-admin update and both admin levels add, and shows the whole current list to everyone but the regular admin |
| Sidebar.SomeContainsIff | components/Sidebar.tsx:22-24 | `some` holds exactly when one of the field strings, lower-cased, contains the term |
| Sidebar.KeepMatching | components/Sidebar.tsx:21-25 | the filter keeps every record with a field containing the term as often as it occurs, in registry order, and drops every other record |
| Sidebar.FilterVips | components/Sidebar.tsx:19-26 | the shown records are an order-preserving selection of the list; a record is shown, as often as it occurs, exactly when some field's lower-cased string contains the lower-cased term |
| Sidebar.SuperAdminView.Shown | components/Sidebar.tsx:19-26 | the table shows, in registry order and as often as they occur, exactly the records of the current list with a field containing the current search term up to case |
| Sidebar.KeepAllOnEmpty | components/Sidebar.tsx:21-25 | every record matches the empty term |
| Sidebar.EmptyTermKeepsAll | components/Sidebar.tsx:19-26 | an empty search term shows every record |
| Sidebar.FilterCaseInsensitive | components/Sidebar.tsx:20 | a term and its lower-cased form show the same records |
| Sidebar.SuperAdminView.constructor | components/Sidebar.tsx:15-17 | the dashboard starts with an empty search, the dialog closed and no record being edited |
| Sidebar.SuperAdminView.SetSearchTerm | components/Sidebar.tsx:67 | typing replaces the search term and leaves the dialog alone |
| Sidebar.SuperAdminView.HandleEdit | components/Sidebar.tsx:28-31 | editing opens the dialog on the given record |
| Sidebar.SuperAdminView.HandleAddNew | components/Sidebar.tsx:33-36 | adding opens the dialog on no record |
| Sidebar.SuperAdminView.HandleModalSave | components/Sidebar.tsx:38-45 | a whole record updates the list, a draft is added to it, the dialog closes either way, and the access level and login dialog are untouched |
| Sidebar.RegularAdminView.constructor | components/Sidebar.tsx:94 | the portal starts with its dialog closed |
| Sidebar.RegularAdminView.OpenModal | components/Sidebar.tsx:116 | the add button opens the dialog |
| Sidebar.RegularAdminView.HandleModalSave | components/Sidebar.tsx:96-100 | the draft is always added and the dialog closes |

## Left out

- Rendering is not modelled. This covers JSX, styling, scrolling to the newest message, the "Thinking..." bubble and both `alert` calls ("Incorrect PIN", "VIP successfully added!").
- components/Table.tsx (the table and the add/edit form) is not part of this model. Neither is components/CodeBlock.tsx (the PIN dialog). The form's keeping of `UID` and `Created_At` on edit is taken as given: an edited record reaches `HandleModalSave` as `Existing`.
- The 1200 ms delay is not modelled. The search runs when the environment calls `SearchTimerFired`. Interleavings of several pending timers are not modelled.
- `Date.now()` and `new Date().toISOString()` are parameters. Nothing is assumed about their values.
- Text.Lower: only ASCII letters are lower-cased. Whitespace is space, tab, LF, VT, FF and CR. Unicode case mapping and Unicode whitespace are not modelled.
- Matcher.Score: the score is an exact rational, not an IEEE double. Rounding near the 0.4 threshold and in the sort comparator `b.score - a.score` is not modelled.
- Matcher.SortDesc: it relies on the stability of `Array.prototype.sort`, which holds since ES2019.
- EditDistance.TableDistance: `costs` is allocated with `|s2| + 1` cells up front. The source grows an empty array during the first row and writes the same values.
- Constants.FieldStrings: `String(value)` of the rating is modelled as the decimal form of an integer. Fractional and NaN ratings are not modelled. The fields are listed in declaration order, which `some` does not depend on.
- Normalizer.Normalize: `if (!str)` also catches `null` and `undefined`. The model only takes strings.
- Text.Split: JavaScript strings are UTF-16. The model's characters are Dafny `char`s, and lengths count those.
