# Echo Messenger chat client — Dafny model

A model of the state transitions in three React components of the Echo Messenger
client, lifted out as pure functions over immutable records and sequences:

- **ChatArea** (`chat_area.dfy`): selecting the displayed conversation by id, the
  send-button enablement, and the send handler that appends the typed text as a
  sent message to the selected conversation and clears the input.
- **ConversationList** (`conversation_list.dfy`): the case-insensitive name search
  over the conversation list, and the per-row unread badge and selection highlight.
- **FriendManager** (`friend_manager.dfy`): reading the current user's friends from
  the directed `friends` edge table and the `users` table, and removing a friend by
  deleting both edge directions and dropping the entry from the local list.

Shared pieces: `wrappers.dfy` (`Option` for `null`, `Result` for a thrown error),
`seqs.dfy` (`Array.prototype.filter`/`map` and what they guarantee: the kept
elements are exactly those at the satisfying positions, in order),
`text.dfy` (`trim` with the ECMAScript white-space set, ASCII `toLowerCase` /
`toUpperCase`, `includes`).

Inputs the code takes from the environment are parameters: the message id
(`Date.now()`) and the formatted time of a sent message, the contents of the
`friends` and `users` tables, and whether each backend call reports an error.

Sending does not check for duplicate message ids and unread counts are fixed fields.

## Model

| member | source | states |
|---|---|---|
| ChatArea.Lookup | src/components/ChatArea.tsx:102-108 | A null, empty or unknown conversation id yields no conversation; a known non-empty id yields exactly the stored entry |
| ChatArea.CanSend | src/components/ChatArea.tsx:221 | The send button is enabled exactly when the input contains a character that is not white space |
| ChatArea.Send | src/components/ChatArea.tsx:114-133 | A blank input or no selected id leaves store, input and display unchanged; an unknown id raises without changes; otherwise only the selected entry is replaced, its id, name, avatar, online and last-seen fields are copied, the old messages are an unchanged prefix, exactly one message is added last with `sent = true` and the raw untrimmed input as text, the updated conversation is displayed and the input is cleared |
| ChatArea.SendThenLookup | src/components/ChatArea.tsx:124-131 | With a non-blank input and a known, non-empty selected id the send succeeds; looking up that id afterwards finds the conversation now displayed, and every other id finds what it found before |
| ChatArea.SendTwiceSendsOnce | src/components/ChatArea.tsx:115-132 | Triggering send again right after a send that did not raise is a no-op: the first call either changed nothing or cleared the input |
| Text.Trim | src/components/ChatArea.tsx:115 | The trimmed input is empty exactly when every character is white space; otherwise it neither starts nor ends with white space |
| Text.ContainsIffOccurs | src/components/ConversationList.tsx:78 | The substring test holds exactly when the query occurs at some position of the name |
| ConversationList.Filtered | src/components/ConversationList.tsx:77-79 | Every kept conversation is in the list and its lower-cased name contains the lower-cased query; every conversation that matches is kept |
| ConversationList.FilteredIsOrderedSelection | src/components/ConversationList.tsx:77-79 | The result is the list read at strictly increasing indices, which are exactly the matching positions: order kept, nothing added |
| ConversationList.EmptyQueryKeepsAll | src/components/ConversationList.tsx:78 | An empty query returns the whole list |
| ConversationList.FilterTwiceIsOnce | src/components/ConversationList.tsx:75-79 | Filtering the filtered list with the same query gives the same list |
| ConversationList.UpperCasedQuerySameResult | src/components/ConversationList.tsx:78 | A query and its upper-cased form select the same conversations |
| ConversationList.Rows | src/components/ConversationList.tsx:96-135 | One row per filtered conversation, carrying its id; a row is highlighted exactly when its id equals the selected id, and shows a badge with the unread count exactly when that count is positive |
| ConversationList.AtMostOneHighlighted | src/components/ConversationList.tsx:100 | With distinct ids at most one row is highlighted; none when nothing is selected or the selected conversation is filtered out |
| Seqs.FilterIsSelection | src/components/FriendManager.tsx:103 | Filtering keeps exactly the elements at the satisfying positions, in their original order |
| FriendManager.FriendIds | src/components/FriendManager.tsx:55-68 | An id is among the friend ids exactly when the table has the edge from the current user to it |
| FriendManager.FriendIdsFollowRows | src/components/FriendManager.tsx:55-68 | The friend ids are the `friend_id` column of exactly the rows whose `user_id` is the current user, one per row, in row order |
| FriendManager.UsersWithIds | src/components/FriendManager.tsx:70-73 | Every returned user is in the table with an id among the friend ids, every such user is returned, and no user is returned more often than the table holds it |
| FriendManager.FetchFriends | src/components/FriendManager.tsx:49-88 | Without a current user or on a failed edge query the list is kept; with no edge rows it becomes empty; on a failed user query it is kept; otherwise it holds exactly the users the current user has an edge to, none more often than the table holds it |
| FriendManager.DeleteEdges | src/components/FriendManager.tsx:95-98 | The rows `(me, f)` and `(f, me)` are gone and every other row is kept |
| FriendManager.WithoutFriend | src/components/FriendManager.tsx:103 | An entry is in the new local list exactly when it was in the old one and its id is not the removed id |
| FriendManager.RemoveFriend | src/components/FriendManager.tsx:90-117 | Without a current user or on a failed delete nothing changes; otherwise both edge directions are deleted, every other edge kept, and exactly the entries with the removed id leave the local list it is given |
| FriendManager.RemoveKeepsOrder | src/components/FriendManager.tsx:103 | After a removal the remaining entries are the original ones without the removed id, in their original order |
| FriendManager.RemoveAbsentKeepsList | src/components/FriendManager.tsx:103 | Removing a friend not in the list leaves the list unchanged |
| FriendManager.RemovePreservesSymmetry | src/components/FriendManager.tsx:94-98 | A symmetric edge table stays symmetric after a removal |
| FriendManager.RemoveTwiceIsOnce | src/components/FriendManager.tsx:94-103 | Removing the same friend a second time changes neither the list nor the table |
| FriendManager.RemoveThenFetch | src/components/FriendManager.tsx:95-103 | After a removal neither user lists the other as a friend, and fetching returns no user with the removed id |

## Left out

- Rendering, scrolling, avatars, dialogs, toasts, `console.error` and the loading flag: UI side effects with no state the model needs.
- The Supabase client, authentication lookup and async/await sequencing: the tables are passed in as values, the current user as an `Option`, and each call's error as a boolean.
- FriendManager.RemoveFriend: the source filters the list as captured when the remove button was rendered, after awaiting the delete; two overlapping removals can therefore lose an update (from `[A, B]`, removing A and then B before A's delete returns leaves `[A]`). The model applies each removal to the list it is given, as if the removals ran one after the other.
- Strings are sequences of Unicode scalar values, while JavaScript strings are sequences of UTF-16 code units on which `trim` and `includes` operate; they agree on well-formed text, and ill-formed UTF-16 (a lone surrogate in an input or a name) is not modelled.
- ConversationList.Conversation: `unread` is a JavaScript number; the model uses an integer, so fractional, infinite and NaN counts are not modelled (the badge test `unread > 0` agrees on every finite value).
- `Date.now()` message ids and `toLocaleTimeString` times: clock- and locale-dependent, so passed in as parameters.
- ChatArea.Lookup: JavaScript property lookup on a plain object also finds inherited names such as `toString`; the model's store is a map and finds only its own keys.
- ChatArea.Send: the shared module-level record of conversations is modelled as the `store` field of the state value; its sharing between mounted component instances is not modelled.
- Text.ToLower and Text.ToUpper fold only ASCII letters; the full Unicode case mappings of `toLowerCase`/`toUpperCase` (including length-changing ones) are not modelled, so the upper-cased-query property is proved for this folding only.
- FriendManager.UsersWithIds: returns users in table order, but the contract promises membership and a multiplicity bound, not order, since the backend promises no order for an `in` query.
- FriendManager.DeleteEdges: the filter is built by string interpolation into a query-language expression; ids containing that language's separators are not modelled, the filter is taken as the two-edge predicate.
- The `users` response being `null` without an error (`usersData || []`): the model treats a successful query as returning rows.
- `MobileLayout.tsx`, `Index.tsx`, `UserMenu.tsx`: layout, breakpoint and static markup.
- Message deduplication, timestamp ordering, unread-count maintenance, live-feed merging and friend adding: these components do not implement them.
