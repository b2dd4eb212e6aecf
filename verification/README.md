# Live-feed sidebar of the King's Square tournament page, in Dafny

This project models the logic of `tournament-logic.js`. The page keeps a list of
"live feed" bookmarks (a name and a URL) in an IndexedDB object store. It renders
one card per bookmark and embeds the URL of the card the user clicks. Before
embedding, it applies a rewrite rule for Lichess URLs.

Modules:

- `Wrappers` (`wrappers.dfy`): the `Option` type and the `Result` type (`Rejected` or `Ok`).
- `Strings` (`strings.dfy`): JavaScript `includes`, the left-to-right search behind
  it, and `replace` with a string pattern, which replaces only the first match.
  `Contains` is the executable search. `Occurs` is a declarative definition, and
  the two are proved equal.
- `UrlRule` (`url_rule.dfy`): the URL rule of `window.loadStream`. `Normalize`
  returns `Rejected` for Lichess tournament pages. It rewrites the first
  `lichess.org/` to `lichess.org/embed/` for other Lichess pages that mention
  neither `embed` nor `frame`. Every other URL is passed through unchanged.
- `FeedStore` (`feed_store.dfy`): the `liveFeeds` object store. It is a map from
  keys to `Feed(name, url)` plus the key generator's current number. `Valid` is
  the key-generator invariant: every stored key is at least 1 and below the
  current number. The model relies on these store behaviours from the W3C Indexed
  Database API:
  - generated keys start at 1 and only grow (section 2.11, "Key generators");
  - deleting an absent key is not an error;
  - a `"next"` cursor visits records in ascending key order (section 2.10, "Cursor").
- `FeedList` (`feed_list.dfy`): the page state, which is the store, the rendered
  cards (`seq<Card>`, top first) and the embedded viewer. There is one transition
  per user action:
  - `AddFeed` is the form submit;
  - `LoadHistory` is the cursor scan that prepends each record;
  - `DeleteFeed` and `PressDelete` are the delete button, with `confirm` as a boolean;
  - `SelectFeed` is a card click.

  `Run` applies a sequence of actions. Each asynchronous request together with its
  completion callback is one atomic step. `location.reload()` is modelled as
  `OpenPage`, which rebuilds the list from an empty one by `LoadHistory` and
  resets the viewer.

Three behaviours of the code are easy to misread; the model follows the code:

- A card added by the form is rendered from the pre-insert entry, so it carries
  no id. Its delete button therefore passes `undefined`. `delete(undefined)`
  throws before the reload is scheduled, so that button does nothing until the
  page is reloaded (`NewCardDeleteInert`).
- The list order is newest first. Cards are prepended during an ascending scan.
- `loadHistory` does not clear the list (`LoadHistoryKeepsOldCards`). Only the
  page reload after a delete gives a fresh list, and the reload also resets the
  viewer.

## Model

| member | source | states |
|---|---|---|
| `Strings.IndexOf` | tournament-logic.js:113 | The search finds a position exactly when the pattern occurs somewhere, and the position it returns is the first occurrence. |
| `Strings.ContainsIffOccurs` | tournament-logic.js:113 | `includes` holds exactly when some position holds the pattern, in both directions. |
| `Strings.ReplaceFirst` | tournament-logic.js:120 | `replace` with a string pattern leaves a string without the pattern unchanged. Otherwise the length changes by the replacement's length minus the pattern's length. |
| `Strings.ReplaceFirstSplit` | tournament-logic.js:120 | Only the first occurrence is replaced. The text before it and the text after it are kept. |
| `UrlRule.Normalize` | tournament-logic.js:109-121 | An accepted URL is at least as long as the input and at most 6 characters (`embed/`) longer. |
| `UrlRule.PassThrough` | tournament-logic.js:113 | A URL without `lichess.org`, or with `embed` or `frame`, is returned unchanged. |
| `UrlRule.RejectsExactlyTournamentPages` | tournament-logic.js:113-118 | A URL is refused if and only if it contains `lichess.org` and `/tournament/` but neither `embed` nor `frame`. |
| `UrlRule.RewriteSplit` | tournament-logic.js:119-120 | In the rewrite case, the output is the input up to and including its first `lichess.org/`, then `embed/`, then the rest of the input. |
| `UrlRule.RewriteWithoutHostPath` | tournament-logic.js:120 | A Lichess URL in the rewrite case that has no `lichess.org/` (for example a bare host) is returned unchanged. |
| `UrlRule.LengthChange` | tournament-logic.js:113-121 | The output is 6 characters longer when a rewrite found `lichess.org/`. Otherwise the output equals the input. |
| `UrlRule.RewrittenIsEmbedded` | tournament-logic.js:120 | A rewritten URL contains `embed`, so the guard no longer applies to it. |
| `UrlRule.Idempotent` | tournament-logic.js:113-121 | Normalising an accepted URL a second time gives the same URL. |
| `UrlRule.ExampleGameLink` | tournament-logic.js:119-120 | `https://lichess.org/abcd1234` becomes `https://lichess.org/embed/abcd1234`. |
| `UrlRule.ExampleTournament` | tournament-logic.js:115-117 | `https://lichess.org/tournament/arena123` is refused. |
| `UrlRule.ExampleEmbedLink` | tournament-logic.js:113 | `https://lichess.org/embed/abcd1234` is passed through unchanged. |
| `UrlRule.ExampleOtherHost` | tournament-logic.js:113 | `https://example.com/stream` is passed through unchanged. |
| `FeedStore.Create` | tournament-logic.js:14 | A new store with an auto-increment key is empty and satisfies the key-generator invariant. |
| `FeedStore.Insert` | tournament-logic.js:44 | `add` stores the record under a key that no record has and that exceeds every stored key. All other records are kept, and the generator's number grows. |
| `FeedStore.Delete` | tournament-logic.js:91 | `delete` removes exactly the given key, keeps every other record and the generator's number, and keeps the invariant. |
| `FeedStore.Scan` | tournament-logic.js:76-81 | The cursor visits every record exactly once, with its stored value, in strictly ascending key order. |
| `FeedStore.ScanRangeAscending` | tournament-logic.js:76-80 | Advancing the cursor through the key range yields strictly increasing keys. |
| `FeedStore.ScanRangeComplete` | tournament-logic.js:76-80 | Every record whose key lies in the scanned range is visited, with its stored value. |
| `FeedStore.ScanAfterInsert` | tournament-logic.js:44 | A scan after `add` is the previous scan with the new record appended last. |
| `FeedStore.DeleteIdempotent` | tournament-logic.js:91 | Deleting a key twice gives the same store as deleting it once. |
| `FeedStore.DeleteAbsent` | tournament-logic.js:91 | Deleting a key that is not stored leaves the store unchanged. |
| `FeedList.RenderCard` | tournament-logic.js:53-62 | Renders one card from a record: it shows the record's name, its click handler uses the record's URL, its delete button passes the record's id (absent for an entry that has none), and it starts without the `active` class. |
| `FeedList.PrependEach` | tournament-logic.js:76-81 | Prepending once per visited record keeps the previous list intact below the new cards. |
| `FeedList.PrependEachReverses` | tournament-logic.js:63 | Prepending in visiting order gives the visited records in reverse order, above the previous list. |
| `FeedList.ReversedNewestFirst` | tournament-logic.js:63 | Reversing an ascending listing of the store gives one card per record, with strictly descending keys. |
| `FeedList.LoadHistory` | tournament-logic.js:67-83 | The previous list stays below the cards the scan renders. |
| `FeedList.LoadHistoryNewestFirst` | tournament-logic.js:67-83 | Starting from an empty list, the cards are the records newest first. Each card shows its key, name and URL, and no card is active. |
| `FeedList.NewestFirstTop` | tournament-logic.js:63 | The top card of a newest-first view shows the largest stored key. |
| `FeedList.NewestFirstUnique` | tournament-logic.js:76-81 | Two newest-first views of the same store are equal, so the rendered list is determined by the store. |
| `FeedList.ViewDeterminedByStore` | tournament-logic.js:67-83 | Any list that shows a store newest first is exactly the list `loadHistory` renders from an empty list. |
| `FeedList.LoadHistoryKeepsOldCards` | tournament-logic.js:68-71 | The list is not cleared: loading on top of a list gives the fresh listing followed by the old cards. |
| `FeedList.OpenPage` | tournament-logic.js:92-93 | After a reload, the view is the store newest first and the viewer shows its default. |
| `FeedList.AddFeed` | tournament-logic.js:31-51 | An empty name or URL changes nothing. Otherwise there is one new record under a fresh key, with all other records kept. One id-less card goes on top, the old cards keep their order, and the viewer is unchanged. |
| `FeedList.AddMatchesReload` | tournament-logic.js:42-47 | Adding to a view that matches the store gives the same view a reload would give, except that the new top card has no id. |
| `FeedList.DeleteFeed` | tournament-logic.js:86-95 | A declined confirmation changes nothing. Otherwise only the given key is removed, the other records and the key generator are kept, and the view is rebuilt newest first. |
| `FeedList.PressDelete` | tournament-logic.js:60 | The delete button removes the card's key. For a card without an id, or when confirmation is declined, nothing changes. |
| `FeedList.NewCardDeleteInert` | tournament-logic.js:59-60 | The delete button of a card just added leaves the page unchanged, and the new record stays stored. |
| `FeedList.DeleteFeedTwice` | tournament-logic.js:88-93 | Two confirmed deletes of one id give the same page as one. |
| `FeedList.DeleteFeedAbsent` | tournament-logic.js:91-93 | A confirmed delete of an absent id keeps the store and only rebuilds the view. |
| `FeedList.Activate` | tournament-logic.js:123-124 | Exactly the clicked card is active afterwards, and every card keeps its id, name and URL. |
| `FeedList.SelectFeed` | tournament-logic.js:109-130 | A refused URL changes nothing. Otherwise the store is unchanged, only the clicked card is active, and the viewer shows the card's name with the normalised URL. |
| `FeedList.SelectFeedIdempotent` | tournament-logic.js:123-124 | Clicking the same card twice gives the same page as clicking it once. |
| `FeedList.Step` | tournament-logic.js:31-95 | No user action reuses a key or changes a stored record. Any new key is at least the generator's previous number. |
| `FeedList.KeysNeverReused` | tournament-logic.js:14 | Over any sequence of actions, a key that was handed out and then deleted never returns. Surviving records keep their values, and the generator never goes back. |

## Left out

- Opening and upgrading the database (`indexedDB.open`, `onupgradeneeded`) and the unused calendar store are not modelled. The model starts from an object store that already exists.
- Failure of storage at startup is not modelled. The page would then never load its history.
- The key generator's limit of 2^53 is not modelled. Past it, `add` fails with a ConstraintError and no card would be rendered.
- FeedStore.Insert and FeedStore.Delete: every store transaction is assumed to commit. A failed request (for example a QuotaExceededError) aborts the transaction, so the completion callback never runs: no card is rendered after a failed `add`, no reload follows a failed `delete`, and the store keeps its old state. The model does not have that path.
- The creation timestamp (`Date.now()`) is not modelled, because it comes from the clock.
- DOM work is not modelled: `innerHTML`, element lookup, `alert`, clearing the input fields, the title and status text, the iframe's `sandbox`/`allowfullscreen` attributes and styling. The viewer is only the pair of title and embedded URL.
- `confirm` is a boolean parameter. `event.stopPropagation()` is reflected only in that a delete click is not also a select.
- Cards written into the page's HTML before the script runs are not modelled. The reload rebuilds the list from an empty one.
- The first definition of `window.loadStream` is not modelled. It is overwritten by the second definition before any click can reach it.
- `$` patterns in the replacement string of `replace` are not modelled. The only replacement used, `lichess.org/embed/`, contains none.
- FeedStore.Scan: requires the key-generator invariant `Valid`. IndexedDB guarantees that invariant for every reachable store, and the scan walks the generated key range.
- FeedList.Step: a click on a position that holds no card is treated as "nothing happens", because the page offers no such target.
