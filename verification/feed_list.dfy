/**
  The live-feed sidebar: the record store, the rendered card list and the
  embedded viewer, with one transition per user action. Every asynchronous
  store request and its completion callback is collapsed into one atomic step.
 */
module FeedList {
  import opened Wrappers
  import opened UrlRule
  import opened FeedStore

  /**
    A rendered card: the record id its delete button passes (absent for a card
    rendered from an entry that was never given one), the name and URL its
    click handler uses, and whether it carries the `active` class.
   */
  datatype Card = Card(id: Option<nat>, name: string, url: string, active: bool)

  /** The embedded viewer: still showing the page's default, or a selected feed. */
  datatype Viewer = Idle | Showing(title: string, url: string)

  /** The whole page state. */
  datatype Page = Page(store: Store, cards: seq<Card>, viewer: Viewer)

  /** `renderFeedCard`: a card for one record, not yet active. */
  function RenderCard(id: Option<nat>, f: Feed): Card
  {
    Card(id, f.name, f.url, false)
  }

  /** The card a cursor entry renders to: it shows the entry's key. */
  function EntryCard(e: Entry): Card {
    RenderCard(Some(e.key), e.feed)
  }

  /** The cursor loop: each visited entry, in visiting order, is prepended to the list. */
  function PrependEach(es: seq<Entry>, cards: seq<Card>): (r: seq<Card>)
    ensures |r| == |es| + |cards|
    ensures r[|es|..] == cards
    decreases |es|
  {
    if |es| == 0 then cards
    else PrependEach(es[1..], [EntryCard(es[0])] + cards)
  }

  /** Reference definition: the cards of `es`, last entry first. */
  function Reversed(es: seq<Entry>): (r: seq<Card>)
    ensures |r| == |es|
  {
    seq(|es|, i requires 0 <= i < |es| => EntryCard(es[|es| - 1 - i]))
  }

  /**
    The view a full store holds, newest first: one card per record, each
    showing its key, name and URL, none active, keys strictly descending.
   */
  ghost predicate NewestFirst(cards: seq<Card>, m: map<nat, Feed>) {
    && (forall i :: 0 <= i < |cards| ==>
          cards[i].id.Some? && cards[i].id.value in m
          && cards[i] == RenderCard(cards[i].id, m[cards[i].id.value]))
    && (forall i, j :: 0 <= i < j < |cards| ==> cards[j].id.value < cards[i].id.value)
    && (forall k :: k in m ==> RenderCard(Some(k), m[k]) in cards)
  }

  /** `loadHistory`: the cursor scan renders every record on top of the existing list. */
  function LoadHistory(s: Store, cards: seq<Card>): (r: seq<Card>)
    requires Valid(s)
    ensures |cards| <= |r| && r[|r| - |cards|..] == cards
  {
    PrependEach(Scan(s), cards)
  }

  /** Opening the page on a store: an empty list filled by `loadHistory`, the default viewer. */
  function OpenPage(s: Store): (p: Page)
    requires Valid(s)
    ensures p.store == s && p.viewer == Idle
    ensures NewestFirst(p.cards, s.records)
  {
    LoadHistoryNewestFirst(s);
    Page(s, LoadHistory(s, []), Idle)
  }

  /**
    `addNewTournament`: an empty name or URL is refused with an alert and
    nothing changes; otherwise the record is stored under the key generator's
    current number, which no record has, and a card rendered from the
    pre-insert entry (so without an id) is put on top of the list.
   */
  function AddFeed(p: Page, name: string, url: string): (r: Page)
    requires Valid(p.store)
    ensures Valid(r.store)
    ensures name == "" || url == "" ==> r == p
    ensures name != "" && url != "" ==>
      && p.store.nextId !in p.store.records
      && r.store.records == p.store.records[p.store.nextId := Feed(name, url)]
      && p.store.nextId < r.store.nextId
      && |r.cards| == |p.cards| + 1
      && r.cards[0] == Card(None, name, url, false)
      && r.cards[1..] == p.cards
      && r.viewer == p.viewer
  {
    if name == "" || url == "" then p
    else
      var entry := Feed(name, url);
      var (s', _) := Insert(p.store, entry);
      Page(s', [RenderCard(None, entry)] + p.cards, p.viewer)
  }

  /**
    `deleteFeed`: a declined confirmation changes nothing; otherwise the key is
    removed (an absent key is no error) and the page reloads from the store.
   */
  function DeleteFeed(p: Page, id: nat, confirmed: bool): (r: Page)
    requires Valid(p.store)
    ensures Valid(r.store)
    ensures !confirmed ==> r == p
    ensures confirmed ==>
      && r.store.records.Keys == p.store.records.Keys - {id}
      && (forall k :: k in r.store.records ==> r.store.records[k] == p.store.records[k])
      && r.store.nextId == p.store.nextId
      && NewestFirst(r.cards, r.store.records)
      && r.viewer == Idle
  {
    if !confirmed then p
    else OpenPage(Delete(p.store, id))
  }

  /**
    The delete button of card `i`. A card without an id passes `undefined` as
    the key; `delete(undefined)` throws before the reload is scheduled, so
    nothing changes.
   */
  function PressDelete(p: Page, i: nat, confirmed: bool): (r: Page)
    requires Valid(p.store) && i < |p.cards|
    ensures Valid(r.store)
    ensures p.cards[i].id.None? || !confirmed ==> r == p
    ensures p.cards[i].id.Some? && confirmed ==>
      r.store.records.Keys == p.store.records.Keys - {p.cards[i].id.value}
  {
    match p.cards[i].id
    case None => p
    case Some(k) => DeleteFeed(p, k, confirmed)
  }

  /** Exactly card `i` carries the `active` class. */
  ghost predicate OnlyActive(cards: seq<Card>, i: nat) {
    forall j :: 0 <= j < |cards| ==> (cards[j].active <==> j == i)
  }

  /** Two card lists show the same cards, whatever their `active` classes. */
  ghost predicate SameCards(a: seq<Card>, b: seq<Card>) {
    |a| == |b| && forall j :: 0 <= j < |a| ==> a[j].(active := false) == b[j].(active := false)
  }

  /** Remove `active` from every card, then add it to card `i`. */
  function Activate(cards: seq<Card>, i: nat): (r: seq<Card>)
    requires i < |cards|
    ensures OnlyActive(r, i) && SameCards(r, cards)
  {
    seq(|cards|, j requires 0 <= j < |cards| => cards[j].(active := j == i))
  }

  /**
    `loadStream` on card `i`: when the URL rule refuses the card's URL, the
    handler returns early and nothing changes; otherwise card `i` alone becomes
    active and the viewer shows the card's name with the normalised URL.
   */
  function SelectFeed(p: Page, i: nat): (r: Page)
    requires i < |p.cards|
    ensures Normalize(p.cards[i].url).Rejected? ==> r == p
    ensures Normalize(p.cards[i].url).Ok? ==>
      && r.store == p.store
      && OnlyActive(r.cards, i)
      && SameCards(r.cards, p.cards)
      && r.viewer == Showing(p.cards[i].name, Normalize(p.cards[i].url).value)
  {
    match Normalize(p.cards[i].url)
    case Rejected => p
    case Ok(u) => Page(p.store, Activate(p.cards, i), Showing(p.cards[i].name, u))
  }

  // ---------------------------------------------------------------------------
  // The rendered list

  /** The cursor loop leaves the entries last-visited first, above the old list. */
  lemma {:induction false} PrependEachReverses(es: seq<Entry>, cards: seq<Card>)
    ensures PrependEach(es, cards) == Reversed(es) + cards
    decreases |es|
  {
    if |es| > 0 {
      PrependEachReverses(es[1..], [EntryCard(es[0])] + cards);
      assert Reversed(es) == Reversed(es[1..]) + [EntryCard(es[0])];
    }
  }

  /** An entry visited last is rendered on top. */
  lemma ReversedSnoc(es: seq<Entry>, e: Entry)
    ensures Reversed(es + [e]) == [EntryCard(e)] + Reversed(es)
  {
    var l, r := Reversed(es + [e]), [EntryCard(e)] + Reversed(es);
    forall i | 0 <= i < |l|
      ensures l[i] == r[i]
    {
      if i > 0 {
        assert (es + [e])[|es| - i] == es[|es| - 1 - (i - 1)];
      }
    }
  }

  /** The cards of an ascending listing of a map, reversed, are that map newest first. */
  lemma ReversedNewestFirst(es: seq<Entry>, m: map<nat, Feed>)
    requires Ascending(es) && EntriesOf(es, m)
    requires forall k :: k in m ==> Entry(k, m[k]) in es
    ensures NewestFirst(Reversed(es), m)
  {
    var r := Reversed(es);
    forall i | 0 <= i < |r|
      ensures r[i].id.Some? && r[i].id.value in m && r[i] == RenderCard(r[i].id, m[r[i].id.value])
    {
      assert r[i] == EntryCard(es[|es| - 1 - i]);
    }
    forall i, j | 0 <= i < j < |r|
      ensures r[j].id.value < r[i].id.value
    {
      assert r[i] == EntryCard(es[|es| - 1 - i]);
      assert r[j] == EntryCard(es[|es| - 1 - j]);
    }
    forall k | k in m
      ensures RenderCard(Some(k), m[k]) in r
    {
      var i :| 0 <= i < |es| && es[i] == Entry(k, m[k]);
      assert r[|es| - 1 - i] == EntryCard(es[i]);
    }
  }

  /** Loading the whole store into an empty list yields it newest first. */
  lemma LoadHistoryNewestFirst(s: Store)
    requires Valid(s)
    ensures NewestFirst(LoadHistory(s, []), s.records)
  {
    var es := Scan(s);
    PrependEachReverses(es, []);
    assert Reversed(es) + [] == Reversed(es);
    ReversedNewestFirst(es, s.records);
  }

  /** The top card of a newest-first view shows the largest key of the store. */
  lemma NewestFirstTop(cards: seq<Card>, m: map<nat, Feed>)
    requires NewestFirst(cards, m) && |cards| > 0
    ensures forall k :: k in m ==> k <= cards[0].id.value
  {
    forall k | k in m
      ensures k <= cards[0].id.value
    {
      var i :| 0 <= i < |cards| && cards[i] == RenderCard(Some(k), m[k]);
      if i > 0 {
        assert cards[i].id.value < cards[0].id.value;
      }
    }
  }

  /** Strictly descending keys. */
  ghost predicate Descending(x: seq<nat>) {
    forall i, j :: 0 <= i < j < |x| ==> x[j] < x[i]
  }

  /** Two strictly descending key lists with the same elements are equal. */
  lemma {:induction false} DescendingUnique(x: seq<nat>, y: seq<nat>)
    requires Descending(x) && Descending(y)
    requires forall v :: v in x <==> v in y
    ensures x == y
    decreases |x|
  {
    if |y| > 0 {
      assert y[0] in x;
    }
    if |x| > 0 {
      assert x[0] in y;
      var i :| 0 <= i < |x| && x[i] == y[0];
      var j :| 0 <= j < |y| && y[j] == x[0];
      assert x[0] == y[0] by {
        assert x[i] <= x[0];
        assert y[j] <= y[0];
      }
      var x', y' := x[1..], y[1..];
      forall v
        ensures v in x' <==> v in y'
      {
        if v in x' {
          var k :| 0 <= k < |x'| && x'[k] == v;
          assert x[k + 1] == v && v < x[0];
          assert v in y;
          var l :| 0 <= l < |y| && y[l] == v;
          assert l != 0 && y'[l - 1] == v;
        }
        if v in y' {
          var k :| 0 <= k < |y'| && y'[k] == v;
          assert y[k + 1] == v && v < y[0];
          assert v in x;
          var l :| 0 <= l < |x| && x[l] == v;
          assert l != 0 && x'[l - 1] == v;
        }
      }
      DescendingUnique(x', y');
      assert x == [x[0]] + x' && y == [y[0]] + y';
    }
  }

  /** The keys a newest-first view shows, top first. */
  function ShownKeys(cards: seq<Card>): (ks: seq<nat>)
    requires forall i :: 0 <= i < |cards| ==> cards[i].id.Some?
    ensures |ks| == |cards|
  {
    seq(|cards|, i requires 0 <= i < |cards| => cards[i].id.value)
  }

  /** The keys of a newest-first view descend and are exactly the store's keys. */
  lemma ShownKeysOfNewestFirst(cards: seq<Card>, m: map<nat, Feed>)
    requires NewestFirst(cards, m)
    ensures Descending(ShownKeys(cards))
    ensures forall v :: v in ShownKeys(cards) <==> v in m
  {
    var ks := ShownKeys(cards);
    forall v
      ensures v in ks <==> v in m
    {
      if v in m {
        var i :| 0 <= i < |cards| && cards[i] == RenderCard(Some(v), m[v]);
        assert ks[i] == v;
      }
    }
  }

  /** A newest-first view is determined by the store: two of them are equal. */
  lemma NewestFirstUnique(a: seq<Card>, b: seq<Card>, m: map<nat, Feed>)
    requires NewestFirst(a, m) && NewestFirst(b, m)
    ensures a == b
  {
    ShownKeysOfNewestFirst(a, m);
    ShownKeysOfNewestFirst(b, m);
    DescendingUnique(ShownKeys(a), ShownKeys(b));
    forall i | 0 <= i < |a|
      ensures a[i] == b[i]
    {
      assert ShownKeys(a)[i] == ShownKeys(b)[i];
    }
  }

  /** Any newest-first view of a store is the one a reload renders. */
  lemma ViewDeterminedByStore(s: Store, cards: seq<Card>)
    requires Valid(s) && NewestFirst(cards, s.records)
    ensures cards == LoadHistory(s, [])
  {
    LoadHistoryNewestFirst(s);
    NewestFirstUnique(cards, LoadHistory(s, []), s.records);
  }

  /** The list is never cleared: a reload on top of a list keeps the old cards below. */
  lemma LoadHistoryKeepsOldCards(s: Store, cards: seq<Card>)
    requires Valid(s)
    ensures LoadHistory(s, cards) == LoadHistory(s, []) + cards
  {
    PrependEachReverses(Scan(s), cards);
    PrependEachReverses(Scan(s), []);
  }

  /**
    Adding to a view that is in step with the store gives the view a reload
    would give, except that the new card on top carries no id.
   */
  lemma AddMatchesReload(p: Page, name: string, url: string)
    requires Valid(p.store) && p.cards == LoadHistory(p.store, [])
    requires name != "" && url != ""
    ensures var r := AddFeed(p, name, url);
      && LoadHistory(r.store, [])[0] == r.cards[0].(id := Some(p.store.nextId))
      && LoadHistory(r.store, [])[1..] == r.cards[1..]
  {
    var f := Feed(name, url);
    var r := AddFeed(p, name, url);
    ScanAfterInsert(p.store, f);
    var es := Scan(p.store);
    PrependEachReverses(es + [Entry(p.store.nextId, f)], []);
    PrependEachReverses(es, []);
    ReversedSnoc(es, Entry(p.store.nextId, f));
  }

  // ---------------------------------------------------------------------------
  // Delete

  /** Deleting the same id twice (both confirmed) is deleting it once. */
  lemma DeleteFeedTwice(p: Page, id: nat)
    requires Valid(p.store)
    ensures DeleteFeed(DeleteFeed(p, id, true), id, true) == DeleteFeed(p, id, true)
  {
    DeleteIdempotent(p.store, id);
  }

  /** Deleting an id no record has keeps the store; only the view is resynchronised. */
  lemma DeleteFeedAbsent(p: Page, id: nat)
    requires Valid(p.store) && id !in p.store.records
    ensures DeleteFeed(p, id, true) == OpenPage(p.store)
  {
    DeleteAbsent(p.store, id);
  }

  /** The delete button of a card just added does nothing: the new record stays. */
  lemma NewCardDeleteInert(p: Page, name: string, url: string, confirmed: bool)
    requires Valid(p.store) && name != "" && url != ""
    ensures var r := AddFeed(p, name, url);
      && PressDelete(r, 0, confirmed) == r
      && p.store.nextId in PressDelete(r, 0, confirmed).store.records
  {
  }

  // ---------------------------------------------------------------------------
  // Select

  /** Selecting the same card twice is selecting it once. */
  lemma SelectFeedIdempotent(p: Page, i: nat)
    requires i < |p.cards|
    ensures SelectFeed(SelectFeed(p, i), i) == SelectFeed(p, i)
  {
    var r := SelectFeed(p, i);
    if Normalize(p.cards[i].url).Ok? {
      assert r.cards[i].url == p.cards[i].url;
      assert Activate(r.cards, i) == r.cards;
    }
  }

  // ---------------------------------------------------------------------------
  // Sequences of user actions

  /** What the user can do on the page. */
  datatype Action =
    | Submit(name: string, url: string)
    | ClickCard(index: nat)
    | ClickDelete(index: nat, confirmed: bool)

  /** One action; a position that holds no card cannot be clicked, so nothing happens. */
  function Step(p: Page, a: Action): (r: Page)
    requires Valid(p.store)
    ensures Valid(r.store) && p.store.nextId <= r.store.nextId
    ensures forall k :: k in r.store.records ==>
      (k in p.store.records && r.store.records[k] == p.store.records[k]) || p.store.nextId <= k
  {
    match a
    case Submit(name, url) => AddFeed(p, name, url)
    case ClickCard(i) => if i < |p.cards| then SelectFeed(p, i) else p
    case ClickDelete(i, confirmed) => if i < |p.cards| then PressDelete(p, i, confirmed) else p
  }

  /** A sequence of actions, applied in order. */
  function Run(p: Page, acts: seq<Action>): (r: Page)
    requires Valid(p.store)
    ensures Valid(r.store)
    decreases |acts|
  {
    if |acts| == 0 then p else Run(Step(p, acts[0]), acts[1..])
  }

  /**
    Keys are never reused and records never change: a key below the key
    generator's number that is absent now stays absent for ever after, and a
    key present at the end holds the value it held at the start, or is newer
    than every key handed out before.
   */
  lemma {:induction false} KeysNeverReused(p: Page, acts: seq<Action>)
    requires Valid(p.store)
    ensures var r := Run(p, acts);
      && p.store.nextId <= r.store.nextId
      && (forall k :: k < p.store.nextId && k !in p.store.records ==> k !in r.store.records)
      && (forall k :: k in r.store.records ==>
            (k in p.store.records && r.store.records[k] == p.store.records[k]) || p.store.nextId <= k)
    decreases |acts|
  {
    if |acts| > 0 {
      KeysNeverReused(Step(p, acts[0]), acts[1..]);
    }
  }
}
