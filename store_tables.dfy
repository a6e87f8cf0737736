/**
 * The two tables behind the bot's queues, `game_lists` and `games`, and the
 * effect of each SQL statement the bot issues, written as functions on the
 * row sequences. Rows are never deleted: "removing" flips `active` to false.
 * The row order of a sequence is the table's physical order; the SQL has no
 * ORDER BY, so any other order would be as faithful.
 */
module StoreTables {

  import Decimal

  datatype Option<T> = None | Some(value: T)

  /** A row of `game_lists`: one queue tied to a channel or thread. */
  datatype GameList = GameList(
    id: nat, name: string, serverName: string, serverId: int, channelId: int, active: bool)

  /** A row of `games`: one user's recommendation of one URL in one list. */
  datatype GameEntry = GameEntry(user: string, url: string, listId: nat, active: bool)

  // ---------------------------------------------------------------------
  // Table invariants

  /** `game_list_id` is a serial key: the row at position k has id k. */
  predicate KeyedById(lists: seq<GameList>) {
    forall k :: 0 <= k < |lists| ==> lists[k].id == k
  }

  predicate ActiveFor(l: GameList, channelId: int, serverId: int) {
    l.active && l.channelId == channelId && l.serverId == serverId
  }

  /** The partial unique index behind `ON CONFLICT (channel_id, server_id) WHERE active = true`. */
  predicate OneActiveList(lists: seq<GameList>) {
    forall i, j :: 0 <= i < j < |lists| && lists[i].active ==>
      !ActiveFor(lists[j], lists[i].channelId, lists[i].serverId)
  }

  predicate ActiveEntry(e: GameEntry, user: string, url: string, listId: nat) {
    e.active && e.user == user && e.url == url && e.listId == listId
  }

  /** The partial unique index behind `ON CONFLICT (user_name, game_url, game_list_id) WHERE active = true`. */
  predicate OneActiveEntry(games: seq<GameEntry>) {
    forall i, j :: 0 <= i < j < |games| && games[i].active ==>
      !ActiveEntry(games[j], games[i].user, games[i].url, games[i].listId)
  }

  /** Every entry refers to an existing list. */
  predicate EntriesLinked(lists: seq<GameList>, games: seq<GameEntry>) {
    forall i :: 0 <= i < |games| ==> games[i].listId < |lists|
  }

  predicate Consistent(lists: seq<GameList>, games: seq<GameEntry>) {
    KeyedById(lists) && OneActiveList(lists) && OneActiveEntry(games) && EntriesLinked(lists, games)
  }

  // ---------------------------------------------------------------------
  // The channel's active list: the `WITH list_id AS (...)` sub-query

  /** The id of the active list of (channelId, serverId), if there is one. */
  function ActiveList(lists: seq<GameList>, channelId: int, serverId: int): (r: Option<nat>)
    ensures r.Some? ==> r.value < |lists| && ActiveFor(lists[r.value], channelId, serverId)
    ensures r.None? ==> forall k :: 0 <= k < |lists| ==> !ActiveFor(lists[k], channelId, serverId)
    decreases |lists|
  {
    if lists == [] then None
    else if ActiveFor(lists[|lists| - 1], channelId, serverId) then Some(|lists| - 1)
    else ActiveList(lists[..|lists| - 1], channelId, serverId)
  }

  /** Under the unique index the sub-query has at most one row: every active list of the pair is the one found. */
  lemma ActiveListUnique(lists: seq<GameList>, channelId: int, serverId: int, k: nat)
    requires OneActiveList(lists)
    requires k < |lists| && ActiveFor(lists[k], channelId, serverId)
    ensures ActiveList(lists, channelId, serverId) == Some(k)
  {
  }

  // ---------------------------------------------------------------------
  // INSERT INTO game_lists ... ON CONFLICT (channel_id, server_id) WHERE active = true DO NOTHING

  function WithActiveList(lists: seq<GameList>, name: string, serverName: string, serverId: int, channelId: int): seq<GameList> {
    if ActiveList(lists, channelId, serverId).Some? then lists
    else lists + [GameList(|lists|, name, serverName, serverId, channelId, true)]
  }

  /**
   * The insert keeps the invariants, leaves existing rows alone, adds a row
   * exactly when the pair had no active list, and afterwards the pair has
   * exactly one active list (the one found by the sub-query).
   */
  lemma WithActiveListSpec(lists: seq<GameList>, games: seq<GameEntry>, name: string, serverName: string, serverId: int, channelId: int)
    requires Consistent(lists, games)
    ensures var r := WithActiveList(lists, name, serverName, serverId, channelId);
      && Consistent(r, games)
      && lists <= r
      && |r| == |lists| + (if ActiveList(lists, channelId, serverId).Some? then 0 else 1)
      && ActiveList(r, channelId, serverId).Some?
      && (forall k :: 0 <= k < |r| && ActiveFor(r[k], channelId, serverId) ==>
            ActiveList(r, channelId, serverId) == Some(k))
      && (ActiveList(lists, channelId, serverId).None? ==>
            r[|lists|] == GameList(|lists|, name, serverName, serverId, channelId, true))
  {
    var r := WithActiveList(lists, name, serverName, serverId, channelId);
    if ActiveList(lists, channelId, serverId).None? {
      assert ActiveFor(r[|lists|], channelId, serverId);
      forall i, j | 0 <= i < j < |r| && r[i].active
        ensures !ActiveFor(r[j], r[i].channelId, r[i].serverId)
      {
        if j == |lists| {
          assert r[i] == lists[i];
        }
      }
    }
    forall k | 0 <= k < |r| && ActiveFor(r[k], channelId, serverId)
      ensures ActiveList(r, channelId, serverId) == Some(k)
    {
      ActiveListUnique(r, channelId, serverId, k);
    }
  }

  // ---------------------------------------------------------------------
  // INSERT INTO games ... ON CONFLICT (user_name, game_url, game_list_id) WHERE active = true DO NOTHING

  predicate HasActiveEntry(games: seq<GameEntry>, user: string, url: string, listId: nat) {
    exists k | 0 <= k < |games| :: ActiveEntry(games[k], user, url, listId)
  }

  function InsertEntry(games: seq<GameEntry>, user: string, url: string, listId: nat): seq<GameEntry> {
    if HasActiveEntry(games, user, url, listId) then games
    else games + [GameEntry(user, url, listId, true)]
  }

  /** One insert per URL, in the batch's order. */
  function AddAll(games: seq<GameEntry>, urls: seq<string>, user: string, listId: nat): seq<GameEntry>
    decreases |urls|
  {
    if urls == [] then games
    else AddAll(InsertEntry(games, user, urls[0], listId), urls[1..], user, listId)
  }

  /** A prefix-preserving change keeps every active entry active. */
  lemma ExtendKeepsActive(games: seq<GameEntry>, more: seq<GameEntry>, user: string, url: string, listId: nat)
    requires games <= more
    requires HasActiveEntry(games, user, url, listId)
    ensures HasActiveEntry(more, user, url, listId)
  {
    var k :| 0 <= k < |games| && ActiveEntry(games[k], user, url, listId);
    assert more[k] == games[k];
  }

  /**
   * A batch insert changes no existing row; each appended row is an active
   * entry of the user in the list for a URL of the batch; afterwards every
   * URL of the batch has an active entry of the user in the list.
   */
  lemma {:induction false} AddAllSpec(games: seq<GameEntry>, urls: seq<string>, user: string, listId: nat)
    ensures var r := AddAll(games, urls, user, listId);
      && games <= r
      && (forall k :: |games| <= k < |r| ==>
            r[k].active && r[k].user == user && r[k].listId == listId && r[k].url in urls)
      && (forall u :: u in urls ==> HasActiveEntry(r, user, u, listId))
    decreases |urls|
  {
    if urls != [] {
      var g := InsertEntry(games, user, urls[0], listId);
      var r := AddAll(g, urls[1..], user, listId);
      AddAllSpec(g, urls[1..], user, listId);
      assert r == AddAll(games, urls, user, listId);
      if !HasActiveEntry(games, user, urls[0], listId) {
        assert ActiveEntry(g[|games|], user, urls[0], listId);
      }
      ExtendKeepsActive(g, r, user, urls[0], listId);
      forall u | u in urls
        ensures HasActiveEntry(r, user, u, listId)
      {
        if u != urls[0] {
          assert u in urls[1..];
        }
      }
      forall k | |games| <= k < |r|
        ensures r[k].url in urls
      {
        if k < |g| {
          assert r[k] == g[k];
        } else {
          assert r[k].url in urls[1..];
        }
      }
    }
  }

  /** The URLs of a batch that had no active entry of the user in the list. */
  function NewUrls(games: seq<GameEntry>, urls: seq<string>, user: string, listId: nat): set<string> {
    set u | u in urls && !HasActiveEntry(games, user, u, listId)
  }

  /**
   * The rows a batch insert adds are as many as the distinct URLs of the batch
   * that had no active entry: a URL already present, or repeated earlier in
   * the batch, adds nothing.
   */
  lemma {:induction false} AddAllCount(games: seq<GameEntry>, urls: seq<string>, user: string, listId: nat)
    ensures |AddAll(games, urls, user, listId)| == |games| + |NewUrls(games, urls, user, listId)|
    decreases |urls|
  {
    if urls == [] {
      assert NewUrls(games, urls, user, listId) == {};
    } else {
      var u0 := urls[0];
      var g := InsertEntry(games, user, u0, listId);
      AddAllCount(g, urls[1..], user, listId);
      if HasActiveEntry(games, user, u0, listId) {
        assert NewUrls(games, urls, user, listId) == NewUrls(g, urls[1..], user, listId) by {
          forall u | u in urls[1..]
            ensures u in urls
          {
          }
        }
      } else {
        assert ActiveEntry(g[|games|], user, u0, listId);
        forall u
          ensures HasActiveEntry(g, user, u, listId) <==> HasActiveEntry(games, user, u, listId) || u == u0
        {
          if HasActiveEntry(g, user, u, listId) && u != u0 {
            var k :| 0 <= k < |g| && ActiveEntry(g[k], user, u, listId);
            assert g[k] == games[k];
          }
          if HasActiveEntry(games, user, u, listId) {
            ExtendKeepsActive(games, g, user, u, listId);
          }
        }
        assert NewUrls(games, urls, user, listId) == NewUrls(g, urls[1..], user, listId) + {u0} by {
          forall u | u in urls[1..]
            ensures u in urls
          {
          }
        }
        assert u0 !in NewUrls(g, urls[1..], user, listId);
      }
    }
  }

  /** Adding URLs that were all just added changes nothing: `!add` is idempotent. */
  lemma {:induction false} AddAllAgain(games: seq<GameEntry>, urls: seq<string>, again: seq<string>, user: string, listId: nat)
    requires forall u :: u in again ==> u in urls
    ensures AddAll(AddAll(games, urls, user, listId), again, user, listId) == AddAll(games, urls, user, listId)
    decreases |again|
  {
    if again != [] {
      AddAllSpec(games, urls, user, listId);
      assert again[0] in again;
      forall u | u in again[1..]
        ensures u in urls
      {
        assert u in again;
      }
      AddAllAgain(games, urls, again[1..], user, listId);
    }
  }

  /** Inserting keeps the table invariants when the list exists. */
  lemma {:induction false} AddAllConsistent(lists: seq<GameList>, games: seq<GameEntry>, urls: seq<string>, user: string, listId: nat)
    requires Consistent(lists, games) && listId < |lists|
    ensures Consistent(lists, AddAll(games, urls, user, listId))
    decreases |urls|
  {
    if urls != [] {
      var g := InsertEntry(games, user, urls[0], listId);
      if !HasActiveEntry(games, user, urls[0], listId) {
        forall i, j | 0 <= i < j < |g| && g[i].active
          ensures !ActiveEntry(g[j], g[i].user, g[i].url, g[i].listId)
        {
          if j == |games| {
            assert g[i] == games[i];
            assert !ActiveEntry(games[i], user, urls[0], listId);
          }
        }
      }
      AddAllConsistent(lists, g, urls[1..], user, listId);
    }
  }

  // ---------------------------------------------------------------------
  // UPDATE games SET active = false WHERE user_name = $1 AND game_url = $2
  //   AND game_list_id = (list) AND active = true

  function Deactivate(games: seq<GameEntry>, user: string, url: string, listId: nat): (r: seq<GameEntry>)
    ensures |r| == |games|
    decreases |games|
  {
    if games == [] then []
    else
      var head := if ActiveEntry(games[0], user, url, listId) then games[0].(active := false) else games[0];
      [head] + Deactivate(games[1..], user, url, listId)
  }

  /** The rows the UPDATE above reports: the active entries it matches. */
  function CountActive(games: seq<GameEntry>, user: string, url: string, listId: nat): nat
    decreases |games|
  {
    if games == [] then 0
    else (if ActiveEntry(games[0], user, url, listId) then 1 else 0) + CountActive(games[1..], user, url, listId)
  }

  /** One UPDATE per URL, in the batch's order. */
  function RemoveAll(games: seq<GameEntry>, urls: seq<string>, user: string, listId: nat): seq<GameEntry>
    decreases |urls|
  {
    if urls == [] then games
    else RemoveAll(Deactivate(games, user, urls[0], listId), urls[1..], user, listId)
  }

  /** The sum of the counts the per-URL UPDATEs report. */
  function RemoveCount(games: seq<GameEntry>, urls: seq<string>, user: string, listId: nat): nat
    decreases |urls|
  {
    if urls == [] then 0
    else
      CountActive(games, user, urls[0], listId) + RemoveCount(Deactivate(games, user, urls[0], listId), urls[1..], user, listId)
  }

  function UrlSet(urls: seq<string>): set<string> {
    set u | u in urls
  }

  /** An active entry of the user in the list whose URL is one of `urls`. */
  predicate Targeted(e: GameEntry, user: string, urls: set<string>, listId: nat) {
    e.active && e.user == user && e.url in urls && e.listId == listId
  }

  /** The active entries of the user in the list with a URL in `urls`. */
  function CountTargeted(games: seq<GameEntry>, user: string, urls: set<string>, listId: nat): nat
    decreases |games|
  {
    if games == [] then 0
    else (if Targeted(games[0], user, urls, listId) then 1 else 0) + CountTargeted(games[1..], user, urls, listId)
  }

  lemma {:induction false} DeactivateAt(games: seq<GameEntry>, user: string, url: string, listId: nat, k: nat)
    requires k < |games|
    ensures Deactivate(games, user, url, listId)[k] ==
      if ActiveEntry(games[k], user, url, listId) then games[k].(active := false) else games[k]
    decreases |games|
  {
    if k > 0 {
      DeactivateAt(games[1..], user, url, listId, k - 1);
    }
  }

  lemma {:induction false} CountSplit(games: seq<GameEntry>, user: string, url: string, rest: set<string>, listId: nat)
    ensures CountTargeted(games, user, rest + {url}, listId) ==
      CountActive(games, user, url, listId) + CountTargeted(Deactivate(games, user, url, listId), user, rest, listId)
    decreases |games|
  {
    if games != [] {
      CountSplit(games[1..], user, url, rest, listId);
      var d := Deactivate(games, user, url, listId);
      assert d[1..] == Deactivate(games[1..], user, url, listId);
    }
  }

  /**
   * The batch of UPDATEs deactivates exactly the active entries of the user in
   * the list whose URL is in the batch, leaves every other row as it was, and
   * reports how many such entries there were (a repeated URL counts once).
   */
  lemma {:induction false} RemoveAllSpec(games: seq<GameEntry>, urls: seq<string>, user: string, listId: nat)
    ensures var r := RemoveAll(games, urls, user, listId);
      && |r| == |games|
      && (forall k :: 0 <= k < |r| ==>
            r[k] == if Targeted(games[k], user, UrlSet(urls), listId) then games[k].(active := false) else games[k])
      && RemoveCount(games, urls, user, listId) == CountTargeted(games, user, UrlSet(urls), listId)
    decreases |urls|
  {
    var all := UrlSet(urls);
    if urls == [] {
      assert all == {};
      ZeroTargeted(games, user, listId);
    } else {
      var d := Deactivate(games, user, urls[0], listId);
      var rest := UrlSet(urls[1..]);
      RemoveAllSpec(d, urls[1..], user, listId);
      assert all == rest + {urls[0]};
      CountSplit(games, user, urls[0], rest, listId);
      var r := RemoveAll(games, urls, user, listId);
      forall k | 0 <= k < |r|
        ensures r[k] == if Targeted(games[k], user, all, listId) then games[k].(active := false) else games[k]
      {
        DeactivateAt(games, user, urls[0], listId, k);
      }
    }
  }

  lemma {:induction false} ZeroTargeted(games: seq<GameEntry>, user: string, listId: nat)
    ensures CountTargeted(games, user, {}, listId) == 0
    decreases |games|
  {
    if games != [] {
      ZeroTargeted(games[1..], user, listId);
    }
  }

  /** Deactivating rows keeps the invariants. */
  lemma {:induction false} RemoveAllConsistent(lists: seq<GameList>, games: seq<GameEntry>, urls: seq<string>, user: string, listId: nat)
    requires Consistent(lists, games)
    ensures Consistent(lists, RemoveAll(games, urls, user, listId))
  {
    var r := RemoveAll(games, urls, user, listId);
    RemoveAllSpec(games, urls, user, listId);
    forall i, j | 0 <= i < j < |r| && r[i].active
      ensures !ActiveEntry(r[j], r[i].user, r[i].url, r[i].listId)
    {
      assert r[i] == games[i];
    }
    forall i | 0 <= i < |r|
      ensures r[i].listId < |lists|
    {
      assert r[i].listId == games[i].listId;
    }
  }

  // ---------------------------------------------------------------------
  // UPDATE games SET active = false WHERE game_list_id = (list)
  // (no `active = true` filter: rows already inactive are matched too)

  function ClearList(games: seq<GameEntry>, listId: nat): (r: seq<GameEntry>)
    ensures |r| == |games|
    decreases |games|
  {
    if games == [] then []
    else
      var head := if games[0].listId == listId then games[0].(active := false) else games[0];
      [head] + ClearList(games[1..], listId)
  }

  /** The rows the UPDATE above reports: every entry row of the list. */
  function CountList(games: seq<GameEntry>, listId: nat): nat
    decreases |games|
  {
    if games == [] then 0
    else (if games[0].listId == listId then 1 else 0) + CountList(games[1..], listId)
  }

  /** The entries of the list that are active. */
  function CountActiveOf(games: seq<GameEntry>, listId: nat): nat
    decreases |games|
  {
    if games == [] then 0
    else (if games[0].listId == listId && games[0].active then 1 else 0) + CountActiveOf(games[1..], listId)
  }

  /**
   * Clearing deactivates every entry of the list and nothing else; the count
   * it reports covers the list's inactive rows as well, so it is at least the
   * number of active entries and clearing the same list again reports the
   * same number.
   */
  lemma {:induction false} ClearListSpec(games: seq<GameEntry>, listId: nat)
    ensures var r := ClearList(games, listId);
      && (forall k :: 0 <= k < |r| ==>
            r[k] == if games[k].listId == listId then games[k].(active := false) else games[k])
      && CountActiveOf(r, listId) == 0
      && CountList(r, listId) == CountList(games, listId)
      && CountActiveOf(games, listId) <= CountList(games, listId)
    decreases |games|
  {
    if games != [] {
      ClearListSpec(games[1..], listId);
      var r := ClearList(games, listId);
      assert r[1..] == ClearList(games[1..], listId);
    }
  }

  lemma ClearListConsistent(lists: seq<GameList>, games: seq<GameEntry>, listId: nat)
    requires Consistent(lists, games)
    ensures Consistent(lists, ClearList(games, listId))
  {
    var r := ClearList(games, listId);
    ClearListSpec(games, listId);
    forall i, j | 0 <= i < j < |r| && r[i].active
      ensures !ActiveEntry(r[j], r[i].user, r[i].url, r[i].listId)
    {
      assert r[i] == games[i];
    }
    forall i | 0 <= i < |r|
      ensures r[i].listId < |lists|
    {
      assert r[i].listId == games[i].listId;
    }
  }

  // ---------------------------------------------------------------------
  // UPDATE game_lists SET active = false WHERE channel_id = $1 AND server_id = $2

  function CloseSession(lists: seq<GameList>, channelId: int, serverId: int): (r: seq<GameList>)
    ensures |r| == |lists|
    decreases |lists|
  {
    if lists == [] then []
    else
      var l := lists[0];
      var head := if l.channelId == channelId && l.serverId == serverId then l.(active := false) else l;
      [head] + CloseSession(lists[1..], channelId, serverId)
  }

  lemma {:induction false} CloseSessionAt(lists: seq<GameList>, channelId: int, serverId: int, k: nat)
    requires k < |lists|
    ensures CloseSession(lists, channelId, serverId)[k] ==
      if lists[k].channelId == channelId && lists[k].serverId == serverId then lists[k].(active := false) else lists[k]
    decreases |lists|
  {
    if k > 0 {
      CloseSessionAt(lists[1..], channelId, serverId, k - 1);
    }
  }

  /**
   * Closing a session deactivates every list row of the pair and changes
   * nothing else, so afterwards the pair has no active list, closing it again
   * changes nothing, and the invariants still hold (entries are untouched).
   */
  lemma CloseSessionSpec(lists: seq<GameList>, games: seq<GameEntry>, channelId: int, serverId: int)
    requires Consistent(lists, games)
    ensures var r := CloseSession(lists, channelId, serverId);
      && (forall k :: 0 <= k < |r| ==>
            r[k] == if lists[k].channelId == channelId && lists[k].serverId == serverId
                    then lists[k].(active := false) else lists[k])
      && ActiveList(r, channelId, serverId).None?
      && CloseSession(r, channelId, serverId) == r
      && Consistent(r, games)
  {
    var r := CloseSession(lists, channelId, serverId);
    forall k | 0 <= k < |r|
      ensures r[k] == if lists[k].channelId == channelId && lists[k].serverId == serverId
                      then lists[k].(active := false) else lists[k]
    {
      CloseSessionAt(lists, channelId, serverId, k);
    }
    var rr := CloseSession(r, channelId, serverId);
    forall k | 0 <= k < |r|
      ensures rr[k] == r[k]
    {
      CloseSessionAt(r, channelId, serverId, k);
    }
    forall i, j | 0 <= i < j < |r| && r[i].active
      ensures !ActiveFor(r[j], r[i].channelId, r[i].serverId)
    {
      assert r[i] == lists[i];
    }
  }

  // ---------------------------------------------------------------------
  // SELECT user_name, game_url FROM games WHERE game_list_id = (list) AND active = true
  // and the defaultdict(list) the rows are grouped into

  /** A row of the SELECT above. */
  datatype Record = Record(user: string, url: string)

  function ListRows(games: seq<GameEntry>, listId: nat): seq<Record>
    decreases |games|
  {
    if games == [] then []
    else if games[0].active && games[0].listId == listId then
      [Record(games[0].user, games[0].url)] + ListRows(games[1..], listId)
    else ListRows(games[1..], listId)
  }

  /** One key of the dictionary and the list it maps to. */
  datatype Group = Group(url: string, users: seq<string>)

  /** `games[url].append(user)` on a dictionary kept as key/value pairs in insertion order. */
  function Append(groups: seq<Group>, url: string, user: string): seq<Group>
    decreases |groups|
  {
    if groups == [] then [Group(url, [user])]
    else if groups[0].url == url then [Group(url, groups[0].users + [user])] + groups[1..]
    else [groups[0]] + Append(groups[1..], url, user)
  }

  /** The dictionary built from the rows, one append per row in row order. */
  function Grouped(rows: seq<Record>): seq<Group>
    decreases |rows|
  {
    if rows == [] then []
    else Append(Grouped(rows[..|rows| - 1]), rows[|rows| - 1].url, rows[|rows| - 1].user)
  }

  function Keys(groups: seq<Group>): seq<string>
    decreases |groups|
  {
    if groups == [] then [] else [groups[0].url] + Keys(groups[1..])
  }

  /** The value stored under a key; a missing key reads as empty. */
  function Lookup(groups: seq<Group>, url: string): seq<string>
    decreases |groups|
  {
    if groups == [] then []
    else if groups[0].url == url then groups[0].users
    else Lookup(groups[1..], url)
  }

  /** The users of the rows for a URL, in row order. */
  function UsersOf(rows: seq<Record>, url: string): seq<string>
    decreases |rows|
  {
    if rows == [] then []
    else (if rows[0].url == url then [rows[0].user] else []) + UsersOf(rows[1..], url)
  }

  predicate Distinct(s: seq<string>) {
    forall i, j :: 0 <= i < j < |s| ==> s[i] != s[j]
  }

  lemma {:induction false} AppendSpec(groups: seq<Group>, url: string, user: string)
    requires Distinct(Keys(groups))
    ensures var r := Append(groups, url, user);
      && Keys(r) == (if url in Keys(groups) then Keys(groups) else Keys(groups) + [url])
      && Distinct(Keys(r))
      && forall k :: Lookup(r, k) == if k == url then Lookup(groups, k) + [user] else Lookup(groups, k)
    decreases |groups|
  {
    if groups != [] {
      var ks := Keys(groups);
      assert ks == [groups[0].url] + Keys(groups[1..]);
      assert Distinct(Keys(groups[1..])) by {
        forall i, j | 0 <= i < j < |Keys(groups[1..])|
          ensures Keys(groups[1..])[i] != Keys(groups[1..])[j]
        {
          assert ks[i + 1] != ks[j + 1];
        }
      }
      if groups[0].url != url {
        AppendSpec(groups[1..], url, user);
        var r := Append(groups, url, user);
        assert Keys(r) == [groups[0].url] + Keys(Append(groups[1..], url, user));
        assert url in ks <==> url in Keys(groups[1..]);
        assert groups[0].url !in Keys(groups[1..]) by {
          forall j | 0 <= j < |Keys(groups[1..])|
            ensures Keys(groups[1..])[j] != groups[0].url
          {
            assert ks[0] != ks[j + 1];
          }
        }
      } else {
        var r := Append(groups, url, user);
        assert r[1..] == groups[1..];
        assert Keys(r) == [url] + Keys(groups[1..]);
      }
    }
  }

  /** Some row of `rows` has URL u. */
  predicate Seen(rows: seq<Record>, u: string) {
    exists i :: 0 <= i < |rows| && rows[i].url == u
  }

  /**
   * The dictionary has as keys exactly the URLs of the rows, each once, and
   * maps each URL to its rows' users in row order.
   */
  lemma {:induction false} GroupedSpec(rows: seq<Record>)
    ensures var g := Grouped(rows);
      && Distinct(Keys(g))
      && (forall u :: u in Keys(g) <==> Seen(rows, u))
      && (forall u :: Lookup(g, u) == UsersOf(rows, u))
    decreases |rows|
  {
    if rows != [] {
      var init, last := rows[..|rows| - 1], rows[|rows| - 1];
      GroupedSpec(init);
      AppendSpec(Grouped(init), last.url, last.user);
      assert rows == init + [last];
      forall u
        ensures UsersOf(rows, u) == UsersOf(init, u) + (if last.url == u then [last.user] else [])
      {
        UsersOfSnoc(init, last, u);
      }
      forall u
        ensures Seen(rows, u) <==> Seen(init, u) || last.url == u
      {
        SeenSnoc(init, last, u);
      }
    }
  }

  lemma SeenSnoc(init: seq<Record>, last: Record, u: string)
    ensures Seen(init + [last], u) <==> Seen(init, u) || last.url == u
  {
    var rows := init + [last];
    if Seen(init, u) {
      var i :| 0 <= i < |init| && init[i].url == u;
      assert rows[i].url == u;
    }
    if Seen(rows, u) {
      var i :| 0 <= i < |rows| && rows[i].url == u;
      if i < |init| {
        assert init[i].url == u;
      }
    }
    assert rows[|init|] == last;
  }

  /** The URLs of the rows in order of first occurrence: row i contributes
      its URL exactly when no earlier row has that URL. */
  function FirstSeen(rows: seq<Record>): seq<string>
    decreases |rows|
  {
    if rows == [] then []
    else
      var init, last := rows[..|rows| - 1], rows[|rows| - 1];
      FirstSeen(init) + (if Seen(init, last.url) then [] else [last.url])
  }

  /**
   * The dictionary's keys come in the order their URLs first occur among
   * the rows; this is the order in which the listing numbers them.
   */
  lemma {:induction false} GroupedOrder(rows: seq<Record>)
    ensures Keys(Grouped(rows)) == FirstSeen(rows)
    decreases |rows|
  {
    if rows != [] {
      var init, last := rows[..|rows| - 1], rows[|rows| - 1];
      GroupedOrder(init);
      GroupedSpec(init);
      AppendSpec(Grouped(init), last.url, last.user);
      assert last.url in Keys(Grouped(init)) <==> Seen(init, last.url);
    }
  }

  lemma {:induction false} UsersOfSnoc(init: seq<Record>, last: Record, u: string)
    ensures UsersOf(init + [last], u) == UsersOf(init, u) + (if last.url == u then [last.user] else [])
    decreases |init|
  {
    if init == [] {
      assert init + [last] == [last];
    } else {
      UsersOfSnoc(init[1..], last, u);
      assert (init + [last])[1..] == init[1..] + [last];
    }
  }

  /**
   * The users listed for a URL are exactly the users with an active entry for
   * it in the list, none of them twice (the active-only unique index).
   */
  lemma {:induction false} ListedUsers(games: seq<GameEntry>, listId: nat, url: string)
    requires OneActiveEntry(games)
    ensures var us := UsersOf(ListRows(games, listId), url);
      && Distinct(us)
      && forall user :: user in us <==> HasActiveEntry(games, user, url, listId)
    decreases |games|
  {
    if games != [] {
      var rest := games[1..];
      assert OneActiveEntry(rest) by {
        forall i, j | 0 <= i < j < |rest| && rest[i].active
          ensures !ActiveEntry(rest[j], rest[i].user, rest[i].url, rest[i].listId)
        {
          assert rest[i] == games[i + 1] && rest[j] == games[j + 1];
        }
      }
      ListedUsers(rest, listId, url);
      var tail := UsersOf(ListRows(rest, listId), url);
      forall user
        ensures HasActiveEntry(games, user, url, listId) <==>
          ActiveEntry(games[0], user, url, listId) || HasActiveEntry(rest, user, url, listId)
      {
        if HasActiveEntry(games, user, url, listId) {
          var k :| 0 <= k < |games| && ActiveEntry(games[k], user, url, listId);
          if k > 0 {
            assert ActiveEntry(rest[k - 1], user, url, listId);
          }
        }
        if HasActiveEntry(rest, user, url, listId) {
          var k :| 0 <= k < |rest| && ActiveEntry(rest[k], user, url, listId);
          assert games[k + 1] == rest[k];
        }
      }
      if games[0].active && games[0].listId == listId && games[0].url == url {
        assert ListRows(games, listId) == [Record(games[0].user, url)] + ListRows(rest, listId);
        assert !HasActiveEntry(rest, games[0].user, url, listId) by {
          forall k | 0 <= k < |rest|
            ensures !ActiveEntry(rest[k], games[0].user, url, listId)
          {
            assert rest[k] == games[k + 1];
          }
        }
        assert UsersOf(ListRows(games, listId), url) == [games[0].user] + tail;
      } else if games[0].active && games[0].listId == listId {
        assert ListRows(games, listId) == [Record(games[0].user, games[0].url)] + ListRows(rest, listId);
      }
    }
  }

  // ---------------------------------------------------------------------
  // SELECT game_list_id FROM game_lists WHERE server_id = $1 AND game_list_name = $2
  // (no `active` filter)

  /** The list row is on the server and carries the name. */
  predicate Named(l: GameList, serverId: int, name: string) {
    l.serverId == serverId && l.name == name
  }

  function NamedLists(lists: seq<GameList>, serverId: int, name: string): (ids: seq<nat>)
    decreases |lists|
  {
    if lists == [] then []
    else
      var l := lists[|lists| - 1];
      NamedLists(lists[..|lists| - 1], serverId, name) + (if Named(l, serverId, name) then [|lists| - 1] else [])
  }

  /** The lookup finds the rows of the server with that name, each once, whatever their active flag. */
  lemma {:induction false} NamedListsSpec(lists: seq<GameList>, serverId: int, name: string)
    ensures var ids := NamedLists(lists, serverId, name);
      && (forall k :: k in ids <==> 0 <= k < |lists| && Named(lists[k], serverId, name))
      && (forall i, j :: 0 <= i < j < |ids| ==> ids[i] < ids[j])
    decreases |lists|
  {
    if lists != [] {
      var n := |lists| - 1;
      var prior := NamedLists(lists[..n], serverId, name);
      NamedListsSpec(lists[..n], serverId, name);
      assert forall i :: 0 <= i < |prior| ==> prior[i] < n by {
        forall i | 0 <= i < |prior|
          ensures prior[i] < n
        {
          assert prior[i] in prior;
        }
      }
    }
  }

  lemma {:induction false} NamedListsNone(lists: seq<GameList>, serverId: int, name: string)
    requires forall j :: 0 <= j < |lists| ==> !Named(lists[j], serverId, name)
    ensures NamedLists(lists, serverId, name) == []
    decreases |lists|
  {
    if lists != [] {
      NamedListsNone(lists[..|lists| - 1], serverId, name);
    }
  }

  lemma {:induction false} NamedListsSingle(lists: seq<GameList>, serverId: int, name: string, k: nat)
    requires k < |lists| && Named(lists[k], serverId, name)
    requires forall j :: 0 <= j < |lists| && j != k ==> !Named(lists[j], serverId, name)
    ensures NamedLists(lists, serverId, name) == [k]
    decreases |lists|
  {
    var n := |lists| - 1;
    if k == n {
      NamedListsNone(lists[..n], serverId, name);
    } else {
      NamedListsSingle(lists[..n], serverId, name, k);
    }
  }

  /** Closing a session does not change what the by-name lookup finds. */
  lemma {:induction false} NamedListsIgnoreActive(lists: seq<GameList>, channelId: int, serverId: int, server: int, name: string)
    ensures NamedLists(CloseSession(lists, channelId, serverId), server, name) == NamedLists(lists, server, name)
    decreases |lists|
  {
    var r := CloseSession(lists, channelId, serverId);
    if lists != [] {
      var n := |lists| - 1;
      CloseSessionAt(lists, channelId, serverId, n);
      assert r[..n] == CloseSession(lists[..n], channelId, serverId) by {
        forall k | 0 <= k < n
          ensures r[k] == CloseSession(lists[..n], channelId, serverId)[k]
        {
          CloseSessionAt(lists, channelId, serverId, k);
          CloseSessionAt(lists[..n], channelId, serverId, k);
        }
      }
      NamedListsIgnoreActive(lists[..n], channelId, serverId, server, name);
    }
  }

  /** What `list_specific_session_games` returns: the grouped entries, or a message for the user. */
  datatype Listing = Games(groups: seq<Group>) | Message(text: string)

  function AmbiguousName(count: nat): string {
    "Found " + Decimal.NatToString(count)
      + " lists on this server with the same name! Please run this in the channel that the list was created in."
  }

  function UnknownName(name: string): string {
    "Cannot find a list matching '" + name + "' on this server"
  }

  lemma {:induction false} UsersOfNonEmpty(rows: seq<Record>, u: string)
    ensures UsersOf(rows, u) != [] <==> Seen(rows, u)
    decreases |rows|
  {
    if rows != [] {
      UsersOfNonEmpty(rows[1..], u);
      if Seen(rows, u) {
        var i :| 0 <= i < |rows| && rows[i].url == u;
        if i > 0 {
          assert rows[1..][i - 1].url == u;
        }
      }
      if exists i :: 0 <= i < |rows[1..]| && rows[1..][i].url == u {
        var i :| 0 <= i < |rows[1..]| && rows[1..][i].url == u;
        assert rows[i + 1].url == u;
      }
    }
  }

  /**
   * The dictionary built for a list: its keys are the URLs with an active
   * entry in the list, each once; each URL maps to exactly the users of
   * those entries, none twice.
   */
  lemma ListingSpec(games: seq<GameEntry>, listId: nat)
    requires OneActiveEntry(games)
    ensures var g := Grouped(ListRows(games, listId));
      && Distinct(Keys(g))
      && (forall u :: u in Keys(g) <==> Lookup(g, u) != [])
      && (forall u, user :: user in Lookup(g, u) <==> HasActiveEntry(games, user, u, listId))
      && (forall u :: Distinct(Lookup(g, u)))
  {
    var rows := ListRows(games, listId);
    GroupedSpec(rows);
    forall u
      ensures UsersOf(rows, u) != [] <==> Seen(rows, u)
    {
      UsersOfNonEmpty(rows, u);
    }
    forall u
      ensures Distinct(UsersOf(ListRows(games, listId), u))
      ensures forall user :: user in UsersOf(ListRows(games, listId), u) <==> HasActiveEntry(games, user, u, listId)
    {
      ListedUsers(games, listId, u);
    }
  }

  /** What `list_current_session_games` returns; with no active list the sub-query is NULL and matches no row. */
  function CurrentGames(lists: seq<GameList>, games: seq<GameEntry>, channelId: int, serverId: int): seq<Group> {
    match ActiveList(lists, channelId, serverId)
    case None => []
    case Some(listId) => Grouped(ListRows(games, listId))
  }

  /** The current listing shows exactly the active entries of the channel's active list, and nothing when there is none. */
  lemma CurrentGamesSpec(lists: seq<GameList>, games: seq<GameEntry>, channelId: int, serverId: int)
    requires OneActiveEntry(games)
    ensures var g := CurrentGames(lists, games, channelId, serverId);
      && Distinct(Keys(g))
      && (forall u :: u in Keys(g) <==> Lookup(g, u) != [])
      && (forall u :: Distinct(Lookup(g, u)))
      && (ActiveList(lists, channelId, serverId).None? ==> g == [])
      && (forall u, user, listId :: ActiveList(lists, channelId, serverId) == Some(listId) ==>
            (user in Lookup(g, u) <==> HasActiveEntry(games, user, u, listId)))
  {
    if ActiveList(lists, channelId, serverId).Some? {
      ListingSpec(games, ActiveList(lists, channelId, serverId).value);
    }
  }

  /** What `list_specific_session_games` returns. */
  function SessionGames(lists: seq<GameList>, games: seq<GameEntry>, serverId: int, name: string): Listing {
    var ids := NamedLists(lists, serverId, name);
    if |ids| > 1 then Message(AmbiguousName(|ids|))
    else if |ids| == 0 then Message(UnknownName(name))
    else Games(Grouped(ListRows(games, ids[0])))
  }

  /** With no list row of that name on the server, and only then, the name is reported as not found. */
  lemma SessionGamesUnknown(lists: seq<GameList>, games: seq<GameEntry>, serverId: int, name: string)
    ensures (forall k :: 0 <= k < |lists| ==> !Named(lists[k], serverId, name)) <==>
      SessionGames(lists, games, serverId, name) == Message(UnknownName(name))
  {
    var ids := NamedLists(lists, serverId, name);
    NamedListsSpec(lists, serverId, name);
    if |ids| == 0 {
      forall k | 0 <= k < |lists|
        ensures !Named(lists[k], serverId, name)
      {
        assert k !in ids;
      }
    } else {
      assert ids[0] in ids;
      if |ids| > 1 {
        assert AmbiguousName(|ids|)[0] != UnknownName(name)[0];
      }
    }
  }

  /** Two list rows of that name on the server (active or not) make the lookup report how many there are. */
  lemma SessionGamesAmbiguous(lists: seq<GameList>, games: seq<GameEntry>, serverId: int, name: string, k1: nat, k2: nat)
    requires k1 < k2 < |lists| && Named(lists[k1], serverId, name) && Named(lists[k2], serverId, name)
    ensures |NamedLists(lists, serverId, name)| >= 2
    ensures SessionGames(lists, games, serverId, name) == Message(AmbiguousName(|NamedLists(lists, serverId, name)|))
  {
    var ids := NamedLists(lists, serverId, name);
    NamedListsSpec(lists, serverId, name);
    assert k1 in ids && k2 in ids;
  }

  /**
   * With exactly one list row of that name on the server, the lookup lists
   * that list's active entries, whether or not the list is still active.
   */
  lemma SessionGamesSingle(lists: seq<GameList>, games: seq<GameEntry>, serverId: int, name: string, k: nat)
    requires OneActiveEntry(games)
    requires k < |lists| && Named(lists[k], serverId, name)
    requires forall j :: 0 <= j < |lists| && j != k ==> !Named(lists[j], serverId, name)
    ensures var r := SessionGames(lists, games, serverId, name);
      && r == Games(Grouped(ListRows(games, k)))
      && forall u, user :: user in Lookup(r.groups, u) <==> HasActiveEntry(games, user, u, k)
  {
    NamedListsSingle(lists, serverId, name, k);
    ListingSpec(games, k);
  }

  /** Closing a session, in any channel, does not change what the by-name listing returns. */
  lemma SessionGamesAfterClose(lists: seq<GameList>, games: seq<GameEntry>, channelId: int, serverId: int, server: int, name: string)
    ensures SessionGames(CloseSession(lists, channelId, serverId), games, server, name) == SessionGames(lists, games, server, name)
  {
    NamedListsIgnoreActive(lists, channelId, serverId, server, name);
  }

  /**
   * Closing a channel's session and then creating a new list there under
   * the same name leaves two rows of that name on the server, so the
   * by-name listing reports the name as ambiguous from then on.
   */
  lemma RecreatedNameAmbiguous(lists: seq<GameList>, games: seq<GameEntry>, name: string, serverName: string, serverId: int, channelId: int)
    requires Consistent(lists, games)
    requires ActiveList(lists, channelId, serverId).Some? && lists[ActiveList(lists, channelId, serverId).value].name == name
    ensures var after := WithActiveList(CloseSession(lists, channelId, serverId), name, serverName, serverId, channelId);
      SessionGames(after, games, serverId, name) == Message(AmbiguousName(|NamedLists(after, serverId, name)|))
  {
    var k := ActiveList(lists, channelId, serverId).value;
    var closed := CloseSession(lists, channelId, serverId);
    CloseSessionSpec(lists, games, channelId, serverId);
    WithActiveListSpec(closed, games, name, serverName, serverId, channelId);
    var after := WithActiveList(closed, name, serverName, serverId, channelId);
    assert after[k] == closed[k];
    SessionGamesAmbiguous(after, games, serverId, name, k, |closed|);
  }
}
