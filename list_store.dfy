/**
 * The bot's store functions as methods of one object holding both tables.
 * Each method is one database transaction: it runs the function's SQL
 * statements in order and returns the row count the function returns.
 */
module ListStore {
  import opened StoreTables

  /** The dictionary a listing function builds, one `append` per fetched row. */
  method GroupRows(rows: seq<Record>) returns (groups: seq<Group>)
    ensures groups == Grouped(rows)
  {
    groups := [];
    for i := 0 to |rows|
      invariant groups == Grouped(rows[..i])
    {
      assert rows[..i + 1][..i] == rows[..i];
      groups := Append(groups, rows[i].url, rows[i].user);
    }
    assert rows[..|rows|] == rows;
  }

  class Store {
    /** The `game_lists` table. */
    var lists: seq<GameList>
    /** The `games` table. */
    var games: seq<GameEntry>

    /** The constraints the database enforces. */
    ghost predicate Valid()
      reads this
    {
      Consistent(lists, games)
    }

    constructor ()
      ensures Valid() && lists == [] && games == []
    {
      lists := [];
      games := [];
    }

    /** `create_game_list`: 1 when a new active list was inserted, 0 when the channel already had one. */
    method CreateGameList(name: string, serverName: string, serverId: int, channelId: int) returns (inserted: nat)
      requires Valid()
      modifies this
      ensures Valid()
      ensures games == old(games)
      ensures lists == WithActiveList(old(lists), name, serverName, serverId, channelId)
      ensures inserted == (if ActiveList(old(lists), channelId, serverId).Some? then 0 else 1)
      ensures old(lists) <= lists && |lists| == |old(lists)| + inserted
      ensures ActiveList(lists, channelId, serverId).Some?
    {
      WithActiveListSpec(lists, games, name, serverName, serverId, channelId);
      if ActiveList(lists, channelId, serverId).None? {
        lists := lists + [GameList(|lists|, name, serverName, serverId, channelId, true)];
        inserted := 1;
      } else {
        inserted := 0;
      }
    }

    /**
     * `add_games`: make sure the channel has an active list, then insert one
     * active entry per URL unless the user already has one for it there.
     * Returns the number of entries inserted.
     */
    method AddGames(urls: seq<string>, user: string, name: string, serverName: string, serverId: int, channelId: int)
      returns (added: nat)
      requires Valid()
      modifies this
      ensures Valid()
      ensures lists == WithActiveList(old(lists), name, serverName, serverId, channelId)
      ensures ActiveList(lists, channelId, serverId).Some?
      ensures games == AddAll(old(games), urls, user, ActiveList(lists, channelId, serverId).value)
      ensures added == |games| - |old(games)|
      ensures added == |NewUrls(old(games), urls, user, ActiveList(lists, channelId, serverId).value)|
    {
      var _ := CreateGameList(name, serverName, serverId, channelId);
      ghost var start := games;
      ghost var listId := ActiveList(lists, channelId, serverId).value;
      added := 0;
      var i := 0;
      while i < |urls|
        invariant 0 <= i <= |urls|
        invariant Valid() && lists == WithActiveList(old(lists), name, serverName, serverId, channelId)
        invariant ActiveList(lists, channelId, serverId) == Some(listId)
        invariant AddAll(games, urls[i..], user, listId) == AddAll(start, urls, user, listId)
        invariant |games| == |start| + added
      {
        var list := ActiveList(lists, channelId, serverId);
        var url := urls[i];
        assert urls[i..] == [url] + urls[i + 1..];
        AddAllConsistent(lists, games, [url], user, list.value);
        if !HasActiveEntry(games, user, url, list.value) {
          games := games + [GameEntry(user, url, list.value, true)];
          added := added + 1;
        }
        i := i + 1;
      }
      assert urls[|urls|..] == [];
      AddAllCount(start, urls, user, listId);
    }

    /**
     * `remove_urls`: for each URL, deactivate the user's active entry for it
     * in the channel's active list. Returns the number of entries deactivated.
     */
    method RemoveUrls(urls: seq<string>, user: string, serverId: int, channelId: int) returns (removed: nat)
      requires Valid()
      modifies this
      ensures Valid() && lists == old(lists)
      ensures ActiveList(lists, channelId, serverId).None? ==> games == old(games) && removed == 0
      ensures ActiveList(lists, channelId, serverId).Some? ==>
        var listId := ActiveList(lists, channelId, serverId).value;
        && games == RemoveAll(old(games), urls, user, listId)
        && removed == CountTargeted(old(games), user, UrlSet(urls), listId)
    {
      removed := 0;
      var i := 0;
      while i < |urls|
        invariant 0 <= i <= |urls|
        invariant Valid() && lists == old(lists)
        invariant ActiveList(lists, channelId, serverId).None? ==> games == old(games) && removed == 0
        invariant ActiveList(lists, channelId, serverId).Some? ==>
          var listId := ActiveList(lists, channelId, serverId).value;
          && RemoveAll(games, urls[i..], user, listId) == RemoveAll(old(games), urls, user, listId)
          && removed + RemoveCount(games, urls[i..], user, listId) == RemoveCount(old(games), urls, user, listId)
      {
        var list := ActiveList(lists, channelId, serverId);
        var url := urls[i];
        assert urls[i..] == [url] + urls[i + 1..];
        if list.Some? {
          RemoveAllConsistent(lists, games, [url], user, list.value);
          assert [url][1..] == [];
          assert RemoveAll(games, [url], user, list.value) == Deactivate(games, user, url, list.value);
          removed := removed + CountActive(games, user, url, list.value);
          games := Deactivate(games, user, url, list.value);
        }
        i := i + 1;
      }
      assert urls[|urls|..] == [];
      if ActiveList(lists, channelId, serverId).Some? {
        RemoveAllSpec(old(games), urls, user, ActiveList(lists, channelId, serverId).value);
      }
    }

    /**
     * `clear_games_from_list`: deactivate every entry of the channel's active
     * list. Returns the number of entry rows of that list, inactive ones included.
     */
    method ClearGamesFromList(channelId: int, serverId: int) returns (cleared: nat)
      requires Valid()
      modifies this
      ensures Valid() && lists == old(lists)
      ensures ActiveList(lists, channelId, serverId).None? ==> games == old(games) && cleared == 0
      ensures ActiveList(lists, channelId, serverId).Some? ==>
        var listId := ActiveList(lists, channelId, serverId).value;
        && games == ClearList(old(games), listId)
        && cleared == CountList(old(games), listId)
    {
      var list := ActiveList(lists, channelId, serverId);
      if list.Some? {
        ClearListConsistent(lists, games, list.value);
        cleared := CountList(games, list.value);
        games := ClearList(games, list.value);
      } else {
        cleared := 0;
      }
    }

    /** `remove_session`: deactivate every list row of the channel. */
    method RemoveSession(channelId: int, serverId: int)
      requires Valid()
      modifies this
      ensures Valid() && games == old(games)
      ensures lists == CloseSession(old(lists), channelId, serverId)
    {
      CloseSessionSpec(lists, games, channelId, serverId);
      lists := CloseSession(lists, channelId, serverId);
    }

    /** `list_current_session_games`: the active entries of the channel's active list, grouped by URL. */
    method ListCurrentSessionGames(channelId: int, serverId: int) returns (groups: seq<Group>)
      ensures groups == CurrentGames(lists, games, channelId, serverId)
    {
      var list := ActiveList(lists, channelId, serverId);
      var records := if list.Some? then ListRows(games, list.value) else [];
      groups := GroupRows(records);
    }

    /**
     * `list_specific_session_games`: the active entries of the server's list
     * with that name, grouped by URL, or a message when the name matches no
     * list or more than one.
     */
    method ListSpecificSessionGames(serverId: int, name: string) returns (result: Listing)
      ensures result == SessionGames(lists, games, serverId, name)
    {
      var ids := NamedLists(lists, serverId, name);
      if |ids| > 1 {
        return Message(AmbiguousName(|ids|));
      } else if |ids| == 0 {
        return Message(UnknownName(name));
      }
      var groups := GroupRows(ListRows(games, ids[0]));
      result := Games(groups);
    }
  }
}
