/**
 * The replies of the `!list` command: which messages are sent for the
 * value a listing function returned, and the text of the listing itself.
 */
module ListReply {
  import opened StoreTables
  import Decimal

  const NoListReply := "This channel doesn't have any lists tied to it"
  const EmptyListReply := "No games are in the list!"

  /**
   * Python truthiness of the returned value: None, an empty string and an
   * empty dictionary are all false.
   */
  predicate Falsy(games: Option<Listing>) {
    match games
    case None => true
    case Some(Message(text)) => text == ""
    case Some(Games(groups)) => groups == []
  }

  /** `', '.join(users)` */
  function Join(users: seq<string>): string
    decreases |users|
  {
    if users == [] then ""
    else if |users| == 1 then users[0]
    else users[0] + ", " + Join(users[1..])
  }

  /** The two lines the listing shows for the URL at 1-based position `index`. */
  function Entry(index: nat, g: Group): string {
    Decimal.NatToString(index) + ":\t" + g.url + "\n\tRecommended by " + Join(g.users) + "\n"
  }

  /** The listing message, built as the loop builds it: one entry appended per URL. */
  function Formatted(groups: seq<Group>): string
    decreases |groups|
  {
    if groups == [] then ""
    else Formatted(groups[..|groups| - 1]) + Entry(|groups|, groups[|groups| - 1])
  }

  /** The same text read front to back, numbering from `start`. */
  function FormattedFrom(groups: seq<Group>, start: nat): string
    decreases |groups|
  {
    if groups == [] then ""
    else Entry(start, groups[0]) + FormattedFrom(groups[1..], start + 1)
  }

  /** The messages sent, in order, for the value a listing function returned. */
  function Replies(games: Option<Listing>): seq<string> {
    if Falsy(games) then [NoListReply]
    else if games.value.Message? then [games.value.text]
    else if |games.value.groups| < 1 then [EmptyListReply, Formatted(games.value.groups)]
    else [Formatted(games.value.groups)]
  }

  /** The reply code of `list_session_urls`, with its formatting loop. */
  method ListReplies(games: Option<Listing>) returns (sent: seq<string>)
    ensures sent == Replies(games)
  {
    if Falsy(games) {
      return [NoListReply];
    } else if games.value.Message? {
      return [games.value.text];
    }
    sent := [];
    var groups := games.value.groups;
    if |groups| < 1 {
      sent := sent + [EmptyListReply];
    }
    var message := "";
    for i := 0 to |groups|
      invariant message == Formatted(groups[..i])
    {
      assert groups[..i + 1][..i] == groups[..i];
      message := message + Entry(i + 1, groups[i]);
    }
    assert groups[..|groups|] == groups;
    sent := sent + [message];
  }

  /**
   * Exactly one message is sent whatever the listing function returned: an
   * empty dictionary is falsy and gets the no-list reply, so the "No games
   * are in the list!" branch is never taken. A non-empty message string is
   * sent as it is, and a non-empty dictionary as its listing.
   */
  lemma RepliesSpec(games: Option<Listing>)
    ensures |Replies(games)| == 1
    ensures EmptyListReply !in Replies(games) || games == Some(Message(EmptyListReply))
    ensures games == None || games == Some(Games([])) ==> Replies(games) == [NoListReply]
    ensures forall text :: games == Some(Message(text)) && text != "" ==> Replies(games) == [text]
    ensures forall groups :: games == Some(Games(groups)) && groups != [] ==> Replies(games) == [FormattedFrom(groups, 1)]
  {
    if games.Some? && games.value.Games? && games.value.groups != [] {
      FormattedFront(games.value.groups);
      assert Formatted(games.value.groups) != EmptyListReply by {
        var groups := games.value.groups;
        var n := |groups|;
        var text := Formatted(groups);
        assert text == Formatted(groups[..n - 1]) + Entry(n, groups[n - 1]);
        assert text[|text| - 1] == '\n';
      }
    }
  }

  lemma {:induction false} FormattedFromSnoc(groups: seq<Group>, g: Group, start: nat)
    ensures FormattedFrom(groups + [g], start) == FormattedFrom(groups, start) + Entry(start + |groups|, g)
    decreases |groups|
  {
    if groups == [] {
      assert groups + [g] == [g];
    } else {
      FormattedFromSnoc(groups[1..], g, start + 1);
      assert (groups + [g])[1..] == groups[1..] + [g];
      var head, rest, last := Entry(start, groups[0]), FormattedFrom(groups[1..], start + 1), Entry(start + |groups|, g);
      assert head + (rest + last) == (head + rest) + last;
    }
  }

  /** Appending entries one by one numbered 1, 2, ... gives the same text as numbering each from the front. */
  lemma {:induction false} FormattedFront(groups: seq<Group>)
    ensures Formatted(groups) == FormattedFrom(groups, 1)
    decreases |groups|
  {
    if groups != [] {
      var n := |groups| - 1;
      FormattedFront(groups[..n]);
      FormattedFromSnoc(groups[..n], groups[n], 1);
      assert groups[..n] + [groups[n]] == groups;
    }
  }

  function CountChar(s: string, c: char): nat
    decreases |s|
  {
    if s == [] then 0 else (if s[0] == c then 1 else 0) + CountChar(s[1..], c)
  }

  lemma {:induction false} CountCharAppend(a: string, b: string, c: char)
    ensures CountChar(a + b, c) == CountChar(a, c) + CountChar(b, c)
    decreases |a|
  {
    if a == [] {
      assert a + b == b;
    } else {
      CountCharAppend(a[1..], b, c);
      assert (a + b)[1..] == a[1..] + b;
    }
  }

  /** The joined users are separated by exactly one comma each when no name holds a comma. */
  lemma {:induction false} JoinCommas(users: seq<string>)
    requires forall k :: 0 <= k < |users| ==> CountChar(users[k], ',') == 0
    ensures CountChar(Join(users), ',') == if users == [] then 0 else |users| - 1
    decreases |users|
  {
    if |users| > 1 {
      JoinCommas(users[1..]);
      CountCharAppend(users[0], ", ", ',');
      CountCharAppend(users[0] + ", ", Join(users[1..]), ',');
    }
  }

  /** Text of tabs and printable characters holds no line break. */
  lemma {:induction false} NoLineBreak(s: string)
    requires forall k :: 0 <= k < |s| ==> s[k] == '\t' || ' ' <= s[k]
    ensures CountChar(s, '\n') == 0
    decreases |s|
  {
    if s != [] {
      NoLineBreak(s[1..]);
    }
  }

  /** The digits of a number hold no newline. */
  lemma NoNewlineInNumber(n: nat)
    ensures CountChar(Decimal.NatToString(n), '\n') == 0
  {
    var s := Decimal.NatToString(n);
    DigitsNoChar(s, '\n');
  }

  lemma {:induction false} DigitsNoChar(s: string, c: char)
    requires Decimal.AllDigits(s) && !Decimal.IsDigit(c)
    ensures CountChar(s, c) == 0
    decreases |s|
  {
    if s != [] {
      DigitsNoChar(s[1..], c);
    }
  }

  /** An entry is two lines when neither the URL nor a user name holds a line break. */
  lemma EntryLines(index: nat, g: Group)
    requires CountChar(g.url, '\n') == 0
    requires forall j :: 0 <= j < |g.users| ==> CountChar(g.users[j], '\n') == 0
    ensures CountChar(Entry(index, g), '\n') == 2
  {
    NoNewlineInNumber(index);
    JoinNoChar(g.users, '\n');
    EntryBreaks(Decimal.NatToString(index), g.url, Join(g.users));
  }

  lemma EntryBreaks(num: string, url: string, joined: string)
    ensures CountChar(num + ":\t" + url + "\n\tRecommended by " + joined + "\n", '\n') ==
      CountChar(num, '\n') + CountChar(url, '\n') + CountChar(joined, '\n') + 2
  {
    var a := num + ":\t";
    var b := a + url;
    var c := b + "\n\tRecommended by ";
    var d := c + joined;
    CountCharAppend(num, ":\t", '\n');
    CountCharAppend(a, url, '\n');
    CountCharAppend(b, "\n\tRecommended by ", '\n');
    CountCharAppend(c, joined, '\n');
    CountCharAppend(d, "\n", '\n');
    EntryPunctuation();
  }

  /** The fixed text of an entry holds two line breaks: one after the URL, one at the end. */
  lemma EntryPunctuation()
    ensures CountChar(":\t", '\n') == 0
    ensures CountChar("\n\tRecommended by ", '\n') == 1
    ensures CountChar("\n", '\n') == 1
  {
    var colon, caption := ":\t", "\n\tRecommended by ";
    assert forall k :: 0 <= k < |colon| ==> colon[k] == '\t' || ' ' <= colon[k];
    NoLineBreak(colon);
    assert forall k :: 0 <= k < |caption[1..]| ==> caption[1..][k] == '\t' || ' ' <= caption[1..][k];
    NoLineBreak(caption[1..]);
  }

  /**
   * When no URL and no user name holds a line break, the listing has
   * exactly two lines per URL.
   */
  lemma {:induction false} FormattedLines(groups: seq<Group>)
    requires forall k :: 0 <= k < |groups| ==> CountChar(groups[k].url, '\n') == 0
    requires forall k, j :: 0 <= k < |groups| && 0 <= j < |groups[k].users| ==> CountChar(groups[k].users[j], '\n') == 0
    ensures CountChar(Formatted(groups), '\n') == 2 * |groups|
    decreases |groups|
  {
    if groups != [] {
      var n := |groups| - 1;
      FormattedLines(groups[..n]);
      EntryLines(n + 1, groups[n]);
      CountCharAppend(Formatted(groups[..n]), Entry(n + 1, groups[n]), '\n');
    }
  }

  lemma {:induction false} JoinNoChar(users: seq<string>, c: char)
    requires c != ',' && c != ' '
    requires forall j :: 0 <= j < |users| ==> CountChar(users[j], c) == 0
    ensures CountChar(Join(users), c) == 0
    decreases |users|
  {
    if |users| > 1 {
      JoinNoChar(users[1..], c);
      CountCharAppend(users[0], ", ", c);
      CountCharAppend(users[0] + ", ", Join(users[1..]), c);
    }
  }
}
