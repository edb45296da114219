/*
 * The bot's state and its two top-level flows (Program.cs): the listen
 * loop's watermark state machine, one poll at a time, and the one-shot
 * fetch. The static sales list and the listen loop's lastMessageId are the
 * two fields of class Bot; posting a reply is modelled by returning it.
 */
module Bot {

  import opened Wrappers
  import opened Messages
  import opened SaleParser
  import opened Leaderboard
  import opened Commands
  import opened Fetcher

  /** messages.FindIndex(m => m.Id == id): the first index holding id, or -1. */
  function FindIndex(window: seq<Message>, id: string): (idx: int)
    ensures -1 <= idx < |window|
    ensures idx == -1 <==> forall i :: 0 <= i < |window| ==> window[i].id != id
    ensures idx >= 0 ==> window[idx].id == id && forall i :: 0 <= i < idx ==> window[i].id != id
  {
    if window == [] then -1
    else if window[0].id == id then 0
    else
      var rest := FindIndex(window[1..], id);
      if rest == -1 then -1 else rest + 1
  }

  /** Position i holds the first occurrence of id. */
  predicate FirstAt(window: seq<Message>, id: string, i: nat)
    requires i < |window|
  {
    window[i].id == id && forall j :: 0 <= j < i ==> window[j].id != id
  }

  /** The messages of the fetched window (newest first) that the listen loop treats as new. */
  function NewMessages(watermark: Option<string>, window: seq<Message>): (unseen: seq<Message>)
    ensures unseen <= window
    ensures watermark.None? ==> unseen == window
    ensures watermark.Some? ==> forall i :: 0 <= i < |unseen| ==> unseen[i].id != watermark.value
    ensures watermark.Some? && unseen != [] ==> |unseen| < |window| && window[|unseen|].id == watermark.value
    ensures watermark.Some? ==>
      forall i :: 0 < i < |window| && FirstAt(window, watermark.value, i) ==> unseen == window[..i]
  {
    match watermark
    case None => window
    case Some(id) =>
      var idx := FindIndex(window, id);
      if idx > 0 then window[..idx] else []
  }

  /** A watermark at the head of the window, or one the window no longer holds, makes nothing new. */
  lemma NothingNewCases(id: string, window: seq<Message>)
    requires (window != [] && window[0].id == id) || forall i :: 0 <= i < |window| ==> window[i].id != id
    ensures NewMessages(Some(id), window) == []
  {
    var idx := FindIndex(window, id);
    assert idx <= 0;
  }

  /** With the watermark on the newest message seen, the next window's new messages are exactly those posted since. */
  lemma PostedSinceAreNew(posted: seq<Message>, window: seq<Message>)
    requires window != []
    requires forall i :: 0 <= i < |posted| ==> posted[i].id != window[0].id
    ensures NewMessages(Some(window[0].id), posted + window) == posted
  {
    var all := posted + window;
    assert all[|posted|] == window[0];
    assert forall j :: 0 <= j < |posted| ==> all[j] == posted[j];
    if posted != [] {
      assert all[..|posted|] == posted;
    } else {
      NothingNewCases(window[0].id, all);
    }
  }

  /**
   * With the code as written, a watermark the window no longer holds finds
   * nothing new, so PollStep keeps that watermark: as long as the id stays
   * out of the window, every poll is silent, whatever the window holds.
   */
  lemma LostWatermarkIsFixed(id: string, window: seq<Message>)
    requires forall i :: 0 <= i < |window| ==> window[i].id != id
    ensures NewMessages(Some(id), window) == []
    ensures IntendedNewMessages(Some(id), window) == window
  {
    NothingNewCases(id, window);
    assert FindIndex(window, id) == -1;
  }

  /** Example: a command posted after the watermark scrolled out of the window gets no answer. */
  lemma LostWatermarkExample()
    ensures var window := [Message("!leaderboard", "Ann", 0, "m2")];
      NewMessages(Some("m1"), window) == [] && IntendedNewMessages(Some("m1"), window) == window
  {
    var window := [Message("!leaderboard", "Ann", 0, "m2")];
    LostWatermarkIsFixed("m1", window);
  }

  /**
   * The detection the watermark is meant for: the messages before its first
   * position, or the whole window when the window no longer holds it (more
   * was posted than one window holds).
   */
  function IntendedNewMessages(watermark: Option<string>, window: seq<Message>): (unseen: seq<Message>)
    ensures unseen <= window
  {
    match watermark
    case None => window
    case Some(id) =>
      var idx := FindIndex(window, id);
      if idx == -1 then window else window[..idx]
  }

  /**
   * The new messages are the longest prefix of the window without the
   * watermark; they are none exactly when the window is empty or starts with
   * the watermark; and wherever the window holds the watermark, the code as
   * written agrees.
   */
  lemma IntendedNewMessagesMeaning(id: string, window: seq<Message>)
    ensures var unseen := IntendedNewMessages(Some(id), window);
      && (forall i :: 0 <= i < |unseen| ==> unseen[i].id != id)
      && (|unseen| == |window| || window[|unseen|].id == id)
    ensures IntendedNewMessages(Some(id), window) == [] <==> window == [] || window[0].id == id
    ensures FindIndex(window, id) != -1 ==> IntendedNewMessages(Some(id), window) == NewMessages(Some(id), window)
  {
    var idx := FindIndex(window, id);
    if idx != -1 {
      assert window[..idx] == IntendedNewMessages(Some(id), window);
      assert forall i :: 0 <= i < idx ==> window[..idx][i] == window[i];
    }
  }

  /** messages.Take(10) */
  function Take(msgs: seq<Message>, n: nat): (r: seq<Message>)
    ensures r <= msgs && |r| == if |msgs| < n then |msgs| else n
  {
    if |msgs| <= n then msgs else msgs[..n]
  }

  class Bot {
    /** The static list of today's sales. */
    var sales: seq<Sale>
    /** The id of the newest message the listen loop has seen; None stands for null. */
    var lastMessageId: Option<string>

    constructor ()
      ensures sales == [] && lastMessageId == None
    {
      sales := [];
      lastMessageId := None;
    }

    /**
     * The start of ListenForCommandsAsync: the watermark is the id of the
     * newest message at that moment, FirstOrDefault().Id, which is null when
     * the startup fetch is empty.
     */
    method StartListening(initial: seq<Message>)
      modifies this
      ensures initial == [] ==> lastMessageId == None
      ensures initial != [] ==> lastMessageId == Some(initial[0].id)
      ensures sales == old(sales)
    {
      if |initial| == 0 {
        lastMessageId := None;
      } else {
        lastMessageId := Some(initial[0].id);
      }
    }

    /** sales.Clear(), then one Add per message that parses as a sale. */
    method RebuildSales(msgs: seq<Message>)
      modifies this
      ensures sales == SalesIn(msgs)
      ensures lastMessageId == old(lastMessageId)
    {
      sales := [];
      for i := 0 to |msgs|
        invariant sales == SalesIn(msgs[..i])
        invariant lastMessageId == old(lastMessageId)
      {
        assert msgs[..i + 1][..i] == msgs[..i];
        var entry := TryParseSale(msgs[i].text, msgs[i].userName);
        if entry.Some? {
          sales := sales + [entry.value];
        }
      }
      assert msgs[..|msgs|] == msgs;
    }

    /** The command loop: one reply per command, against the current sales, in message order. */
    method DispatchCommands(msgs: seq<Message>) returns (replies: seq<string>)
      ensures replies == Replies(msgs, sales)
    {
      replies := [];
      for i := 0 to |msgs|
        invariant replies == Replies(msgs[..i], sales)
      {
        assert Replies(msgs[..i + 1], sales) == Replies(msgs[..i], sales) + ToSeq(Reply(msgs[i], sales)) by {
          assert msgs[..i + 1][..i] == msgs[..i];
        }
        var msg := msgs[i];
        if IsCommand(msg.text, LeaderboardCommand) {
          var leaderboard := BuildLeaderboardMessage(sales);
          replies := replies + [leaderboard];
        } else if IsCommand(msg.text, MySalesCommand) {
          var myTotal := UserTotal(sales, msg.userName);
          var reply := if myTotal > 0 then TotalReply(msg.userName, myTotal) else NoSalesReply(msg.userName);
          replies := replies + [reply];
        }
      }
      assert msgs[..|msgs|] == msgs;
    }

    /**
     * One pass of the listen loop: window is the latest fetch (newest first),
     * pages and today drive the fetch of the whole day. When something is new,
     * the sales are rebuilt from the day's messages before the new commands are
     * answered and the watermark moves to the newest message.
     */
    method PollStep(window: seq<Message>, pages: seq<seq<Message>>, today: int) returns (replies: seq<string>)
      modifies this
      ensures var unseen := NewMessages(old(lastMessageId), window);
        if unseen == [] then
          sales == old(sales) && lastMessageId == old(lastMessageId) && replies == []
        else
          && sales == SalesIn(CollectToday(pages, today))
          && lastMessageId == Some(window[0].id)
          && replies == Replies(unseen, sales)
    {
      var newMessages: seq<Message> := [];
      if lastMessageId.Some? {
        var idx := FindIndex(window, lastMessageId.value);
        if idx > 0 {
          newMessages := window[..idx];
        }
      } else {
        newMessages := window;
      }
      replies := [];
      if |newMessages| > 0 {
        var allTodayMessages, _ := FetchAllToday(pages, today);
        RebuildSales(allTodayMessages);
        replies := DispatchCommands(newMessages);
        lastMessageId := Some(window[0].id);
      }
    }

    /**
     * ProcessGroupMeCommandsAndSales: rebuild the sales from the fetched
     * messages, answer the commands among the first ten, then post the
     * leaderboard once more.
     */
    method FetchSnapshot(messages: seq<Message>) returns (replies: seq<string>)
      modifies this
      ensures sales == SalesIn(messages)
      ensures lastMessageId == old(lastMessageId)
      ensures replies == Replies(Take(messages, 10), sales) + [LeaderboardMessage(sales)]
    {
      RebuildSales(messages);
      replies := DispatchCommands(Take(messages, 10));
      var leaderboardMsg := BuildLeaderboardMessage(sales);
      replies := replies + [leaderboardMsg];
    }
  }

  /** The one-shot fetch posts at most eleven messages and always ends with the leaderboard. */
  lemma SnapshotReplyShape(messages: seq<Message>, sales: seq<Sale>)
    ensures var replies := Replies(Take(messages, 10), sales) + [LeaderboardMessage(sales)];
      |replies| <= 11 && replies[|replies| - 1] == LeaderboardMessage(sales)
  {
  }
}
