/*
 * Command dispatch (Program.cs): a message whose trimmed text equals
 * "!leaderboard" or "!mysales", ignoring case, is answered with the
 * leaderboard or with the sender's total; any other message is answered
 * with nothing. The replies are modelled as the sequence of strings the
 * bot would post, in order.
 */
module Commands {

  import opened Wrappers
  import opened Numerals
  import opened Text
  import opened Messages
  import opened Leaderboard
  import opened SaleParser

  const LeaderboardCommand: string := "!leaderboard"
  const MySalesCommand: string := "!mysales"

  /** msg.Text.Trim().Equals(command, StringComparison.OrdinalIgnoreCase) */
  predicate IsCommand(text: string, command: string)
  {
    EqualsIgnoreCase(Trim(text), command)
  }

  predicate IsAnyCommand(text: string)
  {
    IsCommand(text, LeaderboardCommand) || IsCommand(text, MySalesCommand)
  }

  function NoSalesReply(user: string): string
  {
    user + ", you have no sales submitted today."
  }

  function TotalReply(user: string, total: nat): string
  {
    user + ", your total sales today: $" + FormatN2(total)
  }

  /** The !mysales answer: the sender's exact-name total if it is positive, otherwise the no-sales line. */
  function MySalesReply(user: string, sales: seq<Sale>): string
  {
    var myTotal := UserTotal(sales, user);
    if myTotal > 0 then TotalReply(user, myTotal) else NoSalesReply(user)
  }

  /** The answer to one message, if it is a command. */
  function Reply(m: Message, sales: seq<Sale>): Option<string>
  {
    if IsCommand(m.text, LeaderboardCommand) then Some(LeaderboardMessage(sales))
    else if IsCommand(m.text, MySalesCommand) then Some(MySalesReply(m.userName, sales))
    else None
  }

  /** A message gets an answer exactly when it is one of the two commands, and the answer is that command's. */
  lemma ReplyCases(m: Message, sales: seq<Sale>)
    ensures Reply(m, sales).Some? <==> IsAnyCommand(m.text)
    ensures IsCommand(m.text, LeaderboardCommand) ==> Reply(m, sales) == Some(LeaderboardMessage(sales))
    ensures IsCommand(m.text, MySalesCommand) ==> Reply(m, sales) == Some(MySalesReply(m.userName, sales))
  {
  }

  /** The replies to a run of messages, one per command, in message order. */
  function Replies(msgs: seq<Message>, sales: seq<Sale>): (r: seq<string>)
    ensures |r| <= |msgs|
  {
    if msgs == [] then []
    else Replies(msgs[..|msgs| - 1], sales) + ToSeq(Reply(msgs[|msgs| - 1], sales))
  }

  /** Every reply is the leaderboard or the !mysales answer to one of the senders. */
  lemma {:induction false} RepliesAreAnswers(msgs: seq<Message>, sales: seq<Sale>)
    ensures forall x :: x in Replies(msgs, sales) ==>
      x == LeaderboardMessage(sales) ||
      exists m :: m in msgs && IsCommand(m.text, MySalesCommand) && x == MySalesReply(m.userName, sales)
  {
    if msgs != [] {
      var init := msgs[..|msgs| - 1];
      var last := msgs[|msgs| - 1];
      RepliesAreAnswers(init, sales);
      assert forall m :: m in init ==> m in msgs;
      assert last in msgs;
    }
  }

  lemma {:induction false} RepliesAppend(a: seq<Message>, b: seq<Message>, sales: seq<Sale>)
    ensures Replies(a + b, sales) == Replies(a, sales) + Replies(b, sales)
  {
    if b == [] {
      assert a + b == a;
    } else {
      var b' := b[..|b| - 1];
      var tail := ToSeq(Reply(b[|b| - 1], sales));
      assert (a + b)[..|a + b| - 1] == a + b';
      assert (a + b)[|a + b| - 1] == b[|b| - 1];
      assert Replies(a + b, sales) == Replies(a + b', sales) + tail;
      RepliesAppend(a, b', sales);
      assert Replies(a, sales) + Replies(b', sales) + tail == Replies(a, sales) + (Replies(b', sales) + tail);
    }
  }

  /** The number of messages that are commands. */
  function CommandCount(msgs: seq<Message>): nat
  {
    if msgs == [] then 0
    else CommandCount(msgs[..|msgs| - 1]) + (if IsAnyCommand(msgs[|msgs| - 1].text) then 1 else 0)
  }

  /** Exactly one reply per command message. */
  lemma {:induction false} RepliesOnePerCommand(msgs: seq<Message>, sales: seq<Sale>)
    ensures |Replies(msgs, sales)| == CommandCount(msgs)
  {
    if msgs != [] {
      RepliesOnePerCommand(msgs[..|msgs| - 1], sales);
    }
  }

  /** Chatter gets no answer at all. */
  lemma {:induction false} NoCommandsNoReplies(msgs: seq<Message>, sales: seq<Sale>)
    requires forall k :: 0 <= k < |msgs| ==> !IsAnyCommand(msgs[k].text)
    ensures Replies(msgs, sales) == []
  {
    if msgs != [] {
      var init := msgs[..|msgs| - 1];
      assert forall k :: 0 <= k < |init| ==> init[k] == msgs[k];
      NoCommandsNoReplies(init, sales);
    }
  }

  /** A command is recognised whatever its letter case and whatever white space surrounds it. */
  lemma PaddedCommand(left: string, written: string, right: string, command: string)
    requires command == LeaderboardCommand || command == MySalesCommand
    requires EqualsIgnoreCase(written, command)
    requires AllWhiteSpace(left) && AllWhiteSpace(right)
    ensures IsCommand(left + written + right, command)
  {
    assert !IsWhiteSpace(ToUpperAscii(command[0]));
    assert !IsWhiteSpace(ToUpperAscii(command[|command| - 1]));
    TrimOfPadded(left, written, right);
  }

  /** Every character of a command is '!' or a lower-case ASCII letter. */
  predicate LowerCaseCommand(c: string)
  {
    forall k :: 0 <= k < |c| ==> c[k] == '!' || 'a' <= c[k] <= 'z'
  }

  /** t spells c, each letter in either case. */
  predicate CaseVariant(t: string, c: string)
  {
    && |t| == |c|
    && forall k :: 0 <= k < |c| ==> t[k] == c[k] || ('a' <= c[k] <= 'z' && t[k] as int == c[k] as int - 32)
  }

  lemma CommandsAreLowerCase()
    ensures LowerCaseCommand(LeaderboardCommand) && LowerCaseCommand(MySalesCommand)
  {
  }

  /**
   * A message is a command exactly when its trimmed text spells the command
   * with each letter in either case: nothing else is answered.
   */
  lemma CommandRecognition(text: string, command: string)
    requires command == LeaderboardCommand || command == MySalesCommand
    ensures IsCommand(text, command) <==> CaseVariant(Trim(text), command)
  {
    CommandsAreLowerCase();
    var t := Trim(text);
    if |t| == |command| {
      forall k | 0 <= k < |command|
        ensures ToUpperAscii(t[k]) == ToUpperAscii(command[k]) <==>
          t[k] == command[k] || ('a' <= command[k] <= 'z' && t[k] as int == command[k] as int - 32)
      {
        FoldMatches(t[k], command[k]);
      }
    }
  }

  /** Example: letter case and surrounding white space do not matter to !leaderboard. */
  lemma LeaderboardCommandExample()
    ensures IsCommand("  !LeaderBoard\n", LeaderboardCommand)
  {
    var written := "!LeaderBoard";
    assert EqualsIgnoreCase(written, LeaderboardCommand);
    PaddedCommand("  ", written, "\n", LeaderboardCommand);
    assert "  !LeaderBoard\n" == "  " + written + "\n";
  }

  /** Example: letter case and a trailing space do not matter to !mysales. */
  lemma MySalesCommandExample()
    ensures IsCommand("!MYSALES ", MySalesCommand)
  {
    var written := "!MYSALES";
    assert EqualsIgnoreCase(written, MySalesCommand);
    PaddedCommand("", written, " ", MySalesCommand);
    assert "!MYSALES " == "" + written + " ";
  }

  /** Examples: a message with any other word, or with the command split, is not a command. */
  lemma ChatterExamples()
    ensures !IsAnyCommand("!leaderboard please")
    ensures !IsAnyCommand("!my sales")
  {
    var t := "!leaderboard please";
    TrimOfPadded("", t, "");
    assert "" + t + "" == t;
    var u := "!my sales";
    TrimOfPadded("", u, "");
    assert "" + u + "" == u;
  }

  /** The two forms of the !mysales answer never coincide. */
  lemma ReplyFormsDiffer(user: string, total: nat)
    ensures TotalReply(user, total) != NoSalesReply(user)
  {
    var p := ", your total sales today: $";
    var q := ", you have no sales submitted today.";
    var a := user + p + FormatN2(total);
    var b := user + q;
    assert a == user + (p + FormatN2(total));
    assert a[|user| + 5] == p[5] == 'r';
    assert b[|user| + 5] == q[5] == ' ';
  }

  /** !mysales answers with the no-sales line exactly when none of the sender's sales is above zero. */
  lemma MySalesNoSales(user: string, sales: seq<Sale>)
    ensures MySalesReply(user, sales) == NoSalesReply(user) <==>
      forall k :: 0 <= k < |sales| && sales[k].userName == user ==> sales[k].amount == 0
  {
    UserTotalZero(sales, user);
    if UserTotal(sales, user) > 0 {
      ReplyFormsDiffer(user, UserTotal(sales, user));
    }
  }

  /** The dollar figure at the end of a total reply. */
  lemma TotalReplyFigure(user: string, total: nat)
    ensures TotalReply(user, total) == user + ", your total sales today: " + ("$" + FormatN2(total))
  {
  }

  /** Otherwise the figure in the answer reads back, through the sale parser, as the sender's total. */
  lemma MySalesFigureReadsBack(user: string, sales: seq<Sale>)
    requires UserTotal(sales, user) > 0
    ensures exists figure ::
      && MySalesReply(user, sales) == user + ", your total sales today: " + figure
      && TryParseSale(figure, user) == Some(Sale(UserTotal(sales, user), user))
  {
    var total := UserTotal(sales, user);
    var figure := "$" + FormatN2(total);
    assert MySalesReply(user, sales) == user + ", your total sales today: " + figure by {
      TotalReplyFigure(user, total);
    }
    assert TryParseSale(figure, user) == Some(Sale(total, user)) by {
      ParseFormattedAmount(total, user, "", true);
      assert figure + "" == figure;
    }
  }

  /** The figure !mysales reports is the sender's row on the leaderboard. */
  lemma MySalesMatchesLeaderboard(user: string, sales: seq<Sale>, i: nat)
    requires i < |Ranked(sales)| && Ranked(sales)[i].userName == user
    requires Ranked(sales)[i].total > 0
    ensures MySalesReply(user, sales) == TotalReply(user, Ranked(sales)[i].total)
  {
    RankedRowsAreGroups(sales);
  }
}
