/**
 * BuildLeaderboardMessage (Program.cs): sales grouped by user in order of
 * first appearance, summed, ordered by total with a stable descending sort
 * (LINQ OrderByDescending) and rendered as a numbered list with medals on
 * the first three rows.
 */
module Leaderboard {

  import opened Numerals
  import opened Text
  import opened Messages

  /** One line of the board: a user and the sum of the user's sales, in cents. */
  datatype Row = Row(userName: string, total: nat)

  /** sales.Where(s => s.UserName == user).Sum(s => s.Amount): also the figure !mysales reports. */
  function UserTotal(sales: seq<Sale>, user: string): nat
  {
    if sales == [] then 0
    else
      var last := sales[|sales| - 1];
      UserTotal(sales[..|sales| - 1], user) + (if last.userName == user then last.amount else 0)
  }

  lemma {:induction false} UserTotalAppend(a: seq<Sale>, b: seq<Sale>, user: string)
    ensures UserTotal(a + b, user) == UserTotal(a, user) + UserTotal(b, user)
  {
    if b == [] {
      assert a + b == a;
    } else {
      assert (a + b)[..|a + b| - 1] == a + b[..|b| - 1];
      assert (a + b)[|a + b| - 1] == b[|b| - 1];
      UserTotalAppend(a, b[..|b| - 1], user);
    }
  }

  /** A total is zero exactly when every one of the user's sales is for zero. */
  lemma {:induction false} UserTotalZero(sales: seq<Sale>, user: string)
    ensures UserTotal(sales, user) == 0 <==>
      forall k :: 0 <= k < |sales| && sales[k].userName == user ==> sales[k].amount == 0
  {
    if sales != [] {
      var init := sales[..|sales| - 1];
      UserTotalZero(init, user);
      assert forall k :: 0 <= k < |init| ==> init[k] == sales[k];
    }
  }

  /** The index of the first sale by user, or |sales| when there is none. */
  function FirstAppearance(sales: seq<Sale>, user: string): (f: nat)
    ensures f <= |sales|
    ensures f < |sales| ==> sales[f].userName == user
    ensures forall k :: 0 <= k < f && k < |sales| ==> sales[k].userName != user
  {
    if sales == [] then 0
    else
      var init := sales[..|sales| - 1];
      var f := FirstAppearance(init, user);
      if f < |init| then f
      else if sales[|sales| - 1].userName == user then |init|
      else |sales|
  }

  /** The keys of sales.GroupBy(s => s.UserName): each user once, in order of first appearance. */
  function Users(sales: seq<Sale>): (users: seq<string>)
    ensures forall i, j :: 0 <= i < j < |users| ==> users[i] != users[j]
    ensures forall k :: 0 <= k < |sales| ==> sales[k].userName in users
    ensures forall i :: 0 <= i < |users| ==> FirstAppearance(sales, users[i]) < |sales|
    ensures forall i, j :: 0 <= i < j < |users| ==>
      FirstAppearance(sales, users[i]) < FirstAppearance(sales, users[j])
  {
    if sales == [] then []
    else
      var init := sales[..|sales| - 1];
      var last := sales[|sales| - 1];
      var previous := Users(init);
      assert sales == init + [last];
      FirstAppearancesKept(init, last, previous);
      if last.userName in previous then previous
      else
        FirstAppearanceOfNewcomer(init, last, previous);
        previous + [last.userName]
  }

  /** Appending a sale leaves the first appearance of every earlier seller where it was. */
  lemma FirstAppearancesKept(init: seq<Sale>, last: Sale, users: seq<string>)
    requires forall i :: 0 <= i < |users| ==> FirstAppearance(init, users[i]) < |init|
    ensures forall i :: 0 <= i < |users| ==> FirstAppearance(init + [last], users[i]) == FirstAppearance(init, users[i])
    ensures forall k :: 0 <= k < |init| ==> (init + [last])[k] == init[k]
  {
    assert (init + [last])[..|init|] == init;
  }

  /** A seller not seen before first appears with the appended sale. */
  lemma FirstAppearanceOfNewcomer(init: seq<Sale>, last: Sale, users: seq<string>)
    requires forall k :: 0 <= k < |init| ==> init[k].userName in users
    requires last.userName !in users
    ensures FirstAppearance(init + [last], last.userName) == |init|
  {
    assert FirstAppearance(init, last.userName) == |init|;
    assert (init + [last])[..|init|] == init;
  }

  /**
   * sales.GroupBy(...).Select(g => new { UserName = g.Key, Total = g.Sum(...) }).
   * The ensures only unfold the body for later proofs; what the rows mean is
   * stated by RankedRowsAreGroups.
   */
  function Groups(sales: seq<Sale>): (rows: seq<Row>)
    ensures |rows| == |Users(sales)|
    ensures forall i :: 0 <= i < |rows| ==> rows[i] == Row(Users(sales)[i], UserTotal(sales, Users(sales)[i]))
  {
    var users := Users(sales);
    seq(|users|, i requires 0 <= i < |users| => Row(users[i], UserTotal(sales, users[i])))
  }

  /** Place x in front of the first row whose total does not exceed its own. */
  function InsertByTotal(x: Row, sorted: seq<Row>): (r: seq<Row>)
    ensures multiset(r) == multiset(sorted) + multiset{x}
    ensures forall y :: y in r <==> y == x || y in sorted
  {
    if sorted == [] || x.total >= sorted[0].total then [x] + sorted
    else
      assert sorted == [sorted[0]] + sorted[1..];
      [sorted[0]] + InsertByTotal(x, sorted[1..])
  }

  /** OrderByDescending(x => x.Total), a stable sort: insertion sort that puts a row before the equal rows that follow it. */
  function SortByTotal(rows: seq<Row>): (r: seq<Row>)
    ensures multiset(r) == multiset(rows)
    ensures forall y :: y in r <==> y in rows
  {
    if rows == [] then []
    else
      assert rows == [rows[0]] + rows[1..];
      InsertByTotal(rows[0], SortByTotal(rows[1..]))
  }

  /** a belongs above b: a larger total, or the same total and a user who appeared first. */
  ghost predicate RanksAbove(a: Row, b: Row, sales: seq<Sale>)
  {
    || a.total > b.total
    || (a.total == b.total && FirstAppearance(sales, a.userName) < FirstAppearance(sales, b.userName))
  }

  /**
   * The order the board promises: totals never increase, and equal totals
   * keep the order in which their users first appear among the sales.
   */
  ghost predicate InRankOrder(rows: seq<Row>, sales: seq<Sale>)
  {
    forall i, j :: 0 <= i < j < |rows| ==> RanksAbove(rows[i], rows[j], sales)
  }

  lemma RankOrderCons(head: Row, tail: seq<Row>, sales: seq<Sale>)
    requires InRankOrder(tail, sales)
    requires forall y :: y in tail ==> RanksAbove(head, y, sales)
    ensures InRankOrder([head] + tail, sales)
  {
    var r := [head] + tail;
    forall i, j | 0 <= i < j < |r|
      ensures RanksAbove(r[i], r[j], sales)
    {
      assert r[j] == tail[j - 1];
      if i > 0 {
        assert r[i] == tail[i - 1];
      }
    }
  }

  lemma RankOrderUncons(rows: seq<Row>, sales: seq<Sale>)
    requires rows != [] && InRankOrder(rows, sales)
    ensures InRankOrder(rows[1..], sales)
    ensures forall y :: y in rows[1..] ==> RanksAbove(rows[0], y, sales)
  {
    var tail := rows[1..];
    forall i, j | 0 <= i < j < |tail|
      ensures RanksAbove(tail[i], tail[j], sales)
    {
      assert tail[i] == rows[i + 1] && tail[j] == rows[j + 1];
    }
    forall y | y in tail
      ensures RanksAbove(rows[0], y, sales)
    {
      var k :| 0 <= k < |tail| && tail[k] == y;
      assert rows[k + 1] == y;
    }
  }

  lemma {:induction false} InsertInRankOrder(x: Row, sorted: seq<Row>, sales: seq<Sale>)
    requires InRankOrder(sorted, sales)
    requires forall y :: y in sorted ==> FirstAppearance(sales, x.userName) < FirstAppearance(sales, y.userName)
    ensures InRankOrder(InsertByTotal(x, sorted), sales)
  {
    if sorted == [] {
      RankOrderCons(x, sorted, sales);
    } else if x.total >= sorted[0].total {
      RankOrderUncons(sorted, sales);
      forall y | y in sorted
        ensures RanksAbove(x, y, sales)
      {
        assert y == sorted[0] || y in sorted[1..];
      }
      RankOrderCons(x, sorted, sales);
    } else {
      var tail := sorted[1..];
      RankOrderUncons(sorted, sales);
      assert forall y :: y in tail ==> y in sorted;
      InsertInRankOrder(x, tail, sales);
      RankOrderCons(sorted[0], InsertByTotal(x, tail), sales);
    }
  }

  /** A stable sort of rows whose users appear in first-appearance order puts them in rank order. */
  lemma {:induction false} SortInRankOrder(rows: seq<Row>, sales: seq<Sale>)
    requires forall i, j :: 0 <= i < j < |rows| ==>
      FirstAppearance(sales, rows[i].userName) < FirstAppearance(sales, rows[j].userName)
    ensures InRankOrder(SortByTotal(rows), sales)
  {
    if rows != [] {
      var tail := rows[1..];
      SortInRankOrder(tail, sales);
      forall y | y in tail
        ensures FirstAppearance(sales, rows[0].userName) < FirstAppearance(sales, y.userName)
      {
        var k :| 0 <= k < |tail| && tail[k] == y;
        assert rows[k + 1] == y;
      }
      InsertInRankOrder(rows[0], SortByTotal(tail), sales);
    }
  }

  /** The board's rows: the groups in rank order. */
  function Ranked(sales: seq<Sale>): seq<Row>
  {
    SortByTotal(Groups(sales))
  }

  /** Each row of the board is a group: a seller and that seller's exact total. */
  lemma RankedRowsAreGroups(sales: seq<Sale>)
    ensures var rows := Ranked(sales);
      && |rows| == |Users(sales)|
      && forall i :: 0 <= i < |rows| ==>
           rows[i].userName in Users(sales) && rows[i].total == UserTotal(sales, rows[i].userName)
  {
    var groups := Groups(sales);
    var rows := Ranked(sales);
    assert |rows| == |groups| by {
      assert |multiset(rows)| == |multiset(groups)|;
    }
    forall i | 0 <= i < |rows|
      ensures rows[i].userName in Users(sales) && rows[i].total == UserTotal(sales, rows[i].userName)
    {
      assert rows[i] in groups;
      var g :| 0 <= g < |groups| && groups[g] == rows[i];
    }
  }

  /** Every seller has a row. */
  lemma EverySellerRanked(sales: seq<Sale>)
    ensures forall k :: 0 <= k < |sales| ==>
      exists i :: 0 <= i < |Ranked(sales)| && Ranked(sales)[i].userName == sales[k].userName
  {
    var groups := Groups(sales);
    var rows := Ranked(sales);
    var users := Users(sales);
    forall k | 0 <= k < |sales|
      ensures exists i :: 0 <= i < |rows| && rows[i].userName == sales[k].userName
    {
      var u := sales[k].userName;
      var g :| 0 <= g < |users| && users[g] == u;
      assert groups[g] in rows;
      var i :| 0 <= i < |rows| && rows[i] == groups[g];
      assert rows[i].userName == u;
    }
  }

  /**
   * The order of the board: totals never increase down the board, and
   * equal totals keep the order of their users' first sales; so no user
   * has two rows (user names compared exactly).
   */
  lemma RankedOrder(sales: seq<Sale>)
    ensures var rows := Ranked(sales);
      && InRankOrder(rows, sales)
      && (forall i, j :: 0 <= i < j < |rows| ==> rows[i].total >= rows[j].total)
      && (forall i, j :: 0 <= i < j < |rows| ==> rows[i].userName != rows[j].userName)
  {
    var rows := Ranked(sales);
    SortInRankOrder(Groups(sales), sales);
    RankedRowsAreGroups(sales);
    forall i, j | 0 <= i < j < |rows|
      ensures rows[i].total >= rows[j].total && rows[i].userName != rows[j].userName
    {
      assert RanksAbove(rows[i], rows[j], sales);
    }
  }

  const Header := "Today's Sales Leaderboard:"
  const NoSales := "No sales submitted today."
  const Emojis: seq<string> := ["\U{1F947}", "\U{1F948}", "\U{1F949}"]

  /** The medal and its trailing space for ranks 1 to 3, nothing from rank 4 on. */
  function Medal(rank: nat): string
  {
    if 1 <= rank <= 3 then Emojis[rank - 1] + " " else ""
  }

  /** Gold, silver and bronze, each with its space, on the first three ranks only. */
  lemma PodiumMedals(rank: nat)
    ensures Medal(1) == "\U{1F947} " && Medal(2) == "\U{1F948} " && Medal(3) == "\U{1F949} "
    ensures Medal(rank) != "" <==> 1 <= rank <= 3
  {
  }

  /** "{medal }{rank}. {user}: ${total:N2}" */
  function RowLine(rank: nat, row: Row): string
  {
    Medal(rank) + NatToString(rank) + ". " + row.userName + ": $" + FormatN2(row.total)
  }

  /**
   * The line of each row, ranked from 1. The ensures only unfold the body for
   * later proofs; the layout is stated by LeaderboardLayout.
   */
  function RowLines(rows: seq<Row>): (lines: seq<string>)
    ensures |lines| == |rows|
    ensures forall i :: 0 <= i < |rows| ==> lines[i] == RowLine(i + 1, rows[i])
  {
    seq(|rows|, i requires 0 <= i < |rows| => RowLine(i + 1, rows[i]))
  }

  /** What the rendering loop appends: each line followed by a line break. */
  function Terminated(lines: seq<string>): string
  {
    if lines == [] then ""
    else Terminated(lines[..|lines| - 1]) + lines[|lines| - 1] + "\n"
  }

  /** The lines as a reader sees them under the header: each one preceded by a line break. */
  function Joined(lines: seq<string>): string
  {
    if lines == [] then ""
    else Joined(lines[..|lines| - 1]) + "\n" + lines[|lines| - 1]
  }

  lemma {:induction false} TerminatedIsJoined(lines: seq<string>)
    ensures "\n" + Terminated(lines) == Joined(lines) + "\n"
  {
    if lines != [] {
      var init := lines[..|lines| - 1];
      var last := lines[|lines| - 1];
      TerminatedIsJoined(init);
      calc {
        "\n" + Terminated(lines);
        "\n" + (Terminated(init) + last + "\n");
        ("\n" + Terminated(init)) + last + "\n";
        (Joined(init) + "\n") + last + "\n";
        Joined(lines) + "\n";
      }
    }
  }

  /** BuildLeaderboardMessage's result for the given sales. */
  function LeaderboardMessage(sales: seq<Sale>): string
  {
    if sales == [] then NoSales
    else TrimEnd(Header + "\n" + Terminated(RowLines(Ranked(sales))))
  }

  /** No sales: the fixed message, no header and no medal. */
  lemma EmptyLeaderboard()
    ensures LeaderboardMessage([]) == "No sales submitted today."
  {
  }

  lemma RankedNonEmpty(sales: seq<Sale>)
    requires sales != []
    ensures Ranked(sales) != []
  {
    RankedRowsAreGroups(sales);
    assert sales[0].userName in Users(sales);
  }

  /** A row line ends in the last digit of the row's amount. */
  lemma RowLineEndsInDigit(rank: nat, row: Row)
    ensures var line := RowLine(rank, row); var amount := FormatN2(row.total);
      && line != [] && IsDigit(line[|line| - 1])
      && line[|line| - 1] == amount[|amount| - 1]
  {
    var amount := FormatN2(row.total);
    var line := RowLine(rank, row);
    assert line == (Medal(rank) + NatToString(rank) + ". " + row.userName + ": $") + amount;
    assert line[|line| - 1] == amount[|amount| - 1];
  }

  /** Joined ends with the last character of the last line. */
  lemma JoinedEnd(lines: seq<string>)
    requires lines != [] && lines[|lines| - 1] != []
    ensures var body := Joined(lines); var last := lines[|lines| - 1];
      body != [] && body[|body| - 1] == last[|last| - 1]
  {
    var last := lines[|lines| - 1];
    var front := Joined(lines[..|lines| - 1]) + "\n";
    assert Joined(lines) == front + last;
  }

  lemma LastOfAppend(a: string, b: string)
    requires b != []
    ensures (a + b)[|a + b| - 1] == b[|b| - 1]
  {
  }

  /** TrimEnd takes off the final line break and nothing else when the last line ends in a digit. */
  lemma TrimmedBody(lines: seq<string>)
    requires lines != []
    requires var last := lines[|lines| - 1]; last != [] && IsDigit(last[|last| - 1])
    ensures TrimEnd(Header + "\n" + Terminated(lines)) == Header + Joined(lines)
  {
    var body := Joined(lines);
    assert Header + "\n" + Terminated(lines) == (Header + body) + "\n" by {
      TerminatedIsJoined(lines);
      assert Header + "\n" + Terminated(lines) == Header + ("\n" + Terminated(lines));
      assert (Header + body) + "\n" == Header + (body + "\n");
    }
    assert !IsWhiteSpace((Header + body)[|Header + body| - 1]) by {
      JoinedEnd(lines);
      LastOfAppend(Header, body);
    }
    TrimEndOfPadded(Header + body, "\n");
  }

  /**
   * Layout of a non-empty board: the header, then for rank 1, 2, ... a line
   * break and that row's line, and nothing after the last amount.
   */
  lemma LeaderboardLayout(sales: seq<Sale>)
    requires sales != []
    ensures LeaderboardMessage(sales) == Header + Joined(RowLines(Ranked(sales)))
    ensures var board := LeaderboardMessage(sales); !IsWhiteSpace(board[|board| - 1])
  {
    var rows := Ranked(sales);
    RankedNonEmpty(sales);
    var lines := RowLines(rows);
    RowLineEndsInDigit(|rows|, rows[|rows| - 1]);
    TrimmedBody(lines);
  }

  /** The text the rendering loop appends for one row: its line and a line break. */
  lemma TerminatedRowLine(rank: nat, row: Row)
    ensures Medal(rank) + NatToString(rank) + ". " + row.userName + ": $" + FormatN2(row.total) + "\n" == RowLine(rank, row) + "\n"
  {
  }

  /** One turn of the rendering loop. */
  lemma AppendStep(lines: seq<string>, i: nat)
    requires i < |lines|
    ensures Header + "\n" + Terminated(lines[..i]) + (lines[i] + "\n") == Header + "\n" + Terminated(lines[..i + 1])
  {
    assert lines[..i + 1][..i] == lines[..i];
    var done := Terminated(lines[..i]);
    calc {
      Header + "\n" + done + (lines[i] + "\n");
      Header + "\n" + (done + lines[i] + "\n");
    }
  }

  /** The rendering loop of BuildLeaderboardMessage: append each row's line with the rank counter, then TrimEnd. */
  method BuildLeaderboardMessage(sales: seq<Sale>) returns (message: string)
    ensures message == LeaderboardMessage(sales)
  {
    if sales == [] {
      return NoSales;
    }
    var leaderboard := Ranked(sales);
    ghost var lines := RowLines(leaderboard);
    message := Header + "\n";
    var rank := 1;
    for i := 0 to |leaderboard|
      invariant rank == i + 1
      invariant message == Header + "\n" + Terminated(lines[..i])
    {
      var entry := leaderboard[i];
      var emoji := Medal(rank);
      var line := emoji + NatToString(rank) + ". " + entry.userName + ": $" + FormatN2(entry.total) + "\n";
      assert message + line == Header + "\n" + Terminated(lines[..i + 1]) by {
        TerminatedRowLine(rank, entry);
        assert line == lines[i] + "\n";
        AppendStep(lines, i);
      }
      message := message + line;
      rank := rank + 1;
    }
    assert message == Header + "\n" + Terminated(lines) by {
      assert lines[..|leaderboard|] == lines;
    }
    message := TrimEnd(message);
  }
}
