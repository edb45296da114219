/*
 * Fetching messages (Program.cs): the filter applied to a deserialized
 * response, and the loop that pages backwards through the group's history
 * collecting the messages posted on the current UTC day.
 *
 * The remote pager is a finite sequence of pages: request k (the k-th
 * request of one run of the loop) is answered with pages[k], or with an
 * empty page once the pages are used up. The clock is the parameter
 * `today`, a day number counted from the Unix epoch.
 */
module Fetcher {

  import opened Wrappers
  import opened Text
  import opened Messages

  /** A message as deserialized: the JSON text field may be null. */
  datatype RawMessage = RawMessage(text: Option<string>, name: string, createdAt: int, id: string)

  /** GroupMeMessages: the messages list may be null. */
  datatype MessageList = MessageList(messages: Option<seq<RawMessage>>)

  /** GroupMeResponse: the response member may be null. */
  datatype Envelope = Envelope(response: Option<MessageList>)

  /** The outcome of one GET: 304 Not Modified, or a successful body that may deserialize to null. */
  datatype HttpResult = NotModified | Success(content: Option<Envelope>)

  /** string.IsNullOrWhiteSpace */
  predicate IsNullOrWhiteSpace(text: Option<string>)
  {
    text.None? || AllWhiteSpace(text.value)
  }

  /** Keep the messages with some non-white-space text, in order, as (text, name, created_at, id). */
  function Usable(raws: seq<RawMessage>): (r: seq<Message>)
    ensures |r| <= |raws|
    ensures forall i :: 0 <= i < |r| ==> !AllWhiteSpace(r[i].text)
  {
    if raws == [] then []
    else
      var r := Usable(raws[..|raws| - 1]);
      var raw := raws[|raws| - 1];
      if IsNullOrWhiteSpace(raw.text) then r
      else r + [Message(raw.text.value, raw.name, raw.createdAt, raw.id)]
  }

  /** The messages kept are exactly the raw messages with some non-white-space text. */
  lemma {:induction false} UsableMembers(raws: seq<RawMessage>)
    ensures forall m :: m in Usable(raws) ==> RawMessage(Some(m.text), m.userName, m.createdAt, m.id) in raws
    ensures forall raw :: raw in raws && !IsNullOrWhiteSpace(raw.text) ==>
      Message(raw.text.value, raw.name, raw.createdAt, raw.id) in Usable(raws)
  {
    if raws != [] {
      var init := raws[..|raws| - 1];
      UsableMembers(init);
      assert raws == init + [raws[|raws| - 1]];
    }
  }

  lemma {:induction false} UsableAppend(a: seq<RawMessage>, b: seq<RawMessage>)
    ensures Usable(a + b) == Usable(a) + Usable(b)
  {
    if b == [] {
      assert a + b == a;
    } else {
      assert (a + b)[..|a + b| - 1] == a + b[..|b| - 1];
      assert (a + b)[|a + b| - 1] == b[|b| - 1];
      UsableAppend(a, b[..|b| - 1]);
    }
  }

  /** The list FetchGroupMeMessagesAsync returns for one response. */
  function Received(result: HttpResult): (r: seq<Message>)
    ensures forall i :: 0 <= i < |r| ==> !AllWhiteSpace(r[i].text)
  {
    match result
    case NotModified => []
    case Success(content) =>
      if content.Some? && content.value.response.Some? && content.value.response.value.messages.Some?
      then Usable(content.value.response.value.messages.value)
      else []
  }

  /** A 304, a null body, a null response member and a null list all read as an empty page. */
  lemma NullsReadAsEmpty(list: Option<seq<RawMessage>>)
    ensures Received(NotModified) == []
    ensures Received(Success(None)) == []
    ensures Received(Success(Some(Envelope(None)))) == []
    ensures list.None? ==> Received(Success(Some(Envelope(Some(MessageList(list)))))) == []
  {
  }

  /** A page whose raw messages all have blank text is received empty. */
  lemma {:induction false} BlankPageIsEmpty(raws: seq<RawMessage>)
    requires forall k :: 0 <= k < |raws| ==> IsNullOrWhiteSpace(raws[k].text)
    ensures Usable(raws) == []
  {
    if raws != [] {
      BlankPageIsEmpty(raws[..|raws| - 1]);
    }
  }

  /** A message belongs to the day when its UTC date, FromUnixTimeSeconds(createdAt).Date, is that day. */
  predicate IsToday(m: Message, today: int)
  {
    m.createdAt / 86400 == today
  }

  /** batch.Where(m => IsToday(m)) */
  function TodayOnly(batch: seq<Message>, today: int): (r: seq<Message>)
    ensures |r| <= |batch|
    ensures forall i :: 0 <= i < |r| ==> IsToday(r[i], today)
  {
    if batch == [] then []
    else
      var r := TodayOnly(batch[..|batch| - 1], today);
      var last := batch[|batch| - 1];
      if IsToday(last, today) then r + [last] else r
  }

  /** The filter keeps exactly the messages from today. */
  lemma {:induction false} TodayOnlyMembers(batch: seq<Message>, today: int)
    ensures forall m :: m in TodayOnly(batch, today) <==> m in batch && IsToday(m, today)
  {
    if batch != [] {
      var init := batch[..|batch| - 1];
      TodayOnlyMembers(init, today);
      assert batch == init + [batch[|batch| - 1]];
    }
  }

  /** The day filter keeps the order: filtering a concatenation concatenates the results. */
  lemma {:induction false} TodayOnlyAppend(a: seq<Message>, b: seq<Message>, today: int)
    ensures TodayOnly(a + b, today) == TodayOnly(a, today) + TodayOnly(b, today)
  {
    if b == [] {
      assert a + b == a;
    } else {
      var b' := b[..|b| - 1];
      var last := b[|b| - 1];
      assert (a + b)[..|a + b| - 1] == a + b';
      assert (a + b)[|a + b| - 1] == last;
      TodayOnlyAppend(a, b', today);
      if IsToday(last, today) {
        assert TodayOnly(a, today) + TodayOnly(b', today) + [last] == TodayOnly(a, today) + (TodayOnly(b', today) + [last]);
      }
    }
  }

  /** The filter drops nothing exactly when the whole batch is from today, and then it is the batch itself. */
  lemma {:induction false} TodayOnlyKeepsAll(batch: seq<Message>, today: int)
    ensures |TodayOnly(batch, today)| == |batch| <==> forall i :: 0 <= i < |batch| ==> IsToday(batch[i], today)
    ensures |TodayOnly(batch, today)| == |batch| ==> TodayOnly(batch, today) == batch
  {
    if batch != [] {
      var init := batch[..|batch| - 1];
      var last := batch[|batch| - 1];
      var r := TodayOnly(init, today);
      TodayOnlyKeepsAll(init, today);
      assert batch == init + [last];
      var all := forall i :: 0 <= i < |batch| ==> IsToday(batch[i], today);
      var allInit := forall i :: 0 <= i < |init| ==> IsToday(init[i], today);
      assert all <==> allInit && IsToday(last, today) by {
        assert forall i :: 0 <= i < |init| ==> init[i] == batch[i];
      }
      if IsToday(last, today) {
        assert TodayOnly(batch, today) == r + [last];
      } else {
        assert TodayOnly(batch, today) == r;
      }
    }
  }

  /** The paging stops at a page that held only blank messages: the loop counts messages after the text filter. */
  lemma BlankPageEndsPaging(raws: seq<RawMessage>, rest: seq<seq<Message>>, today: int)
    requires forall k :: 0 <= k < |raws| ==> IsNullOrWhiteSpace(raws[k].text)
    ensures CollectToday([Usable(raws)] + rest, today) == []
  {
    BlankPageIsEmpty(raws);
    assert ([Usable(raws)] + rest)[0] == [];
  }

  /** What request k receives. */
  function Request(pages: seq<seq<Message>>, k: nat): seq<Message>
  {
    if k < |pages| then pages[k] else []
  }

  /** A batch after which the loop asks for the next one: non-empty and entirely from today. */
  predicate Continues(batch: seq<Message>, today: int)
  {
    batch != [] && |TodayOnly(batch, today)| == |batch|
  }

  /** The number of leading batches after which the loop goes on; request FullPages is the last one made. */
  function FullPages(pages: seq<seq<Message>>, today: int): (n: nat)
    ensures n <= |pages|
    ensures forall j :: 0 <= j < n ==> Continues(pages[j], today)
    ensures n < |pages| ==> !Continues(pages[n], today)
    decreases |pages|
  {
    if pages == [] || !Continues(pages[0], today) then 0
    else 1 + FullPages(pages[1..], today)
  }

  /** The list FetchAllTodayMessagesAsync returns. */
  function CollectToday(pages: seq<seq<Message>>, today: int): seq<Message>
    decreases |pages|
  {
    if pages == [] || pages[0] == [] then []
    else
      var kept := TodayOnly(pages[0], today);
      if |kept| < |pages[0]| then kept else kept + CollectToday(pages[1..], today)
  }

  /** The concatenation of the day-filtered batches. */
  function ConcatToday(batches: seq<seq<Message>>, today: int): seq<Message>
  {
    if batches == [] then []
    else ConcatToday(batches[..|batches| - 1], today) + TodayOnly(batches[|batches| - 1], today)
  }

  lemma {:induction false} ConcatTodayCons(batch: seq<Message>, rest: seq<seq<Message>>, today: int)
    ensures ConcatToday([batch] + rest, today) == TodayOnly(batch, today) + ConcatToday(rest, today)
    decreases |rest|
  {
    if rest == [] {
      assert [batch] + rest == [batch];
      assert ConcatToday([batch], today) == ConcatToday([], today) + TodayOnly(batch, today);
    } else {
      var init := rest[..|rest| - 1];
      var last := rest[|rest| - 1];
      assert ([batch] + rest)[..|[batch] + rest| - 1] == [batch] + init;
      assert ([batch] + rest)[|[batch] + rest| - 1] == last;
      ConcatTodayCons(batch, init, today);
    }
  }

  lemma SliceAfterHead(pages: seq<seq<Message>>, c: nat)
    requires c < |pages|
    ensures pages[..c + 1] == [pages[0]] + pages[1..][..c]
  {
    assert forall i :: 0 <= i < c + 1 ==> pages[..c + 1][i] == ([pages[0]] + pages[1..][..c])[i];
  }

  /** The result is the in-order concatenation of the day-filtered batches of every request made, the last one included. */
  lemma {:induction false} CollectIsConcatenation(pages: seq<seq<Message>>, today: int)
    ensures var n := FullPages(pages, today);
      CollectToday(pages, today) == ConcatToday(pages[..if n < |pages| then n + 1 else n], today)
    decreases |pages|
  {
    if pages == [] {
    } else if !Continues(pages[0], today) {
      ConcatenationStops(pages, today);
    } else {
      var tail := pages[1..];
      CollectIsConcatenation(tail, today);
      ConcatenationContinues(pages, today);
    }
  }

  /** The case of a first batch that ends the paging. */
  lemma ConcatenationStops(pages: seq<seq<Message>>, today: int)
    requires pages != [] && !Continues(pages[0], today)
    ensures FullPages(pages, today) == 0
    ensures CollectToday(pages, today) == ConcatToday(pages[..1], today)
  {
    assert CollectToday(pages, today) == TodayOnly(pages[0], today) by {
      if pages[0] != [] {
        TodayOnlyKeepsAll(pages[0], today);
      }
    }
    assert pages[..1] == [pages[0]];
    assert ConcatToday([pages[0]], today) == ConcatToday([], today) + TodayOnly(pages[0], today);
  }

  /** The case of a first batch after which the paging goes on, given the claim for the rest. */
  lemma ConcatenationContinues(pages: seq<seq<Message>>, today: int)
    requires pages != [] && Continues(pages[0], today)
    requires var m := FullPages(pages[1..], today);
      CollectToday(pages[1..], today) == ConcatToday(pages[1..][..if m < |pages[1..]| then m + 1 else m], today)
    ensures var n := FullPages(pages, today);
      CollectToday(pages, today) == ConcatToday(pages[..if n < |pages| then n + 1 else n], today)
  {
    var tail := pages[1..];
    var m := FullPages(tail, today);
    var cut := if m < |tail| then m + 1 else m;
    var n := FullPages(pages, today);
    assert n == m + 1;
    assert (if n < |pages| then n + 1 else n) == cut + 1;
    assert CollectToday(pages, today) == TodayOnly(pages[0], today) + CollectToday(tail, today);
    assert CollectToday(tail, today) == ConcatToday(tail[..cut], today);
    SliceAfterHead(pages, cut);
    ConcatTodayCons(pages[0], tail[..cut], today);
    assert ConcatToday(pages[..cut + 1], today) == TodayOnly(pages[0], today) + ConcatToday(tail[..cut], today);
  }

  /** Every message returned is from today. */
  lemma {:induction false} CollectOnlyToday(pages: seq<seq<Message>>, today: int)
    ensures forall m :: m in CollectToday(pages, today) ==> IsToday(m, today)
    decreases |pages|
  {
    if pages != [] && pages[0] != [] {
      TodayOnlyMembers(pages[0], today);
      CollectOnlyToday(pages[1..], today);
    }
  }

  /** Every message from today in a batch the loop received is returned. */
  lemma {:induction false} CollectComplete(pages: seq<seq<Message>>, today: int, j: nat, m: Message)
    requires j <= FullPages(pages, today) && j < |pages|
    requires m in pages[j] && IsToday(m, today)
    ensures m in CollectToday(pages, today)
    decreases j
  {
    if j == 0 {
      TodayOnlyMembers(pages[0], today);
    } else {
      assert Continues(pages[0], today);
      CollectComplete(pages[1..], today, j - 1, m);
    }
  }

  /** The id a request after batch k sends as before_id. */
  function LastId(batch: seq<Message>): string
    requires batch != []
  {
    batch[|batch| - 1].id
  }

  /** The before_id of request k: none for the first, then the last id of the batch before. */
  function BeforeId(pages: seq<seq<Message>>, k: nat, today: int): Option<string>
    requires k <= FullPages(pages, today)
  {
    if k == 0 then None else Some(LastId(pages[k - 1]))
  }

  /** Loop step: batch k continues the loop, so its messages are appended and request k + 1 follows. */
  lemma ContinueStep(pages: seq<seq<Message>>, k: nat, today: int, collected: seq<Message>)
    requires k <= FullPages(pages, today)
    requires k < |pages| && Continues(pages[k], today)
    requires collected + CollectToday(pages[k..], today) == CollectToday(pages, today)
    ensures k < FullPages(pages, today)
    ensures collected + TodayOnly(pages[k], today) + CollectToday(pages[k + 1..], today) == CollectToday(pages, today)
  {
    assert pages[k..][1..] == pages[k + 1..];
    var rest := CollectToday(pages[k + 1..], today);
    assert CollectToday(pages[k..], today) == TodayOnly(pages[k], today) + rest;
    AppendAssociative(collected, TodayOnly(pages[k], today), rest);
  }

  /** Loop exit: batch k is empty or holds older messages, so it is the last request and its kept messages complete the list. */
  lemma StopStep(pages: seq<seq<Message>>, k: nat, today: int, collected: seq<Message>)
    requires k <= FullPages(pages, today)
    requires k < |pages| ==> !Continues(pages[k], today)
    requires collected + CollectToday(pages[k..], today) == CollectToday(pages, today)
    ensures k == FullPages(pages, today)
    ensures collected + TodayOnly(Request(pages, k), today) == CollectToday(pages, today)
  {
    if k < |pages| && pages[k] != [] {
      assert pages[k..][0] == pages[k];
    } else {
      assert CollectToday(pages[k..], today) == [];
      assert collected + [] == collected;
    }
  }

  /** The before_id values of the first n requests. */
  function BeforeIds(pages: seq<seq<Message>>, n: nat, today: int): (ids: seq<Option<string>>)
    requires n <= FullPages(pages, today) + 1
    ensures |ids| == n && forall k :: 0 <= k < n ==> ids[k] == BeforeId(pages, k, today)
  {
    seq(n, k requires 0 <= k < n => BeforeId(pages, k, today))
  }

  lemma BeforeIdsStep(pages: seq<seq<Message>>, n: nat, today: int)
    requires n <= FullPages(pages, today)
    ensures BeforeIds(pages, n + 1, today) == BeforeIds(pages, n, today) + [BeforeId(pages, n, today)]
  {
    assert forall k :: 0 <= k < n ==> BeforeIds(pages, n + 1, today)[k] == BeforeIds(pages, n, today)[k];
  }

  lemma AppendAssociative(a: seq<Message>, b: seq<Message>, c: seq<Message>)
    ensures a + b + c == a + (b + c)
  {
  }

  /** FetchAllTodayMessagesAsync: request batches until one is empty or holds an older message. */
  method FetchAllToday(pages: seq<seq<Message>>, today: int) returns (allMessages: seq<Message>, beforeIds: seq<Option<string>>)
    ensures allMessages == CollectToday(pages, today)
    ensures |beforeIds| == FullPages(pages, today) + 1
    ensures forall k :: 0 <= k < |beforeIds| ==> beforeIds[k] == BeforeId(pages, k, today)
  {
    allMessages := [];
    var beforeId: Option<string> := None;
    beforeIds := [];
    var k := 0;
    while true
      invariant k <= FullPages(pages, today)
      invariant allMessages + CollectToday(pages[k..], today) == CollectToday(pages, today)
      invariant beforeId == BeforeId(pages, k, today)
      invariant beforeIds == BeforeIds(pages, k, today)
      decreases |pages| - k
    {
      BeforeIdsStep(pages, k, today);
      beforeIds := beforeIds + [beforeId];
      var batch := Request(pages, k);
      if |batch| == 0 {
        assert allMessages == CollectToday(pages, today) && k == FullPages(pages, today) by {
          StopStep(pages, k, today, allMessages);
          assert TodayOnly(batch, today) == [];
          assert allMessages + [] == allMessages;
        }
        break;
      }
      var todaysBatch := TodayOnly(batch, today);
      if |todaysBatch| < |batch| {
        assert allMessages + todaysBatch == CollectToday(pages, today) && k == FullPages(pages, today) by {
          StopStep(pages, k, today, allMessages);
        }
        allMessages := allMessages + todaysBatch;
        break;
      }
      ContinueStep(pages, k, today, allMessages);
      allMessages := allMessages + todaysBatch;
      beforeId := Some(batch[|batch| - 1].id);
      k := k + 1;
    }
  }
}
