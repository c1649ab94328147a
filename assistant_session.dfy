/** One exchange with the assistant, as `use_assistant.py`, `use_assistant_functionality.py`
    and `convert_figma_components.py` carry it out: the content of the message sent, the
    polling of a run until it settles, and which parts of the reply are shown or saved. The
    service itself is not modelled: the statuses a run reports and the messages a thread
    lists are inputs. */
module AssistantSession {
  import opened Wrappers

  /** One item of a message's content. */
  datatype Part = Text(value: string) | ImageFile(fileId: string)

  /** Who wrote a message of the thread; the scripts only ever test for `assistant`. */
  datatype Role = User | Assistant

  datatype Message = Message(role: Role, content: seq<Part>)

  // ---------------------------------------------------------------------------------------
  // `send_message`

  /** One `image_file` item per uploaded file id, in order. */
  function ImageItems(fileIds: seq<string>): (items: seq<Part>)
    ensures |items| == |fileIds|
    ensures forall i :: 0 <= i < |fileIds| ==> items[i] == ImageFile(fileIds[i])
  {
    if fileIds == [] then [] else ImageItems(fileIds[..|fileIds| - 1]) + [ImageFile(fileIds[|fileIds| - 1])]
  }

  /** The content list `send_message` builds: the text item, then an image item for each
      file id (`image_files=None` is the empty list). */
  method MessageContent(message: string, imageFiles: seq<string>) returns (content: seq<Part>)
    ensures content == [Text(message)] + ImageItems(imageFiles)
    ensures |content| == |imageFiles| + 1 && content[0] == Text(message)
    ensures forall i :: 0 <= i < |imageFiles| ==> content[i + 1] == ImageFile(imageFiles[i])
  {
    content := [Text(message)];
    for i := 0 to |imageFiles|
      invariant content == [Text(message)] + ImageItems(imageFiles[..i])
    {
      assert imageFiles[..i + 1][..i] == imageFiles[..i];
      content := content + [ImageFile(imageFiles[i])];
    }
    assert imageFiles[..|imageFiles|] == imageFiles;
  }

  // ---------------------------------------------------------------------------------------
  // `run_assistant`

  /** `run.status in ['queued', 'in_progress']`: the run is still going and is polled again. */
  predicate Pending(status: string) {
    status == "queued" || status == "in_progress"
  }

  /** Index of the first status that is not pending, or `|statuses|` when there is none. */
  function Settled(statuses: seq<string>): (n: nat)
    ensures n <= |statuses|
    ensures forall i :: 0 <= i < n ==> Pending(statuses[i])
    ensures n < |statuses| ==> !Pending(statuses[n])
  {
    if statuses == [] || !Pending(statuses[0]) then 0 else 1 + Settled(statuses[1..])
  }

  /** The outcome of a run whose successive statuses are `statuses` (the one returned on
      creation first): `None` while it has not settled, else whether it completed. */
  function RunOutcome(statuses: seq<string>): (done: Option<bool>)
    ensures done.Some? <==> exists i :: 0 <= i < |statuses| && !Pending(statuses[i])
    ensures done == Some(true) <==> exists i :: (0 <= i < |statuses| && statuses[i] == "completed"
      && forall j :: 0 <= j < i ==> Pending(statuses[j]))
    ensures done == Some(false) <==> exists i :: (0 <= i < |statuses| && !Pending(statuses[i])
      && statuses[i] != "completed" && forall j :: 0 <= j < i ==> Pending(statuses[j]))
  {
    var n := Settled(statuses);
    SettledUnique(statuses);
    if n < |statuses| then Some(statuses[n] == "completed") else None
  }

  /** A status that is not pending and follows only pending ones is the settled one. */
  lemma SettledUnique(statuses: seq<string>)
    ensures forall i :: (0 <= i < |statuses| && !Pending(statuses[i])
      && forall j :: 0 <= j < i ==> Pending(statuses[j])) ==> i == Settled(statuses)
  {
  }

  /** `run_assistant`: polls while the status is pending and reports whether the settled
      status is `completed`. `done` is `None` when the statuses run out first, where the
      script would still be polling; `polls` counts the `retrieve` calls made. */
  method RunAssistant(statuses: seq<string>) returns (done: Option<bool>, polls: nat)
    ensures done == RunOutcome(statuses)
    ensures done.Some? ==> polls == Settled(statuses) && done.value == (statuses[polls] == "completed")
    ensures forall i :: 0 <= i < polls && i < |statuses| ==> Pending(statuses[i])
  {
    if statuses == [] {
      return None, 0;
    }
    var status := statuses[0];
    polls := 0;
    while Pending(status)
      invariant polls < |statuses| && status == statuses[polls]
      invariant forall i :: 0 <= i < polls ==> Pending(statuses[i])
      decreases |statuses| - polls
    {
      if polls + 1 == |statuses| {
        return None, polls;
      }
      polls := polls + 1;
      status := statuses[polls];
    }
    SettledIsFirst(statuses, polls);
    done := Some(status == "completed");
  }

  /** The first status that is not pending is where the run settles. */
  lemma {:induction false} SettledIsFirst(statuses: seq<string>, n: nat)
    requires n < |statuses| && !Pending(statuses[n])
    requires forall i :: 0 <= i < n ==> Pending(statuses[i])
    ensures Settled(statuses) == n
  {
    if n > 0 {
      assert Pending(statuses[0]);
      SettledIsFirst(statuses[1..], n - 1);
    }
  }

  /** Polling stops at the first settled status: whatever the service reports afterwards
      does not change the outcome. */
  lemma LaterStatusesIgnored(statuses: seq<string>, later: seq<string>)
    requires RunOutcome(statuses).Some?
    ensures RunOutcome(statuses + later) == RunOutcome(statuses)
  {
    var n := Settled(statuses);
    forall i | 0 <= i < n ensures Pending((statuses + later)[i]) {
      assert (statuses + later)[i] == statuses[i];
    }
    SettledIsFirst(statuses + later, n);
  }

  // ---------------------------------------------------------------------------------------
  // Reading the reply

  /** The text values among `content`, in order. */
  function TextParts(content: seq<Part>): (texts: seq<string>)
    ensures |texts| <= |content|
    ensures forall t :: t in texts <==> Text(t) in content
    ensures |content| == 1 ==> texts == if content[0].Text? then [content[0].value] else []
  {
    if content == [] then []
    else
      var init := TextParts(content[..|content| - 1]);
      var last := content[|content| - 1];
      assert content == content[..|content| - 1] + [last];
      if last.Text? then init + [last.value] else init
  }

  /** The text parts of two pieces of content, one after the other, are those of the first
      followed by those of the second: order and repetitions are kept. */
  lemma {:induction false} TextPartsConcat(a: seq<Part>, b: seq<Part>)
    ensures TextParts(a + b) == TextParts(a) + TextParts(b)
  {
    if b != [] {
      var init := b[..|b| - 1];
      assert (a + b)[..|a + b| - 1] == a + init;
      TextPartsConcat(a, init);
    } else {
      assert a + b == a;
    }
  }

  /** The last text part is the `Text` item at `k`, after which the content holds no other
      `Text`. */
  lemma {:induction false} TextPartsLast(content: seq<Part>) returns (k: nat)
    requires TextParts(content) != []
    ensures k < |content| && content[k] == Text(TextParts(content)[|TextParts(content)| - 1])
    ensures forall k' :: k < k' < |content| ==> !content[k'].Text?
  {
    var init := content[..|content| - 1];
    var last := content[|content| - 1];
    if last.Text? {
      assert TextParts(content) == TextParts(init) + [last.value];
      k := |content| - 1;
    } else {
      assert TextParts(content) == TextParts(init);
      k := TextPartsLast(init);
      assert content[k] == init[k];
      forall k' | k < k' < |content| ensures !content[k'].Text? {
        if k' < |init| {
          assert content[k'] == init[k'];
        }
      }
    }
  }

  /** Index of the last assistant message, if any. */
  function LastAssistant(messages: seq<Message>): (i: Option<nat>)
    ensures i.Some? ==> i.value < |messages| && messages[i.value].role == Assistant
    ensures i.Some? ==> forall j :: i.value < j < |messages| ==> messages[j].role != Assistant
    ensures i.None? ==> forall j :: 0 <= j < |messages| ==> messages[j].role != Assistant
  {
    if messages == [] then None
    else if messages[|messages| - 1].role == Assistant then Some(|messages| - 1)
    else LastAssistant(messages[..|messages| - 1])
  }

  /** The texts `display_response` prints: the text parts of the last assistant message
      only, nothing when there is no assistant message. */
  function Displayed(messages: seq<Message>): (texts: seq<string>)
    ensures forall t :: t in texts ==> exists i :: (0 <= i < |messages| && messages[i].role == Assistant
      && Text(t) in messages[i].content && forall j :: i < j < |messages| ==> messages[j].role != Assistant)
  {
    match LastAssistant(messages)
    case Some(i) => TextParts(messages[i].content)
    case None => []
  }

  /** The text values of one message's content, part by part. */
  method CollectTexts(content: seq<Part>) returns (texts: seq<string>)
    ensures texts == TextParts(content)
  {
    texts := [];
    for k := 0 to |content|
      invariant texts == TextParts(content[..k])
    {
      assert content[..k + 1][..k] == content[..k];
      if content[k].Text? {
        texts := texts + [content[k].value];
      }
    }
    assert content[..|content|] == content;
  }

  /** `display_response`: walks the thread from the newest message, prints the text parts of
      the first assistant message it meets and stops there. */
  method DisplayResponse(messages: seq<Message>) returns (printed: seq<string>)
    ensures printed == Displayed(messages)
  {
    printed := [];
    var i := |messages|;
    while i > 0
      invariant 0 <= i <= |messages|
      invariant forall j :: i <= j < |messages| ==> messages[j].role != Assistant
      invariant printed == []
    {
      i := i - 1;
      if messages[i].role == Assistant {
        printed := CollectTexts(messages[i].content);
        LastAssistantIs(messages, i);
        return;
      }
    }
    NoAssistant(messages);
  }

  lemma {:induction false} LastAssistantIs(messages: seq<Message>, i: nat)
    requires i < |messages| && messages[i].role == Assistant
    requires forall j :: i < j < |messages| ==> messages[j].role != Assistant
    ensures LastAssistant(messages) == Some(i)
  {
    if i < |messages| - 1 {
      var init := messages[..|messages| - 1];
      LastAssistantIs(init, i);
    }
  }

  lemma {:induction false} NoAssistant(messages: seq<Message>)
    requires forall j :: 0 <= j < |messages| ==> messages[j].role != Assistant
    ensures LastAssistant(messages) == None
  {
    if messages != [] {
      NoAssistant(messages[..|messages| - 1]);
    }
  }

  /** Messages added after the newest assistant message that are not the assistant's do not
      change what is displayed. */
  lemma DisplayedIgnoresUserMessages(messages: seq<Message>, later: seq<Message>)
    requires forall j :: 0 <= j < |later| ==> later[j].role != Assistant
    ensures Displayed(messages + later) == Displayed(messages)
  {
    var all := messages + later;
    match LastAssistant(messages)
    case Some(i) =>
      forall j | i < j < |all| ensures all[j].role != Assistant {
        if j >= |messages| {
          assert all[j] == later[j - |messages|];
        }
      }
      LastAssistantIs(all, i);
    case None =>
      forall j | 0 <= j < |all| ensures all[j].role != Assistant {
        if j >= |messages| {
          assert all[j] == later[j - |messages|];
        }
      }
      NoAssistant(all);
  }

  /** The header `save_analysis` writes before the text. */
  const ReportHeader := "# Functionality Analysis Report\n\n"

  /** What the analysis file holds after `save_analysis`: each text part of the last
      assistant message reopens the file for writing, so only the final one remains under
      the header; with no such part the file is left as it was (`before`, `None` when it
      does not exist). */
  function SavedAnalysis(messages: seq<Message>, before: Option<string>): (after: Option<string>)
    ensures Displayed(messages) == [] ==> after == before
    ensures Displayed(messages) != [] ==> after.Some? && ReportHeader <= after.value
  {
    var texts := Displayed(messages);
    if texts == [] then before else Some(ReportHeader + texts[|texts| - 1])
  }

  /** `save_analysis`, writing the file once per text part. */
  method SaveAnalysis(messages: seq<Message>, before: Option<string>) returns (after: Option<string>)
    ensures after == SavedAnalysis(messages, before)
  {
    after := before;
    var i := |messages|;
    while i > 0
      invariant 0 <= i <= |messages|
      invariant forall j :: i <= j < |messages| ==> messages[j].role != Assistant
      invariant after == before
    {
      i := i - 1;
      if messages[i].role == Assistant {
        after := WriteTexts(messages[i].content, before);
        LastAssistantIs(messages, i);
        return;
      }
    }
    NoAssistant(messages);
  }

  /** The inner loop of `save_analysis`: the file is rewritten for every text part, so the
      last one is what remains. */
  method WriteTexts(content: seq<Part>, before: Option<string>) returns (after: Option<string>)
    ensures var texts := TextParts(content);
      after == if texts == [] then before else Some(ReportHeader + texts[|texts| - 1])
  {
    after := before;
    for k := 0 to |content|
      invariant var texts := TextParts(content[..k]);
        after == if texts == [] then before else Some(ReportHeader + texts[|texts| - 1])
    {
      assert content[..k + 1][..k] == content[..k];
      if content[k].Text? {
        after := Some(ReportHeader + content[k].value);
      }
    }
    assert content[..|content|] == content;
  }

  /** The saved report is the header followed by one text the assistant wrote last: the
      final text part of the newest assistant message. */
  lemma SavedIsLastText(messages: seq<Message>, before: Option<string>)
    requires Displayed(messages) != []
    ensures LastAssistant(messages).Some? && SavedAnalysis(messages, before).Some?
    ensures var content := messages[LastAssistant(messages).value].content;
      exists k :: (0 <= k < |content| && content[k].Text?
        && SavedAnalysis(messages, before).value == ReportHeader + content[k].value
        && forall k' :: k < k' < |content| ==> !content[k'].Text?)
  {
    var content := messages[LastAssistant(messages).value].content;
    assert Displayed(messages) == TextParts(content);
    var k := TextPartsLast(content);
    assert SavedAnalysis(messages, before).value == ReportHeader + content[k].value;
  }

  /** An assistant message with at least one text part. */
  predicate HasText(m: Message) {
    m.role == Assistant && TextParts(m.content) != []
  }

  /** First text part of the first assistant message that has one. */
  function FirstAssistantText(messages: seq<Message>): (t: Option<string>)
    ensures t.None? <==> forall i :: 0 <= i < |messages| ==> !HasText(messages[i])
    ensures t.Some? ==> exists i :: (0 <= i < |messages| && HasText(messages[i])
      && t.value == TextParts(messages[i].content)[0] && forall j :: 0 <= j < i ==> !HasText(messages[j]))
  {
    if messages == [] then None
    else if HasText(messages[0]) then Some(TextParts(messages[0].content)[0])
    else
      var r := FirstAssistantText(messages[1..]);
      assert forall i :: 1 <= i < |messages| ==> messages[i] == messages[1..][i - 1];
      if r.Some? then
        var i :| 0 <= i < |messages[1..]| && HasText(messages[1..][i])
          && r.value == TextParts(messages[1..][i].content)[0] && forall j :: 0 <= j < i ==> !HasText(messages[1..][j]);
        assert forall j :: 0 <= j < i + 1 ==> !HasText(messages[j]);
        r
      else r
  }

  // ---------------------------------------------------------------------------------------
  // Listing the thread

  /** The page size of `messages.list` when no `limit` is given. */
  const DefaultPageSize := 20

  /** `messages.list(order='asc', limit=n)`: the oldest `n` messages of the thread, oldest
      first. */
  function OldestFirst(thread: seq<Message>, n: nat): (page: seq<Message>)
    ensures |page| == (if |thread| <= n then |thread| else n)
    ensures forall i :: 0 <= i < |page| ==> page[i] == thread[i]
  {
    if |thread| <= n then thread else thread[..n]
  }

  /** `messages.list(order='desc', limit=n)`: the newest `n` messages of the thread, newest
      first. */
  function NewestFirst(thread: seq<Message>, n: nat): (page: seq<Message>)
    ensures |page| == (if |thread| <= n then |thread| else n)
    ensures forall i :: 0 <= i < |page| ==> page[i] == thread[|thread| - 1 - i]
  {
    if thread == [] || n == 0 then []
    else [thread[|thread| - 1]] + NewestFirst(thread[..|thread| - 1], n - 1)
  }

  /** `display_response` on the default page: once the thread holds a full page, messages
      added later, the assistant's newest reply among them, are never shown. */
  lemma DisplayedFirstPage(thread: seq<Message>, later: seq<Message>)
    requires |thread| >= DefaultPageSize
    ensures Displayed(OldestFirst(thread + later, DefaultPageSize)) == Displayed(OldestFirst(thread, DefaultPageSize))
  {
    assert OldestFirst(thread + later, DefaultPageSize) == OldestFirst(thread, DefaultPageSize);
  }

  /** `get_latest_message` sees the newest message only: it returns that message's first text
      part when the assistant wrote it and it has one, and `None` otherwise, whatever older
      assistant messages hold. */
  lemma LatestMessage(thread: seq<Message>)
    ensures var t := FirstAssistantText(NewestFirst(thread, 1));
      (t.Some? <==> thread != [] && HasText(thread[|thread| - 1]))
      && (t.Some? ==> t.value == TextParts(thread[|thread| - 1].content)[0])
  {
    if thread != [] {
      assert NewestFirst(thread, 1) == [thread[|thread| - 1]];
    }
  }

  /** `get_latest_message`: lists the newest message of the thread and returns the first text
      part it meets among the assistant messages of that listing, `None` when there is none. */
  method GetLatestMessage(thread: seq<Message>) returns (t: Option<string>)
    ensures t == FirstAssistantText(NewestFirst(thread, 1))
  {
    var messages := NewestFirst(thread, 1);
    t := None;
    for i := 0 to |messages|
      invariant FirstAssistantText(messages) == FirstAssistantText(messages[i..])
    {
      assert messages[i..][1..] == messages[i + 1..];
      assert messages[i..][0] == messages[i];
      if messages[i].role == Assistant {
        var text := FirstText(messages[i].content);
        if text.Some? {
          return text;
        }
      }
    }
    assert messages[|messages|..] == [];
  }

  /** The inner loop of `get_latest_message`: the first `Text` item of one message. */
  method FirstText(content: seq<Part>) returns (t: Option<string>)
    ensures t.None? <==> TextParts(content) == []
    ensures t.Some? ==> t.value == TextParts(content)[0]
  {
    for k := 0 to |content|
      invariant TextParts(content[..k]) == []
    {
      assert content[..k + 1][..k] == content[..k];
      if content[k].Text? {
        assert content[..k + 1] == content[..k] + [content[k]];
        TextPartsFirst(content, k);
        return Some(content[k].value);
      }
    }
    assert content[..|content|] == content;
    return None;
  }

  /** The first text part of `content` is its first `Text` item. */
  lemma {:induction false} TextPartsFirst(content: seq<Part>, k: nat)
    requires k < |content| && content[k].Text? && TextParts(content[..k]) == []
    ensures TextParts(content) != [] && TextParts(content)[0] == content[k].value
  {
    if k < |content| - 1 {
      var init := content[..|content| - 1];
      assert init[..k] == content[..k];
      TextPartsFirst(init, k);
    } else {
      assert content[..k] == content[..|content| - 1];
    }
  }
}
