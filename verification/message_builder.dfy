/** Package `ai_tools`: `MessageBuilder`, an append-only log of chat messages that can be
    cleared. Each chaining method is a function from the old builder to the new one. */
module MessageBuilder {

  datatype ChatMessage = ChatMessage(role: string, content: string)

  datatype Builder = Builder(messages: seq<ChatMessage>)

  /** `NewMessageBuilder`: no messages. */
  function NewMessageBuilder(): (b: Builder)
    ensures Count(b) == 0
  {
    Builder([])
  }

  /** `AddMessage`: one message with the given role and content after the existing ones. */
  function AddMessage(b: Builder, role: string, content: string): (r: Builder)
    ensures Count(r) == Count(b) + 1
    ensures Build(r)[..Count(b)] == Build(b)
    ensures Build(r)[Count(b)] == ChatMessage(role, content)
  {
    Builder(b.messages + [ChatMessage(role, content)])
  }

  /** `System`: a message with role "system". */
  function System(b: Builder, content: string): (r: Builder)
    ensures Count(r) == Count(b) + 1 && Build(r)[..Count(b)] == Build(b)
    ensures Build(r)[Count(b)] == ChatMessage("system", content)
  {
    Builder(b.messages + [ChatMessage("system", content)])
  }

  /** `User`: a message with role "user". */
  function User(b: Builder, content: string): (r: Builder)
    ensures Count(r) == Count(b) + 1 && Build(r)[..Count(b)] == Build(b)
    ensures Build(r)[Count(b)] == ChatMessage("user", content)
  {
    Builder(b.messages + [ChatMessage("user", content)])
  }

  /** `Assistant`: a message with role "assistant". */
  function Assistant(b: Builder, content: string): (r: Builder)
    ensures Count(r) == Count(b) + 1 && Build(r)[..Count(b)] == Build(b)
    ensures Build(r)[Count(b)] == ChatMessage("assistant", content)
  {
    Builder(b.messages + [ChatMessage("assistant", content)])
  }

  /** The three role shortcuts are `AddMessage` with a fixed role. */
  lemma ShortcutsAreAddMessage(b: Builder, content: string)
    ensures System(b, content) == AddMessage(b, "system", content)
    ensures User(b, content) == AddMessage(b, "user", content)
    ensures Assistant(b, content) == AddMessage(b, "assistant", content)
  {
  }

  /** `Build`: the messages in the order they were added. */
  function Build(b: Builder): seq<ChatMessage>
  {
    b.messages
  }

  /** `Clear`: no messages. */
  function Clear(b: Builder): (r: Builder)
    ensures Count(r) == 0
  {
    Builder([])
  }

  /** `Count`: the number of messages `Build` returns. */
  function Count(b: Builder): (n: nat)
    ensures n == |Build(b)|
  {
    |b.messages|
  }

  /** `GetMessages`: a fresh copy with the same contents, element by element. */
  method GetMessages(b: Builder) returns (result: seq<ChatMessage>)
    ensures result == Build(b)
  {
    var copy := new ChatMessage[|b.messages|](i requires 0 <= i < |b.messages| => b.messages[i]);
    result := copy[..];
  }

  /** A call made on a builder. */
  datatype Call = Add(message: ChatMessage) | ClearCall

  function Apply(b: Builder, c: Call): Builder
  {
    match c
    case Add(m) => AddMessage(b, m.role, m.content)
    case ClearCall => Clear(b)
  }

  /** The builder after the calls, starting from `NewMessageBuilder`. */
  function Replay(calls: seq<Call>): Builder
  {
    if calls == [] then NewMessageBuilder() else Apply(Replay(calls[..|calls| - 1]), calls[|calls| - 1])
  }

  /** The calls since the last `Clear`: a suffix of `calls` holding only `Add`s, preceded by a
      `Clear` unless it is the whole of `calls`. */
  function SinceClear(calls: seq<Call>): (a: seq<Call>)
    ensures |a| <= |calls| && a == calls[|calls| - |a|..]
    ensures forall k :: 0 <= k < |a| ==> a[k].Add?
    ensures |a| < |calls| ==> calls[|calls| - |a| - 1].ClearCall?
  {
    if calls == [] then []
    else
      var init, last := calls[..|calls| - 1], calls[|calls| - 1];
      if last.ClearCall? then []
      else
        var a := SinceClear(init);
        assert calls[|calls| - |a| - 1..] == init[|init| - |a|..] + [last];
        a + [last]
  }

  /** The messages that the `Add` calls among `calls` carry, in order. */
  function Added(calls: seq<Call>): (ms: seq<ChatMessage>)
    ensures |ms| <= |calls|
  {
    if calls == [] then []
    else
      var last := calls[|calls| - 1];
      Added(calls[..|calls| - 1]) + (if last.Add? then [last.message] else [])
  }

  /** The builder after the calls: `Replay` of all but the last, then the last applied. */
  lemma ReplayLast(calls: seq<Call>)
    requires calls != []
    ensures calls[|calls| - 1].Add? ==>
      Build(Replay(calls)) == Build(Replay(calls[..|calls| - 1])) + [calls[|calls| - 1].message]
    ensures calls[|calls| - 1].ClearCall? ==> Build(Replay(calls)) == []
  {
    if calls[|calls| - 1].Add? {
      var m := calls[|calls| - 1].message;
      assert m == ChatMessage(m.role, m.content);
    }
  }

  lemma AddedOfAdds(before: seq<Call>, last: Call)
    requires last.Add?
    ensures Added(before + [last]) == Added(before) + [last.message]
  {
    assert (before + [last])[..|before|] == before;
  }

  /** The log: `Build` is the messages added since construction or the last `Clear`, in the
      order they were added, and `Count` is their number. */
  lemma {:induction false} ReplayIsLog(calls: seq<Call>)
    ensures Build(Replay(calls)) == Added(SinceClear(calls))
    ensures Count(Replay(calls)) == |SinceClear(calls)|
  {
    if calls != [] {
      var init := calls[..|calls| - 1];
      var last := calls[|calls| - 1];
      ReplayIsLog(init);
      ReplayLast(calls);
      if last.Add? {
        AddedOfAdds(SinceClear(init), last);
      }
    }
  }
}
