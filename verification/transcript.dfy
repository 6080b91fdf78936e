/**
 The career coach's conversation: sending a question appends the user's turn and an empty
 model turn, and the streamed answer is folded, fragment by fragment, into that last turn.
 The guidance service itself is a network call; only what it hands to the chat is modelled
 here (which fragments reach the chat, and the fallback text on failure).
 */
module Transcript {
  import opened Optional
  import opened Strings

  datatype Role = User | Model

  datatype Message = Message(role: Role, text: string)

  datatype Chat = Chat(messages: seq<Message>, input: string, loading: bool)

  const Welcome: string :=
    "Welcome to the TechSkyline 2026 Career Strategy Hub. I am your Senior Architect assistant. Let's design your complete career roadmap from baseline to industry lead."

  /** The fragment delivered when the guidance stream fails. */
  const Fallback: string :=
    "The Career Architect is currently calculating global trends. Please try again or reach out to Abhinav Joseph."

  const InitialChat: Chat := Chat([Message(Model, Welcome)], "", false)

  /** A question goes out only when the trimmed input is non-empty and no answer is streaming. */
  function CanSend(c: Chat): (ok: bool)
    ensures ok <==> !c.loading && !AllSpace(c.input)
  {
    TrimEmpty(c.input);
    Trim(c.input) != "" && !c.loading
  }

  /** The synchronous part of `handleSend`, before the first fragment arrives. */
  function Send(c: Chat): (r: Chat)
    ensures !CanSend(c) ==> r == c
    ensures CanSend(c) ==> r.loading && r.input == ""
    ensures CanSend(c) ==> |r.messages| == |c.messages| + 2 && r.messages[..|c.messages|] == c.messages
    ensures CanSend(c) ==> r.messages[|c.messages|] == Message(User, Trim(c.input))
    ensures CanSend(c) ==> r.messages[|c.messages| + 1] == Message(Model, "")
  {
    if !CanSend(c) then c
    else Chat(c.messages + [Message(User, Trim(c.input)), Message(Model, "")], "", true)
  }

  /** The update run for each fragment: the last turn, if it is the model's, shows the text
      accumulated so far; otherwise the transcript is left alone. */
  function ShowAccumulated(messages: seq<Message>, acc: string): (r: seq<Message>)
    ensures |r| == |messages|
    ensures |messages| > 0 ==> r[..|messages| - 1] == messages[..|messages| - 1]
    ensures |messages| > 0 && messages[|messages| - 1].role == Model ==> r[|r| - 1] == Message(Model, acc)
    ensures (|messages| == 0 || messages[|messages| - 1].role != Model) ==> r == messages
  {
    if |messages| > 0 && messages[|messages| - 1].role == Model
    then messages[..|messages| - 1] + [messages[|messages| - 1].(text := acc)]
    else messages
  }

  /** The fragments glued together in arrival order, the way the accumulator grows. */
  function Concat(fragments: seq<string>): string
  {
    if |fragments| == 0 then "" else Concat(fragments[..|fragments| - 1]) + fragments[|fragments| - 1]
  }

  /** Accumulating in two batches is accumulating once. */
  lemma {:induction false} ConcatAppend(a: seq<string>, b: seq<string>)
    ensures Concat(a + b) == Concat(a) + Concat(b)
    decreases |b|
  {
    if |b| == 0 {
      assert a + b == a;
    } else {
      var b' := b[..|b| - 1];
      assert (a + b)[..|a + b| - 1] == a + b';
      assert (a + b)[|a + b| - 1] == b[|b| - 1];
      ConcatAppend(a, b');
    }
  }

  /** `handleSend` run to completion over the fragments the stream delivers: the transcript
      grows by the user's trimmed question and one model turn holding all the fragments in
      order; the input is cleared and loading ends. A blank input or a send while an answer
      is streaming changes nothing. */
  method Exchange(c: Chat, fragments: seq<string>) returns (r: Chat)
    ensures !CanSend(c) ==> r == c
    ensures CanSend(c) ==>
      r.messages == c.messages + [Message(User, Trim(c.input)), Message(Model, Concat(fragments))]
    ensures CanSend(c) ==> r.input == "" && !r.loading
  {
    if !CanSend(c) {
      return c;
    }
    var sent := Send(c);
    var earlier := c.messages + [Message(User, Trim(c.input))];
    SendAppends(c);
    var messages := Stream(earlier, fragments);
    AppendTwo(c.messages, Message(User, Trim(c.input)), Message(Model, Concat(fragments)));
    r := Chat(messages, sent.input, false);
  }

  /** The streaming loop: with the empty model turn last, each fragment extends the accumulator
      and the last turn shows it; the turns before it never change. */
  method Stream(earlier: seq<Message>, fragments: seq<string>) returns (messages: seq<Message>)
    ensures messages == earlier + [Message(Model, Concat(fragments))]
  {
    messages := earlier + [Message(Model, "")];
    var acc := "";
    var i := 0;
    assert fragments[..0] == [];
    while i < |fragments|
      invariant 0 <= i <= |fragments|
      invariant acc == Concat(fragments[..i])
      invariant messages == earlier + [Message(Model, acc)]
    {
      assert fragments[..i + 1][..i] == fragments[..i];
      var shown := acc;
      acc := acc + fragments[i];
      ShowAccumulatedOnModelTurn(earlier, shown, acc);
      messages := ShowAccumulated(messages, acc);
      i := i + 1;
    }
    assert fragments[..i] == fragments;
  }

  lemma SendAppends(c: Chat)
    requires CanSend(c)
    ensures Send(c).messages == c.messages + [Message(User, Trim(c.input))] + [Message(Model, "")]
  {
    AppendTwo(c.messages, Message(User, Trim(c.input)), Message(Model, ""));
  }

  lemma AppendTwo(a: seq<Message>, x: Message, y: Message)
    ensures a + [x] + [y] == a + [x, y]
  {
  }

  /** With the model turn last, a fragment update rewrites that turn's text and nothing else. */
  lemma ShowAccumulatedOnModelTurn(earlier: seq<Message>, shown: string, acc: string)
    ensures ShowAccumulated(earlier + [Message(Model, shown)], acc) == earlier + [Message(Model, acc)]
  {
    var m := earlier + [Message(Model, shown)];
    assert m[..|m| - 1] == earlier;
  }

  /** What the guidance service passes on: each chunk's text when it is present and
      non-empty, then the fallback text if the stream failed. `received` holds the chunks
      that arrived before the stream ended or failed. */
  function Delivered(received: seq<Option<string>>, failed: bool): (d: seq<string>)
    ensures forall i :: 0 <= i < |d| ==> d[i] != ""
    ensures failed ==> |d| > 0 && d[|d| - 1] == Fallback
  {
    var present := Present(received);
    if failed then present + [Fallback] else present
  }

  function Present(received: seq<Option<string>>): (d: seq<string>)
    ensures forall i :: 0 <= i < |d| ==> d[i] != ""
    ensures |d| <= |received|
  {
    if |received| == 0 then []
    else
      var rest := Present(received[..|received| - 1]);
      var last := received[|received| - 1];
      if last.Some? && last.value != "" then rest + [last.value] else rest
  }

  /** The chunk text with a missing text read as the empty string. */
  function TextOf(received: seq<Option<string>>): seq<string>
  {
    seq(|received|, i requires 0 <= i < |received| => if received[i].Some? then received[i].value else "")
  }

  /** Skipping missing and empty chunks does not change the accumulated answer: the model turn
      ends up holding every chunk's text in order, followed by the fallback on failure. */
  lemma {:induction false} DeliveredText(received: seq<Option<string>>, failed: bool)
    ensures Concat(Delivered(received, failed)) == Concat(TextOf(received)) + (if failed then Fallback else "")
  {
    PresentText(received);
    if failed {
      ConcatAppend(Present(received), [Fallback]);
      assert Concat([Fallback]) == Fallback by {
        assert [Fallback][..0] == [];
      }
    }
  }

  lemma {:induction false} PresentText(received: seq<Option<string>>)
    ensures Concat(Present(received)) == Concat(TextOf(received))
    decreases |received|
  {
    if |received| > 0 {
      var front := received[..|received| - 1];
      PresentText(front);
      assert TextOf(received)[..|received| - 1] == TextOf(front);
      var last := received[|received| - 1];
      if last.Some? && last.value != "" {
        ConcatAppend(Present(front), [last.value]);
        assert Concat([last.value]) == last.value by {
          assert [last.value][..0] == [];
        }
      } else {
        assert TextOf(received)[|received| - 1] == "";
      }
    }
  }

  /** The opening transcript: the welcome turn alone, nothing typed, nothing streaming. */
  lemma InitialChatIdle()
    ensures !CanSend(InitialChat)
    ensures |InitialChat.messages| == 1 && InitialChat.messages[0].role == Model
  {
    InitialTurns();
    InitialInputBlank();
  }

  lemma InitialTurns()
    ensures |InitialChat.messages| == 1 && InitialChat.messages[0].role == Model
  {
  }

  lemma InitialInputBlank()
    ensures !CanSend(InitialChat)
  {
    assert AllSpace(InitialChat.input);
  }
}
