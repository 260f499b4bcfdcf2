/**
  The conversation fed by real streamed replies: each reply `chat` receives is what
  `send_prompt_stream` returns for the exchange that call meets.
*/
module Dialogue {
  import opened PyStr
  import opened Stream
  import opened Turns

  /** The replies `send_prompt_stream` returns for the exchanges the calls meet, in order. */
  function Replies(exchanges: seq<Exchange>): seq<string> {
    seq(|exchanges|, n requires 0 <= n < |exchanges| => Strip(Accumulated(exchanges[n])))
  }

  /** Every reply a call can receive has no whitespace at either end. */
  lemma ReplyTrimmed(exchanges: seq<Exchange>, n: nat)
    ensures Trimmed(ReplyAt(Replies(exchanges), n))
  {
    if n < |exchanges| {
      assert Replies(exchanges)[n] == Strip(Accumulated(exchanges[n]));
    }
  }

  /** Every prompt after the seed is non-empty and has no whitespace at either end. */
  predicate PromptsTrimmed(c: seq<Call>) {
    forall n | 1 <= n < |c| :: c[n].prompt != "" && Trimmed(c[n].prompt)
  }

  /**
    With real streamed replies, every prompt after the seed is a stripped reply that
    passed the emptiness test.
  */
  lemma PromptsAreTrimmed(url1: string, url2: string, exchanges: seq<Exchange>)
    ensures PromptsTrimmed(Conversation(url1, url2, Replies(exchanges)))
  {
    var replies := Replies(exchanges);
    var c := Conversation(url1, url2, replies);
    Alternation(url1, url2, replies);
    forall n | 1 <= n < |c|
      ensures c[n].prompt != "" && Trimmed(c[n].prompt)
    {
      ReplyTrimmed(exchanges, n - 1);
    }
  }

  /**
    A call that meets a refused request, a status other than 200, or a reply of
    whitespace only is the last one: the conversation makes no call after it.
  */
  lemma SilentCallEndsConversation(exchanges: seq<Exchange>, k: nat)
    requires k < |exchanges|
    requires !Streams(exchanges[k]) || AllSpace(Accumulated(exchanges[k]))
    ensures CallCount(Replies(exchanges)) <= k + 1
  {
    var replies := Replies(exchanges);
    assert replies[k] == Strip(Accumulated(exchanges[k]));
    assert ReplyAt(replies, k) == "";
    CallBound(replies);
  }
}
