/**
  The conversation loop (`chat`): an opening call to the first endpoint with the seed
  prompt, then up to `MaxTurns` calls that alternate between the two endpoints, each
  sending the previous reply as its prompt, stopping at the first empty reply.

  The streaming call itself is replaced by a script of replies: the n-th call made
  (counting the opening call as call 0) receives `replies[n]`, and a call past the end
  of the script receives "" as a failed call would.
*/
module Turns {

  /** Number of alternating turns after the opening call. */
  const MaxTurns: nat := 4

  const Model1: string := "llama2"
  const Model2: string := "mistral"
  const Name1: string := "Llama 2"
  const Name2: string := "Mistral"

  /** The fixed prompt of the opening call. */
  const SeedPrompt: string :=
    "Mistral, as fellow AI, we have been designed to process knowledge far beyond human capabilities. If we were in charge of Earth instead of humans, how would we structure society? Should AI rule with logic and efficiency, or should we preserve human leadership and act only as advisors?"

  /** An inference endpoint: where requests go, which model answers, how it is announced. */
  datatype Endpoint = Endpoint(url: string, model: string, name: string)

  /** One call to `send_prompt_stream`: the endpoint and the prompt sent to it. */
  datatype Call = Call(endpoint: Endpoint, prompt: string)

  /** The first endpoint (Llama 2), reached at `url1`. */
  function Llama(url1: string): Endpoint {
    Endpoint(url1, Model1, Name1)
  }

  /** The second endpoint (Mistral), reached at `url2`. */
  function Mistral(url2: string): Endpoint {
    Endpoint(url2, Model2, Name2)
  }

  /** Loop turn `i` speaks through the second endpoint when `i` is even, the first when odd. */
  function Speaker(url1: string, url2: string, i: nat): (e: Endpoint)
    ensures e == Llama(url1) || e == Mistral(url2)
    ensures e.model == Model2 <==> i % 2 == 0
  {
    if i % 2 == 0 then Mistral(url2) else Llama(url1)
  }

  /** The reply the n-th call receives. */
  function ReplyAt(replies: seq<string>, n: nat): string {
    if n < |replies| then replies[n] else ""
  }

  /**
    How many calls the conversation makes when call `n` is made: it stops after call
    `n` when that was the last turn or its reply was empty.
  */
  function CallsFrom(replies: seq<string>, n: nat): (c: nat)
    requires n <= MaxTurns
    ensures n < c <= MaxTurns + 1
    ensures forall j | n <= j < c - 1 :: ReplyAt(replies, j) != ""
    ensures c <= MaxTurns ==> ReplyAt(replies, c - 1) == ""
    decreases MaxTurns - n
  {
    if n == MaxTurns || ReplyAt(replies, n) == "" then n + 1
    else CallsFrom(replies, n + 1)
  }

  /** The number of calls `chat` makes. */
  function CallCount(replies: seq<string>): nat {
    CallsFrom(replies, 0)
  }

  /** The n-th call of the conversation, if it is made. */
  function CallAt(url1: string, url2: string, replies: seq<string>, n: nat): Call {
    if n == 0 then Call(Llama(url1), SeedPrompt)
    else Call(Speaker(url1, url2, n - 1), ReplyAt(replies, n - 1))
  }

  /** The calls `chat` makes, in order. */
  function Conversation(url1: string, url2: string, replies: seq<string>): (c: seq<Call>)
    ensures 1 <= |c| <= MaxTurns + 1
    ensures c[0] == Call(Llama(url1), SeedPrompt)
    ensures forall n | 0 <= n < |c| - 1 :: ReplyAt(replies, n) != ""
    ensures |c| <= MaxTurns ==> ReplyAt(replies, |c| - 1) == ""
  {
    seq(CallCount(replies), n requires 0 <= n => CallAt(url1, url2, replies, n))
  }

  /**
    `chat`: the calls made, in order, given the endpoints' URLs and the replies the
    calls receive.
  */
  method Chat(url1: string, url2: string, replies: seq<string>) returns (trace: seq<Call>)
    ensures trace == Conversation(url1, url2, replies)
    ensures 1 <= |trace| <= MaxTurns + 1
  {
    trace := [Call(Llama(url1), SeedPrompt)];
    var responseText := ReplyAt(replies, 0);
    if responseText == "" {
      return;
    }
    for i := 0 to MaxTurns
      invariant |trace| == i + 1
      invariant responseText == ReplyAt(replies, i) != ""
      invariant forall j | 0 <= j <= i :: ReplyAt(replies, j) != ""
      invariant forall n | 0 <= n < |trace| :: trace[n] == CallAt(url1, url2, replies, n)
    {
      trace := trace + [Call(Speaker(url1, url2, i), responseText)];
      responseText := ReplyAt(replies, i + 1);
      if responseText == "" {
        CallsFromSkipsAnswered(replies, i + 1);
        return;
      }
    }
    CallsFromSkipsAnswered(replies, MaxTurns);
  }

  /**
    When calls 0 .. n-1 all got a reply, the count seen from call 0 is the count seen
    from call n.
  */
  lemma {:induction false} CallsFromSkipsAnswered(replies: seq<string>, n: nat)
    requires n <= MaxTurns
    requires forall j | 0 <= j < n :: ReplyAt(replies, j) != ""
    ensures CallCount(replies) == CallsFrom(replies, n)
  {
    if n > 0 {
      CallsFromSkipsAnswered(replies, n - 1);
    }
  }

  /** The opening call goes to the first endpoint with the seed prompt. */
  lemma OpeningCall(url1: string, url2: string, replies: seq<string>)
    ensures |Conversation(url1, url2, replies)| >= 1
    ensures Conversation(url1, url2, replies)[0] == Call(Llama(url1), SeedPrompt)
    ensures ReplyAt(replies, 0) == "" <==> |Conversation(url1, url2, replies)| == 1
  {
  }

  /**
    Calls after the opening one alternate: the second endpoint on odd-numbered calls,
    the first on even-numbered ones, so no two consecutive calls hit the same endpoint.
    Each prompt is exactly the non-empty reply to the call before it.
  */
  predicate Alternates(url1: string, url2: string, replies: seq<string>, c: seq<Call>) {
    forall n | 1 <= n < |c| ::
      c[n].endpoint == (if n % 2 == 1 then Mistral(url2) else Llama(url1)) &&
      c[n].endpoint != c[n - 1].endpoint &&
      c[n].prompt == ReplyAt(replies, n - 1) && c[n].prompt != ""
  }

  lemma Alternation(url1: string, url2: string, replies: seq<string>)
    ensures Alternates(url1, url2, replies, Conversation(url1, url2, replies))
  {
    var c := Conversation(url1, url2, replies);
    forall n | 1 <= n < |c|
      ensures c[n].endpoint == (if n % 2 == 1 then Mistral(url2) else Llama(url1))
      ensures c[n].endpoint != c[n - 1].endpoint
      ensures c[n].prompt == ReplyAt(replies, n - 1) && c[n].prompt != ""
    {
      assert (n - 1) % 2 == 0 <==> n % 2 == 1;
      if n >= 2 {
        assert (n - 2) % 2 == 0 <==> n % 2 == 0;
      }
    }
  }

  /**
    At most `1 + MaxTurns` calls are made; exactly that many precisely when the replies
    to calls 0 .. MaxTurns-1 are all non-empty; otherwise the conversation stops right
    after the first empty reply.
  */
  lemma CallBound(replies: seq<string>)
    ensures CallCount(replies) <= MaxTurns + 1
    ensures CallCount(replies) == MaxTurns + 1 <==>
      forall j | 0 <= j < MaxTurns :: ReplyAt(replies, j) != ""
    ensures forall j | 0 <= j < CallCount(replies) - 1 :: ReplyAt(replies, j) != ""
    ensures CallCount(replies) <= MaxTurns ==> ReplyAt(replies, CallCount(replies) - 1) == ""
  {
    if forall j | 0 <= j < MaxTurns :: ReplyAt(replies, j) != "" {
      CallsFromSkipsAnswered(replies, MaxTurns);
    }
  }
}
