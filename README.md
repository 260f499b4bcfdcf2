# ollama_chat in Dafny

A model of `ollama_chat.py`, a script that runs a conversation between two Ollama
inference endpoints. The model covers three parts:

- **Endpoint resolution** (`get_service_url`, module `ServiceUrl`). The URL
  `http://<host>:11434/api/generate` is built from the hostname of the service's first
  load-balancer ingress entry. When the lookup fails in any way, the fixed fallback
  `http://localhost:11434/api/generate` is used instead.
- **One streaming call** (`send_prompt_stream`, module `Stream`, with Python's string
  operations in `PyStr`).
  - The body's `response` fragments are appended to a buffer.
  - While the buffer holds a space, it is split at the first space. The word and its
    space are printed and added to the reply.
  - When the stream ends, any non-empty remainder is printed and added too.
  - The call returns the reply with `str.strip()` applied.
  - A non-200 status or a refused request gives `""`.
  - A transport error in mid-stream keeps the words completed so far.
- **The conversation loop** (`chat`, module `Turns`).
  - An opening call goes to the first endpoint (Llama 2) with the seed prompt.
  - Up to `MAX_TURNS = 4` calls follow. They alternate between the endpoints, starting
    with the second one (Mistral).
  - Each call sends the previous reply as its prompt.
  - The conversation stops at the first empty reply.
  - Module `Dialogue` connects the two: it feeds the loop with the replies that the
    streaming model returns.

Effects that cannot be expressed in Dafny are turned into values.

- An HTTP exchange is an `Exchange`. Either the POST raised, or there is a status with
  the decoded body lines read before the stream ended, plus a flag saying whether
  reading then raised.
- The `kubectl` query is a `Lookup`.
- The replies the calls of a conversation receive are a sequence.
- The words printed by a call are returned as a sequence of pieces.

The streaming function and the loop are methods with loops, proved against
specification functions:

- `Flushed` / `Leftover` give the words split off a text and what stays in the buffer.
- `Emitted` / `Accumulated` give the pieces printed and the text accumulated for an
  exchange.
- `Conversation` gives the calls `chat` makes.

The lemmas are proved about these functions.

Two details of the code are worth stating outright.

- The buffer is split only at the space character `" "`. A tab or newline inside a
  fragment stays inside a word.
- For the chunks `"Hello "`, `"wor"`, `"ld"`, the call prints `"Hello "` when its
  space arrives and `"world"` when the stream ends. The reply is `"Hello world"`
  (`Stream.HelloWorld`).

## Model

| member | source | states |
|---|---|---|
| PyStr.SplitOnce | ollama_chat.py:71-72 | for a buffer that contains a space, `split(" ", 1)` gives a word without spaces and a rest, and word + " " + rest is the buffer; the rest is shorter than the buffer |
| PyStr.SplitOnceOfWord | ollama_chat.py:72 | the split is at the first space: a space-free word followed by a space and any tail splits into exactly that word and tail |
| PyStr.IsSpace | ollama_chat.py:87 | the characters `strip()` removes: those for which Python's `str.isspace` holds (definition only) |
| PyStr.AsciiWhitespace | ollama_chat.py:87 | among ASCII characters, exactly space, tab, newline, carriage return, vertical tab, form feed and the separators FS, GS, RS, US are removed |
| PyStr.Strip | ollama_chat.py:87 | `strip()` returns a contiguous piece of the text that starts after the leading whitespace and has no whitespace at either end; it is empty exactly when the text is all whitespace |
| PyStr.StripOfPadded | ollama_chat.py:87 | `strip()` removes only surrounding whitespace: any whitespace around a trimmed text strips back to that text unchanged |
| PyStr.StripIdempotent | ollama_chat.py:87 | stripping a stripped reply changes nothing |
| Stream.Fragment | ollama_chat.py:67-69 | a line adds text only when it is a record with a "response" field, and then adds exactly that field's value |
| Stream.Flushed | ollama_chat.py:71-74 | no word split off the buffer contains a space |
| Stream.Leftover | ollama_chat.py:71-72 | the buffer left when the split loop stops contains no space |
| Stream.Reassemble | ollama_chat.py:70-79 | the words, each followed by its space, then the leftover, give back the text exactly |
| Stream.SplitUnique | ollama_chat.py:71-74 | the split is unique: text made of space-free words, each followed by a space, then a space-free tail, splits into exactly those words and that tail |
| Stream.FeedChunk | ollama_chat.py:66-74 | how the text is chunked does not matter: appending a chunk adds exactly the words (and the printed pieces and reply text) found in the old leftover followed by that chunk |
| Stream.IgnoredLine | ollama_chat.py:67-69 | a blank line or a record without a "response" field changes nothing that the call prints or returns |
| Stream.Emitted | ollama_chat.py:73-79 | no pieces when the call does not stream; every piece is non-empty, its only space is its last character, and every piece but the last ends with a space |
| Stream.Accumulated | ollama_chat.py:74-79 | `response_text` is "" when the call does not stream, and otherwise a prefix of the text received |
| Stream.FlushWords | ollama_chat.py:71-74 | the inner loop leaves the leftover in the buffer, adds every split word with its space to the reply text and prints each one as a piece |
| Stream.SendPromptStream | ollama_chat.py:51-87 | the pieces printed are the words with their spaces and then the non-empty leftover of a stream that ended normally; the return value is the accumulated text stripped; a non-200 status or a refused request prints nothing and returns "" |
| Stream.PrintedIsAccumulated | ollama_chat.py:73-79 | the printed pieces, concatenated, equal the accumulated reply text |
| Stream.CompletedStreamIsLossless | ollama_chat.py:66-79 | for a stream that ends normally, the accumulated text is the in-order concatenation of all fragments, with nothing dropped or duplicated |
| Stream.InterruptedStreamKeepsWords | ollama_chat.py:84-87 | for a stream cut by a transport error, the accumulated text followed by the space-free unfinished word is the text received: only that word is lost |
| Stream.OneWordThenLeftover | ollama_chat.py:71-79 | text made of one word, a space and a non-empty space-free tail prints the word with its space, then the tail |
| Stream.HelloWorld | ollama_chat.py:66-79 | the chunks "Hello ", "wor", "ld" print "Hello " and then "world"; the text accumulated is "Hello world" |
| Turns.CallsFrom | ollama_chat.py:104-113 | counted from any call, the conversation ends after at most MAX_TURNS + 1 calls; every reply before the last call is non-empty; an early stop follows an empty reply |
| Turns.Speaker | ollama_chat.py:105-108 | each loop turn speaks through one of the two endpoints: Mistral on even turns, Llama 2 on odd ones |
| Turns.Conversation | ollama_chat.py:97-113 | between 1 and MAX_TURNS + 1 calls; the first is Llama 2 with the seed prompt; every reply before the last call is non-empty, and the last reply is empty when the conversation stopped early |
| Turns.Chat | ollama_chat.py:89-115 | `chat` makes exactly the calls of the conversation, in order, and makes between 1 and MAX_TURNS + 1 of them |
| Turns.OpeningCall | ollama_chat.py:97-101 | the first call goes to the Llama 2 endpoint with the seed prompt; it is the only call exactly when its reply is empty |
| Turns.Alternation | ollama_chat.py:104-110 | later calls go to Mistral on odd call numbers and to Llama 2 on even ones, so consecutive calls never use the same endpoint (the two endpoints may share a URL, for instance when both lookups fall back, and then differ by model and name); each prompt is the previous call's reply, and it is non-empty |
| Turns.CallBound | ollama_chat.py:99-113 | at most 1 + MAX_TURNS calls; exactly that many if and only if the replies to calls 0 .. MAX_TURNS-1 are all non-empty; the loop stops right after the first empty reply |
| Dialogue.ReplyTrimmed | ollama_chat.py:87 | every reply a call receives has no whitespace at either end |
| Dialogue.PromptsAreTrimmed | ollama_chat.py:110-112 | every prompt after the seed prompt is a non-empty reply with no whitespace at either end |
| Dialogue.SilentCallEndsConversation | ollama_chat.py:110-113 | when call k would meet a refused request, a non-200 status, or a reply of whitespace only, no call comes after call k (call k itself may never be made) |
| ServiceUrl.UrlFor | ollama_chat.py:20 | the built URL is the scheme "http://", then the host unchanged, then ":11434/api/generate" |
| ServiceUrl.GetServiceUrl | ollama_chat.py:11-22 | the URL always starts with "http://" and ends with ":11434/api/generate", including when the lookup fails |
| ServiceUrl.HostOf | ollama_chat.py:20 | a host read from a URL rebuilds that URL |
| ServiceUrl.HostOfUrlFor | ollama_chat.py:20 | the host read from a built URL is the host it was built from |
| ServiceUrl.FallbackIsLocalUrl | ollama_chat.py:22 | the fallback literal is the URL built for "localhost" |
| ServiceUrl.ResolvedHost | ollama_chat.py:18-22 | the URL names the looked-up hostname when there is one and "localhost" otherwise; with no hostname the URL is the fallback literal |

## Left out

- HTTP is not performed. The request payload (model, prompt, `stream: true`) and headers are not modelled. The response is an `Exchange` value: the status, the decoded body lines and whether reading broke.
- JSON decoding of each line (`json.loads`, UTF-8 decoding) is not modelled. Each line is already decoded. A malformed line raises an exception that the source does not catch, and that path is not modelled.
- A "response" field whose value is not a string is not modelled. A `Record` carries a string or no field.
- Terminal output other than the response pieces is not modelled: colour codes, the bold speaker header, the extra line for Mistral, the separator line, the error texts for a non-200 status or a request error, and the seeding banner. `SendPromptStream`'s empty output for a failed call means that no piece of the reply is printed.
- The `time.sleep` calls in `chat` are left out: they only delay.
- The `kubectl` subprocess and the parsing of its output are not modelled. They become a `Lookup` value: `Failed` stands for every caught exception, including a missing key and an empty ingress list.
- `OLAMA1_URL` and `OLAMA2_URL` are resolved when the module is imported. The model takes them as the parameters `url1` and `url2` of `Chat`, and `ServiceUrl.GetServiceUrl` states how each is obtained.
- Turns.Chat does not call the streaming method. It takes a script of replies, and a call past the end of the script receives "". `Dialogue` connects the two with the replies that `Stream` gives for each exchange.
- The model keeps one feature of the source: an empty reply stands both for a model that said nothing and for a transport failure. It does not tell them apart.
- The display colour of each endpoint is not part of `Turns.Endpoint`.
- The `__main__` entry point is not modelled.
