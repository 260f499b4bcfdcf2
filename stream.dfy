/**
  One streaming request to an inference endpoint (`send_prompt_stream`).

  The HTTP exchange is given as a value: either the POST itself failed, or a status
  code arrived together with the body lines the client read before the stream ended,
  and a flag saying whether the stream ended with a transport error. Each line is
  already JSON-decoded. The words the function prints are returned as a sequence of
  pieces, without the terminal's colour codes.
*/
module Stream {
  import opened Opt
  import opened PyStr

  /** One line of the streamed body: empty, or a JSON object whose "response" field may be absent. */
  datatype Line = Blank | Record(response: Option<string>)

  /** How the POST request went. */
  datatype Exchange =
    | Refused
      // `requests.post` raised before any status arrived
    | Answered(status: int, lines: seq<Line>, broken: bool)
      // `lines` were delivered; `broken` means reading the next one raised

  /** HTTP status for which the body is streamed. */
  const Ok: int := 200

  /** The text a line adds to the buffer: "" for a blank line or a missing "response" field. */
  function Fragment(line: Line): (t: string)
    ensures t != "" ==> line.Record? && line.response == Some(t)
  {
    match line
    case Blank => ""
    case Record(r) => r.GetOr("")
  }

  /** All fragments of `lines`, in order. */
  function Joined(lines: seq<Line>): string {
    if lines == [] then "" else Joined(lines[..|lines| - 1]) + Fragment(lines[|lines| - 1])
  }

  /** No word of `ws` contains a space. */
  predicate NoSpaces(ws: seq<string>) {
    forall j | 0 <= j < |ws| :: ' ' !in ws[j]
  }

  lemma {:induction false} JoinedConcat(a: seq<Line>, b: seq<Line>)
    ensures Joined(a + b) == Joined(a) + Joined(b)
    decreases |b|
  {
    if b != [] {
      var b' := b[..|b| - 1];
      assert (a + b)[..|a + b| - 1] == a + b';
      assert (a + b)[|a + b| - 1] == b[|b| - 1];
      JoinedConcat(a, b');
      ConcatAssoc(Joined(a), Joined(b'), Fragment(b[|b| - 1]));
    } else {
      assert a + b == a;
    }
  }

  /**
    A blank line, or a record without a "response" field, changes nothing: the text
    received, and with it everything printed and accumulated, is as if it were absent.
  */
  lemma IgnoredLine(a: seq<Line>, line: Line, b: seq<Line>)
    requires line.Blank? || line.response.None?
    ensures Joined(a + [line] + b) == Joined(a + b)
  {
    JoinedConcat(a + [line], b);
    JoinedConcat(a, b);
    assert (a + [line])[..|a + [line]| - 1] == a;
    assert Joined(a + [line]) == Joined(a) + "";
  }

  /** The words the split loop takes out of `s`: each text before a space, in order. */
  function Flushed(s: string): (ws: seq<string>)
    ensures NoSpaces(ws)
    decreases |s|
  {
    if ' ' in s then
      var (w, rest) := SplitOnce(s);
      [w] + Flushed(rest)
    else []
  }

  /** What stays in the buffer after the split loop: the text after the last space. */
  function Leftover(s: string): (r: string)
    ensures ' ' !in r
    decreases |s|
  {
    if ' ' in s then Leftover(SplitOnce(s).1) else s
  }

  /** The words, each followed by the space it was split at, concatenated. */
  function Spaced(ws: seq<string>): string {
    if ws == [] then "" else ws[0] + " " + Spaced(ws[1..])
  }

  /** The pieces printed for the words: each word with its space. */
  function Pieces(ws: seq<string>): (ps: seq<string>)
    ensures |ps| == |ws|
    ensures forall j | 0 <= j < |ws| :: ps[j] == ws[j] + " "
  {
    seq(|ws|, j requires 0 <= j < |ws| => ws[j] + " ")
  }

  /** Concatenation of printed pieces. */
  function Concat(ps: seq<string>): string {
    if ps == [] then "" else ps[0] + Concat(ps[1..])
  }

  /** The exchange delivers a body that the function reads (status 200, no exception on POST). */
  predicate Streams(ex: Exchange) {
    ex.Answered? && ex.status == Ok
  }

  /**
    The pieces the function prints for `ex`: every word with its space and, when the
    stream ended normally, the non-empty leftover.
  */
  function Emitted(ex: Exchange): (ps: seq<string>)
    ensures !Streams(ex) ==> ps == []
    ensures forall j | 0 <= j < |ps| :: ps[j] != "" && ' ' !in ps[j][..|ps[j]| - 1]
    ensures forall j | 0 <= j < |ps| - 1 :: ps[j][|ps[j]| - 1] == ' '
  {
    if !Streams(ex) then []
    else
      var s := Joined(ex.lines);
      Pieces(Flushed(s)) + (if !ex.broken && Leftover(s) != "" then [Leftover(s)] else [])
  }

  /** `response_text` just before `.strip()`. */
  function Accumulated(ex: Exchange): (r: string)
    ensures !Streams(ex) ==> r == ""
    ensures Streams(ex) ==> r <= Joined(ex.lines)
  {
    if !Streams(ex) then ""
    else
      var s := Joined(ex.lines);
      Reassemble(s);
      Spaced(Flushed(s)) + (if ex.broken then "" else Leftover(s))
  }

  /** Joining the words with their spaces and adding the leftover gives back the text. */
  lemma {:induction false} Reassemble(s: string)
    ensures Spaced(Flushed(s)) + Leftover(s) == s
    decreases |s|
  {
    if ' ' in s {
      var (w, rest) := SplitOnce(s);
      Reassemble(rest);
      var ws := Flushed(s);
      assert ws == [w] + Flushed(rest);
      assert ws[0] == w && ws[1..] == Flushed(rest);
      assert Spaced(ws) == w + " " + Spaced(Flushed(rest));
      assert Leftover(s) == Leftover(rest);
      ConcatAssoc(w + " ", Spaced(Flushed(rest)), Leftover(rest));
    }
  }

  /** A word without spaces followed by a space is split off first. */
  lemma FlushedOfWord(w: string, t: string)
    requires ' ' !in w
    ensures Flushed(w + " " + t) == [w] + Flushed(t)
    ensures Leftover(w + " " + t) == Leftover(t)
  {
    SplitOnceOfWord(w, t);
  }

  /**
    The split is the only one: text written as words without spaces, each followed by
    a space, then a tail without spaces, splits into exactly those words and that tail.
  */
  lemma {:induction false} SplitUnique(ws: seq<string>, rest: string)
    requires NoSpaces(ws)
    requires ' ' !in rest
    ensures Flushed(Spaced(ws) + rest) == ws
    ensures Leftover(Spaced(ws) + rest) == rest
  {
    if ws != [] {
      var w, more := ws[0], ws[1..];
      var tail := Spaced(more) + rest;
      assert Spaced(ws) + rest == w + " " + tail by {
        ConcatAssoc(w + " ", Spaced(more), rest);
      }
      FlushedOfWord(w, tail);
      assert NoSpaces(more) by {
        forall j | 0 <= j < |more| ensures ' ' !in more[j] {
          assert more[j] == ws[j + 1];
        }
      }
      SplitUnique(more, rest);
      assert ws == [w] + more;
    } else {
      assert Spaced(ws) + rest == rest;
    }
  }

  lemma {:induction false} SpacedAppend(ws: seq<string>, w: string)
    ensures Spaced(ws + [w]) == Spaced(ws) + (w + " ")
  {
    if ws != [] {
      assert (ws + [w])[1..] == ws[1..] + [w];
      SpacedAppend(ws[1..], w);
    } else {
      assert Spaced([w][1..]) == "";
    }
  }

  lemma {:induction false} ConcatOfPieces(ws: seq<string>)
    ensures Concat(Pieces(ws)) == Spaced(ws)
  {
    if ws != [] {
      assert Pieces(ws)[1..] == Pieces(ws[1..]);
      ConcatOfPieces(ws[1..]);
    }
  }

  lemma {:induction false} ConcatAppend(ps: seq<string>, p: string)
    ensures Concat(ps + [p]) == Concat(ps) + p
  {
    if ps != [] {
      assert (ps + [p])[1..] == ps[1..] + [p];
      ConcatAppend(ps[1..], p);
    } else {
      assert Concat([p][1..]) == "";
    }
  }

  /** What the terminal shows is exactly the text the function accumulates. */
  lemma PrintedIsAccumulated(ex: Exchange)
    ensures Concat(Emitted(ex)) == Accumulated(ex)
  {
    if Streams(ex) {
      var s := Joined(ex.lines);
      var ws := Flushed(s);
      ConcatOfPieces(ws);
      if !ex.broken && Leftover(s) != "" {
        ConcatAppend(Pieces(ws), Leftover(s));
      } else {
        assert Pieces(ws) + [] == Pieces(ws);
      }
    }
  }

  /**
    A stream that ends normally loses and duplicates nothing: the accumulated text is
    the in-order concatenation of every fragment.
  */
  lemma CompletedStreamIsLossless(ex: Exchange)
    requires Streams(ex) && !ex.broken
    ensures Accumulated(ex) == Joined(ex.lines)
  {
    Reassemble(Joined(ex.lines));
  }

  /**
    A stream cut by a transport error keeps every word completed before the error and
    drops only the unfinished word still in the buffer.
  */
  lemma InterruptedStreamKeepsWords(ex: Exchange)
    requires Streams(ex) && ex.broken
    ensures Accumulated(ex) + Leftover(Joined(ex.lines)) == Joined(ex.lines)
    ensures ' ' !in Leftover(Joined(ex.lines))
  {
    var s := Joined(ex.lines);
    assert Accumulated(ex) == Spaced(Flushed(s));
    Reassemble(s);
  }

  lemma {:induction false} SpacedConcat(a: seq<string>, b: seq<string>)
    ensures Spaced(a + b) == Spaced(a) + Spaced(b)
  {
    if a != [] {
      assert (a + b)[1..] == a[1..] + b;
      SpacedConcat(a[1..], b);
    } else {
      assert a + b == b;
    }
  }

  /**
    A normally ended stream whose text is one word, a space and a non-empty tail
    without spaces prints exactly two pieces: the word with its space as soon as the
    space arrives, then the tail when the stream ends.
  */
  lemma OneWordThenLeftover(ex: Exchange, w: string, t: string)
    requires Streams(ex) && !ex.broken
    requires Joined(ex.lines) == w + " " + t
    requires ' ' !in w && ' ' !in t && t != ""
    ensures Emitted(ex) == [w + " ", t]
    ensures Accumulated(ex) == w + " " + t
  {
    FlushedOfWord(w, t);
    assert Spaced([w]) == w + " " + Spaced([]);
  }

  /** The three chunks of the example below join to "Hello world". */
  lemma HelloWorldJoined(lines: seq<Line>)
    requires lines == [Record(Some("Hello ")), Record(Some("wor")), Record(Some("ld"))]
    ensures Joined(lines) == "Hello" + " " + "world"
  {
    assert lines[..2][..1][..0] == [];
    assert Joined(lines[..2][..1]) == "" + "Hello ";
    assert Joined(lines[..2]) == "Hello " + "wor";
    assert Joined(lines) == "Hello wor" + "ld";
    assert "Hello wor" + "ld" == "Hello" + " " + "world";
  }

  /**
    The chunks "Hello ", "wor", "ld" print "Hello " as soon as its space arrives and
    flush "world" at the end of the stream; the text accumulated is "Hello world".
  */
  lemma HelloWorld(ex: Exchange)
    requires ex == Answered(Ok, [Record(Some("Hello ")), Record(Some("wor")), Record(Some("ld"))], false)
    ensures Emitted(ex) == ["Hello ", "world"]
    ensures Accumulated(ex) == "Hello world"
  {
    HelloWorldJoined(ex.lines);
    HelloWorldText();
    OneWordThenLeftover(ex, "Hello", "world");
  }

  lemma HelloWorldText()
    ensures ' ' !in "Hello" && ' ' !in "world" && "world" != ""
    ensures "Hello" + " " == "Hello "
    ensures "Hello" + " " + "world" == "Hello world"
  {
  }

  lemma ConcatAssoc<T>(a: seq<T>, b: seq<T>, c: seq<T>)
    ensures (a + b) + c == a + (b + c)
  {
  }

  lemma PiecesConcat(a: seq<string>, b: seq<string>)
    ensures Pieces(a + b) == Pieces(a) + Pieces(b)
  {
    assert forall j | 0 <= j < |a + b| :: Pieces(a + b)[j] == (Pieces(a) + Pieces(b))[j];
  }

  /**
    Splitting does not depend on how the text arrives in chunks: appending `t` to text
    `s` adds exactly the words and leftover of `s`'s leftover followed by `t`.
  */
  lemma FeedChunk(s: string, t: string)
    ensures Flushed(s + t) == Flushed(s) + Flushed(Leftover(s) + t)
    ensures Leftover(s + t) == Leftover(Leftover(s) + t)
    ensures Spaced(Flushed(s + t)) == Spaced(Flushed(s)) + Spaced(Flushed(Leftover(s) + t))
    ensures Pieces(Flushed(s + t)) == Pieces(Flushed(s)) + Pieces(Flushed(Leftover(s) + t))
  {
    var u := Leftover(s) + t;
    var ws := Flushed(s) + Flushed(u);
    assert s + t == Spaced(ws) + Leftover(u) by {
      var a, l, b, l2 := Spaced(Flushed(s)), Leftover(s), Spaced(Flushed(u)), Leftover(u);
      Reassemble(s);
      Reassemble(u);
      SpacedConcat(Flushed(s), Flushed(u));
      ConcatAssoc(a, l, t);
      ConcatAssoc(a, b, l2);
    }
    assert NoSpaces(ws) by {
      forall j | 0 <= j < |ws| ensures ' ' !in ws[j] {
        if j >= |Flushed(s)| {
          assert ws[j] == Flushed(u)[j - |Flushed(s)|];
        }
      }
    }
    SplitUnique(ws, Leftover(u));
    SpacedConcat(Flushed(s), Flushed(u));
    PiecesConcat(Flushed(s), Flushed(u));
  }

  /** One pass of the inner loop keeps its invariant. */
  lemma FlushStep(text: string, printed: seq<string>, words: seq<string>, word: string, tail: string)
    ensures Spaced(words + [word]) + tail == Spaced(words) + (word + " " + tail)
    ensures text + Spaced(words) + (word + " ") == text + Spaced(words + [word])
    ensures printed + Pieces(words) + [word + " "] == printed + Pieces(words + [word])
  {
    SpacedAppend(words, word);
    ConcatAssoc(Spaced(words), word + " ", tail);
    ConcatAssoc(text, Spaced(words), word + " ");
    PiecesConcat(words, [word]);
    ConcatAssoc(printed, Pieces(words), [word + " "]);
  }

  /**
    The inner `while " " in buffer` loop: splits `buffer` at its first space until no
    space is left, printing each word with its space and appending it to `text`.
  */
  method FlushWords(buffer: string, text: string, printed: seq<string>)
    returns (rest: string, text': string, printed': seq<string>)
    ensures rest == Leftover(buffer)
    ensures text' == text + Spaced(Flushed(buffer))
    ensures printed' == printed + Pieces(Flushed(buffer))
  {
    rest, text', printed' := buffer, text, printed;
    ghost var words: seq<string> := [];
    while ' ' in rest
      invariant NoSpaces(words)
      invariant Spaced(words) + rest == buffer
      invariant text' == text + Spaced(words)
      invariant printed' == printed + Pieces(words)
      decreases |rest|
    {
      var (word, tail) := SplitOnce(rest);
      printed' := printed' + [word + " "];
      text' := text' + (word + " ");
      FlushStep(text, printed, words, word, tail);
      rest := tail;
      words := words + [word];
    }
    SplitUnique(words, rest);
  }

  /**
    `send_prompt_stream` for one exchange: the reply it returns and the pieces it prints.
  */
  method SendPromptStream(ex: Exchange) returns (reply: string, printed: seq<string>)
    ensures printed == Emitted(ex)
    ensures reply == Strip(Accumulated(ex))
    ensures !Streams(ex) ==> printed == [] && reply == ""
  {
    var responseText := "";
    printed := [];
    if ex.Answered? && ex.status == Ok {
      var lines := ex.lines;
      var buffer := "";
      for k := 0 to |lines|
        invariant buffer == Leftover(Joined(lines[..k]))
        invariant responseText == Spaced(Flushed(Joined(lines[..k])))
        invariant printed == Pieces(Flushed(Joined(lines[..k])))
      {
        ghost var received := Joined(lines[..k]);
        assert lines[..k + 1][..k] == lines[..k];
        assert Joined(lines[..k + 1]) == received + Fragment(lines[k]);
        FeedChunk(received, Fragment(lines[k]));
        buffer := buffer + Fragment(lines[k]);
        buffer, responseText, printed := FlushWords(buffer, responseText, printed);
      }
      assert lines[..|lines|] == lines;
      ghost var received := Joined(lines);
      if !ex.broken && buffer != "" {
        printed := printed + [buffer];
        responseText := responseText + buffer;
      } else {
        assert buffer != "" ==> ex.broken;
        assert Accumulated(ex) == Spaced(Flushed(received)) + "";
        assert Emitted(ex) == Pieces(Flushed(received)) + [];
      }
      assert responseText == Accumulated(ex);
    }
    reply := Strip(responseText);
  }
}
