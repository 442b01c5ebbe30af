/**
 * PortCommunication: the line framing of the ELM327 adapter's serial port. The port is an input
 * queue of the chunks the adapter sends (each one what a single readString returns) and the
 * sequence of strings written to it. The wall-clock deadline of readResponse is a number of polls.
 */
module Serial {
  import opened Wrappers
  import opened JavaText

  /** The index of the first chunk ending with the prompt '>', if any. */
  function PromptIndex(chunks: seq<string>): (r: Option<nat>)
    ensures r.Some? ==> r.value < |chunks| && EndsWith(chunks[r.value], ">")
    ensures r.Some? ==> forall i :: 0 <= i < r.value ==> !EndsWith(chunks[i], ">")
    ensures r.None? ==> forall i :: 0 <= i < |chunks| ==> !EndsWith(chunks[i], ">")
  {
    if |chunks| == 0 then None
    else if EndsWith(chunks[0], ">") then Some(0)
    else match PromptIndex(chunks[1..])
      case None => None
      case Some(j) => Some(j + 1)
  }

  /** The buffer after appending every chunk followed by '\r'. */
  function Appended(chunks: seq<string>): string {
    if |chunks| == 0 then "" else Appended(chunks[..|chunks| - 1]) + chunks[|chunks| - 1] + "\r"
  }

  function Min(a: nat, b: nat): nat {
    if a <= b then a else b
  }

  /** A prompt chunk is read in time when it is among the first maxPolls + 1 polls. */
  predicate Prompted(chunks: seq<string>, maxPolls: nat) {
    PromptIndex(chunks).Some? && PromptIndex(chunks).value <= maxPolls
  }

  /** How many chunks readResponse takes off the queue. */
  function ChunksRead(chunks: seq<string>, maxPolls: nat): (n: nat)
    ensures n <= |chunks|
    ensures Prompted(chunks, maxPolls) ==> n == PromptIndex(chunks).value + 1
    ensures !Prompted(chunks, maxPolls) ==> n == Min(|chunks|, maxPolls + 1)
  {
    if Prompted(chunks, maxPolls) then PromptIndex(chunks).value + 1 else Min(|chunks|, maxPolls + 1)
  }

  /**
   * The buffer once the prompt chunk has been appended and the last two characters (the '\r'
   * just appended and the '>' before it) have been cut off.
   */
  function Framed(chunks: seq<string>): (b: string)
    requires |chunks| > 0 && EndsWith(chunks[|chunks| - 1], ">")
    ensures var last := chunks[|chunks| - 1];
      b == Appended(chunks[..|chunks| - 1]) + last[..|last| - 1]
  {
    var buffer := Appended(chunks);
    assert |buffer| >= 2 by {
      assert buffer == Appended(chunks[..|chunks| - 1]) + chunks[|chunks| - 1] + "\r";
    }
    buffer[..|buffer| - 2]
  }

  /** The trimmed pieces that are not blank, in order: the trimToNull loop of readResponse. */
  function TrimmedLines(pieces: seq<string>): (r: seq<string>)
    ensures |r| <= |pieces|
    ensures forall k :: 0 <= k < |r| ==> r[k] != [] && !IsBlank(r[k][0]) && !IsBlank(r[k][|r[k]| - 1])
  {
    if |pieces| == 0 then []
    else
      var line := Trim(pieces[|pieces| - 1]);
      TrimmedLines(pieces[..|pieces| - 1]) + (if line == [] then [] else [line])
  }

  /** The lines of a framed buffer: an all-blank buffer is no response. */
  function Lines(buffer: string): (r: Result<seq<string>>)
    ensures r.Err? <==> AllBlank(buffer)
    ensures r.Err? ==> r.error == NoResponse
    ensures r.Ok? ==> |r.value| > 0
    ensures r.Ok? ==> forall k :: 0 <= k < |r.value| ==> '\r' !in r.value[k]
  {
    if Trim(buffer) == [] then Err(NoResponse)
    else
      var pieces := SplitTokens(buffer, '\r');
      LinesNotEmpty(buffer);
      NoCarriageReturn(pieces);
      Ok(TrimmedLines(pieces))
  }

  /** What readResponse returns for the queued chunks. */
  function Receive(chunks: seq<string>, maxPolls: nat): Result<seq<string>> {
    if Prompted(chunks, maxPolls) then Lines(Framed(chunks[..PromptIndex(chunks).value + 1]))
    else Err(Timeout)
  }

  /** checkOkResponse on a response: the last line must be OK, ignoring case. */
  function OkOutcome(response: Result<seq<string>>): (o: Outcome)
    requires response.Ok? ==> |response.value| > 0
    ensures response.Err? ==> o == Fail(response.error)
    ensures response.Ok? ==>
      (o == Pass <==> EqualsIgnoreCase("OK", Some(response.value[|response.value| - 1])))
    ensures o != Pass ==> o.Fail?
  {
    match response
    case Err(e) => Fail(e)
    case Ok(lines) =>
      if EqualsIgnoreCase("OK", Some(lines[|lines| - 1])) then Pass else Fail(CommandUnsuccessful)
  }

  /** translate: "1" for true, "0" for false. */
  function Translate(value: bool): (s: string)
    ensures |s| == 1 && (s[0] == '1' || s[0] == '0')
    ensures s[0] == '1' <==> value
  {
    if value then "1" else "0"
  }

  // ---------------------------------------------------------------- lemmas on the framing

  /** A buffer that is not all blank has a piece that is not all blank (the separator is blank). */
  lemma {:induction false} PiecesBlank(s: string, sep: char)
    requires IsBlank(sep)
    requires forall k :: 0 <= k < |SplitAll(s, sep)| ==> AllBlank(SplitAll(s, sep)[k])
    ensures AllBlank(s)
    decreases |s|
  {
    if |s| > 0 {
      var rest := SplitAll(s[1..], sep);
      if s[0] == sep {
        assert SplitAll(s, sep) == [""] + rest;
        forall k | 0 <= k < |rest| ensures AllBlank(rest[k]) {
          assert rest[k] == SplitAll(s, sep)[k + 1];
        }
        PiecesBlank(s[1..], sep);
      } else {
        var first := [s[0]] + rest[0];
        assert SplitAll(s, sep) == [first] + rest[1..];
        assert AllBlank(first) by {
          assert first == SplitAll(s, sep)[0];
        }
        forall k | 0 <= k < |rest| ensures AllBlank(rest[k]) {
          if k == 0 {
            forall i | 0 <= i < |rest[0]| ensures IsBlank(rest[0][i]) {
              assert rest[0][i] == first[i + 1];
            }
          } else {
            assert rest[k] == SplitAll(s, sep)[k];
          }
        }
        PiecesBlank(s[1..], sep);
        assert IsBlank(first[0]);
      }
      assert s == [s[0]] + s[1..];
    }
  }

  lemma {:induction false} TrimmedLinesAppend(a: seq<string>, b: seq<string>)
    ensures TrimmedLines(a + b) == TrimmedLines(a) + TrimmedLines(b)
    decreases |b|
  {
    if |b| == 0 {
      assert a + b == a;
    } else {
      assert (a + b)[..|a + b| - 1] == a + b[..|b| - 1];
      TrimmedLinesAppend(a, b[..|b| - 1]);
    }
  }

  /** An empty piece yields no line. */
  lemma TrimmedLinesEmptyPiece()
    ensures TrimmedLines([""]) == []
  {
    assert [""][..0] == [];
    assert AllBlank("");
  }

  /** Dropping the empty pieces first, as StringUtils.split does, changes no line. */
  lemma {:induction false} TrimmedLinesNonEmpty(pieces: seq<string>)
    ensures TrimmedLines(NonEmpty(pieces)) == TrimmedLines(pieces)
    decreases |pieces|
  {
    if |pieces| > 0 {
      var head, tail := [pieces[0]], pieces[1..];
      assert pieces == head + tail;
      TrimmedLinesAppend(head, tail);
      TrimmedLinesNonEmpty(tail);
      if pieces[0] == [] {
        assert NonEmpty(pieces) == NonEmpty(tail);
        TrimmedLinesEmptyPiece();
      } else {
        assert NonEmpty(pieces) == head + NonEmpty(tail);
        TrimmedLinesAppend(head, NonEmpty(tail));
      }
    }
  }

  /** A piece that is not all blank yields a line. */
  lemma {:induction false} TrimmedLinesWitness(pieces: seq<string>, i: nat)
    requires i < |pieces| && !AllBlank(pieces[i])
    ensures TrimmedLines(pieces) != []
    decreases |pieces|
  {
    if i < |pieces| - 1 {
      TrimmedLinesWitness(pieces[..|pieces| - 1], i);
    }
  }

  lemma LinesNotEmpty(buffer: string)
    requires !AllBlank(buffer)
    ensures TrimmedLines(SplitTokens(buffer, '\r')) != []
  {
    var pieces := SplitAll(buffer, '\r');
    if forall k :: 0 <= k < |pieces| ==> AllBlank(pieces[k]) {
      PiecesBlank(buffer, '\r');
    }
    var i :| 0 <= i < |pieces| && !AllBlank(pieces[i]);
    TrimmedLinesWitness(pieces, i);
    TrimmedLinesNonEmpty(pieces);
  }

  /** Lines trimmed from pieces without '\r' have no '\r' either. */
  lemma {:induction false} NoCarriageReturn(pieces: seq<string>)
    requires forall k :: 0 <= k < |pieces| ==> '\r' !in pieces[k]
    ensures forall k :: 0 <= k < |TrimmedLines(pieces)| ==> '\r' !in TrimmedLines(pieces)[k]
    decreases |pieces|
  {
    if |pieces| > 0 {
      NoCarriageReturn(pieces[..|pieces| - 1]);
    }
  }

  /** A string without leading or trailing blanks is its own trim. */
  lemma TrimmedIsTrim(s: string)
    requires s != [] && !IsBlank(s[0]) && !IsBlank(s[|s| - 1])
    ensures Trim(s) == s
  {
    assert TrimFrom(s, 0) == 0;
    assert TrimTo(s, 0, |s|) == |s|;
  }

  /** Every line readResponse returns is non-empty, trimmed and free of '\r'. */
  lemma ReceivedLines(chunks: seq<string>, maxPolls: nat)
    requires Receive(chunks, maxPolls).Ok?
    ensures var lines := Receive(chunks, maxPolls).value;
      |lines| > 0 && forall k :: 0 <= k < |lines| ==> lines[k] != [] && Trim(lines[k]) == lines[k] && '\r' !in lines[k]
  {
    var lines := Receive(chunks, maxPolls).value;
    forall k | 0 <= k < |lines| ensures Trim(lines[k]) == lines[k] {
      TrimmedIsTrim(lines[k]);
    }
  }

  /** Without the prompt among the first maxPolls + 1 polls the read times out. */
  lemma TimeoutIff(chunks: seq<string>, maxPolls: nat)
    ensures Receive(chunks, maxPolls) == Err(Timeout) <==> !Prompted(chunks, maxPolls)
  {
  }

  lemma {:induction false} SplitAllPlain(s: string, sep: char)
    requires sep !in s
    ensures SplitAll(s, sep) == [s]
    decreases |s|
  {
    if |s| > 0 {
      SplitAllPlain(s[1..], sep);
      assert [s[0]] + s[1..] == s;
    }
  }

  lemma {:induction false} SplitAllSeparated(a: string, sep: char, b: string)
    requires sep !in a
    ensures SplitAll(a + [sep] + b, sep) == [a] + SplitAll(b, sep)
    decreases |a|
  {
    var s := a + [sep] + b;
    if |a| > 0 {
      assert s[1..] == a[1..] + [sep] + b;
      SplitAllSeparated(a[1..], sep, b);
      assert [a[0]] + a[1..] == a;
    } else {
      assert s[1..] == b;
    }
  }

  lemma {:induction false} AppendedFront(c: string, rest: seq<string>)
    ensures Appended([c] + rest) == c + "\r" + Appended(rest)
    decreases |rest|
  {
    if |rest| == 0 {
      assert ([c] + rest)[..0] == [];
    } else {
      var all := [c] + rest;
      assert all[..|all| - 1] == [c] + rest[..|rest| - 1];
      AppendedFront(c, rest[..|rest| - 1]);
    }
  }

  /** With no '\r' inside the chunks, the pieces of the buffer are exactly the chunks. */
  lemma {:induction false} AppendedPieces(chunks: seq<string>, tail: string)
    requires forall i :: 0 <= i < |chunks| ==> '\r' !in chunks[i]
    requires '\r' !in tail
    ensures SplitAll(Appended(chunks) + tail, '\r') == chunks + [tail]
    decreases |chunks|
  {
    if |chunks| == 0 {
      assert Appended(chunks) + tail == tail;
      SplitAllPlain(tail, '\r');
    } else {
      var first, rest := chunks[0], chunks[1..];
      assert chunks == [first] + rest;
      AppendedFront(first, rest);
      AppendedPieces(rest, tail);
      assert Appended(chunks) + tail == first + ['\r'] + (Appended(rest) + tail);
      SplitAllSeparated(first, '\r', Appended(rest) + tail);
    }
  }

  /**
   * Chunk boundaries are line boundaries: when no chunk holds a '\r' itself, the lines are the
   * trimmed chunks up to the prompt chunk (without its '>'), blank ones left out.
   */
  lemma ChunksAreLines(chunks: seq<string>, maxPolls: nat)
    requires Prompted(chunks, maxPolls)
    requires forall i :: 0 <= i < |chunks| ==> '\r' !in chunks[i]
    ensures var j := PromptIndex(chunks).value;
      var pieces := chunks[..j] + [chunks[j][..|chunks[j]| - 1]];
      Receive(chunks, maxPolls) == Lines(Appended(chunks[..j]) + chunks[j][..|chunks[j]| - 1])
      && (Receive(chunks, maxPolls).Ok? ==> Receive(chunks, maxPolls).value == TrimmedLines(pieces))
  {
    var j := PromptIndex(chunks).value;
    var read := chunks[..j + 1];
    assert read[..|read| - 1] == chunks[..j] && read[|read| - 1] == chunks[j];
    var tail := chunks[j][..|chunks[j]| - 1];
    var buffer := Appended(chunks[..j]) + tail;
    assert Framed(read) == buffer;
    assert Receive(chunks, maxPolls) == Lines(buffer);
    assert '\r' !in tail by {
      assert '\r' !in chunks[j];
    }
    PlainLines(chunks[..j], tail);
  }

  /** The lines of a buffer made of chunks without '\r' are the trimmed non-blank chunks. */
  lemma PlainLines(chunks: seq<string>, tail: string)
    requires forall i :: 0 <= i < |chunks| ==> '\r' !in chunks[i]
    requires '\r' !in tail
    ensures Lines(Appended(chunks) + tail).Ok? ==>
      Lines(Appended(chunks) + tail).value == TrimmedLines(chunks + [tail])
  {
    var buffer := Appended(chunks) + tail;
    if !AllBlank(buffer) {
      AppendedPieces(chunks, tail);
      TrimmedLinesNonEmpty(chunks + [tail]);
    }
  }

  // ---------------------------------------------------------------- the port

  /** The for loop of readResponse that keeps the non-blank trimmed pieces. */
  method CollectLines(pieces: seq<string>) returns (lines: seq<string>)
    ensures lines == TrimmedLines(pieces)
  {
    lines := [];
    for i := 0 to |pieces|
      invariant lines == TrimmedLines(pieces[..i])
    {
      assert pieces[..i + 1][..i] == pieces[..i];
      var trimmed := Trim(pieces[i]);
      if trimmed != [] {
        lines := lines + [trimmed];
      }
    }
    assert pieces[..|pieces|] == pieces;
  }

  /** The trimmed buffer is split on '\r' into the non-blank trimmed lines. */
  method SplitLines(buffer: string) returns (r: Result<seq<string>>)
    ensures r == Lines(buffer)
  {
    if Trim(buffer) == [] {
      return Err(NoResponse);
    }
    var pieces := SplitTokens(buffer, '\r');
    var lines := CollectLines(pieces);
    return Ok(lines);
  }

  /** Appending the prompt chunk and cutting two characters leaves the framed buffer. */
  lemma FramedPrefix(chunks: seq<string>, c: nat)
    requires c < |chunks| && EndsWith(chunks[c], ">")
    ensures var buffer := Appended(chunks[..c]) + chunks[c] + "\r";
      |buffer| >= 2 && buffer[..|buffer| - 2] == Framed(chunks[..c + 1])
  {
    var read := chunks[..c + 1];
    assert read[..|read| - 1] == chunks[..c] && read[|read| - 1] == chunks[c];
  }

  /** A chunk without the prompt: the buffer grows by it and a '\r', and the scan goes on. */
  lemma ChunkAppended(chunks: seq<string>, c: nat)
    requires c < |chunks|
    ensures Appended(chunks[..c + 1]) == Appended(chunks[..c]) + chunks[c] + "\r"
  {
    assert chunks[..c + 1][..c] == chunks[..c];
  }

  /** The prompt found at poll c: readResponse has read c + 1 chunks and answers their lines. */
  lemma PromptRead(chunks: seq<string>, c: nat, maxPolls: nat)
    requires c < |chunks| && c <= maxPolls && EndsWith(chunks[c], ">")
    requires forall i :: 0 <= i < c ==> !EndsWith(chunks[i], ">")
    ensures PromptIndex(chunks) == Some(c)
    ensures ChunksRead(chunks, maxPolls) == c + 1
    ensures Receive(chunks, maxPolls) == Lines(Framed(chunks[..c + 1]))
  {
  }

  /** No prompt within the polls: readResponse has read every chunk it polled and times out. */
  lemma PromptMissed(chunks: seq<string>, n: nat, maxPolls: nat)
    requires n == Min(maxPolls + 1, |chunks|)
    requires forall i :: 0 <= i < n ==> !EndsWith(chunks[i], ">")
    ensures ChunksRead(chunks, maxPolls) == n
    ensures Receive(chunks, maxPolls) == Err(Timeout)
  {
    if PromptIndex(chunks).Some? {
      assert PromptIndex(chunks).value >= n;
    }
  }

  /**
   * The end of readResponse once the prompt chunk at poll `read` has been appended: the prompt
   * and its '\r' are cut off and the buffer is split into lines.
   */
  method PromptedLines(ghost chunks: seq<string>, ghost read: nat, maxPolls: nat, buffer: string)
    returns (r: Result<seq<string>>)
    requires read < |chunks| && read <= maxPolls && EndsWith(chunks[read], ">")
    requires forall i :: 0 <= i < read ==> !EndsWith(chunks[i], ">")
    requires buffer == Appended(chunks[..read]) + chunks[read] + "\r"
    ensures r == Receive(chunks, maxPolls)
  {
    PromptRead(chunks, read, maxPolls);
    FramedPrefix(chunks, read);
    r := SplitLines(buffer[..|buffer| - 2]);
  }

  class PortCommunication {
    /** Chunks the adapter has sent that have not been read yet. */
    var input: seq<string>
    /** Every string written to the port, in order. */
    var output: seq<string>
    /** The command timeout, as the number of polls readResponse makes before giving up. */
    const maxPolls: nat

    constructor (input: seq<string>, maxPolls: nat)
      ensures this.input == input && output == [] && this.maxPolls == maxPolls
    {
      this.input := input;
      output := [];
      this.maxPolls := maxPolls;
    }

    /**
     * readResponse: reads chunks until one ends with '>', appending each with a '\r', cuts off the
     * prompt and splits the buffer into trimmed non-blank lines. A poll finding no chunk waits.
     */
    method ReadResponse() returns (r: Result<seq<string>>)
      modifies this
      ensures r == Receive(old(input), maxPolls)
      ensures input == old(input)[ChunksRead(old(input), maxPolls)..]
      ensures output == old(output)
    {
      ghost var chunks := input;
      ghost var read: nat := 0;
      var buffer := "";
      var polls: nat := 0;
      while polls <= maxPolls
        invariant read <= |chunks| && input == chunks[read..]
        invariant read == Min(polls, |chunks|) && polls <= maxPolls + 1
        invariant buffer == Appended(chunks[..read])
        invariant forall i :: 0 <= i < read ==> !EndsWith(chunks[i], ">")
        invariant output == old(output)
        decreases maxPolls + 1 - polls
      {
        if |input| > 0 {
          var chunk := input[0];
          assert chunk == chunks[read];
          input := input[1..];
          assert input == chunks[read + 1..];
          if EndsWith(chunk, ">") {
            PromptRead(chunks, read, maxPolls);
            r := PromptedLines(chunks, read, maxPolls, buffer + chunk + "\r");
            return;
          }
          ChunkAppended(chunks, read);
          buffer := buffer + chunk + "\r";
          read := read + 1;
        }
        polls := polls + 1;
      }
      PromptMissed(chunks, read, maxPolls);
      r := Err(Timeout);
    }

    /** writeln: writes each part, then "\r\n". */
    method Writeln(parts: seq<string>)
      modifies this
      ensures output == old(output) + parts + ["\r\n"]
      ensures input == old(input)
    {
      for i := 0 to |parts|
        invariant output == old(output) + parts[..i]
        invariant input == old(input)
      {
        assert parts[..i + 1] == parts[..i] + [parts[i]];
        output := output + [parts[i]];
      }
      assert parts[..|parts|] == parts;
      output := output + ["\r\n"];
    }

    /** checkOkResponse: the last line of the next response must be OK, in any case. */
    method CheckOkResponse() returns (o: Outcome)
      modifies this
      ensures o == OkOutcome(Receive(old(input), maxPolls))
      ensures input == old(input)[ChunksRead(old(input), maxPolls)..]
      ensures output == old(output)
    {
      var response := ReadResponse();
      if response.Err? {
        return Fail(response.error);
      }
      var lines := response.value;
      if !EqualsIgnoreCase("OK", Some(lines[|lines| - 1])) {
        return Fail(CommandUnsuccessful);
      }
      return Pass;
    }

    /** at: sends "AT" and the command, and answers the first line of the response. */
    method At(command: string) returns (r: Result<string>)
      modifies this
      ensures output == old(output) + ["AT", command, "\r\n"]
      ensures var response := Receive(old(input), maxPolls);
        (response.Err? ==> r == Err(response.error)) && (response.Ok? ==> r == Ok(response.value[0]))
      ensures input == old(input)[ChunksRead(old(input), maxPolls)..]
    {
      Writeln(["AT", command]);
      var response := ReadResponse();
      if response.Err? {
        return Err(response.error);
      }
      return Ok(response.value[0]);
    }

    /** setEcho: sends "ATE1" or "ATE0" and requires OK. */
    method SetEcho(on: bool) returns (o: Outcome)
      modifies this
      ensures output == old(output) + ["ATE", Translate(on), "\r\n"]
      ensures o == OkOutcome(Receive(old(input), maxPolls))
      ensures input == old(input)[ChunksRead(old(input), maxPolls)..]
    {
      Writeln(["ATE", Translate(on)]);
      o := CheckOkResponse();
    }

    /** setLineTermination: sends "ATL1" or "ATL0" and requires OK. */
    method SetLineTermination(on: bool) returns (o: Outcome)
      modifies this
      ensures output == old(output) + ["ATL", Translate(on), "\r\n"]
      ensures o == OkOutcome(Receive(old(input), maxPolls))
      ensures input == old(input)[ChunksRead(old(input), maxPolls)..]
    {
      Writeln(["ATL", Translate(on)]);
      o := CheckOkResponse();
    }

    /**
     * reset: "AT" "Z"; it fails only when the read fails, because the first line of a response
     * is never null.
     */
    method Reset() returns (o: Outcome)
      modifies this
      ensures output == old(output) + ["AT", "Z", "\r\n"]
      ensures var response := Receive(old(input), maxPolls);
        (response.Err? ==> o == Fail(response.error)) && (response.Ok? ==> o == Pass)
      ensures input == old(input)[ChunksRead(old(input), maxPolls)..]
    {
      var response := At("Z");
      if response.Err? {
        return Fail(response.error);
      }
      return Pass;
    }
  }

  /** The text on the wire after writeln: the previous text, the parts, then CR LF. */
  lemma WrittenText(before: seq<string>, parts: seq<string>)
    ensures Concat(before + parts + ["\r\n"]) == Concat(before) + Concat(parts) + "\r\n"
  {
    ConcatAppend(before, parts);
    ConcatAppend(before + parts, ["\r\n"]);
    assert ["\r\n"][..0] == [];
  }
}
