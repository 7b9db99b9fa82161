/** The payload compressor used for data frames. The DEFLATE stream, when
    the environment has one, is an opaque function that may fail; without
    one the compressor falls back to run-length coding of the payload's text. */
module Compression {
  import opened Wrappers
  import opened Bytes
  import opened RunLength
  import opened Sequences

  /** What the compressor can call on: whether a DEFLATE stream exists, the
      stream itself (None when it throws), and the UTF-8 text decoder and
      encoder. */
  datatype Codec = Codec(
    streamAvailable: bool,
    deflate: seq<byte> -> Option<seq<byte>>,
    decodeUtf8: seq<byte> -> string,
    encodeUtf8: string -> seq<byte>)

  /** The bytes the compressor returns for `payload`. When the DEFLATE
      stream fails the payload comes back unchanged, so compression can never
      fail a frame. */
  function Compress(codec: Codec, payload: seq<byte>): (r: seq<byte>)
    ensures payload == [] ==> r == []
    ensures payload != [] && codec.streamAvailable && codec.deflate(payload).None? ==> r == payload
  {
    if |payload| == 0 then []
    else if codec.streamAvailable then
      match codec.deflate(payload)
      case Some(deflated) => deflated
      case None => payload
    else
      var text := codec.decodeUtf8(payload);
      if |text| == 0 then [] else codec.encodeUtf8(Rle(text))
  }

  /** Compresses `payload`; a failing DEFLATE stream is caught and the
      payload is returned as it is. */
  method CompressPayload(codec: Codec, payload: seq<byte>) returns (result: seq<byte>)
    ensures result == Compress(codec, payload)
  {
    if |payload| == 0 {
      return [];
    }
    if codec.streamAvailable {
      var deflated := codec.deflate(payload);
      if deflated.None? {
        return payload;
      }
      return deflated.value;
    }
    var text := codec.decodeUtf8(payload);
    if |text| == 0 {
      return [];
    }
    var compressed := EncodeRuns(text);
    return codec.encodeUtf8(compressed);
  }

  /** The run-length loop of the fallback: walks the text once, counting the
      current run and writing its code when a different character starts
      the next run, and once more for the last run. */
  method EncodeRuns(text: string) returns (compressed: string)
    requires |text| > 0
    ensures compressed == Rle(text)
  {
    compressed := [];
    var count := 1;
    var current := text[0];
    RunsStart(text);
    for i := 1 to |text|
      invariant RunsSoFar(text, i, count, current, compressed)
    {
      if text[i] == current {
        RunGrows(text, i, count, current, compressed);
        count := count + 1;
      } else {
        RunCloses(text, i, count, current, compressed);
        if count > 1 {
          compressed := compressed + (Decimal(count) + [current]);
        } else {
          compressed := compressed + [current];
        }
        current := text[i];
        count := 1;
      }
    }
    LastRunCloses(text, count, current, compressed);
    if count > 1 {
      compressed := compressed + (Decimal(count) + [current]);
    } else {
      compressed := compressed + [current];
    }
  }

  /** The state of the run-length loop before position `i`: the `count`
      characters before `i` are a run of `current`, and `compressed` followed
      by the code of the text from that run on is the code of the whole text. */
  ghost predicate RunsSoFar(text: string, i: nat, count: nat, current: char, compressed: string) {
    && 1 <= count <= i <= |text|
    && IsRunOf(text, i - count, i, current)
    && compressed + Rle(text[i - count..]) == Rle(text)
  }

  lemma RunsStart(text: string)
    requires |text| > 0
    ensures RunsSoFar(text, 1, 1, text[0], [])
  {
    assert text[0..] == text;
  }

  lemma RunGrows(text: string, i: nat, count: nat, current: char, compressed: string)
    requires RunsSoFar(text, i, count, current, compressed)
    requires i < |text| && text[i] == current
    ensures RunsSoFar(text, i + 1, count + 1, current, compressed)
  {
  }

  lemma RunCloses(text: string, i: nat, count: nat, current: char, compressed: string)
    requires RunsSoFar(text, i, count, current, compressed)
    requires i < |text| && text[i] != current
    ensures RunsSoFar(text, i + 1, 1, text[i], compressed + (if count > 1 then Decimal(count) + [current] else [current]))
  {
    assert Token(current, count) == if count > 1 then Decimal(count) + [current] else [current];
    CodeOfClosedRun(text, i, count, current);
    Splice(compressed, Rle(text), Rle(text[i - count..]), Token(current, count), Rle(text[i..]));
    assert IsRunOf(text, i, i + 1, text[i]);
  }

  /** The code of the text from a closed run on is the run's code followed by
      the code of the text after it. */
  lemma CodeOfClosedRun(text: string, i: nat, count: nat, current: char)
    requires 1 <= count <= i < |text| && text[i] != current
    requires IsRunOf(text, i - count, i, current)
    ensures Rle(text[i - count..]) == Token(current, count) + Rle(text[i..])
  {
    RunEnds(text, i - count, i, count, current);
  }

  /** Replacing the code of the rest of the text by a run's code and the
      code after the run. */
  lemma Splice(done: string, whole: string, tail: string, code: string, rest: string)
    requires done + tail == whole && tail == code + rest
    ensures (done + code) + rest == whole
  {
    ConcatAssoc(done, code, rest);
  }

  lemma LastRunCloses(text: string, count: nat, current: char, compressed: string)
    requires RunsSoFar(text, |text|, count, current, compressed)
    ensures compressed + (if count > 1 then Decimal(count) + [current] else [current]) == Rle(text)
  {
    var code := if count > 1 then Decimal(count) + [current] else [current];
    assert Rle(text[|text| - count..]) == code + Rle(text[|text|..]) by {
      RunEnds(text, |text| - count, |text|, count, current);
    }
    assert Rle(text[|text|..]) == [] by {
      assert |text[|text|..]| == 0;
    }
    assert code + [] == code;
  }

  /** Without a DEFLATE stream, the compressed bytes decode to a text that
      expands back to the payload's text, provided that text has no decimal
      digits and the UTF-8 codec reads back what it wrote (including the
      empty text for no bytes). */
  lemma FallbackRecoverable(codec: Codec, payload: seq<byte>)
    requires !codec.streamAvailable && codec.decodeUtf8([]) == []
    requires var text := codec.decodeUtf8(payload);
      && (forall i :: 0 <= i < |text| ==> !IsDigit(text[i]))
      && codec.decodeUtf8(codec.encodeUtf8(Rle(text))) == Rle(text)
    ensures Expand(codec.decodeUtf8(Compress(codec, payload))) == codec.decodeUtf8(payload)
  {
    var text := codec.decodeUtf8(payload);
    if payload != [] && text != [] {
      RleRoundTrip(text);
    }
  }
}
