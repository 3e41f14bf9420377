/** Streaming substring search over the chunks that successive reads of a file return. */
module SecretScan {

  type Bytes = seq<bv8>

  predicate OccursAt(needle: Bytes, text: Bytes, i: int) {
    0 <= i <= |text| - |needle| && text[i..i + |needle|] == needle
  }

  /** Whether the bytes of the needle occur somewhere in a row in the text. */
  predicate Occurs(needle: Bytes, text: Bytes) {
    exists i :: 0 <= i <= |text| - |needle| && OccursAt(needle, text, i)
  }

  ghost function Stream(chunks: seq<Bytes>): Bytes {
    if chunks == [] then [] else Stream(chunks[..|chunks| - 1]) + chunks[|chunks| - 1]
  }

  /** The last bytes of a text, or all of a shorter one. */
  function Suffix(text: Bytes, size: nat): Bytes {
    if |text| <= size then text else text[|text| - size..]
  }

  /**
   * The read loop. A read returns a non-empty chunk of any length until the end of the file.
   * For a non-empty credential the result is plain containment in the whole stream; an empty
   * one is reported for every stream but the empty one.
   */
  method DescriptorContains(chunks: seq<Bytes>, credential: Bytes) returns (found: bool)
    requires forall i :: 0 <= i < |chunks| ==> chunks[i] != []
    ensures found <==> Occurs(credential, Stream(chunks)) && (credential == [] ==> chunks != [])
  {
    var overlap: Bytes := [];
    var overlapSize := if |credential| == 0 then 0 else |credential| - 1;
    var next := 0;
    while next < |chunks|
      invariant 0 <= next <= |chunks|
      invariant overlap == Suffix(Stream(chunks[..next]), overlapSize)
      invariant !Occurs(credential, Stream(chunks[..next])) || (next == 0 && credential == [])
    {
      var chunk := chunks[next];
      ghost var before := Stream(chunks[..next]);
      assert chunks[..next + 1] == chunks[..next] + [chunk];
      var combined := overlap + chunk;
      if credential != [] {
        OverlapSuffices(credential, before, chunk);
      }
      if Occurs(credential, combined) {
        if credential == [] {
          EmptyOccurs(Stream(chunks));
        } else {
          StreamSplits(chunks, next + 1);
          OccursInExtension(credential, before + chunk, StreamTail(chunks, next + 1));
        }
        return true;
      }
      if credential == [] {
        EmptyOccurs(combined);
      }
      overlap := if overlapSize > 0 then Suffix(combined, overlapSize) else [];
      SuffixOfSuffix(before, chunk, overlapSize);
      next := next + 1;
    }
    assert chunks[..|chunks|] == chunks;
    found := false;
  }

  ghost function StreamTail(chunks: seq<Bytes>, from: nat): Bytes
    requires from <= |chunks|
  {
    Stream(chunks[from..])
  }

  lemma {:induction false} StreamSplits(chunks: seq<Bytes>, at: nat)
    requires at <= |chunks|
    ensures Stream(chunks) == Stream(chunks[..at]) + StreamTail(chunks, at)
    decreases |chunks|
  {
    if at == |chunks| {
      assert chunks[..at] == chunks && chunks[at..] == [];
    } else {
      var front := chunks[..|chunks| - 1];
      StreamSplits(front, at);
      assert front[..at] == chunks[..at];
      assert chunks[at..][..|chunks| - at - 1] == front[at..];
    }
  }

  lemma EmptyOccurs(text: Bytes)
    ensures Occurs([], text)
  {
    assert OccursAt([], text, 0);
  }

  lemma OccursInExtension(needle: Bytes, text: Bytes, more: Bytes)
    requires Occurs(needle, text)
    ensures Occurs(needle, text + more)
  {
    var i :| 0 <= i <= |text| - |needle| && OccursAt(needle, text, i);
    assert OccursAt(needle, text + more, i);
  }

  lemma OccursAfterPrefix(needle: Bytes, text: Bytes, prefix: Bytes)
    requires Occurs(needle, text)
    ensures Occurs(needle, prefix + text)
  {
    var i :| 0 <= i <= |text| - |needle| && OccursAt(needle, text, i);
    assert OccursAt(needle, prefix + text, |prefix| + i);
  }

  lemma SuffixOfSuffix(before: Bytes, chunk: Bytes, size: nat)
    ensures Suffix(Suffix(before, size) + chunk, size) == Suffix(before + chunk, size)
  {
  }

  /** An occurrence that is new in this chunk starts inside the kept overlap. */
  lemma OverlapSuffices(needle: Bytes, before: Bytes, chunk: Bytes)
    requires needle != [] && !Occurs(needle, before)
    ensures Occurs(needle, Suffix(before, |needle| - 1) + chunk) <==> Occurs(needle, before + chunk)
  {
    var overlap := Suffix(before, |needle| - 1);
    var dropped := before[..|before| - |overlap|];
    assert before == dropped + overlap;
    var all := before + chunk;
    assert all == dropped + (overlap + chunk);
    if Occurs(needle, overlap + chunk) {
      OccursAfterPrefix(needle, overlap + chunk, dropped);
    }
    if Occurs(needle, all) {
      var i :| 0 <= i <= |all| - |needle| && OccursAt(needle, all, i);
      NotInsideBefore(needle, before, chunk, i);
      assert OccursAt(needle, overlap + chunk, i - |dropped|);
    }
  }

  lemma NotInsideBefore(needle: Bytes, before: Bytes, chunk: Bytes, i: int)
    requires !Occurs(needle, before)
    requires OccursAt(needle, before + chunk, i)
    ensures i + |needle| > |before|
  {
    if i + |needle| <= |before| {
      InsideBefore(needle, before, chunk, i);
      assert false;
    }
  }

  lemma InsideBefore(needle: Bytes, before: Bytes, chunk: Bytes, i: int)
    requires OccursAt(needle, before + chunk, i) && i + |needle| <= |before|
    ensures Occurs(needle, before)
  {
    assert OccursAt(needle, before, i);
  }
}
