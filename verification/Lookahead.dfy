/**
 * Buffering until a delimiter appears, a limit is passed or the stream ends: the
 * pattern shared by the form parser's `findWithin`
 * (apps/server/src/s3/multipart-form.ts) and the chunk decoder's `readLine`
 * (apps/server/src/s3/aws-chunked.ts).
 */
module Lookahead {
  import opened Bytes

  /** A delimiter is certain to be met only when it ends within one byte of the limit. */
  predicate Reachable(s: seq<Byte>, needle: seq<Byte>, limit: int) {
    IndexOf(s, needle) == -1 || IndexOf(s, needle) + |needle| <= limit + 1
  }

  /** What `findWithin` answers when `chunks` are still to arrive. */
  function Find(pending: seq<Byte>, chunks: seq<seq<Byte>>, needle: seq<Byte>, limit: int): int
    decreases |chunks|
  {
    var found := IndexOf(pending, needle);
    if found != -1 then found
    else if |pending| > limit || chunks == [] then -1
    else Find(pending + chunks[0], chunks[1..], needle, limit)
  }

  function Max(a: int, b: int): int { if a < b then b else a }

  /** The size of the largest chunk still to arrive. */
  function Largest(chunks: seq<seq<Byte>>): nat {
    if chunks == [] then 0 else Max(|chunks[0]|, Largest(chunks[1..]))
  }

  /** What is found ends within the limit and one more chunk, or was there already. */
  lemma {:induction false} FindWithinLimit(pending: seq<Byte>, chunks: seq<seq<Byte>>, needle: seq<Byte>, limit: int)
    ensures var found := Find(pending, chunks, needle, limit);
            found != -1 ==> found + |needle| <= Max(|pending|, limit + Largest(chunks))
    decreases |chunks|
  {
    IndexOfFirst(pending, needle);
    if IndexOf(pending, needle) == -1 && |pending| <= limit && chunks != [] {
      FindWithinLimit(pending + chunks[0], chunks[1..], needle, limit);
    }
  }

  lemma {:induction false} FindSound(pending: seq<Byte>, chunks: seq<seq<Byte>>, needle: seq<Byte>, limit: int)
    ensures var all := pending + Flatten(chunks);
            var found := Find(pending, chunks, needle, limit);
            && (found != -1 ==> found == IndexOf(all, needle))
            && (Reachable(all, needle, limit) ==> found == IndexOf(all, needle))
    decreases |chunks|
  {
    IndexOfPrefix(pending, Flatten(chunks), needle);
    if IndexOf(pending, needle) == -1 {
      if chunks == [] {
        assert pending + Flatten(chunks) == pending;
      } else if |pending| <= limit {
        assert pending + Flatten(chunks) == (pending + chunks[0]) + Flatten(chunks[1..]);
        FindSound(pending + chunks[0], chunks[1..], needle, limit);
      }
    }
  }

  /** Byte-at-a-time arrival gives up as soon as the limit allows it to. */
  lemma {:induction false} FindGivesUp(pending: seq<Byte>, rest: seq<Byte>, needle: seq<Byte>, limit: int)
    requires IndexOf(pending, needle) == -1
    requires IndexOf(pending + rest, needle) + |needle| > limit + 1
    requires |pending| <= limit + 1
    ensures Find(pending, Singletons(rest), needle, limit) == -1
    decreases |rest|
  {
    if rest != [] && |pending| <= limit {
      var next := pending + [rest[0]];
      assert pending + rest == next + rest[1..];
      IndexOfPrefix(next, rest[1..], needle);
      assert Singletons(rest)[0] == [rest[0]] && Singletons(rest)[1..] == Singletons(rest[1..]);
      FindGivesUp(next, rest[1..], needle, limit);
    }
  }

  /**
   * The lookahead answers alike for every cutting of the bytes exactly when the
   * delimiter, if there is one, ends within one byte of the limit. Beyond that
   * the answer depends on how the network cut the body.
   */
  lemma FindIndependentOfChunks(all: seq<Byte>, needle: seq<Byte>, limit: nat)
    requires needle != []
    ensures (forall chunks: seq<seq<Byte>> {:trigger Find([], chunks, needle, limit)} ::
               Flatten(chunks) == all ==> Find([], chunks, needle, limit) == IndexOf(all, needle))
            <==> Reachable(all, needle, limit)
  {
    if Reachable(all, needle, limit) {
      forall chunks: seq<seq<Byte>> | Flatten(chunks) == all
        ensures Find([], chunks, needle, limit) == IndexOf(all, needle)
      {
        FindSound([], chunks, needle, limit);
        assert [] + Flatten(chunks) == all;
      }
    } else {
      assert [] + all == all;
      FindGivesUp([], all, needle, limit);
      assert Flatten(Singletons(all)) == all;
    }
  }
}
