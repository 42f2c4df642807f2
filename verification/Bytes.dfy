/**
 * Byte strings, their cuttings into chunks, and first occurrences. Every stream
 * in the gateway arrives as chunks that the network chose, so each streaming
 * component is specified on the concatenation of the chunks, `Flatten`.
 */
module Bytes {
  type Byte = b: int | 0 <= b < 256

  datatype Option<+T> = None | Some(value: T)

  function Flatten<T>(chunks: seq<seq<T>>): seq<T> {
    if chunks == [] then [] else chunks[0] + Flatten(chunks[1..])
  }

  lemma {:induction false} FlattenAppend<T>(a: seq<seq<T>>, b: seq<seq<T>>)
    ensures Flatten(a + b) == Flatten(a) + Flatten(b)
  {
    if a == [] {
      assert a + b == b;
    } else {
      assert (a + b)[1..] == a[1..] + b;
      FlattenAppend(a[1..], b);
    }
  }

  lemma FlattenSnoc<T>(a: seq<seq<T>>, last: seq<T>)
    ensures Flatten(a + [last]) == Flatten(a) + last
  {
    FlattenAppend(a, [last]);
    assert Flatten([last]) == last + Flatten([]);
  }

  lemma FlattenTake<T>(chunks: seq<seq<T>>, k: nat)
    requires k < |chunks|
    ensures Flatten(chunks[..k + 1]) == Flatten(chunks[..k]) + chunks[k]
    ensures |Flatten(chunks[..k + 1])| <= |Flatten(chunks)|
  {
    assert chunks[..k + 1] == chunks[..k] + [chunks[k]];
    FlattenSnoc(chunks[..k], chunks[k]);
    assert chunks == chunks[..k + 1] + chunks[k + 1..];
    FlattenAppend(chunks[..k + 1], chunks[k + 1..]);
  }

  lemma Assoc<T>(a: seq<T>, b: seq<T>, c: seq<T>)
    ensures (a + b) + c == a + (b + c)
  {
  }

  lemma DropDrop<T>(s: seq<T>, i: nat, j: nat)
    requires i + j <= |s|
    ensures s[i..][j..] == s[i + j..]
  {
  }

  /** One chunk for each element: the cutting that reveals least at a time. */
  function Singletons<T>(s: seq<T>): (c: seq<seq<T>>)
    ensures Flatten(c) == s
  {
    if s == [] then [] else [[s[0]]] + Singletons(s[1..])
  }

  predicate Distinct<T(==)>(s: seq<T>) { forall i, j :: 0 <= i < j < |s| ==> s[i] != s[j] }

  lemma DistinctSnoc<T>(s: seq<T>, x: T)
    requires Distinct(s) && x !in s
    ensures Distinct(s + [x])
    ensures forall y :: y in s + [x] <==> y in s || y == x
  {
  }

  /** The pieces of a text between separators. */
  function Split<T(==)>(s: seq<T>, separator: T): (r: seq<seq<T>>)
    ensures r != []
  {
    if s == [] then [[]]
    else if s[0] == separator then [[]] + Split(s[1..], separator)
    else
      var r := Split(s[1..], separator);
      [[s[0]] + r[0]] + r[1..]
  }

  lemma {:induction false} SplitPlain<T>(a: seq<T>, rest: seq<T>, separator: T)
    requires separator !in a
    ensures Split(a + [separator] + rest, separator) == [a] + Split(rest, separator)
    ensures Split(a, separator) == [a]
  {
    var s := a + [separator] + rest;
    if a == [] {
      assert s[1..] == rest;
    } else {
      assert s[1..] == a[1..] + [separator] + rest;
      SplitPlain(a[1..], rest, separator);
      assert [a[0]] + a[1..] == a;
      assert ([a[1..]] + Split(rest, separator))[1..] == Split(rest, separator);
    }
  }

  predicate OccursAt(haystack: seq<Byte>, needle: seq<Byte>, i: int) {
    0 <= i && i + |needle| <= |haystack| && haystack[i..i + |needle|] == needle
  }

  /** The first occurrence at or after `from`, or -1. */
  function IndexFrom(haystack: seq<Byte>, needle: seq<Byte>, from: nat): (r: int)
    ensures r == -1 || from <= r <= |haystack| - |needle|
    decreases |haystack| - from
  {
    if from + |needle| > |haystack| then -1
    else if OccursAt(haystack, needle, from) then from
    else IndexFrom(haystack, needle, from + 1)
  }

  function IndexOf(haystack: seq<Byte>, needle: seq<Byte>): (r: int)
    ensures r == -1 || 0 <= r <= |haystack| - |needle|
  {
    IndexFrom(haystack, needle, 0)
  }

  lemma {:induction false} IndexFromFirst(haystack: seq<Byte>, needle: seq<Byte>, from: nat)
    ensures var r := IndexFrom(haystack, needle, from);
            && (r == -1 || OccursAt(haystack, needle, r))
            && forall i :: from <= i && (r == -1 || i < r) ==> !OccursAt(haystack, needle, i)
    decreases |haystack| - from
  {
    if from + |needle| <= |haystack| && !OccursAt(haystack, needle, from) {
      IndexFromFirst(haystack, needle, from + 1);
    }
  }

  /** IndexOf is the least place where the needle occurs. */
  lemma IndexOfFirst(haystack: seq<Byte>, needle: seq<Byte>)
    ensures var r := IndexOf(haystack, needle);
            && (r == -1 || OccursAt(haystack, needle, r))
            && forall i :: 0 <= i && (r == -1 || i < r) ==> !OccursAt(haystack, needle, i)
  {
    IndexFromFirst(haystack, needle, 0);
  }

  lemma IndexIs(haystack: seq<Byte>, needle: seq<Byte>, i: nat)
    requires OccursAt(haystack, needle, i)
    requires forall j :: 0 <= j < i ==> !OccursAt(haystack, needle, j)
    ensures IndexOf(haystack, needle) == i
  {
    IndexOfFirst(haystack, needle);
    var r := IndexOf(haystack, needle);
    assert r != -1 && r >= i;
  }

  lemma OccursPrefix(p: seq<Byte>, q: seq<Byte>, needle: seq<Byte>, i: int)
    requires 0 <= i && i + |needle| <= |p|
    ensures OccursAt(p, needle, i) <==> OccursAt(p + q, needle, i)
  {
    assert p[i..i + |needle|] == (p + q)[i..i + |needle|];
  }

  /** What has already been found in a prefix is what the whole would give. */
  lemma IndexOfPrefix(p: seq<Byte>, q: seq<Byte>, needle: seq<Byte>)
    ensures IndexOf(p, needle) != -1 ==> IndexOf(p + q, needle) == IndexOf(p, needle)
    ensures IndexOf(p, needle) == -1 ==>
              IndexOf(p + q, needle) == -1 || IndexOf(p + q, needle) + |needle| > |p|
  {
    forall i | 0 <= i && i + |needle| <= |p|
      ensures OccursAt(p, needle, i) <==> OccursAt(p + q, needle, i)
    {
      OccursPrefix(p, q, needle, i);
    }
    IndexOfFirst(p, needle);
    IndexOfFirst(p + q, needle);
    var r := IndexOf(p, needle);
    if r != -1 {
      IndexIs(p + q, needle, r);
    }
  }

  /** Dropping bytes that lie before the first occurrence shifts it. */
  lemma IndexOfDrop(s: seq<Byte>, needle: seq<Byte>, k: nat)
    requires k <= |s|
    requires forall i :: 0 <= i < k ==> !OccursAt(s, needle, i)
    ensures IndexOf(s, needle) == -1 ==> IndexOf(s[k..], needle) == -1
    ensures IndexOf(s, needle) != -1 ==>
              k <= IndexOf(s, needle) && IndexOf(s[k..], needle) == IndexOf(s, needle) - k
  {
    forall i | 0 <= i
      ensures OccursAt(s[k..], needle, i) <==> OccursAt(s, needle, k + i)
    {
      if i + |needle| <= |s| - k {
        assert s[k..][i..i + |needle|] == s[k + i..k + i + |needle|];
      }
    }
    IndexOfFirst(s, needle);
    IndexOfFirst(s[k..], needle);
    var r := IndexOf(s, needle);
    if r != -1 {
      assert OccursAt(s[k..], needle, r - k);
      forall j | 0 <= j < r - k
        ensures !OccursAt(s[k..], needle, j)
      {
        assert !OccursAt(s, needle, k + j);
      }
      IndexIs(s[k..], needle, r - k);
    } else {
      var q := IndexOf(s[k..], needle);
      assert q != -1 ==> OccursAt(s, needle, k + q);
    }
  }
}

/** The reading end of a request or response body: chunks that have not arrived yet. */
module ByteSource {
  import opened Bytes

  class ChunkSource {
    var chunks: seq<seq<Byte>>

    constructor (chunks: seq<seq<Byte>>)
      ensures this.chunks == chunks
    {
      this.chunks := chunks;
    }

    /** The next chunk, which may be empty, or None at the end of the body. */
    method Read() returns (next: Option<seq<Byte>>)
      modifies this
      ensures old(chunks) == [] ==> next == None && chunks == []
      ensures old(chunks) != [] ==> next == Some(old(chunks)[0]) && chunks == old(chunks)[1..]
    {
      if chunks == [] {
        return None;
      }
      next := Some(chunks[0]);
      chunks := chunks[1..];
    }

    method Cancel()
      modifies this
      ensures chunks == []
    {
      chunks := [];
    }
  }
}
