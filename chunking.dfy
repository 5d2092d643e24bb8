/**
 * Splitting of the Base 64 text of a value into the texts of its chunk documents.
 * A text of at most MaxLength characters is kept whole; a longer one is cut into parts
 * of PartLength = MaxLength + 1 characters followed by the remainder, which may be empty.
 */
module Chunking {

  /** The threshold of the chunking test and of the per-part test. */
  const MaxLength: nat := 900000

  /** A part is emitted once its accumulated length exceeds MaxLength. */
  const PartLength: nat := MaxLength + 1

  /** Full parts of PartLength characters, then the (possibly empty) rest. */
  function Pieces(s: string): seq<string>
    decreases |s|
  {
    if |s| < PartLength then [s] else [s[..PartLength]] + Pieces(s[PartLength..])
  }

  /** The parts the chunking step of store produces for the encoded text s. */
  function Chunks(s: string): seq<string>
  {
    if |s| > MaxLength then Pieces(s) else [s]
  }

  function Concat(parts: seq<string>): string
  {
    if |parts| == 0 then "" else parts[0] + Concat(parts[1..])
  }

  lemma {:induction false} ConcatAppend(a: seq<string>, b: seq<string>)
    ensures Concat(a + b) == Concat(a) + Concat(b)
  {
    if |a| > 0 {
      assert (a + b)[1..] == a[1..] + b;
      ConcatAppend(a[1..], b);
    } else {
      assert a + b == b;
    }
  }

  lemma {:induction false} PiecesConcat(s: string)
    ensures Concat(Pieces(s)) == s
    decreases |s|
  {
    if |s| >= PartLength {
      PiecesConcat(s[PartLength..]);
      assert s[..PartLength] + s[PartLength..] == s;
    }
  }

  lemma {:induction false} PiecesShape(s: string)
    ensures var p := Pieces(s);
      && |p| == |s| / PartLength + 1
      && (forall i :: 0 <= i < |p| - 1 ==> |p[i]| == PartLength)
      && |p[|p| - 1]| == |s| % PartLength
    decreases |s|
  {
    if |s| >= PartLength {
      var q := Pieces(s[PartLength..]);
      PiecesShape(s[PartLength..]);
      DivStep(|s|);
      ConsIndex(s[..PartLength], q);
    }
  }

  lemma DivStep(n: nat)
    requires n >= PartLength
    ensures n / PartLength == (n - PartLength) / PartLength + 1
    ensures n % PartLength == (n - PartLength) % PartLength
  {
  }

  lemma ConsIndex(x: string, q: seq<string>)
    ensures forall i :: 0 < i < |q| + 1 ==> ([x] + q)[i] == q[i - 1]
    ensures ([x] + q)[0] == x
  {
  }

  lemma PiecesFull(part: string, rest: string)
    requires |part| == PartLength
    ensures Pieces(part + rest) == [part] + Pieces(rest)
  {
    assert (part + rest)[..PartLength] == part && (part + rest)[PartLength..] == rest;
  }

  /** Concatenating the parts in order gives back the encoded text. */
  lemma ChunksConcat(s: string)
    ensures Concat(Chunks(s)) == s
  {
    if |s| > MaxLength { PiecesConcat(s); } else { assert Concat([s]) == s + Concat([]); }
  }

  /**
   * A text of at most MaxLength characters is one part; a longer one is cut into
   * |s| / PartLength + 1 parts, all of PartLength characters except the last,
   * which holds the remaining |s| % PartLength characters (none when |s| is a multiple).
   */
  lemma ChunksShape(s: string)
    ensures |s| <= MaxLength ==> Chunks(s) == [s]
    ensures |s| > MaxLength ==>
      var p := Chunks(s);
      && |p| == |s| / PartLength + 1
      && (forall i :: 0 <= i < |p| - 1 ==> |p[i]| == PartLength)
      && |p[|p| - 1]| == |s| % PartLength
  {
    PiecesShape(s);
  }

  /** Taking in one more character keeps the parts still to come. */
  lemma TakeOne(parts: seq<string>, acc: string, s: string, i: nat)
    requires i < |s| && parts + Pieces(acc + s[i..]) == Pieces(s)
    ensures parts + Pieces((acc + [s[i]]) + s[i + 1..]) == Pieces(s)
  {
    assert acc + s[i..] == (acc + [s[i]]) + s[i + 1..];
  }

  /** Emitting a full part and starting afresh keeps the parts still to come. */
  lemma CutPart(parts: seq<string>, acc: string, rest: string, whole: seq<string>)
    requires |acc| == PartLength && parts + Pieces(acc + rest) == whole
    ensures (parts + [acc]) + Pieces("" + rest) == whole
  {
    PiecesFull(acc, rest);
    assert "" + rest == rest;
  }

  /** At the end the short accumulated text is the last part. */
  lemma LastPart(parts: seq<string>, acc: string, s: string)
    requires |acc| < PartLength && parts + Pieces(acc + s[|s|..]) == Pieces(s)
    ensures parts + [acc] == Pieces(s)
  {
    assert acc + s[|s|..] == acc;
  }

  /** The loop of lines 149-160: characters are accumulated and a part is cut when it grows past MaxLength. */
  method Split(b64s: string) returns (parts: seq<string>)
    ensures parts == Chunks(b64s)
  {
    if |b64s| > MaxLength {
      parts := [];
      var jnr := "";
      assert jnr + b64s[0..] == b64s;
      for i := 0 to |b64s|
        invariant |jnr| < PartLength
        invariant parts + Pieces(jnr + b64s[i..]) == Pieces(b64s)
      {
        TakeOne(parts, jnr, b64s, i);
        jnr := jnr + [b64s[i]];
        if |jnr| > MaxLength {
          CutPart(parts, jnr, b64s[i + 1..], Pieces(b64s));
          parts := parts + [jnr];
          jnr := "";
        }
      }
      LastPart(parts, jnr, b64s);
      parts := parts + [jnr];
    } else {
      parts := [b64s];
    }
  }
}
