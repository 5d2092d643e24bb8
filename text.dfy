/** Strings and bytes with the semantics of the Python operations the engine uses. */
module Text {

  type byte = b: int | 0 <= b < 256

  predicate StartsWith(s: string, prefix: string)
  {
    |prefix| <= |s| && s[..|prefix|] == prefix
  }

  predicate EndsWith(s: string, suffix: string)
  {
    |suffix| <= |s| && s[|s| - |suffix|..] == suffix
  }

  function Repeat(c: char, n: nat): (r: string)
    ensures |r| == n
    ensures forall i :: 0 <= i < n ==> r[i] == c
  {
    if n == 0 then "" else [c] + Repeat(c, n - 1)
  }

  /** Python's str.isspace() for one character. */
  predicate IsSpace(c: char)
  {
    || c == ' '
    || '\t' <= c <= '\r'
    || '\U{1C}' <= c <= '\U{1F}'
    || c == '\U{85}' || c == '\U{A0}' || c == '\U{1680}'
    || '\U{2000}' <= c <= '\U{200A}'
    || c == '\U{2028}' || c == '\U{2029}' || c == '\U{202F}' || c == '\U{205F}' || c == '\U{3000}'
  }

  /** Python's str.lstrip(): drops leading whitespace. */
  function StripLeft(s: string): (r: string)
    ensures |r| <= |s| && r == s[|s| - |r|..]
    ensures |r| > 0 ==> !IsSpace(r[0])
    ensures forall i :: 0 <= i < |s| - |r| ==> IsSpace(s[i])
  {
    if |s| > 0 && IsSpace(s[0]) then StripLeft(s[1..]) else s
  }

  /** Python's str.rstrip(): drops trailing whitespace. */
  function StripRight(s: string): (r: string)
    ensures |r| <= |s| && r == s[..|r|]
    ensures |r| > 0 ==> !IsSpace(r[|r| - 1])
    ensures forall i :: |r| <= i < |s| ==> IsSpace(s[i])
  {
    if |s| > 0 && IsSpace(s[|s| - 1]) then StripRight(s[..|s| - 1]) else s
  }

  /** Python's str.strip(). */
  function Strip(s: string): string
  {
    StripRight(StripLeft(s))
  }

  /** Text that starts and ends with a non-space character is left alone by Strip. */
  lemma StripKeeps(s: string)
    requires |s| > 0 ==> !IsSpace(s[0]) && !IsSpace(s[|s| - 1])
    ensures Strip(s) == s
  {
  }

  /** Position of the first occurrence of c. */
  function FirstIndex(s: string, c: char): (i: nat)
    requires c in s
    ensures i < |s| && s[i] == c && c !in s[..i]
  {
    if s[0] == c then 0 else 1 + FirstIndex(s[1..], c)
  }

  /** Python's "sep".join(parts) for a one-character separator. */
  function Join(parts: seq<string>, sep: char): string
  {
    if |parts| == 0 then ""
    else if |parts| == 1 then parts[0]
    else parts[0] + [sep] + Join(parts[1..], sep)
  }

  /** Python's s.split(sep) for a one-character separator. */
  function Split(s: string, sep: char): (r: seq<string>)
    ensures |r| > 0
    ensures forall i :: 0 <= i < |r| ==> sep !in r[i]
    ensures (sep in s) <==> |r| >= 2
    ensures sep !in s ==> r == [s]
    ensures sep in s ==> r[0] == s[..FirstIndex(s, sep)]
    decreases |s|
  {
    if sep !in s then [s]
    else
      var i := FirstIndex(s, sep);
      [s[..i]] + Split(s[i + 1..], sep)
  }

  /** Joining what Split produced gives back the text. */
  lemma {:induction false} JoinSplit(s: string, sep: char)
    ensures Join(Split(s, sep), sep) == s
    decreases |s|
  {
    if sep in s {
      var i := FirstIndex(s, sep);
      var rest := Split(s[i + 1..], sep);
      JoinSplit(s[i + 1..], sep);
      JoinCons(s[..i], rest, sep);
      Rejoin(s, i, sep);
    }
  }

  lemma Rejoin(s: string, i: nat, c: char)
    requires i < |s| && s[i] == c
    ensures s[..i] + [c] + s[i + 1..] == s
  {
  }

  lemma JoinCons(a: string, rest: seq<string>, sep: char)
    requires |rest| > 0
    ensures Join([a] + rest, sep) == a + [sep] + Join(rest, sep)
  {
    assert ([a] + rest)[1..] == rest;
  }

  /** Splitting joined pieces that do not contain the separator gives back the pieces. */
  lemma {:induction false} SplitJoin(parts: seq<string>, sep: char)
    requires |parts| > 0
    requires forall i :: 0 <= i < |parts| ==> sep !in parts[i]
    ensures Split(Join(parts, sep), sep) == parts
  {
    if |parts| > 1 {
      var s := Join(parts, sep);
      var tail := Join(parts[1..], sep);
      assert s == parts[0] + [sep] + tail;
      assert sep in s by { assert s[|parts[0]|] == sep; }
      var i := FirstIndex(s, sep);
      assert i == |parts[0]| by {
        assert s[..|parts[0]|] == parts[0];
      }
      assert s[..i] == parts[0];
      assert s[i + 1..] == tail;
      SplitJoin(parts[1..], sep);
    }
  }

  /** Join distributes over a split of the piece list. */
  lemma {:induction false} JoinAppendLast(parts: seq<string>, sep: char, extra: string)
    requires |parts| > 0
    ensures Join(parts, sep) + extra == Join(parts[..|parts| - 1] + [parts[|parts| - 1] + extra], sep)
  {
    if |parts| > 1 {
      var t := parts[1..];
      var t' := t[..|t| - 1] + [t[|t| - 1] + extra];
      JoinAppendLast(t, sep, extra);
      assert parts == [parts[0]] + t;
      assert parts[..|parts| - 1] + [parts[|parts| - 1] + extra] == [parts[0]] + t';
      JoinCons(parts[0], t, sep);
      JoinCons(parts[0], t', sep);
      assert parts[0] + [sep] + Join(t, sep) + extra == parts[0] + [sep] + (Join(t, sep) + extra);
    }
  }

  /** A join ends with its last piece. */
  lemma {:induction false} JoinEndsWithLast(parts: seq<string>, sep: char)
    requires |parts| > 0
    ensures EndsWith(Join(parts, sep), parts[|parts| - 1])
  {
    if |parts| > 1 {
      JoinEndsWithLast(parts[1..], sep);
      EndsWithAppend(parts[0] + [sep], Join(parts[1..], sep), parts[|parts| - 1]);
    }
  }

  lemma EndsWithAppend(a: string, b: string, x: string)
    requires EndsWith(b, x)
    ensures EndsWith(a + b, x)
  {
    assert (a + b)[|a + b| - |x|..] == b[|b| - |x|..];
  }

  lemma NotInSlices(s: string, k: nat, c: char)
    requires c !in s && k <= |s|
    ensures c !in s[k..] && c !in s[..k]
  {
    assert forall j :: k <= j < |s| ==> s[k..][j - k] == s[j];
  }

  /** The text ends in a '}' that is not preceded by another '}'. */
  predicate OneBrace(t: string)
  {
    |t| >= 2 && t[|t| - 1] == '}' && t[|t| - 2] != '}'
  }

  /** Every line is one paragraph that strip leaves alone. */
  predicate PlainLines(ls: seq<string>)
  {
    forall i :: 0 <= i < |ls| ==> '\n' !in ls[i] && Strip(ls[i]) == ls[i]
  }

  /** A line as the registry writes it: one paragraph, kept by strip, ending in exactly one '}'. */
  predicate PlainText(l: string)
  {
    && OneBrace(l) && '\n' !in l
    && Strip(l) == l && Strip(l + "}") == l + "}"
  }
}
