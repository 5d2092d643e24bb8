/**
 * The registry: an insertion-ordered dictionary from keys to registry values, as the Python
 * dict self.registry behaves, and its one-document text form of key=json lines.
 */
module Registry {
  import opened Wrappers
  import opened Text
  import opened RegistryJson

  /** The key of the allocation list of every chunk id. */
  const ReservedKey: string := "._reserved_persistent"

  /** The name of the registry document in the folder. */
  const RegistryName: string := "._registry"

  datatype Item = Item(key: string, value: RegValue)

  /** Entries in dict iteration order. */
  type Registry = seq<Item>

  predicate Has(r: Registry, k: string)
  {
    exists i :: 0 <= i < |r| && r[i].key == k
  }

  predicate DistinctKeys(r: Registry)
  {
    forall i, j :: 0 <= i < j < |r| ==> r[i].key != r[j].key
  }

  /** The position of key k. */
  function Find(r: Registry, k: string): (i: nat)
    requires Has(r, k)
    ensures i < |r| && r[i].key == k
    ensures forall j :: 0 <= j < i ==> r[j].key != k
  {
    if r[0].key == k then 0 else 1 + Find(r[1..], k)
  }

  /** registry[k], or None where Python raises KeyError. */
  function Lookup(r: Registry, k: string): (v: Option<RegValue>)
    ensures v.Some? <==> Has(r, k)
    ensures v.Some? ==> exists i :: 0 <= i < |r| && r[i] == Item(k, v.value)
  {
    if Has(r, k) then Some(r[Find(r, k)].value) else None
  }

  /** registry[k] = v: an existing key keeps its position, a new key goes last. */
  function Put(r: Registry, k: string, v: RegValue): (r': Registry)
    ensures Has(r, k) ==>
      (|r'| == |r| && r'[Find(r, k)] == Item(k, v) &&
       forall j :: 0 <= j < |r| && j != Find(r, k) ==> r'[j] == r[j])
    ensures !Has(r, k) ==> r' == r + [Item(k, v)]
  {
    if Has(r, k) then r[Find(r, k) := Item(k, v)] else r + [Item(k, v)]
  }

  /** del registry[k]. */
  function Remove(r: Registry, k: string): (r': Registry)
    requires Has(r, k)
  {
    var i := Find(r, k);
    r[..i] + r[i + 1..]
  }

  lemma PutKeepsDistinct(r: Registry, k: string, v: RegValue)
    requires DistinctKeys(r)
    ensures DistinctKeys(Put(r, k, v))
    ensures forall k' :: Has(Put(r, k, v), k') <==> Has(r, k') || k' == k
  {
    var r' := Put(r, k, v);
    forall k' | Has(r, k') ensures Has(r', k') {
      var i :| 0 <= i < |r| && r[i].key == k';
      assert r'[i].key == k';
    }
    assert r'[if Has(r, k) then Find(r, k) else |r|].key == k;
  }

  /** Put leaves the keys alone, adding k, and the value of every other key. */
  lemma PutHas(r: Registry, k: string, v: RegValue, k': string)
    ensures Has(Put(r, k, v), k') <==> Has(r, k') || k' == k
    ensures k' != k ==> Lookup(Put(r, k, v), k') == Lookup(r, k')
    ensures Lookup(Put(r, k, v), k) == Some(v)
  {
    var r' := Put(r, k, v);
    assert forall j :: 0 <= j < |r| ==> r'[j].key == r[j].key;
    assert r'[if Has(r, k) then Find(r, k) else |r|].key == k;
    if Has(r, k') {
      var i := Find(r, k');
      assert r'[i].key == k';
    }
    if k' != k && Has(r', k') {
      var i' := Find(r', k');
      assert i' < |r| && r[i'].key == k';
      var i := Find(r, k');
      assert r'[i].key == k';
      assert i == i';
    }
  }

  /** A second assignment to the same key overrides the first, in place. */
  lemma PutPut(r: Registry, k: string, v: RegValue, w: RegValue)
    ensures Put(Put(r, k, v), k, w) == Put(r, k, w)
  {
    var r' := Put(r, k, v);
    var i := if Has(r, k) then Find(r, k) else |r|;
    assert r'[i].key == k;
    assert forall j :: 0 <= j < i ==> r'[j].key == r[j].key;
    assert Find(r', k) == i;
  }

  /** Assigning a key the value it already has changes nothing. */
  lemma PutSame(r: Registry, k: string, v: RegValue)
    requires Lookup(r, k) == Some(v)
    ensures Put(r, k, v) == r
  {
    assert r[Find(r, k)] == Item(k, v);
  }

  lemma RemoveWellFormed(r: Registry, k: string)
    requires WellFormedRegistry(r) && Has(r, k)
    ensures WellFormedRegistry(Remove(r, k))
  {
    var i := Find(r, k);
    var r' := Remove(r, k);
    assert forall j :: 0 <= j < |r'| ==> r'[j] == r[if j < i then j else j + 1];
  }

  /** del removes k and nothing else. */
  lemma LookupRemove(r: Registry, k: string, k': string)
    requires DistinctKeys(r) && Has(r, k)
    ensures DistinctKeys(Remove(r, k))
    ensures Lookup(Remove(r, k), k') == if k' == k then None else Lookup(r, k')
  {
    var i := Find(r, k);
    var r' := Remove(r, k);
    RemoveAt(r, i);
    if k' != k && Has(r, k') {
      var j := Find(r, k');
      var j' := if j < i then j else j - 1;
      assert r'[j'] == r[j];
      LookupAt(r, j, k');
      LookupAt(r', j', k');
    } else {
      forall m | 0 <= m < |r'| ensures r'[m].key != k' {
        assert r'[m] == r[if m < i then m else m + 1];
      }
    }
  }

  /** Deleting the entry at position i shifts the later entries down by one and keeps the keys distinct. */
  lemma RemoveAt(r: Registry, i: nat)
    requires DistinctKeys(r) && i < |r|
    ensures var r' := r[..i] + r[i + 1..];
      && |r'| == |r| - 1
      && (forall j :: 0 <= j < |r'| ==> r'[j] == r[if j < i then j else j + 1])
      && DistinctKeys(r')
  {
    var r' := r[..i] + r[i + 1..];
    assert forall j :: 0 <= j < |r'| ==> r'[j] == r[if j < i then j else j + 1];
  }

  /** In a registry with distinct keys, the entry at any position with key k is the one Lookup finds. */
  lemma LookupAt(r: Registry, i: nat, k: string)
    requires DistinctKeys(r) && i < |r| && r[i].key == k
    ensures Lookup(r, k) == Some(r[i].value)
  {
    assert Has(r, k);
  }

  // ---------------------------------------------------------------------------
  // Text form

  /** One line of the registry document: k + '=' + json.dumps(v). */
  function Line(it: Item): string
  {
    it.key + "=" + Print(it.value)
  }

  /** The lines of the registry document, one per entry in dict order. */
  function Lines(r: Registry): (ls: seq<string>)
    ensures |ls| == |r|
  {
    if |r| == 0 then [] else [Line(r[0])] + Lines(r[1..])
  }

  lemma {:induction false} LineAt(r: Registry, i: nat)
    requires i < |r|
    ensures Lines(r)[i] == Line(r[i])
    decreases |r|
  {
    if i > 0 {
      LineAt(r[1..], i - 1);
    }
  }

  /** Lines 117-119: the lines joined by newlines, minus a final '}' when the text ends in "}}". */
  function RenderText(r: Registry): string
  {
    var text := Join(Lines(r), '\n');
    if EndsWith(text, "}}") then text[..|text| - 1] else text
  }

  /** _get_lines: the paragraphs of a document body, each stripped, and the body length. */
  function DocLines(body: string): seq<string>
  {
    var ps := Split(body, '\n');
    seq(|ps|, i requires 0 <= i < |ps| => Strip(ps[i]))
  }

  /** Lines 59-60: a line ending in "}}" loses its last character. */
  function TrimLine(l: string): string
  {
    if EndsWith(l, "}}") then l[..|l| - 1] else l
  }

  /** The outcome of the loop of lines 58-62: the finished registry, or what was filled in before json.loads raised. */
  datatype Loaded = Loaded(reg: Registry) | Failed(reg: Registry)

  /** What one line contributes to the loop of lines 58-62: nothing (no '='), a json.loads failure, or one assignment. */
  datatype View = Skip | Bad | Pair(key: string, value: RegValue)

  /** Lines 59-62 for one line: trim, split at '=', parse the text between the first and second '='. */
  function ParseLine(l: string): View
  {
    var t := TrimLine(l);
    if '=' !in t then Skip
    else
      var parts := Split(t, '=');
      match Parse(parts[1])
      case None => Bad
      case Some(v) => Pair(parts[0], v)
  }

  function Views(lines: seq<string>): seq<View>
  {
    MapLines(ParseLine, lines)
  }

  /** f applied to every line. */
  function MapLines<T>(f: string -> T, lines: seq<string>): seq<T>
  {
    seq(|lines|, i requires 0 <= i < |lines| => f(lines[i]))
  }

  /** The assignments of the views, in order, onto acc; the first failure stops the loop. */
  function Apply(acc: Registry, vs: seq<View>): Loaded
    decreases |vs|
  {
    if |vs| == 0 then Loaded(acc)
    else
      match vs[0]
      case Skip => Apply(acc, vs[1..])
      case Bad => Failed(acc)
      case Pair(k, v) => Apply(Put(acc, k, v), vs[1..])
  }

  /** Lines 58-62 from a registry acc already holding the entries of the lines before. */
  function Load(acc: Registry, lines: seq<string>): Loaded
  {
    Apply(acc, Views(lines))
  }

  // ---------------------------------------------------------------------------
  // Reading back what was written

  /**
   * A key whose line survives the document round trip: no '=' (the separator), no newline
   * (the paragraph break) and no leading whitespace (removed by strip).
   */
  predicate LineSafeKey(k: string)
  {
    '=' !in k && '\n' !in k && (|k| > 0 ==> !IsSpace(k[0]))
  }

  /** A registry that survives the round trip through its document. */
  predicate WellFormedRegistry(r: Registry)
  {
    && DistinctKeys(r)
    && forall i :: 0 <= i < |r| ==> LineSafeKey(r[i].key) && WellFormed(r[i].value)
  }

  lemma SplitPair(k: string, p: string)
    requires '=' !in k && '=' !in p
    ensures Split(k + "=" + p, '=') == [k, p]
  {
    assert k + "=" + p == Join([k, p], '=');
    SplitJoin([k, p], '=');
  }

  /** Strip and TrimLine leave a line alone that starts with a non-space and ends in one '}'. */
  lemma PlainLine(l: string)
    requires |l| >= 2 && !IsSpace(l[0]) && l[|l| - 1] == '}' && l[|l| - 2] != '}'
    ensures Strip(l) == l && TrimLine(l) == l
    ensures Strip(l + "}") == l + "}" && TrimLine(l + "}") == l
  {
    StripKeeps(l);
    StripKeeps(l + "}");
    assert (l + "}")[..|l|] == l;
    assert !EndsWith(l, "}}") by { assert l[|l| - 2..][0] != '}'; }
  }

  /** The line of a safe key and a well-formed value splits back into the two and is plain. */
  lemma LineShape(it: Item)
    requires LineSafeKey(it.key) && WellFormed(it.value)
    ensures var l := Line(it);
      && PlainText(l) && '=' in l
      && Split(l, '=') == [it.key, Print(it.value)]
      && TrimLine(l) == l && TrimLine(l + "}") == l
  {
    PrintShape(it.value);
    LineOf(it.key, Print(it.value));
  }

  lemma LineOf(k: string, p: string)
    requires LineSafeKey(k)
    requires OneBrace(p) && p[0] == '{' && Clean(p)
    ensures var l := k + "=" + p;
      && PlainText(l) && '=' in l
      && Split(l, '=') == [k, p]
      && TrimLine(l) == l && TrimLine(l + "}") == l
  {
    var l := k + "=" + p;
    SplitPair(k, p);
    assert l[|k|] == '=';
    assert l[|l| - 1] == p[|p| - 1] && l[|l| - 2] == p[|p| - 2];
    assert l[0] == '=' || l[0] == k[0];
    PlainLine(l);
  }

  /** The view of every entry: the assignment its line makes. */
  function Pairs(r: Registry): seq<View>
  {
    seq(|r|, i requires 0 <= i < |r| => Pair(r[i].key, r[i].value))
  }

  /** One line k=json(v), with or without one stray '}' after it, sets registry[k] = v. */
  lemma ParseLineOf(it: Item)
    requires LineSafeKey(it.key) && WellFormed(it.value)
    ensures ParseLine(Line(it)) == Pair(it.key, it.value)
    ensures ParseLine(Line(it) + "}") == Pair(it.key, it.value)
  {
    LineShape(it);
    ParseOfPrint(it.value);
  }

  lemma ViewsOfLines(r: Registry)
    requires WellFormedRegistry(r)
    ensures Views(Lines(r)) == Pairs(r)
  {
    forall i | 0 <= i < |r| ensures Views(Lines(r))[i] == Pairs(r)[i] {
      LineAt(r, i);
      ParseLineOf(r[i]);
    }
  }

  /** The same with one stray '}' after the last line. */
  lemma ViewsOfBraced(r: Registry)
    requires WellFormedRegistry(r) && |r| > 0
    ensures var ls := Lines(r); Views(ls[..|r| - 1] + [ls[|r| - 1] + "}"]) == Pairs(r)
  {
    var ls := Lines(r);
    ViewsOfLines(r);
    LastBracedParses(r);
    ViewsReplaceLast(ls, ls[|r| - 1] + "}");
  }

  /** The last rendered line parses the same with a stale '}' after it. */
  lemma LastBracedParses(r: Registry)
    requires WellFormedRegistry(r) && |r| > 0
    ensures |Lines(r)| == |r|
    ensures ParseLine(Lines(r)[|r| - 1] + "}") == ParseLine(Lines(r)[|r| - 1])
  {
    LineAt(r, |r| - 1);
    ParseLineOf(r[|r| - 1]);
  }

  /** Replacing the last line by one that parses the same leaves the views alone. */
  lemma ViewsReplaceLast(ls: seq<string>, x: string)
    requires |ls| > 0 && ParseLine(x) == ParseLine(ls[|ls| - 1])
    ensures Views(ls[..|ls| - 1] + [x]) == Views(ls)
  {
    MapLinesReplaceLast(ParseLine, ls, x);
  }

  lemma MapLinesReplaceLast<T>(f: string -> T, ls: seq<string>, x: string)
    requires |ls| > 0 && f(x) == f(ls[|ls| - 1])
    ensures MapLines(f, ls[..|ls| - 1] + [x]) == MapLines(f, ls)
  {
    var ls' := ls[..|ls| - 1] + [x];
    forall i | 0 <= i < |ls| ensures MapLines(f, ls')[i] == MapLines(f, ls)[i] {
      if i < |ls| - 1 {
        assert ls'[i] == ls[i];
      } else {
        assert ls'[i] == x;
      }
    }
  }

  /** Appending the first item of r to acc keeps acc and the rest of r apart. */
  lemma ShiftFirst(acc: Registry, r: Registry)
    requires DistinctKeys(r) && DistinctKeys(acc) && |r| > 0
    requires forall i :: 0 <= i < |r| ==> !Has(acc, r[i].key)
    ensures DistinctKeys(acc + [r[0]]) && DistinctKeys(r[1..])
    ensures forall i :: 0 <= i < |r| - 1 ==> !Has(acc + [r[0]], r[1..][i].key)
  {
    var acc' := acc + [r[0]];
    assert !Has(acc, r[0].key);
    forall i | 0 <= i < |r| - 1 ensures !Has(acc', r[1..][i].key) {
      var k := r[i + 1].key;
      assert r[1..][i] == r[i + 1];
      assert k != r[0].key;
      assert !Has(acc, k);
    }
  }

  /** Assigning distinct new keys one after the other appends them in order. */
  lemma {:induction false} ApplyPairs(acc: Registry, r: Registry)
    requires DistinctKeys(r) && DistinctKeys(acc)
    requires forall i :: 0 <= i < |r| ==> !Has(acc, r[i].key)
    ensures Apply(acc, Pairs(r)) == Loaded(acc + r)
    decreases |r|
  {
    if |r| > 0 {
      assert !Has(acc, r[0].key);
      assert Pairs(r)[1..] == Pairs(r[1..]);
      ShiftFirst(acc, r);
      ApplyPairs(acc + [r[0]], r[1..]);
      assert acc + [r[0]] + r[1..] == acc + r;
    } else {
      assert acc + r == acc;
    }
  }

  /** Every line of a well-formed registry is one paragraph that strip leaves alone. */
  lemma LinesPlain(r: Registry)
    requires WellFormedRegistry(r)
    ensures PlainLines(Lines(r))
  {
    forall i | 0 <= i < |r| ensures '\n' !in Lines(r)[i] && Strip(Lines(r)[i]) == Lines(r)[i] {
      LineShape(r[i]);
      LineAt(r, i);
      PlainEq(Lines(r)[i], Line(r[i]));
    }
  }

  lemma PlainEq(l: string, m: string)
    requires l == m && PlainText(m)
    ensures '\n' !in l && Strip(l) == l
  {
  }

  /** Joining lines whose last one ends in exactly one '}' does not end in "}}". */
  lemma JoinLastBrace(ls: seq<string>)
    requires |ls| > 0 && OneBrace(ls[|ls| - 1])
    ensures !EndsWith(Join(ls, '\n'), "}}")
    ensures var t := Join(ls, '\n'); |t| >= 2 && t[|t| - 1] == '}'
  {
    JoinEndsWithLast(ls, '\n');
    BraceSuffix(Join(ls, '\n'), ls[|ls| - 1]);
  }

  /** A text ending with a line that ends in exactly one '}' ends so too. */
  lemma BraceSuffix(t: string, l: string)
    requires EndsWith(t, l) && OneBrace(l)
    ensures !EndsWith(t, "}}") && |t| >= 2 && t[|t| - 1] == '}'
  {
    assert t[|t| - 2..] == l[|l| - 2..] by {
      assert t[|t| - |l|..] == l;
    }
    assert t[|t| - 2..][0] != '}';
  }

  /** Paragraphs free of newlines that strip leaves alone come back from their join unchanged. */
  lemma DocLinesOfJoin(ls: seq<string>)
    requires |ls| > 0 && PlainLines(ls)
    ensures DocLines(Join(ls, '\n')) == ls
  {
    SplitJoin(ls, '\n');
  }

  /** Joining plain lines never ends in "}}", and splitting the join plus a '}' gives the lines back, the last with the '}'. */
  lemma JoinPlain(ls: seq<string>)
    requires |ls| > 0 && PlainLines(ls) && PlainText(ls[|ls| - 1])
    ensures !EndsWith(Join(ls, '\n'), "}}")
    ensures DocLines(Join(ls, '\n') + "}") == ls[..|ls| - 1] + [ls[|ls| - 1] + "}"]
  {
    var n := |ls|;
    var l := ls[n - 1];
    JoinLastBrace(ls);
    JoinAppendLast(ls, '\n', "}");
    PlainPrefix(ls);
    BracedPlain(l);
    PlainSnoc(ls[..n - 1], l + "}");
    DocLinesOfJoin(ls[..n - 1] + [l + "}"]);
  }

  lemma PlainPrefix(ls: seq<string>)
    requires |ls| > 0 && PlainLines(ls)
    ensures PlainLines(ls[..|ls| - 1])
  {
  }

  lemma PlainSnoc(ls: seq<string>, x: string)
    requires PlainLines(ls) && '\n' !in x && Strip(x) == x
    ensures PlainLines(ls + [x])
  {
  }

  lemma BracedPlain(l: string)
    requires PlainText(l)
    ensures '\n' !in l + "}" && Strip(l + "}") == l + "}"
  {
  }

  /** The paragraphs of the rendered registry are its lines. */
  lemma SplitRendered(r: Registry)
    requires WellFormedRegistry(r) && |r| > 0
    ensures DocLines(RenderText(r)) == Lines(r)
  {
    LinesPlain(r);
    LastLinePlain(r);
    RenderedLines(Lines(r), RenderText(r));
  }

  /** The paragraphs of the rendered registry followed by a stray '}' are its lines, the last with the '}'. */
  lemma SplitRenderedBrace(r: Registry)
    requires WellFormedRegistry(r) && |r| > 0
    ensures var ls := Lines(r); DocLines(RenderText(r) + "}") == ls[..|ls| - 1] + [ls[|ls| - 1] + "}"]
  {
    LinesPlain(r);
    LastLinePlain(r);
    RenderedBraceLines(Lines(r), RenderText(r));
  }

  /** The text rendered from plain lines splits back into them. */
  lemma RenderedLines(ls: seq<string>, t: string)
    ensures (&& |ls| > 0 && PlainLines(ls) && PlainText(ls[|ls| - 1])
             && t == (var text := Join(ls, '\n'); if EndsWith(text, "}}") then text[..|text| - 1] else text)) ==>
      DocLines(t) == ls
  {
    if |ls| > 0 && PlainLines(ls) && PlainText(ls[|ls| - 1]) {
      JoinLastBrace(ls);
      DocLinesOfJoin(ls);
    }
  }

  /** The text rendered from plain lines, with a stray '}' after it, splits into them with the '}' on the last. */
  lemma RenderedBraceLines(ls: seq<string>, t: string)
    ensures (&& |ls| > 0 && PlainLines(ls) && PlainText(ls[|ls| - 1])
             && t == (var text := Join(ls, '\n'); if EndsWith(text, "}}") then text[..|text| - 1] else text)) ==>
      DocLines(t + "}") == ls[..|ls| - 1] + [ls[|ls| - 1] + "}"]
  {
    if |ls| > 0 && PlainLines(ls) && PlainText(ls[|ls| - 1]) {
      JoinPlain(ls);
    }
  }

  /** A non-empty rendered registry has at least two characters and ends in '}'. */
  lemma RenderEnds(r: Registry)
    requires WellFormedRegistry(r) && |r| > 0
    ensures var t := RenderText(r); |t| >= 2 && t[|t| - 1] == '}'
  {
    LastLinePlain(r);
    RenderBrace(r);
  }

  /** The last line of a well-formed registry is plain. */
  lemma LastLinePlain(r: Registry)
    requires WellFormedRegistry(r) && |r| > 0
    ensures PlainText(Lines(r)[|r| - 1])
  {
    LastItem(r);
    LineAt(r, |r| - 1);
    LineShape(r[|r| - 1]);
  }

  lemma LastItem(r: Registry)
    requires WellFormedRegistry(r) && |r| > 0
    ensures LineSafeKey(r[|r| - 1].key) && WellFormed(r[|r| - 1].value)
  {
  }

  /** A registry whose last line ends in exactly one '}' renders to the plain join of its lines. */
  lemma RenderBrace(r: Registry)
    requires |r| > 0 && OneBrace(Lines(r)[|r| - 1])
    ensures var t := RenderText(r); |t| >= 2 && t[|t| - 1] == '}' && t == Join(Lines(r), '\n')
  {
    JoinLastBrace(Lines(r));
  }

  /** Lines that read as the assignments of r, onto a registry without r's keys, append r. */
  lemma LoadPairs(acc: Registry, lines: seq<string>, r: Registry)
    requires Views(lines) == Pairs(r)
    requires DistinctKeys(r) && DistinctKeys(acc)
    requires forall i :: 0 <= i < |r| ==> !Has(acc, r[i].key)
    ensures Load(acc, lines) == Loaded(acc + r)
  {
    ApplyPairs(acc, r);
  }

  /** Reading a document body holding exactly the rendered registry gives the registry back. */
  lemma Reload(r: Registry)
    requires WellFormedRegistry(r)
    ensures Load([], DocLines(RenderText(r))) == Loaded(r)
  {
    var lines := DocLines(RenderText(r));
    if |r| > 0 {
      SplitRendered(r);
      ViewsOfLines(r);
      ReloadFromViews(lines, r);
    } else {
      ReloadEmpty();
    }
  }

  /** The empty registry renders as the empty body, which reads as one empty line and no entry. */
  lemma ReloadEmpty()
    ensures Load([], DocLines(RenderText([]))) == Loaded([])
  {
    assert RenderText([]) == "";
    assert Split("", '\n') == [""];
    assert DocLines("") == [""];
    assert ParseLine("") == Skip;
    assert Views([""])[0] == Skip;
    assert Views([""]) == [Skip];
  }

  /**
   * Reading a body holding the rendered registry followed by one stray '}' also gives the
   * registry back: the last line then ends in "}}" and loses the extra character (lines 59-60).
   */
  lemma ReloadWithBrace(r: Registry)
    requires WellFormedRegistry(r) && |r| > 0
    ensures Load([], DocLines(RenderText(r) + "}")) == Loaded(r)
  {
    SplitRenderedBrace(r);
    ViewsOfBraced(r);
    ReloadFromViews(DocLines(RenderText(r) + "}"), r);
  }

  /** Lines whose views are the pairs of a registry with distinct keys read as that registry. */
  lemma ReloadFromViews(lines: seq<string>, r: Registry)
    requires DistinctKeys(r) && Views(lines) == Pairs(r)
    ensures Load([], lines) == Loaded(r)
  {
    var e: Registry := [];
    PrependEmpty(e, r);
    LoadPairs(e, lines, r);
  }

  lemma PrependEmpty(e: Registry, r: Registry)
    requires e == []
    ensures e + r == r && DistinctKeys(e) && forall i :: 0 <= i < |r| ==> !Has(e, r[i].key)
  {
  }

  // ---------------------------------------------------------------------------
  // The loop of lines 58-62, one line at a time, and what it can produce

  /** One step of the loop of lines 58-62. */
  lemma LoadFirst(acc: Registry, lines: seq<string>)
    requires |lines| > 0
    ensures Load(acc, lines) ==
      match ParseLine(lines[0])
      case Skip => Load(acc, lines[1..])
      case Bad => Failed(acc)
      case Pair(k, v) => Load(Put(acc, k, v), lines[1..])
  {
    ViewsTail(lines);
    ApplyFirst(acc, Views(lines));
  }

  lemma ViewsTail(lines: seq<string>)
    requires |lines| > 0
    ensures Views(lines)[0] == ParseLine(lines[0]) && Views(lines)[1..] == Views(lines[1..])
  {
    MapLinesTail(ParseLine, lines);
  }

  lemma MapLinesTail<T>(f: string -> T, lines: seq<string>)
    requires |lines| > 0
    ensures MapLines(f, lines)[1..] == MapLines(f, lines[1..])
  {
    forall i | 0 <= i < |lines| - 1 ensures MapLines(f, lines)[1..][i] == MapLines(f, lines[1..])[i] {
      assert lines[1..][i] == lines[i + 1];
    }
  }

  lemma ApplyFirst(acc: Registry, vs: seq<View>)
    requires |vs| > 0
    ensures Apply(acc, vs) ==
      match vs[0]
      case Skip => Apply(acc, vs[1..])
      case Bad => Failed(acc)
      case Pair(k, v) => Apply(Put(acc, k, v), vs[1..])
  {
  }

  /** One turn of the loop of lines 58-62, from line j: trim, then skip, fail or assign. */
  lemma LoadStep(acc: Registry, lines: seq<string>, j: nat)
    requires j < |lines|
    ensures var t := TrimLine(lines[j]);
      Load(acc, lines[j..]) ==
        if '=' !in t then Load(acc, lines[j + 1..])
        else
          match Parse(Split(t, '=')[1])
          case None => Failed(acc)
          case Some(v) => Load(Put(acc, Split(t, '=')[0], v), lines[j + 1..])
  {
    LoadFirst(acc, lines[j..]);
    assert lines[j..][0] == lines[j] && lines[j..][1..] == lines[j + 1..];
  }

  /** A view whose assignment, if any, could be written back and read again. */
  predicate SafeView(w: View)
  {
    w.Pair? ==> LineSafeKey(w.key) && WellFormed(w.value)
  }

  lemma PutWellFormed(r: Registry, k: string, v: RegValue)
    requires WellFormedRegistry(r) && LineSafeKey(k) && WellFormed(v)
    ensures WellFormedRegistry(Put(r, k, v))
  {
    PutKeepsDistinct(r, k, v);
    var r' := Put(r, k, v);
    forall i | 0 <= i < |r'| ensures LineSafeKey(r'[i].key) && WellFormed(r'[i].value) {
      if !Has(r, k) && i < |r| {
        assert r'[i] == r[i];
      }
    }
  }

  lemma {:induction false} ApplyWellFormed(acc: Registry, vs: seq<View>)
    requires WellFormedRegistry(acc)
    requires forall i :: 0 <= i < |vs| ==> SafeView(vs[i])
    ensures WellFormedRegistry(Apply(acc, vs).reg)
    decreases |vs|
  {
    if |vs| > 0 {
      assert SafeView(vs[0]);
      assert forall i :: 0 <= i < |vs| - 1 ==> vs[1..][i] == vs[i + 1];
      match vs[0]
      case Skip => ApplyWellFormed(acc, vs[1..]);
      case Bad =>
      case Pair(k, v) =>
        PutWellFormed(acc, k, v);
        ApplyWellFormed(Put(acc, k, v), vs[1..]);
    }
  }

  /** A line with no newline and no leading space assigns, if anything, a key that survives the round trip. */
  lemma ParseLineSafe(l: string)
    requires '\n' !in l && (|l| > 0 ==> !IsSpace(l[0]))
    ensures SafeView(ParseLine(l))
  {
    var t := TrimLine(l);
    assert t == l[..|t|];
    if '=' in t {
      var parts := Split(t, '=');
      var key := parts[0];
      assert key == t[..FirstIndex(t, '=')];
      assert forall j :: 0 <= j < |key| ==> key[j] == l[j];
      if Parse(parts[1]).Some? {
        ParseWellFormed(parts[1]);
      }
    }
  }

  /** Stripped paragraphs hold no newline and start with a non-space. */
  lemma DocLineShape(p: string)
    requires '\n' !in p
    ensures var l := Strip(p); '\n' !in l && (|l| > 0 ==> !IsSpace(l[0]))
  {
    var sl := StripLeft(p);
    var l := StripRight(sl);
    NotInSlices(p, |p| - |sl|, '\n');
    NotInSlices(sl, |l|, '\n');
    if |l| > 0 {
      assert l[0] == sl[0];
    }
  }

  /** Whatever a registry document holds, the loop of lines 58-62 builds a registry that survives writing back. */
  lemma LoadWellFormed(body: string)
    ensures WellFormedRegistry(Load([], DocLines(body)).reg)
  {
    var lines := DocLines(body);
    var vs := Views(lines);
    forall i | 0 <= i < |vs| ensures SafeView(vs[i]) {
      DocLineShape(Split(body, '\n')[i]);
      ParseLineSafe(lines[i]);
    }
    ApplyWellFormed([], vs);
  }
}
