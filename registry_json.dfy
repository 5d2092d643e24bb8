/**
 * The JSON text of a registry value, as json.dumps prints it with its default separators
 * (", " between items, ": " after a key) and as json.loads reads it back. Only the two
 * shapes the engine writes are modelled: a user entry and the reserved allocation list.
 */
module RegistryJson {
  import opened Wrappers
  import opened Text

  /** A backend document id. */
  type Id = string

  /** Characters of backend document ids: letters, digits, '-' and '_'. */
  predicate IsIdChar(c: char)
  {
    'A' <= c <= 'Z' || 'a' <= c <= 'z' || '0' <= c <= '9' || c == '-' || c == '_'
  }

  predicate IsId(id: Id)
  {
    forall i :: 0 <= i < |id| ==> IsIdChar(id[i])
  }

  predicate AllIds(ids: seq<Id>)
  {
    forall i :: 0 <= i < |ids| ==> IsId(ids[i])
  }

  /**
   * {'length': n, 'files': [...], 'wasPython': b} for a user key, or
   * {'all': [...]} for the reserved allocation list.
   */
  datatype RegValue =
    | Entry(length: nat, files: seq<Id>, wasPython: bool)
    | Reserved(all: seq<Id>)

  predicate WellFormed(v: RegValue)
  {
    match v
    case Entry(_, files, _) => AllIds(files)
    case Reserved(all) => AllIds(all)
  }

  predicate IsDigit(c: char)
  {
    '0' <= c <= '9'
  }

  function DigitChar(d: int): (c: char)
    requires 0 <= d < 10
    ensures IsDigit(c)
  {
    ('0' as int + d) as char
  }

  function DigitValue(c: char): (d: nat)
    requires IsDigit(c)
    ensures d < 10 && DigitChar(d) == c
  {
    c as int - '0' as int
  }

  /** Decimal notation, without leading zeros. */
  function NatToString(n: nat): (s: string)
    ensures |s| > 0 && (|s| > 1 ==> s[0] != '0')
    ensures forall i :: 0 <= i < |s| ==> IsDigit(s[i])
  {
    if n < 10 then [DigitChar(n)] else NatToString(n / 10) + [DigitChar(n % 10)]
  }

  function DigitsValue(s: string): nat
    requires forall i :: 0 <= i < |s| ==> IsDigit(s[i])
  {
    if |s| == 0 then 0 else DigitsValue(s[..|s| - 1]) * 10 + DigitValue(s[|s| - 1])
  }

  /** The number of leading digits. */
  function DigitRun(s: string): (k: nat)
    ensures k <= |s| && (k < |s| ==> !IsDigit(s[k]))
    ensures forall i :: 0 <= i < k ==> IsDigit(s[i])
  {
    if |s| > 0 && IsDigit(s[0]) then 1 + DigitRun(s[1..]) else 0
  }

  /** The number of leading id characters. */
  function IdRun(s: string): (k: nat)
    ensures k <= |s| && (k < |s| ==> !IsIdChar(s[k]))
    ensures forall i :: 0 <= i < k ==> IsIdChar(s[i])
  {
    if |s| > 0 && IsIdChar(s[0]) then 1 + IdRun(s[1..]) else 0
  }

  function Expect(s: string, lit: string): Option<string>
  {
    if StartsWith(s, lit) then Some(s[|lit|..]) else None
  }

  /** A JSON number that is a natural number; JSON forbids leading zeros. */
  function ParseNat(s: string): Option<(nat, string)>
  {
    var k := DigitRun(s);
    if k == 0 || (k > 1 && s[0] == '0') then None else Some((DigitsValue(s[..k]), s[k..]))
  }

  function Quote(id: Id): string
  {
    "\"" + id + "\""
  }

  function ParseString(s: string): Option<(Id, string)>
  {
    var rest :- Expect(s, "\"");
    var k := IdRun(rest);
    if k < |rest| && rest[k] == '"' then Some((rest[..k], rest[k + 1..])) else None
  }

  /** The items of a non-empty list and its closing bracket. */
  function PrintItems(ids: seq<Id>): string
    requires |ids| > 0
  {
    if |ids| == 1 then Quote(ids[0]) + "]" else Quote(ids[0]) + (", " + PrintItems(ids[1..]))
  }

  function PrintList(ids: seq<Id>): string
  {
    if |ids| == 0 then "[]" else "[" + PrintItems(ids)
  }

  function ParseItems(s: string): Option<(seq<Id>, string)>
    decreases |s|
  {
    var (id, rest) :- ParseString(s);
    if StartsWith(rest, "]") then Some(([id], rest[1..]))
    else
      var more :- Expect(rest, ", ");
      var (ids, tail) :- ParseItems(more);
      Some(([id] + ids, tail))
  }

  function ParseList(s: string): Option<(seq<Id>, string)>
  {
    var rest :- Expect(s, "[");
    if StartsWith(rest, "]") then Some(([], rest[1..])) else ParseItems(rest)
  }

  function PrintBool(b: bool): string
  {
    if b then "true" else "false"
  }

  /** The closing "true}" or "false}" of an entry. */
  function ParseBoolEnd(s: string): Option<bool>
  {
    if s == "true}" then Some(true) else if s == "false}" then Some(false) else None
  }

  /** json.dumps of a registry value. */
  function Print(v: RegValue): string
  {
    match v
    case Entry(length, files, wasPython) =>
      "{\"length\": " + (NatToString(length) + (", \"files\": " + (PrintList(files) +
        (", \"wasPython\": " + (PrintBool(wasPython) + "}")))))
    case Reserved(all) =>
      "{\"all\": " + (PrintList(all) + "}")
  }

  /** json.loads of a registry value; None where the text is not one of the two shapes. */
  function Parse(s: string): Option<RegValue>
  {
    if StartsWith(s, "{\"length\": ") then
      var (length, r1) :- ParseNat(s[11..]);
      var r2 :- Expect(r1, ", \"files\": ");
      var (files, r3) :- ParseList(r2);
      var r4 :- Expect(r3, ", \"wasPython\": ");
      var wasPython :- ParseBoolEnd(r4);
      Some(Entry(length, files, wasPython))
    else
      var r1 :- Expect(s, "{\"all\": ");
      var (all, r2) :- ParseList(r1);
      if r2 == "}" then Some(Reserved(all)) else None
  }

  lemma {:induction false} DigitsValueOfNat(n: nat)
    ensures DigitsValue(NatToString(n)) == n
  {
    if n >= 10 {
      var s := NatToString(n);
      assert s[..|s| - 1] == NatToString(n / 10);
      DigitsValueOfNat(n / 10);
    }
  }

  lemma {:induction false} DigitRunOf(d: string, rest: string)
    requires forall i :: 0 <= i < |d| ==> IsDigit(d[i])
    requires rest == "" || !IsDigit(rest[0])
    ensures DigitRun(d + rest) == |d|
  {
    if |d| > 0 {
      assert (d + rest)[1..] == d[1..] + rest;
      DigitRunOf(d[1..], rest);
    }
  }

  lemma ParseNatOfPrint(n: nat, rest: string)
    requires rest == "" || !IsDigit(rest[0])
    ensures ParseNat(NatToString(n) + rest) == Some((n, rest))
  {
    var d := NatToString(n);
    DigitRunOf(d, rest);
    assert (d + rest)[..|d|] == d && (d + rest)[|d|..] == rest;
    DigitsValueOfNat(n);
  }

  lemma ExpectOf(lit: string, rest: string)
    ensures Expect(lit + rest, lit) == Some(rest)
  {
    assert (lit + rest)[..|lit|] == lit;
  }

  lemma {:induction false} IdRunOf(id: Id, rest: string)
    requires IsId(id)
    requires rest == "" || !IsIdChar(rest[0])
    ensures IdRun(id + rest) == |id|
  {
    if |id| > 0 {
      assert (id + rest)[1..] == id[1..] + rest;
      IdRunOf(id[1..], rest);
    }
  }

  lemma ParseStringOfQuote(id: Id, rest: string)
    requires IsId(id)
    ensures ParseString(Quote(id) + rest) == Some((id, rest))
  {
    var s := Quote(id) + rest;
    assert s == "\"" + (id + ("\"" + rest));
    ExpectOf("\"", id + ("\"" + rest));
    IdRunOf(id, "\"" + rest);
    var r := id + ("\"" + rest);
    assert r[..|id|] == id && r[|id|] == '"' && r[|id| + 1..] == rest;
  }

  lemma {:induction false} ParseItemsOfPrint(ids: seq<Id>, rest: string)
    requires |ids| > 0 && AllIds(ids)
    ensures ParseItems(PrintItems(ids) + rest) == Some((ids, rest))
    decreases |ids|
  {
    if |ids| == 1 {
      ParseLastItem(ids[0], rest);
      assert ids == [ids[0]];
    } else {
      var more := PrintItems(ids[1..]) + rest;
      ParseItemsOfPrint(ids[1..], rest);
      ParseNextItem(ids[0], more, ids[1..], rest);
      Regroup(Quote(ids[0]), ", ", PrintItems(ids[1..]), rest);
      ConsTail(ids);
    }
  }

  lemma Regroup(a: string, b: string, c: string, d: string)
    ensures (a + (b + c)) + d == a + (b + (c + d))
  {
  }

  lemma ConsTail(ids: seq<Id>)
    requires |ids| > 0
    ensures [ids[0]] + ids[1..] == ids
  {
  }

  lemma ParseLastItem(id: Id, rest: string)
    requires IsId(id)
    ensures ParseItems(Quote(id) + "]" + rest) == Some(([id], rest))
  {
    assert Quote(id) + "]" + rest == Quote(id) + ("]" + rest);
    ParseStringOfQuote(id, "]" + rest);
    assert ("]" + rest)[1..] == rest;
  }

  lemma ParseNextItem(id: Id, more: string, ids: seq<Id>, rest: string)
    requires IsId(id)
    requires ParseItems(more) == Some((ids, rest))
    ensures ParseItems(Quote(id) + (", " + more)) == Some(([id] + ids, rest))
  {
    ParseStringOfQuote(id, ", " + more);
    ExpectOf(", ", more);
    assert (", " + more)[0] == ',';
    assert !StartsWith(", " + more, "]");
  }

  lemma ParseListOfPrint(ids: seq<Id>, rest: string)
    requires AllIds(ids)
    ensures ParseList(PrintList(ids) + rest) == Some((ids, rest))
  {
    if |ids| == 0 {
      ExpectOf("[", "]" + rest);
      assert PrintList(ids) + rest == "[" + ("]" + rest);
    } else {
      ExpectOf("[", PrintItems(ids) + rest);
      assert PrintList(ids) + rest == "[" + (PrintItems(ids) + rest);
      ParseItemsOfPrint(ids, rest);
      assert !StartsWith(PrintItems(ids) + rest, "]");
    }
  }

  /** json.loads(json.dumps(v)) == v for every value whose ids are plain id text. */
  lemma ParseOfPrint(v: RegValue)
    requires WellFormed(v)
    ensures Parse(Print(v)) == Some(v)
  {
    match v
    case Entry(length, files, wasPython) => ParseEntryOfPrint(length, files, wasPython);
    case Reserved(all) => ParseReservedOfPrint(all);
  }

  lemma ParseEntryOfPrint(length: nat, files: seq<Id>, wasPython: bool)
    requires AllIds(files)
    ensures Parse(Print(Entry(length, files, wasPython))) == Some(Entry(length, files, wasPython))
  {
    var tail3 := ", \"wasPython\": " + (PrintBool(wasPython) + "}");
    var tail2 := PrintList(files) + tail3;
    var tail1 := ", \"files\": " + tail2;
    LitPrefix("{\"length\": ", NatToString(length) + tail1);
    ParseNatOfPrint(length, tail1);
    ExpectOf(", \"files\": ", tail2);
    ParseListOfPrint(files, tail3);
    ExpectOf(", \"wasPython\": ", PrintBool(wasPython) + "}");
    ParseBoolOfPrint(wasPython);
  }

  lemma ParseBoolOfPrint(b: bool)
    ensures ParseBoolEnd(PrintBool(b) + "}") == Some(b)
  {
    if !b {
      assert (PrintBool(b) + "}")[0] == 'f';
    }
  }

  lemma ParseReservedOfPrint(all: seq<Id>)
    requires AllIds(all)
    ensures Parse(Print(Reserved(all))) == Some(Reserved(all))
  {
    var s := Print(Reserved(all));
    assert !StartsWith(s, "{\"length\": ") by { assert s[2] == 'a'; }
    ExpectOf("{\"all\": ", PrintList(all) + "}");
    ParseListOfPrint(all, "}");
  }

  lemma LitPrefix(lit: string, rest: string)
    ensures StartsWith(lit + rest, lit) && (lit + rest)[|lit|..] == rest
  {
    assert (lit + rest)[..|lit|] == lit;
  }

  /** The text holds neither '=' nor a newline. */
  predicate Clean(t: string)
  {
    '=' !in t && '\n' !in t
  }

  /** Printed values are one-line "{...}" texts without '=' whose last two characters are not "}}". */
  lemma PrintShape(v: RegValue)
    requires WellFormed(v)
    ensures var t := Print(v); OneBrace(t) && t[0] == '{' && Clean(t)
  {
    match v
    case Entry(length, files, wasPython) => EntryShape(length, files, wasPython);
    case Reserved(all) => ReservedShape(all);
  }

  lemma EntryShape(length: nat, files: seq<Id>, wasPython: bool)
    requires AllIds(files)
    ensures var t := Print(Entry(length, files, wasPython)); OneBrace(t) && t[0] == '{' && Clean(t)
  {
    var d := NatToString(length);
    var l := PrintList(files);
    var b := PrintBool(wasPython);
    ListPlain(files);
    DigitsPlain(d);
    BoolPlain(wasPython);
    BraceAfter(b);
    CatShape(", \"wasPython\": ", b + "}");
    CatShape(l, ", \"wasPython\": " + (b + "}"));
    CatShape(", \"files\": ", l + (", \"wasPython\": " + (b + "}")));
    CatShape(d, ", \"files\": " + (l + (", \"wasPython\": " + (b + "}"))));
    CatShape("{\"length\": ", d + (", \"files\": " + (l + (", \"wasPython\": " + (b + "}")))));
  }

  lemma ReservedShape(all: seq<Id>)
    requires AllIds(all)
    ensures var t := Print(Reserved(all)); OneBrace(t) && t[0] == '{' && Clean(t)
  {
    var l := PrintList(all);
    ListPlain(all);
    BraceAfter(l);
    CatShape("{\"all\": ", l + "}");
  }

  /** A clean prefix keeps a clean text clean, its single closing '}' and its first character. */
  lemma CatShape(a: string, t: string)
    requires |a| > 0 && Clean(a) && Clean(t) && OneBrace(t)
    ensures Clean(a + t) && OneBrace(a + t) && (a + t)[0] == a[0]
  {
    var u := a + t;
    assert u[|u| - 1] == t[|t| - 1] && u[|u| - 2] == t[|t| - 2];
  }

  lemma BraceAfter(t: string)
    requires |t| > 0 && Clean(t) && t[|t| - 1] != '}'
    ensures Clean(t + "}") && OneBrace(t + "}")
  {
    var u := t + "}";
    assert u[|u| - 2] == t[|t| - 1];
  }

  lemma BoolPlain(b: bool)
    ensures var t := PrintBool(b); |t| > 0 && Clean(t) && t[|t| - 1] == 'e'
  {
  }

  lemma DigitsPlain(d: string)
    requires forall i :: 0 <= i < |d| ==> IsDigit(d[i])
    ensures Clean(d)
  {
  }

  lemma IdPlain(id: Id)
    requires IsId(id)
    ensures Clean(id) && '"' !in id
  {
  }

  lemma {:induction false} ListPlain(ids: seq<Id>)
    requires AllIds(ids)
    ensures var t := PrintList(ids); Clean(t) && |t| >= 2 && t[|t| - 1] == ']'
  {
    if |ids| > 0 {
      ItemsPlain(ids);
    }
  }

  lemma {:induction false} ItemsPlain(ids: seq<Id>)
    requires |ids| > 0 && AllIds(ids)
    ensures var t := PrintItems(ids); Clean(t) && t[|t| - 1] == ']'
  {
    IdPlain(ids[0]);
    if |ids| > 1 {
      ItemsPlain(ids[1..]);
    }
  }

  lemma {:induction false} ParseStringWellFormed(s: string)
    requires ParseString(s).Some?
    ensures IsId(ParseString(s).value.0) && |ParseString(s).value.1| < |s|
  {
  }

  lemma {:induction false} ParseItemsWellFormed(s: string)
    requires ParseItems(s).Some?
    ensures AllIds(ParseItems(s).value.0)
    decreases |s|
  {
    var (id, rest) := ParseString(s).value;
    ParseStringWellFormed(s);
    if !StartsWith(rest, "]") {
      var more := Expect(rest, ", ").value;
      ParseItemsWellFormed(more);
    }
  }

  /** json.loads only yields values whose ids are plain id text. */
  lemma ParseWellFormed(s: string)
    requires Parse(s).Some?
    ensures WellFormed(Parse(s).value)
  {
    if StartsWith(s, "{\"length\": ") {
      var (length, r1) := ParseNat(s[11..]).value;
      var r2 := Expect(r1, ", \"files\": ").value;
      var rest := Expect(r2, "[").value;
      if !StartsWith(rest, "]") { ParseItemsWellFormed(rest); }
    } else {
      var r1 := Expect(s, "{\"all\": ").value;
      var rest := Expect(r1, "[").value;
      if !StartsWith(rest, "]") { ParseItemsWellFormed(rest); }
    }
  }
}
