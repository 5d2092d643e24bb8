/**
 * Class GISS as an object: its fields registry, reg_id and reg_len, together with the folder it
 * stores into (the texts of its documents and its listing), updated in place by the methods.
 * Every method is proved to do exactly what the corresponding function of Engine describes.
 */
module Giss {
  import opened Wrappers
  import opened Text
  import Base64
  import Chunking
  import opened RegistryJson
  import opened Registry
  import opened Engine
  import Lifecycle

  /** The text of a document gathered so far, followed by the rest, or None when a document is missing. */
  function AppendTo(prefix: string, rest: Option<string>): Option<string>
  {
    match rest
    case None => None
    case Some(r) => Some(prefix + r)
  }

  lemma AppendToAppend(a: string, b: string, rest: Option<string>)
    ensures AppendTo(a, AppendTo(b, rest)) == AppendTo(a + b, rest)
  {
    if rest.Some? {
      assert a + (b + rest.value) == (a + b) + rest.value;
    }
  }

  /** One turn of the loop of lines 204-207, from the file at position i. */
  lemma GatherStep(docs: map<Id, string>, files: seq<Id>, i: nat)
    requires i < |files|
    ensures Gather(docs, files[i..]) ==
      if files[i] !in docs then None else AppendTo(FirstParagraph(docs[files[i]]), Gather(docs, files[i + 1..]))
  {
    assert files[i..][0] == files[i] && files[i..][1..] == files[i + 1..];
  }

  /** Before the loop of lines 164-187 nothing is stored yet. */
  lemma ChunkLoopStart(s: State, key: string, parts: seq<string>)
    ensures var r := StoreParts(s, key, parts[0..]); StoreParts(s, key, parts) == (r.0, r.1, [] + r.2)
  {
    assert parts[0..] == parts;
    var r := StoreParts(s, key, parts);
    assert [] + r.2 == r.2;
  }

  /** One turn of the loop of lines 164-187, on the part at position i. */
  lemma ChunkTurn(s0: State, key: string, parts: seq<string>, i: nat, ids: seq<Id>, s: State)
    requires i < |parts|
    requires var r := StoreParts(s, key, parts[i..]); StoreParts(s0, key, parts) == (r.0, r.1, ids + r.2)
    ensures var id := FreshId(s.listing, s.docs, s.registry);
      var s1 := s.(docs := s.docs[id := parts[i]], listing := s.listing + [File(id, ChunkName(key))]);
      match Lookup(s1.registry, ReservedKey)
      case Some(Reserved(all)) =>
        var r := StoreParts(s1.(registry := Put(s1.registry, ReservedKey, Reserved(all + [id]))), key, parts[i + 1..]);
        StoreParts(s0, key, parts) == (r.0, r.1, (ids + [id]) + r.2)
      case _ => StoreParts(s0, key, parts) == (Fail(ReservedMissing), s1, ids + [id])
  {
    SliceHead(parts, i);
    var id := FreshId(s.listing, s.docs, s.registry);
    var s1 := s.(docs := s.docs[id := parts[i]], listing := s.listing + [File(id, ChunkName(key))]);
    match Lookup(s1.registry, ReservedKey)
    case Some(Reserved(all)) =>
      var r := StoreParts(s1.(registry := Put(s1.registry, ReservedKey, Reserved(all + [id]))), key, parts[i + 1..]);
      RegroupIds(ids, id, r.2);
    case _ =>
  }

  lemma SliceHead(parts: seq<string>, i: nat)
    requires i < |parts|
    ensures parts[i..][0] == parts[i] && parts[i..][1..] == parts[i + 1..]
  {
  }

  lemma RegroupIds(ids: seq<Id>, id: Id, rest: seq<Id>)
    ensures ids + ([id] + rest) == (ids + [id]) + rest
  {
  }

  /** After the last part the loop of lines 164-187 has stored everything. */
  lemma ChunkLoopEnd(s0: State, key: string, parts: seq<string>, ids: seq<Id>, s: State)
    requires var r := StoreParts(s, key, parts[|parts|..]); StoreParts(s0, key, parts) == (r.0, r.1, ids + r.2)
    ensures StoreParts(s0, key, parts) == (Pass, s, ids)
  {
    assert parts[|parts|..] == [];
    assert ids + [] == ids;
  }

  /** One turn of the loop of lines 228-233, on the id at position i. */
  lemma DeleteTurn(files: seq<Id>, i: nat, s: State)
    requires i < |files|
    ensures DeleteFiles(s, files[i..]) ==
      var k := files[i];
      if k !in s.docs then (Fail(BackendError), s)
      else
        var s1 := s.(docs := s.docs - {k}, listing := Unlist(s.listing, k));
        match Lookup(s1.registry, ReservedKey)
        case Some(Reserved(all)) =>
          DeleteFiles(s1.(registry := Put(s1.registry, ReservedKey, Reserved(RemoveFirst(all, k)))), files[i + 1..])
        case _ => (Fail(ReservedMissing), s1)
  {
    assert files[i..][0] == files[i] && files[i..][1..] == files[i + 1..];
  }

  class Giss {
    var docs: map<Id, string>
    var listing: seq<File>
    var registry: Registry
    var regId: Id
    var regLen: nat

    /** The object and its folder as a value of the engine. */
    function Snapshot(): State
      reads this
    {
      State(docs, listing, registry, regId, regLen)
    }

    /** The object before the _check of __init__: no registry read yet. */
    constructor (docs0: map<Id, string>, listing0: seq<File>)
      ensures Snapshot() == State(docs0, listing0, [], "", 0)
    {
      docs := docs0;
      listing := listing0;
      registry := [];
      regId := "";
      regLen := 0;
    }

    /** __init__: attach to the folder, then _check it. */
    static method Open(docs0: map<Id, string>, listing0: seq<File>) returns (g: Giss, o: Outcome<Error>)
      ensures fresh(g)
      ensures (o, g.Snapshot()) == Engine.Check(State(docs0, listing0, [], "", 0))
    {
      g := new Giss(docs0, listing0);
      o := g.Check();
    }

    /** _write_reg. */
    method WriteReg() returns (o: Outcome<Error>)
      modifies this
      ensures (o, Snapshot()) == Engine.WriteReg(old(Snapshot()))
    {
      ghost var s := Snapshot();
      if regId !in docs || (regLen > 0 && !(1 <= regLen - 1 <= |docs[regId]|)) {
        o := Fail(BackendError);
      } else {
        var rest := if regLen > 0 then docs[regId][regLen - 1..] else docs[regId];
        var text := RenderText(registry);
        docs := docs[regId := text + rest];
        regLen := |text|;
        o := Pass;
        assert Snapshot() == s.(docs := docs, regLen := regLen);
      }
    }

    /** The loop of lines 52-53: the position of the first file with the given name. */
    static method IndexNamed(listing: seq<File>, name: string) returns (i: nat)
      ensures i == NamedIndex(listing, name)
    {
      i := 0;
      while i < |listing| && listing[i].name != name
        invariant i <= |listing|
        invariant forall j :: 0 <= j < i ==> listing[j].name != name
      {
        i := i + 1;
      }
    }

    /** Lines 59-60: a line ending in "}}" loses its last character. */
    static method Trim(line: string) returns (l: string)
      ensures l == TrimLine(line)
    {
      l := line;
      if EndsWith(l, "}}") {
        l := l[..|l| - 1];
      }
    }

    /**
     * The loop of lines 58-62 from the entries acc: ok when every line parsed, and the entries
     * assigned so far, which are all there are unless json.loads raised.
     */
    static method ParseLines(acc: Registry, lines: seq<string>) returns (ok: bool, reg: Registry)
      ensures Load(acc, lines) == if ok then Loaded(reg) else Failed(reg)
    {
      reg := acc;
      ok := true;
      var j := 0;
      while j < |lines|
        invariant j <= |lines| && ok
        invariant Load(reg, lines[j..]) == Load(acc, lines)
      {
        var l := Trim(lines[j]);
        if '=' in l {
          var parts := Split(l, '=');
          var p := Parse(parts[1]);
          if p.None? {
            assert Load(reg, lines[j..]) == Failed(reg) by { LoadStep(reg, lines, j); }
            return false, reg;
          }
          assert Load(reg, lines[j..]) == Load(Put(reg, parts[0], p.value), lines[j + 1..]) by {
            LoadStep(reg, lines, j);
          }
          reg := Put(reg, parts[0], p.value);
        } else {
          assert Load(reg, lines[j..]) == Load(reg, lines[j + 1..]) by { LoadStep(reg, lines, j); }
        }
        j := j + 1;
      }
      assert lines[j..] == [];
    }

    /** _check: create the registry of a new folder, or find, reparse and rewrite the existing one. */
    method Check() returns (o: Outcome<Error>)
      modifies this
      ensures (o, Snapshot()) == Engine.Check(old(Snapshot()))
    {
      ghost var s0 := Snapshot();
      if |listing| == 0 {
        var id := FreshId(listing, docs, registry);
        docs := docs[id := ""];
        listing := listing + [File(id, RegistryName)];
        regId := id;
        regLen := 0;
        registry := Bootstrap;
        o := WriteReg();
        return;
      }
      var i := IndexNamed(listing, RegistryName);
      if i == |listing| {
        return Fail(RegistryMissing);
      }
      registry := [];
      regId := listing[i].id;
      if regId !in docs {
        return Fail(BackendError);
      }
      var body := docs[regId];
      regLen := |body| + 1;
      var ok;
      ok, registry := ParseLines([], DocLines(body));
      if !ok {
        return Fail(JsonError);
      }
      o := WriteReg();
    }

    /** The loop of lines 164-187: one new document per part, its id kept in ids and in the reserved list. */
    method StoreChunks(key: string, parts: seq<string>) returns (o: Outcome<Error>, ids: seq<Id>)
      modifies this
      ensures (o, Snapshot(), ids) == Engine.StoreParts(old(Snapshot()), key, parts)
    {
      ids := [];
      ChunkLoopStart(Snapshot(), key, parts);
      for i := 0 to |parts|
        invariant var r := Engine.StoreParts(Snapshot(), key, parts[i..]);
          Engine.StoreParts(old(Snapshot()), key, parts) == (r.0, r.1, ids + r.2)
      {
        ChunkTurn(old(Snapshot()), key, parts, i, ids, Snapshot());
        var id := FreshId(listing, docs, registry);
        listing := listing + [File(id, ChunkName(key))];
        docs := docs[id := parts[i]];
        ids := ids + [id];
        match Lookup(registry, ReservedKey)
        case Some(Reserved(all)) =>
          registry := Put(registry, ReservedKey, Reserved(all + [id]));
        case _ =>
          return Fail(ReservedMissing), ids;
      }
      ChunkLoopEnd(old(Snapshot()), key, parts, ids, Snapshot());
      o := Pass;
    }

    /** Lines 142-194, once the key is accepted: encode, chunk, write the chunk documents, enter the key. */
    method Save(key: string, input: Input) returns (o: Outcome<Error>)
      modifies this
      ensures (o, Snapshot()) == Engine.Save(old(Snapshot()), key, input)
    {
      var b64s := Base64.Encode(Payload(input));
      var parts := Chunking.Split(b64s);
      var ids;
      o, ids := StoreChunks(key, parts);
      if o.Fail? {
        return;
      }
      registry := Put(registry, key, Entry(|b64s|, ids, input.Object?));
      o := WriteReg();
    }

    /** store(key, obj): _check, the key checks of lines 135-140, then Save. */
    method Store(key: string, input: Input) returns (o: Outcome<Error>)
      modifies this
      ensures (o, Snapshot()) == Engine.Store(old(Snapshot()), key, input)
    {
      o := Check();
      if o.Fail? {
        return;
      }
      if Has(registry, key) {
        return Fail(KeyExists);
      }
      if StartsWith(key, "._") {
        return Fail(ReservedPrefix);
      }
      if '=' in key {
        return Fail(ContainsSeparator);
      }
      o := Save(key, input);
    }

    /** store with the key check a later read needs: keys with a newline or leading whitespace are refused. */
    method StoreChecked(key: string, input: Input) returns (o: Outcome<Error>)
      modifies this
      ensures (o, Snapshot()) == Lifecycle.StoreChecked(old(Snapshot()), key, input)
    {
      o := Check();
      if o.Fail? {
        return;
      }
      if Has(registry, key) {
        return Fail(KeyExists);
      }
      if StartsWith(key, "._") {
        return Fail(ReservedPrefix);
      }
      if '=' in key {
        return Fail(ContainsSeparator);
      }
      if !LineSafeKey(key) {
        return Fail(UnreadableKey);
      }
      o := Save(key, input);
    }

    /** The loop of lines 204-207: the first paragraph of each chunk document, concatenated in order. */
    static method Concatenate(docs: map<Id, string>, files: seq<Id>) returns (full: Option<string>)
      ensures full == Gather(docs, files)
    {
      var fullstr := "";
      assert files[0..] == files;
      if Gather(docs, files).Some? {
        assert "" + Gather(docs, files).value == Gather(docs, files).value;
      }
      for i := 0 to |files|
        invariant Gather(docs, files) == AppendTo(fullstr, Gather(docs, files[i..]))
      {
        GatherStep(docs, files, i);
        if files[i] !in docs {
          return None;
        }
        var content := FirstParagraph(docs[files[i]]);
        AppendToAppend(fullstr, content, Gather(docs, files[i + 1..]));
        fullstr := fullstr + content;
      }
      assert files[|files|..] == [];
      assert fullstr + "" == fullstr;
      full := Some(fullstr);
    }

    /** read(key, ignore_errors): the checks, the chunks' texts, the length test, the decoding. */
    method Read<V>(key: string, ignoreErrors: bool, eval: string -> Option<V>) returns (r: Result<Value<V>, Error>)
      modifies this
      ensures (r, Snapshot()) == Engine.Read(old(Snapshot()), key, ignoreErrors, eval)
    {
      var o := Check();
      if o.Fail? {
        return Err(o.error);
      }
      if StartsWith(key, "._") {
        return Err(ReservedPrefix);
      }
      if '=' in key {
        return Err(ContainsSeparator);
      }
      match Lookup(registry, key)
      case None =>
        return Err(KeyNotFound);
      case Some(Reserved(_)) =>
        return Err(NotAnEntry);
      case Some(Entry(length, files, wasPython)) =>
        var full := Concatenate(docs, files);
        if full.None? {
          return Err(BackendError);
        }
        if |full.value| != length && !ignoreErrors {
          return Err(Corrupted);
        }
        r := Decoded(full.value, wasPython, eval);
    }

    /** delete(key): each chunk document deleted and its id taken off the reserved list, then the key removed. */
    method Delete(key: string) returns (o: Outcome<Error>)
      modifies this
      ensures (o, Snapshot()) == Engine.Delete(old(Snapshot()), key)
    {
      o := Check();
      if o.Fail? {
        return;
      }
      ghost var s1 := Snapshot();
      assert Engine.Delete(old(Snapshot()), key) == DeleteChecked(s1, key);
      if StartsWith(key, "._") {
        return Fail(ReservedPrefix);
      }
      if '=' in key {
        return Fail(ContainsSeparator);
      }
      match Lookup(registry, key)
      case None =>
        return Fail(KeyNotFound);
      case Some(Reserved(_)) =>
        return Fail(NotAnEntry);
      case Some(Entry(_, files, _)) =>
        o := DeleteChunks(files);
        if o.Fail? {
          return;
        }
        assert key != ReservedKey by { assert ReservedKey[..2] == "._"; }
        DeleteFilesKeeps(s1, files, key);
        registry := Remove(registry, key);
        o := WriteReg();
    }

    /** The loop of lines 228-233: each chunk document deleted and its id taken off the reserved list. */
    method DeleteChunks(files: seq<Id>) returns (o: Outcome<Error>)
      modifies this
      ensures (o, Snapshot()) == DeleteFiles(old(Snapshot()), files)
    {
      ghost var s0 := Snapshot();
      for i := 0 to |files|
        invariant DeleteFiles(Snapshot(), files[i..]) == DeleteFiles(s0, files)
      {
        DeleteTurn(files, i, Snapshot());
        var k := files[i];
        if k !in docs {
          return Fail(BackendError);
        }
        docs := docs - {k};
        listing := Unlist(listing, k);
        match Lookup(registry, ReservedKey)
        case Some(Reserved(all)) =>
          registry := Put(registry, ReservedKey, Reserved(RemoveFirst(all, k)));
        case _ =>
          return Fail(ReservedMissing);
      }
      assert files[|files|..] == [];
      o := Pass;
    }
  }
}
