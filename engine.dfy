/**
 * The storage engine of class GISS as functions from the state before an operation to its
 * outcome and the state after it. The state is the document backend (document texts by id and
 * the folder listing) together with the fields registry, reg_id and reg_len of the object.
 */
module Engine {
  import opened Wrappers
  import opened Text
  import Base64
  import Utf8
  import Chunking
  import opened RegistryJson
  import opened Registry

  /** An entry of the folder listing: a document id and its name. */
  datatype File = File(id: Id, name: string)

  /**
   * docs: the text of every document, without the newline Docs keeps at its end;
   * listing: the files of the folder, in listing order;
   * registry, regId, regLen: the fields of the GISS object.
   */
  datatype State = State(docs: map<Id, string>, listing: seq<File>, registry: Registry, regId: Id, regLen: nat)

  datatype Error =
    | RegistryMissing    // RegistryError: a non-empty folder without ._registry
    | BackendError       // a Docs or Drive request on a missing document or with an invalid range
    | JsonError          // json.loads failed on a registry line
    | KeyExists          // store of a key already in the registry
    | ReservedPrefix     // a key starting with "._"
    | ContainsSeparator  // a key containing '='
    | KeyNotFound        // read or delete of a key not in the registry
    | NotAnEntry         // registry[key] has no 'files' or 'length'
    | ReservedMissing    // registry['._reserved_persistent']['all'] does not exist
    | Corrupted          // the chunks do not add up to the recorded length
    | BadEncoding        // the chunks are not Base 64, or a Python value's bytes are not UTF-8
    | UnreadableKey      // a newline or leading whitespace in the key (refused only by the corrected store)

  /** The object given to store: a file-like object (it has read) or any other Python object, by its str(). */
  datatype Input = Stream(data: seq<byte>) | Object(text: string)

  /** What read returns: bytes, the value eval gave, or the decoded text when eval raised. */
  datatype Value<V> = Bytes(data: seq<byte>) | Evaluated(value: V) | RawText(text: string)

  /** The bytes store encodes: the stream's contents, or str(obj) in UTF-8. */
  function Payload(input: Input): seq<byte>
  {
    match input
    case Stream(b) => b
    case Object(t) => Utf8.Encode(t)
  }

  // ---------------------------------------------------------------------------
  // The backend

  predicate Listed(listing: seq<File>, id: Id)
  {
    exists i :: 0 <= i < |listing| && listing[i].id == id
  }

  function MaxIdLength(listing: seq<File>): (n: nat)
    ensures forall i :: 0 <= i < |listing| ==> |listing[i].id| <= n
  {
    if |listing| == 0 then 0
    else
      var m := MaxIdLength(listing[1..]);
      if |listing[0].id| > m then |listing[0].id| else m
  }

  /** The document ids a registry value names: an entry's files, or the reserved 'all' list. */
  function IdsOf(v: RegValue): seq<Id>
  {
    if v.Entry? then v.files else v.all
  }

  /** Whether some value of the registry names the id. */
  predicate Named(r: Registry, id: Id)
  {
    exists i :: 0 <= i < |r| && id in IdsOf(r[i].value)
  }

  function MaxLength(ids: seq<Id>): (n: nat)
    ensures forall j :: 0 <= j < |ids| ==> |ids[j]| <= n
  {
    if |ids| == 0 then 0
    else
      var m := MaxLength(ids[1..]);
      if |ids[0]| > m then |ids[0]| else m
  }

  function MaxNamedLength(r: Registry): (n: nat)
    ensures forall i :: 0 <= i < |r| ==> MaxLength(IdsOf(r[i].value)) <= n
  {
    if |r| == 0 then 0
    else
      var m := MaxNamedLength(r[1..]);
      var h := MaxLength(IdsOf(r[0].value));
      if h > m then h else m
  }

  /** An id longer than every id the registry names is not named by it. */
  lemma NotNamed(r: Registry, id: Id)
    requires |id| > MaxNamedLength(r)
    ensures !Named(r, id)
  {
  }

  /** Growing the reserved list keeps every id the registry named. */
  lemma NamedGrow(r: Registry, k: string, all: seq<Id>, id: Id, x: Id)
    requires Lookup(r, k) == Some(Reserved(all)) && Named(r, x)
    ensures Named(Put(r, k, Reserved(all + [id])), x)
  {
    var i :| 0 <= i < |r| && x in IdsOf(r[i].value);
    var r' := Put(r, k, Reserved(all + [id]));
    var f := Find(r, k);
    if i == f {
      assert x in IdsOf(r'[f].value);
    } else {
      assert r'[i] == r[i];
    }
  }

  /**
   * The id Drive gives a new document. Drive never issues an id twice, so it is none that a
   * document has, listed in the folder or not, and none that the registry names, even of a
   * document since deleted. It is a run of 'a' longer than every listed and every named id; of
   * the |docs| + 1 lengths tried, one is free.
   */
  function FreshId(listing: seq<File>, docs: map<Id, string>, registry: Registry): (id: Id)
    ensures IsId(id) && !Listed(listing, id) && id !in docs && !Named(registry, id)
  {
    var m := MaxIdLength(listing);
    var lo := (if MaxNamedLength(registry) > m then MaxNamedLength(registry) else m) + 1;
    Pigeonhole(docs, lo, |docs| + 1);
    FirstFreeFound(docs, lo, |docs| + 1);
    var id := Repeat('a', FirstFree(docs, lo, |docs| + 1));
    NotNamed(registry, id);
    id
  }

  /** The first length n from lo on, within tries lengths, whose run of 'a' is not a document id. */
  function FirstFree(docs: map<Id, string>, lo: nat, tries: nat): (n: nat)
    ensures lo <= n
    decreases tries
  {
    if tries == 0 || Repeat('a', lo) !in docs then lo else FirstFree(docs, lo + 1, tries - 1)
  }

  lemma {:induction false} FirstFreeFound(docs: map<Id, string>, lo: nat, tries: nat)
    requires exists j :: lo <= j < lo + tries && Repeat('a', j) !in docs
    ensures Repeat('a', FirstFree(docs, lo, tries)) !in docs
    decreases tries
  {
    if Repeat('a', lo) in docs {
      var j :| lo <= j < lo + tries && Repeat('a', j) !in docs;
      assert j != lo;
      FirstFreeFound(docs, lo + 1, tries - 1);
    }
  }

  /** More lengths than documents: the run of 'a' of one of them is not a document id. */
  lemma Pigeonhole(docs: map<Id, string>, lo: nat, tries: nat)
    requires |docs| < tries
    ensures exists j :: lo <= j < lo + tries && Repeat('a', j) !in docs
  {
    var runs := Runs(lo, tries);
    RunsSize(lo, tries);
    SubsetSize(runs, docs.Keys);
    assert !(runs <= docs.Keys);
    var x :| x in runs && x !in docs.Keys;
    var j :| lo <= j < lo + tries && x == Repeat('a', j);
  }

  /** The runs of 'a' of the lengths lo to lo + tries - 1. */
  ghost function Runs(lo: nat, tries: nat): set<string>
  {
    set j | lo <= j < lo + tries :: Repeat('a', j)
  }

  lemma {:induction false} RunsSize(lo: nat, tries: nat)
    ensures |Runs(lo, tries)| == tries
    decreases tries
  {
    if tries > 0 {
      RunsSize(lo, tries - 1);
      var x := Repeat('a', lo + tries - 1);
      assert x !in Runs(lo, tries - 1) by {
        forall y | y in Runs(lo, tries - 1) ensures |y| < lo + tries - 1 { }
      }
      assert Runs(lo, tries) == Runs(lo, tries - 1) + {x};
    }
  }

  lemma SubsetSize<T>(a: set<T>, b: set<T>)
    ensures a <= b ==> |a| <= |b|
  {
    if a <= b {
      assert b == a + (b - a);
    }
  }

  /** files().delete: the document goes, and so does its entry in the listing. */
  function Unlist(listing: seq<File>, id: Id): (r: seq<File>)
    ensures forall i :: 0 <= i < |r| ==> r[i].id != id
    ensures forall f :: f in r <==> f in listing && f.id != id
  {
    if |listing| == 0 then []
    else if listing[0].id == id then Unlist(listing[1..], id)
    else [listing[0]] + Unlist(listing[1..], id)
  }

  /** The position of the first listed file with the given name, or |listing| when there is none. */
  function NamedIndex(listing: seq<File>, name: string): (i: nat)
    ensures i <= |listing|
    ensures i < |listing| ==> listing[i].name == name
    ensures forall j :: 0 <= j < i ==> listing[j].name != name
  {
    if |listing| == 0 || listing[0].name == name then 0 else 1 + NamedIndex(listing[1..], name)
  }

  /** The file the loop of lines 52-64 stops at. */
  function FindNamed(listing: seq<File>, name: string): Option<File>
  {
    var i := NamedIndex(listing, name);
    if i < |listing| then Some(listing[i]) else None
  }

  /** The text of the first paragraph of a document body, stripped. */
  function FirstParagraph(body: string): string
  {
    Strip(Split(body, '\n')[0])
  }

  // ---------------------------------------------------------------------------
  // _write_reg and _check

  /** The registry with only the reserved entry, as a new folder gets it. */
  const Bootstrap: Registry := [Item(ReservedKey, Reserved([]))]

  /**
   * _write_reg: delete the range [1, reg_len) of the registry document when reg_len > 0, insert
   * the rendered registry at index 1 and record its length. The range must be non-empty and end
   * before the document's final newline.
   */
  function WriteReg(s: State): (Outcome<Error>, State)
  {
    if s.regId !in s.docs then (Fail(BackendError), s)
    else
      var body := s.docs[s.regId];
      if s.regLen > 0 && !(1 <= s.regLen - 1 <= |body|) then (Fail(BackendError), s)
      else
        var rest := if s.regLen > 0 then body[s.regLen - 1..] else body;
        var text := RenderText(s.registry);
        (Pass, s.(docs := s.docs[s.regId := text + rest], regLen := |text|))
  }

  /** _check: create the registry of a new folder, or find, reparse and rewrite the existing one. */
  function Check(s: State): (Outcome<Error>, State)
  {
    if |s.listing| == 0 then
      var id := FreshId(s.listing, s.docs, s.registry);
      WriteReg(s.(docs := s.docs[id := ""], listing := s.listing + [File(id, RegistryName)],
                  regId := id, regLen := 0, registry := Bootstrap))
    else
      match FindNamed(s.listing, RegistryName)
      case None => (Fail(RegistryMissing), s)
      case Some(f) =>
        var s1 := s.(registry := [], regId := f.id);
        if f.id !in s.docs then (Fail(BackendError), s1)
        else
          var body := s.docs[f.id];
          var s2 := s1.(regLen := |body| + 1);
          match Load([], DocLines(body))
          case Failed(partial) => (Fail(JsonError), s2.(registry := partial))
          case Loaded(reg) => WriteReg(s2.(registry := reg))
  }

  // ---------------------------------------------------------------------------
  // store

  /**
   * The name of a chunk document; the random hexadecimal suffix is left out. The key can be read
   * back from the name, and no chunk is ever named like the registry, so the name search of
   * _check never takes a chunk for it.
   */
  function ChunkName(key: string): (n: string)
    ensures |n| == |key| + 6 && n[..5] == "stor_" && n[5..|n| - 1] == key
    ensures n != RegistryName
  {
    "stor_" + key + "_"
  }

  /**
   * The loop of lines 164-187: one new document per part, holding the part, its id appended to
   * ids and to the reserved 'all' list. A registry without a reserved list stops the loop after
   * the first document is created.
   */
  function StoreParts(s: State, key: string, parts: seq<string>): (Outcome<Error>, State, seq<Id>)
    decreases |parts|
  {
    if |parts| == 0 then (Pass, s, [])
    else
      var id := FreshId(s.listing, s.docs, s.registry);
      var s1 := s.(docs := s.docs[id := parts[0]], listing := s.listing + [File(id, ChunkName(key))]);
      match Lookup(s1.registry, ReservedKey)
      case Some(Reserved(all)) =>
        var s2 := s1.(registry := Put(s1.registry, ReservedKey, Reserved(all + [id])));
        var (o, s3, ids) := StoreParts(s2, key, parts[1..]);
        (o, s3, [id] + ids)
      case _ => (Fail(ReservedMissing), s1, [id])
  }

  /** Lines 142-194, once the key is accepted: encode, chunk, write the chunks, enter the key, write the registry. */
  function Save(s: State, key: string, input: Input): (Outcome<Error>, State)
  {
    var b64s := Base64.Encode(Payload(input));
    var (o, s2, ids) := StoreParts(s, key, Chunking.Chunks(b64s));
    if o.Fail? then (o, s2)
    else WriteReg(s2.(registry := Put(s2.registry, key, Entry(|b64s|, ids, input.Object?))))
  }

  /** store(key, obj). */
  function Store(s: State, key: string, input: Input): (Outcome<Error>, State)
  {
    var (o, s1) := Check(s);
    if o.Fail? then (o, s1)
    else if Has(s1.registry, key) then (Fail(KeyExists), s1)
    else if StartsWith(key, "._") then (Fail(ReservedPrefix), s1)
    else if '=' in key then (Fail(ContainsSeparator), s1)
    else Save(s1, key, input)
  }

  // ---------------------------------------------------------------------------
  // read

  /** The loop of lines 204-207: the first paragraph of each chunk, in order; None when one is missing. */
  function Gather(docs: map<Id, string>, files: seq<Id>): Option<string>
  {
    if |files| == 0 then Some("")
    else if files[0] !in docs then None
    else
      match Gather(docs, files[1..])
      case None => None
      case Some(rest) => Some(FirstParagraph(docs[files[0]]) + rest)
  }

  /** Lines 211-217: bytes, or for a Python value eval of its text, or the text when eval raises. */
  function Decoded<V>(full: string, wasPython: bool, eval: string -> Option<V>): Result<Value<V>, Error>
  {
    match Base64.Decode(full)
    case None => Err(BadEncoding)
    case Some(b) =>
      if !wasPython then Ok(Bytes(b))
      else
        match Utf8.Decode(b)
        case None => Err(BadEncoding)
        case Some(t) =>
          match eval(t)
          case Some(v) => Ok(Evaluated(v))
          case None => Ok(RawText(t))
  }

  /** read(key, ignore_errors); eval stands for Python's eval, None where it raises. */
  function Read<V>(s: State, key: string, ignoreErrors: bool, eval: string -> Option<V>): (Result<Value<V>, Error>, State)
  {
    var (o, s1) := Check(s);
    if o.Fail? then (Err(o.error), s1)
    else if StartsWith(key, "._") then (Err(ReservedPrefix), s1)
    else if '=' in key then (Err(ContainsSeparator), s1)
    else
      match Lookup(s1.registry, key)
      case None => (Err(KeyNotFound), s1)
      case Some(Reserved(_)) => (Err(NotAnEntry), s1)
      case Some(Entry(length, files, wasPython)) =>
        match Gather(s1.docs, files)
        case None => (Err(BackendError), s1)
        case Some(full) =>
          if |full| != length && !ignoreErrors then (Err(Corrupted), s1)
          else (Decoded(full, wasPython, eval), s1)
  }

  // ---------------------------------------------------------------------------
  // delete

  /** The position of the first occurrence of id, or |ids| when there is none. */
  function IndexOf(ids: seq<Id>, id: Id): (i: nat)
    ensures i <= |ids| && id !in ids[..i]
    ensures i < |ids| ==> ids[i] == id
  {
    if |ids| == 0 || ids[0] == id then 0
    else
      var i := 1 + IndexOf(ids[1..], id);
      ConsPrefix(ids, i);
      i
  }

  lemma ConsPrefix(ids: seq<Id>, i: nat)
    requires 0 < i <= |ids|
    ensures ids[..i] == [ids[0]] + ids[1..][..i - 1]
  {
  }

  /** list.remove(id), with the ValueError of a missing id ignored: the first occurrence goes. */
  function RemoveFirst(ids: seq<Id>, id: Id): (r: seq<Id>)
    ensures var i := IndexOf(ids, id); r == if i < |ids| then ids[..i] + ids[i + 1..] else ids
  {
    if |ids| == 0 then []
    else if ids[0] == id then ids[1..]
    else
      var r := RemoveFirst(ids[1..], id);
      ConsDrop(ids, IndexOf(ids[1..], id));
      [ids[0]] + r
  }

  lemma ConsDrop(ids: seq<Id>, i: nat)
    requires 0 < |ids| && i < |ids|
    ensures i < |ids| - 1 ==> [ids[0]] + (ids[1..][..i] + ids[1..][i + 1..]) == ids[..i + 1] + ids[i + 2..]
    ensures i == |ids| - 1 ==> [ids[0]] + ids[1..] == ids
  {
  }

  /** Removing the first occurrence takes one copy of id out of the list and keeps every other id. */
  lemma RemoveFirstCounts(ids: seq<Id>, id: Id)
    ensures multiset(RemoveFirst(ids, id)) == multiset(ids) - multiset{id}
  {
    var i := IndexOf(ids, id);
    var r := RemoveFirst(ids, id);
    if i < |ids| {
      DropCounts(ids, r, id, i);
    } else {
      MissingCounts(ids, r, id);
    }
  }

  lemma DropCounts(ids: seq<Id>, r: seq<Id>, id: Id, i: nat)
    requires i < |ids| && ids[i] == id && r == ids[..i] + ids[i + 1..]
    ensures multiset(r) == multiset(ids) - multiset{id}
  {
    assert ids == ids[..i] + [ids[i]] + ids[i + 1..];
  }

  lemma MissingCounts(ids: seq<Id>, r: seq<Id>, id: Id)
    requires id !in ids[..|ids|] && r == ids
    ensures multiset(r) == multiset(ids) - multiset{id}
  {
    assert ids[..|ids|] == ids;
  }

  /**
   * The loop of lines 228-233: each chunk document is deleted, then its id is removed from the
   * reserved list if it is there. A missing document, or a registry without a reserved list,
   * stops the loop.
   */
  function DeleteFiles(s: State, files: seq<Id>): (Outcome<Error>, State)
    decreases |files|
  {
    if |files| == 0 then (Pass, s)
    else
      var k := files[0];
      if k !in s.docs then (Fail(BackendError), s)
      else
        var s1 := s.(docs := s.docs - {k}, listing := Unlist(s.listing, k));
        match Lookup(s1.registry, ReservedKey)
        case Some(Reserved(all)) =>
          DeleteFiles(s1.(registry := Put(s1.registry, ReservedKey, Reserved(RemoveFirst(all, k)))), files[1..])
        case _ => (Fail(ReservedMissing), s1)
  }

  /** The deletion loop changes only the reserved entry of the registry. */
  lemma {:induction false} DeleteFilesKeeps(s: State, files: seq<Id>, key: string)
    requires key != ReservedKey
    ensures Has(DeleteFiles(s, files).1.registry, key) <==> Has(s.registry, key)
    ensures Lookup(DeleteFiles(s, files).1.registry, key) == Lookup(s.registry, key)
    decreases |files|
  {
    if |files| > 0 && files[0] in s.docs {
      var k := files[0];
      var s1 := s.(docs := s.docs - {k}, listing := Unlist(s.listing, k));
      match Lookup(s1.registry, ReservedKey)
      case Some(Reserved(all)) =>
        var r' := Put(s1.registry, ReservedKey, Reserved(RemoveFirst(all, k)));
        PutHas(s1.registry, ReservedKey, Reserved(RemoveFirst(all, k)), key);
        DeleteFilesKeeps(s1.(registry := r'), files[1..], key);
      case _ =>
    }
  }

  /** delete(key). */
  function Delete(s: State, key: string): (Outcome<Error>, State)
  {
    var (o, s1) := Check(s);
    if o.Fail? then (o, s1) else DeleteChecked(s1, key)
  }

  /** What delete does once _check has passed and left the state s1. */
  function DeleteChecked(s1: State, key: string): (Outcome<Error>, State)
  {
    if StartsWith(key, "._") then (Fail(ReservedPrefix), s1)
    else if '=' in key then (Fail(ContainsSeparator), s1)
    else
      match Lookup(s1.registry, key)
      case None => (Fail(KeyNotFound), s1)
      case Some(Reserved(_)) => (Fail(NotAnEntry), s1)
      case Some(Entry(_, files, _)) =>
        var (o2, s2) := DeleteFiles(s1, files);
        if o2.Fail? then (o2, s2)
        else
          assert Has(s2.registry, key) by {
            assert key != ReservedKey by { assert ReservedKey[..2] == "._"; }
            DeleteFilesKeeps(s1, files, key);
          }
          WriteReg(s2.(registry := Remove(s2.registry, key)))
  }
}
