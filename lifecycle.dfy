/**
 * What store, read and delete do to the folder and the registry, and how they compose: a stored
 * value reads back, a deleted key is gone, and the registry survives every rewrite.
 */
module Lifecycle {
  import opened Wrappers
  import opened Text
  import Base64
  import Utf8
  import Chunking
  import opened RegistryJson
  import opened Registry
  import opened Engine
  import opened Properties

  // ---------------------------------------------------------------------------
  // The listing

  lemma ListedAppend(l: seq<File>, extra: seq<File>, id: Id)
    ensures Listed(l + extra, id) <==> Listed(l, id) || Listed(extra, id)
  {
    if Listed(l, id) {
      var i :| 0 <= i < |l| && l[i].id == id;
      assert (l + extra)[i].id == id;
    }
    if Listed(extra, id) {
      var i :| 0 <= i < |extra| && extra[i].id == id;
      assert (l + extra)[|l| + i].id == id;
    }
    if Listed(l + extra, id) {
      var i :| 0 <= i < |l + extra| && (l + extra)[i].id == id;
      if i < |l| { assert l[i].id == id; } else { assert extra[i - |l|].id == id; }
    }
  }

  /** New files at the end of the listing do not change which file the registry search finds. */
  lemma {:induction false} FindNamedAppend(l: seq<File>, extra: seq<File>, name: string)
    requires FindNamed(l, name).Some?
    ensures FindNamed(l + extra, name) == FindNamed(l, name)
    decreases |l|
  {
    if l[0].name != name {
      assert (l + extra)[1..] == l[1..] + extra;
      FindNamedAppend(l[1..], extra, name);
    }
  }

  /** Taking out a file other than the one found does not change which file the registry search finds. */
  lemma {:induction false} FindNamedUnlist(l: seq<File>, id: Id, name: string)
    requires FindNamed(l, name).Some? && FindNamed(l, name).value.id != id
    ensures FindNamed(Unlist(l, id), name) == FindNamed(l, name)
    decreases |l|
  {
    if l[0].name != name {
      FindNamedUnlist(l[1..], id, name);
    }
  }

  lemma SettledListed(s: State)
    requires FindNamed(s.listing, RegistryName) == Some(File(s.regId, RegistryName))
    ensures Listed(s.listing, s.regId)
  {
    assert s.listing[NamedIndex(s.listing, RegistryName)].id == s.regId;
  }

  /** The listing entries of the chunk documents of key. */
  function ChunkFiles(ids: seq<Id>, key: string): seq<File>
  {
    seq(|ids|, i requires 0 <= i < |ids| => File(ids[i], ChunkName(key)))
  }

  /** The reserved 'all' list of a registry; empty when there is none. */
  function ReservedList(r: Registry): seq<Id>
  {
    match Lookup(r, ReservedKey)
    case Some(Reserved(all)) => all
    case _ => []
  }

  /** A registry with a reserved list, as every registry written by _check has. */
  predicate HasReserved(r: Registry)
  {
    Lookup(r, ReservedKey).Some? && Lookup(r, ReservedKey).value.Reserved?
  }

  lemma ReservedKeyShape()
    ensures LineSafeKey(ReservedKey) && StartsWith(ReservedKey, "._")
  {
    assert ReservedKey[0] == '.';
  }

  // ---------------------------------------------------------------------------
  // The state a store or delete leaves

  /**
   * After store or delete the registry document holds the rendered registry and one stray '}'
   * (the second write of a call deletes one character too few), and reg_len is the rendered length.
   */
  ghost predicate Written(s: State)
  {
    && FindNamed(s.listing, RegistryName) == Some(File(s.regId, RegistryName))
    && s.regId in s.docs
    && s.docs[s.regId] == RenderText(s.registry) + "}"
    && s.regLen == |RenderText(s.registry)|
    && WellFormedRegistry(s.registry)
    && HasReserved(s.registry)
  }

  /** The next _check reads the registry back through the stray '}' and rewrites the document clean. */
  lemma CheckAfterWrite(s: State)
    requires Written(s)
    ensures Check(s) ==
      (Pass, s.(docs := s.docs[s.regId := RenderText(s.registry)], regLen := |RenderText(s.registry)|))
    ensures Settled(Check(s).1)
  {
    ReloadWithBrace(s.registry);
    assert |s.listing| > 0 by {
      assert NamedIndex(s.listing, RegistryName) < |s.listing|;
    }
    WriteRegWhole(s.(regLen := |s.docs[s.regId]| + 1));
  }

  // ---------------------------------------------------------------------------
  // store

  /** The new state after the first part: its document created and listed, its id reserved. */
  function AfterPart(s: State, key: string, part: string, all: seq<Id>): State
  {
    var id := FreshId(s.listing, s.docs, s.registry);
    s.(docs := s.docs[id := part], listing := s.listing + [File(id, ChunkName(key))],
       registry := Put(s.registry, ReservedKey, Reserved(all + [id])))
  }

  lemma StorePartsStep(s: State, key: string, parts: seq<string>, all: seq<Id>)
    requires |parts| > 0 && Lookup(s.registry, ReservedKey) == Some(Reserved(all))
    ensures var r := StoreParts(AfterPart(s, key, parts[0], all), key, parts[1..]);
      StoreParts(s, key, parts) == (r.0, r.1, [FreshId(s.listing, s.docs, s.registry)] + r.2)
    ensures Lookup(AfterPart(s, key, parts[0], all).registry, ReservedKey) == Some(Reserved(all + [FreshId(s.listing, s.docs, s.registry)]))
  {
    PutHas(s.registry, ReservedKey, Reserved(all + [FreshId(s.listing, s.docs, s.registry)]), ReservedKey);
  }

  /**
   * Lines 164-187 with a reserved list present: the loop runs to the end, one id per part,
   * appended in order to the reserved list, one chunk file per id appended to the listing.
   */
  lemma {:induction false} StorePartsShape(s: State, key: string, parts: seq<string>, all: seq<Id>)
    requires Lookup(s.registry, ReservedKey) == Some(Reserved(all))
    ensures var r := StoreParts(s, key, parts);
      && r.0 == Pass && |r.2| == |parts|
      && r.1.regId == s.regId && r.1.regLen == s.regLen
      && r.1.registry == Put(s.registry, ReservedKey, Reserved(all + r.2))
      && r.1.listing == s.listing + ChunkFiles(r.2, key)
    decreases |parts|
  {
    if |parts| == 0 {
      PutSame(s.registry, ReservedKey, Reserved(all));
      assert all + [] == all;
      assert s.listing + ChunkFiles([], key) == s.listing;
    } else {
      var id := FreshId(s.listing, s.docs, s.registry);
      var s2 := AfterPart(s, key, parts[0], all);
      StorePartsStep(s, key, parts, all);
      StorePartsShape(s2, key, parts[1..], all + [id]);
      var rest := StoreParts(s2, key, parts[1..]).2;
      var ids := [id] + rest;
      PutPut(s.registry, ReservedKey, Reserved(all + [id]), Reserved(all + [id] + rest));
      SnocCons(all, id, rest);
      ChunkFilesCons(s.listing, id, rest, key);
    }
  }

  lemma SnocCons(all: seq<Id>, id: Id, rest: seq<Id>)
    ensures all + [id] + rest == all + ([id] + rest)
  {
  }

  lemma ChunkFilesCons(l: seq<File>, id: Id, rest: seq<Id>, key: string)
    ensures l + [File(id, ChunkName(key))] + ChunkFiles(rest, key) == l + ChunkFiles([id] + rest, key)
  {
    assert ChunkFiles([id] + rest, key) == [File(id, ChunkName(key))] + ChunkFiles(rest, key);
  }

  /**
   * The chunk ids are valid ids, distinct, and none of them was listed, a document or named by
   * the registry before.
   */
  lemma {:induction false} StorePartsFresh(s: State, key: string, parts: seq<string>, all: seq<Id>)
    requires Lookup(s.registry, ReservedKey) == Some(Reserved(all))
    ensures var ids := StoreParts(s, key, parts).2;
      && (forall i :: 0 <= i < |ids| ==>
            IsId(ids[i]) && !Listed(s.listing, ids[i]) && ids[i] !in s.docs && !Named(s.registry, ids[i]))
      && (forall i, j :: 0 <= i < j < |ids| ==> ids[i] != ids[j])
    decreases |parts|
  {
    if |parts| > 0 {
      var id := FreshId(s.listing, s.docs, s.registry);
      var s2 := AfterPart(s, key, parts[0], all);
      StorePartsStep(s, key, parts, all);
      StorePartsFresh(s2, key, parts[1..], all + [id]);
      var rest := StoreParts(s2, key, parts[1..]).2;
      var ids := [id] + rest;
      assert Listed(s2.listing, id) by { assert s2.listing[|s.listing|].id == id; }
      forall i | 0 <= i < |rest|
        ensures !Listed(s.listing, rest[i]) && rest[i] != id && rest[i] !in s.docs && !Named(s.registry, rest[i])
      {
        ListedAppend(s.listing, [File(id, ChunkName(key))], rest[i]);
        if Named(s.registry, rest[i]) {
          NamedGrow(s.registry, ReservedKey, all, id, rest[i]);
        }
      }
      assert forall i :: 0 < i < |ids| ==> ids[i] == rest[i - 1];
    }
  }

  /** Each chunk document holds its part; every document there before is untouched; no other document appears. */
  lemma StorePartsDocs(s: State, key: string, parts: seq<string>, all: seq<Id>)
    requires Lookup(s.registry, ReservedKey) == Some(Reserved(all))
    ensures var r := StoreParts(s, key, parts); var ids := r.2; var docs := r.1.docs;
      && |ids| == |parts|
      && (forall i :: 0 <= i < |ids| ==> ids[i] in docs && docs[ids[i]] == parts[i])
      && (forall d :: d in s.docs ==> d in docs && docs[d] == s.docs[d])
      && (forall d :: d in docs ==> d in s.docs || d in ids)
  {
    StorePartsShape(s, key, parts, all);
    StorePartsHold(s, key, parts, all);
    StorePartsKeep(s, key, parts, all);
  }

  /** Every document the loop found keeps its text, and the only new documents are the chunks. */
  lemma {:induction false} StorePartsKeep(s: State, key: string, parts: seq<string>, all: seq<Id>)
    requires Lookup(s.registry, ReservedKey) == Some(Reserved(all))
    ensures var r := StoreParts(s, key, parts); var ids := r.2; var docs := r.1.docs;
      && (forall d :: d in s.docs ==> d in docs && docs[d] == s.docs[d])
      && (forall d :: d in docs ==> d in s.docs || d in ids)
    decreases |parts|
  {
    if |parts| > 0 {
      var id := FreshId(s.listing, s.docs, s.registry);
      var s2 := AfterPart(s, key, parts[0], all);
      StorePartsStep(s, key, parts, all);
      StorePartsKeep(s2, key, parts[1..], all + [id]);
      var rest := StoreParts(s2, key, parts[1..]).2;
      forall d ensures d in [id] + rest <==> d == id || d in rest {
        InCons(id, rest, d);
      }
    }
  }

  /** Each chunk document holds its part. */
  lemma {:induction false} StorePartsHold(s: State, key: string, parts: seq<string>, all: seq<Id>)
    requires Lookup(s.registry, ReservedKey) == Some(Reserved(all))
    ensures var r := StoreParts(s, key, parts); var ids := r.2; var docs := r.1.docs;
      |ids| == |parts| && forall i :: 0 <= i < |ids| ==> ids[i] in docs && docs[ids[i]] == parts[i]
    decreases |parts|
  {
    StorePartsShape(s, key, parts, all);
    if |parts| > 0 {
      var id := FreshId(s.listing, s.docs, s.registry);
      var s2 := AfterPart(s, key, parts[0], all);
      StorePartsStep(s, key, parts, all);
      StorePartsHold(s2, key, parts[1..], all + [id]);
      StorePartsKeep(s2, key, parts[1..], all + [id]);
      StorePartsFresh(s2, key, parts[1..], all + [id]);
      var r := StoreParts(s2, key, parts[1..]);
      var rest := r.2;
      assert Listed(s2.listing, id) by { assert s2.listing[|s.listing|].id == id; }
      assert id !in rest by {
        forall i | 0 <= i < |rest| ensures rest[i] != id { }
      }
      var ids := [id] + rest;
      forall i | 0 <= i < |ids| ensures ids[i] in r.1.docs && r.1.docs[ids[i]] == parts[i] {
        if i > 0 {
          assert ids[i] == rest[i - 1] && parts[i] == parts[1..][i - 1];
        }
      }
    }
  }

  lemma InCons(id: Id, rest: seq<Id>, d: Id)
    ensures d in [id] + rest <==> d == id || d in rest
  {
    assert ([id] + rest)[1..] == rest;
  }

  /** Lines 134-140: store changes nothing but what _check did when the key exists, starts with "._" or contains '='. */
  lemma StoreRefuses(s: State, key: string, input: Input)
    requires StartsWith(key, "._") || '=' in key || (Check(s).0 == Pass && Has(Check(s).1.registry, key))
    ensures Store(s, key, input).0.Fail? && Store(s, key, input).1 == Check(s).1
    ensures Check(s).0.Fail? ==> Store(s, key, input).0 == Check(s).0
    ensures Check(s).0 == Pass && Has(Check(s).1.registry, key) ==> Store(s, key, input).0 == Fail(KeyExists)
    ensures Check(s).0 == Pass && !Has(Check(s).1.registry, key) && StartsWith(key, "._") ==>
      Store(s, key, input).0 == Fail(ReservedPrefix)
    ensures Check(s).0 == Pass && !Has(Check(s).1.registry, key) && !StartsWith(key, "._") && '=' in key ==>
      Store(s, key, input).0 == Fail(ContainsSeparator)
  {
  }

  /**
   * store succeeds exactly when _check does, the key is new, does not start with "._", has no '='
   * and the registry has its reserved list.
   */
  lemma StorePasses(s: State, key: string, input: Input)
    ensures Store(s, key, input).0 == Pass <==>
      && Check(s).0 == Pass
      && !Has(Check(s).1.registry, key) && !StartsWith(key, "._") && '=' !in key
      && HasReserved(Check(s).1.registry)
  {
    var (o, s1) := Check(s);
    var b64s := Base64.Encode(Payload(input));
    var parts := Chunking.Chunks(b64s);
    Chunking.ChunksShape(b64s);
    assert |parts| > 0;
    if o == Pass && !Has(s1.registry, key) && !StartsWith(key, "._") && '=' !in key {
      if HasReserved(s1.registry) {
        StoreEffectPass(s, key, input);
      }
    }
  }

  /** The part of StorePasses that needs the write to succeed: the registry document is still there. */
  lemma StoreEffectPass(s: State, key: string, input: Input)
    requires Check(s).0 == Pass
    requires !Has(Check(s).1.registry, key) && !StartsWith(key, "._") && '=' !in key
    requires HasReserved(Check(s).1.registry)
    ensures Store(s, key, input).0 == Pass
  {
    var s1 := Check(s).1;
    CheckEffect(s);
    var b64s := Base64.Encode(Payload(input));
    var parts := Chunking.Chunks(b64s);
    var all := ReservedList(s1.registry);
    StorePartsShape(s1, key, parts, all);
    StorePartsFresh(s1, key, parts, all);
    StorePartsDocs(s1, key, parts, all);
    var (_, s2, ids) := StoreParts(s1, key, parts);
    SettledListed(s1);
    ListedAppend(s1.listing, ChunkFiles(ids, key), s1.regId);
    RenderEnds(s1.registry);
  }

  /** The ids of the chunk documents a store creates. */
  function StoreIds(s: State, key: string, input: Input): seq<Id>
  {
    StoreParts(Check(s).1, key, Chunking.Chunks(Base64.Encode(Payload(input)))).2
  }

  /** The state store hands to its final _write_reg: the chunks written and the key entered. */
  function BeforeWrite(s: State, key: string, input: Input): State
  {
    var b64s := Base64.Encode(Payload(input));
    var r := StoreParts(Check(s).1, key, Chunking.Chunks(b64s));
    r.1.(registry := Put(r.1.registry, key, Entry(|b64s|, r.2, input.Object?)))
  }

  lemma StoreUnfold(s: State, key: string, input: Input)
    requires Store(s, key, input).0 == Pass
    ensures Check(s).0 == Pass && Settled(Check(s).1)
    ensures !Has(Check(s).1.registry, key) && !StartsWith(key, "._") && '=' !in key
    ensures HasReserved(Check(s).1.registry)
    ensures Store(s, key, input) == WriteReg(BeforeWrite(s, key, input))
    ensures var s1 := Check(s).1; var all := ReservedList(s1.registry);
      var parts := Chunking.Chunks(Base64.Encode(Payload(input)));
      var r := StoreParts(s1, key, parts);
      && r.0 == Pass && |r.2| == |parts| && r.1.regId == s1.regId && r.1.regLen == s1.regLen
      && r.1.registry == Put(s1.registry, ReservedKey, Reserved(all + r.2))
      && r.1.listing == s1.listing + ChunkFiles(r.2, key)
  {
    StorePasses(s, key, input);
    CheckEffect(s);
    var s1 := Check(s).1;
    StorePartsShape(s1, key, Chunking.Chunks(Base64.Encode(Payload(input))), ReservedList(s1.registry));
  }

  /**
   * Lines 188-193: after a successful store the key holds the length of its Base 64 text, the ids
   * of its chunks and wasPython; the reserved list has the ids appended; other keys are unchanged.
   */
  lemma StoreRegistry(s: State, key: string, input: Input, k: string)
    requires Store(s, key, input).0 == Pass
    ensures var r0 := Check(s).1.registry; var r' := Store(s, key, input).1.registry;
      var ids := StoreIds(s, key, input);
      && Lookup(r', key) == Some(Entry(|Base64.Encode(Payload(input))|, ids, input.Object?))
      && Lookup(r', ReservedKey) == Some(Reserved(ReservedList(r0) + ids))
      && (k != key && k != ReservedKey ==> Lookup(r', k) == Lookup(r0, k))
  {
    StoreUnfold(s, key, input);
    var r0 := Check(s).1.registry;
    var ids := StoreIds(s, key, input);
    var r1 := Put(r0, ReservedKey, Reserved(ReservedList(r0) + ids));
    var e := Entry(|Base64.Encode(Payload(input))|, ids, input.Object?);
    assert key != ReservedKey by { ReservedKeyShape(); }
    PutHas(r0, ReservedKey, Reserved(ReservedList(r0) + ids), k);
    PutHas(r1, key, e, k);
    PutHas(r1, key, e, ReservedKey);
    PutHas(r0, ReservedKey, Reserved(ReservedList(r0) + ids), ReservedKey);
  }

  /**
   * Lines 162-187: the chunk documents of a successful store are new and distinct, hold the parts
   * of the Base 64 text in order and are listed after the files listed before, under the chunk
   * name; no other document but the registry's changes.
   */
  lemma StoreChunks(s: State, key: string, input: Input)
    requires Store(s, key, input).0 == Pass
    ensures var s1 := Check(s).1; var s' := Store(s, key, input).1;
      var parts := Chunking.Chunks(Base64.Encode(Payload(input))); var ids := StoreIds(s, key, input);
      && |ids| == |parts|
      && (forall i :: 0 <= i < |ids| ==> !Listed(s1.listing, ids[i]) && ids[i] !in s1.docs && !Named(s1.registry, ids[i]))
      && (forall i :: 0 <= i < |ids| ==> ids[i] in s'.docs && s'.docs[ids[i]] == parts[i])
      && (forall i, j :: 0 <= i < j < |ids| ==> ids[i] != ids[j])
      && s'.listing == s1.listing + ChunkFiles(ids, key)
      && s'.regId == s1.regId
      && (forall d :: d in s1.docs && d != s1.regId ==> d in s'.docs && s'.docs[d] == s1.docs[d])
  {
    StoreChunksFresh(s, key, input);
    StoreChunksDocs(s, key, input);
  }

  /** The chunk ids of a successful store: new against the state after _check, and distinct. */
  lemma StoreChunksFresh(s: State, key: string, input: Input)
    requires Store(s, key, input).0 == Pass
    ensures var s1 := Check(s).1; var ids := StoreIds(s, key, input);
      && (forall i :: 0 <= i < |ids| ==> !Listed(s1.listing, ids[i]) && ids[i] !in s1.docs && !Named(s1.registry, ids[i]))
      && (forall i, j :: 0 <= i < j < |ids| ==> ids[i] != ids[j])
  {
    StoreUnfold(s, key, input);
    var s1 := Check(s).1;
    StorePartsFresh(s1, key, Chunking.Chunks(Base64.Encode(Payload(input))), ReservedList(s1.registry));
  }

  /** The documents and listing after a successful store. */
  lemma StoreChunksDocs(s: State, key: string, input: Input)
    requires Store(s, key, input).0 == Pass
    ensures var s1 := Check(s).1; var s' := Store(s, key, input).1;
      var parts := Chunking.Chunks(Base64.Encode(Payload(input))); var ids := StoreIds(s, key, input);
      && |ids| == |parts|
      && (forall i :: 0 <= i < |ids| ==> ids[i] in s'.docs && s'.docs[ids[i]] == parts[i])
      && s'.listing == s1.listing + ChunkFiles(ids, key)
      && s'.regId == s1.regId
      && (forall d :: d in s1.docs && d != s1.regId ==> d in s'.docs && s'.docs[d] == s1.docs[d])
  {
    StoreUnfold(s, key, input);
    StoreChunksFresh(s, key, input);
    var s1 := Check(s).1;
    StorePartsDocs(s1, key, Chunking.Chunks(Base64.Encode(Payload(input))), ReservedList(s1.registry));
    SettledListed(s1);
  }

  /** A successful store of a key that survives the round trip leaves the registry document Written. */
  lemma StoreWritten(s: State, key: string, input: Input)
    requires Store(s, key, input).0 == Pass && LineSafeKey(key)
    ensures Written(Store(s, key, input).1)
  {
    StoreWrittenRegistry(s, key, input);
    StoreWrittenDoc(s, key, input);
  }

  lemma StoreWrittenRegistry(s: State, key: string, input: Input)
    requires Store(s, key, input).0 == Pass && LineSafeKey(key)
    ensures var s' := Store(s, key, input).1; WellFormedRegistry(s'.registry) && HasReserved(s'.registry)
  {
    StoreUnfold(s, key, input);
    var s1 := Check(s).1;
    var parts := Chunking.Chunks(Base64.Encode(Payload(input)));
    var all := ReservedList(s1.registry);
    var ids := StoreIds(s, key, input);
    StorePartsFresh(s1, key, parts, all);
    var s3 := BeforeWrite(s, key, input);
    WriteRegLength(s3);
    ReservedKeyShape();
    var i := Find(s1.registry, ReservedKey);
    assert s1.registry[i].value == Reserved(all);
    assert AllIds(all + ids);
    var r1 := Put(s1.registry, ReservedKey, Reserved(all + ids));
    PutWellFormed(s1.registry, ReservedKey, Reserved(all + ids));
    PutWellFormed(r1, key, Entry(|Base64.Encode(Payload(input))|, ids, input.Object?));
    StoreRegistry(s, key, input, key);
  }

  lemma StoreWrittenDoc(s: State, key: string, input: Input)
    requires Store(s, key, input).0 == Pass
    ensures var s' := Store(s, key, input).1;
      && FindNamed(s'.listing, RegistryName) == Some(File(s'.regId, RegistryName))
      && s'.regId in s'.docs
      && s'.docs[s'.regId] == RenderText(s'.registry) + "}"
      && s'.regLen == |RenderText(s'.registry)|
  {
    StoreUnfold(s, key, input);
    var s1 := Check(s).1;
    var parts := Chunking.Chunks(Base64.Encode(Payload(input)));
    var all := ReservedList(s1.registry);
    var ids := StoreIds(s, key, input);
    StorePartsFresh(s1, key, parts, all);
    StorePartsDocs(s1, key, parts, all);
    SettledListed(s1);
    ListedAppend(s1.listing, ChunkFiles(ids, key), s1.regId);
    assert s1.regId !in ids by {
      forall i | 0 <= i < |ids| ensures ids[i] != s1.regId { }
    }
    RenderEnds(s1.registry);
    var s3 := BeforeWrite(s, key, input);
    var t := RenderText(s1.registry);
    assert s3.docs[s1.regId] == t;
    WriteRegLeftover(s3);
    FindNamedAppend(s1.listing, ChunkFiles(ids, key), RegistryName);
  }

  // ---------------------------------------------------------------------------
  // read

  /** What read gives back for what store was given: the bytes, or eval of the text, or the text. */
  function Expected<V>(input: Input, eval: string -> Option<V>): Result<Value<V>, Error>
  {
    match input
    case Stream(b) => Ok(Bytes(b))
    case Object(t) =>
      match eval(t)
      case Some(v) => Ok(Evaluated(v))
      case None => Ok(RawText(t))
  }

  lemma {:induction false} ConcatHas(parts: seq<string>, i: nat, c: char)
    requires i < |parts| && c in parts[i]
    ensures c in Chunking.Concat(parts)
    decreases |parts|
  {
    if i > 0 {
      ConcatHas(parts[1..], i - 1, c);
    }
  }

  /** Text made of Base 64 characters has no newline and no whitespace, so Strip leaves it alone. */
  lemma EncodedPlain(p: string)
    requires forall j :: 0 <= j < |p| ==> Base64.IsEncodedChar(p[j])
    ensures FirstParagraph(p) == p
  {
    assert '\n' !in p;
    if |p| > 0 {
      assert !IsSpace(p[0]) && !IsSpace(p[|p| - 1]) by {
        assert Base64.IsEncodedChar(p[0]) && Base64.IsEncodedChar(p[|p| - 1]);
      }
    }
    StripKeeps(p);
  }

  /** A Base 64 part has no newline and no whitespace, so its document's first paragraph is the part itself. */
  lemma PartPlain(b: seq<byte>, i: nat)
    requires i < |Chunking.Chunks(Base64.Encode(b))|
    ensures var p := Chunking.Chunks(Base64.Encode(b))[i]; FirstParagraph(p) == p
  {
    var s := Base64.Encode(b);
    var parts := Chunking.Chunks(s);
    var p := parts[i];
    Chunking.ChunksConcat(s);
    forall j | 0 <= j < |p| ensures Base64.IsEncodedChar(p[j]) {
      ConcatHas(parts, i, p[j]);
      var k :| 0 <= k < |s| && s[k] == p[j];
    }
    EncodedPlain(p);
  }

  /** The loop of lines 204-207 over documents that hold plain parts concatenates the parts. */
  lemma {:induction false} GatherParts(docs: map<Id, string>, files: seq<Id>, parts: seq<string>)
    requires |files| == |parts|
    requires forall i :: 0 <= i < |files| ==> files[i] in docs && docs[files[i]] == parts[i]
    requires forall i :: 0 <= i < |parts| ==> FirstParagraph(parts[i]) == parts[i]
    ensures Gather(docs, files) == Some(Chunking.Concat(parts))
    decreases |files|
  {
    if |files| > 0 {
      HoldTail(docs, files, parts);
      GatherParts(docs, files[1..], parts[1..]);
    }
  }

  lemma HoldTail(docs: map<Id, string>, files: seq<Id>, parts: seq<string>)
    requires 0 < |files| == |parts|
    requires forall i :: 0 <= i < |files| ==> files[i] in docs && docs[files[i]] == parts[i]
    requires forall i :: 0 <= i < |parts| ==> FirstParagraph(parts[i]) == parts[i]
    ensures forall i :: 0 <= i < |files| - 1 ==> files[1..][i] in docs && docs[files[1..][i]] == parts[1..][i]
    ensures forall i :: 0 <= i < |parts| - 1 ==> FirstParagraph(parts[1..][i]) == parts[1..][i]
  {
    forall i | 0 <= i < |files| - 1
      ensures files[1..][i] in docs && docs[files[1..][i]] == parts[1..][i]
      ensures FirstParagraph(parts[1..][i]) == parts[1..][i]
    {
      assert files[1..][i] == files[i + 1] && parts[1..][i] == parts[i + 1];
    }
  }

  /** The first paragraphs of the documents, in the order of files. */
  function Texts(docs: map<Id, string>, files: seq<Id>): seq<string>
    requires Present(docs, files)
  {
    seq(|files|, i requires 0 <= i < |files| => FirstParagraph(docs[files[i]]))
  }

  /**
   * Lines 204-207: the chunk texts are found exactly when every chunk document exists, and then
   * they are concatenated in the order of files.
   */
  lemma {:induction false} GatherPresent(docs: map<Id, string>, files: seq<Id>)
    ensures Gather(docs, files).Some? <==> Present(docs, files)
    ensures Present(docs, files) ==> Gather(docs, files) == Some(Chunking.Concat(Texts(docs, files)))
    decreases |files|
  {
    if |files| > 0 {
      GatherPresent(docs, files[1..]);
      PresentCons(docs, files);
      TextsCons(docs, files);
    }
  }

  lemma PresentCons(docs: map<Id, string>, files: seq<Id>)
    requires |files| > 0
    ensures Present(docs, files) <==> files[0] in docs && Present(docs, files[1..])
  {
    assert forall i :: 0 < i < |files| ==> files[i] == files[1..][i - 1];
  }

  lemma TextsCons(docs: map<Id, string>, files: seq<Id>)
    ensures |files| > 0 && Present(docs, files) && Present(docs, files[1..]) ==>
      Chunking.Concat(Texts(docs, files)) == FirstParagraph(docs[files[0]]) + Chunking.Concat(Texts(docs, files[1..]))
  {
    if |files| > 0 && Present(docs, files) && Present(docs, files[1..]) {
      var t := Texts(docs, files);
      assert t[1..] == Texts(docs, files[1..]);
    }
  }

  /**
   * Store followed by read gives back what was stored: the bytes of a stream, or for any other
   * object eval of its text, or the text itself when eval raises.
   */
  lemma StoreThenRead<V>(s: State, key: string, input: Input, ignoreErrors: bool, eval: string -> Option<V>)
    requires Store(s, key, input).0 == Pass && LineSafeKey(key)
    ensures Read(Store(s, key, input).1, key, ignoreErrors, eval).0 == Expected(input, eval)
  {
    var s' := Store(s, key, input).1;
    var b64s := Base64.Encode(Payload(input));
    var ids := StoreIds(s, key, input);
    StoreUnfold(s, key, input);
    StoreRegistry(s, key, input, key);
    StoreWritten(s, key, input);
    CheckAfterWrite(s');
    StoredChunksChecked(s, key, input);
    GatherStored(Check(s').1.docs, ids, input);
    ReadEntry(s', key, ignoreErrors, eval, |b64s|, ids, input.Object?, b64s);
    DecodedStored(input, eval);
  }

  /** After a store, the _check that opens the next call finds every chunk document as written. */
  lemma StoredChunksChecked(s: State, key: string, input: Input)
    requires Store(s, key, input).0 == Pass && LineSafeKey(key)
    ensures var s2 := Check(Store(s, key, input).1).1;
      var parts := Chunking.Chunks(Base64.Encode(Payload(input))); var ids := StoreIds(s, key, input);
      |ids| == |parts| && forall i :: 0 <= i < |ids| ==> ids[i] in s2.docs && s2.docs[ids[i]] == parts[i]
  {
    var s' := Store(s, key, input).1;
    var parts := Chunking.Chunks(Base64.Encode(Payload(input)));
    var ids := StoreIds(s, key, input);
    StoreUnfold(s, key, input);
    StoreWritten(s, key, input);
    StoreChunks(s, key, input);
    CheckAfterWrite(s');
    var s2 := Check(s').1;
    SettledListed(Check(s).1);
    forall i | 0 <= i < |ids| ensures ids[i] in s2.docs && s2.docs[ids[i]] == parts[i] {
      assert ids[i] != s'.regId;
    }
  }

  /** The chunk documents of a stored value gather back to its Base 64 text. */
  lemma GatherStored(docs: map<Id, string>, ids: seq<Id>, input: Input)
    requires var parts := Chunking.Chunks(Base64.Encode(Payload(input)));
      |ids| == |parts| && forall i :: 0 <= i < |ids| ==> ids[i] in docs && docs[ids[i]] == parts[i]
    ensures Gather(docs, ids) == Some(Base64.Encode(Payload(input)))
  {
    var b64s := Base64.Encode(Payload(input));
    var parts := Chunking.Chunks(b64s);
    forall i | 0 <= i < |parts| ensures FirstParagraph(parts[i]) == parts[i] {
      PartPlain(Payload(input), i);
    }
    GatherParts(docs, ids, parts);
    Chunking.ChunksConcat(b64s);
  }

  /** Lines 196-217 for an entry whose chunks gather to a text of the recorded length. */
  lemma ReadEntry<V>(s: State, key: string, ignoreErrors: bool, eval: string -> Option<V>,
                     length: nat, files: seq<Id>, wasPython: bool, full: string)
    requires Check(s).0 == Pass && !StartsWith(key, "._") && '=' !in key
    requires Lookup(Check(s).1.registry, key) == Some(Entry(length, files, wasPython))
    requires Gather(Check(s).1.docs, files) == Some(full) && |full| == length
    ensures Read(s, key, ignoreErrors, eval).0 == Decoded(full, wasPython, eval)
  {
  }

  /** Decoding the Base 64 text of what store was given yields what read promises. */
  lemma DecodedStored<V>(input: Input, eval: string -> Option<V>)
    ensures Decoded(Base64.Encode(Payload(input)), input.Object?, eval) == Expected(input, eval)
  {
    Base64.DecodeEncode(Payload(input));
    if input.Object? {
      Utf8.DecodeEncode(input.text);
    }
  }

  /** Lines 196-201, 219: read refuses a key with the reserved prefix, one with '=', and a key not in the registry. */
  lemma ReadRefuses<V>(s: State, key: string, ignoreErrors: bool, eval: string -> Option<V>)
    ensures Read(s, key, ignoreErrors, eval).1 == Check(s).1
    ensures StartsWith(key, "._") || '=' in key ==> Read(s, key, ignoreErrors, eval).0.Err?
    ensures Check(s).0.Fail? ==> Read(s, key, ignoreErrors, eval).0 == Err(Check(s).0.error)
    ensures Check(s).0 == Pass && StartsWith(key, "._") ==> Read(s, key, ignoreErrors, eval).0 == Err(ReservedPrefix)
    ensures Check(s).0 == Pass && !StartsWith(key, "._") && '=' in key ==>
      Read(s, key, ignoreErrors, eval).0 == Err(ContainsSeparator)
    ensures Check(s).0 == Pass && !StartsWith(key, "._") && '=' !in key && !Has(Check(s).1.registry, key) ==>
      Read(s, key, ignoreErrors, eval).0 == Err(KeyNotFound)
  {
  }

  /**
   * Lines 208-209: chunks that do not add up to the recorded length are refused unless
   * ignore_errors is set, in which case they are decoded as they are.
   */
  lemma ReadCorrupted<V>(s: State, key: string, ignoreErrors: bool, eval: string -> Option<V>,
                         length: nat, files: seq<Id>, wasPython: bool)
    requires Check(s).0 == Pass && !StartsWith(key, "._") && '=' !in key
    requires Lookup(Check(s).1.registry, key) == Some(Entry(length, files, wasPython))
    requires Gather(Check(s).1.docs, files).Some? && |Gather(Check(s).1.docs, files).value| != length
    ensures Read(s, key, ignoreErrors, eval).0 == Err(Corrupted) <==> !ignoreErrors
    ensures ignoreErrors ==>
      Read(s, key, ignoreErrors, eval).0 == Decoded(Gather(Check(s).1.docs, files).value, wasPython, eval)
  {
  }

  // ---------------------------------------------------------------------------
  // delete

  /** The reserved list after the loop of lines 228-233 removed each chunk id in turn. */
  function RemoveEach(all: seq<Id>, files: seq<Id>): seq<Id>
    decreases |files|
  {
    if |files| == 0 then all else RemoveEach(RemoveFirst(all, files[0]), files[1..])
  }

  lemma MinusMinus(m: multiset<Id>, a: multiset<Id>, n: multiset<Id>)
    ensures (m - a) - n == m - (a + n)
  {
    forall x ensures ((m - a) - n)[x] == (m - (a + n))[x] { }
  }

  lemma ConsCount(files: seq<Id>)
    requires |files| > 0
    ensures multiset(files) == multiset{files[0]} + multiset(files[1..])
  {
    assert files == [files[0]] + files[1..];
  }

  /** Every id is removed once: each occurrence count drops by the number of times the id is deleted. */
  lemma {:induction false} RemoveEachCounts(all: seq<Id>, files: seq<Id>)
    ensures multiset(RemoveEach(all, files)) == multiset(all) - multiset(files)
    decreases |files|
  {
    if |files| > 0 {
      var f, rest := files[0], files[1..];
      var all' := RemoveFirst(all, f);
      RemoveFirstCounts(all, f);
      RemoveEachCounts(all', rest);
      assert RemoveEach(all, files) == RemoveEach(all', rest);
      ConsCount(files);
      MinusMinus(multiset(all), multiset{f}, multiset(rest));
    }
  }

  /** The listing after each chunk document was deleted in turn. */
  function UnlistEach(listing: seq<File>, files: seq<Id>): seq<File>
    decreases |files|
  {
    if |files| == 0 then listing else UnlistEach(Unlist(listing, files[0]), files[1..])
  }

  lemma {:induction false} UnlistEachIds(listing: seq<File>, files: seq<Id>, f: File)
    ensures f in UnlistEach(listing, files) <==> f in listing && f.id !in files
    decreases |files|
  {
    if |files| > 0 {
      UnlistEachIds(Unlist(listing, files[0]), files[1..], f);
    }
  }

  lemma DeleteFilesStep(s: State, files: seq<Id>, all: seq<Id>)
    requires |files| > 0 && files[0] in s.docs && Lookup(s.registry, ReservedKey) == Some(Reserved(all))
    ensures var k := files[0]; var all' := RemoveFirst(all, k);
      var s2 := s.(docs := s.docs - {k}, listing := Unlist(s.listing, k),
                   registry := Put(s.registry, ReservedKey, Reserved(all')));
      && DeleteFiles(s, files) == DeleteFiles(s2, files[1..])
      && Lookup(s2.registry, ReservedKey) == Some(Reserved(all'))
  {
    PutHas(s.registry, ReservedKey, Reserved(RemoveFirst(all, files[0])), ReservedKey);
  }

  predicate DistinctIds(ids: seq<Id>)
  {
    forall i, j :: 0 <= i < j < |ids| ==> ids[i] != ids[j]
  }

  predicate Present(docs: map<Id, string>, ids: seq<Id>)
  {
    forall i :: 0 <= i < |ids| ==> ids[i] in docs
  }

  lemma PresentDistinctCons(docs: map<Id, string>, ids: seq<Id>)
    requires |ids| > 0
    ensures Present(docs, ids) && DistinctIds(ids) <==>
      ids[0] in docs && Present(docs - {ids[0]}, ids[1..]) && DistinctIds(ids[1..])
  {
    var rest := ids[1..];
    assert forall i :: 0 < i < |ids| ==> ids[i] == rest[i - 1];
    if ids[0] in docs && Present(docs - {ids[0]}, rest) && DistinctIds(rest) {
      forall j | 0 < j < |ids| ensures ids[0] != ids[j] {
        assert rest[j - 1] in docs - {ids[0]};
      }
    }
  }

  /**
   * The loop of lines 228-233 with a reserved list present succeeds exactly when the chunk ids
   * are distinct documents that exist.
   */
  lemma {:induction false} DeleteFilesPass(s: State, files: seq<Id>, all: seq<Id>)
    requires Lookup(s.registry, ReservedKey) == Some(Reserved(all))
    ensures DeleteFiles(s, files).0 == Pass <==> Present(s.docs, files) && DistinctIds(files)
    decreases |files|
  {
    if |files| > 0 {
      PresentDistinctCons(s.docs, files);
      if files[0] in s.docs {
        var k := files[0];
        var all' := RemoveFirst(all, k);
        var s2 := s.(docs := s.docs - {k}, listing := Unlist(s.listing, k),
                     registry := Put(s.registry, ReservedKey, Reserved(all')));
        DeleteFilesStep(s, files, all);
        DeleteFilesPass(s2, files[1..], all');
      }
    }
  }

  /**
   * A successful run of the loop of lines 228-233 deletes the chunk documents and their listing
   * entries, removes each id once from the reserved list, and changes nothing else.
   */
  lemma DeleteFilesEffect(s: State, files: seq<Id>, all: seq<Id>)
    requires Lookup(s.registry, ReservedKey) == Some(Reserved(all))
    requires DeleteFiles(s, files).0 == Pass
    ensures var s' := DeleteFiles(s, files).1;
      && s'.registry == Put(s.registry, ReservedKey, Reserved(RemoveEach(all, files)))
      && s'.listing == UnlistEach(s.listing, files)
      && s'.regId == s.regId && s'.regLen == s.regLen
      && (forall d :: d in s'.docs <==> d in s.docs && d !in files)
      && (forall d :: d in s'.docs ==> s'.docs[d] == s.docs[d])
  {
    DeleteFilesFields(s, files, all);
    DeleteFilesDocs(s, files, all);
  }

  lemma {:induction false} DeleteFilesFields(s: State, files: seq<Id>, all: seq<Id>)
    requires Lookup(s.registry, ReservedKey) == Some(Reserved(all))
    requires DeleteFiles(s, files).0 == Pass
    ensures var s' := DeleteFiles(s, files).1;
      && s'.registry == Put(s.registry, ReservedKey, Reserved(RemoveEach(all, files)))
      && s'.listing == UnlistEach(s.listing, files)
      && s'.regId == s.regId && s'.regLen == s.regLen
    decreases |files|
  {
    if |files| == 0 {
      PutSame(s.registry, ReservedKey, Reserved(all));
    } else {
      var k := files[0];
      var all' := RemoveFirst(all, k);
      var s2 := s.(docs := s.docs - {k}, listing := Unlist(s.listing, k),
                   registry := Put(s.registry, ReservedKey, Reserved(all')));
      DeleteFilesStep(s, files, all);
      DeleteFilesFields(s2, files[1..], all');
      PutPut(s.registry, ReservedKey, Reserved(all'), Reserved(RemoveEach(all', files[1..])));
    }
  }

  lemma {:induction false} DeleteFilesDocs(s: State, files: seq<Id>, all: seq<Id>)
    requires Lookup(s.registry, ReservedKey) == Some(Reserved(all))
    requires DeleteFiles(s, files).0 == Pass
    ensures var d' := DeleteFiles(s, files).1.docs;
      && (forall d :: d in d' <==> d in s.docs && d !in files)
      && (forall d :: d in d' ==> d'[d] == s.docs[d])
    decreases |files|
  {
    if |files| > 0 {
      var k := files[0];
      var all' := RemoveFirst(all, k);
      var s2 := s.(docs := s.docs - {k}, listing := Unlist(s.listing, k),
                   registry := Put(s.registry, ReservedKey, Reserved(all')));
      DeleteFilesStep(s, files, all);
      DeleteFilesDocs(s2, files[1..], all');
      forall d ensures d in files <==> d == k || d in files[1..] {
        InTail(files, d);
      }
    }
  }

  lemma InTail(ids: seq<Id>, d: Id)
    requires |ids| > 0
    ensures d in ids <==> d == ids[0] || d in ids[1..]
  {
    assert ids == [ids[0]] + ids[1..];
  }

  /** The chunk ids recorded for key in registry r. */
  function EntryFiles(r: Registry, key: string): seq<Id>
  {
    match Lookup(r, key)
    case Some(Entry(_, files, _)) => files
    case _ => []
  }

  /** The state delete hands to its final _write_reg: the chunks deleted and the key removed. */
  function DeleteBeforeWrite(s1: State, key: string): State
    requires Has(DeleteFiles(s1, EntryFiles(s1.registry, key)).1.registry, key)
  {
    var s2 := DeleteFiles(s1, EntryFiles(s1.registry, key)).1;
    s2.(registry := Remove(s2.registry, key))
  }

  /** A successful delete passed _check and then succeeded on the state _check left. */
  lemma DeleteUnfold(s: State, key: string)
    requires Delete(s, key).0 == Pass
    ensures Check(s).0 == Pass && Settled(Check(s).1)
    ensures Delete(s, key) == DeleteChecked(Check(s).1, key)
  {
    CheckEffect(s);
  }

  lemma DeleteCheckedUnfold(s1: State, key: string)
    requires DeleteChecked(s1, key).0 == Pass
    ensures !StartsWith(key, "._") && '=' !in key && key != ReservedKey
    ensures Lookup(s1.registry, key).Some? && Lookup(s1.registry, key).value.Entry?
    ensures DeleteFiles(s1, EntryFiles(s1.registry, key)).0 == Pass
    ensures Has(DeleteFiles(s1, EntryFiles(s1.registry, key)).1.registry, key)
    ensures DeleteChecked(s1, key) == WriteReg(DeleteBeforeWrite(s1, key))
  {
    ReservedKeyShape();
    DeleteFilesKeeps(s1, EntryFiles(s1.registry, key), key);
  }

  /**
   * After _check left s1, delete succeeds exactly when the key passes the checks of lines 223-226
   * and holds an entry, and the entry's chunks are distinct existing documents other than the
   * registry's, with the reserved list present whenever there is a chunk to remove from it.
   */
  predicate Deletable(s1: State, key: string)
  {
    && !StartsWith(key, "._") && '=' !in key
    && Lookup(s1.registry, key).Some? && Lookup(s1.registry, key).value.Entry?
    && var files := EntryFiles(s1.registry, key);
    && (|files| > 0 ==> HasReserved(s1.registry))
    && Present(s1.docs, files) && DistinctIds(files) && s1.regId !in files
  }

  /** delete succeeds exactly when _check does and the key is Deletable in the state it leaves. */
  lemma DeletePasses(s: State, key: string)
    ensures Delete(s, key).0 == Pass <==> Check(s).0 == Pass && Deletable(Check(s).1, key)
  {
    if Check(s).0 == Pass {
      CheckEffect(s);
      DeleteCheckedPasses(Check(s).1, key);
    }
  }

  lemma DeleteCheckedPasses(s1: State, key: string)
    requires Settled(s1)
    ensures DeleteChecked(s1, key).0 == Pass <==> Deletable(s1, key)
  {
    var files := EntryFiles(s1.registry, key);
    if !StartsWith(key, "._") && '=' !in key
       && Lookup(s1.registry, key).Some? && Lookup(s1.registry, key).value.Entry? {
      ReservedKeyShape();
      DeleteFilesKeeps(s1, files, key);
      var s2 := DeleteFiles(s1, files).1;
      if HasReserved(s1.registry) {
        DeleteFilesPass(s1, files, ReservedList(s1.registry));
        if DeleteFiles(s1, files).0 == Pass {
          DeleteFilesEffect(s1, files, ReservedList(s1.registry));
          DeleteWrite(s1, s2, key);
        }
      } else if |files| == 0 {
        DeleteWrite(s1, s2, key);
      } else {
        assert DeleteFiles(s1, files).0 != Pass;
      }
    }
  }

  /** The final write of delete succeeds exactly when the registry document was not one of the chunks. */
  lemma DeleteWrite(s1: State, s2: State, key: string)
    requires Settled(s1) && Has(s1.registry, key)
    requires s2.regId == s1.regId && s2.regLen == s1.regLen && Has(s2.registry, key)
    requires forall d :: d in s2.docs ==> d in s1.docs && s2.docs[d] == s1.docs[d]
    ensures var s3 := s2.(registry := Remove(s2.registry, key));
      WriteReg(s3).0 == Pass <==> s1.regId in s2.docs
    ensures var s3 := s2.(registry := Remove(s2.registry, key));
      s1.regId in s2.docs ==>
        WriteReg(s3).1 == s3.(docs := s2.docs[s1.regId := RenderText(s3.registry) + "}"],
                              regLen := |RenderText(s3.registry)|)
  {
    RenderEnds(s1.registry);
    var s3 := s2.(registry := Remove(s2.registry, key));
    if s1.regId in s2.docs {
      var t := RenderText(s1.registry);
      assert s3.docs[s3.regId] == t;
      WriteRegLeftover(s3);
    }
  }

  /**
   * Lines 228-235: after a successful delete the key is gone; when the registry has its reserved
   * list, each chunk id is removed from it once; every other key keeps its value.
   */
  lemma DeleteRegistry(s: State, key: string, k: string)
    requires Delete(s, key).0 == Pass
    ensures var r0 := Check(s).1.registry; var r' := Delete(s, key).1.registry;
      && Lookup(r', key) == None
      && (HasReserved(r0) ==> Lookup(r', ReservedKey) == Some(Reserved(RemoveEach(ReservedList(r0), EntryFiles(r0, key)))))
      && (k != key && k != ReservedKey ==> Lookup(r', k) == Lookup(r0, k))
  {
    DeleteUnfold(s, key);
    DeleteCheckedRegistry(Check(s).1, key, k);
  }

  lemma DeleteCheckedRegistry(s1: State, key: string, k: string)
    requires Settled(s1) && DeleteChecked(s1, key).0 == Pass
    ensures var r0 := s1.registry; var r' := DeleteChecked(s1, key).1.registry;
      && Lookup(r', key) == None
      && (HasReserved(r0) ==> Lookup(r', ReservedKey) == Some(Reserved(RemoveEach(ReservedList(r0), EntryFiles(r0, key)))))
      && (k != key && k != ReservedKey ==> Lookup(r', k) == Lookup(r0, k))
  {
    DeleteCheckedUnfold(s1, key);
    var files := EntryFiles(s1.registry, key);
    var r2 := DeleteFiles(s1, files).1.registry;
    assert DeleteChecked(s1, key).1.registry == Remove(r2, key);
    if k != ReservedKey {
      DeleteFilesKeeps(s1, files, k);
    }
    if HasReserved(s1.registry) {
      var all := ReservedList(s1.registry);
      DeleteFilesFields(s1, files, all);
      PutKeepsDistinct(s1.registry, ReservedKey, Reserved(RemoveEach(all, files)));
      PutHas(s1.registry, ReservedKey, Reserved(RemoveEach(all, files)), ReservedKey);
      LookupRemove(r2, key, ReservedKey);
    } else {
      DeleteFilesUnchanged(s1, files);
    }
    LookupRemove(r2, key, k);
    LookupRemove(r2, key, key);
  }

  /** Without a reserved list the deletion loop only succeeds on an empty list of chunks, changing nothing. */
  lemma DeleteFilesUnchanged(s: State, files: seq<Id>)
    requires !HasReserved(s.registry) && DeleteFiles(s, files).0 == Pass
    ensures |files| == 0 && DeleteFiles(s, files).1 == s
  {
  }

  /**
   * Lines 228-233: a successful delete removes exactly the chunk documents and their listing
   * entries; every other document keeps its text, except the registry document.
   */
  lemma DeleteDocs(s: State, key: string)
    requires Delete(s, key).0 == Pass
    ensures var s1 := Check(s).1; var s' := Delete(s, key).1; var files := EntryFiles(s1.registry, key);
      && s'.regId == s1.regId && s1.regId !in files
      && (forall d :: d in s'.docs <==> d in s1.docs && d !in files)
      && (forall d :: d in s'.docs && d != s1.regId ==> s'.docs[d] == s1.docs[d])
      && s'.listing == UnlistEach(s1.listing, files)
  {
    DeleteUnfold(s, key);
    DeleteCheckedDocs(Check(s).1, key);
  }

  lemma DeleteCheckedDocs(s1: State, key: string)
    requires Settled(s1) && DeleteChecked(s1, key).0 == Pass
    ensures var s' := DeleteChecked(s1, key).1; var files := EntryFiles(s1.registry, key);
      && s'.regId == s1.regId && s1.regId !in files
      && (forall d :: d in s'.docs <==> d in s1.docs && d !in files)
      && (forall d :: d in s'.docs && d != s1.regId ==> s'.docs[d] == s1.docs[d])
      && s'.listing == UnlistEach(s1.listing, files)
  {
    DeleteCheckedUnfold(s1, key);
    DeleteCheckedPasses(s1, key);
    var files := EntryFiles(s1.registry, key);
    if HasReserved(s1.registry) {
      DeleteFilesEffect(s1, files, ReservedList(s1.registry));
    } else {
      DeleteFilesUnchanged(s1, files);
    }
  }

  lemma {:induction false} FindNamedUnlistEach(l: seq<File>, files: seq<Id>, name: string)
    requires FindNamed(l, name).Some? && FindNamed(l, name).value.id !in files
    ensures FindNamed(UnlistEach(l, files), name) == FindNamed(l, name)
    decreases |files|
  {
    if |files| > 0 {
      FindNamedUnlist(l, files[0], name);
      FindNamedUnlistEach(Unlist(l, files[0]), files[1..], name);
    }
  }

  /** A successful delete from a registry with its reserved list leaves the registry document Written. */
  lemma DeleteWritten(s: State, key: string)
    requires Delete(s, key).0 == Pass && HasReserved(Check(s).1.registry)
    ensures Written(Delete(s, key).1)
  {
    DeleteUnfold(s, key);
    DeleteCheckedWritten(Check(s).1, key);
  }

  lemma DeleteCheckedWritten(s1: State, key: string)
    requires Settled(s1) && DeleteChecked(s1, key).0 == Pass && HasReserved(s1.registry)
    ensures Written(DeleteChecked(s1, key).1)
  {
    DeleteCheckedUnfold(s1, key);
    DeleteCheckedPasses(s1, key);
    DeleteCheckedDocs(s1, key);
    DeleteCheckedRegistry(s1, key, key);
    var files := EntryFiles(s1.registry, key);
    var all := ReservedList(s1.registry);
    DeleteFilesEffect(s1, files, all);
    var s2 := DeleteFiles(s1, files).1;
    DeleteWrite(s1, s2, key);
    FindNamedUnlistEach(s1.listing, files, RegistryName);
    ReservedIds(s1.registry);
    RemoveEachIds(all, files);
    ReservedKeyShape();
    PutWellFormed(s1.registry, ReservedKey, Reserved(RemoveEach(all, files)));
    PutHas(s1.registry, ReservedKey, Reserved(RemoveEach(all, files)), key);
    RemoveWellFormed(s2.registry, key);
  }

  lemma ReservedIds(r: Registry)
    requires WellFormedRegistry(r) && HasReserved(r)
    ensures AllIds(ReservedList(r))
  {
    var i := Find(r, ReservedKey);
    assert r[i].value == Lookup(r, ReservedKey).value;
  }

  /** Removing ids from a list of plain ids leaves plain ids. */
  lemma RemoveEachIds(all: seq<Id>, files: seq<Id>)
    requires AllIds(all)
    ensures AllIds(RemoveEach(all, files))
  {
    var r := RemoveEach(all, files);
    RemoveEachCounts(all, files);
    forall j | 0 <= j < |r| ensures IsId(r[j]) {
      assert r[j] in multiset(r);
      assert r[j] in multiset(all);
    }
  }

  /** Delete followed by read: the key is not found. */
  lemma DeleteThenRead<V>(s: State, key: string, ignoreErrors: bool, eval: string -> Option<V>)
    requires Delete(s, key).0 == Pass && HasReserved(Check(s).1.registry)
    ensures Read(Delete(s, key).1, key, ignoreErrors, eval).0 == Err(KeyNotFound)
  {
    var s' := Delete(s, key).1;
    DeleteUnfold(s, key);
    DeleteWritten(s, key);
    DeleteRegistry(s, key, key);
    CheckAfterWrite(s');
  }

  /** Lines 221-226, 237: delete refuses a key with the reserved prefix, one with '=', and a key not in the registry. */
  lemma DeleteRefuses(s: State, key: string)
    requires StartsWith(key, "._") || '=' in key || (Check(s).0 == Pass && !Has(Check(s).1.registry, key))
    ensures Delete(s, key).0.Fail? && Delete(s, key).1 == Check(s).1
    ensures Check(s).0.Fail? ==> Delete(s, key).0 == Check(s).0
    ensures Check(s).0 == Pass && StartsWith(key, "._") ==> Delete(s, key).0 == Fail(ReservedPrefix)
    ensures Check(s).0 == Pass && !StartsWith(key, "._") && '=' in key ==> Delete(s, key).0 == Fail(ContainsSeparator)
    ensures Check(s).0 == Pass && !StartsWith(key, "._") && '=' !in key && !Has(Check(s).1.registry, key) ==>
      Delete(s, key).0 == Fail(KeyNotFound)
  {
  }

  // ---------------------------------------------------------------------------
  // Keys that do not survive the registry document

  /**
   * Whatever the folder holds, a key with a newline or leading whitespace is never found by read:
   * every registry _check loads is well formed, and its keys have neither.
   */
  lemma UnsafeKeyUnreadable<V>(t: State, key: string, ignoreErrors: bool, eval: string -> Option<V>)
    requires !LineSafeKey(key)
    ensures Read(t, key, ignoreErrors, eval).0.Err?
    ensures Check(t).0 == Pass && !StartsWith(key, "._") && '=' !in key ==>
      Read(t, key, ignoreErrors, eval).0 == Err(KeyNotFound)
  {
    if Check(t).0 == Pass {
      CheckEffect(t);
      var r := Check(t).1.registry;
      assert !Has(r, key) by {
        forall i | 0 <= i < |r| ensures r[i].key != key {
          assert LineSafeKey(r[i].key);
        }
      }
    }
  }

  /**
   * Lines 134-140 as written: in a new folder the key "a\n" passes every check of store and the
   * store succeeds, yet reading the key back fails.
   */
  lemma UnsafeKeyLost<V>(s: State, input: Input, ignoreErrors: bool, eval: string -> Option<V>)
    requires |s.listing| == 0
    ensures Store(s, "a\n", input).0 == Pass
    ensures Read(Store(s, "a\n", input).1, "a\n", ignoreErrors, eval).0.Err?
  {
    var key := "a\n";
    CheckEmptyFolder(s);
    assert Bootstrap[0].key == ReservedKey;
    assert Lookup(Bootstrap, ReservedKey) == Some(Reserved([]));
    assert !Has(Bootstrap, key) by {
      assert Bootstrap[0].key != key by { assert Bootstrap[0].key[0] != key[0]; }
    }
    assert !StartsWith(key, "._") by { assert key[0] != '.'; }
    StorePasses(s, key, input);
    assert !LineSafeKey(key) by { assert key[1] == '\n'; }
    UnsafeKeyUnreadable(Store(s, key, input).1, key, ignoreErrors, eval);
  }

  /** The key check store evidently intends: one that no later _check can lose. */
  predicate StorableKey(key: string)
  {
    !StartsWith(key, "._") && LineSafeKey(key)
  }

  /** store with the missing check added: a newline or leading whitespace in a new key is refused too. */
  function StoreChecked(s: State, key: string, input: Input): (Outcome<Error>, State)
  {
    var (o, s1) := Check(s);
    if o.Fail? then (o, s1)
    else if Has(s1.registry, key) then (Fail(KeyExists), s1)
    else if StartsWith(key, "._") then (Fail(ReservedPrefix), s1)
    else if '=' in key then (Fail(ContainsSeparator), s1)
    else if !LineSafeKey(key) then (Fail(UnreadableKey), s1)
    else Save(s1, key, input)
  }

  /** The corrected store accepts only storable keys, and what it stores always reads back. */
  lemma StoreCheckedThenRead<V>(s: State, key: string, input: Input, ignoreErrors: bool, eval: string -> Option<V>)
    requires StoreChecked(s, key, input).0 == Pass
    ensures StorableKey(key)
    ensures Read(StoreChecked(s, key, input).1, key, ignoreErrors, eval).0 == Expected(input, eval)
  {
    StorePasses(s, key, input);
    StoreThenRead(s, key, input, ignoreErrors, eval);
  }

  /** The corrected store differs from store only by refusing keys that are not storable. */
  lemma StoreCheckedAgrees(s: State, key: string, input: Input)
    ensures StorableKey(key) ==> StoreChecked(s, key, input) == Store(s, key, input)
    ensures !StorableKey(key) ==> StoreChecked(s, key, input).0.Fail? && StoreChecked(s, key, input).1 == Check(s).1
  {
  }
}
