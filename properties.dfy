/**
 * What the operations of the engine guarantee: the registry document after _write_reg and
 * _check, the refusals of store, read and delete, what a successful store or delete changes,
 * and that a stored value reads back.
 */
module Properties {
  import opened Wrappers
  import opened Text
  import Base64
  import Utf8
  import Chunking
  import opened RegistryJson
  import opened Registry
  import opened Engine

  // ---------------------------------------------------------------------------
  // _write_reg

  /**
   * Line 131: after a write the recorded length is that of the rendered registry, which now
   * opens the registry document; after it comes what the deletion left of the old text.
   */
  lemma WriteRegLength(s: State)
    requires WriteReg(s).0 == Pass
    ensures s.regId in s.docs
    ensures var s' := WriteReg(s).1; var t := RenderText(s.registry); var b := s.docs[s.regId];
      && s'.regLen == |t|
      && s'.registry == s.registry && s'.listing == s.listing && s'.regId == s.regId
      && s'.regId in s'.docs && s'.docs == s.docs[s.regId := s'.docs[s.regId]]
      && s'.docs[s.regId][..|t|] == t
      && s'.docs[s.regId][|t|..] == (if s.regLen == 0 then b else b[s.regLen - 1..])
  {
    var t := RenderText(s.registry);
    var b := s.docs[s.regId];
    var rest := if s.regLen > 0 then b[s.regLen - 1..] else b;
    assert (t + rest)[..|t|] == t && (t + rest)[|t|..] == rest;
  }

  /** A write right after _get_lines (reg_len one more than the text) replaces the whole text. */
  lemma WriteRegWhole(s: State)
    requires s.regId in s.docs && |s.docs[s.regId]| > 0 && s.regLen == |s.docs[s.regId]| + 1
    ensures WriteReg(s) ==
      (Pass, s.(docs := s.docs[s.regId := RenderText(s.registry)], regLen := |RenderText(s.registry)|))
  {
    var b := s.docs[s.regId];
    assert b[|b|..] == "";
    assert RenderText(s.registry) + "" == RenderText(s.registry);
  }

  /**
   * A second write with reg_len still equal to the length of the text (as after _check) deletes
   * one character too few: the last character of the old text stays behind the new one.
   */
  lemma WriteRegLeftover(s: State)
    requires s.regId in s.docs && |s.docs[s.regId]| >= 2 && s.regLen == |s.docs[s.regId]|
    ensures var b := s.docs[s.regId];
      WriteReg(s) == (Pass, s.(docs := s.docs[s.regId := RenderText(s.registry) + [b[|b| - 1]]],
                               regLen := |RenderText(s.registry)|))
  {
    var b := s.docs[s.regId];
    assert b[|b| - 1..] == [b[|b| - 1]];
  }

  // ---------------------------------------------------------------------------
  // _check

  /** The state a successful _check leaves: the registry document holds exactly the rendered registry. */
  ghost predicate Settled(s: State)
  {
    && FindNamed(s.listing, RegistryName) == Some(File(s.regId, RegistryName))
    && s.regId in s.docs
    && s.docs[s.regId] == RenderText(s.registry)
    && s.regLen == |RenderText(s.registry)|
    && WellFormedRegistry(s.registry)
  }

  /** Lines 70-85: a new folder gets one registry document holding only the reserved entry with an empty list. */
  lemma CheckEmptyFolder(s: State)
    requires |s.listing| == 0
    ensures var id := FreshId(s.listing, s.docs, s.registry);
      Check(s) == (Pass, State(s.docs[id := RenderText(Bootstrap)], [File(id, RegistryName)], Bootstrap, id,
                               |RenderText(Bootstrap)|))
  {
    var id := FreshId(s.listing, s.docs, s.registry);
    assert s.listing + [File(id, RegistryName)] == [File(id, RegistryName)];
    assert RenderText(Bootstrap) + "" == RenderText(Bootstrap);
    assert s.docs[id := ""][id := RenderText(Bootstrap)] == s.docs[id := RenderText(Bootstrap)];
  }

  /** Lines 65-66: a non-empty folder without a file named ._registry is refused and nothing changes. */
  lemma CheckNoRegistry(s: State)
    requires |s.listing| > 0
    requires forall i :: 0 <= i < |s.listing| ==> s.listing[i].name != RegistryName
    ensures Check(s) == (Fail(RegistryMissing), s)
  {
    assert NamedIndex(s.listing, RegistryName) == |s.listing|;
  }

  lemma BootstrapWellFormed()
    ensures WellFormedRegistry(Bootstrap)
  {
    assert ReservedKey[0] == '.';
  }

  /**
   * Lines 48-85: a successful _check leaves the registry document holding exactly the rendered
   * registry, with reg_len its length; no other document changes; a new folder's registry is a
   * new document, and an existing registry is the one the document held.
   */
  lemma CheckEffect(s: State)
    requires Check(s).0 == Pass
    ensures var s' := Check(s).1;
      && Settled(s')
      && s'.docs == s.docs[s'.regId := RenderText(s'.registry)]
      && (|s.listing| == 0 ==>
            s'.regId !in s.docs && s'.listing == [File(s'.regId, RegistryName)] && s'.registry == Bootstrap)
      && (|s.listing| > 0 ==>
            && s'.listing == s.listing
            && FindNamed(s.listing, RegistryName) == Some(File(s'.regId, RegistryName))
            && Load([], DocLines(s.docs[s'.regId])) == Loaded(s'.registry))
  {
    if |s.listing| == 0 {
      CheckEmptyFolder(s);
      BootstrapWellFormed();
    } else {
      var f := FindNamed(s.listing, RegistryName).value;
      var b := s.docs[f.id];
      assert f == File(f.id, RegistryName);
      LoadWellFormed(b);
      var reg := Load([], DocLines(b)).reg;
      var s2 := s.(registry := reg, regId := f.id, regLen := |b| + 1);
      if |b| > 0 {
        WriteRegWhole(s2);
      }
    }
  }

  /** Checking a settled state with a non-empty registry reads the registry back and rewrites the same text. */
  lemma CheckSettled(s: State)
    requires Settled(s) && |s.registry| > 0
    ensures Check(s) == (Pass, s)
  {
    var t := RenderText(s.registry);
    RenderEnds(s.registry);
    Reload(s.registry);
    assert |s.listing| > 0 by {
      assert NamedIndex(s.listing, RegistryName) < |s.listing|;
    }
    var s2 := s.(regLen := |t| + 1);
    WriteRegWhole(s2);
    UpdateSame(s.docs, s.regId, t);
  }

  lemma UpdateSame(docs: map<Id, string>, id: Id, t: string)
    requires id in docs && docs[id] == t
    ensures docs[id := t] == docs
  {
  }

  /** _check is idempotent once it has produced a non-empty registry. */
  lemma CheckIdempotent(s: State)
    requires Check(s).0 == Pass && |Check(s).1.registry| > 0
    ensures Check(Check(s).1) == Check(s)
  {
    CheckEffect(s);
    CheckSettled(Check(s).1);
  }
}
