# GISS in Dafny

GISS ("Google Docs storage") keeps a key/value store in a Google Drive folder of Google Docs
documents. The class `GISS` in `__init__.py` works like this:

- The folder holds one document named `._registry`. Each of its lines is `key=json`.
  - A user key maps to `{"length": n, "files": [...], "wasPython": b}`.
  - The reserved key `._reserved_persistent` maps to `{"all": [...]}`, the ids of every chunk
    document ever allocated.
- `store` encodes a value in Base 64 and cuts the text into chunks of at most 900001 characters.
  It writes each chunk into a new document, enters the key, and rewrites the registry.
- `read` concatenates the chunks back, checks the length, and decodes. A value that was a
  Python object is passed through `eval`.
- `delete` deletes the chunk documents, takes their ids out of the reserved list, and removes
  the key.
- Every operation starts with `_check`. It creates the registry of a new folder, or reparses
  and rewrites the registry of an existing one.

The model:

- The Drive folder becomes a map from document id to text, plus the folder listing of
  (id, name) pairs.
- The fields `registry`, `reg_id` and `reg_len` of the object are kept alongside.
- A document's text is held without the newline Docs keeps at its end. So `_get_lines`
  yields a `reg_len` one more than the text's length, and a delete of the range `[1, e)`
  drops the first `e - 1` characters. The model counts these indexes in characters, as
  Python's `len` does. "## Left out" says where that differs from the Docs API.

Modules:

- `Wrappers`, `Text`: `Option`, `Result` and `Outcome`, plus Python's `split`, `join` and
  `strip` on strings.
- `Base64`: the encoding of section 4 of RFC 4648, with a strict decoder. Both round trips
  are proved.
- `Utf8`: the UTF-8 encoding of `str.encode('utf-8')`, with both round trips proved.
- `Chunking`: the chunking of lines 149-160, as a function and as the character-by-character
  loop.
- `RegistryJson`: `json.dumps` and `json.loads` for the two value shapes the registry holds.
- `Registry`:
  - the registry as an insertion-ordered dictionary;
  - the text `_write_reg` renders from it;
  - the line-by-line reload `_check` performs on that text.
- `Engine`: `_write_reg`, `_check`, `store`, `read` and `delete` as functions from the state
  before a call to its outcome and the state after it. A Python exception is a `Fail` or `Err`
  outcome. Each check of the code has its own error constructor. A failed Drive or Docs
  request is always the one `BackendError`.
- `Properties`, `Lifecycle`: what the operations guarantee.
  - `Properties`: the registry document after `_write_reg` and `_check`, and idempotence.
  - `Lifecycle`: refusals and their exact conditions, what a store or delete changes and
    keeps, and the round trip of store then read. Also that a read after a delete finds
    nothing.
- `Giss`: the class itself.
  - Its fields are the backend state and the three object fields.
  - Its methods update them in place with the loops of the source.
  - Each method is proved to leave exactly the state, and return exactly the outcome, of the
    corresponding `Engine` function.

A detail of the code is kept exactly. `_check` leaves `reg_len` at the length of the text it
just wrote, not at the document length `_get_lines` returns. So the `_write_reg` at the end of
`store` or `delete` leaves the last character of the old text, a `}`, behind the new text.

- `Properties.WriteRegLeftover` states this.
- `Lifecycle.Written` describes the document it leaves.
- `Lifecycle.CheckAfterWrite` proves that the next `_check` reads such a document back
  correctly, through the `}}` trim of lines 59-60, and rewrites it clean.

## Model

| member | source | states |
|---|---|---|
| Text.StripLeft | __init__.py:43 | `lstrip`: the result is a suffix of the text that does not start with whitespace, and every character dropped is whitespace |
| Text.StripRight | __init__.py:43 | `rstrip`: the result is a prefix of the text that does not end with whitespace, and every character dropped is whitespace |
| Text.Strip | __init__.py:43 | `str.strip()`, `rstrip` after `lstrip`; `Text.StripKeeps` states that a text with no whitespace at either end is unchanged |
| Text.Split | __init__.py:62 | `str.split` on one character: at least one part, no part holds the separator, two or more parts exactly when it occurs, the first part is the text before its first occurrence; `Text.JoinSplit` states that the parts join back to the text |
| Text.Join | __init__.py:117 | `'\n'.join`; `Text.SplitJoin` states that splitting joined parts without the separator gives the parts back |
| Text.JoinSplit | __init__.py:117 | joining the parts of a split gives the text back |
| Text.SplitJoin | __init__.py:117 | splitting the join of parts that hold no separator gives the parts back |
| Chunking.Chunks | __init__.py:149-160 | the parts store writes; stated by `Chunking.ChunksConcat`, `Chunking.ChunksShape` and `Chunking.Split` |
| Chunking.Pieces | __init__.py:150-158 | the parts of a text over 900000 characters; stated by `Chunking.PiecesShape` and `Chunking.PiecesConcat` |
| Chunking.PiecesConcat | __init__.py:150-158 | the parts concatenate to the text |
| Chunking.ChunksConcat | __init__.py:149-160 | the concatenation of the chunks is the encoded text |
| Chunking.ChunksShape | __init__.py:149-160 | a text of at most 900000 characters is one chunk; a longer one is cut into parts of 900001 characters and a last part of length `len % 900001`, possibly empty |
| Chunking.PiecesShape | __init__.py:153-158 | the number of parts the loop appends and their lengths |
| Chunking.Split | __init__.py:149-160 | the character-by-character loop yields exactly the chunks of the specification function |
| Base64.Encode | __init__.py:143-146 | the encoded length is 4·⌈n/3⌉ and every character is from the Base 64 alphabet or the pad '=', so a chunk holds no newline or whitespace |
| Base64.Decode | __init__.py:212 | the strict decoder; `Base64.DecodeEncode` and `Base64.EncodeDecode` state that it and `Base64.Encode` are inverse on everything the encoder writes |
| Base64.DecodeEncode | __init__.py:143-147 | decoding the encoding of any bytes gives them back |
| Base64.EncodeDecode | __init__.py:212 | a text the decoder accepts is the encoding of what it decodes to (the decoder accepts only canonical text) |
| Base64.QuantumCanonical | __init__.py:212 | a four-character group the decoder accepts re-encodes to itself |
| Base64.CanonicalFull | __init__.py:212 | four alphabet characters decode to three octets whose encoding is those characters |
| Base64.CanonicalTwo | __init__.py:212 | three alphabet characters and one '=' decode to two octets whose encoding is those characters |
| Base64.CanonicalOne | __init__.py:212 | two alphabet characters and '==' decode to one octet whose encoding is those characters |
| Utf8.Decode | __init__.py:215-217 | `bytes.decode('utf-8')`, failing on bytes that are not UTF-8; `Utf8.DecodeEncode` and `Utf8.EncodeDecode` state that it inverts `Utf8.Encode` |
| Utf8.DecodeEncode | __init__.py:146 | decoding the UTF-8 encoding of any string gives it back |
| Utf8.EncodeDecode | __init__.py:215-217 | bytes the decoder accepts are the encoding of the string they decode to |
| Utf8.EncodeDecodeChar | __init__.py:215-217 | the bytes of one decoded character are the encoding of that character |
| Utf8.Encode | __init__.py:146 | one to four bytes per character |
| RegistryJson.Print | __init__.py:117 | `json.dumps` of a registry value; `RegistryJson.ParseOfPrint` and `RegistryJson.PrintShape` state what it writes |
| RegistryJson.Parse | __init__.py:62 | `json.loads` of a registry value; `RegistryJson.ParseOfPrint` and `RegistryJson.ParseWellFormed` state what it reads |
| RegistryJson.ParseOfPrint | __init__.py:117 | `json.loads(json.dumps(v)) == v` for every registry value |
| RegistryJson.ParseWellFormed | __init__.py:62 | every value the parser returns has well-formed document ids |
| RegistryJson.PrintShape | __init__.py:117-119 | the JSON text of a value starts with '{' and ends with a single '}', with no '=' or newline in it |
| RegistryJson.NatToString | __init__.py:117 | decimal digits with no leading zero |
| RegistryJson.DigitsValueOfNat | __init__.py:117 | the digits printed for n are read back as n |
| Registry.Has | __init__.py:135 | `key in self.registry.keys()` (also lines 202 and 227); `Registry.Lookup` finds a value exactly when it holds |
| Registry.Lookup | __init__.py:202 | a lookup finds a value exactly when the key is present, and then finds the item holding it |
| Registry.Put | __init__.py:189-193 | assigning to a present key replaces its value in place and keeps every other item; a new key goes last |
| Registry.PutHas | __init__.py:189-193 | after an assignment the key maps to the value and every other key to what it mapped to |
| Registry.PutKeepsDistinct | __init__.py:62 | assignment keeps the keys distinct |
| Registry.PutPut | __init__.py:187 | a second assignment to a key overrides the first |
| Registry.LookupRemove | __init__.py:234 | after `del`, the key is gone and every other key is as before |
| Registry.RemoveWellFormed | __init__.py:234 | `del` keeps the registry well formed |
| Registry.Remove | __init__.py:234 | `del registry[key]`; `Registry.LookupRemove` and `Registry.RemoveWellFormed` state its effect |
| Registry.RenderText | __init__.py:116-119 | the `key=json` lines joined by newlines, with one '}' of a final `}}` dropped; stated by `Registry.SplitRendered`, `Registry.Reload` and `Registry.ReloadWithBrace` |
| Registry.DocLines | __init__.py:43 | the stripped paragraphs of a document body; stated by `Registry.SplitRendered` and `Registry.LoadWellFormed` |
| Registry.TrimLine | __init__.py:59-60 | the `}}` trim of one line; stated by `Registry.ParseLineOf` |
| Registry.ParseLine | __init__.py:59-62 | what one line of the registry document gives: skipped, a failed `json.loads`, or an assignment; stated by `Registry.ParseLineOf`, `Registry.ParseLineSafe` and `Registry.LoadStep` |
| Registry.ParseLineSafe | __init__.py:59-62 | a line's assignment has a key without newline or leading whitespace and a well-formed value |
| Registry.Apply | __init__.py:58-62 | the reload loop over parsed lines; stated by `Registry.ApplyPairs` and `Registry.LoadFirst` |
| Registry.Load | __init__.py:57-62 | the reload loop of `_check`; stated by `Registry.Reload`, `Registry.ReloadWithBrace`, `Registry.LoadStep` and `Registry.LoadWellFormed` |
| Registry.Reload | __init__.py:58-62 | the registry read back from the text `_write_reg` renders is the registry rendered, in the same order |
| Registry.ReloadWithBrace | __init__.py:58-62 | the same with the stale '}' that the later write leaves behind the text |
| Registry.ViewsOfBraced | __init__.py:58-62 | the lines of the rendered registry with a stale '}' after the last parse to the items of the registry, in order |
| Registry.ReloadEmpty | __init__.py:58-62 | an empty registry renders to a text that reads back as empty |
| Registry.SplitRendered | __init__.py:117-119 | the paragraphs of the rendered text are the rendered lines |
| Registry.SplitRenderedBrace | __init__.py:117-119 | the paragraphs of the rendered text with a stale '}' after it are the rendered lines, the last one ending in that '}' |
| Registry.LoadWellFormed | __init__.py:57-62 | whatever the document holds, the registry the reload builds has keys without newline or leading whitespace and well-formed values |
| Registry.ParseLineOf | __init__.py:59-62 | the line written for a well-formed item parses back to that item, with or without a trailing '}' |
| Registry.LoadStep | __init__.py:58-62 | one iteration of the reload loop: a line without '=' is skipped, a failed `json.loads` stops the loop, any other line assigns the text before the first '=' |
| Registry.LoadFirst | __init__.py:58-62 | the reload of a list of lines in terms of its first line |
| Registry.ApplyPairs | __init__.py:58-62 | reloading the lines of distinct keys appends them in order |
| Engine.Payload | __init__.py:142-147 | the bytes store encodes: a stream's contents, or `str(obj)` in UTF-8; `Lifecycle.StoreThenRead` states that read gives them back |
| Engine.FindNamed | __init__.py:50-57 | the first listed file named `._registry`; stated by `Engine.NamedIndex`, `Lifecycle.FindNamedAppend` and `Lifecycle.FindNamedUnlist` |
| Engine.FirstParagraph | __init__.py:205-206 | what read takes of a chunk document, its stripped first paragraph; stated by `Lifecycle.EncodedPlain` and `Lifecycle.PartPlain` |
| Engine.WriteReg | __init__.py:102-131 | `_write_reg`, failing on a missing document or an invalid range; stated by `Properties.WriteRegLength`, `Properties.WriteRegWhole` and `Properties.WriteRegLeftover` |
| Engine.Check | __init__.py:48-85 | `_check`; stated by `Properties.CheckEmptyFolder`, `Properties.CheckNoRegistry`, `Properties.CheckEffect`, `Properties.CheckSettled`, `Properties.CheckIdempotent` and `Lifecycle.CheckAfterWrite` |
| Engine.StoreParts | __init__.py:162-187 | the part loop of store; stated by `Lifecycle.StorePartsStep`, `Lifecycle.StorePartsShape`, `Lifecycle.StorePartsFresh` and `Lifecycle.StorePartsDocs` |
| Engine.Save | __init__.py:142-194 | store once the key is accepted; stated by `Lifecycle.StoreUnfold`, `Lifecycle.StoreRegistry`, `Lifecycle.StoreChunks` and `Lifecycle.StoreWritten` |
| Engine.Store | __init__.py:133-194 | `store`; stated by `Lifecycle.StoreRefuses`, `Lifecycle.StorePasses`, `Lifecycle.StoreEffectPass` and `Lifecycle.StoreThenRead` |
| Engine.Gather | __init__.py:203-207 | the read loop over the chunk documents; stated by `Lifecycle.GatherParts` and `Lifecycle.GatherPresent` |
| Engine.Decoded | __init__.py:211-217 | the decoding at the end of read: bytes, `eval` of the text, or the text where `eval` raises; stated by `Lifecycle.StoreThenRead` |
| Engine.Read | __init__.py:196-219 | `read`; stated by `Lifecycle.ReadRefuses`, `Lifecycle.ReadCorrupted`, `Lifecycle.StoreThenRead` and `Lifecycle.DeleteThenRead` |
| Engine.DeleteFiles | __init__.py:228-233 | the deletion loop; stated by `Lifecycle.DeleteFilesStep`, `Lifecycle.DeleteFilesPass` and `Lifecycle.DeleteFilesEffect` |
| Engine.Delete | __init__.py:221-237 | `delete`; stated by `Lifecycle.DeleteRefuses`, `Lifecycle.DeletePasses`, `Lifecycle.DeleteRegistry`, `Lifecycle.DeleteDocs` and `Lifecycle.DeleteWritten` |
| Engine.DeleteChecked | __init__.py:223-237 | `delete` after its `_check`; stated by `Lifecycle.DeleteCheckedPasses` and `Lifecycle.DeleteUnfold` |
| Engine.FreshId | __init__.py:173 | a new document gets a well-formed id that no document has, listed in the folder or not, and that the registry does not name, even for a document since deleted: `files().create` never issues an id twice |
| Engine.NamedGrow | __init__.py:186 | appending an id to the reserved list keeps every id the registry named |
| Engine.ChunkName | __init__.py:167 | a chunk is named `stor_` + key + `_`, so the key can be read back from its name, and no chunk is ever named `._registry` |
| Engine.Unlist | __init__.py:229 | deleting a document removes exactly the listing entries with its id |
| Engine.NamedIndex | __init__.py:52-53 | the position of the first listed file with the name, or the length of the listing if there is none |
| Engine.IndexOf | __init__.py:231 | the first position of an id in a list, or the list's length |
| Engine.RemoveFirst | __init__.py:230-233 | `list.remove` takes out the first occurrence and leaves a list without the id unchanged |
| Engine.RemoveFirstCounts | __init__.py:230-233 | `list.remove` takes one copy of the id out of the list, as a multiset |
| Engine.DeleteFilesKeeps | __init__.py:228-233 | the deletion loop changes no registry key but the reserved one |
| Properties.WriteRegLength | __init__.py:102-131 | after a successful `_write_reg` the document starts with the rendered registry, followed by what the deletion left of the old text; `reg_len` is the rendered text's length and no other document changes |
| Properties.WriteRegWhole | __init__.py:102-131 | right after `_get_lines` (`reg_len` one more than the text), the write replaces the whole text |
| Properties.WriteRegLeftover | __init__.py:102-131 | with `reg_len` equal to the text's length, the write keeps the old last character after the new text |
| Properties.CheckEmptyFolder | __init__.py:70-85 | a new folder gets a single document `._registry` whose text is the bootstrap registry with the empty reserved list |
| Properties.CheckNoRegistry | __init__.py:50-66 | a non-empty folder without a file named `._registry` is refused with the registry error and nothing changes |
| Properties.BootstrapWellFormed | __init__.py:80-84 | the bootstrap registry is well formed |
| Properties.CheckEffect | __init__.py:48-85 | after a successful `_check` the registry document holds exactly the rendered registry and `reg_len` its length. The registry is what the first `._registry` document held, no other document changes, and the listing is unchanged unless the folder was empty, in which case the registry is a new document |
| Properties.CheckSettled | __init__.py:48-64 | checking a state that already holds exactly its rendered, non-empty registry changes nothing |
| Properties.CheckIdempotent | __init__.py:48-85 | once `_check` has produced a non-empty registry, a second `_check` changes nothing |
| Lifecycle.ListedAppend | __init__.py:173 | an id is listed after files are added exactly when it was listed before or is among them |
| Lifecycle.FindNamedAppend | __init__.py:52-53 | adding chunk files after the registry does not change which file `_check` finds |
| Lifecycle.FindNamedUnlist | __init__.py:52-53 | deleting a document other than the registry does not change which file `_check` finds |
| Lifecycle.FindNamedUnlistEach | __init__.py:52-53 | the same for all the chunk documents of a deleted key |
| Lifecycle.ReservedKeyShape | __init__.py:137 | the reserved key survives the reload and is refused as a user key |
| Lifecycle.CheckAfterWrite | __init__.py:48-64 | a `_check` of the document a store or delete leaves reads the registry back and rewrites the text clean |
| Lifecycle.StorePartsStep | __init__.py:164-187 | one iteration of the part loop: a new document with the part, its id appended to `ids` and to the reserved list |
| Lifecycle.StorePartsShape | __init__.py:162-187 | the part loop succeeds and makes one document per part. `reg_id`/`reg_len` are kept, the reserved list gains exactly the new ids, and the listing gains the chunk files |
| Lifecycle.StorePartsFresh | __init__.py:173-186 | the new ids are well formed, distinct, and neither listed, nor the id of any document, nor named by the registry before |
| Lifecycle.StorePartsDocs | __init__.py:173-184 | each new document holds its part; every old document is unchanged and no other document appears |
| Lifecycle.StorePartsHold | __init__.py:173-184 | after the part loop the document of each new id holds its part |
| Lifecycle.StorePartsKeep | __init__.py:173-184 | the part loop keeps every old document and adds no document other than the new ids |
| Lifecycle.StoreRefuses | __init__.py:134-140 | a key starting with `._`, one containing '=', or one already present is refused after `_check`, with nothing else changed; a failed `_check` gives its error, and otherwise the first failing test of lines 135-140 gives its own error |
| Lifecycle.StorePasses | __init__.py:133-194 | store succeeds exactly when `_check` succeeds, the key is new, does not start with `._` and has no '=', and the registry holds the reserved list |
| Lifecycle.StoreEffectPass | __init__.py:133-194 | those conditions suffice for a successful store |
| Lifecycle.StoreUnfold | __init__.py:133-194 | a successful store is `_check`, the part loop, the entry and one `_write_reg`, and the part loop makes one document per chunk |
| Lifecycle.StoreRegistry | __init__.py:187-193 | after a store the key maps to the encoded length, the new chunk ids and the Python flag. The reserved list is the old one plus those ids, and every other key is unchanged |
| Lifecycle.StoreChunks | __init__.py:149-187 | after a store the chunk documents are new (neither listed, nor existing, nor named by the reloaded registry before), distinct, and hold the chunks in order. The listing gains exactly them, and no document other than the registry changes |
| Lifecycle.StoreChunksFresh | __init__.py:173-186 | the chunk ids of a successful store are distinct, and none was listed, a document or named by the reloaded registry before |
| Lifecycle.StoreChunksDocs | __init__.py:162-187 | after a successful store each chunk document holds its part, the listing gains exactly the chunks, and no document other than the registry changes |
| Lifecycle.StoreWritten | __init__.py:194 | for a key without newline or leading whitespace, a store leaves the registry document holding the rendered new registry plus the stale '}' |
| Lifecycle.ConcatHas | __init__.py:207 | a character of a part is a character of the concatenation |
| Lifecycle.EncodedPlain | __init__.py:206 | a Base 64 text is its own stripped first paragraph |
| Lifecycle.PartPlain | __init__.py:206 | reading a chunk document gives back the chunk written into it |
| Lifecycle.GatherParts | __init__.py:203-207 | reading documents that hold plain parts concatenates the parts |
| Lifecycle.GatherPresent | __init__.py:203-207 | the read loop succeeds exactly when every chunk document exists, and then gives the concatenation of their first paragraphs |
| Lifecycle.StoreThenRead | __init__.py:133-217 | a read after a successful store of a key without newline or leading whitespace gives exactly the stored value: the bytes of a stream; for an object, `eval` of its text, or the text itself where `eval` fails |
| Lifecycle.ReadRefuses | __init__.py:197-219 | read writes nothing beyond its `_check`; a failed `_check` gives its error, and otherwise a key starting with `._`, one containing '=' and an absent key each give their own error, in the order of lines 198-202 |
| Lifecycle.ReadCorrupted | __init__.py:208-217 | when the chunks do not add up to the recorded length, read fails as corrupted exactly when errors are not ignored, and otherwise decodes what it read |
| Lifecycle.RemoveEachCounts | __init__.py:228-233 | the reserved list after the deletion loop is the old one minus the deleted ids, as a multiset |
| Lifecycle.UnlistEachIds | __init__.py:228-229 | the listing after the deletion loop holds exactly the files whose ids were not deleted |
| Lifecycle.DeleteFilesStep | __init__.py:228-233 | one iteration of the deletion loop: the document goes from the backend and the listing, and its id from the reserved list |
| Lifecycle.PresentDistinctCons | __init__.py:228-229 | a list of ids is present and distinct exactly when its head is present and its tail is present and distinct after the head is gone |
| Lifecycle.DeleteFilesPass | __init__.py:228-233 | the deletion loop succeeds exactly when the documents exist and no id repeats (a repeated id makes the second delete fail) |
| Lifecycle.DeleteFilesEffect | __init__.py:228-233 | after the deletion loop the documents are gone, every other document is unchanged, the listing has lost exactly their files, and the reserved list has lost one copy of each id |
| Lifecycle.DeleteFilesFields | __init__.py:228-233 | after the deletion loop the listing has lost exactly the files of the ids, the reserved list has lost each id once, and `reg_id`/`reg_len` are kept |
| Lifecycle.DeleteFilesDocs | __init__.py:228-233 | after the deletion loop exactly the documents of the ids are gone and every other document keeps its text |
| Lifecycle.DeleteFilesUnchanged | __init__.py:228-233 | without the reserved list, the loop only succeeds on an entry without files, and then changes nothing |
| Lifecycle.DeleteUnfold | __init__.py:221-235 | a successful delete is `_check`, the deletion loop, the `del` and one `_write_reg` |
| Lifecycle.DeletePasses | __init__.py:221-237 | delete succeeds exactly when all of these hold: `_check` succeeds; the key passes the two checks; it maps to an entry; the reserved list exists if the entry has files; the files exist, are distinct, and do not include the registry document |
| Lifecycle.DeleteCheckedPasses | __init__.py:222-235 | once `_check` has passed, delete succeeds exactly when the key passes the two checks, maps to an entry whose files are distinct existing documents other than the registry's, and the reserved list exists if there are files |
| Lifecycle.DeleteWrite | __init__.py:235 | the final `_write_reg` of delete succeeds exactly when the registry document is still there, and then leaves the new text plus the stale '}' |
| Lifecycle.DeleteRegistry | __init__.py:227-235 | after a delete the key is gone, the reserved list has lost the entry's files, and every other key is unchanged |
| Lifecycle.DeleteDocs | __init__.py:227-235 | after a delete exactly the entry's chunk documents are gone from the backend and the listing; every other document except the registry is unchanged |
| Lifecycle.DeleteWritten | __init__.py:235 | a delete leaves the registry document holding the rendered new registry plus the stale '}' |
| Lifecycle.DeleteThenRead | __init__.py:221-237 | a read after a successful delete gives the key error |
| Lifecycle.DeleteRefuses | __init__.py:222-237 | a key starting with `._`, one containing '=', or an absent key is refused after `_check`, with nothing else changed; a failed `_check` gives its error, and otherwise each refusal gives its own error, in the order of lines 223-227 |
| Lifecycle.UnsafeKeyUnreadable | __init__.py:58-62 | a key containing a newline or starting with whitespace is never found by read |
| Lifecycle.UnsafeKeyLost | __init__.py:133-140 | in a new folder, store of the key "a\n" succeeds, and the read that follows fails |
| Lifecycle.StoreChecked | __init__.py:133-194 | store with the missing key check added; stated by `Lifecycle.StoreCheckedThenRead` and `Lifecycle.StoreCheckedAgrees` |
| Lifecycle.StoreCheckedThenRead | __init__.py:133-217 | with the key check added, every successful store reads back as the stored value |
| Lifecycle.StoreCheckedAgrees | __init__.py:133-194 | the corrected store differs from the code's store only by refusing keys with a newline or leading whitespace, after `_check` and with nothing else changed |
| Giss.AppendToAppend | __init__.py:207 | appending two prefixes in turn appends their concatenation |
| Giss.GatherStep | __init__.py:204-207 | one iteration of the read loop in terms of the specification function |
| Giss.Giss.constructor | __init__.py:36-38 | a new object holds the given folder with an empty registry, no registry id and length 0 |
| Giss.Giss.Open | __init__.py:36-39 | `GISS(folder)`: construction followed by `_check`, with its outcome |
| Giss.Giss.WriteReg | __init__.py:102-131 | `_write_reg` on the fields: the new state and outcome are those of `Engine.WriteReg` |
| Giss.Giss.IndexNamed | __init__.py:52-53 | the search loop stops at the first file named `._registry` |
| Giss.Giss.Trim | __init__.py:59-60 | the `}}` trim of one line |
| Giss.Giss.ParseLines | __init__.py:58-62 | the reload loop builds exactly the registry of `Registry.Load`, or stops where `json.loads` fails |
| Giss.Giss.Check | __init__.py:48-85 | `_check` on the fields, equal to `Engine.Check` |
| Giss.Giss.StoreChunks | __init__.py:162-187 | the part loop on the fields, equal to `Engine.StoreParts` |
| Giss.Giss.Save | __init__.py:142-194 | encoding, chunking, the part loop, the entry and the write, equal to `Engine.Save` |
| Giss.Giss.Store | __init__.py:133-194 | `store` on the fields, equal to `Engine.Store` |
| Giss.Giss.StoreChecked | __init__.py:133-194 | the corrected store on the fields, equal to `Lifecycle.StoreChecked` |
| Giss.Giss.Concatenate | __init__.py:203-207 | the read loop gives exactly `Engine.Gather` |
| Giss.Giss.Read | __init__.py:196-219 | `read` on the fields, equal to `Engine.Read` |
| Giss.Giss.Delete | __init__.py:221-237 | `delete` on the fields, equal to `Engine.Delete` |
| Giss.Giss.DeleteChunks | __init__.py:228-233 | the deletion loop on the fields, equal to `Engine.DeleteFiles` |

## Left out

- Authentication and the service objects (lines 14-34): credentials, the token file and the
  browser flow are I/O. `__init__` takes the folder's documents and listing instead.
- `_list` (lines 87-100): pagination and one request per file are not modelled. The listing is
  a field holding the folder's documents in listing order. The code never passes the page token
  to the request, so every iteration would list the first page again.
- Document names of chunks (line 167): the random SHA-256 suffix is left out, and a chunk is
  listed under `stor_` + key + `_`. Names other than `._registry` are never read.
- Document ids: Drive chooses them and never issues one twice. `Engine.FreshId` picks one that
  no document has, listed in the folder or not, and that no value of the registry names. A
  deleted document's id that nothing names any more can be picked again; nothing in the model
  can then tell it from a fresh one. The form of Drive's ids is not modelled.
- `eval` (line 215) is a parameter of read, a function returning `None` where Python's `eval`
  would raise. The bare `except` then returns the decoded text, as in the code.
- `base64.b64decode` (line 212) without `validate` discards characters outside the alphabet,
  ignores non-zero pad bits (`YR==` decodes to `a`) and accepts data after the padding. The
  model rejects all three. Both reject missing padding, and the two agree on everything store
  writes.
- `json.loads` (line 62) accepts any JSON text; the model parses only the two shapes the
  registry holds, which is what `json.dumps` writes there.
- Docs documents are text. Paragraph structure is reduced to newline-separated text. Only the
  first text run of each paragraph is read by the code, and the model takes the whole paragraph,
  which is the same for text written by `insertText` alone.
- The Docs API's rejection of an `insertText` with empty text is not modelled: inserting an
  empty chunk leaves the document empty. A deletion range must be non-empty and lie inside the
  document, or `_write_reg` fails with the backend error.
- Every Drive and Docs request is a total operation on the state, failing only on a missing
  document. Network errors, quotas, concurrency between clients, and the lack of atomicity
  across requests are not modelled. A failing request stops the operation where the code would
  raise.
- `log` in store (lines 165-166), the prints, and the `__main__` block (lines 239-260) are
  output only.
- `str(obj)` (line 146) is the object's text, given as the `text` of the input; `obj.read()`
  (line 143) is the stream's bytes. A `str(obj)` holding a lone surrogate makes the
  `encode('utf-8')` of line 146 raise `UnicodeEncodeError`. That case is not modelled: Dafny's
  `char` is a Unicode scalar value and cannot be a surrogate.
- Index units: the Docs API counts indexes in UTF-16 code units. `_get_lines` (line 44) and
  `_write_reg` (line 131) count code points with `len`, and line 109 passes that count as an
  index. The model equates the two. Only a key can put a character outside the Basic
  Multilingual Plane into the registry text, since `json.dumps` escapes non-ASCII characters.
  For such a key the real delete of line 109 removes fewer characters than the model's and
  leaves more of the old text behind. After one `_check` a stray `}` follows the text. A store
  then leaves three characters of the old text, such as `e}}`, after the new text, and the next
  `_check` fails in `json.loads` on the last line. So for such keys
  `Properties.WriteRegWhole`, `Properties.CheckSettled`, `Lifecycle.CheckAfterWrite`,
  `Lifecycle.StoreWritten`, `Lifecycle.StoreThenRead` and the delete lemmas describe the
  model, not the real document.
- Lifecycle.StoreThenRead: stated for keys without a newline or leading whitespace. Such a key
  does not read back (see Findings).
- Lifecycle.StoreWritten: stated for the same keys. Other keys rewrite a registry that the next
  `_check` reads differently.
- Lifecycle.DeleteThenRead: stated for registries holding the reserved list. Without it, delete
  succeeds only on a key with no files, and the read after it still gives the key error.
- Lifecycle.DeleteWritten: stated for registries holding the reserved list, the only kind
  `_check` produces from a document written by the code.
- Chunk size: the test `len(jnr) > 900000` makes parts of 900001 characters and can leave an
  empty last part. The model follows the code rather than a limit of 900000 per part.

## Findings

| source | as written | input that shows it | evidently intended | confidence | as-written member | corrected member |
|---|---|---|---|---|---|---|
| __init__.py:137-140 | store refuses only keys starting with `._` or containing '='; a key with a newline or a leading whitespace character is accepted and written into the registry line, where the reload of lines 58-62 splits or strips it | `store("a\n", obj)` in a new folder succeeds; `read("a\n")` then raises `KeyError`, and the registry holds the key "" instead | every key that store accepts can be read back | not executed | Lifecycle.UnsafeKeyLost | Lifecycle.StoreCheckedThenRead |
