/** The sentence-bank page: adding, editing and deleting sentences by id,
    and the accept/reject rules of importing a JSON file. */
module SentenceBank {
  import opened Common
  import opened JsText
  import opened SentenceUtils

  datatype Bank = Bank(sentences: seq<Sentence>, draft: string)

  /** `handleAddSentence`, with `newId` the value of `makeId()`: a draft that
      trims to empty changes nothing; otherwise the trimmed draft is appended
      under the new id and the draft is cleared. */
  function AddSentence(b: Bank, newId: string): (r: Bank)
    ensures |Trim(b.draft)| == 0 ==> r == b
    ensures |Trim(b.draft)| > 0 ==>
              && |r.sentences| == |b.sentences| + 1
              && r.sentences[..|b.sentences|] == b.sentences
              && r.sentences[|b.sentences|] == Sentence(newId, Trim(b.draft), None)
              && r.draft == ""
  {
    var cleaned := Trim(b.draft);
    if |cleaned| == 0 then b
    else Bank(b.sentences + [Sentence(newId, cleaned, None)], "")
  }

  /** A fresh id keeps the ids distinct. */
  lemma AddKeepsIdsDistinct(b: Bank, newId: string)
    requires DistinctIds(b.sentences)
    requires forall k :: 0 <= k < |b.sentences| ==> b.sentences[k].id != newId
    ensures DistinctIds(AddSentence(b, newId).sentences)
  {
  }

  /** `handleUpdateSentence`: every entry with the id gets the new text
      (untrimmed); ids, order, links and all other entries are unchanged. */
  function UpdateSentence(list: seq<Sentence>, id: string, text: string): (r: seq<Sentence>)
    ensures |r| == |list|
    ensures forall k :: 0 <= k < |r| ==>
              && r[k].id == list[k].id
              && r[k].audioUrl == list[k].audioUrl
              && (list[k].id != id ==> r[k] == list[k])
              && (list[k].id == id ==> r[k].text == text)
  {
    if |list| == 0 then []
    else
      var s := list[0];
      [if s.id == id then s.(text := text) else s] + UpdateSentence(list[1..], id, text)
  }

  /** Restoring the old text undoes an edit of a sentence whose id is
      unique, and editing keeps the ids distinct. */
  lemma UpdateUndo(list: seq<Sentence>, k: nat, text: string)
    requires DistinctIds(list) && k < |list|
    ensures UpdateSentence(UpdateSentence(list, list[k].id, text), list[k].id, list[k].text) == list
    ensures DistinctIds(UpdateSentence(list, list[k].id, text))
  {
    var id := list[k].id;
    var once := UpdateSentence(list, id, text);
    var twice := UpdateSentence(once, id, list[k].text);
    assert forall i :: 0 <= i < |list| ==> twice[i] == list[i];
  }

  /** `handleDeleteSentence`: the entries without the id, in their order. */
  function DeleteSentence(list: seq<Sentence>, id: string): (r: seq<Sentence>)
    ensures |r| <= |list|
    ensures forall s :: s in r <==> s in list && s.id != id
    ensures IsSubsequence(r, list)
  {
    if |list| == 0 then []
    else
      var rest := DeleteSentence(list[1..], id);
      if list[0].id == id then
        SubsequenceSkip(rest, list[0], list[1..]);
        rest
      else
        assert list == [list[0]] + list[1..];
        assert ([list[0]] + rest)[1..] == rest;
        [list[0]] + rest
  }

  /** Deleting an id that no entry has is the identity. */
  lemma {:induction false} DeleteAbsent(list: seq<Sentence>, id: string)
    requires forall k :: 0 <= k < |list| ==> list[k].id != id
    ensures DeleteSentence(list, id) == list
    decreases |list|
  {
    if |list| > 0 {
      DeleteAbsent(list[1..], id);
      assert [list[0]] + list[1..] == list;
    }
  }

  /** Deleting a sentence just added under a fresh id gives the list back. */
  lemma DeleteUndoesAdd(b: Bank, newId: string)
    requires |Trim(b.draft)| > 0
    requires forall k :: 0 <= k < |b.sentences| ==> b.sentences[k].id != newId
    ensures DeleteSentence(AddSentence(b, newId).sentences, newId) == b.sentences
  {
    var added := Sentence(newId, Trim(b.draft), None);
    DeleteAppend(b.sentences, [added], newId);
    DeleteAbsent(b.sentences, newId);
    assert DeleteSentence([added], newId) == [];
  }

  lemma {:induction false} DeleteAppend(a: seq<Sentence>, c: seq<Sentence>, id: string)
    ensures DeleteSentence(a + c, id) == DeleteSentence(a, id) + DeleteSentence(c, id)
    decreases |a|
  {
    if |a| == 0 {
      assert a + c == c;
    } else {
      assert (a + c)[0] == a[0] && (a + c)[1..] == a[1..] + c;
      DeleteAppend(a[1..], c, id);
    }
  }

  // ---------------------------------------------------------------------
  // Import
  // ---------------------------------------------------------------------

  /** What reading the chosen file yields: no file, text that `JSON.parse`
      rejects (or a read that fails), or a parsed value. */
  datatype FileRead = NoFile | Unparseable | Parsed(value: Json)

  datatype ImportStatus = ImportSuccess(message: string) | ImportFailure(message: string)

  /** The page state an import touches: the list, the stored index and the
      status banner. */
  datatype ImportState = ImportState(sentences: seq<Sentence>, storedIndex: Option<string>,
                                     status: Option<ImportStatus>)

  const ImportFailedMessage: string := "Import failed. Please choose a JSON file exported from this app."

  predicate EndsWith(m: string, suffix: string) {
    |suffix| <= |m| && m[|m| - |suffix|..] == suffix
  }

  /** `Imported ${n} sentence${n === 1 ? "" : "s"} successfully.` */
  function ImportedMessage(n: nat): string {
    "Imported " + NatToString(n) + " sentence" + (if n == 1 then "" else "s") + " successfully."
  }

  /** One imported sentence is reported in the singular. */
  lemma ImportedMessageSingular()
    ensures ImportedMessage(1) == "Imported " + "1" + " sentence successfully."
  {
    SingularShape(1);
    assert NatToString(1) == "1";
  }

  /** Any other count is reported in the plural, and one is not. */
  lemma ImportedMessagePlural(n: nat)
    ensures n != 1 <==> EndsWith(ImportedMessage(n), "sentences successfully.")
  {
    if n == 1 {
      SingularShape(n);
      EndsWithAppend("Imported " + NatToString(n), " sentence successfully.", "sentences successfully.");
      assert " sentence successfully."[0] != "sentences successfully."[0];
    } else {
      PluralShape(n);
      EndsWithAppend("Imported " + NatToString(n) + " ", "sentences successfully.", "sentences successfully.");
    }
  }

  lemma SingularShape(n: nat)
    requires n == 1
    ensures ImportedMessage(n) == ("Imported " + NatToString(n)) + " sentence successfully."
  {
    assert " sentence" + "" + " successfully." == " sentence successfully.";
  }

  lemma PluralShape(n: nat)
    requires n != 1
    ensures ImportedMessage(n) == ("Imported " + NatToString(n) + " ") + "sentences successfully."
  {
    assert " sentence" + "s" + " successfully." == " " + "sentences successfully.";
    Regroup("Imported " + NatToString(n), " sentence", "s", " successfully.", " ", "sentences successfully.");
  }

  lemma Regroup(a: string, b: string, c: string, d: string, e: string, f: string)
    requires b + c + d == e + f
    ensures a + b + c + d == (a + e) + f
  {
    assert a + b + c + d == a + (b + c + d);
  }

  lemma EndsWithAppend(p: string, t: string, suffix: string)
    requires |suffix| <= |t|
    ensures EndsWith(p + t, suffix) <==> EndsWith(t, suffix)
  {
    assert (p + t)[|p + t| - |suffix|..] == t[|t| - |suffix|..];
  }

  /** `handleImportFile`. */
  function ImportFile(st: ImportState, file: FileRead, makeId: IdOracle): (r: ImportState)
    requires IsFreshOracle(makeId)
    ensures file.NoFile? ==> r == st
    ensures file.Unparseable? ==> r == st.(status := Some(ImportFailure(ImportFailedMessage)))
    ensures file.Parsed? && !file.value.JArray? ==> r == st.(status := Some(ImportFailure(ImportFailedMessage)))
    ensures file.Parsed? && file.value.JArray? ==>
              var parsed := SanitizeSentencesPayload(file.value, makeId).value;
              if |file.value.items| > 0 && |parsed| == 0 then
                r == st.(status := Some(ImportFailure(ImportFailedMessage)))
              else
                r == ImportState(parsed, Some("0"), Some(ImportSuccess(ImportedMessage(|parsed|))))
  {
    match file
      case NoFile => st
      case Unparseable => st.(status := Some(ImportFailure(ImportFailedMessage)))
      case Parsed(raw) =>
        match SanitizeSentencesPayload(raw, makeId)
          case None => st.(status := Some(ImportFailure(ImportFailedMessage)))
          case Some(parsed) =>
            if raw.JArray? && |raw.items| > 0 && |parsed| == 0 then
              st.(status := Some(ImportFailure(ImportFailedMessage)))
            else
              ImportState(parsed, Some("0"), Some(ImportSuccess(ImportedMessage(|parsed|))))
  }

  /** A successful import leaves a list with distinct ids, and an empty array
      is accepted as an empty list. */
  lemma ImportAccepts(st: ImportState, raw: Json, makeId: IdOracle)
    requires IsFreshOracle(makeId)
    ensures var r := ImportFile(st, Parsed(raw), makeId);
            r.status.Some? && r.status.value.ImportSuccess? ==> DistinctIds(r.sentences)
    ensures raw == JArray([]) ==>
              ImportFile(st, Parsed(raw), makeId) == ImportState([], Some("0"), Some(ImportSuccess(ImportedMessage(0))))
  {
    if raw == JArray([]) {
      assert SanitizeEntries([], {}, makeId) == [];
    }
  }

  /** A file exported from the bank imports back to the same list (links
      dropped) when the ids are distinct and trimmed. */
  lemma ExportedFileImports(st: ImportState, list: seq<Sentence>, makeId: IdOracle)
    requires IsFreshOracle(makeId)
    requires DistinctIds(list)
    requires StableIds(list)
    ensures ImportFile(st, Parsed(ExportPayload(list)), makeId).sentences == WithoutAudio(list)
  {
    ExportImportRoundTrip(list, makeId);
    ImportWholeArray(st, ExportPayload(list), makeId, WithoutAudio(list));
  }

  /** An array none of whose entries is dropped imports as its sanitised
      list. */
  lemma ImportWholeArray(st: ImportState, raw: Json, makeId: IdOracle, parsed: seq<Sentence>)
    requires IsFreshOracle(makeId)
    requires raw.JArray? && SanitizeSentencesPayload(raw, makeId) == Some(parsed)
    requires |parsed| == |raw.items|
    ensures ImportFile(st, Parsed(raw), makeId).sentences == parsed
  {
  }
}
