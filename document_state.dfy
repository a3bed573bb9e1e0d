/** The document state of the editor: the text buffer, the file it belongs
    to (`current_file`) and whether it changed since it was last opened or
    saved (`is_modified`), driven by new, open, save and save-as. The
    answers of the dialogs and whether writing the file succeeds are inputs:
    an empty chosen path is a cancelled file dialog, `writeOk` false is a
    write that raised. */
module DocumentState {
  import opened Outcomes
  import opened PyText
  import OcrCleanup

  /** The three fields, as a value. The buffer is the widget's text without
      the newline Tk adds behind it (which `strip()` removes anyway). */
  datatype Doc = Doc(buffer: string, currentFile: Option<string>, isModified: bool)

  /** `if self.current_file`: a file is set and its path is not empty. */
  predicate HasFile(d: Doc) {
    d.currentFile.Some? && d.currentFile.value != []
  }

  /** `save_document`: without a file it is `save_as_document`; a buffer
      that is blank after stripping is refused; otherwise the write either
      raises (nothing changes) or succeeds and clears `is_modified`. */
  function Save(d: Doc, chosenPath: string, writeOk: bool): (Doc, bool)
    decreases if HasFile(d) then 0 else 2
  {
    if !HasFile(d) then SaveAs(d, chosenPath, writeOk)
    else if Strip(d.buffer) == [] then (d, false)
    else if !writeOk then (d, false)
    else (d.(isModified := false), true)
  }

  /** `save_as_document`: a cancelled dialog changes nothing; otherwise the
      chosen path becomes the file, the document is saved, and when that
      fails the old file is put back. */
  function SaveAs(d: Doc, chosenPath: string, writeOk: bool): (Doc, bool)
    decreases 1
  {
    if chosenPath == [] then (d, false)
    else
      var r := Save(d.(currentFile := Some(chosenPath)), chosenPath, writeOk);
      if !r.1 then (r.0.(currentFile := d.currentFile), false) else (r.0, true)
  }

  /** `new_document`, after whatever save it asks for: declining to save a
      modified document keeps everything; otherwise the document is empty,
      has no file and is unmodified. */
  function NewDoc(d: Doc, keepChanges: bool): Doc {
    if d.isModified && !keepChanges then d else Doc([], None, false)
  }

  /** `load_document`: `contents` is the text read from the file, or `None`
      when reading raised. */
  function Load(d: Doc, path: string, contents: Option<string>): Doc {
    if contents.None? then d else Doc(contents.value, Some(path), false)
  }

  /** A key released in the text area: the buffer is whatever the widget
      now holds, and the document counts as modified. */
  function KeyRelease(d: Doc, newBuffer: string): Doc {
    Doc(newBuffer, d.currentFile, true)
  }

  /** The editor's document fields. */
  class Editor {
    var buffer: string
    var currentFile: Option<string>
    var isModified: bool

    function State(): Doc
      reads this
    {
      Doc(buffer, currentFile, isModified)
    }

    /** A fresh editor: empty, without a file, unmodified. */
    constructor()
      ensures State() == Doc([], None, false)
    {
      buffer := [];
      currentFile := None;
      isModified := false;
    }

    method SaveDocument(chosenPath: string, writeOk: bool) returns (saved: bool)
      modifies this
      decreases if HasFile(State()) then 0 else 2
      ensures (State(), saved) == Save(old(State()), chosenPath, writeOk)
    {
      if !(currentFile.Some? && currentFile.value != []) {
        saved := SaveAsDocument(chosenPath, writeOk);
        return;
      }
      var text := Strip(buffer);
      if text == [] {
        return false;
      }
      if !writeOk {
        return false;
      }
      isModified := false;
      return true;
    }

    method SaveAsDocument(chosenPath: string, writeOk: bool) returns (saved: bool)
      modifies this
      decreases 1
      ensures (State(), saved) == SaveAs(old(State()), chosenPath, writeOk)
    {
      if chosenPath != [] {
        var oldFile := currentFile;
        currentFile := Some(chosenPath);
        var ok := SaveDocument(chosenPath, writeOk);
        if !ok {
          currentFile := oldFile;
          return false;
        }
        return true;
      }
      return false;
    }

    /** `keepChanges` is the answer to "save changes?"; the save it triggers
        gets the save-as dialog answer and the write outcome. */
    method NewDocument(keepChanges: bool, chosenPath: string, writeOk: bool)
      modifies this
      ensures State() == NewDoc(old(State()), keepChanges)
    {
      if isModified {
        if !keepChanges {
          return;
        }
        var _ := SaveDocument(chosenPath, writeOk);
      }
      buffer := [];
      currentFile := None;
      isModified := false;
    }

    method LoadDocument(path: string, contents: Option<string>)
      modifies this
      ensures State() == Load(old(State()), path, contents)
    {
      if contents.Some? {
        buffer := contents.value;
        currentFile := Some(path);
        isModified := false;
      }
    }

    method KeyReleased(newBuffer: string)
      modifies this
      ensures State() == KeyRelease(old(State()), newBuffer)
    {
      buffer := newBuffer;
      isModified := true;
    }
  }

  // ---------------------------------------------------------------------
  // What the transitions guarantee

  /** Saving never touches the buffer; it succeeds exactly when there is a
      file (or one was chosen), the buffer is not blank and the write
      works; success clears `is_modified` and leaves the file set to the
      old file or the chosen one; any failure leaves everything as it was. */
  lemma SaveOutcome(d: Doc, chosenPath: string, writeOk: bool)
    ensures var r := Save(d, chosenPath, writeOk);
      && r.0.buffer == d.buffer
      && (r.1 <==> (HasFile(d) || chosenPath != []) && Strip(d.buffer) != [] && writeOk)
      && (r.1 ==> !r.0.isModified && r.0.currentFile == (if HasFile(d) then d.currentFile else Some(chosenPath)))
      && (!r.1 ==> r.0 == d)
  {
    if !HasFile(d) {
      SaveAsOutcome(d, chosenPath, writeOk);
    }
  }

  /** Save-as: a cancelled dialog changes nothing; otherwise it succeeds
      exactly when the buffer is not blank and the write works, and then the
      chosen path is the file; a failed save puts the old file back. */
  lemma SaveAsOutcome(d: Doc, chosenPath: string, writeOk: bool)
    ensures var r := SaveAs(d, chosenPath, writeOk);
      && (r.1 <==> chosenPath != [] && Strip(d.buffer) != [] && writeOk)
      && (r.1 ==> r.0 == Doc(d.buffer, Some(chosenPath), false))
      && (!r.1 ==> r.0 == d)
  {
    if chosenPath != [] {
      var e := d.(currentFile := Some(chosenPath));
      assert HasFile(e);
      var r := Save(e, chosenPath, writeOk);
      assert r.0.currentFile == e.currentFile;
    }
  }

  /** A document that has just been saved saves again the same way, with
      nothing to change. */
  lemma SaveAgain(d: Doc, chosenPath: string, otherPath: string)
    requires Save(d, chosenPath, true).1
    ensures Save(Save(d, chosenPath, true).0, otherPath, true) == (Save(d, chosenPath, true).0, true)
  {
    SaveOutcome(d, chosenPath, true);
    var e := Save(d, chosenPath, true).0;
    assert HasFile(e);
  }

  /** A new document is blank, so saving it fails whatever the dialog and
      the write do, and nothing changes. */
  lemma SaveNewDocumentFails(d: Doc, keepChanges: bool, chosenPath: string, writeOk: bool)
    requires !d.isModified || keepChanges
    ensures Save(NewDoc(d, keepChanges), chosenPath, writeOk) == (NewDoc(d, keepChanges), false)
  {
    SaveOutcome(NewDoc(d, keepChanges), chosenPath, writeOk);
  }

  /** `new_document` ends in the empty, unnamed, unmodified document unless
      the user declines to save a modified one, in which case nothing
      changes; the result no longer counts as modified either way unless
      it was kept. */
  lemma NewDocOutcome(d: Doc, keepChanges: bool)
    ensures NewDoc(d, keepChanges) == d <==> (d.isModified && !keepChanges) || d == Doc([], None, false)
    ensures NewDoc(d, keepChanges).isModified ==> NewDoc(d, keepChanges) == d
  {
  }

  /** After an edit the document is modified until a save succeeds, and a
      save that succeeds keeps the edited text. */
  lemma EditThenSave(d: Doc, text: string, chosenPath: string, writeOk: bool)
    ensures KeyRelease(d, text).isModified
    ensures var r := Save(KeyRelease(d, text), chosenPath, writeOk);
      r.0.buffer == text && (r.0.isModified <==> !r.1)
  {
    SaveOutcome(KeyRelease(d, text), chosenPath, writeOk);
  }

  /** A file that was read is the current file, unmodified, and saving it
      needs no dialog: it succeeds exactly when its text is not blank and the
      write works. A failed read changes nothing. */
  lemma LoadThenSave(d: Doc, path: string, contents: Option<string>, chosenPath: string, writeOk: bool)
    requires path != []
    ensures contents.None? ==> Load(d, path, contents) == d
    ensures contents.Some? ==>
      var l := Load(d, path, contents);
      && l.currentFile == Some(path) && !l.isModified
      && Save(l, chosenPath, writeOk) == (l, Strip(contents.value) != [] && writeOk)
  {
    if contents.Some? {
      SaveOutcome(Load(d, path, contents), chosenPath, writeOk);
    }
  }

  // ---------------------------------------------------------------------
  // What a `.docx` save writes

  /** The paragraphs written to a `.docx` file: the lines of the stripped
      buffer that are not blank, each stripped. */
  function DocxParagraphs(lines: seq<string>): seq<string> {
    NonEmptyImages(lines, Stripper())
  }

  /** `line.strip()`, as a value. */
  function Stripper(): string -> string {
    line => Strip(line)
  }

  /** `f(line)` for every line whose `f(line)` is not empty, in order. */
  function NonEmptyImages(lines: seq<string>, f: string -> string): seq<string> {
    if lines == [] then []
    else
      var last := lines[|lines| - 1];
      NonEmptyImages(lines[..|lines| - 1], f) + (if f(last) != [] then [f(last)] else [])
  }

  lemma {:induction false} NonEmptyImagesMembers(lines: seq<string>, f: string -> string)
    ensures forall p :: p in NonEmptyImages(lines, f) <==> exists k :: 0 <= k < |lines| && f(lines[k]) != [] && p == f(lines[k])
  {
    if lines != [] {
      var init := lines[..|lines| - 1];
      NonEmptyImagesMembers(init, f);
      assert forall k :: 0 <= k < |init| ==> init[k] == lines[k];
    }
  }

  /** The written paragraphs are exactly the stripped forms of the
      non-blank lines, every one of them non-empty and already stripped. */
  lemma DocxParagraphsMeaning(lines: seq<string>)
    ensures forall p :: p in DocxParagraphs(lines) <==> exists k :: 0 <= k < |lines| && Strip(lines[k]) != [] && p == Strip(lines[k])
    ensures forall p :: p in DocxParagraphs(lines) ==> p != [] && Strip(p) == p
  {
    var f := Stripper();
    NonEmptyImagesMembers(lines, f);
    assert forall k :: 0 <= k < |lines| ==> f(lines[k]) == Strip(lines[k]);
    forall p | p in DocxParagraphs(lines) ensures Strip(p) == p {
      var k :| 0 <= k < |lines| && f(lines[k]) != [] && p == f(lines[k]);
      StripAgain(lines[k]);
    }
  }

  /** The paragraphs a `.docx` save writes for document `d`: its stripped
      buffer split at newlines, then the non-blank lines stripped. */
  function DocxWritten(d: Doc): seq<string> {
    DocxParagraphs(Split(Strip(d.buffer), "\n"))
  }

  /** A save that succeeds writes at least one paragraph, and the
      paragraphs hold all the buffer's non-whitespace text in order and
      nothing else; each is a non-blank line of the stripped buffer,
      stripped. */
  lemma DocxSaveWrites(d: Doc, chosenPath: string, writeOk: bool)
    requires Save(d, chosenPath, writeOk).1
    ensures DocxWritten(d) != []
    ensures NonSpaceAll(DocxWritten(d)) == NonSpace(d.buffer)
    ensures var lines := Split(Strip(d.buffer), "\n");
      forall p :: p in DocxWritten(d) <==> exists k :: 0 <= k < |lines| && Strip(lines[k]) != [] && p == Strip(lines[k])
  {
    SaveOutcome(d, chosenPath, writeOk);
    var t := Strip(d.buffer);
    var lines := Split(t, "\n");
    DocxParagraphsMeaning(lines);
    DocxIsStrippedLines(lines);
    OcrCleanup.StrippedLinesContent(lines);
    JoinSplit(t, "\n");
    NonSpaceJoin("\n", lines);
    NonSpaceStrip(d.buffer);
    StripShape(d.buffer);
    assert t == [t[0]] + t[1..];
    OcrCleanup.NonSpaceCons(t[0], t[1..]);
  }

  /** The `.docx` paragraphs are the stripped non-blank lines that the
      paragraph merge of the cleanup also keeps. */
  lemma {:induction false} DocxIsStrippedLines(lines: seq<string>)
    ensures DocxParagraphs(lines) == OcrCleanup.StrippedLines(lines)
  {
    if lines != [] {
      var init := lines[..|lines| - 1];
      DocxIsStrippedLines(init);
      assert Stripper()(lines[|lines| - 1]) == Strip(lines[|lines| - 1]);
    }
  }

  /** Stripping twice removes nothing more. */
  lemma StripAgain(s: string)
    ensures Strip(Strip(s)) == Strip(s)
  {
    StripShape(s);
    StripOfUnpadded(Strip(s));
  }
}
