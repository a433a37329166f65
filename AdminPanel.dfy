/**
 * The template editor: loading a preset, and inserting a variable placeholder,
 * an image tag or the QR placeholder at the editor's selection (or at the end
 * of the template when there is no editor).
 */
module AdminPanel {
  import opened Wrappers
  import opened Text
  import opened Placeholders
  import Presets
  import opened AppState

  /** `String.prototype.substring(a, b)` for non-negative indices: both are clamped
      to the length, and the smaller one is the start. */
  function Substring(s: string, a: nat, b: nat): (r: string)
    ensures var lo := if a <= b then a else b;
      var hi := if a <= b then b else a;
      r == s[if lo <= |s| then lo else |s|..if hi <= |s| then hi else |s|]
    ensures |r| <= |s|
  {
    var x := if a <= |s| then a else |s|;
    var y := if b <= |s| then b else |s|;
    if x <= y then s[x..y] else s[y..x]
  }

  /** The text before the selection, the inserted text and the text after the selection. */
  function Splice(value: string, start: nat, end: nat, text: string): string {
    Substring(value, 0, start) + text + Substring(value, end, |value|)
  }

  /** For a selection inside the text, the splice replaces exactly the selected characters:
      what precedes the selection and what follows it are kept, and the length changes by
      the inserted length less the selected length. */
  lemma SpliceSelection(value: string, start: nat, end: nat, text: string)
    requires start <= end <= |value|
    ensures Splice(value, start, end, text) == value[..start] + text + value[end..]
    ensures |Splice(value, start, end, text)| == |value| - (end - start) + |text|
    ensures Splice(value, start, end, text)[..start] == value[..start]
    ensures Splice(value, start, end, text)[start..start + |text|] == text
    ensures Splice(value, start, end, text)[start + |text|..] == value[end..]
  {
    var r := Splice(value, start, end, text);
    assert value[0..start] == value[..start] && value[end..|value|] == value[end..];
    assert r == value[..start] + text + value[end..];
    assert r[..start] == value[..start];
    assert r[start..start + |text|] == text;
    assert r[start + |text|..] == value[end..];
  }

  /** The selected text can be put back: the splice loses nothing but the selection. */
  lemma SpliceUndo(value: string, start: nat, end: nat, text: string)
    requires start <= end <= |value|
    ensures var r := Splice(value, start, end, text);
      r[..start] + value[start..end] + r[start + |text|..] == value
  {
    SpliceSelection(value, start, end, text);
    assert value == value[..start] + value[start..end] + value[end..];
  }

  /** The editor's selection, when the editor element exists. */
  datatype Selection = Selection(start: nat, end: nat)

  /** The template after `insertAtCursor(text)`: spliced at the selection, or appended. */
  function Inserted(html: string, editor: Option<Selection>, text: string): string {
    match editor
    case Some(sel) => Splice(html, sel.start, sel.end, text)
    case None => html + text
  }

  /** Without an editor, the text is appended and the template kept in front of it. */
  lemma InsertedAppends(html: string, text: string)
    ensures Inserted(html, None, text)[..|html|] == html
    ensures Inserted(html, None, text)[|html|..] == text
  {
  }

  /** `.replace(/\s+/g, '_')`: every maximal run of whitespace becomes one `_`. */
  function CollapseWs(s: string): (r: string)
    ensures |r| <= |s|
    ensures forall i :: 0 <= i < |r| ==> !IsWs(r[i])
    ensures forall i :: 0 <= i < |r| ==> r[i] == '_' || r[i] in s
    ensures r == [] <==> s == []
    decreases |s|
  {
    if s == [] then []
    else if IsWs(s[0]) then
      var k := SkipWs(s, 0);
      var rest := CollapseWs(s[k..]);
      PrintableNotWs('_');
      assert forall i :: 0 <= i < |rest| ==> rest[i] == '_' || rest[i] in s by {
        forall i | 0 <= i < |rest| && rest[i] != '_' ensures rest[i] in s {
          var j :| 0 <= j < |s[k..]| && s[k..][j] == rest[i];
          assert s[k + j] == rest[i];
        }
      }
      "_" + rest
    else
      var rest := CollapseWs(s[1..]);
      assert forall i :: 0 <= i < |rest| ==> rest[i] == '_' || rest[i] in s by {
        forall i | 0 <= i < |rest| && rest[i] != '_' ensures rest[i] in s {
          var j :| 0 <= j < |s[1..]| && s[1..][j] == rest[i];
          assert s[1 + j] == rest[i];
        }
      }
      [s[0]] + rest
  }

  /** A text without whitespace is left as it is. */
  lemma {:induction false} CollapseWsPlain(s: string)
    requires !HasWs(s)
    ensures CollapseWs(s) == s
    decreases |s|
  {
    if s != [] {
      assert !IsWs(s[0]);
      assert !HasWs(s[1..]) by {
        forall i | 0 <= i < |s[1..]| ensures !IsWs(s[1..][i]) {
          assert s[1..][i] == s[i + 1];
        }
      }
      CollapseWsPlain(s[1..]);
      assert s == [s[0]] + s[1..];
    }
  }

  /** A leading run of whitespace becomes one `_` in front of the collapsed rest. */
  lemma CollapseWsLeadingRun(run: string, rest: string)
    requires AllWs(run) && run != []
    requires rest == [] || !IsWs(rest[0])
    ensures CollapseWs(run + rest) == "_" + CollapseWs(rest)
  {
    var s := run + rest;
    forall p | 0 <= p < |run| ensures IsWs(s[p]) {
      assert s[p] == run[p];
    }
    if rest != [] {
      assert s[|run|] == rest[0];
    }
    SkipWsAt(s, 0, |run|);
    assert s[0] == run[0];
    assert s[|run|..] == rest;
  }

  /** A word without whitespace is kept in front of the collapsed rest. */
  lemma {:induction false} CollapseWsWord(word: string, x: string)
    requires !HasWs(word)
    ensures CollapseWs(word + x) == word + CollapseWs(x)
    decreases |word|
  {
    if word != [] {
      var s := word + x;
      var tail := word[1..];
      NoWsTail(word);
      assert s[0] == word[0];
      CollapseWsCons(s);
      assert s[1..] == tail + x;
      CollapseWsWord(tail, x);
      PrependChar(CollapseWs(s), word[0], CollapseWs(s[1..]), tail, word, CollapseWs(x));
    } else {
      assert word + x == x;
    }
  }

  lemma NoWsTail(word: string)
    requires word != [] && !HasWs(word)
    ensures !HasWs(word[1..])
  {
    forall i | 0 <= i < |word[1..]| ensures !IsWs(word[1..][i]) {
      assert word[1..][i] == word[i + 1];
    }
  }

  /** A character that is not whitespace is kept in front of the collapsed rest. */
  lemma CollapseWsCons(s: string)
    requires s != [] && !IsWs(s[0])
    ensures CollapseWs(s) == [s[0]] + CollapseWs(s[1..])
  {
  }

  lemma PrependChar(a: string, c: char, b: string, tail: string, word: string, y: string)
    requires a == [c] + b && b == tail + y && word == [c] + tail
    ensures a == word + y
  {
  }

  /** A word, a run of whitespace and the rest: the run becomes one `_` between the word and the collapsed rest. */
  lemma CollapseWsRun(word: string, run: string, rest: string)
    requires !HasWs(word) && AllWs(run) && run != []
    requires rest == [] || !IsWs(rest[0])
    ensures CollapseWs(word + run + rest) == word + "_" + CollapseWs(rest)
  {
    assert word + run + rest == word + (run + rest);
    CollapseWsWord(word, run + rest);
    CollapseWsLeadingRun(run, rest);
  }

  /** `varInput.trim().toUpperCase().replace(/\s+/g, '_')`. */
  function CleanName(input: string): (name: string)
    ensures |name| <= |input|
    ensures name == [] <==> AllWs(input)
  {
    CollapseWs(ToUpper(Trim(input)))
  }

  /** The cleaned name holds no whitespace at all, so none at either end, and no lower-case ASCII letter. */
  lemma CleanNameShape(input: string)
    ensures !HasWs(CleanName(input))
    ensures forall i :: 0 <= i < |CleanName(input)| ==> !('a' <= CleanName(input)[i] <= 'z')
  {
    var u := ToUpper(Trim(input));
    var r := CleanName(input);
    forall i | 0 <= i < |r| ensures !('a' <= r[i] <= 'z') {
      if r[i] != '_' {
        var j :| 0 <= j < |u| && u[j] == r[i];
      }
    }
  }

  /** Input made only of whitespace cleans to the empty name, so the editor receives `{{}}`. */
  lemma CleanNameBlank(input: string)
    requires AllWs(input)
    ensures CleanName(input) == []
    ensures VariableToken(CleanName(input)) == "{{}}"
  {
  }

  /** Cleaning a cleaned name changes nothing. */
  lemma CleanNameIdempotent(input: string)
    ensures CleanName(CleanName(input)) == CleanName(input)
  {
    var c := CleanName(input);
    CleanNameShape(input);
    if c != [] {
      assert !IsWs(c[0]) && !IsWs(c[|c| - 1]);
    }
    assert Trim(c) == c by {
      TrimPadded([], c, []);
      assert [] + c + [] == c;
    }
    assert ToUpper(c) == c by {
      var u := ToUpper(c);
      forall i | 0 <= i < |c| ensures u[i] == c[i] {
        assert !('a' <= c[i] <= 'z');
      }
    }
    CollapseWsPlain(c);
  }

  /** The placeholder text `addVariable` inserts. */
  function VariableToken(name: string): string {
    "{{" + name + "}}"
  }

  /** The placeholder text `addQRPlaceholder` inserts. */
  const QrToken: string := "{{QR_CODE}}"

  /** The image tag `addImage` inserts, around the address as typed. */
  const ImgOpen: string := "<img src=\""
  const ImgClose: string := "\" style=\"width:100%; max-width:200px; display:block; margin:10px auto; border-radius:8px;\">"

  function ImgTag(url: string): string {
    ImgOpen + url + ImgClose
  }

  /** The address read back out of an image tag of this shape. */
  function ImgSource(tag: string): Option<string> {
    if |ImgOpen| + |ImgClose| <= |tag| && tag[..|ImgOpen|] == ImgOpen && tag[|tag| - |ImgClose|..] == ImgClose
    then Some(tag[|ImgOpen|..|tag| - |ImgClose|])
    else None
  }

  /** The tag carries the address verbatim. */
  lemma ImgTagRoundTrip(url: string)
    ensures ImgSource(ImgTag(url)) == Some(url)
  {
    var t := ImgTag(url);
    assert t[..|ImgOpen|] == ImgOpen;
    assert t[|t| - |ImgClose|..] == ImgClose;
    assert t[|ImgOpen|..|t| - |ImgClose|] == url;
  }

  /** A placeholder inserted for a name the scanner accepts is reported as a field of the new template,
      with or without an editor. */
  lemma InsertedFieldReported(html: string, editor: Option<Selection>, name: string)
    requires IsIdent(name) && name != QrKey
    ensures name in FieldsOf(Inserted(html, editor, VariableToken(name)))
  {
    var ph := Placeholder("", name, "");
    assert VariableToken(name) == ph;
    var r := Inserted(html, editor, ph);
    match editor {
      case Some(sel) =>
        PlaceholderReported(Substring(html, 0, sel.start), "", name, "", Substring(html, sel.end, |html|));
      case None =>
        PlaceholderReported(html, "", name, "", []);
        assert html + ph + [] == r;
    }
    FieldsMembers(MatchNames(r, 0), name);
  }

  /** Inserting the QR placeholder gives the template a QR code, with or without an editor. */
  lemma InsertedQrReported(html: string, editor: Option<Selection>)
    ensures HasQr(Inserted(html, editor, QrToken))
  {
    var ph := Placeholder("", QrKey, "");
    assert QrToken == ph;
    assert IsIdent(QrKey);
    var r := Inserted(html, editor, ph);
    match editor {
      case Some(sel) =>
        PlaceholderReported(Substring(html, 0, sel.start), "", QrKey, "", Substring(html, sel.end, |html|));
      case None =>
        PlaceholderReported(html, "", QrKey, "", []);
        assert html + ph + [] == r;
    }
  }

  /** The editor panel: its two text inputs, and the application whose template it edits. */
  class Panel {
    const app: App
    var varInput: string
    var imgInput: string

    constructor (app: App)
      ensures this.app == app && varInput == [] && imgInput == []
    {
      this.app := app;
      varInput := [];
      imgInput := [];
    }

    /** Typing in the variable-name input. */
    method SetVarInput(text: string)
      modifies this
      ensures varInput == text && imgInput == old(imgInput)
    {
      varInput := text;
    }

    /** Typing in the image-address input. */
    method SetImgInput(text: string)
      modifies this
      ensures imgInput == text && varInput == old(varInput)
    {
      imgInput := text;
    }

    /** `loadPreset`: a known key replaces the whole template; any other key changes nothing. */
    method LoadPreset(key: string)
      modifies app
      ensures Presets.Lookup(key).Some? ==> app.currentHtml == Presets.Lookup(key).value
      ensures Presets.Lookup(key).None? ==> app.currentHtml == old(app.currentHtml)
      ensures app.mode == old(app.mode) && app.variables == old(app.variables) && app.themeColor == old(app.themeColor)
    {
      var preset := Presets.Lookup(key);
      if preset.Some? {
        app.UpdateHtml(preset.value);
      }
    }

    /** `insertAtCursor`: the text goes in place of the editor's selection, and the caret after it;
        without an editor it is appended to the template. */
    method InsertAtCursor(text: string, editor: Option<Selection>) returns (caret: Option<nat>)
      modifies app
      ensures app.currentHtml == Inserted(old(app.currentHtml), editor, text)
      ensures caret == if editor.Some? then Some(editor.value.start + |text|) else None
      ensures app.mode == old(app.mode) && app.variables == old(app.variables) && app.themeColor == old(app.themeColor)
    {
      match editor {
        case Some(sel) =>
          app.UpdateHtml(Splice(app.currentHtml, sel.start, sel.end, text));
          caret := Some(sel.start + |text|);
        case None =>
          app.UpdateHtml(app.currentHtml + text);
          caret := None;
      }
    }

    /** `addVariable`: nothing happens for an empty input; otherwise the cleaned name's
        placeholder is inserted and the input cleared. */
    method AddVariable(editor: Option<Selection>) returns (caret: Option<nat>)
      modifies this, app
      ensures old(varInput) == [] ==> app.currentHtml == old(app.currentHtml) && varInput == old(varInput) && caret.None?
      ensures old(varInput) != [] ==>
        app.currentHtml == Inserted(old(app.currentHtml), editor, VariableToken(CleanName(old(varInput))))
        && varInput == []
      ensures imgInput == old(imgInput)
      ensures app.mode == old(app.mode) && app.variables == old(app.variables) && app.themeColor == old(app.themeColor)
    {
      if varInput == [] {
        return None;
      }
      var clean := CleanName(varInput);
      caret := InsertAtCursor(VariableToken(clean), editor);
      varInput := [];
    }

    /** `addImage`: nothing happens for an empty address; otherwise the image tag is inserted
        and the input cleared. */
    method AddImage(editor: Option<Selection>) returns (caret: Option<nat>)
      modifies this, app
      ensures old(imgInput) == [] ==> app.currentHtml == old(app.currentHtml) && imgInput == old(imgInput) && caret.None?
      ensures old(imgInput) != [] ==>
        app.currentHtml == Inserted(old(app.currentHtml), editor, ImgTag(old(imgInput))) && imgInput == []
      ensures varInput == old(varInput)
      ensures app.mode == old(app.mode) && app.variables == old(app.variables) && app.themeColor == old(app.themeColor)
    {
      if imgInput == [] {
        return None;
      }
      caret := InsertAtCursor(ImgTag(imgInput), editor);
      imgInput := [];
    }

    /** `addQRPlaceholder`: the QR placeholder is inserted, and the template then has a QR code. */
    method AddQrPlaceholder(editor: Option<Selection>) returns (caret: Option<nat>)
      modifies app
      ensures app.currentHtml == Inserted(old(app.currentHtml), editor, QrToken)
      ensures HasQr(app.currentHtml)
      ensures app.mode == old(app.mode) && app.variables == old(app.variables) && app.themeColor == old(app.themeColor)
    {
      InsertedQrReported(app.currentHtml, editor);
      caret := InsertAtCursor(QrToken, editor);
    }

  }
}
