/**
 * The customer's form: the fields found in the template, the QR code's target
 * text, and what each field's label, hint and input show.
 */
module UserPanel {
  import opened Wrappers
  import opened Text
  import opened Placeholders
  import opened JsRecord
  import opened AppState

  /** The image element that shows an encoded QR code, around its data URL. */
  const QrImgOpen: string := "<img src=\""
  const QrImgClose: string := "\" style=\"display:block; width:100%; max-width:120px; height:auto; margin: 0 auto;\">"

  function QrImage(dataUrl: string): string {
    QrImgOpen + dataUrl + QrImgClose
  }

  /** The data URL read back out of a QR image element. */
  function QrDataUrl(tag: string): Option<string> {
    if |QrImgOpen| + |QrImgClose| <= |tag| && tag[..|QrImgOpen|] == QrImgOpen && tag[|tag| - |QrImgClose|..] == QrImgClose
    then Some(tag[|QrImgOpen|..|tag| - |QrImgClose|])
    else None
  }

  /** The element carries the data URL verbatim. */
  lemma QrImageRoundTrip(dataUrl: string)
    ensures QrDataUrl(QrImage(dataUrl)) == Some(dataUrl)
  {
    var t := QrImage(dataUrl);
    assert t[..|QrImgOpen|] == QrImgOpen;
    assert t[|t| - |QrImgClose|..] == QrImgClose;
    assert t[|QrImgOpen|..|t| - |QrImgClose|] == dataUrl;
  }

  /** The QR effect on the variable object. `encoded` is the outcome of encoding the text:
      the data URL, or `None` when the encoder failed. */
  function QrRule(variables: Record, qrText: string, hasQr: bool, encoded: Option<string>): Record {
    if qrText == [] then
      if hasQr then Put(variables, QrKey, []) else variables
    else
      match encoded
      case Some(dataUrl) => Put(variables, QrKey, QrImage(dataUrl))
      case None => variables
  }

  /** What the QR effect leaves in each key: `QR_CODE` cleared for an empty text when the
      template has a QR code, set to the image on a successful encoding, untouched otherwise;
      every other key untouched. */
  lemma QrRuleSpec(variables: Record, qrText: string, hasQr: bool, encoded: Option<string>, j: string)
    ensures Get(QrRule(variables, qrText, hasQr, encoded), j) ==
      if j != QrKey then Get(variables, j)
      else if qrText == [] && hasQr then Some([])
      else if qrText != [] && encoded.Some? then Some(QrImage(encoded.value))
      else Get(variables, j)
  {
    if qrText == [] && hasQr {
      GetPut(variables, QrKey, [], j);
    } else if qrText != [] && encoded.Some? {
      GetPut(variables, QrKey, QrImage(encoded.value), j);
    }
  }

  /** The effects that change nothing: an empty text without a QR code, and a failed encoding. */
  lemma QrRuleNoChange(variables: Record, qrText: string, hasQr: bool, encoded: Option<string>)
    requires (qrText == [] && !hasQr) || (qrText != [] && encoded.None?)
    ensures QrRule(variables, qrText, hasQr, encoded) == variables
  {
  }

  /** A field's label: its name with every `_` shown as a space. */
  function FieldLabel(field: string): string {
    ReplaceChar(field, '_', ' ')
  }

  /** The label has the name's length and no `_`, and for a name without spaces, such as every
      field the scanner reports, the name can be read back from it. */
  lemma FieldLabelSpec(field: string)
    ensures |FieldLabel(field)| == |field|
    ensures '_' !in FieldLabel(field)
    ensures ' ' !in field ==> ReplaceChar(FieldLabel(field), ' ', '_') == field
  {
    var l := FieldLabel(field);
    forall i | 0 <= i < |l| ensures l[i] != '_' {
    }
    if ' ' !in field {
      ReplaceCharInverse(field, '_', ' ');
    }
  }

  /** The hint in a field's empty input: `Enter`, the name in lower case with `_` shown as spaces, and `...`. */
  function FieldHint(field: string): string {
    "Enter " + ReplaceChar(ToLower(field), '_', ' ') + "..."
  }

  /** The hint spells the field's label in lower case. */
  lemma FieldHintIsLabel(field: string)
    ensures FieldHint(field) == "Enter " + ToLower(FieldLabel(field)) + "..."
  {
    var a := ReplaceChar(ToLower(field), '_', ' ');
    var b := ToLower(FieldLabel(field));
    forall i | 0 <= i < |field| ensures a[i] == b[i] {
    }
  }

  /** `variables[field] || ''`: the stored value, or the empty text when there is none. */
  function DisplayValue(variables: Record, field: string): (shown: string)
    ensures field !in Keys(variables) ==> shown == []
    ensures field in Keys(variables) ==> Entry(field, shown) in variables
  {
    match Get(variables, field)
    case Some(v) => v
    case None => []
  }

  /** With distinct keys, a field's input shows the value of the entry with that key. */
  lemma DisplayEntry(variables: Record, i: nat)
    requires Distinct(Keys(variables)) && i < |variables|
    ensures DisplayValue(variables, variables[i].key) == variables[i].value
  {
    GetEntry(variables, i);
  }

  /** After an update, the updated field's input shows the new value and every other input what it showed before. */
  lemma DisplayAfterUpdate(variables: Record, field: string, value: string, other: string)
    ensures DisplayValue(Put(variables, field, value), field) == value
    ensures other != field ==> DisplayValue(Put(variables, field, value), other) == DisplayValue(variables, other)
  {
    GetPut(variables, field, value, field);
    GetPut(variables, field, value, other);
  }

  /** The form panel: the fields found in the template, the QR target text and whether the
      template has a QR code, beside the application whose variables it fills in. */
  class Panel {
    const app: App
    var fields: seq<string>
    var qrText: string
    var hasQr: bool

    constructor (app: App)
      ensures this.app == app && fields == [] && qrText == [] && !hasQr
    {
      this.app := app;
      fields := [];
      qrText := [];
      hasQr := false;
    }

    /** The field-extraction effect, run when the template changes. */
    method ScanTemplate()
      modifies this
      ensures fields == FieldsOf(app.currentHtml) && hasQr == HasQr(app.currentHtml)
      ensures qrText == old(qrText)
    {
      fields, hasQr := ScanFields(app.currentHtml);
    }

    /** Typing in the QR target input. */
    method SetQrText(text: string)
      modifies this
      ensures qrText == text && fields == old(fields) && hasQr == old(hasQr)
    {
      qrText := text;
    }

    /** The QR effect, given the encoder's outcome. */
    method GenerateQr(encoded: Option<string>)
      requires app.Valid()
      modifies app
      ensures app.Valid()
      ensures app.variables == QrRule(old(app.variables), qrText, hasQr, encoded)
      ensures app.mode == old(app.mode) && app.currentHtml == old(app.currentHtml) && app.themeColor == old(app.themeColor)
    {
      if qrText == [] {
        if hasQr {
          app.UpdateVariable(QrKey, []);
        }
        return;
      }
      match encoded {
        case Some(dataUrl) =>
          app.UpdateVariable(QrKey, QrImage(dataUrl));
        case None =>
      }
    }

    /** Typing in a field's input. */
    method UpdateField(field: string, value: string)
      requires app.Valid()
      modifies app
      ensures app.Valid()
      ensures app.variables == Put(old(app.variables), field, value)
      ensures DisplayValue(app.variables, field) == value
      ensures app.mode == old(app.mode) && app.currentHtml == old(app.currentHtml) && app.themeColor == old(app.themeColor)
    {
      app.UpdateVariable(field, value);
      DisplayAfterUpdate(old(app.variables), field, value, field);
    }

    /** The two theme colour inputs. */
    method UpdateTheme(color: string)
      modifies app
      ensures app.themeColor == color
      ensures app.mode == old(app.mode) && app.currentHtml == old(app.currentHtml) && app.variables == old(app.variables)
    {
      app.UpdateTheme(color);
    }
  }
}
