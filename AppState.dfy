/**
 * The application's state: the panel shown, the template being edited, the
 * variable object filled in by the customer and the theme colour. Every handler
 * replaces one of these and leaves the others alone.
 */
module AppState {
  import opened Wrappers
  import opened JsRecord
  import opened FlyerCanvas
  import Presets

  /** `AppMode`: the template editor or the customer's form. */
  datatype AppMode = Admin | User

  /** The theme colour the application starts with. */
  const DefaultTheme: string := "#4f46e5"

  /** The file name both exports are given. */
  const FlyerName: string := "my-flyer"

  class App {
    var mode: AppMode
    var currentHtml: string
    var variables: Record
    var themeColor: string

    /** The variable object holds distinct keys in property order. */
    ghost predicate Valid()
      reads this
    {
      WellFormed(variables)
    }

    /** The initial state: the editor, the promotion preset, no variables and the default colour. */
    constructor ()
      ensures Valid()
      ensures mode == Admin && currentHtml == Presets.Promo && variables == [] && themeColor == DefaultTheme
    {
      mode := Admin;
      currentHtml := Presets.Promo;
      variables := [];
      themeColor := DefaultTheme;
    }

    /** `handleUpdateVariable`: `{...prev, [key]: value}`. The key now holds the value, every
        other key keeps its value, no key is lost, and the object stays well formed. */
    method UpdateVariable(key: string, value: string)
      requires Valid()
      modifies this
      ensures Valid()
      ensures variables == Put(old(variables), key, value)
      ensures Get(variables, key) == Some(value)
      ensures forall j :: j != key ==> Get(variables, j) == Get(old(variables), j)
      ensures forall j :: j in Keys(old(variables)) ==> j in Keys(variables)
      ensures mode == old(mode) && currentHtml == old(currentHtml) && themeColor == old(themeColor)
    {
      PutWellFormed(variables, key, value);
      PutKeys(variables, key, value);
      forall j ensures Get(Put(variables, key, value), j) == if j == key then Some(value) else Get(variables, j) {
        GetPut(variables, key, value, j);
      }
      variables := Put(variables, key, value);
    }

    /** `onUpdateHtml`: the template is replaced; the variables, stale ones included, stay. */
    method UpdateHtml(html: string)
      modifies this
      ensures currentHtml == html
      ensures mode == old(mode) && variables == old(variables) && themeColor == old(themeColor)
    {
      currentHtml := html;
    }

    /** `onUpdateTheme`. */
    method UpdateTheme(color: string)
      modifies this
      ensures themeColor == color
      ensures mode == old(mode) && currentHtml == old(currentHtml) && variables == old(variables)
    {
      themeColor := color;
    }

    /** The "Template" switch button. */
    method SelectAdmin()
      modifies this
      ensures mode == Admin
      ensures currentHtml == old(currentHtml) && variables == old(variables) && themeColor == old(themeColor)
    {
      mode := Admin;
    }

    /** The "Customize" switch button. */
    method SelectUser()
      modifies this
      ensures mode == User
      ensures currentHtml == old(currentHtml) && variables == old(variables) && themeColor == old(themeColor)
    {
      mode := User;
    }

    /** `onSave`: saving the template opens the customer's form. */
    method Save()
      modifies this
      ensures mode == User
      ensures currentHtml == old(currentHtml) && variables == old(variables) && themeColor == old(themeColor)
    {
      SelectUser();
    }

    /** The preview with every value shown as typed: what the source's preview shows whenever
        no value holds `$`, and the template itself when it holds no `{{`. */
    function Preview(): (shown: string)
      reads this
      ensures (forall i :: 0 <= i < |variables| ==> '$' !in variables[i].value) ==>
        shown == RenderAsWritten(currentHtml, variables)
      ensures (forall p :: 0 <= p < |currentHtml| - 1 ==> !(currentHtml[p] == '{' && currentHtml[p + 1] == '{')) ==>
        shown == currentHtml
    {
      var shown := Render(currentHtml, variables);
      assert (forall i :: 0 <= i < |variables| ==> '$' !in variables[i].value) ==>
        shown == RenderAsWritten(currentHtml, variables) by {
        if forall i :: 0 <= i < |variables| ==> '$' !in variables[i].value {
          RenderAgrees(currentHtml, variables);
        }
      }
      assert (forall p :: 0 <= p < |currentHtml| - 1 ==> !(currentHtml[p] == '{' && currentHtml[p + 1] == '{')) ==>
        shown == currentHtml by {
        if forall p :: 0 <= p < |currentHtml| - 1 ==> !(currentHtml[p] == '{' && currentHtml[p + 1] == '{') {
          RenderBraceFree(currentHtml, variables);
        }
      }
      shown
    }

    /** `onExportHtml`: the download name and the document, given the preview's serialised markup. */
    method ExportHtml(content: string) returns (name: string, doc: string)
      ensures name == HtmlFileName(FlyerName) && doc == ExportDocument(FlyerName, themeColor, content)
      ensures ExportedContent(doc, FlyerName, themeColor) == Some(content)
    {
      name := HtmlFileName(FlyerName);
      doc := ExportDocument(FlyerName, themeColor, content);
      ExportRoundTrip(FlyerName, themeColor, content);
    }

    /** `onExportImage`: the download name of the picture. */
    method ExportImageName() returns (name: string)
      ensures name == PngFileName(FlyerName) && name != HtmlFileName(FlyerName)
    {
      name := PngFileName(FlyerName);
      DownloadNamesDiffer(FlyerName);
    }
  }

  /** A key set by one update survives an update of another key, and the later value wins for the same key. */
  lemma LaterUpdateWins(r: Record, k1: string, v1: string, k2: string, v2: string, j: string)
    ensures Get(Put(Put(r, k1, v1), k2, v2), j) == if j == k2 then Some(v2) else if j == k1 then Some(v1) else Get(r, j)
  {
    GetPut(Put(r, k1, v1), k2, v2, j);
    GetPut(r, k1, v1, j);
  }
}
