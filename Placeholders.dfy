/**
 * The field scanner of the customer panel. The global regular expression
 * `{{\s*([a-zA-Z0-9_]+)\s*}}` is run with `exec` from left to right over the
 * template; every captured name except the reserved `QR_CODE` goes into an
 * insertion-ordered set, and `QR_CODE` only raises the `hasQr` flag.
 *
 * Whitespace and identifier characters are disjoint and `}` is neither, so at
 * most one match can start at a given index and the regular expression needs
 * no backtracking: `MatchAt` computes it directly.
 */
module Placeholders {
  import opened Wrappers
  import opened Text

  /** The reserved name whose placeholder receives the QR image. */
  const QrKey: string := "QR_CODE"

  /** One match: the captured name and the index just past the closing `}}`. */
  datatype Match = Match(name: string, end: nat)

  /** What `exec` returns: where the match starts and the match itself. */
  datatype Found = Found(pos: nat, m: Match)

  /** The end of the run of identifier characters that starts at `i` (a greedy `[a-zA-Z0-9_]*`). */
  function SkipIdent(s: string, i: nat): (k: nat)
    requires i <= |s|
    ensures i <= k <= |s|
    decreases |s| - i
  {
    if i < |s| && IsIdentChar(s[i]) then SkipIdent(s, i + 1) else i
  }

  /** `SkipIdent` passes over identifier characters only, and stops at the first character that is not one. */
  lemma {:induction false} SkipIdentSpec(s: string, i: nat)
    requires i <= |s|
    ensures forall p :: i <= p < SkipIdent(s, i) ==> IsIdentChar(s[p])
    ensures SkipIdent(s, i) == |s| || !IsIdentChar(s[SkipIdent(s, i)])
    decreases |s| - i
  {
    if i < |s| && IsIdentChar(s[i]) {
      SkipIdentSpec(s, i + 1);
    }
  }

  lemma SkipIdentAt(s: string, i: nat, k: nat)
    requires i <= k <= |s|
    requires forall p :: i <= p < k ==> IsIdentChar(s[p])
    requires k == |s| || !IsIdentChar(s[k])
    ensures SkipIdent(s, i) == k
    decreases k - i
  {
    if i < k {
      SkipIdentAt(s, i + 1, k);
    }
  }

  /** The placeholder token `{{` + w1 + name + w2 + `}}`. */
  function Placeholder(w1: string, name: string, w2: string): string {
    "{{" + w1 + name + w2 + "}}"
  }

  /** The tokens the regular expression accepts, stated as a grammar rather
      than as a scan: `{{`, whitespace, an identifier, whitespace, `}}`. */
  ghost predicate IsPlaceholderText(t: string, name: string) {
    exists w1, w2 :: AllWs(w1) && AllWs(w2) && IsIdent(name) && t == Placeholder(w1, name, w2)
  }

  /** The match of `{{\s*([a-zA-Z0-9_]+)\s*}}` that starts exactly at `i`, if any. */
  function MatchAt(s: string, i: nat): (r: Option<Match>)
    requires i <= |s|
    ensures r.Some? ==> i + 5 <= r.value.end <= |s|
  {
    if i + 2 <= |s| && s[i] == '{' && s[i + 1] == '{' then
      var a := SkipWs(s, i + 2);
      var b := SkipIdent(s, a);
      var c := SkipWs(s, b);
      if a < b && c + 2 <= |s| && s[c] == '}' && s[c + 1] == '}' then
        Some(Match(s[a..b], c + 2))
      else
        None
    else
      None
  }

  /** A match starts with `{{`, ends with `}}` and holds only whitespace and identifier characters in between. */
  lemma MatchAtShape(s: string, i: nat)
    requires i <= |s| && MatchAt(s, i).Some?
    ensures var e := MatchAt(s, i).value.end;
      s[i] == '{' && s[i + 1] == '{' && s[e - 2] == '}' && s[e - 1] == '}'
      && IsIdent(MatchAt(s, i).value.name)
      && forall p :: i + 2 <= p < e - 2 ==> IsWs(s[p]) || IsIdentChar(s[p])
  {
    var a := SkipWs(s, i + 2);
    var b := SkipIdent(s, a);
    SkipWsSpec(s, i + 2);
    SkipIdentSpec(s, a);
    SkipWsSpec(s, b);
    forall p | 0 <= p < b - a ensures IsIdentChar(s[a..b][p]) {
      assert s[a..b][p] == s[a + p];
    }
  }

  /** `{{`, a run of whitespace, an identifier, a run of whitespace and `}}` in a row spell a placeholder. */
  lemma PartsArePlaceholder(s: string, i: nat, a: nat, b: nat, c: nat)
    requires i + 2 <= a < b <= c && c + 2 <= |s|
    requires s[i] == '{' && s[i + 1] == '{' && s[c] == '}' && s[c + 1] == '}'
    requires forall p :: i + 2 <= p < a ==> IsWs(s[p])
    requires forall p :: a <= p < b ==> IsIdentChar(s[p])
    requires forall p :: b <= p < c ==> IsWs(s[p])
    ensures AllWs(s[i + 2..a]) && IsIdent(s[a..b]) && AllWs(s[b..c])
    ensures s[i..c + 2] == Placeholder(s[i + 2..a], s[a..b], s[b..c])
  {
    var w1, name, w2 := s[i + 2..a], s[a..b], s[b..c];
    forall p | 0 <= p < |w1| ensures IsWs(w1[p]) { assert w1[p] == s[i + 2 + p]; }
    forall p | 0 <= p < |name| ensures IsIdentChar(name[p]) { assert name[p] == s[a + p]; }
    forall p | 0 <= p < |w2| ensures IsWs(w2[p]) { assert w2[p] == s[b + p]; }
    assert s[i..i + 2] == "{{" && s[c..c + 2] == "}}";
    assert s[i..c + 2] == s[i..i + 2] + w1 + name + w2 + s[c..c + 2];
  }

  /** Every match is a placeholder text. */
  lemma MatchAtSound(s: string, i: nat)
    requires i <= |s| && MatchAt(s, i).Some?
    ensures IsPlaceholderText(s[i..MatchAt(s, i).value.end], MatchAt(s, i).value.name)
  {
    var a := SkipWs(s, i + 2);
    var b := SkipIdent(s, a);
    var c := SkipWs(s, b);
    SkipWsSpec(s, i + 2);
    SkipIdentSpec(s, a);
    SkipWsSpec(s, b);
    PartsArePlaceholder(s, i, a, b, c);
    assert MatchAt(s, i) == Some(Match(s[a..b], c + 2));
  }

  /** The characters of a placeholder token sitting at `i`. */
  lemma PlaceholderAt(s: string, i: nat, w1: string, name: string, w2: string)
    requires AllWs(w1) && AllWs(w2) && IsIdent(name)
    requires i + |Placeholder(w1, name, w2)| <= |s|
    requires s[i..i + |Placeholder(w1, name, w2)|] == Placeholder(w1, name, w2)
    ensures s[i] == '{' && s[i + 1] == '{'
    ensures forall p :: i + 2 <= p < i + 2 + |w1| ==> IsWs(s[p])
    ensures s[i + 2 + |w1|..i + 2 + |w1| + |name|] == name
    ensures forall p :: i + 2 + |w1| <= p < i + 2 + |w1| + |name| ==> IsIdentChar(s[p])
    ensures forall p :: i + 2 + |w1| + |name| <= p < i + 2 + |w1| + |name| + |w2| ==> IsWs(s[p])
    ensures s[i + 2 + |w1| + |name| + |w2|] == '}' && s[i + 3 + |w1| + |name| + |w2|] == '}'
  {
    var t := Placeholder(w1, name, w2);
    var a := i + 2 + |w1|;
    var b := a + |name|;
    assert forall p :: 0 <= p < |t| ==> s[i + p] == t[p];
    forall p | i + 2 <= p < a ensures IsWs(s[p]) {
      assert s[p] == t[p - i] == w1[p - i - 2];
    }
    forall p | b <= p < b + |w2| ensures IsWs(s[p]) {
      assert s[p] == t[p - i] == w2[p - b];
    }
    forall p | a <= p < b ensures IsIdentChar(s[p]) {
      assert s[p] == t[p - i] == name[p - a];
    }
    assert s[a..b] == name by {
      forall p | 0 <= p < |name| ensures s[a..b][p] == name[p] {
        assert s[a..b][p] == s[a + p] == t[a + p - i];
      }
    }
  }

  /** `{{`, a run of whitespace, an identifier, a run of whitespace and `}}` at `i` are what `MatchAt` matches. */
  lemma MatchAtParts(s: string, i: nat, a: nat, b: nat, c: nat)
    requires i + 2 <= a < b <= c && c + 2 <= |s|
    requires s[i] == '{' && s[i + 1] == '{' && s[c] == '}' && s[c + 1] == '}'
    requires forall p :: i + 2 <= p < a ==> IsWs(s[p])
    requires forall p :: a <= p < b ==> IsIdentChar(s[p])
    requires forall p :: b <= p < c ==> IsWs(s[p])
    ensures MatchAt(s, i) == Some(Match(s[a..b], c + 2))
  {
    SkipWsAt(s, i + 2, a);
    assert !IsIdentChar(s[b]) by {
      if b < c { assert IsWs(s[b]); }
    }
    SkipIdentAt(s, a, b);
    PrintableNotWs('}');
    SkipWsAt(s, b, c);
  }

  /** Every placeholder text is matched, with its name and its full extent. */
  lemma MatchAtComplete(s: string, i: nat, e: nat, name: string)
    requires i <= e <= |s| && IsPlaceholderText(s[i..e], name)
    ensures MatchAt(s, i) == Some(Match(name, e))
  {
    var w1, w2 :| AllWs(w1) && AllWs(w2) && IsIdent(name) && s[i..e] == Placeholder(w1, name, w2);
    var a, b, c := i + 2 + |w1|, i + 2 + |w1| + |name|, i + 2 + |w1| + |name| + |w2|;
    PlaceholderAt(s, i, w1, name, w2);
    MatchAtParts(s, i, a, b, c);
    assert Match(s[a..b], c + 2) == Match(name, e);
  }

  /** The scanner accepts exactly the placeholder tokens: a match from `i` to `e`
      with a given name is the same thing as a placeholder text `s[i..e]`. */
  lemma MatchAtIff(s: string, i: nat, e: nat, name: string)
    requires i <= e <= |s|
    ensures MatchAt(s, i) == Some(Match(name, e)) <==> IsPlaceholderText(s[i..e], name)
  {
    if MatchAt(s, i) == Some(Match(name, e)) {
      MatchAtSound(s, i);
    }
    if IsPlaceholderText(s[i..e], name) {
      MatchAtComplete(s, i, e, name);
    }
  }

  /** Whitespace inside the braces is tolerated: `{{ NAME }}` matches with name `NAME`. */
  lemma PlaceholderMatches(pre: string, w1: string, name: string, w2: string, post: string)
    requires AllWs(w1) && AllWs(w2) && IsIdent(name)
    ensures var ph := Placeholder(w1, name, w2);
      MatchAt(pre + ph + post, |pre|) == Some(Match(name, |pre| + |ph|))
  {
    var ph := Placeholder(w1, name, w2);
    var s := pre + ph + post;
    assert s[|pre|..|pre| + |ph|] == ph;
    assert IsPlaceholderText(s[|pre|..|pre| + |ph|], name);
    MatchAtComplete(s, |pre|, |pre| + |ph|, name);
  }

  /** `regex.exec(html)` with `lastIndex == from`: the leftmost match at or after `from`. */
  function Exec(s: string, from: nat): (r: Option<Found>)
    requires from <= |s|
    ensures r.Some? ==> from <= r.value.pos <= |s| && MatchAt(s, r.value.pos) == Some(r.value.m)
    decreases |s| - from
  {
    match MatchAt(s, from)
    case Some(m) => Some(Found(from, m))
    case None => if from == |s| then None else Exec(s, from + 1)
  }

  /** `exec` finds the leftmost match: when a match starts at `p`, `exec` from any
      `from <= p` returns a match, and one that starts no later than `p`. */
  lemma {:induction false} ExecLeftmost(s: string, from: nat, p: nat)
    requires from <= p <= |s| && MatchAt(s, p).Some?
    ensures Exec(s, from).Some? && Exec(s, from).value.pos <= p
    decreases p - from
  {
    if from < p && MatchAt(s, from).None? {
      ExecLeftmost(s, from + 1, p);
    }
  }

  /** The names captured by the successive `exec` calls, starting at `lastIndex == from`. */
  function MatchNames(s: string, from: nat): seq<string>
    requires from <= |s|
    decreases |s| - from
  {
    match Exec(s, from)
    case None => []
    case Some(f) => [f.m.name] + MatchNames(s, f.m.end)
  }

  /** Every captured name is an identifier. */
  lemma {:induction false} MatchNamesIdent(s: string, from: nat)
    requires from <= |s|
    ensures forall k :: 0 <= k < |MatchNames(s, from)| ==> IsIdent(MatchNames(s, from)[k])
    decreases |s| - from
  {
    if Exec(s, from).Some? {
      MatchAtShape(s, Exec(s, from).value.pos);
      MatchNamesIdent(s, Exec(s, from).value.m.end);
    }
  }

  /** `Set.prototype.add` on an insertion-ordered set. */
  function SetAdd(members: seq<string>, name: string): seq<string> {
    if name in members then members else members + [name]
  }

  /** One captured name applied to the field list: `QR_CODE` is skipped, any other name added once. */
  function AddField(fields: seq<string>, name: string): seq<string> {
    if name == QrKey then fields else SetAdd(fields, name)
  }

  /** The field list built from the captured names, defined from the last name back. */
  function Fields(names: seq<string>): seq<string>
    decreases |names|
  {
    if names == [] then [] else AddField(Fields(names[..|names| - 1]), names[|names| - 1])
  }

  /** The field list as the scan loop accumulates it, from the first name on. */
  function FieldsFrom(acc: seq<string>, names: seq<string>): seq<string>
    decreases |names|
  {
    if names == [] then acc else FieldsFrom(AddField(acc, names[0]), names[1..])
  }

  /** The editable fields of a template. */
  function FieldsOf(html: string): seq<string> {
    Fields(MatchNames(html, 0))
  }

  /** Whether a template holds a `QR_CODE` placeholder. */
  predicate HasQr(html: string) {
    QrKey in MatchNames(html, 0)
  }

  /** The index of the first occurrence of `x`. */
  function IndexOf(names: seq<string>, x: string): (k: nat)
    requires x in names
    ensures k < |names| && names[k] == x
    ensures forall j :: 0 <= j < k ==> names[j] != x
  {
    if names[0] == x then 0 else 1 + IndexOf(names[1..], x)
  }

  lemma IndexOfSnoc(names: seq<string>, y: string, x: string)
    requires x in names
    ensures IndexOf(names + [y], x) == IndexOf(names, x)
  {
    var k := IndexOf(names, x);
    var k' := IndexOf(names + [y], x);
    assert (names + [y])[k] == x;
    assert k' < |names| ==> names[k'] == x;
  }

  /** The field list has no repeats. */
  lemma {:induction false} FieldsDistinct(names: seq<string>)
    ensures forall i, j :: 0 <= i < j < |Fields(names)| ==> Fields(names)[i] != Fields(names)[j]
    decreases |names|
  {
    if names != [] {
      var init := names[..|names| - 1];
      var last := names[|names| - 1];
      FieldsDistinct(init);
      var fields := Fields(init);
      if last != QrKey && last !in fields {
        assert Fields(names) == fields + [last];
        forall i, j | 0 <= i < j < |fields| + 1 ensures (fields + [last])[i] != (fields + [last])[j] {
          if j == |fields| {
            assert fields[i] in fields;
          }
        }
      }
    }
  }

  /** A name is a field exactly when it was captured and is not `QR_CODE`. */
  lemma {:induction false} FieldsMembers(names: seq<string>, x: string)
    ensures x in Fields(names) <==> x in names && x != QrKey
    decreases |names|
  {
    if names != [] {
      var init := names[..|names| - 1];
      FieldsMembers(init, x);
      assert names == init + [names[|names| - 1]];
    }
  }

  lemma {:induction false} FieldsOrderPair(names: seq<string>, a: nat, b: nat)
    requires a < b < |Fields(names)|
    ensures Fields(names)[a] in names && Fields(names)[b] in names
    ensures IndexOf(names, Fields(names)[a]) < IndexOf(names, Fields(names)[b])
    decreases |names|
  {
    var init := names[..|names| - 1];
    var last := names[|names| - 1];
    assert names == init + [last];
    var prev := Fields(init);
    FieldsSnoc(init, last);
    FieldsMembers(init, last);
    assert Fields(names) == prev || (Fields(names) == prev + [last] && last !in init);
    assert Fields(names)[a] == prev[a];
    FieldsMembers(init, prev[a]);
    IndexOfSnoc(init, last, prev[a]);
    if b < |prev| {
      FieldsOrderPair(init, a, b);
      assert Fields(names)[b] == prev[b];
      IndexOfSnoc(init, last, prev[b]);
    } else {
      assert Fields(names)[b] == last;
      assert IndexOf(names, last) == |init|;
    }
  }

  /** Every element of `fields` occurs in `names`, and they appear in the order
      of their first occurrences there. */
  predicate InFirstOccurrenceOrder(fields: seq<string>, names: seq<string>) {
    (forall a :: 0 <= a < |fields| ==> fields[a] in names)
    && forall a, b :: 0 <= a < b < |fields| && fields[a] in names && fields[b] in names ==>
      IndexOf(names, fields[a]) < IndexOf(names, fields[b])
  }

  /** Fields appear in order of the first occurrence of their names. */
  lemma FieldsFirstOccurrence(names: seq<string>)
    ensures InFirstOccurrenceOrder(Fields(names), names)
  {
    var fields := Fields(names);
    forall a | 0 <= a < |fields| ensures fields[a] in names {
      FieldsMembers(names, fields[a]);
    }
    forall a, b | 0 <= a < b < |fields| && fields[a] in names && fields[b] in names
      ensures IndexOf(names, fields[a]) < IndexOf(names, fields[b])
    {
      FieldsOrderPair(names, a, b);
    }
  }

  /** `match[1].trim()` is the captured name itself. */
  lemma TrimIdent(name: string)
    requires IsIdent(name)
    ensures Trim(name) == name
  {
    TrimPadded([], name, []);
    assert [] + name + [] == name;
  }

  /** One more captured name extends the field list as one loop iteration does. */
  lemma FieldsSnoc(names: seq<string>, name: string)
    ensures Fields(names + [name]) == AddField(Fields(names), name)
  {
    assert (names + [name])[..|names|] == names;
  }

  /** Accumulating the rest of the names onto the fields of a prefix gives the fields of the whole:
      the loop's left-to-right accumulation agrees with the definition from the back. */
  lemma {:induction false} FieldsFromFields(pre: seq<string>, post: seq<string>)
    ensures FieldsFrom(Fields(pre), post) == Fields(pre + post)
    decreases |post|
  {
    if post == [] {
      assert pre + post == pre;
    } else {
      var first := post[0];
      assert FieldsFrom(Fields(pre), post) == FieldsFrom(AddField(Fields(pre), first), post[1..]);
      FieldsSnoc(pre, first);
      FieldsFromFields(pre + [first], post[1..]);
      assert pre + [first] + post[1..] == pre + post;
    }
  }

  /** One `exec` call: the names from `from` on are the found name followed by the names after the match. */
  lemma ScanStep(s: string, from: nat)
    requires from <= |s| && Exec(s, from).Some?
    ensures var m := Exec(s, from).value.m;
      from < m.end <= |s| && IsIdent(m.name) && MatchNames(s, from) == [m.name] + MatchNames(s, m.end)
  {
    MatchAtShape(s, Exec(s, from).value.pos);
  }

  /** The field-extraction effect: the `while ((match = regex.exec(html)) !== null)` loop. */
  method ScanFields(html: string) returns (fields: seq<string>, hasQr: bool)
    ensures fields == FieldsOf(html)
    ensures hasQr == HasQr(html)
  {
    var foundFields: seq<string> := [];
    var qrFound := false;
    var lastIndex := 0;
    var found := Exec(html, lastIndex);
    FieldsFromFields([], MatchNames(html, 0));
    assert [] + MatchNames(html, 0) == MatchNames(html, 0);
    while found.Some?
      invariant lastIndex <= |html|
      invariant found == Exec(html, lastIndex)
      invariant FieldsFrom(foundFields, MatchNames(html, lastIndex)) == FieldsOf(html)
      invariant (qrFound || QrKey in MatchNames(html, lastIndex)) == HasQr(html)
      decreases |html| - lastIndex
    {
      var m := found.value.m;
      ScanStep(html, lastIndex);
      TrimIdent(m.name);
      var fieldName := Trim(m.name);
      if fieldName == QrKey {
        qrFound := true;
      } else {
        foundFields := SetAdd(foundFields, fieldName);
      }
      lastIndex := m.end;
      found := Exec(html, lastIndex);
    }
    fields, hasQr := foundFields, qrFound;
  }

  /** A match that starts before another match ends before it: matches never overlap. */
  lemma MatchesDisjoint(s: string, p: nat, j: nat)
    requires p < j <= |s| && MatchAt(s, p).Some? && MatchAt(s, j).Some?
    ensures MatchAt(s, p).value.end <= j
  {
    MatchAtShape(s, j);
    MatchAtShape(s, p);
    PrintableNotWs('{');
    assert p + 2 <= j;
  }

  /** Every placeholder at or after `i` is captured by the scan from `i`. */
  lemma {:induction false} ScanFinds(s: string, i: nat, j: nat)
    requires i <= j <= |s| && MatchAt(s, j).Some?
    ensures MatchAt(s, j).value.name in MatchNames(s, i)
    decreases j - i
  {
    ExecLeftmost(s, i, j);
    var f := Exec(s, i).value;
    if f.pos < j {
      MatchesDisjoint(s, f.pos, j);
      ScanFinds(s, f.m.end, j);
    }
  }

  /** Every captured name comes from a match somewhere in the template. */
  lemma {:induction false} ScanSound(s: string, i: nat, x: string)
    requires i <= |s| && x in MatchNames(s, i)
    ensures exists p :: i <= p <= |s| && MatchAt(s, p).Some? && MatchAt(s, p).value.name == x
    decreases |s| - i
  {
    var f := Exec(s, i).value;
    if x != f.m.name {
      ScanSound(s, f.m.end, x);
    }
  }

  /** A placeholder of `name` occurs somewhere in `s`. */
  ghost predicate Occurs(s: string, name: string) {
    exists p, e :: 0 <= p <= e <= |s| && IsPlaceholderText(s[p..e], name)
  }

  /** The scan reports a name exactly when a placeholder of that name occurs. */
  lemma ScannedIffOccurs(s: string, x: string)
    ensures x in MatchNames(s, 0) <==> Occurs(s, x)
  {
    if x in MatchNames(s, 0) {
      ScanSound(s, 0, x);
      var p :| 0 <= p <= |s| && MatchAt(s, p).Some? && MatchAt(s, p).value.name == x;
      var e := MatchAt(s, p).value.end;
      MatchAtIff(s, p, e, x);
    }
    if Occurs(s, x) {
      var p, e :| 0 <= p <= e <= |s| && IsPlaceholderText(s[p..e], x);
      MatchAtIff(s, p, e, x);
      ScanFinds(s, 0, p);
    }
  }

  /** The fields are exactly the names, other than `QR_CODE`, of the placeholders
      that occur in the template, without repeats and in order of first occurrence. */
  lemma FieldsOfSpec(html: string)
    ensures forall x :: x in FieldsOf(html) <==> x != QrKey && Occurs(html, x)
    ensures forall i, j :: 0 <= i < j < |FieldsOf(html)| ==> FieldsOf(html)[i] != FieldsOf(html)[j]
    ensures forall i :: 0 <= i < |FieldsOf(html)| ==> IsIdent(FieldsOf(html)[i])
  {
    var names := MatchNames(html, 0);
    forall x ensures x in FieldsOf(html) <==> x != QrKey && Occurs(html, x) {
      FieldsMembers(names, x);
      ScannedIffOccurs(html, x);
    }
    FieldsDistinct(names);
    MatchNamesIdent(html, 0);
    forall i | 0 <= i < |FieldsOf(html)| ensures IsIdent(FieldsOf(html)[i]) {
      FieldsMembers(names, FieldsOf(html)[i]);
    }
  }

  /** `hasQr` holds exactly when a `QR_CODE` placeholder occurs, and `QR_CODE` is never a field. */
  lemma HasQrSpec(html: string)
    ensures HasQr(html) <==> Occurs(html, QrKey)
    ensures QrKey !in FieldsOf(html)
  {
    ScannedIffOccurs(html, QrKey);
    FieldsMembers(MatchNames(html, 0), QrKey);
  }

  /** A placeholder inserted anywhere in a template is reported by the scan. */
  lemma PlaceholderReported(pre: string, w1: string, name: string, w2: string, post: string)
    requires AllWs(w1) && AllWs(w2) && IsIdent(name)
    ensures name in MatchNames(pre + Placeholder(w1, name, w2) + post, 0)
  {
    PlaceholderMatches(pre, w1, name, w2, post);
    ScanFinds(pre + Placeholder(w1, name, w2) + post, 0, |pre|);
  }

  /** A template without `{{` has no fields and no QR placeholder. */
  lemma NoBracesNoNames(s: string)
    requires forall p :: 0 <= p < |s| - 1 ==> !(s[p] == '{' && s[p + 1] == '{')
    ensures MatchNames(s, 0) == []
  {
    assert Exec(s, 0).None? by {
      forall p | 0 <= p <= |s| ensures MatchAt(s, p).None? {
        if p + 1 < |s| { assert !(s[p] == '{' && s[p + 1] == '{'); }
      }
    }
  }

  /** The names reported from a match on are its name and the names after its end. */
  lemma NamesAfterMatch(s: string, from: nat, name: string, end: nat)
    requires from <= |s| && MatchAt(s, from) == Some(Match(name, end))
    ensures MatchNames(s, from) == [name] + MatchNames(s, end)
  {
  }

  /** Nothing is reported from the end of a template on. */
  lemma NamesAtEnd(s: string)
    ensures MatchNames(s, |s|) == []
  {
  }

  /** A placeholder found at index `i` of a template is the match that starts there. */
  lemma PlaceholderMatchesAt(s: string, i: nat, w1: string, name: string, w2: string)
    requires AllWs(w1) && AllWs(w2) && IsIdent(name)
    requires i + |Placeholder(w1, name, w2)| <= |s|
    requires s[i..i + |Placeholder(w1, name, w2)|] == Placeholder(w1, name, w2)
    ensures MatchAt(s, i) == Some(Match(name, i + |Placeholder(w1, name, w2)|))
  {
    PlaceholderAt(s, i, w1, name, w2);
    var a := i + 2 + |w1|;
    MatchAtParts(s, i, a, a + |name|, a + |name| + |w2|);
  }

  /** A template made of one placeholder reports exactly its name. */
  lemma SinglePlaceholder(w1: string, name: string, w2: string)
    requires AllWs(w1) && AllWs(w2) && IsIdent(name)
    ensures MatchNames(Placeholder(w1, name, w2), 0) == [name]
  {
    var ph := Placeholder(w1, name, w2);
    assert ph[0..|ph|] == ph;
    PlaceholderMatchesAt(ph, 0, w1, name, w2);
    NamesAfterMatch(ph, 0, name, |ph|);
    NamesAtEnd(ph);
  }

  /** A placeholder at `i` is reported there, and the scan goes on from its end. */
  lemma NamesFromPlaceholder(s: string, i: nat, e: nat, name: string)
    requires IsIdent(name) && e == i + |Placeholder("", name, "")| && e <= |s|
    requires s[i..e] == Placeholder("", name, "")
    ensures MatchNames(s, i) == [name] + MatchNames(s, e)
  {
    PlaceholderMatchesAt(s, i, "", name, "");
    NamesAfterMatch(s, i, name, e);
  }

  /** A name captured again adds no second field. */
  lemma FieldsOfRepeat(a: string, b: string)
    requires a != b && a != QrKey && b != QrKey
    ensures Fields([a, b, a]) == [a, b]
  {
    assert [a, b, a][..2] == [a, b];
    assert [a, b][..1] == [a];
    assert [a][..0] == [];
    assert Fields([a]) == [a];
    assert Fields([a, b]) == [a, b];
  }

  /** A template `{{a}}{{b}}{{a}}` has the fields `a`, `b`, in that order, once each, and no QR code. */
  lemma RepeatedPlaceholderOnce(a: string, b: string)
    requires IsIdent(a) && IsIdent(b) && a != b && a != QrKey && b != QrKey
    ensures var s := Placeholder("", a, "") + Placeholder("", b, "") + Placeholder("", a, "");
      FieldsOf(s) == [a, b] && !HasQr(s)
  {
    var pa, pb := Placeholder("", a, ""), Placeholder("", b, "");
    var s := pa + pb + pa;
    var i, j := |pa|, |pa| + |pb|;
    assert s[0..i] == pa && s[i..j] == pb && s[j..|s|] == pa;
    NamesFromPlaceholder(s, 0, i, a);
    NamesFromPlaceholder(s, i, j, b);
    NamesFromPlaceholder(s, j, |s|, a);
    NamesAtEnd(s);
    ConsThree(MatchNames(s, 0), MatchNames(s, i), MatchNames(s, j), MatchNames(s, |s|), a, b, a);
    FieldsOfRepeat(a, b);
  }

  lemma ConsThree(n0: seq<string>, n1: seq<string>, n2: seq<string>, n3: seq<string>, x: string, y: string, z: string)
    requires n0 == [x] + n1 && n1 == [y] + n2 && n2 == [z] + n3 && n3 == []
    ensures n0 == [x, y, z]
  {
  }

  /** The fields and the QR flag of a template whose only reported name is `name`. */
  lemma OneName(s: string, name: string)
    requires MatchNames(s, 0) == [name]
    ensures FieldsOf(s) == if name == QrKey then [] else [name]
    ensures HasQr(s) <==> name == QrKey
  {
    var names := [name];
    assert names[..|names| - 1] == [];
    assert Fields(names) == AddField([], name);
  }

  /** A template in which no match starts anywhere reports nothing. */
  lemma NoMatchNoNames(s: string)
    requires forall p :: 0 <= p <= |s| ==> MatchAt(s, p).None?
    ensures FieldsOf(s) == [] && !HasQr(s)
  {
    assert Exec(s, 0).None?;
  }

  /** Without a `}`, as in the unterminated `{{NAME`, a template reports nothing. */
  lemma UnterminatedIgnored(s: string)
    requires '}' !in s
    ensures FieldsOf(s) == [] && !HasQr(s)
  {
    forall p | 0 <= p <= |s| ensures MatchAt(s, p).None? {
      if MatchAt(s, p).Some? {
        MatchAtShape(s, p);
      }
    }
    NoMatchNoNames(s);
  }

  /** A template shorter than five characters, such as the empty braces `{{}}`, reports nothing. */
  lemma TooShortIgnored(s: string)
    requires |s| < 5
    ensures FieldsOf(s) == [] && !HasQr(s)
  {
    NoMatchNoNames(s);
  }

  /** The braces around `inner` open only at the start, and close only at the end. */
  lemma BracedShape(inner: string, p: nat)
    requires '{' !in inner && '}' !in inner
    requires p <= |"{{" + inner + "}}"| && MatchAt("{{" + inner + "}}", p).Some?
    ensures p == 0 && MatchAt("{{" + inner + "}}", p).value.end == |inner| + 4
  {
    MatchAtShape("{{" + inner + "}}", p);
  }

  /** No match starts in braces around a character that is neither whitespace nor an identifier character. */
  lemma ForeignCharNoMatch(inner: string, k: nat, p: nat)
    requires '{' !in inner && '}' !in inner
    requires k < |inner| && !IsWs(inner[k]) && !IsIdentChar(inner[k])
    requires p <= |"{{" + inner + "}}"|
    ensures MatchAt("{{" + inner + "}}", p).None?
  {
    var s := "{{" + inner + "}}";
    assert s[k + 2] == inner[k];
    if MatchAt(s, p).Some? {
      BracedShape(inner, p);
      MatchAtShape(s, p);
    }
  }

  /** Braces around a character that is neither whitespace nor an identifier character, as in `{{MY-VAR}}`, hold no placeholder. */
  lemma ForeignCharIgnored(inner: string, k: nat)
    requires '{' !in inner && '}' !in inner
    requires k < |inner| && !IsWs(inner[k]) && !IsIdentChar(inner[k])
    ensures FieldsOf("{{" + inner + "}}") == [] && !HasQr("{{" + inner + "}}")
  {
    forall p | 0 <= p <= |"{{" + inner + "}}"| ensures MatchAt("{{" + inner + "}}", p).None? {
      ForeignCharNoMatch(inner, k, p);
    }
    NoMatchNoNames("{{" + inner + "}}");
  }

  /** Two words and the whitespace between them hold no brace. */
  lemma WordsHaveNoBraces(a: string, w: string, b: string)
    requires IsIdent(a) && IsIdent(b) && AllWs(w)
    ensures '{' !in a + w + b && '}' !in a + w + b
  {
    var inner := a + w + b;
    forall k | 0 <= k < |inner| ensures inner[k] != '{' && inner[k] != '}' {
      if k < |a| {
        assert inner[k] == a[k];
      } else if k < |a| + |w| {
        assert inner[k] == w[k - |a|];
        PrintableNotWs('{');
        PrintableNotWs('}');
      } else {
        assert inner[k] == b[k - |a| - |w|];
      }
    }
  }

  /** No match starts in braces around two words separated by whitespace. */
  lemma TwoWordsNoMatch(a: string, w: string, b: string, p: nat)
    requires IsIdent(a) && IsIdent(b) && AllWs(w) && w != []
    requires p <= |"{{" + (a + w + b) + "}}"|
    ensures MatchAt("{{" + (a + w + b) + "}}", p).None?
  {
    var s := "{{" + (a + w + b) + "}}";
    if MatchAt(s, p).Some? {
      WordsHaveNoBraces(a, w, b);
      BracedShape(a + w + b, p);
      assert s[2] == a[0] && !IsWs(a[0]);
      SkipWsAt(s, 2, 2);
      forall q | 2 <= q < 2 + |a| ensures IsIdentChar(s[q]) {
        assert s[q] == a[q - 2];
      }
      assert s[2 + |a|] == w[0];
      SkipIdentAt(s, 2, 2 + |a|);
      forall q | 2 + |a| <= q < 2 + |a| + |w| ensures IsWs(s[q]) {
        assert s[q] == w[q - 2 - |a|];
      }
      assert s[2 + |a| + |w|] == b[0] && !IsWs(b[0]);
      SkipWsAt(s, 2 + |a|, 2 + |a| + |w|);
    }
  }

  /** Braces around two words separated by whitespace, as in `{{A B}}`, hold no placeholder. */
  lemma TwoWordsIgnored(a: string, w: string, b: string)
    requires IsIdent(a) && IsIdent(b) && AllWs(w) && w != []
    ensures FieldsOf("{{" + (a + w + b) + "}}") == [] && !HasQr("{{" + (a + w + b) + "}}")
  {
    forall p | 0 <= p <= |"{{" + (a + w + b) + "}}"| ensures MatchAt("{{" + (a + w + b) + "}}", p).None? {
      TwoWordsNoMatch(a, w, b, p);
    }
    NoMatchNoNames("{{" + (a + w + b) + "}}");
  }
}
