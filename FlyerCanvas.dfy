/**
 * The flyer preview and its exports. Rendering walks the variable object's
 * entries in property order and, for each `(key, value)`, replaces every
 * match of the global regular expression `{{\s*KEY\s*}}` with `value` by
 * `String.prototype.replace`. Placeholders without an entry stay as they are.
 *
 * `replace` reads its second argument as a replacement pattern, in which
 * `$$`, `$&`, `` $` `` and `$'` are special (`ReplacePattern`, the code as
 * written); the value the customer typed is meant to appear verbatim
 * (`ReplaceLiteral`, which escapes every `$` first). Rendering uses the
 * verbatim form; `RenderAsWritten` is the fold over the pattern form.
 */
module FlyerCanvas {
  import opened Wrappers
  import opened Text
  import opened Placeholders
  import opened JsRecord

  /** The regular expression `{{\s*KEY\s*}}`, with `KEY` read literally, tried at index `i`:
      the index just past the match, if there is one. */
  function KeyMatchAt(s: string, i: nat, key: string): (r: Option<nat>)
    requires i <= |s|
    ensures r.Some? ==> i + 4 + |key| <= r.value <= |s| && s[i] == '{' && s[i + 1] == '{'
  {
    if i + 2 <= |s| && s[i] == '{' && s[i + 1] == '{' then
      var a := SkipWs(s, i + 2);
      if a + |key| <= |s| && s[a..a + |key|] == key then
        var c := SkipWs(s, a + |key|);
        if c + 2 <= |s| && s[c] == '}' && s[c + 1] == '}' then Some(c + 2) else None
      else None
    else None
  }

  /** For an identifier key, the key's expression matches exactly where the field
      scanner finds a placeholder of that name, and ends at the same index. */
  lemma KeyMatchAgrees(s: string, i: nat, key: string)
    requires i <= |s| && IsIdent(key)
    ensures KeyMatchAt(s, i, key) ==
      if MatchAt(s, i).Some? && MatchAt(s, i).value.name == key then Some(MatchAt(s, i).value.end) else None
  {
    if i + 2 <= |s| && s[i] == '{' && s[i + 1] == '{' {
      var a := SkipWs(s, i + 2);
      var b := SkipIdent(s, a);
      SkipIdentSpec(s, a);
      if KeyMatchAt(s, i, key).Some? {
        var k := a + |key|;
        var c := SkipWs(s, k);
        SkipWsSpec(s, k);
        forall p | a <= p < k ensures IsIdentChar(s[p]) {
          assert s[p] == key[p - a];
        }
        assert !IsIdentChar(s[k]) by {
          if c == k {
            assert s[k] == '}';
          }
        }
        SkipIdentAt(s, a, k);
        assert MatchAt(s, i) == Some(Match(key, c + 2));
      }
    }
  }

  /** The replacement text for one match (GetSubstitution with no capture groups),
      token by token. */
  function Expand(repl: string, matched: string, before: string, after: string): string
    decreases |repl|
  {
    if repl == [] then []
    else Token(repl, matched, before, after) + Expand(repl[TokenLength(repl)..], matched, before, after)
  }

  /** The characters that may follow `$` in a replacement pattern without capture groups. */
  predicate IsSpecial(c: char) {
    c == '$' || c == '&' || c == '`' || c == '\''
  }

  /** The length of the token that starts the pattern: two for `$$`, `$&`, `` $` `` and `$'`, one otherwise. */
  function TokenLength(repl: string): (n: nat)
    requires repl != []
    ensures 1 <= n <= |repl|
  {
    if |repl| >= 2 && repl[0] == '$' && IsSpecial(repl[1]) then 2 else 1
  }

  /** What the first token stands for: `$$` is `$`, `$&` the match, `` $` `` the text before it,
      `$'` the text after it, and any other character, including any other `$`, itself. */
  function Token(repl: string, matched: string, before: string, after: string): string
    requires repl != []
  {
    if TokenLength(repl) == 1 then [repl[0]]
    else if repl[1] == '$' then "$"
    else if repl[1] == '&' then matched
    else if repl[1] == '`' then before
    else after
  }

  /** Every `$` doubled, so that the pattern stands for the text itself. */
  function EscapeDollars(v: string): string {
    if v == [] then []
    else (if v[0] == '$' then "$$" else [v[0]]) + EscapeDollars(v[1..])
  }

  /** Expanding an escaped text gives the text back, whatever was matched. */
  lemma {:induction false} ExpandEscaped(v: string, matched: string, before: string, after: string)
    ensures Expand(EscapeDollars(v), matched, before, after) == v
  {
    if v != [] {
      ExpandEscaped(v[1..], matched, before, after);
      var e := EscapeDollars(v);
      if v[0] == '$' {
        assert e[2..] == EscapeDollars(v[1..]);
      } else {
        assert e[1..] == EscapeDollars(v[1..]);
      }
      assert v == [v[0]] + v[1..];
    }
  }

  /** A text without `$` is its own escape and its own expansion. */
  lemma {:induction false} NoDollarPlain(v: string, matched: string, before: string, after: string)
    requires '$' !in v
    ensures EscapeDollars(v) == v
    ensures Expand(v, matched, before, after) == v
  {
    if v != [] {
      assert v[0] != '$';
      assert '$' !in v[1..];
      NoDollarPlain(v[1..], matched, before, after);
      assert v == [v[0]] + v[1..];
    }
  }

  /** The global `replace` of the key's expression by the pattern `repl`, on the part of `s` from `from`. */
  function ReplaceFrom(s: string, key: string, repl: string, from: nat): string
    requires from <= |s|
    decreases |s| - from
  {
    if from == |s| then []
    else match KeyMatchAt(s, from, key)
      case Some(e) => Expand(repl, s[from..e], s[..from], s[e..]) + ReplaceFrom(s, key, repl, e)
      case None => [s[from]] + ReplaceFrom(s, key, repl, from + 1)
  }

  /** `s.replace(new RegExp('{{\\s*' + key + '\\s*}}', 'g'), value)`, as written: the value is a pattern. */
  function ReplacePattern(s: string, key: string, value: string): string {
    ReplaceFrom(s, key, value, 0)
  }

  /** Every placeholder of `key` replaced by `value` itself. */
  function ReplaceLiteral(s: string, key: string, value: string): string {
    ReplaceFrom(s, key, EscapeDollars(value), 0)
  }

  /** The two agree on every value without `$`. */
  lemma ReplaceAgrees(s: string, key: string, value: string)
    requires '$' !in value
    ensures ReplacePattern(s, key, value) == ReplaceLiteral(s, key, value)
  {
    NoDollarPlain(value, [], [], []);
  }

  /** A stretch of `s` where the key's expression matches nowhere is copied as it is. */
  lemma {:induction false} ReplaceCopies(s: string, key: string, repl: string, lo: nat, hi: nat)
    requires lo <= hi <= |s|
    requires forall p :: lo <= p < hi ==> KeyMatchAt(s, p, key).None?
    ensures ReplaceFrom(s, key, repl, lo) == s[lo..hi] + ReplaceFrom(s, key, repl, hi)
    decreases hi - lo
  {
    if lo < hi {
      assert KeyMatchAt(s, lo, key).None?;
      assert ReplaceFrom(s, key, repl, lo) == [s[lo]] + ReplaceFrom(s, key, repl, lo + 1);
      ReplaceCopies(s, key, repl, lo + 1, hi);
      assert s[lo..hi] == [s[lo]] + s[lo + 1..hi];
      Chain(ReplaceFrom(s, key, repl, lo), [s[lo]], ReplaceFrom(s, key, repl, lo + 1), s[lo + 1..hi], ReplaceFrom(s, key, repl, hi));
    }
  }

  /** Where the key's expression matches nowhere, `replace` returns the text unchanged. */
  lemma ReplaceUnchanged(s: string, key: string, value: string)
    requires forall p :: 0 <= p <= |s| ==> KeyMatchAt(s, p, key).None?
    ensures ReplacePattern(s, key, value) == s
    ensures ReplaceLiteral(s, key, value) == s
  {
    ReplaceCopies(s, key, value, 0, |s|);
    ReplaceCopies(s, key, EscapeDollars(value), 0, |s|);
    assert s[0..|s|] == s;
  }

  /** A match of the key's expression that starts before a `{{` ends before it. */
  lemma KeyMatchEndsBeforeBraces(s: string, from: nat, p: nat, key: string)
    requires IsIdent(key) && from < p && p + 1 < |s| && s[p] == '{' && s[p + 1] == '{'
    requires KeyMatchAt(s, from, key).Some?
    ensures KeyMatchAt(s, from, key).value <= p
  {
    KeyMatchAgrees(s, from, key);
    MatchAtShape(s, from);
    PrintableNotWs('{');

  }

  /** The replacing scan stops at every `{{`: what it produces from `p` on is the tail of what it produces from `from`. */
  lemma {:induction false} ReplaceReaches(s: string, key: string, repl: string, from: nat, p: nat) returns (x: string)
    requires IsIdent(key) && from <= p && p + 1 < |s| && s[p] == '{' && s[p + 1] == '{'
    ensures ReplaceFrom(s, key, repl, from) == x + ReplaceFrom(s, key, repl, p)
    decreases p - from
  {
    if from == p {
      x := [];
    } else {
      var next, head := ReplaceStep(s, key, repl, from);
      var rest := [];
      if next < p {
        rest := ReplaceReaches(s, key, repl, next, p);
      }
      Chain(ReplaceFrom(s, key, repl, from), head, ReplaceFrom(s, key, repl, next), rest, ReplaceFrom(s, key, repl, p));
      x := head + rest;
    }
  }

  lemma Chain(a: string, head: string, b: string, rest: string, c: string)
    requires a == head + b && b == rest + c
    ensures a == (head + rest) + c
  {
  }

  /** One step of the replacing scan from `from`, which lands no later than the next `{{`. */
  lemma ReplaceStep(s: string, key: string, repl: string, from: nat) returns (next: nat, head: string)
    requires from < |s|
    ensures from < next <= |s|
    ensures ReplaceFrom(s, key, repl, from) == head + ReplaceFrom(s, key, repl, next)
    ensures IsIdent(key) ==> forall p :: from < p && p + 1 < |s| && s[p] == '{' && s[p + 1] == '{' ==> next <= p
  {
    match KeyMatchAt(s, from, key)
    case Some(e) =>
      next, head := e, Expand(repl, s[from..e], s[..from], s[e..]);
      if IsIdent(key) {
        forall p | from < p && p + 1 < |s| && s[p] == '{' && s[p + 1] == '{' ensures next <= p {
          KeyMatchEndsBeforeBraces(s, from, p, key);
        }
      }
    case None =>
      next, head := from + 1, [s[from]];
  }

  /** The placeholder `{{w1 name w2}}` stands in `s` at index `i`. */
  predicate PlaceholderAtIndex(s: string, i: nat, w1: string, name: string, w2: string) {
    AllWs(w1) && AllWs(w2) && IsIdent(name)
    && i + |Placeholder(w1, name, w2)| <= |s| && s[i..i + |Placeholder(w1, name, w2)|] == Placeholder(w1, name, w2)
  }

  /** Where a placeholder stands, the key's expression matches it exactly when its name is the key,
      and no match starts inside it. */
  lemma PlaceholderKeyMatch(s: string, i: nat, w1: string, name: string, w2: string, key: string)
    requires PlaceholderAtIndex(s, i, w1, name, w2) && IsIdent(key)
    ensures var e := i + |Placeholder(w1, name, w2)|;
      && KeyMatchAt(s, i, key) == (if name == key then Some(e) else None)
      && forall p :: i < p < e ==> KeyMatchAt(s, p, key).None?
  {
    var e := i + |Placeholder(w1, name, w2)|;
    assert IsPlaceholderText(s[i..e], name);
    MatchAtComplete(s, i, e, name);
    KeyMatchAgrees(s, i, key);
    PlaceholderAt(s, i, w1, name, w2);
    PrintableNotWs('{');
    forall p | i < p < e ensures KeyMatchAt(s, p, key).None? {
    }
  }

  /** At a match, the verbatim replacement puts the value itself. */
  lemma LiteralAtMatch(s: string, key: string, value: string, i: nat, e: nat)
    requires i < |s| && KeyMatchAt(s, i, key) == Some(e)
    ensures ReplaceFrom(s, key, EscapeDollars(value), i) == value + ReplaceFrom(s, key, EscapeDollars(value), e)
  {
    ExpandEscaped(value, s[i..e], s[..i], s[e..]);
  }

  /** A placeholder begins with `{{`. */
  lemma PlaceholderBraces(s: string, i: nat, w1: string, name: string, w2: string)
    requires PlaceholderAtIndex(s, i, w1, name, w2)
    ensures i + 1 < |s| && s[i] == '{' && s[i + 1] == '{'
  {
    var ph := Placeholder(w1, name, w2);
    assert s[i..i + |ph|][0] == ph[0] && s[i..i + |ph|][1] == ph[1];
  }

  /** The scan copies a placeholder of another name as it is, whatever the pattern. */
  lemma PlaceholderCopied(s: string, i: nat, w1: string, name: string, w2: string, key: string, repl: string)
    requires PlaceholderAtIndex(s, i, w1, name, w2) && IsIdent(key) && name != key
    ensures ReplaceFrom(s, key, repl, i) ==
      Placeholder(w1, name, w2) + ReplaceFrom(s, key, repl, i + |Placeholder(w1, name, w2)|)
  {
    var ph := Placeholder(w1, name, w2);
    var e := i + |ph|;
    PlaceholderKeyMatch(s, i, w1, name, w2, key);
    assert forall p :: i <= p < e ==> KeyMatchAt(s, p, key).None?;
    ReplaceCopies(s, key, repl, i, e);
    assert s[i..e] == ph;
  }

  /** The scan puts the value itself in place of a placeholder of the key. */
  lemma PlaceholderFilled(s: string, i: nat, w1: string, key: string, w2: string, value: string)
    requires PlaceholderAtIndex(s, i, w1, key, w2)
    ensures ReplaceFrom(s, key, EscapeDollars(value), i) ==
      value + ReplaceFrom(s, key, EscapeDollars(value), i + |Placeholder(w1, key, w2)|)
  {
    PlaceholderKeyMatch(s, i, w1, key, w2, key);
    LiteralAtMatch(s, key, value, i, i + |Placeholder(w1, key, w2)|);
  }

  /** A placeholder of `key` is replaced by the value, wherever it stands: the result is the
      replacement of the text before it, the value, and the replacement of the text after it. */
  lemma PlaceholderReplaced(s: string, i: nat, w1: string, key: string, w2: string, value: string)
    returns (x: string)
    requires PlaceholderAtIndex(s, i, w1, key, w2)
    ensures ReplaceLiteral(s, key, value) ==
      x + value + ReplaceFrom(s, key, EscapeDollars(value), i + |Placeholder(w1, key, w2)|)
  {
    var repl := EscapeDollars(value);
    PlaceholderBraces(s, i, w1, key, w2);
    x := ReplaceReaches(s, key, repl, 0, i);
    PlaceholderFilled(s, i, w1, key, w2, value);
  }

  lemma MiddleSlice(x: string, m: string, y: string)
    ensures (x + m + y)[|x|..|x| + |m|] == m
  {
  }

  /** A placeholder of any other name is left as it is, wherever it stands: it stands in the result at `j`. */
  lemma PlaceholderKept(s: string, i: nat, w1: string, name: string, w2: string, key: string, value: string)
    returns (j: nat)
    requires PlaceholderAtIndex(s, i, w1, name, w2) && IsIdent(key) && name != key
    ensures PlaceholderAtIndex(ReplaceLiteral(s, key, value), j, w1, name, w2)
  {
    var ph := Placeholder(w1, name, w2);
    var repl := EscapeDollars(value);
    PlaceholderBraces(s, i, w1, name, w2);
    var x := ReplaceReaches(s, key, repl, 0, i);
    PlaceholderCopied(s, i, w1, name, w2, key, repl);
    var y := ReplaceFrom(s, key, repl, i + |ph|);
    MiddleSlice(x, ph, y);
    j := |x|;
  }

  /** The third character of a match of the key's expression is whitespace or the key's first character. */
  lemma KeyMatchThirdChar(s: string, p: nat, key: string)
    requires p <= |s| && key != [] && KeyMatchAt(s, p, key).Some?
    ensures IsWs(s[p + 2]) || s[p + 2] == key[0]
  {
    var a := SkipWs(s, p + 2);
    SkipWsSpec(s, p + 2);
    if a == p + 2 {
      assert s[a..a + |key|][0] == key[0];
    }
  }

  /** One placeholder, with no match of the key's expression starting in the text around it:
      the placeholder becomes the value when its name is the key, and nothing else changes. */
  lemma ReplaceAround(s: string, i: nat, w1: string, name: string, w2: string, key: string, value: string)
    requires PlaceholderAtIndex(s, i, w1, name, w2) && IsIdent(key)
    requires forall p :: 0 <= p < i || i + |Placeholder(w1, name, w2)| <= p < |s| ==> KeyMatchAt(s, p, key).None?
    ensures ReplaceLiteral(s, key, value) ==
      s[..i] + (if name == key then value else Placeholder(w1, name, w2)) + s[i + |Placeholder(w1, name, w2)|..]
  {
    var ph := Placeholder(w1, name, w2);
    var e := i + |ph|;
    if name == key {
      PlaceholderKeyMatch(s, i, w1, name, w2, key);
      ReplaceSoleMatch(s, i, e, key, value);
    } else {
      PlaceholderKeyMatch(s, i, w1, name, w2, key);
      ReplaceUnchanged(s, key, value);
      assert s == s[..i] + s[i..e] + s[e..];
    }
  }

  /** The one match of the key's expression, from `i` to `e`: only it changes, into the value. */
  lemma ReplaceSoleMatch(s: string, i: nat, e: nat, key: string, value: string)
    requires i < e <= |s| && KeyMatchAt(s, i, key) == Some(e)
    requires forall p :: 0 <= p < i || e <= p < |s| ==> KeyMatchAt(s, p, key).None?
    ensures ReplaceLiteral(s, key, value) == s[..i] + value + s[e..]
  {
    var repl := EscapeDollars(value);
    ReplacePrefix(s, key, repl, i);
    LiteralAtMatch(s, key, value, i, e);
    ReplaceRest(s, key, repl, e);
    Chain3(ReplaceFrom(s, key, repl, 0), s[..i], ReplaceFrom(s, key, repl, i), value, ReplaceFrom(s, key, repl, e), s[e..]);
  }

  /** No match before `i`: the text up to `i` is copied. */
  lemma ReplacePrefix(s: string, key: string, repl: string, i: nat)
    requires i <= |s|
    requires forall p :: 0 <= p < i ==> KeyMatchAt(s, p, key).None?
    ensures ReplaceFrom(s, key, repl, 0) == s[..i] + ReplaceFrom(s, key, repl, i)
  {
    ReplaceCopies(s, key, repl, 0, i);
    assert s[0..i] == s[..i];
  }

  /** No match from `e` on: the rest of the text is copied. */
  lemma ReplaceRest(s: string, key: string, repl: string, e: nat)
    requires e <= |s|
    requires forall p :: e <= p < |s| ==> KeyMatchAt(s, p, key).None?
    ensures ReplaceFrom(s, key, repl, e) == s[e..]
  {
    ReplaceCopies(s, key, repl, e, |s|);
    assert s[e..|s|] == s[e..];
  }

  lemma Chain3(a: string, p: string, b: string, m: string, c: string, q: string)
    requires a == p + b && b == m + c && c == q
    ensures a == p + m + q
  {
  }

  /** With no `{` around it, the one placeholder of `key` becomes the value and nothing else changes. */
  lemma SoleReplacement(pre: string, w1: string, key: string, w2: string, post: string, value: string)
    requires AllWs(w1) && AllWs(w2) && IsIdent(key)
    requires '{' !in pre && '{' !in post
    ensures ReplaceLiteral(pre + Placeholder(w1, key, w2) + post, key, value) == pre + value + post
  {
    var ph := Placeholder(w1, key, w2);
    var s := pre + ph + post;
    var i, e := |pre|, |pre| + |ph|;
    assert s[..i] == pre && s[i..e] == ph && s[e..] == post;
    forall p | 0 <= p < i || e <= p < |s| ensures KeyMatchAt(s, p, key).None? {
      if p < i {
        assert s[p] == pre[p];
      } else {
        assert s[p] == post[p - e];
      }
    }
    ReplaceAround(s, i, w1, key, w2, key, value);
  }

  /** A text without `{{` is left unchanged by every key. */
  lemma BraceFreeUnchanged(s: string, key: string, value: string)
    requires forall p :: 0 <= p < |s| - 1 ==> !(s[p] == '{' && s[p + 1] == '{')
    ensures ReplacePattern(s, key, value) == s
    ensures ReplaceLiteral(s, key, value) == s
  {
    forall p | 0 <= p <= |s| ensures KeyMatchAt(s, p, key).None? {
      if p + 1 < |s| { assert !(s[p] == '{' && s[p + 1] == '{'); }
    }
    ReplaceUnchanged(s, key, value);
  }

  /** A placeholder wrapped in an extra pair of braces, `{{{{name}}}}`: the key of the
      inner name replaces the inner placeholder only, and any other key changes nothing. */
  lemma ReplaceBraced(name: string, key: string, value: string)
    requires IsIdent(name) && IsIdent(key)
    ensures ReplaceLiteral("{{" + Placeholder("", name, "") + "}}", key, value) ==
      if name == key then "{{" + value + "}}" else "{{" + Placeholder("", name, "") + "}}"
  {
    var ph := Placeholder("", name, "");
    var s := "{{" + ph + "}}";
    var e := 2 + |ph|;
    assert s[..2] == "{{" && s[2..e] == ph && s[e..] == "}}";
    PrintableNotWs('{');
    forall p | 0 <= p < 2 || e <= p < |s| ensures KeyMatchAt(s, p, key).None? {
      if p < 2 {
        assert s[p + 2] == '{';
        if KeyMatchAt(s, p, key).Some? {
          KeyMatchThirdChar(s, p, key);
        }
      } else {
        assert s[p] == '}';
      }
    }
    ReplaceAround(s, 2, "", name, "", key, value);
  }

  /** The preview: the template with each entry's replacement applied, in property order. */
  function Render(html: string, entries: Record): string
    decreases |entries|
  {
    if entries == [] then html
    else Render(ReplaceLiteral(html, entries[0].key, entries[0].value), entries[1..])
  }

  /** The same fold over `replace` as written, with values read as patterns. */
  function RenderAsWritten(html: string, entries: Record): string
    decreases |entries|
  {
    if entries == [] then html
    else RenderAsWritten(ReplacePattern(html, entries[0].key, entries[0].value), entries[1..])
  }

  /** When no value holds a `$`, the code as written renders the intended preview. */
  lemma {:induction false} RenderAgrees(html: string, entries: Record)
    requires forall i :: 0 <= i < |entries| ==> '$' !in entries[i].value
    ensures RenderAsWritten(html, entries) == Render(html, entries)
    decreases |entries|
  {
    if entries != [] {
      ReplaceAgrees(html, entries[0].key, entries[0].value);
      RenderAgrees(ReplacePattern(html, entries[0].key, entries[0].value), entries[1..]);
    }
  }

  /** `getProcessedHtml` as written: the loop over `Object.entries(variables)`, each value
      handed to `replace` as a pattern. When no value holds `$`, it shows the intended preview. */
  method RenderHtml(html: string, variables: Record) returns (processed: string)
    ensures processed == RenderAsWritten(html, variables)
    ensures (forall i :: 0 <= i < |variables| ==> '$' !in variables[i].value) ==> processed == Render(html, variables)
  {
    processed := html;
    var i := 0;
    while i < |variables|
      invariant i <= |variables|
      invariant RenderAsWritten(processed, variables[i..]) == RenderAsWritten(html, variables)
    {
      var key, value := variables[i].key, variables[i].value;
      assert variables[i..][1..] == variables[i + 1..];
      processed := ReplacePattern(processed, key, value);
      i := i + 1;
    }
    if forall i :: 0 <= i < |variables| ==> '$' !in variables[i].value {
      RenderAgrees(html, variables);
    }
  }

  /** A variable added last is filled in last: rendering with one more entry replaces its
      key in what the other entries rendered. */
  lemma {:induction false} RenderSnoc(html: string, entries: Record, key: string, value: string)
    ensures Render(html, entries + [Entry(key, value)]) == ReplaceLiteral(Render(html, entries), key, value)
    decreases |entries|
  {
    var e := Entry(key, value);
    if entries == [] {
      assert entries + [e] == [e];
      assert [e][1..] == [];
    } else {
      assert (entries + [e])[0] == entries[0];
      assert (entries + [e])[1..] == entries[1..] + [e];
      RenderSnoc(ReplaceLiteral(html, entries[0].key, entries[0].value), entries[1..], key, value);
    }
  }

  /** A template without `{{` is shown as it is, whatever the variables. */
  lemma {:induction false} RenderBraceFree(html: string, entries: Record)
    requires forall p :: 0 <= p < |html| - 1 ==> !(html[p] == '{' && html[p + 1] == '{')
    ensures Render(html, entries) == html
    decreases |entries|
  {
    if entries != [] {
      var e := entries[0];
      forall p | 0 <= p <= |html| ensures KeyMatchAt(html, p, e.key).None? {
        if p + 1 < |html| { assert !(html[p] == '{' && html[p + 1] == '{'); }
      }
      ReplaceUnchanged(html, e.key, e.value);
      RenderBraceFree(html, entries[1..]);
    }
  }

  /** A placeholder whose name has no entry survives rendering, when every key is an identifier:
      it stands in the preview at `j`. */
  lemma {:induction false} RenderKeepsUnfilled(html: string, i: nat, w1: string, name: string, w2: string,
                                               entries: Record) returns (j: nat)
    requires PlaceholderAtIndex(html, i, w1, name, w2) && name !in Keys(entries)
    requires forall k :: 0 <= k < |entries| ==> IsIdent(entries[k].key)
    ensures PlaceholderAtIndex(Render(html, entries), j, w1, name, w2)
    decreases |entries|
  {
    if entries == [] {
      j := i;
    } else {
      var e := entries[0];
      assert Keys(entries)[0] == e.key;
      var k := PlaceholderKept(html, i, w1, name, w2, e.key, e.value);
      KeysTail(entries);
      j := RenderKeepsUnfilled(ReplaceLiteral(html, e.key, e.value), k, w1, name, w2, entries[1..]);
    }
  }

  /** A placeholder filled with the value of its key shows the value, and the text around it stays. */
  lemma RenderFillsPlaceholder(pre: string, key: string, post: string, value: string)
    requires IsIdent(key) && '{' !in pre && '{' !in post
    ensures Render(pre + Placeholder("", key, "") + post, [Entry(key, value)]) == pre + value + post
  {
    SoleReplacement(pre, "", key, "", post, value);
  }

  /** A text that is one whole match is replaced by the expansion of the pattern alone. */
  lemma ReplaceWhole(s: string, key: string, repl: string)
    requires KeyMatchAt(s, 0, key) == Some(|s|)
    ensures ReplaceFrom(s, key, repl, 0) == Expand(repl, s, [], [])
  {
    assert s[0..|s|] == s && s[..0] == [] && s[|s|..] == [];
  }

  /** The finding: a value written `$&` puts the placeholder itself back, where the customer's text was meant. */
  lemma DollarPatternExample(key: string)
    requires IsIdent(key)
    ensures ReplacePattern(Placeholder("", key, ""), key, "$&") == Placeholder("", key, "")
    ensures ReplaceLiteral(Placeholder("", key, ""), key, "$&") == "$&"
  {
    var s := Placeholder("", key, "");
    assert PlaceholderAtIndex(s, 0, "", key, "") by {
      assert s[0..|s|] == s;
    }
    PlaceholderKeyMatch(s, 0, "", key, "", key);
    ReplaceWhole(s, key, "$&");
    ExpandMatched(s);
    ReplaceWhole(s, key, EscapeDollars("$&"));
    ExpandEscaped("$&", s, [], []);
  }

  /** The pattern `$&` stands for the match. */
  lemma ExpandMatched(m: string)
    ensures Expand("$&", m, [], []) == m
  {
    assert "$&"[TokenLength("$&")..] == [];
  }

  lemma RenderTwo(html: string, e1: Entry, e2: Entry)
    ensures Render(html, [e1, e2]) == ReplaceLiteral(ReplaceLiteral(html, e1.key, e1.value), e2.key, e2.value)
  {
    var r1 := ReplaceLiteral(html, e1.key, e1.value);
    assert [e1, e2][1..] == [e2];
    assert Render(html, [e1, e2]) == Render(r1, [e2]);
    assert [e2][1..] == [];
    assert Render(r1, [e2]) == Render(ReplaceLiteral(r1, e2.key, e2.value), []);
  }

  /** The pieces of the counterexample below, one replacement at a time. */
  lemma FillSole(x: string, v: string)
    requires IsIdent(x)
    ensures ReplaceLiteral(Placeholder("", x, ""), x, v) == v
  {
    assert "" + Placeholder("", x, "") + "" == Placeholder("", x, "");
    SoleReplacement("", "", x, "", "", v);
  }

  lemma NoBracesKept(v: string, a: string, x: string)
    requires '{' !in v
    ensures ReplaceLiteral(v, a, x) == v
  {
    forall p | 0 <= p < |v| - 1 ensures !(v[p] == '{' && v[p + 1] == '{') {
      assert v[p] in v;
    }
    BraceFreeUnchanged(v, a, x);
  }

  lemma InnerFilled(a: string, x: string)
    requires IsIdent(a) && IsIdent(x)
    ensures ReplaceLiteral("{{" + Placeholder("", a, "") + "}}", a, x) == Placeholder("", x, "")
  {
    ReplaceBraced(a, a, x);
  }

  /** Rendering is neither idempotent nor independent of the entry order. With entries
      `x: v` then `a: "x"`, the template `{{{{a}}}}` shows `{{x}}`; rendering that again,
      or rendering the template with the entries the other way round, shows `v`. */
  lemma RenderOrderCounterexample(a: string, x: string, v: string)
    requires IsIdent(a) && IsIdent(x) && a != x && '{' !in v
    ensures var t := "{{" + Placeholder("", a, "") + "}}";
      Render(t, [Entry(x, v), Entry(a, x)]) == Placeholder("", x, "")
      && Render(Placeholder("", x, ""), [Entry(x, v), Entry(a, x)]) == v
      && Render(t, [Entry(a, x), Entry(x, v)]) == v
      && v != Placeholder("", x, "")
  {
    var t := "{{" + Placeholder("", a, "") + "}}";
    var px := Placeholder("", x, "");
    ReplaceBraced(a, x, v);
    InnerFilled(a, x);
    FillSole(x, v);
    NoBracesKept(v, a, x);
    RenderTwo(t, Entry(x, v), Entry(a, x));
    RenderTwo(px, Entry(x, v), Entry(a, x));
    RenderTwo(t, Entry(a, x), Entry(x, v));
    assert px[0] == '{';
  }

  /** The exported document, up to the title element. */
  const DocHead: string := "\n            <!DOCTYPE html>\n            <html>\n            <head>\n                <meta charset=\"UTF-8\">\n                "
  /** From the title element to the theme rule. */
  const DocBody: string := "\n            </head>\n            <body style=\"display:flex;justify-content:center;background:#f1f5f9;padding:50px;\">\n                <style>"
  /** From the theme rule to the flyer's markup. */
  const DocFrame: string := "</style>\n                <div style=\"background:white;box-shadow:0 10px 25px rgba(0,0,0,0.1);\">"
  /** The closing of the document. */
  const DocTail: string := "</div>\n            </body>\n            </html>\n        "

  function TitleElement(fileName: string): string {
    "<title>" + fileName + "</title>"
  }

  /** The style rule that sets the `--theme-color` custom property. */
  function ThemeRule(themeColor: string): string {
    ":root{--theme-color: " + themeColor + ";}"
  }

  /** The standalone page `exportHtml` downloads: the file name as title, the theme colour
      as the `--theme-color` custom property, and the rendered flyer inside a centred card. */
  function ExportDocument(fileName: string, themeColor: string, content: string): string {
    DocHead + TitleElement(fileName) + DocBody + ThemeRule(themeColor) + DocFrame + content + DocTail
  }

  /** Everything the document holds before the flyer's markup. */
  function DocPrefix(fileName: string, themeColor: string): string {
    DocHead + TitleElement(fileName) + DocBody + ThemeRule(themeColor) + DocFrame
  }

  /** The flyer's markup read back out of an exported document, given its title and colour. */
  function ExportedContent(doc: string, fileName: string, themeColor: string): Option<string> {
    var pre := DocPrefix(fileName, themeColor);
    if |pre| + |DocTail| <= |doc| && doc[..|pre|] == pre && doc[|doc| - |DocTail|..] == DocTail
    then Some(doc[|pre|..|doc| - |DocTail|])
    else None
  }

  /** The exported document carries the flyer's markup verbatim. */
  lemma ExportRoundTrip(fileName: string, themeColor: string, content: string)
    ensures ExportedContent(ExportDocument(fileName, themeColor, content), fileName, themeColor) == Some(content)
  {
    var pre := DocPrefix(fileName, themeColor);
    var doc := ExportDocument(fileName, themeColor, content);
    assert doc == pre + content + DocTail;
    assert doc[..|pre|] == pre;
    assert doc[|doc| - |DocTail|..] == DocTail;
    assert doc[|pre|..|doc| - |DocTail|] == content;
  }

  /** Two exports with the same title and colour differ when the flyers differ. */
  lemma ExportInjective(fileName: string, themeColor: string, c1: string, c2: string)
    requires ExportDocument(fileName, themeColor, c1) == ExportDocument(fileName, themeColor, c2)
    ensures c1 == c2
  {
    ExportRoundTrip(fileName, themeColor, c1);
    ExportRoundTrip(fileName, themeColor, c2);
  }

  lemma SlicesOfConcat(a: string, b: string, c: string, d: string, e: string, f: string, g: string)
    ensures (a + b + c + d + e + f + g)[|a|..|a| + |b|] == b
    ensures (a + b + c + d + e + f + g)[|a| + |b| + |c|..|a| + |b| + |c| + |d|] == d
  {
    var s := a + b + c + d + e + f + g;
    assert s == a + b + (c + d + e + f + g);
    assert s == (a + b + c) + d + (e + f + g);
  }

  /** The document titles itself with the file name and declares the theme colour. */
  lemma ExportDeclaresThemeAndTitle(fileName: string, themeColor: string, content: string)
    ensures var doc := ExportDocument(fileName, themeColor, content);
      var t := |DocHead|;
      var c := |DocHead| + |TitleElement(fileName)| + |DocBody|;
      doc[t..t + |TitleElement(fileName)|] == TitleElement(fileName)
      && doc[c..c + |ThemeRule(themeColor)|] == ThemeRule(themeColor)
  {
    SlicesOfConcat(DocHead, TitleElement(fileName), DocBody, ThemeRule(themeColor), DocFrame, content, DocTail);
  }

  /** The download names of the two exports. */
  function HtmlFileName(fileName: string): string {
    fileName + ".html"
  }

  function PngFileName(fileName: string): string {
    fileName + ".png"
  }

  /** Both exports are named after the flyer, with different extensions, so they never overwrite each other. */
  lemma DownloadNamesDiffer(fileName: string)
    ensures HtmlFileName(fileName)[..|fileName|] == fileName == PngFileName(fileName)[..|fileName|]
    ensures HtmlFileName(fileName) != PngFileName(fileName)
  {
    assert |HtmlFileName(fileName)| != |PngFileName(fileName)|;
  }
}
