/**
 * The character classes and string built-ins the flyer generator relies on:
 * the `\s` class of its regular expressions, `String.prototype.trim`,
 * ASCII `toUpperCase` / `toLowerCase` and the one-character `replace(/_/g, ' ')`.
 */
module Text {

  /** The characters matched by `\s` and removed by `trim()`: the ECMAScript
      WhiteSpace and LineTerminator code points, as ranges of code points. */
  predicate IsWs(c: char) {
    InRanges(c as int, WsRanges)
  }

  const WsRanges: seq<(int, int)> := [(0x09, 0x0D), (0x20, 0x20), (0xA0, 0xA0), (0x1680, 0x1680),
    (0x2000, 0x200A), (0x2028, 0x2029), (0x202F, 0x202F), (0x205F, 0x205F), (0x3000, 0x3000), (0xFEFF, 0xFEFF)]

  predicate InRanges(n: int, rs: seq<(int, int)>) {
    rs != [] && ((rs[0].0 <= n <= rs[0].1) || InRanges(n, rs[1..]))
  }

  lemma {:induction false} InRangesAvoids(n: int, rs: seq<(int, int)>, lo: int, hi: int)
    requires forall k :: 0 <= k < |rs| ==> rs[k].1 < lo || hi < rs[k].0
    requires lo <= n <= hi
    ensures !InRanges(n, rs)
  {
    if rs != [] {
      InRangesAvoids(n, rs[1..], lo, hi);
    }
  }

  /** No printable ASCII character, from `!` to `~`, is whitespace. */
  lemma PrintableNotWs(c: char)
    requires '!' <= c <= '~'
    ensures !IsWs(c)
  {
    InRangesAvoids(c as int, WsRanges, 0x21, 0x7E);
  }

  /** The characters of the class `[a-zA-Z0-9_]`; none of them is whitespace. */
  predicate IsIdentChar(c: char): (b: bool)
    ensures b ==> !IsWs(c)
  {
    var b := ('a' <= c <= 'z') || ('A' <= c <= 'Z') || ('0' <= c <= '9') || c == '_';
    if b then PrintableNotWs(c); b else b
  }

  predicate AllWs(s: string) {
    forall i :: 0 <= i < |s| ==> IsWs(s[i])
  }

  predicate HasWs(s: string) {
    exists i :: 0 <= i < |s| && IsWs(s[i])
  }

  /** A non-empty word of `[a-zA-Z0-9_]+`. */
  predicate IsIdent(s: string) {
    |s| > 0 && forall i :: 0 <= i < |s| ==> IsIdentChar(s[i])
  }

  /** The end of the run of whitespace that starts at `i` (a greedy `\s*`). */
  function SkipWs(s: string, i: nat): (k: nat)
    requires i <= |s|
    ensures i <= k <= |s|
    decreases |s| - i
  {
    if i < |s| && IsWs(s[i]) then SkipWs(s, i + 1) else i
  }

  /** `SkipWs` passes over whitespace only, and stops at the first character that is not. */
  lemma {:induction false} SkipWsSpec(s: string, i: nat)
    requires i <= |s|
    ensures forall p :: i <= p < SkipWs(s, i) ==> IsWs(s[p])
    ensures SkipWs(s, i) == |s| || !IsWs(s[SkipWs(s, i)])
    decreases |s| - i
  {
    if i < |s| && IsWs(s[i]) {
      SkipWsSpec(s, i + 1);
    }
  }

  /** A greedy `\s*` stops at the only place it can. */
  lemma SkipWsAt(s: string, i: nat, k: nat)
    requires i <= k <= |s|
    requires forall p :: i <= p < k ==> IsWs(s[p])
    requires k == |s| || !IsWs(s[k])
    ensures SkipWs(s, i) == k
    decreases k - i
  {
    if i < k {
      SkipWsAt(s, i + 1, k);
    }
  }

  /** The start of the run of whitespace that ends at `j`. */
  function WsRunStart(s: string, j: nat): (k: nat)
    requires j <= |s|
    ensures k <= j
  {
    if j > 0 && IsWs(s[j - 1]) then WsRunStart(s, j - 1) else j
  }

  /** `WsRunStart` passes back over whitespace only, and stops after the last character that is not. */
  lemma {:induction false} WsRunStartSpec(s: string, j: nat)
    requires j <= |s|
    ensures forall p :: WsRunStart(s, j) <= p < j ==> IsWs(s[p])
    ensures WsRunStart(s, j) == 0 || !IsWs(s[WsRunStart(s, j) - 1])
  {
    if j > 0 && IsWs(s[j - 1]) {
      WsRunStartSpec(s, j - 1);
    }
  }

  /** The run of whitespace ending at `j` starts at the only place it can. */
  lemma WsRunStartAt(s: string, k: nat, j: nat)
    requires k <= j <= |s|
    requires forall p :: k <= p < j ==> IsWs(s[p])
    requires k == 0 || !IsWs(s[k - 1])
    ensures WsRunStart(s, j) == k
    decreases j - k
  {
    if k < j {
      WsRunStartAt(s, k, j - 1);
    }
  }

  /** `String.prototype.trim`: leading and trailing whitespace removed. */
  function Trim(s: string): (r: string)
    ensures |r| <= |s|
    ensures r != [] ==> !IsWs(r[0]) && !IsWs(r[|r| - 1])
    ensures r == [] <==> AllWs(s)
  {
    var a := SkipWs(s, 0);
    SkipWsSpec(s, 0);
    if a == |s| then
      []
    else
      var b := WsRunStart(s, |s|);
      WsRunStartSpec(s, |s|);
      assert a < b;
      s[a..b]
  }

  /** `trim` removes exactly the surrounding whitespace: it is the inverse of
      padding a word that neither starts nor ends with whitespace. */
  lemma TrimPadded(w1: string, x: string, w2: string)
    requires AllWs(w1) && AllWs(w2)
    requires x != [] ==> !IsWs(x[0]) && !IsWs(x[|x| - 1])
    ensures Trim(w1 + x + w2) == x
  {
    var s := w1 + x + w2;
    if x == [] {
      assert AllWs(s) by {
        forall p | 0 <= p < |s| ensures IsWs(s[p]) {
          if p < |w1| { assert s[p] == w1[p]; } else { assert s[p] == w2[p - |w1|]; }
        }
      }
    } else {
      forall p | 0 <= p < |w1| ensures IsWs(s[p]) { assert s[p] == w1[p]; }
      assert s[|w1|] == x[0];
      SkipWsAt(s, 0, |w1|);
      var b := |w1| + |x|;
      forall p | b <= p < |s| ensures IsWs(s[p]) { assert s[p] == w2[p - b]; }
      assert s[b - 1] == x[|x| - 1];
      WsRunStartAt(s, b, |s|);
      assert s[|w1|..b] == x;
    }
  }

  function UpperChar(c: char): (u: char)
    ensures IsWs(u) <==> IsWs(c)
  {
    if 'a' <= c <= 'z' then PrintableNotWs(c); PrintableNotWs((c as int - 32) as char); (c as int - 32) as char else c
  }

  function LowerChar(c: char): char {
    if 'A' <= c <= 'Z' then (c as int + 32) as char else c
  }

  /** `toUpperCase` on the ASCII letters; every other character is kept. */
  function ToUpper(s: string): (r: string)
    ensures |r| == |s|
    ensures forall i :: 0 <= i < |r| ==> !('a' <= r[i] <= 'z')
    ensures forall i :: 0 <= i < |r| ==> (IsWs(r[i]) <==> IsWs(s[i]))
    ensures forall i :: 0 <= i < |r| ==> ('A' <= s[i] <= 'Z' || !IsAsciiLetter(s[i]) ==> r[i] == s[i])
    ensures forall i :: 0 <= i < |r| && 'a' <= s[i] <= 'z' ==> 'A' <= r[i] <= 'Z' && r[i] as int == s[i] as int - 32
  {
    seq(|s|, i requires 0 <= i < |s| => UpperChar(s[i]))
  }

  predicate IsAsciiLetter(c: char) {
    ('a' <= c <= 'z') || ('A' <= c <= 'Z')
  }

  /** `toLowerCase` on the ASCII letters; every other character is kept. */
  function ToLower(s: string): (r: string)
    ensures |r| == |s|
    ensures forall i :: 0 <= i < |r| ==> !('A' <= r[i] <= 'Z')
    ensures forall i :: 0 <= i < |r| ==> ('a' <= s[i] <= 'z' || !IsAsciiLetter(s[i]) ==> r[i] == s[i])
    ensures forall i :: 0 <= i < |r| && 'A' <= s[i] <= 'Z' ==> 'a' <= r[i] <= 'z' && r[i] as int == s[i] as int + 32
  {
    seq(|s|, i requires 0 <= i < |s| => LowerChar(s[i]))
  }

  /** `s.replace(/x/g, y)` for a single character `x`: no `x` is left, each one stands as a `y`
      in its place, and every other character stays where it was. */
  function ReplaceChar(s: string, x: char, y: char): (r: string)
    ensures |r| == |s|
    ensures x != y ==> x !in r
    ensures forall i :: 0 <= i < |s| && s[i] == x ==> r[i] == y
    ensures forall i :: 0 <= i < |s| && s[i] != x ==> r[i] == s[i]
    ensures forall c :: c in r ==> c == y || c in s
  {
    seq(|s|, i requires 0 <= i < |s| => if s[i] == x then y else s[i])
  }

  /** Replacing `x` by `y` is undone by replacing `y` by `x` when `y` did not occur. */
  lemma ReplaceCharInverse(s: string, x: char, y: char)
    requires y !in s
    ensures ReplaceChar(ReplaceChar(s, x, y), y, x) == s
  {
    var r := ReplaceChar(ReplaceChar(s, x, y), y, x);
    forall i | 0 <= i < |s| ensures r[i] == s[i] {
      assert s[i] != y;
    }
  }
}
