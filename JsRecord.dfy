/**
 * The `Record<string, string>` that holds the customer's variables, as a
 * JavaScript plain object. An object keeps its own properties in a fixed
 * order: keys that are array indices ("0", "1", ..., "4294967294") first, in
 * ascending numeric order, then every other key in the order it was created.
 * `Object.entries` lists the properties in that order, and the object spread
 * `{ ...prev, [key]: value }` rebuilds it in that order. A `Record` here is
 * the list of entries in that order.
 */
module JsRecord {
  import opened Wrappers

  datatype Entry = Entry(key: string, value: string)

  /** The own properties of an object, in property order. */
  type Record = seq<Entry>

  function Keys(r: Record): (ks: seq<string>)
    ensures |ks| == |r| && forall i :: 0 <= i < |r| ==> ks[i] == r[i].key
  {
    seq(|r|, i requires 0 <= i < |r| => r[i].key)
  }

  predicate IsDigit(c: char) {
    '0' <= c <= '9'
  }

  /** The value of a string of decimal digits. */
  function DecimalValue(s: string): nat
    requires forall i :: 0 <= i < |s| ==> IsDigit(s[i])
  {
    if s == [] then 0
    else
      assert IsDigit(s[|s| - 1]);
      10 * DecimalValue(s[..|s| - 1]) + (s[|s| - 1] as int - '0' as int)
  }

  /** Digits with no leading zero, except for "0" itself. */
  predicate IsCanonicalDecimal(s: string) {
    |s| > 0 && (forall i :: 0 <= i < |s| ==> IsDigit(s[i])) && (|s| == 1 || s[0] != '0')
  }

  /** An array index: the canonical decimal form of an integer below 2^32 - 1. */
  predicate IsArrayIndex(k: string) {
    IsCanonicalDecimal(k) && DecimalValue(k) < 0xFFFF_FFFF
  }

  function Pow10(n: nat): (p: nat)
    ensures p >= 1
  {
    if n == 0 then 1 else 10 * Pow10(n - 1)
  }

  /** A canonical decimal of `n` digits lies in [10^(n-1), 10^n), or is 0. */
  lemma {:induction false} DecimalValueBounds(s: string)
    requires forall i :: 0 <= i < |s| ==> IsDigit(s[i])
    ensures DecimalValue(s) < Pow10(|s|)
    ensures |s| > 0 && s[0] != '0' ==> DecimalValue(s) >= Pow10(|s| - 1)
    decreases |s|
  {
    if s != [] {
      var init := s[..|s| - 1];
      DecimalValueBounds(init);
      if |s| > 1 && s[0] != '0' {
        assert init[0] == s[0];
      }
    }
  }

  lemma {:induction false} Pow10Monotone(m: nat, n: nat)
    requires m <= n
    ensures Pow10(m) <= Pow10(n)
    decreases n
  {
    if m < n {
      Pow10Monotone(m, n - 1);
    }
  }

  /** Two canonical decimals with the same value are the same string. */
  lemma {:induction false} CanonicalDecimalInjective(s: string, t: string)
    requires IsCanonicalDecimal(s) && IsCanonicalDecimal(t)
    requires DecimalValue(s) == DecimalValue(t)
    ensures s == t
    decreases |s|
  {
    DecimalValueBounds(s);
    DecimalValueBounds(t);
    if |s| < |t| {
      Pow10Monotone(|s|, |t| - 1);
      assert false;
    } else if |t| < |s| {
      Pow10Monotone(|t|, |s| - 1);
      assert false;
    } else if |s| > 1 {
      var si, ti := s[..|s| - 1], t[..|t| - 1];
      assert si[0] == s[0] && ti[0] == t[0];
      assert IsCanonicalDecimal(si) && IsCanonicalDecimal(ti);
      CanonicalDecimalInjective(si, ti);
      assert s == si + [s[|s| - 1]] && t == ti + [t[|t| - 1]];
    }
  }

  predicate Distinct(ks: seq<string>) {
    forall i, j :: 0 <= i < j < |ks| ==> ks[i] != ks[j]
  }

  /** Array-index keys come before every other key, in ascending numeric order. */
  predicate IndexKeysFirst(ks: seq<string>) {
    forall i, j :: 0 <= i < j < |ks| && IsArrayIndex(ks[j]) ==>
      IsArrayIndex(ks[i]) && DecimalValue(ks[i]) < DecimalValue(ks[j])
  }

  /** Distinct keys, in property order. */
  predicate WellFormed(r: Record) {
    Distinct(Keys(r)) && IndexKeysFirst(Keys(r))
  }

  /** `obj[key]` for an own property: its value, or `None` when the object has no such key. */
  function Get(r: Record, k: string): (v: Option<string>)
    ensures v.None? <==> k !in Keys(r)
    ensures v.Some? ==> Entry(k, v.value) in r
  {
    if r == [] then None
    else if r[0].key == k then Some(r[0].value)
    else Get(r[1..], k)
  }

  /** With distinct keys, every entry's key reads that entry's value. */
  lemma {:induction false} GetEntry(r: Record, i: nat)
    requires Distinct(Keys(r)) && i < |r|
    ensures Get(r, r[i].key) == Some(r[i].value)
  {
    if i > 0 {
      var ks := Keys(r);
      assert ks[0] != ks[i];
      assert Keys(r[1..]) == ks[1..];
      assert r[1..][i - 1] == r[i];
      GetEntry(r[1..], i - 1);
    }
  }

  /** The value of an existing key, written in place. */
  function SetValue(r: Record, k: string, v: string): (r': Record)
    ensures Keys(r') == Keys(r)
  {
    if r == [] then []
    else if r[0].key == k then [Entry(k, v)] + r[1..]
    else [r[0]] + SetValue(r[1..], k, v)
  }

  /** A new array-index key, placed among the array-index keys by its value. */
  function InsertIndex(r: Record, k: string, v: string): Record
    requires IsArrayIndex(k)
  {
    if r == [] || !IsArrayIndex(r[0].key) || DecimalValue(k) < DecimalValue(r[0].key) then [Entry(k, v)] + r
    else [r[0]] + InsertIndex(r[1..], k, v)
  }

  /** `{ ...r, [k]: v }`: an existing key keeps its place and takes the new value; a new
      array index goes to its numeric place; any other new key goes last. */
  function Put(r: Record, k: string, v: string): Record {
    if k in Keys(r) then SetValue(r, k, v)
    else if IsArrayIndex(k) then InsertIndex(r, k, v)
    else r + [Entry(k, v)]
  }

  lemma KeysCons(e: Entry, r: Record)
    ensures Keys([e] + r) == [e.key] + Keys(r)
  {
  }

  lemma KeysTail(r: Record)
    requires r != []
    ensures Keys(r) == [r[0].key] + Keys(r[1..])
  {
  }

  lemma {:induction false} GetSetValue(r: Record, k: string, v: string, j: string)
    requires k in Keys(r)
    ensures Get(SetValue(r, k, v), j) == if j == k then Some(v) else Get(r, j)
    decreases |r|
  {
    if r[0].key != k {
      KeysTail(r);
      GetSetValue(r[1..], k, v, j);
    }
  }

  lemma {:induction false} InsertIndexKeys(r: Record, k: string, v: string)
    requires IsArrayIndex(k)
    ensures multiset(Keys(InsertIndex(r, k, v))) == multiset(Keys(r)) + multiset{k}
    ensures |InsertIndex(r, k, v)| == |r| + 1
    decreases |r|
  {
    if !(r == [] || !IsArrayIndex(r[0].key) || DecimalValue(k) < DecimalValue(r[0].key)) {
      InsertIndexKeys(r[1..], k, v);
      KeysCons(r[0], r[1..]);
      KeysCons(r[0], InsertIndex(r[1..], k, v));
      assert r == [r[0]] + r[1..];
    } else {
      KeysCons(Entry(k, v), r);
    }
  }

  lemma {:induction false} GetInsertIndex(r: Record, k: string, v: string, j: string)
    requires IsArrayIndex(k) && k !in Keys(r)
    ensures Get(InsertIndex(r, k, v), j) == if j == k then Some(v) else Get(r, j)
    decreases |r|
  {
    if !(r == [] || !IsArrayIndex(r[0].key) || DecimalValue(k) < DecimalValue(r[0].key)) {
      KeysTail(r);
      GetInsertIndex(r[1..], k, v, j);
    }
  }

  lemma {:induction false} GetAppend(r: Record, k: string, v: string, j: string)
    requires k !in Keys(r)
    ensures Get(r + [Entry(k, v)], j) == if j == k then Some(v) else Get(r, j)
    decreases |r|
  {
    if r != [] {
      assert (r + [Entry(k, v)])[1..] == r[1..] + [Entry(k, v)];
      KeysTail(r);
      GetAppend(r[1..], k, v, j);
    }
  }

  /** After `{ ...r, [k]: v }`, reading `k` gives `v` and every other key reads as before. */
  lemma GetPut(r: Record, k: string, v: string, j: string)
    ensures Get(Put(r, k, v), j) == if j == k then Some(v) else Get(r, j)
  {
    if k in Keys(r) {
      GetSetValue(r, k, v, j);
    } else if IsArrayIndex(k) {
      GetInsertIndex(r, k, v, j);
    } else {
      GetAppend(r, k, v, j);
    }
  }

  /** The update never removes a key and adds only `k`. */
  lemma PutKeys(r: Record, k: string, v: string)
    ensures forall j :: j in Keys(Put(r, k, v)) <==> j in Keys(r) || j == k
  {
    forall j ensures j in Keys(Put(r, k, v)) <==> j in Keys(r) || j == k {
      GetPut(r, k, v, j);
    }
  }

  /** Writing the same value twice is writing it once. */
  lemma PutIdempotent(r: Record, k: string, v: string)
    ensures Put(Put(r, k, v), k, v) == Put(r, k, v)
  {
    var r1 := Put(r, k, v);
    GetPut(r, k, v, k);
    SetValueSame(r1, k, v);
  }

  lemma {:induction false} SetValueSame(r: Record, k: string, v: string)
    requires Get(r, k) == Some(v)
    ensures SetValue(r, k, v) == r
    decreases |r|
  {
    if r[0].key != k {
      SetValueSame(r[1..], k, v);
    }
  }

  /** Updating an existing key keeps the key order; adding a key that is not an array index appends it. */
  lemma PutOrder(r: Record, k: string, v: string)
    ensures k in Keys(r) ==> Keys(Put(r, k, v)) == Keys(r)
    ensures k !in Keys(r) && !IsArrayIndex(k) ==> Keys(Put(r, k, v)) == Keys(r) + [k]
  {
    if k !in Keys(r) && !IsArrayIndex(k) {
      assert Keys(r + [Entry(k, v)]) == Keys(r) + [k];
    }
  }

  /** A key may go in front of a well-formed key list when it is new and comes first in property order. */
  lemma ConsWellFormed(h: string, ks: seq<string>)
    requires Distinct(ks) && IndexKeysFirst(ks) && h !in ks
    requires forall x :: x in ks && IsArrayIndex(x) ==> IsArrayIndex(h) && DecimalValue(h) < DecimalValue(x)
    ensures Distinct([h] + ks) && IndexKeysFirst([h] + ks)
  {
    var ks' := [h] + ks;
    forall i, j | 0 <= i < j < |ks'|
      ensures ks'[i] != ks'[j]
      ensures IsArrayIndex(ks'[j]) ==> IsArrayIndex(ks'[i]) && DecimalValue(ks'[i]) < DecimalValue(ks'[j])
    {
      assert ks'[j] == ks[j - 1] && ks'[j] in ks;
      if i > 0 {
        assert ks'[i] == ks[i - 1];
      }
    }
  }

  lemma WellFormedTail(r: Record)
    requires r != [] && WellFormed(r)
    ensures WellFormed(r[1..]) && r[0].key !in Keys(r[1..])
    ensures forall x :: x in Keys(r[1..]) && IsArrayIndex(x) ==>
      IsArrayIndex(r[0].key) && DecimalValue(r[0].key) < DecimalValue(x)
  {
    KeysTail(r);
    assert Keys(r)[1..] == Keys(r[1..]);
    OrderedTail(Keys(r));
  }

  /** Dropping the first key keeps the keys distinct and in order; the first key is not among the rest and precedes them. */
  lemma OrderedTail(ks: seq<string>)
    requires ks != [] && Distinct(ks) && IndexKeysFirst(ks)
    ensures Distinct(ks[1..]) && IndexKeysFirst(ks[1..]) && ks[0] !in ks[1..]
    ensures forall x :: x in ks[1..] && IsArrayIndex(x) ==> IsArrayIndex(ks[0]) && DecimalValue(ks[0]) < DecimalValue(x)
  {
    var t := ks[1..];
    forall x | x in t && IsArrayIndex(x) ensures IsArrayIndex(ks[0]) && DecimalValue(ks[0]) < DecimalValue(x) {
      var j :| 0 <= j < |t| && t[j] == x;
      assert ks[j + 1] == x;
    }
    forall j | 0 <= j < |t| ensures t[j] != ks[0] {
      assert ks[j + 1] == t[j];
    }
  }

  lemma {:induction false} InsertIndexWellFormed(r: Record, k: string, v: string)
    requires WellFormed(r) && IsArrayIndex(k) && k !in Keys(r)
    ensures WellFormed(InsertIndex(r, k, v))
    decreases |r|
  {
    if r == [] {
    } else if !IsArrayIndex(r[0].key) || DecimalValue(k) < DecimalValue(r[0].key) {
      var ks := Keys(r);
      forall x | x in ks && IsArrayIndex(x) ensures DecimalValue(k) < DecimalValue(x) {
        var j :| 0 <= j < |ks| && ks[j] == x;
        assert ks[0] == r[0].key;
      }
      ConsWellFormed(k, ks);
      KeysCons(Entry(k, v), r);
    } else {
      KeysTail(r);
      WellFormedTail(r);
      InsertIndexWellFormed(r[1..], k, v);
      InsertIndexAfterHead(r, k, v);
    }
  }

  lemma InsertIndexAfterHead(r: Record, k: string, v: string)
    requires r != [] && WellFormed(r) && IsArrayIndex(k) && k !in Keys(r)
    requires IsArrayIndex(r[0].key) && DecimalValue(k) >= DecimalValue(r[0].key)
    requires WellFormed(r[1..]) && r[0].key !in Keys(r[1..])
    requires forall x :: x in Keys(r[1..]) && IsArrayIndex(x) ==> DecimalValue(r[0].key) < DecimalValue(x)
    requires WellFormed(InsertIndex(r[1..], k, v))
    ensures WellFormed(InsertIndex(r, k, v))
  {
    var h := r[0].key;
    KeysTail(r);
    var ks := Keys(r[1..]);
    InsertIndexKeys(r[1..], k, v);
    var tail := InsertIndex(r[1..], k, v);
    assert DecimalValue(h) < DecimalValue(k) by {
      if DecimalValue(h) == DecimalValue(k) {
        CanonicalDecimalInjective(k, h);
      }
    }
    forall x | x in Keys(tail) && IsArrayIndex(x) ensures DecimalValue(h) < DecimalValue(x) {
      assert x in multiset(Keys(tail));
    }
    assert h !in multiset(Keys(tail));
    ConsWellFormed(h, Keys(tail));
    KeysCons(r[0], tail);
  }

  /** The update keeps the object's keys distinct and in property order. */
  lemma PutWellFormed(r: Record, k: string, v: string)
    requires WellFormed(r)
    ensures WellFormed(Put(r, k, v))
  {
    if k in Keys(r) {
    } else if IsArrayIndex(k) {
      InsertIndexWellFormed(r, k, v);
    } else {
      assert Keys(r + [Entry(k, v)]) == Keys(r) + [k];
    }
  }

}
