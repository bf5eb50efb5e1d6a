/**
 * The few JavaScript built-ins the argument parser relies on, written out over
 * Dafny strings (`seq<char>`): `String.prototype.startsWith`, `indexOf`,
 * `split` with a one-character separator, the global `parseInt` (ECMA-262,
 * section 19.2.5) and the key/value semantics of object spread.
 */
module Js {
  import opened Wrappers

  /** `s.startsWith(p)`. */
  predicate StartsWith(s: string, p: string) {
    |p| <= |s| && s[..|p|] == p
  }

  /** `startsWith` compares character by character: `p` is no longer than `s` and agrees with its start. */
  lemma StartsWithPointwise(s: string, p: string)
    ensures StartsWith(s, p) <==> |p| <= |s| && forall k :: 0 <= k < |p| ==> s[k] == p[k]
  {
    if |p| <= |s| && forall k :: 0 <= k < |p| ==> s[k] == p[k] {
      assert s[..|p|] == p;
    }
  }

  /** `s.indexOf(x)`: the position of the first `x` in `s`, or -1 when there is none. */
  function IndexOf<T(==)>(s: seq<T>, x: T): (i: int)
    ensures -1 <= i < |s|
    ensures i == -1 <==> x !in s
    ensures 0 <= i ==> s[i] == x && x !in s[..i]
  {
    if s == [] then -1
    else if s[0] == x then 0
    else
      var j := IndexOf(s[1..], x);
      if j == -1 then -1
      else
        assert s[..j + 1] == [s[0]] + s[1..][..j];
        j + 1
  }

  /** Reference inverse of `Split`: `parts.join(sep)`. */
  function Join(parts: seq<string>, sep: char): string
    requires |parts| >= 1
  {
    if |parts| == 1 then parts[0] else parts[0] + [sep] + Join(parts[1..], sep)
  }

  /**
   * `s.split(sep)` for a one-character separator: the pieces of `s` between
   * successive occurrences of `sep`, so there is always one more piece than
   * there are separators.
   */
  function Split(s: string, sep: char): (parts: seq<string>)
    ensures |parts| >= 1
    ensures |parts| == 1 <==> sep !in s
    ensures forall k :: 0 <= k < |parts| ==> sep !in parts[k]
    ensures Join(parts, sep) == s
    decreases |s|
  {
    var i := IndexOf(s, sep);
    if i < 0 then [s]
    else
      var rest := Split(s[i + 1..], sep);
      SplitPieces(s, sep, i, rest);
      [s[..i]] + rest
  }

  /** The pieces before and after the first separator make up a split of `s`. */
  lemma SplitPieces(s: string, sep: char, i: nat, rest: seq<string>)
    requires i < |s| && s[i] == sep && sep !in s[..i]
    requires |rest| >= 1 && Join(rest, sep) == s[i + 1..]
    requires forall k :: 0 <= k < |rest| ==> sep !in rest[k]
    ensures var parts := [s[..i]] + rest;
      |parts| > 1 && Join(parts, sep) == s
      && forall k :: 0 <= k < |parts| ==> sep !in parts[k]
  {
    var parts := [s[..i]] + rest;
    assert parts[0] == s[..i] && parts[1..] == rest;
    assert s == s[..i] + [sep] + s[i + 1..];
  }

  /** The first piece of a split ends at the first separator. */
  lemma {:induction false} SplitAtFirst(head: string, sep: char, tail: string)
    requires sep !in head
    ensures Split(head + [sep] + tail, sep) == [head] + Split(tail, sep)
  {
    var s := head + [sep] + tail;
    var i := IndexOf(s, sep);
    assert s[|head|] == sep;
    assert i == |head|;
    assert s[..i] == head;
    assert s[i + 1..] == tail;
  }

  /** `Split` undoes `Join` whenever no piece holds the separator. */
  lemma {:induction false} SplitJoin(parts: seq<string>, sep: char)
    requires |parts| >= 1
    requires forall k :: 0 <= k < |parts| ==> sep !in parts[k]
    ensures Split(Join(parts, sep), sep) == parts
    decreases |parts|
  {
    if |parts| == 1 {
      assert sep !in parts[0];
    } else {
      assert sep !in parts[0];
      SplitJoin(parts[1..], sep);
      SplitAtFirst(parts[0], sep, Join(parts[1..], sep));
    }
  }

  // ----- parseInt -----

  /** The ASCII characters `parseInt` skips before the number: space, tab, LF, VT, FF, CR. */
  predicate IsWhiteSpace(c: char) {
    c == ' ' || '\t' <= c <= '\r'
  }

  /** The input with its leading white space removed. */
  function TrimStart(s: string): (t: string)
    ensures |t| <= |s| && t == s[|s| - |t|..]
    ensures t == [] || !IsWhiteSpace(t[0])
    ensures forall k :: 0 <= k < |s| - |t| ==> IsWhiteSpace(s[k])
  {
    if s != [] && IsWhiteSpace(s[0]) then TrimStart(s[1..]) else s
  }

  /** The value of `c` as a hexadecimal digit, or -1 when it is not one. */
  function DigitValue(c: char): (d: int)
    ensures -1 <= d < 16
  {
    if '0' <= c <= '9' then c as int - '0' as int
    else if 'a' <= c <= 'f' then c as int - 'a' as int + 10
    else if 'A' <= c <= 'F' then c as int - 'A' as int + 10
    else -1
  }

  /**
   * The digit values: `0`-`9` are 0-9, `a`-`f` and `A`-`F` are 10-15 in
   * either case, and every other character is no digit at all.
   */
  lemma DigitValues(c: char)
    ensures DigitValue(c) < 10 <==> !('a' <= c <= 'f' || 'A' <= c <= 'F')
    ensures '0' <= c <= '9' ==> DigitValue(c) == c as int - '0' as int
    ensures 'a' <= c <= 'f' ==> DigitValue(c) == c as int - 'a' as int + 10
    ensures 'A' <= c <= 'F' ==> DigitValue(c) == c as int - 'A' as int + 10
    ensures DigitValue(c) == -1 <==> !('0' <= c <= '9' || 'a' <= c <= 'f' || 'A' <= c <= 'F')
  {
  }

  predicate IsDigit(c: char, radix: nat) {
    0 <= DigitValue(c) < radix
  }

  /** Length of the longest prefix of `s` made of digits of the given radix. */
  function DigitRun(s: string, radix: nat): (n: nat)
    ensures n <= |s|
    ensures forall k :: 0 <= k < n ==> IsDigit(s[k], radix)
    ensures n == |s| || !IsDigit(s[n], radix)
  {
    if s != [] && IsDigit(s[0], radix) then 1 + DigitRun(s[1..], radix) else 0
  }

  /** Positional value of a digit string, most significant digit first. */
  function Magnitude(digits: string, radix: nat): nat
    requires forall k :: 0 <= k < |digits| ==> IsDigit(digits[k], radix)
  {
    if digits == [] then 0
    else
      var last := digits[|digits| - 1];
      var prefix := digits[..|digits| - 1];
      assert forall k :: 0 <= k < |prefix| ==> prefix[k] == digits[k];
      var m := Magnitude(prefix, radix);
      assert IsDigit(last, radix);
      ProductNat(m, radix);
      m * radix + DigitValue(last)
  }

  lemma ProductNat(a: nat, b: nat)
    ensures a * b >= 0
  {
  }

  /**
   * `parseInt(s)` with no radix: skip leading white space, take an optional
   * sign, switch to radix 16 after a `0x`/`0X` prefix, then read the longest
   * run of digits; `None` stands for NaN (no digit at all).
   */
  function ParseInt(s: string): Option<int> {
    ParseTrimmed(TrimStart(s))
  }

  /** The part of `parseInt` after the white space: optional sign, then the unsigned number. */
  function ParseTrimmed(t: string): Option<int> {
    if t != [] && t[0] == '-' then Negated(ParseUnsigned(t[1..]))
    else if t != [] && t[0] == '+' then ParseIntOfUnsigned(ParseUnsigned(t[1..]))
    else ParseIntOfUnsigned(ParseUnsigned(t))
  }

  /** `ParseUnsigned`'s result as a `parseInt` result. */
  function ParseIntOfUnsigned(r: Option<nat>): Option<int> {
    match r
    case None => None
    case Some(m) => Some(m as int)
  }

  /** `ParseUnsigned`'s result behind a `-` sign. */
  function Negated(r: Option<nat>): Option<int> {
    match r
    case None => None
    case Some(m) => Some(-(m as int))
  }

  /** The part of `parseInt` after the sign: radix prefix and digit run. */
  function ParseUnsigned(u: string): Option<nat> {
    var hex := |u| >= 2 && u[0] == '0' && (u[1] == 'x' || u[1] == 'X');
    var radix := if hex then 16 else 10;
    var w := if hex then u[2..] else u;
    var n := DigitRun(w, radix);
    if n == 0 then None else Some(Magnitude(w[..n], radix))
  }

  /** The decimal digit for `d`. */
  function DigitChar(d: nat): (c: char)
    requires d < 10
    ensures DigitValue(c) == d
  {
    ('0' as int + d) as char
  }

  /** Reference partner of `ParseInt`: the decimal text of a natural number, as `String(n)` writes it. */
  function DecimalText(n: nat): (s: string)
    ensures s != []
    ensures forall k :: 0 <= k < |s| ==> IsDigit(s[k], 10)
    ensures n > 0 ==> s[0] != '0'
    ensures Magnitude(s, 10) == n
  {
    if n < 10 then [DigitChar(n)]
    else
      var s := DecimalText(n / 10) + [DigitChar(n % 10)];
      assert s[..|s| - 1] == DecimalText(n / 10);
      s
  }

  /** A run of digits followed by a non-digit is read exactly up to the non-digit. */
  lemma {:induction false} DigitRunOf(w: string, rest: string, radix: nat)
    requires forall k :: 0 <= k < |w| ==> IsDigit(w[k], radix)
    requires rest == [] || !IsDigit(rest[0], radix)
    ensures DigitRun(w + rest, radix) == |w|
    ensures (w + rest)[..|w|] == w
  {
    if w != [] {
      assert (w + rest)[1..] == w[1..] + rest;
      DigitRunOf(w[1..], rest, radix);
    }
  }

  /** Reading the digits back: the run ends exactly where the decimal text ends. */
  lemma DigitRunOfDecimal(n: nat, rest: string)
    requires rest == [] || !IsDigit(rest[0], 10)
    ensures DigitRun(DecimalText(n) + rest, 10) == |DecimalText(n)|
    ensures (DecimalText(n) + rest)[..|DecimalText(n)|] == DecimalText(n)
  {
    DigitRunOf(DecimalText(n), rest, 10);
  }

  /** The unsigned part of `parseInt` reads a decimal text back up to the first non-digit. */
  lemma ParseUnsignedOfDecimal(m: nat, rest: string)
    requires rest == [] || (!IsDigit(rest[0], 10) && rest[0] != 'x' && rest[0] != 'X')
    ensures ParseUnsigned(DecimalText(m) + rest) == Some(m)
  {
    var d := DecimalText(m);
    var u := d + rest;
    DigitRunOfDecimal(m, rest);
    if |u| >= 2 && u[0] == '0' {
      assert m == 0 && |d| == 1;
      assert u[1] == rest[0];
    }
  }

  /**
   * `parseInt` reads back what `String(n)` writes, and stops at the first
   * character that is not a digit: `parseInt("5")` and `parseInt("5abc")` are 5.
   */
  lemma ParseIntOfDecimal(m: nat, rest: string)
    requires rest == [] || (!IsDigit(rest[0], 10) && rest[0] != 'x' && rest[0] != 'X')
    ensures ParseInt(DecimalText(m) + rest) == Some(m)
  {
    var u := DecimalText(m) + rest;
    assert IsDigit(u[0], 10);
    calc {
      ParseInt(u);
    == { ParseIntUnsigned(u); }
      ParseIntOfUnsigned(ParseUnsigned(u));
    == { ParseUnsignedOfDecimal(m, rest); }
      Some(m);
    }
  }

  /** Without leading white space or sign, `parseInt` is its unsigned part. */
  lemma ParseIntUnsigned(u: string)
    requires u != [] && IsDigit(u[0], 10)
    ensures ParseInt(u) == ParseIntOfUnsigned(ParseUnsigned(u))
  {
    assert !IsWhiteSpace(u[0]) && u[0] != '-' && u[0] != '+';
    TrimStartNoop(u);
  }

  /** A leading sign is read once: `-` negates what the rest reads as, `+` keeps it. */
  lemma ParseIntSigned(sign: char, u: string)
    requires sign == '-' || sign == '+'
    ensures ParseInt([sign] + u)
         == if sign == '-' then Negated(ParseUnsigned(u)) else ParseIntOfUnsigned(ParseUnsigned(u))
  {
    var s := [sign] + u;
    assert s[0] == sign && s[1..] == u;
    assert TrimStart(s) == s by {
      assert !IsWhiteSpace(s[0]);
      TrimStartNoop(s);
    }
  }

  /** A leading `-` negates what follows it. */
  lemma ParseIntOfNegative(m: nat, rest: string)
    requires rest == [] || (!IsDigit(rest[0], 10) && rest[0] != 'x' && rest[0] != 'X')
    ensures ParseInt(['-'] + (DecimalText(m) + rest)) == Some(-(m as int))
  {
    ParseIntSigned('-', DecimalText(m) + rest);
    ParseUnsignedOfDecimal(m, rest);
  }

  /** A leading `+` is skipped: `parseInt("+42")` is 42. */
  lemma ParseIntOfPlus(m: nat, rest: string)
    requires rest == [] || (!IsDigit(rest[0], 10) && rest[0] != 'x' && rest[0] != 'X')
    ensures ParseInt(['+'] + (DecimalText(m) + rest)) == Some(m)
  {
    ParseIntSigned('+', DecimalText(m) + rest);
    ParseUnsignedOfDecimal(m, rest);
  }

  /** Leading white space is skipped: `parseInt(" 42")` reads as `parseInt("42")`. */
  lemma ParseIntSkipsWhiteSpace(c: char, s: string)
    requires IsWhiteSpace(c)
    ensures ParseInt([c] + s) == ParseInt(s)
  {
    var cs := [c] + s;
    assert cs[0] == c && cs[1..] == s;
    calc {
      ParseInt(cs);
      ParseTrimmed(TrimStart(cs));
      { assert TrimStart(cs) == TrimStart(cs[1..]); }
      ParseTrimmed(TrimStart(s));
      ParseInt(s);
    }
  }

  /**
   * After `0x` or `0X` the digits are hexadecimal, read up to the first
   * character that is not one: `parseInt("0x1F")` is 31.
   */
  lemma ParseIntOfHex(x: char, w: string, rest: string)
    requires x == 'x' || x == 'X'
    requires w != [] && forall k :: 0 <= k < |w| ==> IsDigit(w[k], 16)
    requires rest == [] || !IsDigit(rest[0], 16)
    ensures ParseInt(['0', x] + (w + rest)) == Some(Magnitude(w, 16))
  {
    var v := w + rest;
    var s := ['0', x] + v;
    assert s[0] == '0' && IsDigit(s[0], 10);
    calc {
      ParseInt(s);
    == { ParseIntUnsigned(s); }
      ParseIntOfUnsigned(ParseUnsigned(s));
    == { assert s[1] == x && s[2..] == v;
         DigitRunOf(w, rest, 16); }
      Some(Magnitude(w, 16));
    }
  }

  /**
   * `parseInt` gives NaN exactly when, after white space and an optional sign,
   * no digit follows: no decimal digit at all, or nothing hexadecimal after `0x`.
   */
  lemma ParseIntNaN(s: string)
    ensures var t := TrimStart(s);
      var u := if t != [] && (t[0] == '-' || t[0] == '+') then t[1..] else t;
      ParseInt(s).None? <==> NoDigits(u)
  {
    var t := TrimStart(s);
    var u := if t != [] && (t[0] == '-' || t[0] == '+') then t[1..] else t;
    assert ParseInt(s).None? <==> ParseUnsigned(u).None?;
    ParseUnsignedNaN(u);
  }

  /** No digit where `parseInt` looks for one: none at all, or nothing hexadecimal after `0x`/`0X`. */
  predicate NoDigits(u: string) {
    u == [] || !IsDigit(u[0], 10)
    || (|u| >= 2 && u[0] == '0' && (u[1] == 'x' || u[1] == 'X') && (|u| == 2 || !IsDigit(u[2], 16)))
  }

  lemma ParseUnsignedNaN(u: string)
    ensures ParseUnsigned(u).None? <==> NoDigits(u)
  {
    if |u| >= 2 && u[0] == '0' && (u[1] == 'x' || u[1] == 'X') {
      assert IsDigit(u[0], 10);
      assert |u| > 2 ==> u[2..][0] == u[2];
    }
  }

  lemma TrimStartNoop(s: string)
    requires s == [] || !IsWhiteSpace(s[0])
    ensures TrimStart(s) == s
  {
  }

  // ----- object records -----

  /** A JavaScript object as its own-key entries, in `Object.entries` order. */
  type Record<V> = seq<(string, V)>

  /** The keys of a record. */
  function Keys<V>(rec: Record<V>): set<string> {
    if rec == [] then {} else {rec[0].0} + Keys(rec[1..])
  }

  /** No key occurs twice: every record an object literal can denote. */
  predicate Keyed<V>(rec: Record<V>) {
    rec == [] || (rec[0].0 !in Keys(rec[1..]) && Keyed(rec[1..]))
  }

  /** The value stored under `key`, if any. */
  function Lookup<V>(rec: Record<V>, key: string): Option<V> {
    if rec == [] then None
    else if rec[0].0 == key then Some(rec[0].1)
    else Lookup(rec[1..], key)
  }

  function LookupOr<V>(rec: Record<V>, key: string, default: V): V {
    match Lookup(rec, key)
    case None => default
    case Some(v) => v
  }

  /** `obj[key] = value`: an existing key keeps its place and takes the new value, a new key goes last. */
  function Put<V>(rec: Record<V>, key: string, value: V): (r: Record<V>)
    ensures Keys(r) == Keys(rec) + {key}
    ensures Lookup(r, key) == Some(value)
  {
    if rec == [] then [(key, value)]
    else if rec[0].0 == key then [(key, value)] + rec[1..]
    else [rec[0]] + Put(rec[1..], key, value)
  }

  /** `{ ...rec, ...src }`: the entries of `src` put into `rec` one by one, in their order. */
  function Spread<V>(rec: Record<V>, src: Record<V>): (r: Record<V>)
    ensures Keys(r) == Keys(rec) + Keys(src)
    decreases |src|
  {
    if src == [] then rec else Spread(Put(rec, src[0].0, src[0].1), src[1..])
  }

  /** Reference description of a spread, part one: each entry of `rec` with `src`'s value when `src` has its key. */
  function Overridden<V>(rec: Record<V>, src: Record<V>): Record<V> {
    if rec == [] then []
    else [(rec[0].0, LookupOr(src, rec[0].0, rec[0].1))] + Overridden(rec[1..], src)
  }

  /** Reference description of a spread, part two: the entries of `src` whose keys are not in `ks`, in order. */
  function Without<V>(src: Record<V>, ks: set<string>): Record<V> {
    if src == [] then []
    else (if src[0].0 in ks then [] else [src[0]]) + Without(src[1..], ks)
  }

  lemma {:induction false} PutAbsent<V>(rec: Record<V>, key: string, value: V)
    requires key !in Keys(rec)
    ensures Put(rec, key, value) == rec + [(key, value)]
  {
    if rec != [] {
      PutAbsent(rec[1..], key, value);
      assert rec == [rec[0]] + rec[1..];
    }
  }

  lemma {:induction false} PutPresentKeys<V>(rec: Record<V>, key: string, value: V)
    requires key in Keys(rec)
    ensures Keys(Put(rec, key, value)) == Keys(rec)
    ensures Keyed(rec) ==> Keyed(Put(rec, key, value))
  {
    if rec[0].0 != key {
      PutPresentKeys(rec[1..], key, value);
    }
  }

  lemma {:induction false} OverriddenIgnoresAbsent<V>(rec: Record<V>, key: string, value: V, src: Record<V>)
    requires key !in Keys(rec)
    ensures Overridden(rec, [(key, value)] + src) == Overridden(rec, src)
  {
    if rec != [] {
      OverriddenIgnoresAbsent(rec[1..], key, value, src);
      assert ([(key, value)] + src)[1..] == src;
    }
  }

  lemma {:induction false} OverriddenAppend<V>(rec: Record<V>, e: (string, V), src: Record<V>)
    ensures Overridden(rec + [e], src) == Overridden(rec, src) + [(e.0, LookupOr(src, e.0, e.1))]
  {
    if rec != [] {
      assert (rec + [e])[1..] == rec[1..] + [e];
      OverriddenAppend(rec[1..], e, src);
    }
  }

  lemma {:induction false} OverriddenPut<V>(rec: Record<V>, key: string, value: V, src: Record<V>)
    requires Keyed(rec) && key in Keys(rec) && key !in Keys(src)
    ensures Overridden(Put(rec, key, value), src) == Overridden(rec, [(key, value)] + src)
  {
    var src' := [(key, value)] + src;
    assert src'[1..] == src;
    if rec[0].0 == key {
      assert Lookup(src, key).None? by { LookupAbsent(src, key); }
      OverriddenIgnoresAbsent(rec[1..], key, value, src);
      assert Put(rec, key, value)[1..] == rec[1..];
    } else {
      OverriddenPut(rec[1..], key, value, src);
    }
  }

  lemma {:induction false} LookupAbsent<V>(rec: Record<V>, key: string)
    requires key !in Keys(rec)
    ensures Lookup(rec, key).None?
  {
    if rec != [] {
      LookupAbsent(rec[1..], key);
    }
  }

  lemma {:induction false} WithoutExtra<V>(src: Record<V>, ks: set<string>, key: string)
    requires key !in Keys(src)
    ensures Without(src, ks + {key}) == Without(src, ks)
  {
    if src != [] {
      WithoutExtra(src[1..], ks, key);
    }
  }

  /**
   * What a spread of two keyed records yields: the entries of `rec` in their
   * places, each overwritten by `src` when `src` has the key, followed by the
   * entries of `src` with new keys, in `src`'s order.
   */
  lemma {:induction false} SpreadShape<V>(rec: Record<V>, src: Record<V>)
    requires Keyed(rec) && Keyed(src)
    ensures Spread(rec, src) == Overridden(rec, src) + Without(src, Keys(rec))
    decreases |src|
  {
    if src == [] {
      assert Overridden(rec, src) == rec by { OverriddenEmpty(rec); }
    } else {
      var e := src[0];
      var rest := src[1..];
      assert src == [e] + rest;
      var rec' := Put(rec, e.0, e.1);
      assert Spread(rec, src) == Spread(rec', rest);
      if e.0 in Keys(rec) {
        PutPresentKeys(rec, e.0, e.1);
        SpreadShape(rec', rest);
        ShapeAfterPresent(rec, e, rest);
      } else {
        PutAbsent(rec, e.0, e.1);
        KeyedAppend(rec, e);
        SpreadShape(rec', rest);
        ShapeAfterAbsent(rec, e, rest);
      }
    }
  }

  /** One step of `SpreadShape` for a key `rec` already has. */
  lemma ShapeAfterPresent<V>(rec: Record<V>, e: (string, V), rest: Record<V>)
    requires Keyed(rec) && e.0 in Keys(rec) && e.0 !in Keys(rest)
    ensures Overridden(Put(rec, e.0, e.1), rest) + Without(rest, Keys(rec))
         == Overridden(rec, [e] + rest) + Without([e] + rest, Keys(rec))
  {
    var src := [e] + rest;
    assert src[0] == e && src[1..] == rest;
    assert Overridden(Put(rec, e.0, e.1), rest) == Overridden(rec, src) by {
      OverriddenPut(rec, e.0, e.1, rest);
    }
    assert Without(src, Keys(rec)) == Without(rest, Keys(rec)) by {
      assert Without(src, Keys(rec)) == [] + Without(rest, Keys(rec));
    }
  }

  /** One step of `SpreadShape` for a key `rec` does not have. */
  lemma ShapeAfterAbsent<V>(rec: Record<V>, e: (string, V), rest: Record<V>)
    requires e.0 !in Keys(rec) && e.0 !in Keys(rest)
    ensures Overridden(rec + [e], rest) + Without(rest, Keys(rec + [e]))
         == Overridden(rec, [e] + rest) + Without([e] + rest, Keys(rec))
  {
    var o := Overridden(rec, [e] + rest);
    var w := Without(rest, Keys(rec));
    calc {
      Overridden(rec + [e], rest) + Without(rest, Keys(rec + [e]));
    == { OverriddenAppend(rec, e, rest); LookupAbsent(rest, e.0);
         OverriddenIgnoresAbsent(rec, e.0, e.1, rest); }
      (o + [e]) + Without(rest, Keys(rec + [e]));
    == { KeysAppend(rec, e); WithoutExtra(rest, Keys(rec), e.0); }
      (o + [e]) + w;
    == { assert Without([e] + rest, Keys(rec)) == [e] + w; }
      o + Without([e] + rest, Keys(rec));
    }
  }

  lemma {:induction false} OverriddenEmpty<V>(rec: Record<V>)
    ensures Overridden(rec, []) == rec
  {
    if rec != [] {
      OverriddenEmpty(rec[1..]);
    }
  }

  lemma {:induction false} KeysAppend<V>(rec: Record<V>, e: (string, V))
    ensures Keys(rec + [e]) == Keys(rec) + {e.0}
  {
    if rec != [] {
      assert (rec + [e])[1..] == rec[1..] + [e];
      KeysAppend(rec[1..], e);
    }
  }

  lemma {:induction false} KeyedAppend<V>(rec: Record<V>, e: (string, V))
    requires Keyed(rec) && e.0 !in Keys(rec)
    ensures Keyed(rec + [e])
  {
    if rec != [] {
      assert (rec + [e])[1..] == rec[1..] + [e];
      KeysAppend(rec[1..], e);
      KeyedAppend(rec[1..], e);
    }
  }
}
