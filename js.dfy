/** JavaScript values and the few string operations of the ECMAScript runtime
    that the request handlers rely on: truthiness, String(v), trim(),
    toLowerCase(), startsWith() and split(). */
module Js {

  /** A nullable value (a Sequelize column that allows NULL, an optional argument). */
  datatype Option<T> = None | Some(value: T)

  /** A value taken from a parsed JSON request body. Numbers are modelled as
      integers; an object's members are not modelled, an array's elements are. */
  datatype JsValue =
    | Undefined
    | Null
    | Bool(b: bool)
    | Num(n: int)
    | Str(s: string)
    | Object
    | Array(elems: seq<JsValue>)

  /** ECMAScript ToBoolean: undefined, null, false, 0 and "" are falsy. */
  predicate Truthy(v: JsValue) {
    match v
    case Undefined => false
    case Null => false
    case Bool(b) => b
    case Num(n) => n != 0
    case Str(s) => s != ""
    case Object => true
    case Array(_) => true
  }

  /** The operands on which `??` falls back to its right-hand side. */
  predicate Nullish(v: JsValue) {
    v.Undefined? || v.Null?
  }

  lemma NullishIsFalsy(v: JsValue)
    ensures Nullish(v) ==> !Truthy(v)
    ensures Truthy(v) ==> !Nullish(v)
  {
  }

  /** The decimal digits of a natural number. */
  function NatToString(n: nat): (r: string)
    ensures |r| > 0
    ensures forall i | 0 <= i < |r| :: '0' <= r[i] <= '9'
    decreases n
  {
    var d := ['0' + (n % 10) as char];
    if n < 10 then d else NatToString(n / 10) + d
  }

  /** ECMAScript String(v) for the values of this model. An array converts
      through Array.prototype.join: its elements' forms joined by commas. */
  function ToJsString(v: JsValue): (r: string)
    ensures v.Str? ==> r == v.s
    ensures !v.Str? && !v.Array? ==> '@' !in r
    decreases v
  {
    match v
    case Undefined => "undefined"
    case Null => "null"
    case Bool(b) => if b then "true" else "false"
    case Num(n) => if n < 0 then "-" + NatToString(-n) else NatToString(n)
    case Str(s) => s
    case Object => "[object Object]"
    case Array(es) => JoinElements(es)
  }

  /** Array.prototype.join(","): each element in String() form, except that
      undefined and null elements become the empty string. */
  function JoinElements(es: seq<JsValue>): string
    decreases es
  {
    if es == [] then ""
    else
      var first := if Nullish(es[0]) then "" else ToJsString(es[0]);
      if |es| == 1 then first else first + "," + JoinElements(es[1..])
  }

  /** A one-element array converts to its element's form, so ["a@b.co"]
      and "a@b.co" have the same String(). */
  lemma SingletonArrayString(v: JsValue)
    ensures ToJsString(Array([v])) == if Nullish(v) then "" else ToJsString(v)
  {
  }

  /** The form each element takes inside an array's String(). */
  function ElementText(v: JsValue): string {
    if Nullish(v) then "" else ToJsString(v)
  }

  function ElementTexts(es: seq<JsValue>): (r: seq<string>)
    ensures |r| == |es| && forall i | 0 <= i < |es| :: r[i] == ElementText(es[i])
  {
    seq(|es|, i requires 0 <= i < |es| => ElementText(es[i]))
  }

  /** An array's String() is its elements' forms joined by commas. */
  lemma {:induction false} ArrayStringIsJoin(es: seq<JsValue>)
    ensures ToJsString(Array(es)) == Join(ElementTexts(es), ',')
    decreases |es|
  {
    if |es| > 1 {
      ArrayStringIsJoin(es[1..]);
      assert ElementTexts(es)[1..] == ElementTexts(es[1..]);
    }
  }

  /** The elements' forms can be read back from an array's String() by
      splitting at the commas, when none of them holds a comma. */
  lemma ArrayStringSplits(es: seq<JsValue>)
    requires es != []
    requires forall i | 0 <= i < |es| :: ',' !in ElementText(es[i])
    ensures Split(ToJsString(Array(es)), ',') == ElementTexts(es)
  {
    ArrayStringIsJoin(es);
    SplitOfJoin(ElementTexts(es), ',');
  }

  /** ECMAScript LineTerminator code points (excluded by the regex `.`). */
  predicate IsLineTerminator(c: char) {
    c == '\n' || c == '\r' || c == '\U{2028}' || c == '\U{2029}'
  }

  /** ECMAScript WhiteSpace or LineTerminator: what trim() removes and what
      the regex class `\s` matches. */
  predicate IsJsWhitespace(c: char) {
    || IsLineTerminator(c)
    || c == '\t' || c == '\U{B}' || c == '\U{C}' || c == ' '
    || c == '\U{A0}' || c == '\U{1680}'
    || ('\U{2000}' <= c <= '\U{200A}')
    || c == '\U{202F}' || c == '\U{205F}' || c == '\U{3000}' || c == '\U{FEFF}'
  }

  /** True when every character of `s` is whitespace (the empty string included). */
  predicate Blank(s: string) {
    forall i | 0 <= i < |s| :: IsJsWhitespace(s[i])
  }

  /** The index of the first non-whitespace character at or after `i`, or
      |s| when there is none. */
  function SkipForward(s: string, i: nat): (j: nat)
    requires i <= |s|
    ensures i <= j <= |s|
    ensures forall k | i <= k < j :: IsJsWhitespace(s[k])
    ensures j < |s| ==> !IsJsWhitespace(s[j])
    decreases |s| - i
  {
    if i == |s| || !IsJsWhitespace(s[i]) then i else SkipForward(s, i + 1)
  }

  /** The index just past the last non-whitespace character of s[lo..j], or
      lo when there is none. */
  function SkipBackward(s: string, lo: nat, j: nat): (i: nat)
    requires lo <= j <= |s|
    ensures lo <= i <= j
    ensures forall k | i <= k < j :: IsJsWhitespace(s[k])
    ensures i > lo ==> !IsJsWhitespace(s[i - 1])
    decreases j
  {
    if j == lo || !IsJsWhitespace(s[j - 1]) then j else SkipBackward(s, lo, j - 1)
  }

  /** How many leading whitespace characters trim() drops. */
  function TrimOffset(s: string): (i: nat)
    ensures i <= |s|
  {
    SkipForward(s, 0)
  }

  /** String.prototype.trim: the slice of `s` that is left after dropping the
      whitespace at both ends. */
  function Trim(s: string): (r: string)
    ensures TrimOffset(s) + |r| <= |s|
    ensures r == s[TrimOffset(s)..TrimOffset(s) + |r|]
    ensures Blank(s[..TrimOffset(s)]) && Blank(s[TrimOffset(s) + |r|..])
    ensures r == [] <==> Blank(s)
    ensures r != [] ==> !IsJsWhitespace(r[0]) && !IsJsWhitespace(r[|r| - 1])
  {
    var a := SkipForward(s, 0);
    var b := SkipBackward(s, a, |s|);
    TrimCut(s, a, b);
    s[a..b]
  }

  /** Cutting at the two skip points drops whitespace only, and keeps a
      non-whitespace character at each end of what is left. */
  lemma TrimCut(s: string, a: nat, b: nat)
    requires a <= b <= |s|
    requires forall k | 0 <= k < a :: IsJsWhitespace(s[k])
    requires forall k | b <= k < |s| :: IsJsWhitespace(s[k])
    requires a < |s| ==> !IsJsWhitespace(s[a])
    requires b > a ==> !IsJsWhitespace(s[b - 1])
    ensures Blank(s[..a]) && Blank(s[b..])
    ensures a == b <==> Blank(s)
    ensures var r := s[a..b]; r != [] ==> !IsJsWhitespace(r[0]) && !IsJsWhitespace(r[|r| - 1])
  {
    assert forall k | 0 <= k < a :: s[..a][k] == s[k];
    assert forall k | 0 <= k < |s| - b :: s[b..][k] == s[b + k];
    if a < b {
      assert !IsJsWhitespace(s[a]);
    }
  }

  /** Trimming a trimmed string changes nothing. */
  lemma TrimIdempotent(s: string)
    ensures Trim(Trim(s)) == Trim(s)
  {
    var r := Trim(s);
    TrimmedIsFixed(r);
  }

  lemma TrimmedIsFixed(r: string)
    requires r == [] || (!IsJsWhitespace(r[0]) && !IsJsWhitespace(r[|r| - 1]))
    ensures Trim(r) == r
  {
    assert SkipForward(r, 0) == 0;
    assert SkipBackward(r, 0, |r|) == |r|;
    assert r[0..|r|] == r;
  }

  /** toLowerCase on one character (ASCII letters only). */
  function LowerChar(c: char): char {
    if 'A' <= c <= 'Z' then (c as int + 32) as char else c
  }

  /** String.prototype.toLowerCase, restricted to ASCII case mapping. */
  function ToLower(s: string): (r: string)
    ensures |r| == |s|
    ensures forall i | 0 <= i < |s| :: r[i] == LowerChar(s[i])
  {
    seq(|s|, i requires 0 <= i < |s| => LowerChar(s[i]))
  }

  lemma ToLowerIdempotent(s: string)
    ensures ToLower(ToLower(s)) == ToLower(s)
  {
  }

  /** Lowercasing never turns whitespace into non-whitespace or back. */
  lemma LowerKeepsWhitespace(c: char)
    ensures IsJsWhitespace(LowerChar(c)) <==> IsJsWhitespace(c)
  {
  }

  lemma ToLowerPrefixSuffix(s: string, i: int, j: int)
    requires 0 <= i <= j <= |s|
    ensures ToLower(s)[i..j] == ToLower(s[i..j])
  {
  }

  /** trim() and toLowerCase() commute, so `s.trim().toLowerCase()` equals
      `s.toLowerCase().trim()`. */
  lemma TrimLowerCommute(s: string)
    ensures ToLower(Trim(s)) == Trim(ToLower(s))
  {
    var a := SkipForward(s, 0);
    SkipForwardLower(s, 0);
    SkipBackwardLower(s, a, |s|);
    ToLowerPrefixSuffix(s, a, SkipBackward(s, a, |s|));
  }

  /** Lowercasing moves no whitespace, so the forward skip point stays. */
  lemma {:induction false} SkipForwardLower(s: string, i: nat)
    requires i <= |s|
    ensures SkipForward(ToLower(s), i) == SkipForward(s, i)
    decreases |s| - i
  {
    if i < |s| {
      LowerKeepsWhitespace(s[i]);
      if IsJsWhitespace(s[i]) {
        SkipForwardLower(s, i + 1);
      }
    }
  }

  /** Likewise the backward skip point. */
  lemma {:induction false} SkipBackwardLower(s: string, lo: nat, j: nat)
    requires lo <= j <= |s|
    ensures SkipBackward(ToLower(s), lo, j) == SkipBackward(s, lo, j)
    decreases j
  {
    if lo < j {
      LowerKeepsWhitespace(s[j - 1]);
      if IsJsWhitespace(s[j - 1]) {
        SkipBackwardLower(s, lo, j - 1);
      }
    }
  }

  /** String.prototype.startsWith. */
  predicate StartsWith(s: string, prefix: string) {
    |prefix| <= |s| && s[..|prefix|] == prefix
  }

  /** The index of the first `c` in `s`, or |s| when there is none. */
  function IndexOf(s: string, c: char): (k: nat)
    ensures k <= |s|
    ensures k < |s| ==> s[k] == c
    ensures c !in s[..k]
    decreases |s|
  {
    if s == [] then 0
    else if s[0] == c then 0
    else 1 + IndexOf(s[1..], c)
  }

  /** The first occurrence is the one with none before it. */
  lemma {:induction false} IndexOfFirst(s: string, c: char, k: nat)
    requires k < |s| && s[k] == c && c !in s[..k]
    ensures IndexOf(s, c) == k
    decreases k
  {
    if k > 0 {
      assert s[0] == s[..k][0];
      assert s[1..][..k - 1] == s[1..k];
      IndexOfFirst(s[1..], c, k - 1);
    }
  }

  /** String.prototype.split with a one-character separator. */
  function Split(s: string, c: char): (r: seq<string>)
    ensures |r| >= 1
    ensures forall i | 0 <= i < |r| :: c !in r[i]
    decreases |s|
  {
    var k := IndexOf(s, c);
    if k == |s| then [s] else [s[..k]] + Split(s[k + 1..], c)
  }

  /** Array.prototype.join with a one-character separator. */
  function Join(parts: seq<string>, c: char): string
    decreases |parts|
  {
    if |parts| <= 1 then (if parts == [] then "" else parts[0])
    else parts[0] + [c] + Join(parts[1..], c)
  }

  /** Joining the fields of a split restores the string. */
  lemma {:induction false} SplitJoin(s: string, c: char)
    ensures Join(Split(s, c), c) == s
    decreases |s|
  {
    var k := IndexOf(s, c);
    if k == |s| {
      assert Split(s, c) == [s];
    } else {
      var rest := Split(s[k + 1..], c);
      assert Split(s, c) == [s[..k]] + rest;
      SplitJoin(s[k + 1..], c);
      JoinCons(s[..k], rest, c);
      assert s == s[..k] + [c] + s[k + 1..];
    }
  }

  lemma JoinCons(p: string, rest: seq<string>, c: char)
    requires |rest| >= 1
    ensures Join([p] + rest, c) == p + [c] + Join(rest, c)
  {
    assert ([p] + rest)[1..] == rest;
  }

  /** Splitting undoes joining when no field holds the separator. */
  lemma {:induction false} SplitOfJoin(fields: seq<string>, c: char)
    requires |fields| >= 1 && forall i | 0 <= i < |fields| :: c !in fields[i]
    ensures Split(Join(fields, c), c) == fields
    decreases |fields|
  {
    if |fields| == 1 {
      SplitNoSeparator(fields[0], c);
    } else {
      var rest := fields[1..];
      assert forall i | 0 <= i < |rest| :: rest[i] == fields[i + 1];
      SplitOfJoin(rest, c);
      assert Join(fields, c) == fields[0] + [c] + Join(rest, c);
      SplitCons(fields[0], Join(rest, c), c);
      assert fields == [fields[0]] + rest;
    }
  }

  /** A string without the separator is a single field. */
  lemma SplitNoSeparator(s: string, c: char)
    requires c !in s
    ensures Split(s, c) == [s]
  {
    assert IndexOf(s, c) == |s|;
  }

  /** A separator-free prefix and a separator split off as the first field. */
  lemma SplitCons(a: string, rest: string, c: char)
    requires c !in a
    ensures Split(a + [c] + rest, c) == [a] + Split(rest, c)
  {
    var s := a + [c] + rest;
    assert s[..|a|] == a;
    IndexOfFirst(s, c, |a|);
    assert s[|a| + 1..] == rest;
  }

  /** The first field of a split is everything before the first separator. */
  lemma SplitHead(s: string, c: char)
    ensures Split(s, c)[0] == s[..IndexOf(s, c)]
  {
  }

  /** The second field of a split, when there is a separator, is what lies
      between the first separator and the next one. */
  lemma SplitSecond(s: string, c: char)
    requires c in s
    ensures |Split(s, c)| >= 2
    ensures var k := IndexOf(s, c);
            Split(s, c)[1] == s[k + 1..][..IndexOf(s[k + 1..], c)]
  {
    var k := IndexOf(s, c);
    assert s[..|s|] == s;
    SplitHead(s[k + 1..], c);
  }
}
