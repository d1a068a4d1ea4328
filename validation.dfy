/** validateEmail: String(email).toLowerCase() must match, as a whole, the
    pattern

      ^(([^<>()[\]\\.,;:\s@"]+(\.[^<>()[\]\\.,;:\s@"]+)*)|(".+"))
       @((\[[0-9]{1,3}\.[0-9]{1,3}\.[0-9]{1,3}\.[0-9]{1,3}\])|(([a-zA-Z\-0-9]+\.)+[a-zA-Z]{2,}))$

    Each group of the pattern is one predicate below; alternation is `||`,
    and the backtracking search for a split point is an `exists`. */
module Validation {
  import opened Js

  /** [^<>()[\]\\.,;:\s@"] */
  predicate AtomChar(c: char) {
    c !in "<>()[]\\.,;:@\"" && !IsJsWhitespace(c)
  }

  /** [a-zA-Z\-0-9] */
  predicate LabelChar(c: char) {
    ('a' <= c <= 'z') || ('A' <= c <= 'Z') || ('0' <= c <= '9') || c == '-'
  }

  /** [a-zA-Z] */
  predicate Letter(c: char) {
    ('a' <= c <= 'z') || ('A' <= c <= 'Z')
  }

  /** [0-9] */
  predicate Digit(c: char) {
    '0' <= c <= '9'
  }

  predicate AllOf(s: string, ok: char -> bool) {
    forall i | 0 <= i < |s| :: ok(s[i])
  }

  /** c+(\.c+)* : runs of characters of class `ok` joined by single dots. */
  predicate DotJoined(s: string, ok: char -> bool)
    decreases |s|
  {
    && |s| > 0 && ok(s[0])
    && (|s| == 1 || DotJoined(s[1..], ok) || (s[1] == '.' && DotJoined(s[2..], ok)))
  }

  /** The same language described by its shape: only dots and class
      characters, no dot at either end and no two dots in a row. */
  ghost predicate DotShape(s: string, ok: char -> bool) {
    && |s| > 0 && s[0] != '.' && s[|s| - 1] != '.'
    && (forall i | 0 <= i < |s| :: s[i] == '.' || ok(s[i]))
    && (forall i | 0 <= i < |s| - 1 :: s[i] == '.' ==> s[i + 1] != '.')
  }

  /** For a class without the dot, `c+(\.c+)*` is exactly the dot-shape. */
  lemma {:induction false} DotJoinedShape(s: string, ok: char -> bool)
    requires !ok('.')
    ensures DotJoined(s, ok) <==> DotShape(s, ok)
    decreases |s|
  {
    if |s| == 1 {
      assert DotShape(s, ok) ==> ok(s[0]);
    } else if |s| >= 2 {
      DotJoinedShape(s[1..], ok);
      if |s| >= 3 {
        DotJoinedShape(s[2..], ok);
      }
      if DotShape(s, ok) {
        assert ok(s[0]);
        if s[1] != '.' {
          ShapeTail(s, ok);
        } else {
          ShapeSplit(s, 1, ok);
        }
      }
      if DotJoined(s, ok) {
        assert s == [s[0]] + s[1..];
        if DotJoined(s[1..], ok) {
          ShapeCons(s[0], s[1..], ok);
        } else {
          assert s[1] == '.' && DotJoined(s[2..], ok);
          assert DotShape(s[2..], ok);
          assert DotShape([s[0]], ok);
          assert s == [s[0]] + "." + s[2..];
          ShapeJoin([s[0]], s[2..], ok);
        }
      }
    }
  }

  lemma ShapeCons(c: char, t: string, ok: char -> bool)
    requires ok(c) && !ok('.') && DotShape(t, ok)
    ensures DotShape([c] + t, ok)
  {
    var s := [c] + t;
    assert forall i | 1 <= i < |s| :: s[i] == t[i - 1];
  }

  lemma ShapeTail(s: string, ok: char -> bool)
    requires DotShape(s, ok) && |s| >= 2 && s[1] != '.'
    ensures DotShape(s[1..], ok)
  {
    var t := s[1..];
    assert forall i | 0 <= i < |t| :: t[i] == s[i + 1];
  }

  /** ".+" : a double quote, at least one character that is not a line
      terminator (quotes and '@' included), and a double quote. */
  predicate QuotedLocal(s: string) {
    && |s| >= 3 && s[0] == '"' && s[|s| - 1] == '"'
    && forall i | 1 <= i < |s| - 1 :: !IsLineTerminator(s[i])
  }

  /** The local part: dot-separated atoms, or a quoted string. */
  predicate LocalPart(s: string) {
    DotJoined(s, AtomChar) || QuotedLocal(s)
  }

  /** [0-9]{1,3} */
  predicate DigitGroup(g: string) {
    1 <= |g| <= 3 && AllOf(g, Digit)
  }

  /** n groups of [0-9]{1,3} separated by dots. A group holds no dot, so a
      group can only end at the next dot. */
  predicate DigitGroups(s: string, n: nat)
    decreases n
  {
    if n <= 1 then n == 1 && DigitGroup(s)
    else
      var k := IndexOf(s, '.');
      k < |s| && DigitGroup(s[..k]) && DigitGroups(s[k + 1..], n - 1)
  }

  /** \[[0-9]{1,3}\.[0-9]{1,3}\.[0-9]{1,3}\.[0-9]{1,3}\] (no 0..255 check). */
  predicate IpLiteral(s: string) {
    |s| >= 2 && s[0] == '[' && s[|s| - 1] == ']' && DigitGroups(s[1..|s| - 1], 4)
  }

  /** [a-zA-Z]{2,} */
  predicate TopLevel(s: string) {
    |s| >= 2 && AllOf(s, Letter)
  }

  /** ([a-zA-Z\-0-9]+\.)+[a-zA-Z]{2,} : one or more labels each followed by a
      dot, then the top-level label. */
  predicate HostName(s: string)
    decreases |s|
  {
    exists k | 0 < k < |s| ::
      && s[k] == '.' && AllOf(s[..k], LabelChar)
      && (TopLevel(s[k + 1..]) || HostName(s[k + 1..]))
  }

  /** The domain: a bracketed IPv4-like literal or a host name. */
  predicate DomainPart(s: string) {
    IpLiteral(s) || HostName(s)
  }

  /** The anchored pattern: some '@' splits the string into a local part and
      a domain. */
  predicate EmailPattern(s: string) {
    exists p | 0 <= p < |s| :: SplitsAt(s, p)
  }

  /** The '@' at p separates a local part from a domain. */
  predicate SplitsAt(s: string, p: int) {
    0 <= p < |s| && s[p] == '@' && LocalPart(s[..p]) && DomainPart(s[p + 1..])
  }

  /** validateEmail(email) (utils/validation.js). */
  predicate ValidateEmail(email: JsValue) {
    EmailPattern(ToLower(ToJsString(email)))
  }

  // ---------------------------------------------------------------------
  // The shape of the host-name form

  lemma AllOfShape(s: string, ok: char -> bool)
    requires !ok('.') && |s| > 0 && AllOf(s, ok)
    ensures DotShape(s, ok) && '.' !in s
  {
  }

  /** Dot-shapes joined by a dot form a dot-shape. */
  lemma ShapeJoin(a: string, b: string, ok: char -> bool)
    requires DotShape(a, ok) && DotShape(b, ok)
    ensures DotShape(a + "." + b, ok)
  {
    var s := a + "." + b;
    forall i | 0 <= i < |s| - 1 && s[i] == '.' ensures s[i + 1] != '.' {
      if i < |a| - 1 {
        assert s[i] == a[i] && s[i + 1] == a[i + 1];
      } else if i >= |a| + 1 {
        assert s[i] == b[i - |a| - 1] && s[i + 1] == b[i - |a|];
      }
    }
    forall i | 0 <= i < |s| ensures s[i] == '.' || ok(s[i]) {
      if i < |a| { assert s[i] == a[i]; } else if i > |a| { assert s[i] == b[i - |a| - 1]; }
    }
  }

  /** Cutting a dot-shape at one of its dots leaves dot-shapes on both sides. */
  lemma ShapeSplit(a: string, k: nat, ok: char -> bool)
    requires DotShape(a, ok) && k < |a| && a[k] == '.'
    ensures 0 < k < |a| - 1
    ensures DotShape(a[..k], ok) && DotShape(a[k + 1..], ok)
  {
    var l, r := a[..k], a[k + 1..];
    assert forall i | 0 <= i < |l| :: l[i] == a[i];
    assert forall i | 0 <= i < |r| :: r[i] == a[k + 1 + i];
  }

  /** The top-level label follows a dot and a dot-shape of label characters. */
  ghost predicate HostShape(s: string) {
    exists d | 0 < d < |s| :: s[d] == '.' && DotShape(s[..d], LabelChar) && TopLevel(s[d + 1..])
  }

  /** The host-name form is exactly: a dot-shape of label characters, a dot,
      and a top-level label of at least two letters after the last dot. */
  lemma HostNameShape(s: string)
    ensures HostName(s) <==> HostShape(s)
  {
    if HostName(s) {
      HostNameToShape(s);
    }
    if HostShape(s) {
      ShapeToHostName(s);
    }
  }

  lemma {:induction false} HostNameToShape(s: string)
    requires HostName(s)
    ensures HostShape(s)
    decreases |s|
  {
    var k :| 0 < k < |s| && s[k] == '.' && AllOf(s[..k], LabelChar)
              && (TopLevel(s[k + 1..]) || HostName(s[k + 1..]));
    AllOfShape(s[..k], LabelChar);
    if TopLevel(s[k + 1..]) {
      assert s[k] == '.' && DotShape(s[..k], LabelChar) && TopLevel(s[k + 1..]);
    } else {
      HostNameToShape(s[k + 1..]);
      HostShapeCons(s, k);
    }
  }

  /** A label and a dot in front of a host shape give a host shape. */
  lemma HostShapeCons(s: string, k: nat)
    requires 0 < k < |s| && s[k] == '.' && DotShape(s[..k], LabelChar)
    requires HostShape(s[k + 1..])
    ensures HostShape(s)
  {
    var rest := s[k + 1..];
    var d' :| 0 < d' < |rest| && rest[d'] == '.' && DotShape(rest[..d'], LabelChar) && TopLevel(rest[d' + 1..]);
    var d := k + 1 + d';
    ShapeJoin(s[..k], rest[..d'], LabelChar);
    SliceAround(s, k, d);
    HostShapeAt(s, d);
  }

  lemma HostShapeAt(s: string, d: nat)
    requires 0 < d < |s| && s[d] == '.' && DotShape(s[..d], LabelChar) && TopLevel(s[d + 1..])
    ensures HostShape(s)
  {
  }

  /** Slices of s around a dot at k, seen through the suffix after k. */
  lemma SliceAround(s: string, k: nat, d: nat)
    requires k < d < |s| && s[k] == '.'
    ensures s[..d] == s[..k] + "." + s[k + 1..][..d - k - 1]
    ensures s[d + 1..] == s[k + 1..][d - k..]
    ensures s[d] == s[k + 1..][d - k - 1]
    ensures s[..d][..k] == s[..k] && s[..d][k + 1..] == s[k + 1..][..d - k - 1]
  {
  }

  lemma {:induction false} ShapeToHostName(s: string)
    requires HostShape(s)
    ensures HostName(s)
    decreases |s|
  {
    var d :| 0 < d < |s| && s[d] == '.' && DotShape(s[..d], LabelChar) && TopLevel(s[d + 1..]);
    var k := IndexOf(s[..d], '.');
    assert s[..d][..k] == s[..k];
    if k == d {
      assert AllOf(s[..d], LabelChar);
      HostNameAt(s, d);
    } else {
      ShapeAfterFirstDot(s, d, k);
      ShapeToHostName(s[k + 1..]);
      HostNameAt(s, k);
    }
  }

  /** One label and a dot, then a top-level label or a host name. */
  lemma HostNameAt(s: string, k: nat)
    requires 0 < k < |s| && s[k] == '.' && AllOf(s[..k], LabelChar)
    requires TopLevel(s[k + 1..]) || HostName(s[k + 1..])
    ensures HostName(s)
  {
  }

  /** Past the first dot of a host shape, a host shape remains. */
  lemma ShapeAfterFirstDot(s: string, d: nat, k: nat)
    requires 0 < d < |s| && s[d] == '.' && DotShape(s[..d], LabelChar) && TopLevel(s[d + 1..])
    requires k < d && s[k] == '.' && '.' !in s[..k]
    ensures 0 < k && s[k] == '.' && AllOf(s[..k], LabelChar) && HostShape(s[k + 1..])
  {
    SliceAround(s, k, d);
    ShapeSplit(s[..d], k, LabelChar);
    var rest := s[k + 1..];
    var d' := d - k - 1;
    assert rest[d'] == '.' && DotShape(rest[..d'], LabelChar) && TopLevel(rest[d' + 1..]);
  }

  // ---------------------------------------------------------------------
  // Where the '@' goes

  lemma {:induction false} DigitGroupsNoAt(s: string, n: nat)
    requires DigitGroups(s, n)
    ensures forall i | 0 <= i < |s| :: s[i] != '@'
    decreases n
  {
    if n > 1 {
      var k := IndexOf(s, '.');
      DigitGroupsNoAt(s[k + 1..], n - 1);
      forall i | 0 <= i < |s| ensures s[i] != '@' {
        if i < k {
          assert s[..k][i] == s[i];
        } else if i > k {
          assert s[k + 1..][i - k - 1] == s[i];
        }
      }
    }
  }

  lemma {:induction false} HostNameNoAt(s: string)
    requires HostName(s)
    ensures forall i | 0 <= i < |s| :: s[i] != '@'
    decreases |s|
  {
    var k :| 0 < k < |s| && s[k] == '.' && AllOf(s[..k], LabelChar)
              && (TopLevel(s[k + 1..]) || HostName(s[k + 1..]));
    if !TopLevel(s[k + 1..]) {
      HostNameNoAt(s[k + 1..]);
    }
    forall i | 0 <= i < |s| ensures s[i] != '@' {
      if i < k {
        assert s[..k][i] == s[i];
      } else if i > k {
        assert s[k + 1..][i - k - 1] == s[i];
      }
    }
  }

  /** Neither domain form contains '@'. */
  lemma DomainNoAt(s: string)
    requires DomainPart(s)
    ensures '@' !in s
  {
    if IpLiteral(s) {
      var g := s[1..|s| - 1];
      DigitGroupsNoAt(g, 4);
      forall i | 0 <= i < |s| ensures s[i] != '@' {
        if 0 < i < |s| - 1 {
          assert g[i - 1] == s[i];
        }
      }
    } else {
      HostNameNoAt(s);
    }
  }

  /** Because the domain holds no '@', the pattern can only split at the
      last '@': an address is valid exactly when what precedes its last '@'
      is a local part and what follows is a domain. */
  lemma SplitAtLastAt(local: string, domain: string)
    requires '@' !in domain
    ensures EmailPattern(local + "@" + domain) <==> LocalPart(local) && DomainPart(domain)
  {
    var s := local + "@" + domain;
    assert s[..|local|] == local && s[|local| + 1..] == domain;
    if LocalPart(local) && DomainPart(domain) {
      assert SplitsAt(s, |local|);
    }
    if EmailPattern(s) {
      var p :| 0 <= p < |s| && SplitsAt(s, p);
      DomainNoAt(s[p + 1..]);
      OnlyAt(local, domain, p);
    }
  }

  /** The only '@' with no '@' after it is the one before the domain. */
  lemma OnlyAt(local: string, domain: string, p: nat)
    requires '@' !in domain
    requires var s := local + "@" + domain; p < |s| && s[p] == '@' && '@' !in s[p + 1..]
    ensures p == |local|
  {
    var s := local + "@" + domain;
    var p0 := |local|;
    forall i | p0 < i < |s| ensures s[i] != '@' {
      assert s[i] == domain[i - p0 - 1];
    }
    forall i | p < i < |s| ensures s[i] != '@' {
      assert s[i] == s[p + 1..][i - p - 1];
    }
    assert s[p0] == '@';
  }

  lemma LowerNoAt(s: string)
    requires '@' !in s
    ensures '@' !in ToLower(s)
  {
  }

  /** Acceptance ignores case: an input and its lowercase form agree. */
  lemma ValidateEmailIgnoresCase(s: string)
    ensures ValidateEmail(Str(s)) == ValidateEmail(Str(ToLower(s)))
  {
    ToLowerIdempotent(s);
  }

  /** Non-string inputs other than arrays are converted with String() to a
      text without '@' (null becomes "null"), so they are rejected. */
  lemma NonStringsRejected(v: JsValue)
    requires !v.Str? && !v.Array?
    ensures !ValidateEmail(v)
  {
    LowerNoAt(ToJsString(v));
  }

  /** An array is validated as its comma-joined String(): a one-element
      array is accepted exactly when its element is. */
  lemma SingletonArrayValidated(s: string)
    ensures ValidateEmail(Array([Str(s)])) == ValidateEmail(Str(s))
  {
    SingletonArrayString(Str(s));
  }

  /** So ["a@b.co"] passes validateEmail. */
  lemma ArrayAccepted()
    ensures ValidateEmail(Array([Str("a@b.co")]))
  {
    HostAccepted();
    SingletonArrayValidated("a@b.co");
  }

  /** An array of two addresses joins to text with a comma before the '@'
      of the second, which no local part admits. */
  lemma TwoElementArrayRejected()
    ensures !ValidateEmail(Array([Str("a@b.co"), Str("c@d.io")]))
  {
    var s := "a@b.co,c@d.io";
    assert ToJsString(Array([Str("a@b.co"), Str("c@d.io")])) == s;
    NoUpperFixed(s);
    var l := "a@b.co,c";
    assert s == l + "@" + "d.io";
    assert l[0] != '"' && l[6] == ',';
    LocalPartNoComma(l, 6);
    SplitAtLastAt(l, "d.io");
  }

  /** Outside quotes a local part holds no comma. */
  lemma LocalPartNoComma(l: string, i: nat)
    requires i < |l| && l[i] == ',' && l[0] != '"'
    ensures !LocalPart(l)
  {
    if DotJoined(l, AtomChar) {
      DotJoinedShape(l, AtomChar);
    }
  }

  // ---------------------------------------------------------------------
  // Examples

  /** A host name needs a dot: a single label is rejected. */
  lemma NoDotRejected()
    ensures !ValidateEmail(Str("a@localhost"))
  {
    var d := "localhost";
    assert ToLower("a@localhost") == "a" + "@" + d;
    assert '.' !in d;
    if HostName(d) {
      HostNameHasDot(d);
    }
    SplitAtLastAt("a", d);
  }

  lemma HostNameHasDot(s: string)
    requires HostName(s)
    ensures '.' in s
  {
    var k :| 0 < k < |s| && s[k] == '.';
  }

  /** A host name ends in two letters, after at least a label and a dot. */
  lemma HostNameEnd(s: string)
    requires HostName(s)
    ensures |s| >= 4 && Letter(s[|s| - 1]) && Letter(s[|s| - 2])
  {
    HostNameToShape(s);
    var d :| 0 < d < |s| && s[d] == '.' && DotShape(s[..d], LabelChar) && TopLevel(s[d + 1..]);
    var top := s[d + 1..];
    assert top[|top| - 1] == s[|s| - 1] && top[|top| - 2] == s[|s| - 2];
  }

  /** The top-level label needs two letters or more. */
  lemma ShortTopLevelRejected()
    ensures !ValidateEmail(Str("a@b.c"))
  {
    var d := "b.c";
    assert ToLower("a@b.c") == "a" + "@" + d;
    assert !HostName(d) by {
      if HostName(d) {
        HostNameEnd(d);
      }
    }
    SplitAtLastAt("a", d);
  }

  /** A two-letter top-level label is accepted. */
  lemma HostAccepted()
    ensures ValidateEmail(Str("a@b.co"))
  {
    var s := "a@b.co";
    LowerExample();
    LabelDotTop("b", "co");
    assert AtomChar('a') && DotJoined("a", AtomChar);
    assert s[..1] == "a" && s[2..] == "b" + "." + "co";
    AcceptedAt(s, 1);
  }

  /** A lower-case string that splits at p is accepted. */
  lemma AcceptedAt(s: string, p: int)
    requires ToLower(s) == s && SplitsAt(s, p)
    ensures ValidateEmail(Str(s))
  {
  }

  /** One label, a dot and a top-level label form a host name. */
  lemma LabelDotTop(first: string, top: string)
    requires |first| > 0 && AllOf(first, LabelChar) && TopLevel(top)
    ensures HostName(first + "." + top)
  {
    var d := first + "." + top;
    assert d[..|first|] == first && d[|first| + 1..] == top;
    assert d[|first|] == '.';
  }

  /** Upper case is accepted as its lower-case form. */
  lemma UpperCaseAccepted()
    ensures ValidateEmail(Str("A@B.CO"))
  {
    HostAccepted();
    LowerExample();
  }

  lemma LowerExample()
    ensures ToLower("a@b.co") == ToLower("A@B.CO") == "a@b.co"
  {
    assert LowerChar('A') == 'a' && LowerChar('B') == 'b';
    assert LowerChar('C') == 'c' && LowerChar('O') == 'o';
  }

  /** A group of one to three digits and a dot in front of n groups. */
  lemma DigitGroupsCons(a: string, rest: string, n: nat)
    requires DigitGroup(a) && n >= 1 && DigitGroups(rest, n)
    ensures DigitGroups(a + "." + rest, n + 1)
  {
    var s := a + "." + rest;
    assert s[..|a|] == a && s[|a|] == '.' && s[|a| + 1..] == rest;
    IndexOfFirst(s, '.', |a|);
  }

  /** Any groups of one to three digits joined by dots form that many groups. */
  lemma {:induction false} JoinDigitGroups(gs: seq<string>)
    requires |gs| >= 1 && forall i | 0 <= i < |gs| :: DigitGroup(gs[i])
    ensures DigitGroups(Join(gs, '.'), |gs|)
    decreases |gs|
  {
    if |gs| > 1 {
      JoinDigitGroups(gs[1..]);
      DigitGroupsCons(gs[0], Join(gs[1..], '.'), |gs| - 1);
    }
  }

  /** The bracketed form checks digit counts only, not the 0..255 range:
      any four groups of one to three digits are accepted, "[999.1.1.1]"
      among them. */
  lemma IpLiteralAccepted(gs: seq<string>)
    requires |gs| == 4 && forall i | 0 <= i < 4 :: DigitGroup(gs[i])
    ensures DomainPart("[" + Join(gs, '.') + "]")
  {
    JoinDigitGroups(gs);
    IpLiteralOf(Join(gs, '.'));
  }

  lemma IpLiteralOf(g: string)
    requires DigitGroups(g, 4)
    ensures IpLiteral("[" + g + "]")
  {
    var s := "[" + g + "]";
    assert s[1..|s| - 1] == g;
  }

  /** The quoted form admits '@' and spaces inside the quotes. */
  lemma QuotedExample()
    ensures ValidateEmail(Str("\"a b@c\"@x.io"))
  {
    var l := "\"a b@c\"";
    var s := "\"a b@c\"@x.io";
    assert QuotedLocal(l);
    LabelDotTop("x", "io");
    NoUpperFixed(s);
    assert s[..7] == l && s[8..] == "x" + "." + "io";
    assert SplitsAt(s, 7);
  }

  /** A string without upper-case ASCII letters is its own lower-case form. */
  lemma NoUpperFixed(s: string)
    requires forall i | 0 <= i < |s| :: !('A' <= s[i] <= 'Z')
    ensures ToLower(s) == s
  {
  }
}
